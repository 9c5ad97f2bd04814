/** The canonical writer as the program has it, appending to a buffer, and the round trip of a
    whole report file. */
module ReportWriter {
  import opened Sorting
  import opened ReportText
  import ReportParser
  import ReportRoundTrip

  /** Appends a string's text, one rune at a time. */
  method WriteJsonString(out: string, s: string) returns (r: string)
    ensures r == out + StringText(s)
  {
    hide EscapeChar;
    r := out + "\"";
    for k := 0 to |s|
      invariant r + Escaped(s[k..]) == out + "\"" + Escaped(s)
    {
      assert s[k..][0] == s[k] && s[k..][1..] == s[k + 1..];
      var c := s[k];
      assert r + EscapeChar(c) + Escaped(s[k + 1..]) == r + (EscapeChar(c) + Escaped(s[k + 1..]));
      r := r + EscapeChar(c);
    }
    assert r + Escaped("") == r;
    r := r + "\"";
    assert r == out + ("\"" + Escaped(s) + "\"");
  }

  /** Compares two keys unit by unit. */
  method LessUtf16(a: string, b: string) returns (less: bool)
    ensures less == Less(Utf16(a), Utf16(b))
  {
    hide Utf16;
    var ua, ub := Utf16(a), Utf16(b);
    var x := 0;
    while x < |ua| && x < |ub|
      invariant x <= |ua| && x <= |ub| && Less(ua, ub) == Less(ua[x..], ub[x..])
      decreases |ua| - x
    {
      assert ua[x..][1..] == ua[x + 1..] && ub[x..][1..] == ub[x + 1..];
      if ua[x] != ub[x] {
        return ua[x] < ub[x];
      }
      x := x + 1;
    }
    less := |ua| < |ub|;
  }

  // ---- Sorting members and normalising their values commute ----

  lemma {:induction false} NormalInsert(m: Member, ms: seq<Member>)
    ensures NormalMembers(Insert(m, ms, MemberKey)) == Insert(Member(m.key, Normal(m.value)), NormalMembers(ms), MemberKey)
  {
    hide Normal, Utf16, Less;
    if ms != [] {
      assert NormalMembers(ms)[0].key == ms[0].key && NormalMembers(ms)[1..] == NormalMembers(ms[1..]);
      NormalInsert(m, ms[1..]);
      assert ([ms[0]] + Insert(m, ms[1..], MemberKey))[1..] == Insert(m, ms[1..], MemberKey);
      assert ([m] + ms)[1..] == ms;
    }
  }

  lemma {:induction false} NormalSort(ms: seq<Member>)
    ensures NormalMembers(Sort(ms, MemberKey)) == Sort(NormalMembers(ms), MemberKey)
  {
    hide Normal, Utf16, Insert;
    if ms != [] {
      assert NormalMembers(ms)[0] == Member(ms[0].key, Normal(ms[0].value)) && NormalMembers(ms)[1..] == NormalMembers(ms[1..]);
      NormalSort(ms[1..]);
      NormalInsert(ms[0], Sort(ms[1..], MemberKey));
    }
  }

  // ---- The text still to come inside a bracket ----

  function ElemsLeft(elems: seq<Value>, k: nat): string
    requires k <= |elems|
  {
    if k == |elems| then "" else (if k > 0 then "," else "") + ElemsText(elems[k..])
  }

  function MembersLeft(members: seq<Member>, k: nat): string
    requires k <= |members|
  {
    if k == |members| then "" else (if k > 0 then "," else "") + MembersText(members[k..])
  }

  lemma NextElem(elems: seq<Value>, k: nat)
    requires k < |elems|
    ensures ElemsLeft(elems, k) == (if k > 0 then "," else "") + Text(elems[k]) + ElemsLeft(elems, k + 1)
  {
    hide Text;
    assert elems[k..][0] == elems[k] && elems[k..][1..] == elems[k + 1..];
  }

  lemma NextMember(members: seq<Member>, k: nat)
    requires k < |members|
    ensures MembersLeft(members, k) == (if k > 0 then "," else "") + MemberText(members[k]) + MembersLeft(members, k + 1)
  {
    hide MemberText;
    assert members[k..][0] == members[k] && members[k..][1..] == members[k + 1..];
  }

  lemma LeftAtStart(elems: seq<Value>, members: seq<Member>)
    ensures ElemsLeft(elems, 0) == ElemsText(elems) && MembersLeft(members, 0) == MembersText(members)
  {
    hide Text, MemberText;
    assert elems[0..] == elems && members[0..] == members;
  }

  lemma Join3(r: string, a: string, b: string, c: string)
    ensures r + (a + b + c) == r + a + b + c
  {
  }

  /** Writes a value's canonical text at the end of the buffer. */
  method WriteReportCanonical(out: string, v: Value) returns (r: string)
    ensures r == out + Canonical(v)
    decreases v, 1
  {
    hide ElemsText, MembersText, StringText, Sort, NormalElems, NormalMembers;
    match v
    case Null => r := out + "null";
    case Bool(b) => r := out + if b then "true" else "false";
    case Int(n) => r := out + IntText(n);
    case Str(s) => r := WriteJsonString(out, s);
    case Arr(elems) =>
      r := WriteElems(out + "[", elems);
      r := r + "]";
    case Obj(members) =>
      r := WriteMembers(out + "{", members);
      r := r + "}";
  }

  method WriteElems(out: string, elems: seq<Value>) returns (r: string)
    ensures r == out + ElemsText(NormalElems(elems))
    decreases Arr(elems), 0
  {
    hide ElemsText, NormalElems, Text, ElemsLeft;
    ghost var all := NormalElems(elems);
    r := out;
    LeftAtStart(all, []);
    for k := 0 to |elems|
      invariant r + ElemsLeft(all, k) == out + ElemsText(all)
    {
      NextElem(all, k);
      var comma := if k > 0 then "," else "";
      Join3(r, comma, Text(all[k]), ElemsLeft(all, k + 1));
      r := WriteReportCanonical(r + comma, elems[k]);
    }
    assert ElemsLeft(all, |all|) == "" by { NothingLeft(all, []); }
  }

  lemma NothingLeft(elems: seq<Value>, members: seq<Member>)
    ensures ElemsLeft(elems, |elems|) == "" && MembersLeft(members, |members|) == ""
  {
  }

  /** Members in key order, each name with its value. */
  method WriteMembers(out: string, members: seq<Member>) returns (r: string)
    ensures r == out + MembersText(Sort(NormalMembers(members), MemberKey))
    decreases Obj(members), 0
  {
    hide MembersText, NormalMembers, Text, MembersLeft, Sort, StringText;
    var sorted := Sort(members, MemberKey);
    NormalSort(members);
    SortIsSortedPermutation(members, MemberKey);
    SameElements(sorted, members);
    ghost var all := NormalMembers(sorted);
    r := out;
    LeftAtStart([], all);
    for k := 0 to |sorted|
      invariant r + MembersLeft(all, k) == out + MembersText(all)
    {
      NextMember(all, k);
      var m := sorted[k];
      assert m in members;
      var comma := if k > 0 then "," else "";
      Join3(r, comma, MemberText(all[k]), MembersLeft(all, k + 1));
      ghost var before := r + comma;
      r := WriteJsonString(r + comma, m.key);
      r := r + ":";
      r := WriteReportCanonical(r, m.value);
      assert r == before + MemberText(all[k]);
    }
    assert MembersLeft(all, |all|) == "" by { NothingLeft([], all); }
  }

  // ---- A whole report file ----

  predicate IsReport(v: Value) {
    v.Obj? && (HasKey(v.members, "kind") || HasKey(v.members, "signature"))
  }

  /** A report file holding the canonical text of a report is read as that report. */
  lemma FileRoundTrip(v: Value)
    requires ReportRoundTrip.WellFormed(v, MAX_DEPTH) && IsReport(v)
    ensures ReportParser.ParseFile(Canonical(v)) == ReportParser.Success(Normal(v))
  {
    hide ParseValue, MembersText, Sort, NormalMembers, HasKey;
    ReportRoundTrip.CanonicalReads(v);
    var t := Canonical(v);
    assert t[0] == '{';
    ReportRoundTrip.NoSpace(t);
    ReportRoundTrip.NormalObject(v.members);
    if HasKey(v.members, "kind") {
      KeptNames(v, "kind");
    } else {
      KeptNames(v, "signature");
    }
  }

  lemma KeptNames(v: Value, k: string)
    requires v.Obj? && ReportRoundTrip.DistinctNames(v.members) && HasKey(v.members, k)
    ensures HasKey(Normal(v).members, k)
  {
    hide Utf16, Less, Sort, NormalMembers;
    ReportRoundTrip.NormalObject(v.members);
    var i :| 0 <= i < |v.members| && v.members[i].key == k;
    var m := NormalMembers(v.members)[i];
    assert m in NormalMembers(v.members);
    var j :| 0 <= j < |Normal(v).members| && Normal(v).members[j] == m;
  }
}
