/** The strict parser and the canonical writer undo each other. */
module ReportRoundTrip {
  import opened Sorting
  import opened ReportText

  // ---- Strings ----

  lemma Slices(a: string, b: string)
    ensures (a + b)[..|a|] == a && (a + b)[|a|..] == b
  {
  }

  lemma HexRead(n: nat, u: string)
    requires n < 0x20
    ensures Hex4("00" + [HexDigit(n / 16), HexDigit(n % 16)] + u) == Ok(n, u)
  {
    hide HexValue, HexDigit;
    var d := "00" + [HexDigit(n / 16), HexDigit(n % 16)];
    HexRoundTrip(0);
    HexRoundTrip(n / 16);
    HexRoundTrip(n % 16);
    assert HexDigit(0) == '0' by { ZeroDigit(); }
    Slices(d, u);
  }

  lemma ZeroDigit()
    ensures HexDigit(0) == '0'
  {
  }

  /** Reading back what a character was escaped to. */
  lemma EscapeRead(c: char, u: string)
    requires EscapeChar(c) != [c]
    ensures EscapeChar(c)[0] == '\\' && ParseEscape(EscapeChar(c)[1..] + u) == Ok(c, u)
  {
    hide Hex4, HexDigit;
    var e := EscapeChar(c)[1..];
    assert (e + u)[0] == e[0];
    Slices(e[..1], e[1..] + u);
    assert e + u == e[..1] + (e[1..] + u);
    if c as int < 0x20 && e[0] == 'u' {
      HexRead(c as int, u);
      assert e[1..] == "00" + [HexDigit(c as int / 16), HexDigit(c as int % 16)];
    }
  }

  lemma CharRead(c: char, u: string)
    ensures ParseString(EscapeChar(c) + u) ==
            var tail := ParseString(u); if tail.Bad? then tail else Ok([c] + tail.value, tail.rest)
  {
    hide ParseEscape;
    var e := EscapeChar(c);
    if e == [c] {
      assert ([c] + u)[0] == c && ([c] + u)[1..] == u;
    } else {
      hide EscapeChar;
      EscapeRead(c, u);
      assert (e + u)[0] == '\\' && (e + u)[1..] == e[1..] + u;
    }
  }

  /** A written string reads back as itself. */
  lemma {:induction false} StringRead(s: string, t: string)
    ensures ParseString(Escaped(s) + "\"" + t) == Ok(s, t)
    decreases |s|
  {
    hide EscapeChar, ParseEscape;
    if s == "" {
      assert Escaped(s) + "\"" + t == "\"" + t;
      assert ("\"" + t)[0] == '"' && ("\"" + t)[1..] == t;
    } else {
      hide ParseString;
      var u := Escaped(s[1..]) + "\"" + t;
      StringRead(s[1..], t);
      CharRead(s[0], u);
      assert Escaped(s) + "\"" + t == EscapeChar(s[0]) + u;
      assert s == [s[0]] + s[1..];
    }
  }

  // ---- Numbers ----

  /** Text that can stand right after a value. */
  predicate Delimited(t: string) { t == "" || t[0] == ',' || t[0] == ']' || t[0] == '}' }

  /** Nothing of it can belong to a number in front of it. */
  predicate NumberEnds(t: string) { t == "" || !(IsDigit(t[0]) || t[0] == '.' || t[0] == 'e' || t[0] == 'E') }

  lemma {:induction false} CountAll(ds: string, t: string)
    requires (forall c :: c in ds ==> IsDigit(c)) && NumberEnds(t)
    ensures CountDigits(ds + t) == |ds|
  {
    if ds == "" {
      assert ds + t == t;
    } else {
      assert IsDigit(ds[0]) && (ds + t)[0] == ds[0] && (ds + t)[1..] == ds[1..] + t;
      CountAll(ds[1..], t);
    }
  }

  lemma IntegerAll(n: nat, t: string)
    requires NumberEnds(t)
    ensures IntegerDigits(Decimal(n) + t) == |Decimal(n)|
  {
    hide Decimal, CountDigits;
    DecimalRoundTrip(n);
    assert (Decimal(n) + t)[0] == Decimal(n)[0];
    CountAll(Decimal(n), t);
  }

  lemma UnsignedRead(n: nat, t: string)
    requires NumberEnds(t)
    ensures var d := Decimal(n) + t;
            IntegerDigits(d) == |Decimal(n)| && d[..|Decimal(n)|] == Decimal(n) && d[|Decimal(n)|..] == t
            && FractionLength(t) == Got(0) && DecimalValue(Decimal(n)) == n && (n != 0 ==> Decimal(n) != "0")
  {
    hide Decimal, CountDigits, IntegerDigits, DecimalValue;
    IntegerAll(n, t);
    Slices(Decimal(n), t);
    DecimalRoundTrip(n);
    assert t[0..] == t;
  }

  function Signed(n: nat, negative: bool): int { if negative then 0 - n else n }

  lemma UnsignedParses(n: nat, negative: bool, t: string)
    requires n <= MAX_SAFE && (negative ==> n != 0) && NumberEnds(t)
    ensures ParseUnsigned(Decimal(n) + t, negative) == Ok(Int(Signed(n, negative)), t)
  {
    hide Decimal, CountDigits, IntegerDigits, DecimalValue, FractionLength;
    UnsignedRead(n, t);
  }

  lemma NumberRead(n: int, t: string)
    requires -MAX_SAFE <= n <= MAX_SAFE && NumberEnds(t)
    ensures ParseNumber(IntText(n) + t) == Ok(Int(n), t)
    ensures IntText(n)[0] == '-' || IsDigit(IntText(n)[0])
  {
    hide Decimal, ParseUnsigned;
    if n < 0 {
      UnsignedParses(-n, true, t);
      assert IntText(n) + t == "-" + (Decimal(-n) + t);
      assert (IntText(n) + t)[1..] == Decimal(-n) + t;
    } else {
      UnsignedParses(n, false, t);
      assert (Decimal(n) + t)[0] == Decimal(n)[0];
      assert IsDigit(Decimal(n)[0]);
    }
  }

  // ---- Values ----

  predicate DistinctNames(members: seq<Member>) {
    forall i, j :: 0 <= i < j < |members| ==> members[i].key != members[j].key
  }

  /** A report value: integers that are safe, distinct member names, and no deeper than room. */
  predicate WellFormed(v: Value, room: int)
    decreases v
  {
    && room >= 0
    && match v
       case Int(n) => -MAX_SAFE <= n <= MAX_SAFE
       case Arr(elems) => forall i :: 0 <= i < |elems| ==> WellFormed(elems[i], room - 1)
       case Obj(members) => DistinctNames(members) && forall i :: 0 <= i < |members| ==> WellFormed(members[i].value, room - 1)
       case _ => true
  }

  lemma NoSpace(s: string)
    requires s != "" && !IsSpace(s[0])
    ensures SkipSpace(s) == s
  {
  }

  lemma DelimitedSkip(t: string)
    requires Delimited(t)
    ensures SkipSpace(t) == t
  {
  }

  lemma TextStart(v: Value, room: int)
    requires WellFormed(v, room)
    ensures Text(v) != "" && !IsSpace(Text(v)[0])
  {
    hide Decimal, ElemsText, MembersText, Escaped;
    if v.Int? {
      NumberRead(v.n, "");
    }
  }

  /** A value's text reads back as the value, whatever delimiter follows. */
  lemma ValueRead(v: Value, depth: nat, t: string)
    requires WellFormed(v, MAX_DEPTH - depth) && Delimited(t)
    ensures ParseValue(Text(v) + t, depth) == Ok(v, t)
    decreases v, 1
  {
    hide ParseNumber, ParseString, IntText, Escaped, ElemsText, MembersText, ParseElems, ParseMembers;
    var s := Text(v) + t;
    TextStart(v, MAX_DEPTH - depth);
    assert s[0] == Text(v)[0];
    NoSpace(s);
    match v
    case Null => Slices("null", t);
    case Bool(b) => Slices(Text(v), t);
    case Int(n) => NumberRead(n, t);
    case Str(x) =>
      StringRead(x, t);
      assert s[1..] == Escaped(x) + "\"" + t;
    case Arr(elems) => ArrRead(elems, depth, t);
    case Obj(members) => ObjRead(members, depth, t);
  }

  lemma ArrStart(body: string, depth: nat)
    requires depth <= MAX_DEPTH && body != "" && !IsSpace(body[0])
    ensures ParseValue("[" + body, depth) == if body[0] == ']' then Ok(Arr([]), body[1..]) else ParseElems(body, depth, [])
  {
    hide ParseElems, ParseMembers, ParseString, ParseNumber;
    var s := "[" + body;
    assert s[0] == '[' && s[1..] == body;
  }

  lemma ObjStart(body: string, depth: nat)
    requires depth <= MAX_DEPTH && body != "" && !IsSpace(body[0])
    ensures ParseValue("{" + body, depth) == if body[0] == '}' then Ok(Obj([]), body[1..]) else ParseMembers(body, depth, [])
  {
    hide ParseElems, ParseMembers, ParseString, ParseNumber;
    var s := "{" + body;
    assert s[0] == '{' && s[1..] == body;
  }

  lemma ArrRead(elems: seq<Value>, depth: nat, t: string)
    requires WellFormed(Arr(elems), MAX_DEPTH - depth) && Delimited(t)
    ensures ParseValue(Text(Arr(elems)) + t, depth) == Ok(Arr(elems), t)
    decreases Arr(elems), 0
  {
    hide Text, ElemsText, WellFormed, ParseValue, ParseElems, ParseMembers, MembersText, ParseString, ParseNumber, Escaped;
    ArrParts(elems, MAX_DEPTH - depth);
    var body := ElemsText(elems) + "]" + t;
    ArrText(elems, t);
    if elems == [] {
      ArrStart(body, depth);
      assert body[1..] == t;
    } else {
      ElemsStart(elems, depth, "]" + t);
      assert body == ElemsText(elems) + ("]" + t);
      ArrStart(body, depth);
      ElemsRead(elems, depth, [], t);
      assert [] + elems == elems;
    }
  }

  lemma ArrParts(elems: seq<Value>, room: int)
    requires WellFormed(Arr(elems), room)
    ensures room >= 0 && forall i :: 0 <= i < |elems| ==> WellFormed(elems[i], room - 1)
  {
  }

  lemma ArrText(elems: seq<Value>, t: string)
    ensures Text(Arr(elems)) + t == "[" + (ElemsText(elems) + "]" + t)
    ensures elems == [] ==> ElemsText(elems) + "]" + t == "]" + t
  {
    if elems != [] {
      hide ElemsText;
    }
  }

  lemma ElemsStart(elems: seq<Value>, depth: nat, t: string)
    requires WellFormed(Arr(elems), MAX_DEPTH - depth) && elems != []
    ensures var s := ElemsText(elems) + t; s != "" && !IsSpace(s[0]) && s[0] != ']'
  {
    hide Text;
    TextStart(elems[0], MAX_DEPTH - depth - 1);
    NotBracket(elems[0], MAX_DEPTH - depth - 1);
    assert (ElemsText(elems) + t)[0] == Text(elems[0])[0];
  }

  lemma NotBracket(v: Value, room: int)
    requires WellFormed(v, room)
    ensures Text(v) != "" && Text(v)[0] != ']'
  {
    hide Decimal, ElemsText, MembersText, Escaped;
    if v.Int? {
      NumberRead(v.n, "");
    }
  }

  lemma {:induction false} ElemsRead(elems: seq<Value>, depth: nat, done: seq<Value>, t: string)
    requires elems != [] && Delimited(t)
    requires forall i :: 0 <= i < |elems| ==> WellFormed(elems[i], MAX_DEPTH - depth - 1)
    ensures ParseElems(ElemsText(elems) + "]" + t, depth, done) == Ok(Arr(done + elems), t)
    decreases elems
  {
    hide ParseValue, Text, WellFormed;
    var v := elems[0];
    if |elems| == 1 {
      var u := "]" + t;
      assert ElemsText(elems) + "]" + t == Text(v) + u;
      ValueRead(v, depth + 1, u);
      DelimitedSkip(u);
      assert u[1..] == t && done + elems == done + [v];
    } else {
      var u := "," + ElemsText(elems[1..]) + "]" + t;
      assert ElemsText(elems) + "]" + t == Text(v) + u;
      ValueRead(v, depth + 1, u);
      DelimitedSkip(u);
      assert u[1..] == ElemsText(elems[1..]) + "]" + t;
      ElemsRead(elems[1..], depth, done + [v], t);
      assert done + [v] + elems[1..] == done + elems;
    }
  }

  lemma ObjRead(members: seq<Member>, depth: nat, t: string)
    requires WellFormed(Obj(members), MAX_DEPTH - depth) && Delimited(t)
    ensures ParseValue(Text(Obj(members)) + t, depth) == Ok(Obj(members), t)
    decreases Obj(members), 0
  {
    hide Text, MembersText, WellFormed, ParseValue, DistinctNames, Escaped, ParseElems, ParseMembers, ElemsText, ParseString, ParseNumber;
    ObjParts(members, MAX_DEPTH - depth);
    var body := MembersText(members) + "}" + t;
    ObjText(members, t);
    MembersStart(members, t);
    ObjStart(body, depth);
    if members == [] {
      assert body[1..] == t;
    } else {
      assert [] + members == members;
      MembersRead(members, depth, [], t);
    }
  }

  lemma ObjParts(members: seq<Member>, room: int)
    requires WellFormed(Obj(members), room)
    ensures room >= 0 && DistinctNames(members)
    ensures forall i :: 0 <= i < |members| ==> WellFormed(members[i].value, room - 1)
  {
  }

  lemma ObjText(members: seq<Member>, t: string)
    ensures Text(Obj(members)) + t == "{" + (MembersText(members) + "}" + t)
  {
    hide MembersText;
  }

  lemma MembersStart(members: seq<Member>, t: string)
    ensures var body := MembersText(members) + "}" + t;
            body != "" && !IsSpace(body[0]) && if members == [] then body == "}" + t else body[0] == '"'
  {
    hide Text, Escaped;
  }

  lemma {:induction false} MembersRead(members: seq<Member>, depth: nat, done: seq<Member>, t: string)
    requires members != [] && Delimited(t) && DistinctNames(done + members)
    requires forall i :: 0 <= i < |members| ==> WellFormed(members[i].value, MAX_DEPTH - depth - 1)
    ensures ParseMembers(MembersText(members) + "}" + t, depth, done) == Ok(Obj(done + members), t)
    decreases members
  {
    hide ParseValue, Text, WellFormed, ParseString, Escaped, ParseMembers, HasKey, MemberText;
    var m := members[0];
    var more := if |members| == 1 then "}" + t else "," + MembersText(members[1..]) + "}" + t;
    MemberRead(m, depth, done, more);
    NewKey(done, members);
    assert MembersText(members) + "}" + t == MemberText(m) + more;
    if |members| == 1 {
      assert more[1..] == t && done + members == done + [m];
    } else {
      assert more[1..] == MembersText(members[1..]) + "}" + t;
      assert done + [m] + members[1..] == done + members;
      MembersRead(members[1..], depth, done + [m], t);
    }
  }

  lemma NewKey(done: seq<Member>, members: seq<Member>)
    requires members != [] && DistinctNames(done + members)
    ensures !HasKey(done, members[0].key)
  {
    forall i | 0 <= i < |done|
      ensures done[i].key != members[0].key
    {
      assert (done + members)[i] == done[i] && (done + members)[|done|] == members[0];
    }
  }

  /** One member, up to what comes after its value. */
  lemma MemberRead(m: Member, depth: nat, done: seq<Member>, more: string)
    requires WellFormed(m.value, MAX_DEPTH - depth - 1) && Delimited(more) && more != ""
    ensures !HasKey(done, m.key) ==>
              ParseMembers(MemberText(m) + more, depth, done) ==
              if more[0] == ',' then ParseMembers(more[1..], depth, done + [m])
              else if more[0] == '}' then Ok(Obj(done + [m]), more[1..])
              else Bad(EXIT_USAGE)
    decreases m, 2
  {
    hide ParseValue, Text, WellFormed, ParseString, Escaped, HasKey;
    var s := MemberText(m) + more;
    var u := ":" + Text(m.value) + more;
    assert s == "\"" + (Escaped(m.key) + "\"" + u);
    assert s[0] == '"' && s[1..] == Escaped(m.key) + "\"" + u;
    NoSpace(s);
    StringRead(m.key, u);
    NoSpace(u);
    assert u[1..] == Text(m.value) + more;
    ValueRead(m.value, depth + 1, more);
    DelimitedSkip(more);
  }

  // ---- Key order ----

  /** Different strings have different UTF-16 forms, so the key order is strict and total. */
  lemma {:induction false} Utf16Injective(a: string, b: string)
    requires Utf16(a) == Utf16(b)
    ensures a == b
  {
    if a == "" || b == "" {
    } else {
      var u, v := Utf16(a), Utf16(b);
      FirstUnit(a);
      FirstUnit(b);
      assert a[0] == b[0] by {
        assert u[0] == v[0];
        if a[0] as int >= 0x10000 {
          assert u[1] == v[1];
        }
      }
      assert u[Units(a[0])..] == v[Units(b[0])..];
      Utf16Injective(a[1..], b[1..]);
      assert a == [a[0]] + a[1..] && b == [b[0]] + b[1..];
    }
  }

  function Units(c: char): nat { if c as int < 0x10000 then 1 else 2 }

  lemma FirstUnit(a: string)
    requires a != ""
    ensures var u, c := Utf16(a), a[0] as int;
            && |u| >= Units(a[0]) && u[Units(a[0])..] == Utf16(a[1..])
            && if c < 0x10000 then u[0] == c
               else u[0] == 0xD800 + (c - 0x10000) / 0x400 && u[1] == 0xDC00 + (c - 0x10000) % 0x400
  {
  }

  /** A string's units are its characters' units in turn: the character itself, or the surrogate
      pair that decodes to it. */
  lemma {:induction false} UnitsDecode(a: string, b: string, c: char)
    ensures Utf16(a + b) == Utf16(a) + Utf16(b)
    ensures var u := Utf16([c]);
            || (c as int < 0x10000 && u == [c as int])
            || (|u| == 2 && 0xD800 <= u[0] < 0xDC00 && 0xDC00 <= u[1] < 0xE000
                && c as int == 0x10000 + 0x400 * (u[0] - 0xD800) + (u[1] - 0xDC00))
    decreases |a|
  {
    assert [c][1..] == "";
    if a == "" {
      assert a + b == b;
    } else {
      assert (a + b)[1..] == a[1..] + b;
      UnitsDecode(a[1..], b, c);
    }
  }

  lemma KeyOrderStrictTotal(a: string, b: string, c: string)
    ensures a == b || Less(Utf16(a), Utf16(b)) || Less(Utf16(b), Utf16(a))
    ensures Less(Utf16(a), Utf16(b)) ==> a != b && !Less(Utf16(b), Utf16(a))
    ensures Less(Utf16(a), Utf16(b)) && Less(Utf16(b), Utf16(c)) ==> Less(Utf16(a), Utf16(c))
  {
    hide Less, Utf16;
    LessIsTotal(Utf16(a), Utf16(b));
    LessIsStrict(Utf16(a), Utf16(b));
    if Utf16(a) == Utf16(b) {
      Utf16Injective(a, b);
    }
    if Less(Utf16(a), Utf16(b)) && Less(Utf16(b), Utf16(c)) {
      LessIsTransitive(Utf16(a), Utf16(b), Utf16(c));
    }
  }

  // ---- Normal form ----

  lemma NormalKeysDistinct(members: seq<Member>)
    requires DistinctNames(members)
    ensures DistinctKeys(NormalMembers(members), MemberKey)
  {
    hide Normal, Utf16;
    var ms := NormalMembers(members);
    forall i, j | 0 <= i < j < |ms|
      ensures MemberKey(ms[i]) != MemberKey(ms[j])
    {
      if MemberKey(ms[i]) == MemberKey(ms[j]) {
        Utf16Injective(ms[i].key, ms[j].key);
      }
    }
  }

  /** The members of a normal object are exactly its members, normalised. */
  lemma NormalObject(members: seq<Member>)
    requires DistinctNames(members)
    ensures var ms := Normal(Obj(members)).members;
            Ascending(ms, MemberKey) && DistinctNames(ms) && forall m :: m in ms <==> m in NormalMembers(members)
  {
    hide Less, Utf16, Sort, Ascending, NormalMembers, DistinctKeys, DistinctNames;
    NormalKeysDistinct(members);
    SortAscending(NormalMembers(members), MemberKey);
    AscendingNames(Sort(NormalMembers(members), MemberKey));
  }

  lemma AscendingNames(ms: seq<Member>)
    requires Ascending(ms, MemberKey)
    ensures DistinctNames(ms)
  {
    hide Less, Utf16;
    forall i, j | 0 <= i < j < |ms|
      ensures ms[i].key != ms[j].key
    {
      LessIsStrict(MemberKey(ms[i]), MemberKey(ms[j]));
    }
  }

  lemma {:induction false} NormalWellFormed(v: Value, room: int)
    requires WellFormed(v, room)
    ensures WellFormed(Normal(v), room)
    decreases v
  {
    hide NormalMembers, Sort;
    if v.Arr? {
      forall i | 0 <= i < |v.elems|
        ensures WellFormed(Normal(v).elems[i], room - 1)
      {
        NormalWellFormed(v.elems[i], room - 1);
      }
    } else if v.Obj? {
      forall i | 0 <= i < |v.members|
        ensures WellFormed(Normal(v.members[i].value), room - 1)
      {
        NormalWellFormed(v.members[i].value, room - 1);
      }
      NormalObjectWellFormed(v.members, room);
    }
  }

  lemma NormalObjectWellFormed(members: seq<Member>, room: int)
    requires room >= 0 && DistinctNames(members)
    requires forall i :: 0 <= i < |members| ==> WellFormed(Normal(members[i].value), room - 1)
    ensures WellFormed(Normal(Obj(members)), room)
  {
    NormalObject(members);
    var ms := Normal(Obj(members)).members;
    assert Normal(Obj(members)) == Obj(ms);
    hide Normal, NormalMembers, Sort, DistinctNames, Ascending, WellFormed;
    forall i | 0 <= i < |ms|
      ensures WellFormed(ms[i].value, room - 1)
    {
      assert ms[i] in ms;
      var j :| 0 <= j < |members| && NormalMembers(members)[j] == ms[i];
    }
    ObjectWellFormed(ms, room);
  }

  /** Parsing the canonical text of a report value gives the value back, its members in
      canonical order. */
  lemma CanonicalReads(v: Value)
    requires WellFormed(v, MAX_DEPTH)
    ensures ParseValue(Canonical(v), 0) == Ok(Normal(v), "")
  {
    hide WellFormed, ParseValue, Text, Normal;
    NormalWellFormed(v, MAX_DEPTH);
    ValueRead(Normal(v), 0, "");
    assert Text(Normal(v)) + "" == Text(Normal(v));
  }

  // ---- Meaning: what a report says, whatever order its members are in ----

  datatype Plain =
    | PNull
    | PBool(b: bool)
    | PInt(n: int)
    | PStr(s: string)
    | PArr(elems: seq<Plain>)
    | PObj(members: map<string, Plain>)

  function Meaning(v: Value): Plain {
    match v
    case Null => PNull
    case Bool(b) => PBool(b)
    case Int(n) => PInt(n)
    case Str(s) => PStr(s)
    case Arr(elems) => PArr(MeaningElems(elems))
    case Obj(members) => PObj(MeaningMembers(members))
  }

  function MeaningElems(elems: seq<Value>): (r: seq<Plain>)
    ensures |r| == |elems| && forall i :: 0 <= i < |elems| ==> r[i] == Meaning(elems[i])
  {
    if elems == [] then [] else [Meaning(elems[0])] + MeaningElems(elems[1..])
  }

  function MeaningMembers(members: seq<Member>): (r: map<string, Plain>)
    ensures forall k :: k in r <==> HasKey(members, k)
  {
    if members == [] then map[] else MeaningMembers(members[1..])[members[0].key := Meaning(members[0].value)]
  }

  lemma {:induction false} MeaningAt(members: seq<Member>, i: nat)
    requires DistinctNames(members) && i < |members|
    ensures members[i].key in MeaningMembers(members) && MeaningMembers(members)[members[i].key] == Meaning(members[i].value)
  {
    hide Meaning;
    if i > 0 {
      MeaningAt(members[1..], i - 1);
    }
  }

  lemma {:induction false} MeaningOfNormal(v: Value, room: int)
    requires WellFormed(v, room)
    ensures Meaning(Normal(v)) == Meaning(v)
    decreases v
  {
    hide NormalMembers;
    if v.Arr? {
      forall i | 0 <= i < |v.elems|
        ensures Meaning(Normal(v.elems[i])) == Meaning(v.elems[i])
      {
        MeaningOfNormal(v.elems[i], room - 1);
      }
    } else if v.Obj? {
      forall i | 0 <= i < |v.members|
        ensures Meaning(Normal(v.members[i].value)) == Meaning(v.members[i].value)
      {
        MeaningOfNormal(v.members[i].value, room - 1);
      }
      NormalObject(v.members);
      SameMap(v.members, Normal(v).members);
    }
  }

  lemma SameMap(members: seq<Member>, ms: seq<Member>)
    requires DistinctNames(members) && DistinctNames(ms)
    requires forall m :: m in ms <==> m in NormalMembers(members)
    requires forall i :: 0 <= i < |members| ==> Meaning(Normal(members[i].value)) == Meaning(members[i].value)
    ensures MeaningMembers(ms) == MeaningMembers(members)
  {
    hide Meaning, Normal, NormalMembers, MeaningMembers;
    var a, b := MeaningMembers(ms), MeaningMembers(members);
    forall i | 0 <= i < |members|
      ensures HasKey(ms, members[i].key) && a[members[i].key] == b[members[i].key]
    {
      var m := NormalMembers(members)[i];
      assert m in NormalMembers(members);
      var j :| 0 <= j < |ms| && ms[j] == m;
      MeaningAt(ms, j);
      MeaningAt(members, i);
    }
    forall j | 0 <= j < |ms|
      ensures HasKey(members, ms[j].key)
    {
      assert ms[j] in ms;
      var i :| 0 <= i < |members| && NormalMembers(members)[i] == ms[j];
    }
    assert a.Keys == b.Keys;
  }

  /** Values that mean the same have the same normal form. */
  lemma {:induction false} SameMeaningSameNormal(v: Value, w: Value, room: int)
    requires WellFormed(v, room) && WellFormed(w, room) && Meaning(v) == Meaning(w)
    ensures Normal(v) == Normal(w)
    decreases v
  {
    hide NormalMembers, MeaningMembers;
    if v.Arr? {
      forall i | 0 <= i < |v.elems|
        ensures Normal(v.elems[i]) == Normal(w.elems[i])
      {
        assert Meaning(v.elems[i]) == MeaningElems(v.elems)[i] == Meaning(w.elems[i]);
        SameMeaningSameNormal(v.elems[i], w.elems[i], room - 1);
      }
      assert NormalElems(v.elems) == NormalElems(w.elems);
    } else if v.Obj? {
      forall i, j | 0 <= i < |v.members| && 0 <= j < |w.members| && v.members[i].key == w.members[j].key
        ensures Normal(v.members[i].value) == Normal(w.members[j].value)
      {
        MeaningAt(v.members, i);
        MeaningAt(w.members, j);
        SameMeaningSameNormal(v.members[i].value, w.members[j].value, room - 1);
      }
      SameNormalObject(v.members, w.members);
    }
  }

  lemma SameNormalObject(ms: seq<Member>, ns: seq<Member>)
    requires DistinctNames(ms) && DistinctNames(ns)
    requires MeaningMembers(ms).Keys == MeaningMembers(ns).Keys
    requires forall i, j :: 0 <= i < |ms| && 0 <= j < |ns| && ms[i].key == ns[j].key ==> Normal(ms[i].value) == Normal(ns[j].value)
    ensures Normal(Obj(ms)) == Normal(Obj(ns))
  {
    hide Less, Utf16, Sort, Ascending, NormalMembers, MeaningMembers, DistinctNames;
    NormalObject(ms);
    NormalObject(ns);
    var a, b := Normal(Obj(ms)).members, Normal(Obj(ns)).members;
    NormalContained(ms, ns);
    NormalContained(ns, ms);
    assert SameMembers(a, b) by {
      forall i | 0 <= i < |a|
        ensures a[i] in b
      {
        assert a[i] in a;
      }
      forall i | 0 <= i < |b|
        ensures b[i] in a
      {
        assert b[i] in b;
      }
    }
    AscendingIsUnique(a, b, MemberKey);
  }

  lemma NormalContained(ms: seq<Member>, ns: seq<Member>)
    requires MeaningMembers(ms).Keys == MeaningMembers(ns).Keys
    requires forall i, j :: 0 <= i < |ms| && 0 <= j < |ns| && ms[i].key == ns[j].key ==> Normal(ms[i].value) == Normal(ns[j].value)
    ensures forall m :: m in NormalMembers(ms) ==> m in NormalMembers(ns)
  {
    hide Normal, NormalMembers, MeaningMembers;
    forall m | m in NormalMembers(ms)
      ensures m in NormalMembers(ns)
    {
      var i :| 0 <= i < |ms| && NormalMembers(ms)[i] == m;
      assert HasKey(ms, m.key);
      assert m.key in MeaningMembers(ms).Keys;
      var j :| 0 <= j < |ns| && ns[j].key == m.key;
      assert NormalMembers(ns)[j] == m;
    }
  }

  /** Two report values have the same canonical text exactly when they mean the same: the text is
      injective, and blind to the order of members at every level. */
  lemma CanonicalDecidesMeaning(v: Value, w: Value)
    requires WellFormed(v, MAX_DEPTH) && WellFormed(w, MAX_DEPTH)
    ensures Canonical(v) == Canonical(w) <==> Meaning(v) == Meaning(w)
  {
    hide WellFormed, ParseValue, Text, Normal, Meaning;
    if Canonical(v) == Canonical(w) {
      CanonicalReads(v);
      CanonicalReads(w);
      MeaningOfNormal(v, MAX_DEPTH);
      MeaningOfNormal(w, MAX_DEPTH);
    }
    if Meaning(v) == Meaning(w) {
      SameMeaningSameNormal(v, w, MAX_DEPTH);
    }
  }

  // ---- What the parser returns ----

  lemma ValueParsed(s: string, depth: nat)
    requires ParseValue(s, depth).Ok?
    ensures WellFormed(ParseValue(s, depth).value, MAX_DEPTH - depth)
    decreases |s|, 3
  {
    hide ParseString, ParseNumber, ParseMembers, ParseElems, SkipSpace;
    var t := SkipSpace(s);
    if t[0] == '{' {
      var u := SkipSpace(t[1..]);
      if !(u != "" && u[0] == '}') {
        MembersParsed(u, depth, []);
      }
    } else if t[0] == '[' {
      var u := SkipSpace(t[1..]);
      if !(u != "" && u[0] == ']') {
        ElemsParsed(u, depth, []);
      }
    }
  }

  lemma {:induction false} ElemsParsed(s: string, depth: nat, done: seq<Value>)
    requires ParseElems(s, depth, done).Ok? && depth <= MAX_DEPTH
    requires forall i :: 0 <= i < |done| ==> WellFormed(done[i], MAX_DEPTH - depth - 1)
    ensures WellFormed(ParseElems(s, depth, done).value, MAX_DEPTH - depth)
    decreases |s|, 4
  {
    hide ParseValue, SkipSpace;
    ValueParsed(s, depth + 1);
    var v := ParseValue(s, depth + 1);
    var t := SkipSpace(v.rest);
    if t[0] == ',' {
      ElemsParsed(t[1..], depth, done + [v.value]);
    }
  }

  lemma {:induction false} MembersParsed(s: string, depth: nat, done: seq<Member>)
    requires ParseMembers(s, depth, done).Ok? && depth <= MAX_DEPTH && DistinctNames(done)
    requires forall i :: 0 <= i < |done| ==> WellFormed(done[i].value, MAX_DEPTH - depth - 1)
    ensures WellFormed(ParseMembers(s, depth, done).value, MAX_DEPTH - depth)
    decreases |s|, 4
  {
    hide ParseValue, SkipSpace, ParseName, WellFormed;
    var k := ParseName(s, done);
    ValueParsed(k.rest, depth + 1);
    var v := ParseValue(k.rest, depth + 1);
    var w := SkipSpace(v.rest);
    var all := done + [Member(k.value, v.value)];
    assert DistinctNames(all);
    if w[0] == ',' {
      MembersParsed(w[1..], depth, all);
    } else {
      ObjectWellFormed(all, MAX_DEPTH - depth);
    }
  }

  lemma ObjectWellFormed(members: seq<Member>, room: int)
    requires room >= 0 && DistinctNames(members)
    requires forall i :: 0 <= i < |members| ==> WellFormed(members[i].value, room - 1)
    ensures WellFormed(Obj(members), room)
  {
  }

  /** Parsing, printing and parsing again changes nothing that the report says, and the canonical
      text of what was parsed is its own canonical text. */
  lemma ParsePrintParse(s: string)
    requires ParseValue(s, 0).Ok?
    ensures var v := ParseValue(s, 0).value;
            var again := ParseValue(Canonical(v), 0);
            && again == Ok(Normal(v), "") && Meaning(again.value) == Meaning(v)
            && Canonical(again.value) == Canonical(v)
  {
    hide WellFormed, ParseValue, Text, Normal, Meaning;
    var v := ParseValue(s, 0).value;
    ValueParsed(s, 0);
    CanonicalReads(v);
    MeaningOfNormal(v, MAX_DEPTH);
    NormalWellFormed(v, MAX_DEPTH);
    CanonicalDecidesMeaning(v, Normal(v));
  }
}
