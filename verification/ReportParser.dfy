/** The report parser as the program has it: one cursor over the text, moved by every method.
    Each method is proved against the reading of the rest of the text. */
module ReportParser {
  import opened Sorting
  import opened ReportText
  import ReportGrammar
  import ReportRoundTrip

  datatype Result<+T> = Success(value: T) | Refused(code: int)

  /** The method's answer is the reading, and on success the cursor stands where it ends. */
  predicate Agrees<T(==)>(r: Result<T>, b: string, i: nat, p: Parsed<T>)
    requires i <= |b|
  {
    if p.Bad? then r == Refused(p.code) else r == Success(p.value) && b[i..] == p.rest
  }

  lemma Ahead(b: string, i: nat)
    requires i < |b|
    ensures b[i..] != "" && b[i..][0] == b[i] && b[i..][1..] == b[i + 1..]
  {
  }

  lemma Prefix(b: string, i: nat, w: string)
    requires i <= |b|
    ensures w <= b[i..] <==> i + |w| <= |b| && b[i..i + |w|] == w
    ensures w <= b[i..] ==> b[i..][|w|..] == b[i + |w|..]
  {
    if i + |w| <= |b| {
      assert b[i..][..|w|] == b[i..i + |w|];
    }
  }

  class Parser {
    const b: string
    var i: nat

    constructor (b: string)
      ensures this.b == b && i == 0
    {
      this.b := b;
      i := 0;
    }

    method SkipSpaces()
      requires i <= |b|
      modifies this
      ensures old(i) <= i <= |b| && b[i..] == SkipSpace(b[old(i)..])
      ensures i == |b| || !IsSpace(b[i])
    {
      while i < |b| && IsSpace(b[i])
        invariant old(i) <= i <= |b| && SkipSpace(b[i..]) == SkipSpace(b[old(i)..])
        decreases |b| - i
      {
        Ahead(b, i);
        i := i + 1;
      }
      if i < |b| {
        Ahead(b, i);
      }
    }

    method Literal(word: string) returns (found: bool)
      requires i <= |b|
      modifies this
      ensures found <==> word <= b[old(i)..]
      ensures i == old(i) + if found then |word| else 0
      ensures i <= |b| && (found ==> b[i..] == b[old(i)..][|word|..])
    {
      Prefix(b, i, word);
      found := word <= b[i..];
      if found {
        i := i + |word|;
      }
    }

    method Hex() returns (r: Result<nat>)
      requires i <= |b|
      modifies this
      ensures old(i) <= i <= |b| && Agrees(r, b, i, Hex4(b[old(i)..]))
    {
      if i + 4 > |b| {
        return Refused(EXIT_USAGE);
      }
      assert b[i..][4..] == b[i + 4..];
      var d0, d1, d2, d3 := HexValue(b[i]), HexValue(b[i + 1]), HexValue(b[i + 2]), HexValue(b[i + 3]);
      if d0.Nothing? || d1.Nothing? || d2.Nothing? || d3.Nothing? {
        return Refused(EXIT_USAGE);
      }
      i := i + 4;
      r := Success(HexNumber(d0.value, d1.value, d2.value, d3.value));
    }

    /** The escape after a backslash, joining a surrogate pair. */
    method Escape() returns (r: Result<char>)
      requires i <= |b|
      modifies this
      ensures old(i) <= i <= |b| && Agrees(r, b, i, ParseEscape(b[old(i)..]))
    {
      hide ParseUnicode;
      if i >= |b| {
        return Refused(EXIT_USAGE);
      }
      Ahead(b, i);
      var c := b[i];
      i := i + 1;
      match c
      case '"' => r := Success('"');
      case '\\' => r := Success('\\');
      case '/' => r := Success('/');
      case 'b' => r := Success(8 as char);
      case 'f' => r := Success(12 as char);
      case 'n' => r := Success('\n');
      case 'r' => r := Success('\r');
      case 't' => r := Success('\t');
      case 'u' => r := Unicode();
      case _ => r := Refused(EXIT_USAGE);
    }

    method Unicode() returns (r: Result<char>)
      requires i <= |b|
      modifies this
      ensures old(i) <= i <= |b| && Agrees(r, b, i, ParseUnicode(b[old(i)..]))
    {
      hide Hex4;
      var hi := Hex();
      if hi.Refused? {
        return Refused(hi.code);
      }
      if !IsSurrogate(hi.value) {
        return Success(hi.value as char);
      }
      Prefix(b, i, "\\u");
      if hi.value >= 0xDC00 || !("\\u" <= b[i..]) {
        return Refused(EXIT_UNVERIFIED);
      }
      i := i + 2;
      var lo := Hex();
      if lo.Refused? {
        return Refused(lo.code);
      }
      if !(0xDC00 <= lo.value < 0xE000) {
        return Refused(EXIT_UNVERIFIED);
      }
      r := Success((0x10000 + 0x400 * (hi.value - 0xD800) + (lo.value - 0xDC00)) as char);
    }

    /** A string after its opening quote. */
    method Str() returns (r: Result<string>)
      requires i <= |b|
      modifies this
      ensures old(i) <= i <= |b| && Agrees(r, b, i, ParseString(b[old(i)..]))
    {
      hide ParseEscape, ParseString, Behind;
      ghost var whole := ParseString(b[i..]);
      var sb := "";
      BehindNothing(whole);
      while true
        invariant old(i) <= i <= |b| && whole == Behind(sb, ParseString(b[i..]))
        decreases |b| - i
      {
        StringStep(sb, b[i..]);
        if i >= |b| {
          return Refused(EXIT_USAGE);
        }
        Ahead(b, i);
        var c := b[i];
        if c == '"' {
          i := i + 1;
          return Success(sb);
        }
        if c as int < 0x20 {
          return Refused(EXIT_USAGE);
        }
        var one := c;
        i := i + 1;
        if c == '\\' {
          var e := Escape();
          if e.Refused? {
            return Refused(e.code);
          }
          one := e.value;
        }
        sb := sb + [one];
      }
    }

    method Digits() returns (n: nat)
      requires i <= |b|
      modifies this
      ensures i <= |b| && i == old(i) + n && n == CountDigits(b[old(i)..])
    {
      n := 0;
      while i < |b| && IsDigit(b[i])
        invariant i <= |b| && i == old(i) + n && n + CountDigits(b[i..]) == CountDigits(b[old(i)..])
        decreases |b| - i
      {
        Ahead(b, i);
        i := i + 1;
        n := n + 1;
      }
      if i < |b| {
        Ahead(b, i);
      }
    }

    /** A fraction, if there is one. */
    method Point() returns (r: Result<bool>)
      requires i <= |b|
      modifies this
      ensures var f := PointLength(b[old(i)..]);
              && old(i) <= i <= |b|
              && if f.Nothing? then r == Refused(EXIT_USAGE) else i == old(i) + f.value && r == Success(f.value > 0)
    {
      hide CountDigits;
      if i >= |b| || b[i] != '.' {
        return Success(false);
      }
      Ahead(b, i);
      i := i + 1;
      var n := Digits();
      r := if n == 0 then Refused(EXIT_USAGE) else Success(true);
    }

    /** An exponent, if there is one. */
    method Exponent() returns (r: Result<bool>)
      requires i <= |b|
      modifies this
      ensures var e := ExponentLength(b[old(i)..]);
              && old(i) <= i <= |b|
              && if e.Nothing? then r == Refused(EXIT_USAGE) else i == old(i) + e.value && r == Success(e.value > 0)
    {
      hide CountDigits;
      if i >= |b| || (b[i] != 'e' && b[i] != 'E') {
        return Success(false);
      }
      var start := i;
      Ahead(b, i);
      i := i + 1;
      if i < |b| && (b[i] == '+' || b[i] == '-') {
        i := i + 1;
      }
      assert b[start..][i - start..] == b[i..];
      var n := Digits();
      r := if n == 0 then Refused(EXIT_USAGE) else Success(true);
    }

    method Fraction() returns (r: Result<bool>)
      requires i <= |b|
      modifies this
      ensures var f := FractionLength(b[old(i)..]);
              && old(i) <= i <= |b|
              && if f.Nothing? then r == Refused(EXIT_USAGE) else i == old(i) + f.value && r == Success(f.value > 0)
    {
      hide PointLength, ExponentLength, FractionLength, CountDigits;
      ghost var s := b[i..];
      FractionParts(s);
      var point := Point();
      if point.Refused? {
        return point;
      }
      assert s[PointLength(s).value..] == b[i..];
      var exponent := Exponent();
      r := if exponent.Refused? then exponent else Success(point.value || exponent.value);
    }

    /** The integer part; zero digits is malformed. */
    method Integer() returns (n: nat)
      requires i <= |b|
      modifies this
      ensures i <= |b| && i == old(i) + n && n == IntegerDigits(b[old(i)..])
    {
      hide CountDigits;
      if i < |b| && b[i] == '0' {
        Ahead(b, i);
        i := i + 1;
        n := 1;
      } else {
        if i < |b| {
          Ahead(b, i);
        }
        n := Digits();
      }
    }

    method Number() returns (r: Result<Value>)
      requires i <= |b|
      modifies this
      ensures old(i) <= i <= |b| && Agrees(r, b, i, ParseNumber(b[old(i)..]))
    {
      hide ParseUnsigned;
      var negative := i < |b| && b[i] == '-';
      if i < |b| {
        Ahead(b, i);
      }
      if negative {
        i := i + 1;
      }
      r := Unsigned(negative);
    }

    method Unsigned(negative: bool) returns (r: Result<Value>)
      requires i <= |b|
      modifies this
      ensures old(i) <= i <= |b| && Agrees(r, b, i, ParseUnsigned(b[old(i)..], negative))
    {
      hide IntegerDigits, FractionLength, DecimalValue;
      var start := i;
      var digits := Integer();
      if digits == 0 {
        return Refused(EXIT_USAGE);
      }
      var lit := b[start..i];
      assert b[start..][digits..] == b[i..] && b[start..][..digits] == lit;
      var other := Fraction();
      if other.Refused? {
        return Refused(other.code);
      }
      if other.value || (negative && lit == "0") {
        return Refused(EXIT_UNVERIFIED);
      }
      var n: int := DecimalValue(lit);
      if n > MAX_SAFE {
        return Refused(EXIT_UNVERIFIED);
      }
      r := Success(Int(if negative then -n else n));
    }

    method ParseAny(depth: nat) returns (r: Result<Value>)
      requires i <= |b|
      modifies this
      ensures old(i) <= i <= |b| && Agrees(r, b, i, ParseValue(b[old(i)..], depth))
      decreases |b| - i, 3
    {
      hide ParseNumber, ParseString, ParseObject, ParseArray, ParseWord, SkipSpace;
      if depth > MAX_DEPTH {
        return Refused(EXIT_USAGE);
      }
      SkipSpaces();
      if i >= |b| {
        return Refused(EXIT_USAGE);
      }
      Ahead(b, i);
      var c := b[i];
      if c == '{' {
        r := Object(depth);
      } else if c == '[' {
        r := Array(depth);
      } else if c == '"' {
        i := i + 1;
        var s := Str();
        r := if s.Refused? then Refused(s.code) else Success(ReportText.Str(s.value));
      } else if c == '-' || IsDigit(c) {
        r := Number();
      } else {
        r := Word();
      }
    }

    method Word() returns (r: Result<Value>)
      requires i <= |b|
      modifies this
      ensures old(i) <= i <= |b| && Agrees(r, b, i, ParseWord(b[old(i)..]))
    {
      var found := Literal("true");
      if found {
        return Success(Bool(true));
      }
      found := Literal("false");
      if found {
        return Success(Bool(false));
      }
      found := Literal("null");
      r := if found then Success(Null) else Refused(EXIT_USAGE);
    }

    /** One element and the comma or bracket after it. */
    method Element(depth: nat, ghost done: seq<Value>) returns (r: Result<Value>, more: bool)
      requires i <= |b|
      modifies this
      ensures old(i) <= i <= |b| && (r.Success? ==> old(i) < i)
      ensures ParseElems(b[old(i)..], depth, done) ==
              if r.Refused? then Bad(r.code)
              else if more then ParseElems(b[i..], depth, done + [r.value])
              else Ok(Arr(done + [r.value]), b[i..])
      decreases |b| - i, 4
    {
      hide ParseValue, ParseElems, SkipSpace;
      ElemStep(b[i..], depth, done);
      more := false;
      r := ParseAny(depth + 1);
      if r.Refused? {
        return;
      }
      SkipSpaces();
      if i >= |b| {
        return Refused(EXIT_USAGE), false;
      }
      Ahead(b, i);
      var c := b[i];
      i := i + 1;
      if c == ',' {
        more := true;
      } else if c != ']' {
        r := Refused(EXIT_USAGE);
      }
    }

    /** An array, with the cursor on its bracket. */
    method Array(depth: nat) returns (r: Result<Value>)
      requires i < |b|
      modifies this
      ensures old(i) <= i <= |b| && Agrees(r, b, i, ParseArray(b[old(i) + 1..], depth))
      decreases |b| - i, 2
    {
      hide ParseElems, SkipSpace;
      ghost var whole := ParseArray(b[i + 1..], depth);
      i := i + 1;
      var arr: seq<Value> := [];
      SkipSpaces();
      if i < |b| {
        Ahead(b, i);
        if b[i] == ']' {
          i := i + 1;
          return Success(Arr(arr));
        }
      }
      var more := true;
      while more
        invariant old(i) < i <= |b|
        invariant if more then whole == ParseElems(b[i..], depth, arr) else whole == Ok(Arr(arr), b[i..])
        decreases |b| - i
      {
        var v;
        v, more := Element(depth, arr);
        if v.Refused? {
          return v;
        }
        arr := arr + [v.value];
      }
      r := Success(Arr(arr));
    }

    /** A member name that the object does not have yet, and the colon after it. */
    method Name(members: seq<Member>) returns (r: Result<string>)
      requires i <= |b|
      modifies this
      ensures old(i) <= i <= |b| && Agrees(r, b, i, ParseName(b[old(i)..], members))
    {
      hide SkipSpace, ParseString, HasKey;
      SkipSpaces();
      if i >= |b| || b[i] != '"' {
        return Refused(EXIT_USAGE);
      }
      Ahead(b, i);
      i := i + 1;
      r := Str();
      if r.Refused? {
        return;
      }
      var dup := IsDuplicate(members, r.value);
      if dup {
        return Refused(EXIT_UNVERIFIED);
      }
      SkipSpaces();
      if i >= |b| || b[i] != ':' {
        return Refused(EXIT_USAGE);
      }
      Ahead(b, i);
      i := i + 1;
    }

    /** One member and the comma or brace after it. */
    method NamedValue(depth: nat, done: seq<Member>) returns (r: Result<Member>, more: bool)
      requires i <= |b|
      modifies this
      ensures old(i) <= i <= |b| && (r.Success? ==> old(i) < i)
      ensures ParseMembers(b[old(i)..], depth, done) ==
              if r.Refused? then Bad(r.code)
              else if more then ParseMembers(b[i..], depth, done + [r.value])
              else Ok(Obj(done + [r.value]), b[i..])
      decreases |b| - i, 4
    {
      hide ParseValue, ParseMembers, SkipSpace, ParseName;
      MemberStep(b[i..], depth, done);
      var k := Name(done);
      if k.Refused? {
        return Refused(k.code), false;
      }
      var v := ParseAny(depth + 1);
      if v.Refused? {
        return Refused(v.code), false;
      }
      SkipSpaces();
      if i >= |b| {
        return Refused(EXIT_USAGE), false;
      }
      Ahead(b, i);
      var c := b[i];
      i := i + 1;
      r, more := Success(Member(k.value, v.value)), c == ',';
      if c != ',' && c != '}' {
        r := Refused(EXIT_USAGE);
      }
    }

    /** An object, with the cursor on its brace. */
    method Object(depth: nat) returns (r: Result<Value>)
      requires i < |b|
      modifies this
      ensures old(i) <= i <= |b| && Agrees(r, b, i, ParseObject(b[old(i) + 1..], depth))
      decreases |b| - i, 2
    {
      hide ParseMembers, SkipSpace;
      ghost var whole := ParseObject(b[i + 1..], depth);
      i := i + 1;
      var members: seq<Member> := [];
      SkipSpaces();
      if i < |b| {
        Ahead(b, i);
        if b[i] == '}' {
          i := i + 1;
          return Success(Obj(members));
        }
      }
      var more := true;
      while more
        invariant old(i) < i <= |b|
        invariant if more then whole == ParseMembers(b[i..], depth, members) else whole == Ok(Obj(members), b[i..])
        decreases |b| - i
      {
        var m;
        m, more := NamedValue(depth, members);
        if m.Refused? {
          return Refused(m.code);
        }
        members := members + [m.value];
      }
      r := Success(Obj(members));
    }
  }

  /** The reading of the rest of a string, behind what has been read of it. */
  function Behind(sb: string, p: Parsed<string>): Parsed<string> {
    if p.Bad? then p else Ok(sb + p.value, p.rest)
  }

  lemma BehindNothing(p: Parsed<string>)
    ensures Behind("", p) == p
  {
    if p.Ok? {
      assert "" + p.value == p.value;
    }
  }

  lemma StringStep(sb: string, s: string)
    ensures Behind(sb, ParseString(s)) ==
            if s == "" then Bad(EXIT_USAGE)
            else if s[0] == '"' then Ok(sb, s[1..])
            else if s[0] as int < 0x20 then Bad(EXIT_USAGE)
            else
              var head := if s[0] == '\\' then ParseEscape(s[1..]) else Ok(s[0], s[1..]);
              if head.Bad? then Bad(head.code) else Behind(sb + [head.value], ParseString(head.rest))
  {
    hide ParseEscape;
    assert sb + "" == sb;
    if s != "" && s[0] != '"' && s[0] as int >= 0x20 {
      var head := if s[0] == '\\' then ParseEscape(s[1..]) else Ok(s[0], s[1..]);
      if head.Ok? && ParseString(head.rest).Ok? {
        assert sb + ([head.value] + ParseString(head.rest).value) == sb + [head.value] + ParseString(head.rest).value;
      }
    }
  }

  lemma FractionParts(s: string)
    ensures var p, f := PointLength(s), FractionLength(s);
            if p.Nothing? then f.Nothing?
            else var e := ExponentLength(s[p.value..]);
                 if e.Nothing? then f.Nothing? else f == Got(p.value + e.value)
  {
    hide PointLength, ExponentLength;
  }

  lemma ElemStep(s: string, depth: nat, done: seq<Value>)
    ensures ParseElems(s, depth, done) ==
            var v := ParseValue(s, depth + 1);
            if v.Bad? then v
            else
              var t := SkipSpace(v.rest);
              if t == "" then Bad(EXIT_USAGE)
              else if t[0] == ',' then ParseElems(t[1..], depth, done + [v.value])
              else if t[0] == ']' then Ok(Arr(done + [v.value]), t[1..])
              else Bad(EXIT_USAGE)
  {
    hide ParseValue, SkipSpace;
  }

  lemma MemberStep(s: string, depth: nat, done: seq<Member>)
    ensures ParseMembers(s, depth, done) ==
            var k := ParseName(s, done);
            if k.Bad? then Bad(k.code)
            else
              var v := ParseValue(k.rest, depth + 1);
              if v.Bad? then v
              else
                var w := SkipSpace(v.rest);
                if w == "" then Bad(EXIT_USAGE)
                else if w[0] == ',' then ParseMembers(w[1..], depth, done + [Member(k.value, v.value)])
                else if w[0] == '}' then Ok(Obj(done + [Member(k.value, v.value)]), w[1..])
                else Bad(EXIT_USAGE)
  {
    hide ParseValue, SkipSpace, ParseName;
  }

  method IsDuplicate(members: seq<Member>, k: string) returns (dup: bool)
    ensures dup <==> HasKey(members, k)
  {
    for j := 0 to |members|
      invariant forall m :: 0 <= m < j ==> members[m].key != k
    {
      if members[j].key == k {
        return true;
      }
    }
    dup := false;
  }

  // ---- The whole file ----

  const BOM: char := 0xFEFF as char

  function WithoutBom(text: string): string {
    if text != "" && text[0] == BOM then text[1..] else text
  }

  /** What a report file must be: one object, with a kind or a signature, and nothing after it. */
  function ParseFile(text: string): Result<Value> {
    var t := SkipSpace(WithoutBom(text));
    if t == "" then Refused(EXIT_USAGE)
    else
      var v := ParseValue(t, 0);
      if v.Bad? then Refused(v.code)
      else if SkipSpace(v.rest) != "" then Refused(EXIT_USAGE)
      else if !v.value.Obj? then Refused(EXIT_USAGE)
      else if !HasKey(v.value.members, "kind") && !HasKey(v.value.members, "signature") then Refused(EXIT_USAGE)
      else Success(v.value)
  }

  /** What a report file may hold: behind one byte order mark at most, the spelling of an object
      that a report can hold and that names a kind or a signature. */
  ghost predicate SpellsReport(text: string, v: Value) {
    && (exists t :: (text == t || text == [BOM] + t) && ReportGrammar.Padded(t, v))
    && ReportRoundTrip.WellFormed(v, 256) && v.Obj?
    && exists m :: m in v.members && (m.key == "kind" || m.key == "signature")
  }

  /** A file is read as a report exactly when it spells that report. */
  lemma ReadsReports(text: string, v: Value)
    ensures ParseFile(text) == Success(v) <==> SpellsReport(text, v)
  {
    hide ParseValue, SkipSpace, ReportGrammar.Padded, ReportRoundTrip.WellFormed;
    var t := WithoutBom(text);
    var u := SkipSpace(t);
    assert text == t || text == [BOM] + t;
    NothingRead();
    ReportGrammar.SkipTwice(t);
    SkipFirst(t);
    forall s | (text == s || text == [BOM] + s) && ReportGrammar.Padded(s, v)
      ensures s == t
    {
      NoBom(s, v);
      assert ([BOM] + s)[1..] == s;
    }
    ReportGrammar.ReadsExactly(t, v);
    if v.Obj? {
      NamesKind(v.members);
    }
  }

  lemma NothingRead()
    ensures ParseValue("", 0).Bad?
  {
  }

  lemma SkipFirst(t: string)
    ensures ParseValue(SkipSpace(t), 0) == ParseValue(t, 0)
  {
    hide ParseObject, ParseArray, ParseString, ParseNumber, ParseWord;
    ReportGrammar.SkipTwice(t);
  }

  /** Nothing that starts with a byte order mark spells a value. */
  lemma NoBom(s: string, v: Value)
    requires ReportGrammar.Padded(s, v)
    ensures s != "" && s[0] != BOM
  {
    hide ReportGrammar.ValueSpelled, ReportGrammar.Gap;
    var i, j :| 0 <= i <= j <= |s| && ReportGrammar.Gap(s[..i]) && ReportGrammar.Gap(s[j..]) && ReportGrammar.ValueSpelled(s[i..j], v);
    ReportGrammar.StartsValue(s[i..j], v);
    if s[0] == BOM {
      BomIsNoGap(s[..i]);
      BomIsNoValue(s[i..j], v);
    }
  }

  lemma BomIsNoGap(g: string)
    requires ReportGrammar.Gap(g)
    ensures g == "" || g[0] != BOM
  {
  }

  lemma BomIsNoValue(s: string, v: Value)
    requires ReportGrammar.ValueSpelled(s, v)
    ensures s == "" || s[0] != BOM
  {
    hide ReportGrammar.ElemsSpelled, ReportGrammar.MembersSpelled, ReportGrammar.CharsSpelled;
    if v.Int? {
      hide Decimal;
      ReportGrammar.IntIsText(s, v.n);
      assert s != "" && v.n >= 0 ==> IsDigit(s[0]);
    }
  }

  lemma NamesKind(members: seq<Member>)
    ensures HasKey(members, "kind") || HasKey(members, "signature") <==>
            exists m :: m in members && (m.key == "kind" || m.key == "signature")
  {
    if m :| m in members && (m.key == "kind" || m.key == "signature") {
      var i :| 0 <= i < |members| && members[i] == m;
    }
  }

  method ParseReportObject(text: string) returns (r: Result<Value>)
    ensures r == ParseFile(text)
    ensures forall v :: r == Success(v) <==> SpellsReport(text, v)
  {
    hide ParseValue, SkipSpace, HasKey, SpellsReport;
    forall v
      ensures ParseFile(text) == Success(v) <==> SpellsReport(text, v)
    {
      ReadsReports(text, v);
    }
    var p := new Parser(WithoutBom(text));
    assert p.b[0..] == p.b;
    p.SkipSpaces();
    if p.i >= |p.b| {
      return Refused(EXIT_USAGE);
    }
    r := p.ParseAny(0);
    if r.Refused? {
      return;
    }
    p.SkipSpaces();
    if p.i != |p.b| {
      return Refused(EXIT_USAGE);
    }
    if !r.value.Obj? {
      return Refused(EXIT_USAGE);
    }
    var kind := IsDuplicate(r.value.members, "kind");
    var signature := IsDuplicate(r.value.members, "signature");
    if !kind && !signature {
      return Refused(EXIT_USAGE);
    }
  }
}
