/** Report values, their canonical text, and what the strict parser accepts, over the Unicode
    scalar values of a report file. */
module ReportText {
  import opened Sorting

  const MAX_DEPTH: nat := 256
  const MAX_SAFE: int := 9007199254740991
  const EXIT_UNVERIFIED := 2
  const EXIT_USAGE := 6

  datatype Value =
    | Null
    | Bool(b: bool)
    | Int(n: int)
    | Str(s: string)
    | Arr(elems: seq<Value>)
    | Obj(members: seq<Member>)

  /** An object remembers the order its members came in. */
  datatype Member = Member(key: string, value: Value)

  // ---- Characters and numbers ----

  function HexDigit(d: nat): (c: char)
    requires d < 16
  {
    if d < 10 then (d + '0' as int) as char else (d - 10 + 'a' as int) as char
  }

  datatype Maybe<+T> = Got(value: T) | Nothing

  function HexValue(c: char): Maybe<nat> {
    if '0' <= c <= '9' then Got(c as int - '0' as int)
    else if 'a' <= c <= 'f' then Got(c as int - 'a' as int + 10)
    else if 'A' <= c <= 'F' then Got(c as int - 'A' as int + 10)
    else Nothing
  }

  lemma HexRoundTrip(d: nat)
    requires d < 16
    ensures HexValue(HexDigit(d)) == Got(d)
  {
  }

  predicate IsDigit(c: char) { '0' <= c <= '9' }

  function DigitChar(d: nat): (c: char)
    requires d < 10
    ensures IsDigit(c) && c as int == '0' as int + d
  {
    (d + '0' as int) as char
  }

  /** Plain decimal. */
  function Decimal(n: nat): (s: string)
    ensures s != [] && forall c :: c in s ==> IsDigit(c)
  {
    if n < 10 then [DigitChar(n)] else Decimal(n / 10) + [DigitChar(n % 10)]
  }

  function IntText(n: int): string { if n < 0 then "-" + Decimal(-n) else Decimal(n) }

  function DecimalValue(s: string): nat
    requires forall c :: c in s ==> IsDigit(c)
  {
    if s == [] then 0
    else
      assert IsDigit(s[|s| - 1]);
      10 * DecimalValue(s[..|s| - 1]) + (s[|s| - 1] as int - '0' as int)
  }

  lemma {:induction false} DecimalRoundTrip(n: nat)
    ensures DecimalValue(Decimal(n)) == n
    ensures Decimal(n)[0] == '0' <==> n == 0
    ensures n == 0 ==> Decimal(n) == "0"
  {
    if n >= 10 {
      DecimalRoundTrip(n / 10);
      var s := Decimal(n / 10);
      assert (s + [DigitChar(n % 10)])[..|s|] == s;
    }
  }

  // ---- Canonical text ----

  /** Section 3.2.2.2 of RFC 8785: short escapes, \\u00xx for the other control characters. */
  function EscapeChar(c: char): string {
    if c == '"' then "\\\""
    else if c == '\\' then "\\\\"
    else if c == '\n' then "\\n"
    else if c == '\r' then "\\r"
    else if c == '\t' then "\\t"
    else if c as int == 8 then "\\b"
    else if c as int == 12 then "\\f"
    else if c as int < 0x20 then "\\u00" + [HexDigit(c as int / 16), HexDigit(c as int % 16)]
    else [c]
  }

  function Escaped(s: string): string {
    if s == "" then "" else EscapeChar(s[0]) + Escaped(s[1..])
  }

  function StringText(s: string): string { "\"" + Escaped(s) + "\"" }

  /** UTF-16 code units. */
  function Utf16(s: string): seq<int> {
    if s == "" then []
    else
      var c := s[0] as int;
      (if c < 0x10000 then [c] else [0xD800 + (c - 0x10000) / 0x400, 0xDC00 + (c - 0x10000) % 0x400]) + Utf16(s[1..])
  }

  function MemberKey(m: Member): seq<int> { Utf16(m.key) }

  /** The text of a value with its members in the order they have. */
  function Text(v: Value): string {
    match v
    case Null => "null"
    case Bool(b) => if b then "true" else "false"
    case Int(n) => IntText(n)
    case Str(s) => StringText(s)
    case Arr(elems) => "[" + ElemsText(elems) + "]"
    case Obj(members) => "{" + MembersText(members) + "}"
  }

  function ElemsText(elems: seq<Value>): string {
    if elems == [] then ""
    else if |elems| == 1 then Text(elems[0])
    else Text(elems[0]) + "," + ElemsText(elems[1..])
  }

  function MemberText(m: Member): string { StringText(m.key) + ":" + Text(m.value) }

  function MembersText(members: seq<Member>): string {
    if members == [] then ""
    else if |members| == 1 then MemberText(members[0])
    else MemberText(members[0]) + "," + MembersText(members[1..])
  }

  /** The value with every object's members in canonical order. */
  function Normal(v: Value): Value {
    match v
    case Arr(elems) => Arr(NormalElems(elems))
    case Obj(members) => Obj(Sort(NormalMembers(members), MemberKey))
    case _ => v
  }

  function NormalElems(elems: seq<Value>): (r: seq<Value>)
    ensures |r| == |elems| && forall i :: 0 <= i < |elems| ==> r[i] == Normal(elems[i])
  {
    if elems == [] then [] else [Normal(elems[0])] + NormalElems(elems[1..])
  }

  function NormalMembers(members: seq<Member>): (r: seq<Member>)
    ensures |r| == |members|
    ensures forall i :: 0 <= i < |members| ==> r[i] == Member(members[i].key, Normal(members[i].value))
  {
    if members == [] then [] else [Member(members[0].key, Normal(members[0].value))] + NormalMembers(members[1..])
  }

  function Canonical(v: Value): string { Text(Normal(v)) }

  // ---- What the parser reads ----

  /** A value and what follows it, or the exit code of the refusal. */
  datatype Parsed<+T> = Ok(value: T, rest: string) | Bad(code: int)

  predicate IsSpace(c: char) { c == ' ' || c == '\t' || c == '\n' || c == '\r' }

  function SkipSpace(s: string): (r: string)
    ensures |r| <= |s|
  {
    if s != "" && IsSpace(s[0]) then SkipSpace(s[1..]) else s
  }

  function Hex4(s: string): (r: Parsed<nat>)
    ensures r.Ok? ==> r.value < 0x10000 && |r.rest| < |s|
  {
    if |s| < 4 then Bad(EXIT_USAGE)
    else
      var (a, b, c, d) := (HexValue(s[0]), HexValue(s[1]), HexValue(s[2]), HexValue(s[3]));
      if a.Nothing? || b.Nothing? || c.Nothing? || d.Nothing? then Bad(EXIT_USAGE)
      else Ok(HexNumber(a.value, b.value, c.value, d.value), s[4..])
  }

  function HexNumber(a: nat, b: nat, c: nat, d: nat): nat { 4096 * a + 256 * b + 16 * c + d }

  /** One escape, after its backslash. */
  function ParseEscape(s: string): (r: Parsed<char>)
    ensures r.Ok? ==> |r.rest| < |s|
  {
    if s == "" then Bad(EXIT_USAGE)
    else if s[0] == '"' || s[0] == '\\' || s[0] == '/' then Ok(s[0], s[1..])
    else if s[0] == 'b' then Ok(8 as char, s[1..])
    else if s[0] == 'f' then Ok(12 as char, s[1..])
    else if s[0] == 'n' then Ok('\n', s[1..])
    else if s[0] == 'r' then Ok('\r', s[1..])
    else if s[0] == 't' then Ok('\t', s[1..])
    else if s[0] == 'u' then ParseUnicode(s[1..])
    else Bad(EXIT_USAGE)
  }

  predicate IsSurrogate(n: nat) { 0xD800 <= n < 0xE000 }

  /** The four digits of a \\u escape, and the second half of a surrogate pair. */
  function ParseUnicode(s: string): (r: Parsed<char>)
    ensures r.Ok? ==> |r.rest| < |s|
  {
    var hi := Hex4(s);
    if hi.Bad? then Bad(hi.code)
    else if !IsSurrogate(hi.value) then Ok(hi.value as char, hi.rest)
    else if hi.value >= 0xDC00 || !("\\u" <= hi.rest) then Bad(EXIT_UNVERIFIED)
    else
      var lo := Hex4(hi.rest[2..]);
      if lo.Bad? then Bad(lo.code)
      else if !(0xDC00 <= lo.value < 0xE000) then Bad(EXIT_UNVERIFIED)
      else Ok((0x10000 + 0x400 * (hi.value - 0xD800) + (lo.value - 0xDC00)) as char, lo.rest)
  }

  /** A string, after its opening quote. */
  function ParseString(s: string): (r: Parsed<string>)
    ensures r.Ok? ==> |r.rest| < |s|
    decreases |s|
  {
    if s == "" then Bad(EXIT_USAGE)
    else if s[0] == '"' then Ok("", s[1..])
    else if s[0] as int < 0x20 then Bad(EXIT_USAGE)
    else
      var head := if s[0] == '\\' then ParseEscape(s[1..]) else Ok(s[0], s[1..]);
      if head.Bad? then Bad(head.code)
      else
        var tail := ParseString(head.rest);
        if tail.Bad? then tail else Ok([head.value] + tail.value, tail.rest)
  }

  function CountDigits(s: string): (n: nat)
    ensures n <= |s| && forall i :: 0 <= i < n ==> IsDigit(s[i])
    ensures n < |s| ==> !IsDigit(s[n])
  {
    if s != "" && IsDigit(s[0]) then 1 + CountDigits(s[1..]) else 0
  }

  /** The integer part: a zero alone, or digits that start with another digit. */
  function IntegerDigits(s: string): (n: nat)
    ensures n <= |s| && forall i :: 0 <= i < n ==> IsDigit(s[i])
  {
    if s != "" && s[0] == '0' then 1 else CountDigits(s)
  }

  /** What a fraction takes up; Nothing when it is malformed. */
  function PointLength(s: string): (n: Maybe<nat>)
    ensures n.Got? ==> n.value <= |s|
  {
    if s == "" || s[0] != '.' then Got(0)
    else if CountDigits(s[1..]) == 0 then Nothing
    else Got(1 + CountDigits(s[1..]))
  }

  /** What an exponent takes up; Nothing when it is malformed. */
  function ExponentLength(s: string): (n: Maybe<nat>)
    ensures n.Got? ==> n.value <= |s|
  {
    if s == "" || (s[0] != 'e' && s[0] != 'E') then Got(0)
    else
      var sign := if |s| > 1 && (s[1] == '+' || s[1] == '-') then 2 else 1;
      if CountDigits(s[sign..]) == 0 then Nothing else Got(sign + CountDigits(s[sign..]))
  }

  function FractionLength(s: string): (n: Maybe<nat>)
    ensures n.Got? ==> n.value <= |s|
  {
    var point := PointLength(s);
    if point.Nothing? then Nothing
    else
      var exponent := ExponentLength(s[point.value..]);
      if exponent.Nothing? then Nothing else Got(point.value + exponent.value)
  }

  function ParseNumber(s: string): (r: Parsed<Value>)
    ensures r.Ok? ==> |r.rest| < |s| && r.value.Int? && -MAX_SAFE <= r.value.n <= MAX_SAFE
  {
    if s != "" && s[0] == '-' then ParseUnsigned(s[1..], true) else ParseUnsigned(s, false)
  }

  /** A number behind its sign. Only a plain integer of safe magnitude that is not -0 will do. */
  function ParseUnsigned(t: string, negative: bool): (r: Parsed<Value>)
    ensures r.Ok? ==> |r.rest| < |t| && r.value.Int? && -MAX_SAFE <= r.value.n <= MAX_SAFE
  {
    var digits := IntegerDigits(t);
    if digits == 0 then Bad(EXIT_USAGE)
    else
      var fraction := FractionLength(t[digits..]);
      if fraction.Nothing? then Bad(EXIT_USAGE)
      else
        var n: int := DecimalValue(t[..digits]);
        if fraction.value > 0 || (negative && t[..digits] == "0") then Bad(EXIT_UNVERIFIED)
        else if n > MAX_SAFE then Bad(EXIT_UNVERIFIED)
        else Ok(Int(if negative then -n else n), t[digits..])
  }

  predicate HasKey(members: seq<Member>, k: string) { exists i :: 0 <= i < |members| && members[i].key == k }

  function ParseValue(s: string, depth: nat): (r: Parsed<Value>)
    ensures r.Ok? ==> |r.rest| < |s|
    decreases |s|, 3
  {
    if depth > MAX_DEPTH then Bad(EXIT_USAGE)
    else
      var t := SkipSpace(s);
      if t == "" then Bad(EXIT_USAGE)
      else if t[0] == '{' then ParseObject(t[1..], depth)
      else if t[0] == '[' then ParseArray(t[1..], depth)
      else if t[0] == '"' then
        var str := ParseString(t[1..]);
        if str.Bad? then Bad(str.code) else Ok(Str(str.value), str.rest)
      else if t[0] == '-' || IsDigit(t[0]) then ParseNumber(t)
      else ParseWord(t)
  }

  function ParseWord(t: string): (r: Parsed<Value>)
    ensures r.Ok? ==> |r.rest| < |t|
  {
    if "true" <= t then Ok(Bool(true), t[4..])
    else if "false" <= t then Ok(Bool(false), t[5..])
    else if "null" <= t then Ok(Null, t[4..])
    else Bad(EXIT_USAGE)
  }

  /** An array, after its bracket. */
  function ParseArray(s: string, depth: nat): (r: Parsed<Value>)
    ensures r.Ok? ==> |r.rest| < |s|
    decreases |s|, 5
  {
    var t := SkipSpace(s);
    if t != "" && t[0] == ']' then Ok(Arr([]), t[1..]) else ParseElems(t, depth, [])
  }

  /** An object, after its brace. */
  function ParseObject(s: string, depth: nat): (r: Parsed<Value>)
    ensures r.Ok? ==> |r.rest| < |s|
    decreases |s|, 5
  {
    var t := SkipSpace(s);
    if t != "" && t[0] == '}' then Ok(Obj([]), t[1..]) else ParseMembers(t, depth, [])
  }

  /** Elements from the next one on, in an array that already has some. */
  function ParseElems(s: string, depth: nat, done: seq<Value>): (r: Parsed<Value>)
    ensures r.Ok? ==> |r.rest| < |s|
    decreases |s|, 4
  {
    var v := ParseValue(s, depth + 1);
    if v.Bad? then v
    else
      var t := SkipSpace(v.rest);
      if t == "" then Bad(EXIT_USAGE)
      else if t[0] == ',' then ParseElems(t[1..], depth, done + [v.value])
      else if t[0] == ']' then Ok(Arr(done + [v.value]), t[1..])
      else Bad(EXIT_USAGE)
  }

  /** A name the object does not have yet, and the colon after it. */
  function ParseName(s: string, done: seq<Member>): (r: Parsed<string>)
    ensures r.Ok? ==> |r.rest| < |s| && !HasKey(done, r.value)
  {
    var t := SkipSpace(s);
    if t == "" || t[0] != '"' then Bad(EXIT_USAGE)
    else
      var k := ParseString(t[1..]);
      if k.Bad? then Bad(k.code)
      else if HasKey(done, k.value) then Bad(EXIT_UNVERIFIED)
      else
        var u := SkipSpace(k.rest);
        if u == "" || u[0] != ':' then Bad(EXIT_USAGE) else Ok(k.value, u[1..])
  }

  /** Members from the next one on, in an object that already has some. */
  function ParseMembers(s: string, depth: nat, done: seq<Member>): (r: Parsed<Value>)
    ensures r.Ok? ==> |r.rest| < |s|
    decreases |s|, 4
  {
    var k := ParseName(s, done);
    if k.Bad? then Bad(k.code)
    else
      var v := ParseValue(k.rest, depth + 1);
      if v.Bad? then v
      else
        var w := SkipSpace(v.rest);
        if w == "" then Bad(EXIT_USAGE)
        else if w[0] == ',' then ParseMembers(w[1..], depth, done + [Member(k.value, v.value)])
        else if w[0] == '}' then Ok(Obj(done + [Member(k.value, v.value)]), w[1..])
        else Bad(EXIT_USAGE)
  }
}
