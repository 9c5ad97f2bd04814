/** Which texts spell a report value. */
module ReportGrammar {
  // A grammar of texts that uses none of the parser's functions, and the two directions between
  // them: what spells a value is read as that value, and what is read as a value spells it.
  import opened ReportText
  import opened ReportRoundTrip

  // ---- The grammar ----

  /** White space between tokens. */
  ghost predicate Gap(s: string) {
    forall k :: 0 <= k < |s| ==> s[k] == ' ' || s[k] == '\t' || s[k] == '\n' || s[k] == '\r'
  }

  /** Either case of hex digit. */
  ghost predicate HexIs(c: char, d: int) {
    0 <= d < 16 && (c == "0123456789abcdef"[d] || c == "0123456789ABCDEF"[d])
  }

  /** The four digits of a code unit. */
  ghost predicate UnitIs(s: string, n: nat) {
    |s| == 4 && exists a, b, c, d ::
      HexIs(s[0], a) && HexIs(s[1], b) && HexIs(s[2], c) && HexIs(s[3], d) && n == 4096 * a + 256 * b + 16 * c + d
  }

  /** A two-character escape. */
  ghost predicate ShortEscape(s: string, c: char) {
    || (s == "\\\"" && c == '"') || (s == "\\\\" && c == '\\') || (s == "\\/" && c == '/')
    || (s == "\\b" && c as int == 0x08) || (s == "\\f" && c as int == 0x0C) || (s == "\\n" && c as int == 0x0A)
    || (s == "\\r" && c as int == 0x0D) || (s == "\\t" && c as int == 0x09)
  }

  /** A code unit that is no surrogate. */
  ghost predicate UnitEscape(s: string, c: char) {
    |s| == 6 && s[0] == '\\' && s[1] == 'u' && UnitIs(s[2..], c as int) && !(0xD800 <= c as int < 0xE000)
  }

  /** The two surrogates of a character outside the basic plane, as UTF-16 encodes it. */
  ghost predicate PairEscape(s: string, c: char) {
    && |s| == 12 && s[0] == '\\' && s[1] == 'u' && s[6] == '\\' && s[7] == 'u' && c as int >= 0x10000
    && UnitIs(s[2..6], 0xD800 + (c as int - 0x10000) / 0x400) && UnitIs(s[8..], 0xDC00 + (c as int - 0x10000) % 0x400)
  }

  /** One character inside a string: itself, or an escape. */
  ghost predicate CharSpelled(s: string, c: char) {
    || (s == [c] && c as int >= 0x20 && c != '"' && c != '\\')
    || ShortEscape(s, c) || UnitEscape(s, c) || PairEscape(s, c)
  }

  ghost predicate CharsSpelled(s: string, x: string)
    decreases |x|
  {
    if x == "" then s == "" else exists n :: 0 <= n <= |s| && CharSpelled(s[..n], x[0]) && CharsSpelled(s[n..], x[1..])
  }

  ghost predicate StringSpelled(s: string, x: string) {
    |s| >= 2 && s[0] == '"' && s[|s| - 1] == '"' && CharsSpelled(s[1..|s| - 1], x)
  }

  /** Plain decimal without a leading zero. */
  ghost predicate NatSpelled(s: string, n: nat)
    decreases n
  {
    if n < 10 then s == ["0123456789"[n]]
    else |s| > 1 && s[|s| - 1] == "0123456789"[n % 10] && NatSpelled(s[..|s| - 1], n / 10)
  }

  ghost predicate IntSpelled(s: string, n: int) {
    if n >= 0 then NatSpelled(s, n) else s != "" && s[0] == '-' && NatSpelled(s[1..], -n)
  }

  ghost predicate ValueSpelled(s: string, v: Value)
    decreases v, 1
  {
    match v
    case Null => s == "null"
    case Bool(b) => if b then s == "true" else s == "false"
    case Int(n) => IntSpelled(s, n)
    case Str(x) => StringSpelled(s, x)
    case Arr(elems) => |s| >= 2 && s[0] == '[' && s[|s| - 1] == ']' && ElemsSpelled(s[1..|s| - 1], elems)
    case Obj(members) => |s| >= 2 && s[0] == '{' && s[|s| - 1] == '}' && MembersSpelled(s[1..|s| - 1], members)
  }

  /** A value with white space around it. */
  ghost predicate Padded(s: string, v: Value)
    decreases v, 2
  {
    exists i, j :: 0 <= i <= j <= |s| && Gap(s[..i]) && Gap(s[j..]) && ValueSpelled(s[i..j], v)
  }

  ghost predicate ElemsSpelled(s: string, elems: seq<Value>)
    decreases elems, 3
  {
    if elems == [] then Gap(s)
    else if |elems| == 1 then Padded(s, elems[0])
    else exists i :: 0 <= i < |s| && s[i] == ',' && Padded(s[..i], elems[0]) && ElemsSpelled(s[i + 1..], elems[1..])
  }

  /** A name, a colon and a value, with white space around each. */
  ghost predicate MemberSpelled(s: string, m: Member)
    decreases m, 3
  {
    exists i, j, k ::
      && 0 <= i <= j <= k < |s| && Gap(s[..i]) && StringSpelled(s[i..j], m.key) && Gap(s[j..k]) && s[k] == ':'
      && Padded(s[k + 1..], m.value)
  }

  ghost predicate MembersSpelled(s: string, members: seq<Member>)
    decreases members, 3
  {
    if members == [] then Gap(s)
    else if |members| == 1 then MemberSpelled(s, members[0])
    else exists i :: 0 <= i < |s| && s[i] == ',' && MemberSpelled(s[..i], members[0]) && MembersSpelled(s[i + 1..], members[1..])
  }

  // ---- White space ----

  lemma {:induction false} SkipGap(g: string, t: string)
    requires Gap(g) && (t == "" || !Gap([t[0]]))
    ensures SkipSpace(g + t) == t
  {
    if g == "" {
      assert g + t == t;
      assert t != "" ==> [t[0]][0] == t[0];
    } else {
      assert (g + t)[0] == g[0] && (g + t)[1..] == g[1..] + t;
      SkipGap(g[1..], t);
    }
  }

  lemma {:induction false} GapSkipped(s: string)
    ensures var i := |s| - |SkipSpace(s)|; 0 <= i <= |s| && Gap(s[..i]) && SkipSpace(s) == s[i..]
    ensures SkipSpace(s) != "" ==> !Gap([SkipSpace(s)[0]])
  {
    if s != "" && IsSpace(s[0]) {
      GapSkipped(s[1..]);
      var i := |s| - |SkipSpace(s)|;
      assert s[..i] == [s[0]] + s[1..][..i - 1];
    } else if s != "" {
      assert [s[0]][0] == s[0];
    }
  }

  lemma GapJoin(a: string, b: string)
    requires Gap(a) && Gap(b)
    ensures Gap(a + b)
  {
  }

  // ---- Strings ----

  lemma HexExact(c: char, d: int)
    ensures HexIs(c, d) <==> d >= 0 && HexValue(c) == Got(d)
  {
  }

  lemma UnitExact(s: string, n: nat)
    requires |s| >= 4
    ensures UnitIs(s[..4], n) <==> Hex4(s) == Ok(n, s[4..])
  {
    hide HexIs, HexValue;
    var t := s[..4];
    forall d
      ensures HexIs(t[0], d) <==> d >= 0 && HexValue(s[0]) == Got(d)
      ensures HexIs(t[1], d) <==> d >= 0 && HexValue(s[1]) == Got(d)
      ensures HexIs(t[2], d) <==> d >= 0 && HexValue(s[2]) == Got(d)
      ensures HexIs(t[3], d) <==> d >= 0 && HexValue(s[3]) == Got(d)
    {
      HexExact(s[0], d);
      HexExact(s[1], d);
      HexExact(s[2], d);
      HexExact(s[3], d);
    }
  }

  lemma HexShort(s: string)
    ensures Hex4(s).Ok? ==> |s| >= 4 && Hex4(s).rest == s[4..]
  {
    hide HexValue;
  }

  /** A pair of surrogates and the character they stand for. */
  lemma PairValue(c: int, hi: int, lo: int)
    requires 0xD800 <= hi < 0xDC00 && 0xDC00 <= lo < 0xE000
    ensures c == 0x10000 + 0x400 * (hi - 0xD800) + (lo - 0xDC00) <==>
            c >= 0x10000 && hi == 0xD800 + (c - 0x10000) / 0x400 && lo == 0xDC00 + (c - 0x10000) % 0x400
  {
  }

  lemma UnicodeReads(s: string, c: char, u: string)
    requires UnitEscape(s, c) || PairEscape(s, c)
    ensures ParseUnicode(s[2..] + u) == Ok(c, u)
  {
    hide Hex4, UnitIs;
    var t := s[2..] + u;
    if UnitEscape(s, c) {
      assert t[..4] == s[2..] && t[4..] == u;
      UnitExact(t, c as int);
    } else {
      var hi, lo := 0xD800 + (c as int - 0x10000) / 0x400, 0xDC00 + (c as int - 0x10000) % 0x400;
      assert t[..4] == s[2..6] && t[4..] == s[6..] + u;
      UnitExact(t, hi);
      assert t[4..][..2] == "\\u" && t[4..][2..] == s[8..] + u;
      var w := s[8..] + u;
      assert w[..4] == s[8..] && w[4..] == u;
      UnitExact(w, lo);
      PairValue(c as int, hi, lo);
    }
  }

  lemma EscapeReads(s: string, c: char, u: string)
    requires ShortEscape(s, c) || UnitEscape(s, c) || PairEscape(s, c)
    ensures s[0] == '\\' && ParseEscape(s[1..] + u) == Ok(c, u)
  {
    hide ParseUnicode, UnitIs;
    var t := s[1..] + u;
    if ShortEscape(s, c) {
      assert t[1..] == u;
    } else {
      UnicodeReads(s, c, u);
      assert t[0] == 'u' && t[1..] == s[2..] + u;
    }
  }

  /** A spelled character is read as that character. */
  lemma CharReads(s: string, c: char, u: string)
    requires CharSpelled(s, c)
    ensures ParseString(s + u) == var tail := ParseString(u); if tail.Bad? then tail else Ok([c] + tail.value, tail.rest)
  {
    hide ParseEscape, ShortEscape, UnitEscape, PairEscape;
    if ShortEscape(s, c) || UnitEscape(s, c) || PairEscape(s, c) {
      EscapeReads(s, c, u);
      EscapeNonempty(s, c);
      assert (s + u)[0] == '\\' && (s + u)[1..] == s[1..] + u;
    } else {
      assert (s + u)[0] == c && (s + u)[1..] == u;
    }
  }

  lemma EscapeNonempty(s: string, c: char)
    requires ShortEscape(s, c) || UnitEscape(s, c) || PairEscape(s, c)
    ensures s != "" && s[0] == '\\'
  {
    hide UnitIs;
  }

  lemma {:induction false} CharsRead(s: string, x: string, t: string)
    requires CharsSpelled(s, x)
    ensures ParseString(s + "\"" + t) == Ok(x, t)
    decreases |x|
  {
    hide CharSpelled, ParseEscape;
    if x == "" {
      assert s + "\"" + t == "\"" + t;
      assert ("\"" + t)[0] == '"' && ("\"" + t)[1..] == t;
    } else {
      var n :| 0 <= n <= |s| && CharSpelled(s[..n], x[0]) && CharsSpelled(s[n..], x[1..]);
      CharsRead(s[n..], x[1..], t);
      CharReads(s[..n], x[0], s[n..] + "\"" + t);
      assert s + "\"" + t == s[..n] + (s[n..] + "\"" + t);
      assert x == [x[0]] + x[1..];
    }
  }

  // What is read is what is left out at the front: text and rest give the length taken.

  lemma UnicodeSpelled(s: string)
    requires ParseUnicode(s).Ok?
    ensures var r := ParseUnicode(s);
            var k := |s| - |r.rest|;
            && 0 <= k && r.rest == s[k..]
            && (UnitEscape("\\u" + s[..k], r.value) || PairEscape("\\u" + s[..k], r.value))
  {
    hide Hex4, UnitIs;
    var hi, r := Hex4(s), ParseUnicode(s);
    HexShort(s);
    UnitExact(s, hi.value);
    if !IsSurrogate(hi.value) {
      var e := "\\u" + s[..4];
      assert e[2..] == s[..4];
    } else {
      var w := hi.rest[2..];
      var lo := Hex4(w);
      HexShort(w);
      UnitExact(w, lo.value);
      PairValue(r.value as int, hi.value, lo.value);
      var e := "\\u" + s[..10];
      assert w == s[6..] && lo.rest == s[10..];
      assert e[2..6] == s[..4] && e[8..] == w[..4];
      assert hi.rest[..2] == "\\u" && e[6] == hi.rest[0] && e[7] == hi.rest[1];
    }
  }

  lemma EscapeSpelled(s: string)
    requires ParseEscape(s).Ok?
    ensures var r := ParseEscape(s);
            var k := |s| - |r.rest|;
            0 <= k && r.rest == s[k..] && CharSpelled("\\" + s[..k], r.value)
  {
    hide ParseUnicode, UnitEscape, PairEscape;
    var r := ParseEscape(s);
    if s[0] == 'u' {
      UnicodeSpelled(s[1..]);
      var k := |s| - |r.rest|;
      assert "\\" + s[..k] == "\\u" + s[1..][..k - 1];
    } else {
      assert "\\" + s[..1] == ['\\', s[0]];
      assert ShortEscape(['\\', s[0]], r.value);
    }
  }

  lemma CharsCons(s: string, n: nat, c: char, x: string)
    requires n <= |s| && CharSpelled(s[..n], c) && CharsSpelled(s[n..], x)
    ensures CharsSpelled(s, [c] + x)
  {
    hide CharSpelled;
    assert ([c] + x)[0] == c && ([c] + x)[1..] == x;
  }

  /** The first character or escape of a string, and the reading of what follows it. */
  lemma StringHead(s: string) returns (n: nat, c: char)
    requires ParseString(s).Ok? && s[0] != '"'
    ensures 0 < n <= |s| && CharSpelled(s[..n], c)
    ensures ParseString(s[n..]).Ok? && ParseString(s) == Ok([c] + ParseString(s[n..]).value, ParseString(s[n..]).rest)
  {
    hide CharSpelled, ParseEscape;
    if s[0] == '\\' {
      EscapeSpelled(s[1..]);
      var head := ParseEscape(s[1..]);
      n, c := |s| - |head.rest|, head.value;
      assert "\\" + s[1..][..n - 1] == s[..n];
    } else {
      PlainSpelled(s);
      n, c := 1, s[0];
    }
  }

  /** r is what s is read as: x, spelled up to the closing quote. */
  ghost predicate ReadToQuote(s: string, r: Parsed<string>) {
    r.Ok? && var k := |s| - |r.rest|;
             0 < k <= |s| && r.rest == s[k..] && s[k - 1] == '"' && CharsSpelled(s[..k - 1], r.value)
  }

  lemma QuoteAtOnce(s: string)
    requires s != "" && s[0] == '"'
    ensures ReadToQuote(s, ParseString(s))
  {
    assert s[..0] == "";
  }

  lemma QuoteLater(s: string, n: nat, c: char, r: Parsed<string>)
    requires n <= |s| && CharSpelled(s[..n], c) && ReadToQuote(s[n..], r)
    ensures ReadToQuote(s, Ok([c] + r.value, r.rest))
  {
    hide CharSpelled, CharsSpelled;
    var k := |s| - |r.rest|;
    var x := s[..k - 1];
    assert x[..n] == s[..n] && x[n..] == s[n..][..k - 1 - n];
    CharsCons(x, n, c, r.value);
  }

  /** What is read as a string is spelled up to its closing quote. */
  lemma {:induction false} StringIsSpelled(s: string)
    requires ParseString(s).Ok?
    ensures ReadToQuote(s, ParseString(s))
    decreases |s|
  {
    hide CharSpelled, ReadToQuote, ParseEscape;
    if s[0] == '"' {
      QuoteAtOnce(s);
    } else {
      var n, c := StringHead(s);
      StringIsSpelled(s[n..]);
      QuoteLater(s, n, c, ParseString(s[n..]));
    }
  }

  lemma PlainSpelled(s: string)
    requires s != "" && s[0] as int >= 0x20 && s[0] != '"' && s[0] != '\\'
    ensures CharSpelled(s[..1], s[0])
  {
    assert s[..1] == [s[0]];
  }

  // ---- Numbers ----

  lemma {:induction false} NatIsDecimal(s: string, n: nat)
    ensures NatSpelled(s, n) <==> s == Decimal(n)
    decreases n
  {
    DigitAt(n % 10);
    if n >= 10 {
      if s != "" {
        NatIsDecimal(s[..|s| - 1], n / 10);
        assert s == s[..|s| - 1] + [s[|s| - 1]];
      }
      assert Decimal(n)[..|Decimal(n)| - 1] == Decimal(n / 10);
    }
  }

  lemma DigitAt(d: nat)
    requires d < 10
    ensures "0123456789"[d] == DigitChar(d)
  {
  }

  lemma IntIsText(s: string, n: int)
    ensures IntSpelled(s, n) <==> s == IntText(n)
  {
    hide Decimal, NatSpelled;
    if n >= 0 {
      NatIsDecimal(s, n);
    } else {
      NatIsDecimal(if s != "" then s[1..] else "", -n);
      if s != "" {
        assert s == [s[0]] + s[1..];
      }
      assert ("-" + Decimal(-n))[1..] == Decimal(-n);
    }
  }

  /** Digits without a leading zero are the decimal of their value. */
  lemma {:induction false} DecimalOfValue(w: string)
    requires w != "" && (forall c :: c in w ==> IsDigit(c)) && (|w| > 1 ==> w[0] != '0')
    ensures Decimal(DecimalValue(w)) == w
  {
    var n := |w| - 1;
    assert IsDigit(w[n]) && w == w[..n] + [w[n]];
    if n == 0 {
      assert DecimalValue(w[..0]) == 0;
    } else {
      DecimalOfValue(w[..n]);
      assert w[..n] != "0";
    }
  }

  /** r is what s is read as: an integer, spelled up to what is left over. */
  ghost predicate ReadNumber(s: string, r: Parsed<Value>) {
    r.Ok? && r.value.Int? && var k := |s| - |r.rest|; 0 < k <= |s| && r.rest == s[k..] && IntSpelled(s[..k], r.value.n)
  }

  lemma UnsignedIsSpelled(t: string, negative: bool)
    requires ParseUnsigned(t, negative).Ok?
    ensures var r := ParseUnsigned(t, negative);
            var k := |t| - |r.rest|;
            && 0 < k <= |t| && r.rest == t[k..] && (negative ==> r.value.n < 0) && (!negative ==> r.value.n >= 0)
            && t[..k] == Decimal(if negative then -r.value.n else r.value.n)
  {
    hide Decimal, FractionLength, CountDigits, DecimalValue;
    var digits := IntegerDigits(t);
    var w := t[..digits];
    LeadingZero(t);
    assert w != "" && w[0] == t[0];
    DecimalOfValue(w);
    DecimalRoundTrip(DecimalValue(w));
  }

  lemma LeadingZero(t: string)
    ensures var w := t[..IntegerDigits(t)]; |w| > 1 ==> w[0] != '0'
    ensures var w := t[..IntegerDigits(t)]; forall c :: c in w ==> IsDigit(c)
  {
    hide CountDigits;
  }

  lemma NumberIsSpelled(s: string)
    requires ParseNumber(s).Ok?
    ensures ReadNumber(s, ParseNumber(s))
  {
    hide Decimal, ParseUnsigned, IntSpelled;
    var r := ParseNumber(s);
    var k := |s| - |r.rest|;
    if s != "" && s[0] == '-' {
      UnsignedIsSpelled(s[1..], true);
      assert s[..k] == "-" + s[1..][..k - 1];
    } else {
      UnsignedIsSpelled(s, false);
    }
    IntIsText(s[..k], r.value.n);
  }

  // ---- What spells a value is read as it ----

  /** What may follow a value. */
  ghost predicate Stops(t: string) { t == "" || Gap([t[0]]) || t[0] == ',' || t[0] == ']' || t[0] == '}' }

  lemma StopsNumber(t: string)
    requires Stops(t)
    ensures NumberEnds(t)
  {
    assert t != "" ==> [t[0]][0] == t[0];
  }

  lemma StartsValue(s: string, v: Value)
    requires ValueSpelled(s, v)
    ensures s != "" && !Gap([s[0]]) && s[0] != ']' && s[0] != '}' && s[0] != ','
  {
    hide ElemsSpelled, MembersSpelled, CharsSpelled;
    if v.Int? {
      hide Decimal;
      IntIsText(s, v.n);
      if v.n >= 0 {
        assert IsDigit(s[0]);
      }
    }
    assert [s[0]][0] == s[0];
  }

  lemma NotGap(c: char)
    requires c == ',' || c == ']' || c == '}' || c == ':' || c == '"'
    ensures !Gap([c])
  {
    assert [c][0] == c;
  }

  /** White space in front of a value is skipped. */
  lemma GapBefore(g: string, s: string, depth: nat)
    requires Gap(g) && s != "" && !Gap([s[0]])
    ensures ParseValue(g + s, depth) == ParseValue(s, depth)
  {
    hide ParseObject, ParseArray, ParseString, ParseNumber, ParseWord, Gap;
    SkipGap(g, s);
    assert Gap("") by { NoGap(); }
    SkipGap("", s);
    assert "" + s == s;
  }

  lemma NoGap()
    ensures Gap("")
  {
  }

  /** A padded value is read as the value, up to what follows the white space behind it. */
  lemma PaddedReads(s: string, v: Value, depth: nat, t: string)
    requires Padded(s, v) && WellFormed(v, MAX_DEPTH - depth)
    requires t == "" || t[0] == ',' || t[0] == ']' || t[0] == '}'
    ensures var r := ParseValue(s + t, depth); r.Ok? && r.value == v && SkipSpace(r.rest) == t
    ensures SkipSpace(s + t) != "" && SkipSpace(s + t)[0] !in {']', '}', ','}
    decreases v, 2
  {
    hide ValueSpelled, WellFormed, ParseValue, Gap;
    var i, j :| 0 <= i <= j <= |s| && Gap(s[..i]) && Gap(s[j..]) && ValueSpelled(s[i..j], v);
    var u := s[j..] + t;
    StartsValue(s[i..j], v);
    BehindGap(s[j..], t);
    ValueReads(s[i..j], v, depth, u);
    var w := s[i..j] + u;
    assert s + t == s[..i] + w;
    GapBefore(s[..i], w, depth);
    SkipGap(s[..i], w);
    if t != "" {
      NotGap(t[0]);
    }
    SkipGap(s[j..], t);
  }

  lemma BehindGap(g: string, t: string)
    requires Gap(g) && (t == "" || t[0] == ',' || t[0] == ']' || t[0] == '}')
    ensures Stops(g + t)
  {
    if g != "" {
      assert [(g + t)[0]][0] == g[0];
    }
  }

  lemma ValueReads(s: string, v: Value, depth: nat, t: string)
    requires ValueSpelled(s, v) && WellFormed(v, MAX_DEPTH - depth) && Stops(t)
    ensures ParseValue(s + t, depth) == Ok(v, t)
    decreases v, 1
  {
    hide ParseValue, ParseWord, ParseNumber, ParseString, ParseArray, ParseObject, Gap, Stops, WellFormed,
         StringSpelled, IntSpelled, ElemsSpelled, MembersSpelled;
    StartsValue(s, v);
    HasRoom(v, MAX_DEPTH - depth);
    var x := s + t;
    assert x[0] == s[0];
    Dispatch(x, depth);
    match v
    case Null => WordReads(s, v, t);
    case Bool(b) => WordReads(s, v, t);
    case Int(n) => IntReads(s, n, t);
    case Str(y) => StrReads(s, y, t);
    case Arr(elems) =>
      assert x[1..] == s[1..|s| - 1] + ("]" + t);
      ArrayReads(s[1..|s| - 1], elems, depth, t);
    case Obj(members) =>
      assert x[1..] == s[1..|s| - 1] + ("}" + t);
      ObjectReads(s[1..|s| - 1], members, depth, t);
  }

  lemma HasRoom(v: Value, room: int)
    requires WellFormed(v, room)
    ensures room >= 0 && (v.Int? ==> -MAX_SAFE <= v.n <= MAX_SAFE)
  {
  }

  /** A value is read by its first character. */
  lemma Dispatch(x: string, depth: nat)
    requires x != "" && !Gap([x[0]]) && depth <= MAX_DEPTH
    ensures ParseValue(x, depth) ==
            if x[0] == '{' then ParseObject(x[1..], depth)
            else if x[0] == '[' then ParseArray(x[1..], depth)
            else if x[0] == '"' then
              var str := ParseString(x[1..]); if str.Bad? then Bad(str.code) else Ok(Str(str.value), str.rest)
            else if x[0] == '-' || IsDigit(x[0]) then ParseNumber(x)
            else ParseWord(x)
  {
    hide ParseObject, ParseArray, ParseString, ParseNumber, ParseWord, Gap;
    assert Gap("") by { NoGap(); }
    SkipGap("", x);
    assert "" + x == x;
  }

  lemma WordReads(s: string, v: Value, t: string)
    requires (v.Null? || v.Bool?) && ValueSpelled(s, v)
    ensures s[0] in {'n', 't', 'f'} && ParseWord(s + t) == Ok(v, t)
  {
    Slices(s, t);
  }

  lemma IntReads(s: string, n: int, t: string)
    requires IntSpelled(s, n) && -MAX_SAFE <= n <= MAX_SAFE && Stops(t)
    ensures s != "" && (s[0] == '-' || IsDigit(s[0])) && ParseNumber(s + t) == Ok(Int(n), t)
  {
    hide IntSpelled, IntText, ParseNumber, Stops;
    IntIsText(s, n);
    StopsNumber(t);
    NumberRead(n, t);
    assert s != "" by { TextNonempty(n); }
  }

  lemma TextNonempty(n: int)
    ensures IntText(n) != ""
  {
  }

  lemma StrReads(s: string, y: string, t: string)
    requires StringSpelled(s, y)
    ensures s[0] == '"' && ParseString((s + t)[1..]) == Ok(y, t)
  {
    hide CharsSpelled, ParseString;
    CharsRead(s[1..|s| - 1], y, t);
    assert (s + t)[1..] == s[1..|s| - 1] + "\"" + t;
  }

  lemma ArrayReads(body: string, elems: seq<Value>, depth: nat, t: string)
    requires ElemsSpelled(body, elems) && WellFormed(Arr(elems), MAX_DEPTH - depth)
    ensures ParseArray(body + ("]" + t), depth) == Ok(Arr(elems), t)
    decreases Arr(elems), 0
  {
    hide Gap, Padded, ParseElems, WellFormed, ElemsSpelled;
    var x := body + ("]" + t);
    ArrParts(elems, MAX_DEPTH - depth);
    NotGap(']');
    assert ("]" + t)[0] == ']' && ("]" + t)[1..] == t;
    if elems == [] {
      assert Gap(body) by { NoElems(body); }
      SkipGap(body, "]" + t);
    } else {
      ElemsReadAll(body, elems, depth, [], t);
      SkipElems(x, depth, []);
      assert [] + elems == elems;
    }
  }

  lemma NoElems(body: string)
    requires ElemsSpelled(body, [])
    ensures Gap(body)
  {
  }

  /** Elements are read from the first character that is not white space on. */
  lemma SkipElems(x: string, depth: nat, done: seq<Value>)
    ensures ParseElems(SkipSpace(x), depth, done) == ParseElems(x, depth, done)
  {
    hide Gap, ParseObject, ParseArray, ParseString, ParseNumber, ParseWord;
    SkipTwice(x);
  }

  lemma {:induction false} SkipTwice(x: string)
    ensures SkipSpace(SkipSpace(x)) == SkipSpace(x)
  {
    if x != "" && IsSpace(x[0]) {
      SkipTwice(x[1..]);
    }
  }

  /** Reading elements once the next value has been read, and t follows it. */
  lemma ElemNext(s: string, depth: nat, done: seq<Value>, v: Value, t: string)
    requires ParseValue(s, depth + 1).Ok? && ParseValue(s, depth + 1).value == v
    requires SkipSpace(ParseValue(s, depth + 1).rest) == t && t != ""
    ensures ParseElems(s, depth, done) ==
            if t[0] == ',' then ParseElems(t[1..], depth, done + [v])
            else if t[0] == ']' then Ok(Arr(done + [v]), t[1..]) else Bad(EXIT_USAGE)
  {
    hide ParseValue, SkipSpace;
  }

  lemma FirstElem(s: string, elems: seq<Value>) returns (i: nat)
    requires ElemsSpelled(s, elems) && elems != []
    ensures i <= |s| && Padded(s[..i], elems[0])
    ensures |elems| == 1 ==> i == |s|
    ensures |elems| > 1 ==> i < |s| && s[i] == ',' && ElemsSpelled(s[i + 1..], elems[1..])
  {
    hide Padded;
    if |elems| == 1 {
      i := |s|;
      assert s[..i] == s;
    } else {
      i :| 0 <= i < |s| && s[i] == ',' && Padded(s[..i], elems[0]) && ElemsSpelled(s[i + 1..], elems[1..]);
    }
  }

  lemma {:induction false} ElemsReadAll(s: string, elems: seq<Value>, depth: nat, done: seq<Value>, t: string)
    requires ElemsSpelled(s, elems) && elems != []
    requires forall i :: 0 <= i < |elems| ==> WellFormed(elems[i], MAX_DEPTH - depth - 1)
    ensures ParseElems(s + ("]" + t), depth, done) == Ok(Arr(done + elems), t)
    ensures SkipSpace(s + ("]" + t)) != "" && SkipSpace(s + ("]" + t))[0] != ']'
    decreases elems, 4
  {
    hide ParseValue, ParseElems, WellFormed, Padded, ElemsSpelled, SkipSpace;
    var i := FirstElem(s, elems);
    var u := s[i..] + ("]" + t);
    assert s + ("]" + t) == s[..i] + u;
    if |elems| == 1 {
      assert u[0] == ']' && u[1..] == t && done + elems == done + [elems[0]];
      PaddedReads(s[..i], elems[0], depth + 1, u);
      ElemNext(s[..i] + u, depth, done, elems[0], u);
    } else {
      assert u[0] == ',' && u[1..] == s[i + 1..] + ("]" + t);
      PaddedReads(s[..i], elems[0], depth + 1, u);
      ElemNext(s[..i] + u, depth, done, elems[0], u);
      ElemsReadAll(s[i + 1..], elems[1..], depth, done + [elems[0]], t);
      assert done + [elems[0]] + elems[1..] == done + elems;
    }
  }

  lemma ObjectReads(body: string, members: seq<Member>, depth: nat, t: string)
    requires MembersSpelled(body, members) && WellFormed(Obj(members), MAX_DEPTH - depth)
    ensures ParseObject(body + ("}" + t), depth) == Ok(Obj(members), t)
    decreases Obj(members), 0
  {
    hide Gap, MemberSpelled, ParseMembers, WellFormed, MembersSpelled, DistinctNames;
    var x := body + ("}" + t);
    ObjParts(members, MAX_DEPTH - depth);
    NotGap('}');
    assert ("}" + t)[0] == '}' && ("}" + t)[1..] == t;
    if members == [] {
      assert Gap(body) by { NoMembers(body); }
      SkipGap(body, "}" + t);
    } else {
      assert [] + members == members;
      MembersReadAll(body, members, depth, [], t);
      SkipMembers(x, depth, []);
    }
  }

  lemma NoMembers(body: string)
    requires MembersSpelled(body, [])
    ensures Gap(body)
  {
  }

  lemma SkipMembers(x: string, depth: nat, done: seq<Member>)
    ensures ParseMembers(SkipSpace(x), depth, done) == ParseMembers(x, depth, done)
  {
    hide ParseValue, ParseString, HasKey;
    SkipTwice(x);
  }

  lemma FirstMember(s: string, members: seq<Member>) returns (i: nat)
    requires MembersSpelled(s, members) && members != []
    ensures i <= |s| && MemberSpelled(s[..i], members[0])
    ensures |members| == 1 ==> i == |s|
    ensures |members| > 1 ==> i < |s| && s[i] == ',' && MembersSpelled(s[i + 1..], members[1..])
  {
    hide MemberSpelled;
    if |members| == 1 {
      i := |s|;
      assert s[..i] == s;
    } else {
      i :| 0 <= i < |s| && s[i] == ',' && MemberSpelled(s[..i], members[0]) && MembersSpelled(s[i + 1..], members[1..]);
    }
  }

  lemma {:induction false} MembersReadAll(s: string, members: seq<Member>, depth: nat, done: seq<Member>, t: string)
    requires MembersSpelled(s, members) && members != [] && DistinctNames(done + members)
    requires forall i :: 0 <= i < |members| ==> WellFormed(members[i].value, MAX_DEPTH - depth - 1)
    ensures ParseMembers(s + ("}" + t), depth, done) == Ok(Obj(done + members), t)
    ensures SkipSpace(s + ("}" + t)) != "" && SkipSpace(s + ("}" + t))[0] != '}'
    decreases members, 4
  {
    hide ParseMembers, WellFormed, MemberSpelled, MembersSpelled, SkipSpace, HasKey, DistinctNames;
    var m := members[0];
    NewKey(done, members);
    var i := FirstMember(s, members);
    var u := s[i..] + ("}" + t);
    assert s + ("}" + t) == s[..i] + u;
    if |members| == 1 {
      assert u[0] == '}' && u[1..] == t && done + members == done + [m];
      MemberReads(s[..i], m, depth, done, u);
    } else {
      assert u[0] == ',' && u[1..] == s[i + 1..] + ("}" + t);
      MemberReads(s[..i], m, depth, done, u);
      assert done + [m] + members[1..] == done + members;
      MembersReadAll(s[i + 1..], members[1..], depth, done + [m], t);
    }
  }

  lemma NameReads(g: string, q: string, h: string, key: string, done: seq<Member>, u: string)
    requires Gap(g) && StringSpelled(q, key) && Gap(h) && !HasKey(done, key) && u != "" && u[0] == ':'
    ensures ParseName(g + (q + (h + u)), done) == Ok(key, u[1..])
    ensures SkipSpace(g + (q + (h + u))) != "" && SkipSpace(g + (q + (h + u)))[0] == '"'
  {
    hide Gap, ParseString, CharsSpelled, HasKey;
    var w := q + (h + u);
    NotGap('"');
    assert w[0] == '"';
    SkipGap(g, w);
    var body := q[1..|q| - 1];
    CharsRead(body, key, h + u);
    assert w[1..] == body + "\"" + (h + u);
    NotGap(':');
    SkipGap(h, u);
  }

  lemma MemberNext(s: string, depth: nat, done: seq<Member>, m: Member, t: string)
    requires ParseName(s, done).Ok? && ParseName(s, done).value == m.key
    requires var v := ParseValue(ParseName(s, done).rest, depth + 1); v.Ok? && v.value == m.value && SkipSpace(v.rest) == t && t != ""
    ensures ParseMembers(s, depth, done) ==
            if t[0] == ',' then ParseMembers(t[1..], depth, done + [m])
            else if t[0] == '}' then Ok(Obj(done + [m]), t[1..]) else Bad(EXIT_USAGE)
  {
    hide ParseValue, ParseName, SkipSpace;
  }

  lemma MemberReads(s: string, m: Member, depth: nat, done: seq<Member>, t: string)
    requires MemberSpelled(s, m) && WellFormed(m.value, MAX_DEPTH - depth - 1) && !HasKey(done, m.key)
    requires t != "" && (t[0] == ',' || t[0] == '}')
    ensures ParseMembers(s + t, depth, done) ==
            if t[0] == ',' then ParseMembers(t[1..], depth, done + [m]) else Ok(Obj(done + [m]), t[1..])
    ensures SkipSpace(s + t) != "" && SkipSpace(s + t)[0] == '"'
    decreases m, 3
  {
    hide Gap, Padded, StringSpelled, ParseValue, ParseName, ParseMembers, WellFormed, HasKey, SkipSpace;
    var i, j, k :|
      && 0 <= i <= j <= k < |s| && Gap(s[..i]) && StringSpelled(s[i..j], m.key) && Gap(s[j..k]) && s[k] == ':'
      && Padded(s[k + 1..], m.value);
    var u := s[k..] + t;
    assert s + t == s[..i] + (s[i..j] + (s[j..k] + u)) && u[0] == ':' && u[1..] == s[k + 1..] + t;
    NameReads(s[..i], s[i..j], s[j..k], m.key, done, u);
    PaddedReads(s[k + 1..], m.value, depth + 1, t);
    MemberNext(s + t, depth, done, m, t);
  }

  // ---- What is read as a value spells it ----

  /** r is what s is read as: v, with white space in front, up to what is left over. */
  ghost predicate ReadAs(s: string, r: Parsed<Value>) {
    r.Ok? && var k := |s| - |r.rest|;
             0 <= k <= |s| && r.rest == s[k..] && exists i :: 0 <= i <= k && Gap(s[..i]) && ValueSpelled(s[i..k], r.value)
  }

  /** Elements up to the bracket that closes them. */
  ghost predicate ReadElems(s: string, done: seq<Value>, r: Parsed<Value>) {
    && r.Ok? && r.value.Arr? && |done| < |r.value.elems| && done == r.value.elems[..|done|]
    && var k := |s| - |r.rest|;
       0 < k <= |s| && r.rest == s[k..] && s[k - 1] == ']' && ElemsSpelled(s[..k - 1], r.value.elems[|done|..])
  }

  ghost predicate ReadMembers(s: string, done: seq<Member>, r: Parsed<Value>) {
    && r.Ok? && r.value.Obj? && |done| < |r.value.members| && done == r.value.members[..|done|]
    && var k := |s| - |r.rest|;
       0 < k <= |s| && r.rest == s[k..] && s[k - 1] == '}' && MembersSpelled(s[..k - 1], r.value.members[|done|..])
  }

  lemma ValueIsSpelled(s: string, depth: nat)
    requires ParseValue(s, depth).Ok?
    ensures ReadAs(s, ParseValue(s, depth))
    decreases |s|, 3
  {
    hide ParseObject, ParseArray, ParseString, ParseNumber, ParseWord, SkipSpace, Gap, ReadAs;
    var t := SkipSpace(s);
    GapSkipped(s);
    var r := ParseValue(s, depth);
    var i := |s| - |t|;
    assert ReadHere(t, r) by {
      if t[0] == '{' {
        ObjectIsSpelled(t, depth);
      } else if t[0] == '[' {
        ArrayIsSpelled(t, depth);
      } else if t[0] == '"' {
        StrIsSpelled(t);
      } else if t[0] == '-' || IsDigit(t[0]) {
        NumberIsSpelled(t);
        NumberHere(t, r);
      } else {
        WordIsSpelled(t);
      }
    }
    BehindSpace(s, i, r);
  }

  /** As ReadAs, without white space in front. */
  ghost predicate ReadHere(s: string, r: Parsed<Value>) {
    r.Ok? && var k := |s| - |r.rest|; 0 <= k <= |s| && r.rest == s[k..] && ValueSpelled(s[..k], r.value)
  }

  lemma BehindSpace(s: string, i: nat, r: Parsed<Value>)
    requires i <= |s| && Gap(s[..i]) && ReadHere(s[i..], r)
    ensures ReadAs(s, r)
  {
    hide Gap, ValueSpelled;
    var k := |s| - |r.rest|;
    assert s[i..][..k - i] == s[i..k] && s[i..][k - i..] == s[k..];
  }

  lemma WordIsSpelled(t: string)
    requires ParseWord(t).Ok?
    ensures ReadHere(t, ParseWord(t))
  {
  }

  lemma NumberHere(t: string, r: Parsed<Value>)
    requires ReadNumber(t, r)
    ensures ReadHere(t, r)
  {
    hide IntSpelled;
  }

  lemma StrIsSpelled(t: string)
    requires t != "" && t[0] == '"' && ParseString(t[1..]).Ok?
    ensures ReadHere(t, Ok(Str(ParseString(t[1..]).value), ParseString(t[1..]).rest))
  {
    hide ParseString, CharsSpelled;
    StringIsSpelled(t[1..]);
    var r := ParseString(t[1..]);
    var k := |t| - |r.rest|;
    assert t[..k][1..k - 1] == t[1..][..k - 2] && t[1..][k - 1..] == t[k..];
  }

  lemma ArrayIsSpelled(t: string, depth: nat)
    requires t != "" && t[0] == '[' && ParseArray(t[1..], depth).Ok? && depth <= MAX_DEPTH
    ensures ReadHere(t, ParseArray(t[1..], depth))
    decreases |t|, 2
  {
    hide ParseElems, SkipSpace, Gap, ElemsSpelled;
    var s, r := t[1..], ParseArray(t[1..], depth);
    var u := SkipSpace(s);
    GapSkipped(s);
    var i := |s| - |u|;
    if u != "" && u[0] == ']' {
      EmptyBody(s[..i]);
      assert u[1..] == t[i + 2..] && t[..i + 2][1..i + 1] == s[..i];
    } else {
      SkipElems(s, depth, []);
      ElemsAreSpelled(s, depth, []);
      assert ReadElems(s, [], r);
      var k := |t| - |r.rest|;
      assert r.value.elems[0..] == r.value.elems;
      assert t[..k][1..k - 1] == s[..k - 2] && s[k - 1..] == t[k..];
    }
  }

  lemma EmptyBody(g: string)
    requires Gap(g)
    ensures ElemsSpelled(g, []) && MembersSpelled(g, [])
  {
  }

  lemma ObjectIsSpelled(t: string, depth: nat)
    requires t != "" && t[0] == '{' && ParseObject(t[1..], depth).Ok? && depth <= MAX_DEPTH
    ensures ReadHere(t, ParseObject(t[1..], depth))
    decreases |t|, 2
  {
    hide ParseMembers, SkipSpace, Gap, MembersSpelled;
    var s, r := t[1..], ParseObject(t[1..], depth);
    var u := SkipSpace(s);
    GapSkipped(s);
    var i := |s| - |u|;
    if u != "" && u[0] == '}' {
      EmptyBody(s[..i]);
      assert u[1..] == t[i + 2..] && t[..i + 2][1..i + 1] == s[..i];
    } else {
      SkipMembers(s, depth, []);
      MembersAreSpelled(s, depth, []);
      assert ReadMembers(s, [], r);
      var k := |t| - |r.rest|;
      assert r.value.members[0..] == r.value.members;
      assert t[..k][1..k - 1] == s[..k - 2] && s[k - 1..] == t[k..];
    }
  }

  /** A value and the white space behind it. */
  lemma PaddedAt(s: string, r: Parsed<Value>, j: nat)
    requires ReadAs(s, r) && |s| - |r.rest| <= j <= |s| && Gap(s[|s| - |r.rest|..j])
    ensures Padded(s[..j], r.value)
  {
    hide Gap, ValueSpelled;
    var k := |s| - |r.rest|;
    var i :| 0 <= i <= k && Gap(s[..i]) && ValueSpelled(s[i..k], r.value);
    var p := s[..j];
    assert p[..i] == s[..i] && p[i..k] == s[i..k] && p[k..] == s[k..j];
  }

  /** Reads a value and skips to what follows: j is where the first character behind stands. */
  lemma ValueThenSpace(s: string, depth: nat) returns (j: nat)
    requires ParseValue(s, depth).Ok? && SkipSpace(ParseValue(s, depth).rest) != ""
    ensures j < |s| && Padded(s[..j], ParseValue(s, depth).value) && SkipSpace(ParseValue(s, depth).rest) == s[j..]
    decreases |s|, 4
  {
    hide ParseValue, SkipSpace, Gap, Padded, ValueSpelled;
    ValueIsSpelled(s, depth);
    var r := ParseValue(s, depth);
    var k := |s| - |r.rest|;
    GapSkipped(r.rest);
    j := |s| - |SkipSpace(r.rest)|;
    assert r.rest[..j - k] == s[k..j] && r.rest[j - k..] == s[j..];
    PaddedAt(s, r, j);
  }

  lemma ElemsAreSpelled(s: string, depth: nat, done: seq<Value>)
    requires ParseElems(s, depth, done).Ok? && depth <= MAX_DEPTH
    ensures ReadElems(s, done, ParseElems(s, depth, done))
    decreases |s|, 5
  {
    hide ParseValue, SkipSpace, Padded, ElemsSpelled, ReadElems;
    var v := ParseValue(s, depth + 1);
    var j := ValueThenSpace(s, depth + 1);
    if s[j] == ',' {
      var tail := s[j + 1..];
      assert s[j..][1..] == tail;
      ElemsAreSpelled(tail, depth, done + [v.value]);
      MoreElems(s, j, done, v.value, ParseElems(tail, depth, done + [v.value]));
    } else {
      assert s[j..][1..] == s[j + 1..];
      LastElem(s, j, done, v.value);
    }
  }

  lemma LastElem(s: string, j: nat, done: seq<Value>, v: Value)
    requires j < |s| && s[j] == ']' && Padded(s[..j], v)
    ensures ReadElems(s, done, Ok(Arr(done + [v]), s[j + 1..]))
  {
    hide Padded;
    assert (done + [v])[|done|..] == [v] && (done + [v])[..|done|] == done;
  }

  lemma MoreElems(s: string, j: nat, done: seq<Value>, v: Value, r: Parsed<Value>)
    requires j < |s| && s[j] == ',' && Padded(s[..j], v) && ReadElems(s[j + 1..], done + [v], r)
    ensures ReadElems(s, done, r)
  {
    hide Padded;
    var all := r.value.elems;
    var k := |s| - |r.rest|;
    var body := s[..k - 1];
    assert all[|done|..][0] == v && all[|done|..][1..] == all[|done| + 1..] && all[..|done|] == (done + [v])[..|done|] == done;
    assert body[j] == ',' && body[..j] == s[..j] && body[j + 1..] == s[j + 1..][..k - 2 - j];
  }

  lemma QuotedAt(s: string, i: nat) returns (j: nat)
    requires i < |s| && s[i] == '"' && ParseString(s[i..][1..]).Ok?
    ensures var r := ParseString(s[i..][1..]);
            i <= j <= |s| && r.rest == s[j..] && StringSpelled(s[i..j], r.value)
  {
    hide ParseString, CharsSpelled;
    var t := s[i..];
    StrIsSpelled(t);
    var n := |t| - |ParseString(t[1..]).rest|;
    j := i + n;
    assert t[..n] == s[i..j] && t[n..] == s[j..];
  }

  /** A name, the colon behind it, and where the value starts. */
  lemma NameIsSpelled(s: string, done: seq<Member>) returns (i: nat, j: nat, k: nat)
    requires ParseName(s, done).Ok?
    ensures var r := ParseName(s, done);
            && i <= j <= k < |s| && Gap(s[..i]) && StringSpelled(s[i..j], r.value) && Gap(s[j..k]) && s[k] == ':'
            && r.rest == s[k + 1..]
  {
    hide SkipSpace, ParseString, StringSpelled, HasKey, Gap;
    var t := SkipSpace(s);
    GapSkipped(s);
    i := |s| - |t|;
    j := QuotedAt(s, i);
    var rest := ParseString(t[1..]).rest;
    GapSkipped(rest);
    k := |s| - |SkipSpace(rest)|;
    assert rest[..k - j] == s[j..k] && rest[k - j..] == s[k..];
  }

  lemma MembersAreSpelled(s: string, depth: nat, done: seq<Member>)
    requires ParseMembers(s, depth, done).Ok? && depth <= MAX_DEPTH
    ensures ReadMembers(s, done, ParseMembers(s, depth, done))
    decreases |s|, 5
  {
    hide ParseValue, ParseName, SkipSpace, Padded, MembersSpelled, MemberSpelled, ReadMembers, StringSpelled, Gap;
    var name := ParseName(s, done);
    var v := ParseValue(name.rest, depth + 1);
    var i, j, k := NameIsSpelled(s, done);
    var e := ValueThenSpace(name.rest, depth + 1);
    var m := Member(name.value, v.value);
    var end := k + 1 + e;
    assert name.rest[e..] == s[end..] && name.rest[..e] == s[k + 1..end];
    MemberAt(s, i, j, k, end, m);
    if s[end] == ',' {
      var tail := s[end + 1..];
      assert s[end..][1..] == tail;
      MembersAreSpelled(tail, depth, done + [m]);
      MoreMembers(s, end, done, m, ParseMembers(tail, depth, done + [m]));
    } else {
      assert s[end..][1..] == s[end + 1..];
      LastMember(s, end, done, m);
    }
  }

  lemma MemberAt(s: string, i: nat, j: nat, k: nat, end: nat, m: Member)
    requires i <= j <= k < end <= |s| && Gap(s[..i]) && StringSpelled(s[i..j], m.key) && Gap(s[j..k]) && s[k] == ':'
    requires Padded(s[k + 1..end], m.value)
    ensures MemberSpelled(s[..end], m)
  {
    hide Gap, StringSpelled, Padded;
    var p := s[..end];
    assert p[..i] == s[..i] && p[i..j] == s[i..j] && p[j..k] == s[j..k] && p[k + 1..] == s[k + 1..end];
  }

  lemma LastMember(s: string, j: nat, done: seq<Member>, m: Member)
    requires j < |s| && s[j] == '}' && MemberSpelled(s[..j], m)
    ensures ReadMembers(s, done, Ok(Obj(done + [m]), s[j + 1..]))
  {
    hide MemberSpelled;
    assert (done + [m])[|done|..] == [m] && (done + [m])[..|done|] == done;
  }

  lemma MoreMembers(s: string, j: nat, done: seq<Member>, m: Member, r: Parsed<Value>)
    requires j < |s| && s[j] == ',' && MemberSpelled(s[..j], m) && ReadMembers(s[j + 1..], done + [m], r)
    ensures ReadMembers(s, done, r)
  {
    hide MemberSpelled;
    var all := r.value.members;
    var k := |s| - |r.rest|;
    var body := s[..k - 1];
    assert all[|done|..][0] == m && all[|done|..][1..] == all[|done| + 1..] && all[..|done|] == (done + [m])[..|done|] == done;
    assert body[j] == ',' && body[..j] == s[..j] && body[j + 1..] == s[j + 1..][..k - 2 - j];
  }

  // ---- Both directions ----

  /** A text is read whole as a value exactly when it spells the value, with white space around
      it, and the value is one a report can hold. */
  lemma ReadsExactly(s: string, v: Value)
    ensures (ParseValue(s, 0).Ok? && ParseValue(s, 0).value == v && SkipSpace(ParseValue(s, 0).rest) == "") <==>
            Padded(s, v) && WellFormed(v, MAX_DEPTH)
  {
    hide ParseValue, Padded, WellFormed, SkipSpace, Gap;
    var r := ParseValue(s, 0);
    if r.Ok? && r.value == v && SkipSpace(r.rest) == "" {
      ValueIsSpelled(s, 0);
      ValueParsed(s, 0);
      GapSkipped(r.rest);
      assert r.rest[..|r.rest|] == r.rest && s[|s| - |r.rest|..|s|] == r.rest && s[..|s|] == s;
      PaddedAt(s, r, |s|);
    }
    if Padded(s, v) && WellFormed(v, MAX_DEPTH) {
      assert s + "" == s;
      PaddedReads(s, v, 0, "");
    }
  }

  // ---- Canonical text is the shortest spelling ----

  /** A character is escaped only where it has to be, and in the shortest way there is; among
      spellings of one length, in lower case. */
  lemma EscapeIsShortest(s: string, c: char)
    requires CharSpelled(s, c)
    ensures EscapeChar(c) == [c] <==> c as int >= 0x20 && c != '"' && c != '\\'
    ensures |EscapeChar(c)| <= |s|
    ensures |s| == |EscapeChar(c)| && (|s| == 6 ==> forall k :: 2 <= k < 6 ==> !('A' <= s[k] <= 'F')) ==> s == EscapeChar(c)
  {
    if UnitEscape(s, c) && |EscapeChar(c)| == 6 {
      LowerUnit(s[2..], c as int);
      assert s == ['\\', 'u'] + s[2..];
    }
  }

  lemma LowerUnit(s: string, n: nat)
    requires UnitIs(s, n) && n < 0x20
    ensures s[0] == '0' && s[1] == '0'
    ensures (forall k :: 0 <= k < 4 ==> !('A' <= s[k] <= 'F')) ==> s == "00" + [HexDigit(n / 16), HexDigit(n % 16)]
  {
    hide HexIs;
    var a, b, c, d :|
      HexIs(s[0], a) && HexIs(s[1], b) && HexIs(s[2], c) && HexIs(s[3], d) && n == 4096 * a + 256 * b + 16 * c + d;
    LowerHex(s[0], a);
    LowerHex(s[1], b);
    LowerHex(s[2], c);
    LowerHex(s[3], d);
  }

  lemma LowerHex(c: char, d: int)
    requires HexIs(c, d)
    ensures 0 <= d < 16 && (d == 0 ==> c == '0') && (!('A' <= c <= 'F') ==> c == HexDigit(d))
  {
    HexExact(c, d);
  }

  lemma {:induction false} EscapedIsShortest(s: string, x: string)
    requires CharsSpelled(s, x)
    ensures |Escaped(x)| <= |s|
    decreases |x|
  {
    hide CharSpelled, EscapeChar;
    if x != "" {
      var n :| 0 <= n <= |s| && CharSpelled(s[..n], x[0]) && CharsSpelled(s[n..], x[1..]);
      EscapeIsShortest(s[..n], x[0]);
      EscapedIsShortest(s[n..], x[1..]);
    }
  }

  lemma StringIsShortest(s: string, x: string)
    requires StringSpelled(s, x)
    ensures |StringText(x)| <= |s|
  {
    hide CharsSpelled, Escaped;
    EscapedIsShortest(s[1..|s| - 1], x);
  }

  /** No text that spells a value, with its members in a given order, is shorter than the written
      one: no white space, no needless escape, no longer number. */
  lemma TextIsShortest(s: string, v: Value)
    requires ValueSpelled(s, v)
    ensures |Text(v)| <= |s|
    decreases v, 1
  {
    hide ElemsSpelled, MembersSpelled, StringSpelled, StringText, IntSpelled, IntText, ElemsText, MembersText;
    match v
    case Null =>
    case Bool(_) =>
    case Int(n) => IntIsText(s, n);
    case Str(x) => StringIsShortest(s, x);
    case Arr(elems) => ElemsAreShortest(s[1..|s| - 1], elems);
    case Obj(members) => MembersAreShortest(s[1..|s| - 1], members);
  }

  lemma PaddedIsLonger(s: string, v: Value)
    requires Padded(s, v)
    ensures |Text(v)| <= |s|
    decreases v, 2
  {
    hide ValueSpelled, Text, Gap;
    var i, j :| 0 <= i <= j <= |s| && Gap(s[..i]) && Gap(s[j..]) && ValueSpelled(s[i..j], v);
    TextIsShortest(s[i..j], v);
  }

  lemma ElemsAreShortest(s: string, elems: seq<Value>)
    requires ElemsSpelled(s, elems)
    ensures |ElemsText(elems)| <= |s|
    decreases elems, 3
  {
    hide Padded, ElemsSpelled, Text;
    if elems != [] {
      var i := FirstElem(s, elems);
      PaddedIsLonger(s[..i], elems[0]);
      if |elems| > 1 {
        ElemsAreShortest(s[i + 1..], elems[1..]);
      }
    }
  }

  lemma MemberIsShortest(s: string, m: Member)
    requires MemberSpelled(s, m)
    ensures |MemberText(m)| <= |s|
    decreases m, 3
  {
    hide Gap, Padded, StringSpelled, Text, StringText;
    var i, j, k :|
      && 0 <= i <= j <= k < |s| && Gap(s[..i]) && StringSpelled(s[i..j], m.key) && Gap(s[j..k]) && s[k] == ':'
      && Padded(s[k + 1..], m.value);
    StringIsShortest(s[i..j], m.key);
    PaddedIsLonger(s[k + 1..], m.value);
  }

  lemma MembersAreShortest(s: string, members: seq<Member>)
    requires MembersSpelled(s, members)
    ensures |MembersText(members)| <= |s|
    decreases members, 4
  {
    hide MemberSpelled, MembersSpelled, MemberText;
    if members != [] {
      var i := FirstMember(s, members);
      MemberIsShortest(s[..i], members[0]);
      if |members| > 1 {
        MembersAreShortest(s[i + 1..], members[1..]);
      }
    }
  }
}
