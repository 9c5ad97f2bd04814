/** Cells and names as SQL text: integers and numbers bare, strings and names quoted with their
    delimiters doubled, blobs in hex; and what an SQL reader makes of that text again. */
module D1Literals {
  import opened Common
  import opened D1Lexer
  import ReportText

  /** A decoded cell of a row: a JSON value, or one of the two tags for what JSON cannot type.
      A blob is None when its base64url does not decode. */
  datatype Cell =
    | NullCell
    | TextCell(s: string)
    | NumberCell(token: string)
    | BlobCell(bytes: Option<Bytes>)
    | IntCell(text: string)
    | OtherCell

  // ---- Names and strings ----

  /** Every delimiter doubled. */
  function Doubled(s: string, q: char): string {
    if s == "" then "" else (if s[0] == q then [q, q] else [s[0]]) + Doubled(s[1..], q)
  }

  function InQuotes(s: string, q: char): string { [q] + Doubled(s, q) + [q] }

  function QuoteIdent(name: string): string { InQuotes(name, '"') }

  lemma {:induction false} DoubledReads(s: string, q: char, t: string)
    requires t == "" || t[0] != q
    ensures Span(Doubled(s, q) + [q] + t, q) == Some((s, t))
    decreases |s|
  {
    var u := Doubled(s, q) + [q] + t;
    if s == "" {
      assert u == [q] + t;
      assert u[0] == q && u[1..] == t;
    } else {
      var v := Doubled(s[1..], q) + [q] + t;
      DoubledReads(s[1..], q, t);
      if s[0] == q {
        assert u == [q, q] + v;
        assert u[0] == q && u[1] == q && u[2..] == v;
      } else {
        assert u == [s[0]] + v;
        assert u[0] == s[0] && u[1..] == v;
      }
      assert [s[0]] + s[1..] == s;
    }
  }

  /** Whatever a name or string holds, its quoted text is one token that holds the same. */
  lemma QuotedLexes(s: string, q: char, t: string)
    requires IsQuote(q) && (t == "" || t[0] != q)
    ensures Lex(InQuotes(s, q) + t) == Cons(Quoted(q, s), Lex(t))
  {
    hide Span, Doubled;
    var u := InQuotes(s, q) + t;
    DoubledReads(s, q, t);
    assert u[0] == q && u[1..] == Doubled(s, q) + [q] + t;
  }

  // ---- Plain text ----

  /** A character that is a token of its own, or a gap, wherever it stands. */
  predicate Simple(c: char) { !IsQuote(c) && c != '[' && c != '-' && c != '/' && c != ';' }

  function PlainToken(c: char): Token { if IsSpace(c) then Gap else Plain(c) }

  function Plains(s: string): (ts: seq<Token>)
    ensures |ts| == |s| && forall k :: 0 <= k < |s| ==> ts[k] == PlainToken(s[k])
  {
    seq(|s|, k requires 0 <= k < |s| => PlainToken(s[k]))
  }

  predicate AllSimple(s: string) { forall k :: 0 <= k < |s| ==> Simple(s[k]) }

  lemma PlainsCons(s: string)
    requires s != ""
    ensures Plains(s) == [PlainToken(s[0])] + Plains(s[1..])
  {
  }

  lemma {:induction false} SimpleLexes(s: string, t: string)
    requires AllSimple(s)
    ensures Lex(s + t) == Cat(Plains(s), Lex(t))
    decreases |s|
  {
    if s == "" {
      assert s + t == t;
      if Lex(t).Some? {
        assert [] + Lex(t).value == Lex(t).value;
      }
    } else {
      hide Plains, Lex;
      SimpleLexes(s[1..], t);
      PlainsCons(s);
      SimpleNext(s, t);
      if Lex(t).Some? {
        assert [PlainToken(s[0])] + (Plains(s[1..]) + Lex(t).value) == [PlainToken(s[0])] + Plains(s[1..]) + Lex(t).value;
      }
    }
  }

  lemma SimpleNext(s: string, t: string)
    requires s != "" && Simple(s[0])
    ensures Lex(s + t) == Cons(PlainToken(s[0]), Lex(s[1..] + t))
  {
    hide Span, Until, CommentEnd;
    assert (s + t)[0] == s[0] && (s + t)[1..] == s[1..] + t;
  }

  // ---- Numbers ----

  /** The JSON number grammar. */
  predicate IsNumber(s: string) {
    var t := if s != "" && s[0] == '-' then s[1..] else s;
    var digits := ReportText.IntegerDigits(t);
    digits > 0 && ReportText.FractionLength(t[digits..]) == ReportText.Got(|t| - digits)
  }

  /** An optional sign and digits. */
  predicate IsInteger(s: string) {
    var t := if s != "" && s[0] == '-' then s[1..] else s;
    t != "" && ReportText.CountDigits(t) == |t|
  }

  /** A minus is never followed by another one, and nothing else in a number is special. */
  predicate Numeric(s: string) {
    && s != ""
    && (forall k :: 0 <= k < |s| ==> ReportText.IsDigit(s[k]) || s[k] in {'-', '+', '.', 'e', 'E'})
    && (forall k :: 0 <= k < |s| && s[k] == '-' ==> k + 1 < |s| && s[k + 1] != '-')
  }

  lemma IntegerIsNumeric(s: string)
    requires IsInteger(s)
    ensures Numeric(s)
  {
    hide ReportText.CountDigits;
    var t := if s != "" && s[0] == '-' then s[1..] else s;
    assert forall k :: 0 <= k < |t| ==> ReportText.IsDigit(t[k]);
    SignedNumeric(s, t);
  }

  lemma SignedNumeric(s: string, t: string)
    requires t == if s != "" && s[0] == '-' then s[1..] else s
    requires Numeric(t) && t[0] != '-'
    ensures Numeric(s)
  {
    if |t| < |s| {
      assert s == ['-'] + t;
      forall k | 0 <= k < |s|
        ensures ReportText.IsDigit(s[k]) || s[k] in {'-', '+', '.', 'e', 'E'}
        ensures s[k] == '-' ==> k + 1 < |s| && s[k + 1] != '-'
      {
        if k > 0 {
          assert s[k] == t[k - 1];
          assert k + 1 < |s| ==> s[k + 1] == t[k];
        } else {
          assert s[1] == t[0];
        }
      }
    }
  }

  lemma ExponentIsNumeric(s: string)
    requires ReportText.ExponentLength(s) == ReportText.Got(|s|) && s != ""
    ensures Numeric(s)
  {
    hide ReportText.CountDigits;
    var sign := if |s| > 1 && (s[1] == '+' || s[1] == '-') then 2 else 1;
    var d := s[sign..];
    assert ReportText.CountDigits(d) == |d| > 0;
    forall k | 0 <= k < |s|
      ensures ReportText.IsDigit(s[k]) || s[k] in {'-', '+', '.', 'e', 'E'}
      ensures s[k] == '-' ==> k + 1 < |s| && s[k + 1] != '-'
    {
      if k >= sign {
        assert s[k] == d[k - sign];
      }
      if k + 1 >= sign && k + 1 < |s| {
        assert s[k + 1] == d[k + 1 - sign];
      }
    }
  }

  /** Digits, then something numeric or nothing. */
  lemma DigitsThen(s: string, n: nat)
    requires 0 < n <= |s| && (forall k :: 0 < k < n ==> ReportText.IsDigit(s[k])) && (ReportText.IsDigit(s[0]) || s[0] == '.')
    requires n == |s| || Numeric(s[n..])
    ensures Numeric(s)
  {
    forall k | 0 <= k < |s|
      ensures ReportText.IsDigit(s[k]) || s[k] in {'-', '+', '.', 'e', 'E'}
      ensures s[k] == '-' ==> k + 1 < |s| && s[k + 1] != '-'
    {
      if k >= n {
        assert s[k] == s[n..][k - n];
        if s[k] == '-' {
          assert s[k + 1] == s[n..][k + 1 - n];
        }
      }
    }
  }

  lemma FractionIsNumeric(s: string)
    requires ReportText.FractionLength(s) == ReportText.Got(|s|) && s != ""
    ensures Numeric(s)
  {
    hide ReportText.CountDigits, ReportText.ExponentLength;
    var p := ReportText.PointLength(s).value;
    assert ReportText.ExponentLength(s[p..]) == ReportText.Got(|s| - p);
    if p < |s| {
      ExponentIsNumeric(s[p..]);
      assert s[0..] == s;
    }
    if p > 0 {
      forall k | 0 < k < p
        ensures ReportText.IsDigit(s[k])
      {
        assert s[k] == s[1..][k - 1];
      }
      DigitsThen(s, p);
    }
  }

  lemma NumberIsNumeric(s: string)
    requires IsNumber(s)
    ensures Numeric(s)
  {
    hide ReportText.CountDigits, ReportText.FractionLength, ReportText.IntegerDigits, Numeric;
    var t := if s != "" && s[0] == '-' then s[1..] else s;
    var digits := ReportText.IntegerDigits(t);
    if digits < |t| {
      FractionIsNumeric(t[digits..]);
    }
    assert ReportText.IsDigit(t[0]);
    DigitsThen(t, digits);
    SignedNumeric(s, t);
  }

  /** A number's text is its characters, one token each. */
  lemma {:induction false} NumericLexes(s: string, t: string)
    requires Numeric(s)
    ensures Lex(s + t) == Cat(Plains(s), Lex(t))
    decreases |s|
  {
    hide Lex, Plains;
    assert s[0] != '-' ==> Simple(s[0]);
    NumericNext(s, t);
    PlainsCons(s);
    if |s| == 1 {
      assert s[1..] + t == t;
      assert Plains(s[1..]) == [] by { NoPlains(); }
      if Lex(t).Some? {
        assert [PlainToken(s[0])] + [] + Lex(t).value == [PlainToken(s[0])] + Lex(t).value;
      }
    } else {
      NumericTail(s);
      NumericLexes(s[1..], t);
      if Lex(t).Some? {
        assert [PlainToken(s[0])] + (Plains(s[1..]) + Lex(t).value) == [PlainToken(s[0])] + Plains(s[1..]) + Lex(t).value;
      }
    }
  }

  lemma NoPlains()
    ensures Plains("") == []
  {
  }

  lemma NumericTail(s: string)
    requires Numeric(s) && |s| > 1
    ensures Numeric(s[1..])
  {
    var t := s[1..];
    forall k | 0 <= k < |t|
      ensures ReportText.IsDigit(t[k]) || t[k] in {'-', '+', '.', 'e', 'E'}
      ensures t[k] == '-' ==> k + 1 < |t| && t[k + 1] != '-'
    {
      assert t[k] == s[k + 1];
      assert k + 1 < |t| ==> t[k + 1] == s[k + 2];
    }
  }

  lemma NumericNext(s: string, t: string)
    requires s != "" && (Simple(s[0]) || (s[0] == '-' && |s| > 1 && s[1] != '-'))
    ensures Lex(s + t) == Cons(PlainToken(s[0]), Lex(s[1..] + t))
  {
    hide Span, Until, CommentEnd;
    assert (s + t)[0] == s[0] && (s + t)[1..] == s[1..] + t;
    assert |s| > 1 ==> (s + t)[1] == s[1];
  }

  // ---- Blobs ----

  function HexOf(b: Bytes): string {
    if b == [] then "" else [ReportText.HexDigit(b[0] / 16), ReportText.HexDigit(b[0] % 16)] + HexOf(b[1..])
  }

  /** The bytes hex digits stand for. */
  function FromHex(s: string): Option<Bytes> {
    if s == "" then Some([])
    else if |s| == 1 then None
    else
      var hi, lo, more := ReportText.HexValue(s[0]), ReportText.HexValue(s[1]), FromHex(s[2..]);
      if hi.Nothing? || lo.Nothing? || more.None? then None else Some([ByteOf(hi.value, lo.value)] + more.value)
  }

  function ByteOf(hi: nat, lo: nat): Byte { (16 * hi + lo) % 256 }

  lemma {:induction false} HexReads(b: Bytes)
    ensures FromHex(HexOf(b)) == Some(b)
  {
    hide ReportText.HexDigit, ReportText.HexValue;
    if b != [] {
      HexReads(b[1..]);
      ReportText.HexRoundTrip(b[0] / 16);
      ReportText.HexRoundTrip(b[0] % 16);
      assert HexOf(b)[2..] == HexOf(b[1..]);
      assert b == [b[0]] + b[1..];
    }
  }

  // ---- Literals ----

  /** The literal of a cell; cells that SQL has no exact literal for have none. */
  function Literal(cell: Cell): Option<string> {
    match cell
    case NullCell => Some("NULL")
    case TextCell(s) => Some(InQuotes(s, '\''))
    case NumberCell(token) => if IsNumber(token) then Some(token) else None
    case BlobCell(bytes) => if bytes.None? then None else Some("x" + InQuotes(HexOf(bytes.value), '\''))
    case IntCell(text) => if IsInteger(text) then Some(text) else None
    case OtherCell => None
  }

  /** What an SQL reader takes a value's tokens for. A number is known by its exact digits. */
  datatype SqlValue = SqlNull | SqlText(s: string) | SqlBlob(bytes: Bytes) | SqlNumber(text: string) | NotAValue

  predicate AllPlain(ts: seq<Token>) { forall k :: 0 <= k < |ts| ==> ts[k].Plain? }

  function CharsOf(ts: seq<Token>): (s: string)
    requires AllPlain(ts)
    ensures |s| == |ts| && forall k :: 0 <= k < |ts| ==> s[k] == ts[k].c
  {
    seq(|ts|, k requires 0 <= k < |ts| => ts[k].c)
  }

  function ValueOf(ts: seq<Token>): SqlValue {
    if |ts| == 1 && ts[0].Quoted? && ts[0].q == '\'' then SqlText(ts[0].text)
    else if |ts| == 2 && ts[0] == Plain('x') && ts[1].Quoted? && ts[1].q == '\'' then
      var b := FromHex(ts[1].text);
      if b.None? then NotAValue else SqlBlob(b.value)
    else if !AllPlain(ts) then NotAValue
    else if CharsOf(ts) == "NULL" then SqlNull
    else if Numeric(CharsOf(ts)) then SqlNumber(CharsOf(ts))
    else NotAValue
  }

  /** What the cell is. */
  function CellValue(cell: Cell): SqlValue {
    match cell
    case NullCell => SqlNull
    case TextCell(s) => SqlText(s)
    case NumberCell(token) => SqlNumber(token)
    case BlobCell(bytes) => if bytes.None? then NotAValue else SqlBlob(bytes.value)
    case IntCell(text) => SqlNumber(text)
    case OtherCell => NotAValue
  }

  /** The tokens of a cell's literal. */
  function LiteralTokens(cell: Cell): seq<Token> {
    match cell
    case NullCell => Plains("NULL")
    case TextCell(s) => [Quoted('\'', s)]
    case NumberCell(token) => Plains(token)
    case BlobCell(bytes) => if bytes.None? then [] else [Plain('x'), Quoted('\'', HexOf(bytes.value))]
    case IntCell(text) => Plains(text)
    case OtherCell => []
  }

  /** A literal lexes to its own tokens whatever separator follows, and those tokens read back as
      the cell. None of them is a separator. */
  lemma LiteralReads(cell: Cell, t: string)
    requires Literal(cell).Some? && t != "" && (t[0] == ',' || t[0] == ')')
    ensures Lex(Literal(cell).value + t) == Cat(LiteralTokens(cell), Lex(t))
    ensures ValueOf(LiteralTokens(cell)) == CellValue(cell)
    ensures forall k :: 0 <= k < |LiteralTokens(cell)| ==> LiteralTokens(cell)[k] !in {Semi, Gap, Plain(','), Plain(')')}
  {
    hide Lex, InQuotes, HexOf, FromHex, Numeric, IsNumber, IsInteger, Plains;
    match cell
    case NullCell =>
      SimpleLexes("NULL", t);
      PlainWord("NULL");
    case TextCell(s) => QuotedLexes(s, '\'', t);
    case NumberCell(token) =>
      NumberIsNumeric(token);
      NumericLexes(token, t);
      NumericWord(token);
    case BlobCell(bytes) =>
      var u := InQuotes(HexOf(bytes.value), '\'') + t;
      QuotedLexes(HexOf(bytes.value), '\'', t);
      HexReads(bytes.value);
      assert "x" + InQuotes(HexOf(bytes.value), '\'') + t == "x" + u;
      SimpleNext("x", u);
      assert "x"[1..] + u == u;
      if Lex(t).Some? {
        var blob := Quoted('\'', HexOf(bytes.value));
        assert [Plain('x')] + ([blob] + Lex(t).value) == [Plain('x'), blob] + Lex(t).value;
      }
    case IntCell(text) =>
      IntegerIsNumeric(text);
      NumericLexes(text, t);
      NumericWord(text);
    case OtherCell =>
  }

  lemma PlainWord(s: string)
    requires forall k :: 0 <= k < |s| ==> !IsSpace(s[k])
    ensures AllPlain(Plains(s)) && CharsOf(Plains(s)) == s
    ensures (forall k :: 0 <= k < |s| ==> s[k] !in {',', ')'}) ==>
              forall k :: 0 <= k < |Plains(s)| ==> Plains(s)[k] !in {Semi, Gap, Plain(','), Plain(')')}
  {
  }

  lemma NumericWord(s: string)
    requires Numeric(s)
    ensures AllPlain(Plains(s)) && CharsOf(Plains(s)) == s && s != "NULL"
    ensures forall k :: 0 <= k < |Plains(s)| ==> Plains(s)[k] !in {Semi, Gap, Plain(','), Plain(')')}
  {
    PlainWord(s);
    assert ReportText.IsDigit(s[0]) || s[0] in {'-', '+', '.', 'e', 'E'};
  }

  // ---- Which cells have a literal ----

  ghost predicate Digits(s: string) { s != "" && forall k :: 0 <= k < |s| ==> '0' <= s[k] <= '9' }

  /** A zero, or digits that do not start with one. */
  ghost predicate IsWhole(s: string) { s == "0" || (Digits(s) && s[0] != '0') }

  ghost predicate IsFraction(s: string) { s == "" || (s[0] == '.' && Digits(s[1..])) }

  ghost predicate IsExponent(s: string) {
    || s == ""
    || ((s[0] == 'e' || s[0] == 'E')
        && (Digits(s[1..]) || (|s| > 1 && (s[1] == '+' || s[1] == '-') && Digits(s[2..]))))
  }

  /** A number by its parts: an optional minus, then section 6 of RFC 8259's int, frac and exp. */
  ghost predicate IsJsonNumber(s: string) {
    exists sign, whole, fraction, exponent ::
      && s == sign + whole + fraction + exponent && (sign == "" || sign == "-")
      && IsWhole(whole) && IsFraction(fraction) && IsExponent(exponent)
  }

  ghost predicate IsDecimalInteger(s: string) { Digits(s) || (s != "" && s[0] == '-' && Digits(s[1..])) }

  /** Null and any text; a blob that decoded; a number; a decimal integer; nothing else. */
  ghost predicate HasLiteral(cell: Cell) {
    match cell
    case NullCell => true
    case TextCell(_) => true
    case NumberCell(token) => IsJsonNumber(token)
    case BlobCell(bytes) => bytes.Some?
    case IntCell(text) => IsDecimalInteger(text)
    case OtherCell => false
  }

  lemma LiteralExact(cell: Cell)
    ensures Literal(cell).Some? <==> HasLiteral(cell)
  {
    hide IsNumber, IsInteger, IsJsonNumber, IsDecimalInteger, InQuotes, HexOf;
    match cell
    case NumberCell(token) => NumberExact(token);
    case IntCell(text) => IntegerExact(text);
    case _ =>
  }

  lemma {:induction false} CountThen(ds: string, t: string)
    requires ds == "" || Digits(ds)
    requires t == "" || !ReportText.IsDigit(t[0])
    ensures ReportText.CountDigits(ds + t) == |ds|
  {
    if ds == "" {
      assert ds + t == t;
    } else {
      assert (ds + t)[0] == ds[0] && (ds + t)[1..] == ds[1..] + t;
      CountThen(ds[1..], t);
    }
  }

  lemma CountedDigits(s: string)
    requires ReportText.CountDigits(s) > 0
    ensures Digits(s[..ReportText.CountDigits(s)])
  {
    var n := ReportText.CountDigits(s);
    assert forall k :: 0 <= k < n ==> ReportText.IsDigit(s[k]);
  }

  lemma IntegerExact(s: string)
    ensures IsInteger(s) <==> IsDecimalInteger(s)
  {
    hide ReportText.CountDigits;
    var t := if s != "" && s[0] == '-' then s[1..] else s;
    assert t[..|t|] == t && t + "" == t;
    if Digits(t) {
      CountThen(t, "");
    }
    if t != "" && ReportText.CountDigits(t) == |t| {
      CountedDigits(t);
    }
  }

  lemma ExponentExact(s: string)
    ensures IsExponent(s) ==> ReportText.ExponentLength(s) == ReportText.Got(|s|)
    ensures ReportText.ExponentLength(s) == ReportText.Got(|s|) ==> IsExponent(s)
  {
    hide ReportText.CountDigits;
    if s != "" && (s[0] == 'e' || s[0] == 'E') {
      var sign := if |s| > 1 && (s[1] == '+' || s[1] == '-') then 2 else 1;
      var d := s[sign..];
      assert d[..|d|] == d && d + "" == d;
      if Digits(d) {
        CountThen(d, "");
      }
      if ReportText.CountDigits(d) > 0 {
        CountedDigits(d);
      }
    }
  }

  lemma FractionReads(f: string, e: string)
    requires IsFraction(f) && IsExponent(e)
    ensures ReportText.FractionLength(f + e) == ReportText.Got(|f| + |e|)
    ensures f + e == "" || !ReportText.IsDigit((f + e)[0])
  {
    hide ReportText.CountDigits, ReportText.ExponentLength;
    ExponentExact(e);
    var s := f + e;
    if f == "" {
      assert s == e;
      assert s[0..] == s;
    } else {
      assert s[1..] == f[1..] + e && s[|f|..] == e;
      CountThen(f[1..], e);
    }
  }

  lemma NumberExact(s: string)
    ensures IsNumber(s) <==> IsJsonNumber(s)
  {
    hide IsNumber, IsJsonNumber;
    if IsJsonNumber(s) {
      NumberFromParts(s);
    }
    if IsNumber(s) {
      PartsOfNumber(s);
    }
  }

  /** A number behind its sign. */
  predicate IsUnsigned(t: string) {
    var digits := ReportText.IntegerDigits(t);
    digits > 0 && ReportText.FractionLength(t[digits..]) == ReportText.Got(|t| - digits)
  }

  lemma Sign(s: string)
    ensures IsNumber(s) <==> IsUnsigned(if s != "" && s[0] == '-' then s[1..] else s)
  {
    hide ReportText.IntegerDigits, ReportText.FractionLength;
  }

  lemma UnsignedFromParts(whole: string, fraction: string, exponent: string)
    requires IsWhole(whole) && IsFraction(fraction) && IsExponent(exponent)
    ensures var t := whole + (fraction + exponent); IsUnsigned(t) && t != "" && t[0] != '-'
  {
    hide IsWhole, IsFraction, IsExponent, ReportText.FractionLength, ReportText.IntegerDigits;
    var rest := fraction + exponent;
    FractionReads(fraction, exponent);
    WholeReads(whole, rest);
    assert (whole + rest)[|whole|..] == rest && (whole + rest)[0] == whole[0];
  }

  lemma NumberFromParts(s: string)
    requires IsJsonNumber(s)
    ensures IsNumber(s)
  {
    hide IsWhole, IsFraction, IsExponent, IsUnsigned, IsNumber;
    var sign, whole, fraction, exponent :|
      && s == sign + whole + fraction + exponent && (sign == "" || sign == "-")
      && IsWhole(whole) && IsFraction(fraction) && IsExponent(exponent);
    var t := whole + (fraction + exponent);
    UnsignedFromParts(whole, fraction, exponent);
    assert s == sign + t;
    if sign == "" {
      assert s == t;
    } else {
      assert s[0] == '-' && s[1..] == t;
    }
    Sign(s);
  }

  lemma WholeReads(whole: string, rest: string)
    requires IsWhole(whole) && (rest == "" || !ReportText.IsDigit(rest[0]))
    ensures whole != "" && whole[0] != '-' && ReportText.IntegerDigits(whole + rest) == |whole|
  {
    hide ReportText.CountDigits;
    assert (whole + rest)[0] == whole[0];
    if whole != "0" {
      CountThen(whole, rest);
    }
  }

  lemma PartsOfUnsigned(t: string) returns (whole: string, fraction: string, exponent: string)
    requires IsUnsigned(t)
    ensures t == whole + (fraction + exponent) && IsWhole(whole) && IsFraction(fraction) && IsExponent(exponent)
  {
    hide ReportText.FractionLength, ReportText.IntegerDigits, IsWhole, IsFraction, IsExponent;
    var n := ReportText.IntegerDigits(t);
    var rest := t[n..];
    WholeOf(t);
    var p := FractionParts(rest);
    whole, fraction, exponent := t[..n], rest[..p], rest[p..];
    assert rest == fraction + exponent && t == whole + rest;
  }

  lemma PartsOfNumber(s: string)
    requires IsNumber(s)
    ensures IsJsonNumber(s)
  {
    hide IsUnsigned, IsNumber, IsWhole, IsFraction, IsExponent;
    Sign(s);
    var sign, t := "", s;
    if s != "" && s[0] == '-' {
      sign, t := "-", s[1..];
    }
    assert s == sign + t;
    var whole, fraction, exponent := PartsOfUnsigned(t);
    assert s == sign + whole + fraction + exponent;
  }

  lemma WholeOf(t: string)
    requires ReportText.IntegerDigits(t) > 0
    ensures IsWhole(t[..ReportText.IntegerDigits(t)])
  {
    hide ReportText.CountDigits;
    if t[0] == '0' {
      assert t[..1] == "0";
    } else {
      CountedDigits(t);
    }
  }

  lemma FractionParts(s: string) returns (p: nat)
    requires ReportText.FractionLength(s) == ReportText.Got(|s|)
    ensures p <= |s| && IsFraction(s[..p]) && IsExponent(s[p..])
  {
    hide ReportText.CountDigits, ReportText.ExponentLength, IsExponent;
    p := ReportText.PointLength(s).value;
    ExponentExact(s[p..]);
    if p > 0 {
      CountedDigits(s[1..]);
      assert s[..p][1..] == s[1..][..p - 1];
    }
  }
}
