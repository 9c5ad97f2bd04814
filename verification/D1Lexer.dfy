/** An SQL lexer for what the transcoder emits, kept apart from the transcoder's own scanner:
    quoted spans with doubled delimiters, bracketed names, comments, and the semicolons outside
    all of them. */
module D1Lexer {
  import opened Common

  /** Gap is white space or a comment. A quoted span carries its text with doublings undone. */
  datatype Token = Gap | Semi | Plain(c: char) | Quoted(q: char, text: string) | Bracketed(text: string)

  datatype Lexed = Lexed(token: Token, rest: string)

  const VT: char := 11 as char
  const FF: char := 12 as char

  predicate IsSpace(c: char) { c == ' ' || c == '\t' || c == '\n' || c == '\r' || c == FF || c == VT }

  predicate IsQuote(c: char) { c == '\'' || c == '"' || c == '`' }

  /** The text of a quoted span and what follows its closing delimiter. */
  function Span(s: string, q: char): (r: Option<(string, string)>)
    ensures r.Some? ==> |r.value.1| < |s|
    decreases |s|
  {
    if s == "" then None
    else if s[0] != q then
      var more := Span(s[1..], q);
      if more.None? then None else Some(([s[0]] + more.value.0, more.value.1))
    else if |s| > 1 && s[1] == q then
      var more := Span(s[2..], q);
      if more.None? then None else Some(([q] + more.value.0, more.value.1))
    else Some(("", s[1..]))
  }

  /** What lies before and after the first occurrence of a character. */
  function Until(s: string, c: char): (r: Option<(string, string)>)
    ensures r.Some? ==> |r.value.1| < |s|
  {
    if s == "" then None
    else if s[0] == c then Some(("", s[1..]))
    else
      var more := Until(s[1..], c);
      if more.None? then None else Some(([s[0]] + more.value.0, more.value.1))
  }

  /** What follows the first end-of-comment mark. */
  function CommentEnd(s: string): (r: Option<string>)
    ensures r.Some? ==> |r.value| < |s|
  {
    if |s| < 2 then None
    else if s[0] == '*' && s[1] == '/' then Some(s[2..])
    else CommentEnd(s[1..])
  }

  /** The first token, and what follows it; None when its span never closes. */
  function Next(s: string): (r: Option<Lexed>)
    requires s != ""
    ensures r.Some? ==> |r.value.rest| < |s|
  {
    var c := s[0];
    if IsSpace(c) then Some(Lexed(Gap, s[1..]))
    else if IsQuote(c) then
      var span := Span(s[1..], c);
      if span.None? then None else Some(Lexed(Quoted(c, span.value.0), span.value.1))
    else if c == '[' then
      var span := Until(s[1..], ']');
      if span.None? then None else Some(Lexed(Bracketed(span.value.0), span.value.1))
    else if c == '-' && |s| > 1 && s[1] == '-' then
      var line := Until(s, '\n');
      if line.None? then None else Some(Lexed(Gap, line.value.1))
    else if c == '/' && |s| > 1 && s[1] == '*' then
      var rest := CommentEnd(s[2..]);
      if rest.None? then None else Some(Lexed(Gap, rest.value))
    else if c == ';' then Some(Lexed(Semi, s[1..]))
    else Some(Lexed(Plain(c), s[1..]))
  }

  function Cons(t: Token, more: Option<seq<Token>>): Option<seq<Token>> {
    if more.None? then None else Some([t] + more.value)
  }

  function Cat(ts: seq<Token>, more: Option<seq<Token>>): Option<seq<Token>> {
    if more.None? then None else Some(ts + more.value)
  }

  /** All tokens of a text; None when a span or comment is still open at its end. */
  function Lex(s: string): Option<seq<Token>>
    decreases |s|
  {
    if s == "" then Some([])
    else
      var first := Next(s);
      if first.None? then None else Cons(first.value.token, Lex(first.value.rest))
  }

  /** The tokens in front of the first semicolon, and the text behind it if there is one. */
  datatype Head = Head(tokens: seq<Token>, behind: Option<string>)

  function FirstStatement(s: string): Option<Head>
    decreases |s|
  {
    if s == "" then Some(Head([], None))
    else
      var first := Next(s);
      if first.None? then None
      else if first.value.token == Semi then Some(Head([], Some(first.value.rest)))
      else
        var more := FirstStatement(first.value.rest);
        if more.None? then None else Some(Head([first.value.token] + more.value.tokens, more.value.behind))
  }

  /** The statements of a token sequence, each from its first token that is not a gap; blank ones
      are not statements. */
  function Statements(ts: seq<Token>, current: seq<Token>): seq<seq<Token>> {
    if ts == [] then Finish(current)
    else if ts[0] == Semi then Finish(current) + Statements(ts[1..], [])
    else if ts[0] == Gap && current == [] then Statements(ts[1..], [])
    else Statements(ts[1..], current + [ts[0]])
  }

  function Finish(current: seq<Token>): seq<seq<Token>> { if current == [] then [] else [current] }

  /** The statements of a text. */
  function StatementsOf(s: string): Option<seq<seq<Token>>> {
    var ts := Lex(s);
    if ts.None? then None else Some(Statements(ts.value, []))
  }

  // ---- Lexing what is put together ----

  /** Text that cannot extend a token in front of it. */
  predicate Fresh(b: string) { b == "" || (!IsQuote(b[0]) && b[0] != '-' && b[0] != '*') }

  lemma {:induction false} SpanAppend(a: string, q: char, b: string)
    requires Span(a, q).Some? && (b == "" || b[0] != q)
    ensures Span(a + b, q) == Some((Span(a, q).value.0, Span(a, q).value.1 + b))
    decreases |a|
  {
    var s := a + b;
    assert s[0] == a[0] && s[1..] == a[1..] + b;
    if a[0] != q {
      SpanAppend(a[1..], q, b);
    } else if |a| > 1 && a[1] == q {
      assert s[2..] == a[2..] + b;
      SpanAppend(a[2..], q, b);
    }
  }

  lemma {:induction false} UntilAppend(a: string, c: char, b: string)
    requires Until(a, c).Some?
    ensures Until(a + b, c) == Some((Until(a, c).value.0, Until(a, c).value.1 + b))
  {
    var s := a + b;
    assert s[0] == a[0] && s[1..] == a[1..] + b;
    if a[0] != c {
      UntilAppend(a[1..], c, b);
    }
  }

  lemma {:induction false} CommentAppend(a: string, b: string)
    requires CommentEnd(a).Some?
    ensures CommentEnd(a + b) == Some(CommentEnd(a).value + b)
  {
    var s := a + b;
    assert s[0] == a[0] && s[1] == a[1] && s[1..] == a[1..] + b && s[2..] == a[2..] + b;
    if !(a[0] == '*' && a[1] == '/') {
      CommentAppend(a[1..], b);
    }
  }

  lemma NextAppend(a: string, b: string)
    requires a != "" && Next(a).Some? && Fresh(b)
    ensures Next(a + b) == Some(Lexed(Next(a).value.token, Next(a).value.rest + b))
  {
    hide Span, Until, CommentEnd;
    var s := a + b;
    var c := a[0];
    assert s[0] == c && s[1..] == a[1..] + b;
    if IsQuote(c) {
      SpanAppend(a[1..], c, b);
    } else if c == '[' {
      UntilAppend(a[1..], ']', b);
    } else if c == '-' && |a| > 1 && a[1] == '-' {
      assert s[1] == '-';
      UntilAppend(a, '\n', b);
    } else if c == '/' && |a| > 1 && a[1] == '*' {
      assert s[1] == '*' && s[2..] == a[2..] + b;
      CommentAppend(a[2..], b);
    } else {
      assert |s| > 1 ==> s[1] == if |a| > 1 then a[1] else b[0];
    }
  }

  /** A text whose spans all close lexes on its own, whatever fresh text follows it. */
  lemma {:induction false} LexAppend(a: string, b: string)
    requires Lex(a).Some? && Fresh(b)
    ensures Lex(a + b) == Cat(Lex(a).value, Lex(b))
    decreases |a|
  {
    hide Next, Fresh;
    if a == "" {
      assert a + b == b;
      if Lex(b).Some? {
        assert [] + Lex(b).value == Lex(b).value;
      }
    } else {
      var first := Next(a).value;
      NextAppend(a, b);
      LexAppend(first.rest, b);
      if Lex(b).Some? {
        assert [first.token] + (Lex(first.rest).value + Lex(b).value) == [first.token] + Lex(first.rest).value + Lex(b).value;
      }
    }
  }

  /** A text without a semicolon outside its spans is all one statement. */
  lemma {:induction false} WholeIsFirst(a: string)
    requires FirstStatement(a).Some? && FirstStatement(a).value.behind.None?
    ensures Lex(a) == Some(FirstStatement(a).value.tokens)
    ensures forall i :: 0 <= i < |FirstStatement(a).value.tokens| ==> FirstStatement(a).value.tokens[i] != Semi
    decreases |a|
  {
    hide Next;
    if a != "" {
      WholeIsFirst(Next(a).value.rest);
    }
  }

  // ---- Statements of what is put together ----

  /** A run of tokens that is one statement and its semicolon. */
  lemma {:induction false} OneStatement(body: seq<Token>, more: seq<Token>, current: seq<Token>)
    requires forall i :: 0 <= i < |body| ==> body[i] != Semi
    ensures Statements(body + [Semi] + more, current) == Finish(current + if current == [] then Trimmed(body) else body) + Statements(more, [])
    decreases |body|
  {
    if body == [] {
      assert body + [Semi] + more == [Semi] + more;
      assert ([Semi] + more)[1..] == more;
      assert current + [] == current;
    } else {
      var rest := body[1..] + [Semi] + more;
      assert body + [Semi] + more == [body[0]] + rest;
      assert ([body[0]] + rest)[1..] == rest;
      if body[0] == Gap && current == [] {
        OneStatement(body[1..], more, []);
      } else {
        OneStatement(body[1..], more, current + [body[0]]);
        assert current + [body[0]] + body[1..] == current + body;
        assert current == [] ==> Trimmed(body) == body;
      }
    }
  }

  /** Without the gaps in front. */
  function Trimmed(ts: seq<Token>): seq<Token> {
    if ts != [] && ts[0] == Gap then Trimmed(ts[1..]) else ts
  }
}
