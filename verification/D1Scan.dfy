/** The transcoder's scan of one schema entry: a single statement, every span of it closed. */
module D1Scan {
  import opened Common
  import opened D1Lexer

  /** What strings.TrimSpace takes off. */
  predicate IsUnicodeSpace(c: char) {
    || IsSpace(c) || c as int == 0x85 || c as int == 0xA0 || c as int == 0x1680 || 0x2000 <= c as int <= 0x200A
    || c as int == 0x2028 || c as int == 0x2029 || c as int == 0x202F || c as int == 0x205F || c as int == 0x3000
  }

  predicate Blank(s: string) { forall i :: 0 <= i < |s| ==> IsUnicodeSpace(s[i]) }

  /** One statement: its spans close, and only white space follows its first semicolon. */
  predicate IsSingle(stmt: string) {
    var first := FirstStatement(stmt);
    first.Some? && (first.value.behind.None? || Blank(first.value.behind.value))
  }

  predicate IsIdent(c: char) { c == '_' || 'a' <= c <= 'z' || 'A' <= c <= 'Z' || '0' <= c <= '9' }

  function Upper(s: string): (r: string)
    ensures |r| == |s|
  {
    seq(|s|, k requires 0 <= k < |s| => if 'a' <= s[k] <= 'z' then (s[k] as int - 32) as char else s[k])
  }

  lemma Ahead(s: string, i: nat)
    requires i < |s|
    ensures s[i..] != "" && s[i..][0] == s[i] && s[i..][1..] == s[i + 1..]
    ensures i + 1 < |s| ==> s[i..][1] == s[i + 1] && s[i..][2..] == s[i + 2..]
  {
  }

  // ---- The inner searches ----

  /** To the end of a quoted span whose opening delimiter is just behind. */
  method SkipSpan(stmt: string, start: nat, q: char) returns (end: Option<nat>)
    requires start <= |stmt|
    ensures end.None? <==> Span(stmt[start..], q).None?
    ensures end.Some? ==> start < end.value <= |stmt| && stmt[end.value..] == Span(stmt[start..], q).value.1
  {
    var i := start;
    while i < |stmt|
      invariant start <= i <= |stmt|
      invariant Span(stmt[start..], q).None? <==> Span(stmt[i..], q).None?
      invariant Span(stmt[i..], q).Some? ==> Span(stmt[start..], q).value.1 == Span(stmt[i..], q).value.1
      decreases |stmt| - i
    {
      Ahead(stmt, i);
      if stmt[i] == q {
        if i + 1 < |stmt| && stmt[i + 1] == q {
          i := i + 2;
        } else {
          return Some(i + 1);
        }
      } else {
        i := i + 1;
      }
    }
    end := None;
  }

  /** To just behind the next occurrence of a character. */
  method SkipPast(stmt: string, start: nat, c: char) returns (end: Option<nat>)
    requires start <= |stmt|
    ensures end.None? <==> Until(stmt[start..], c).None?
    ensures end.Some? ==> start < end.value <= |stmt| && stmt[end.value..] == Until(stmt[start..], c).value.1
  {
    var i := start;
    while i < |stmt|
      invariant start <= i <= |stmt|
      invariant Until(stmt[start..], c).None? <==> Until(stmt[i..], c).None?
      invariant Until(stmt[i..], c).Some? ==> Until(stmt[start..], c).value.1 == Until(stmt[i..], c).value.1
      decreases |stmt| - i
    {
      Ahead(stmt, i);
      if stmt[i] == c {
        return Some(i + 1);
      }
      i := i + 1;
    }
    end := None;
  }

  /** To just behind the next end-of-comment mark. */
  method SkipComment(stmt: string, start: nat) returns (end: Option<nat>)
    requires start <= |stmt|
    ensures end.None? <==> CommentEnd(stmt[start..]).None?
    ensures end.Some? ==> start < end.value <= |stmt| && stmt[end.value..] == CommentEnd(stmt[start..]).value
  {
    var i := start;
    while i + 1 < |stmt|
      invariant start <= i <= |stmt|
      invariant CommentEnd(stmt[start..]) == CommentEnd(stmt[i..])
      decreases |stmt| - i
    {
      Ahead(stmt, i);
      if stmt[i] == '*' && stmt[i + 1] == '/' {
        return Some(i + 2);
      }
      i := i + 1;
    }
    end := None;
  }

  /** Whether what follows, white space and comments aside, spells the start of an action. */
  method TriggerActionFollows(stmt: string, at: nat) returns (follows: bool)
    requires at <= |stmt|
  {
    var i := at;
    while i < |stmt|
      invariant i <= |stmt|
      decreases |stmt| - i
    {
      var c := stmt[i];
      if IsSpace(c) {
        i := i + 1;
      } else if c == '-' && i + 1 < |stmt| && stmt[i + 1] == '-' {
        var end := SkipPast(stmt, i, '\n');
        if end.None? {
          return false;
        }
        i := end.value;
      } else if c == '/' && i + 1 < |stmt| && stmt[i + 1] == '*' {
        var end := SkipComment(stmt, i + 2);
        if end.None? {
          return false;
        }
        i := end.value;
      } else {
        var start := i;
        while i < |stmt| && IsIdent(stmt[i])
          invariant start <= i <= |stmt|
          decreases |stmt| - i
        {
          i := i + 1;
        }
        return Upper(stmt[start..i]) in {"INSERT", "UPDATE", "DELETE", "SELECT", "WITH", "REPLACE"};
      }
    }
    follows := false;
  }

  // ---- What the scan has read ----

  /** The first i characters are these tokens, and lexing goes on from there. */
  ghost predicate Read(stmt: string, i: nat, done: seq<Token>)
    requires i <= |stmt|
  {
    Lex(stmt) == Cat(done, Lex(stmt[i..]))
  }

  ghost predicate NoSemi(ts: seq<Token>) { forall k :: 0 <= k < |ts| ==> ts[k] != Semi }

  function Front(done: seq<Token>, more: Option<Head>): Option<Head> {
    if more.None? then None else Some(Head(done + more.value.tokens, more.value.behind))
  }

  /** And none of them is a semicolon. */
  ghost predicate ReadHead(stmt: string, i: nat, done: seq<Token>)
    requires i <= |stmt|
  {
    FirstStatement(stmt) == Front(done, FirstStatement(stmt[i..]))
  }

  lemma ReadNothing(stmt: string)
    ensures Read(stmt, 0, []) && ReadHead(stmt, 0, [])
  {
    assert stmt[0..] == stmt;
    if Lex(stmt).Some? {
      assert [] + Lex(stmt).value == Lex(stmt).value;
    }
    if FirstStatement(stmt).Some? {
      assert [] + FirstStatement(stmt).value.tokens == FirstStatement(stmt).value.tokens;
    }
  }

  lemma ReadOne(stmt: string, i: nat, done: seq<Token>, j: nat)
    requires i < |stmt| && j <= |stmt| && Read(stmt, i, done)
    requires Next(stmt[i..]).Some? && Next(stmt[i..]).value.rest == stmt[j..]
    ensures Read(stmt, j, done + [Next(stmt[i..]).value.token])
  {
    hide Next;
    var more := Lex(stmt[j..]);
    if more.Some? {
      var t := Next(stmt[i..]).value.token;
      assert done + ([t] + more.value) == done + [t] + more.value;
    }
  }

  lemma ReadHeadOne(stmt: string, i: nat, done: seq<Token>, j: nat)
    requires i < |stmt| && j <= |stmt| && ReadHead(stmt, i, done)
    requires Next(stmt[i..]).Some? && Next(stmt[i..]).value.rest == stmt[j..] && Next(stmt[i..]).value.token != Semi
    ensures ReadHead(stmt, j, done + [Next(stmt[i..]).value.token])
  {
    hide Next;
    var more := FirstStatement(stmt[j..]);
    if more.Some? {
      var t := Next(stmt[i..]).value.token;
      assert done + ([t] + more.value.tokens) == done + [t] + more.value.tokens;
    }
  }

  lemma OpenSpan(stmt: string, i: nat, done: seq<Token>)
    requires i < |stmt| && Next(stmt[i..]).None?
    ensures Read(stmt, i, done) ==> Lex(stmt).None?
    ensures ReadHead(stmt, i, done) ==> FirstStatement(stmt).None?
  {
    hide Next;
  }

  /** Blank text is gaps and plain characters. */
  lemma {:induction false} BlankLexes(s: string)
    requires Blank(s)
    ensures Lex(s).Some?
    decreases |s|
  {
    if s != "" {
      assert IsUnicodeSpace(s[0]);
      BlankLexes(s[1..]);
    }
  }

  /** One token, whatever kind it is, other than a semicolon: where it ends, or that it does not. */
  method SkipToken(stmt: string, i: nat) returns (j: Option<nat>)
    requires i < |stmt| && stmt[i] != ';'
    ensures j.None? <==> Next(stmt[i..]).None?
    ensures j.Some? ==> i < j.value <= |stmt| && stmt[j.value..] == Next(stmt[i..]).value.rest && Next(stmt[i..]).value.token != Semi
  {
    hide Span, Until, CommentEnd;
    Ahead(stmt, i);
    var c := stmt[i];
    if IsSpace(c) {
      j := Some(i + 1);
    } else if IsQuote(c) {
      j := SkipSpan(stmt, i + 1, c);
    } else if c == '[' {
      j := SkipPast(stmt, i + 1, ']');
    } else if c == '-' && i + 1 < |stmt| && stmt[i + 1] == '-' {
      j := SkipPast(stmt, i, '\n');
    } else if c == '/' && i + 1 < |stmt| && stmt[i + 1] == '*' {
      j := SkipComment(stmt, i + 2);
    } else {
      j := Some(i + 1);
    }
  }

  /** White space and comments: they leave the last significant token as it was. */
  predicate Insignificant(stmt: string, i: nat)
    requires i < |stmt|
  {
    IsSpace(stmt[i]) || (i + 1 < |stmt| && ((stmt[i] == '-' && stmt[i + 1] == '-') || (stmt[i] == '/' && stmt[i + 1] == '*')))
  }

  /** The scan. An entry that is not a trigger passes exactly when it is a single statement; a
      trigger entry that passes leaves no span open either. */
  method RequireSingleStatement(stmt: string, allowTriggerBody: bool) returns (ok: bool)
    ensures !allowTriggerBody ==> (ok <==> IsSingle(stmt))
    ensures ok ==> Lex(stmt).Some?
  {
    hide Next, Lex, FirstStatement, Read, ReadHead;
    var triggerOpen, afterSemicolon := false, false;
    var i: nat := 0;
    ghost var done: seq<Token> := [];
    ReadNothing(stmt);
    while i < |stmt|
      invariant i <= |stmt| && Read(stmt, i, done) && (!allowTriggerBody ==> ReadHead(stmt, i, done) && !triggerOpen)
      decreases |stmt| - i
    {
      if stmt[i] == ';' {
        SemiNext(stmt, i);
        ReadOne(stmt, i, done, i + 1);
        if !(allowTriggerBody && triggerOpen) {
          ok := forall k :: i + 1 <= k < |stmt| ==> IsUnicodeSpace(stmt[k]);
          if ok {
            RestBlank(stmt, i + 1, done + [Semi]);
          }
          if !allowTriggerBody {
            SemiEnds(stmt, i, done);
          }
          return;
        }
        done := done + [Semi];
        afterSemicolon := true;
        i := i + 1;
      } else if allowTriggerBody && IsIdent(stmt[i]) {
        var start := i;
        while i < |stmt| && IsIdent(stmt[i])
          invariant start <= i <= |stmt| && Read(stmt, i, done)
          decreases |stmt| - i
        {
          IdentNext(stmt, i);
          ReadOne(stmt, i, done, i + 1);
          done := done + [Plain(stmt[i])];
          i := i + 1;
        }
        var word := Upper(stmt[start..i]);
        if word == "BEGIN" && !triggerOpen {
          triggerOpen := TriggerActionFollows(stmt, i);
        } else if word == "END" && triggerOpen && afterSemicolon {
          triggerOpen := false;
        }
        afterSemicolon := false;
      } else {
        var j := SkipToken(stmt, i);
        if j.None? {
          OpenSpan(stmt, i, done);
          if !allowTriggerBody {
            assert !IsSingle(stmt);
          }
          return false;
        }
        if !Insignificant(stmt, i) {
          afterSemicolon := false;
        }
        ReadOne(stmt, i, done, j.value);
        if !allowTriggerBody {
          ReadHeadOne(stmt, i, done, j.value);
        }
        done := done + [Next(stmt[i..]).value.token];
        i := j.value;
      }
    }
    ReadAll(stmt, done);
    ok := !triggerOpen;
  }

  lemma SemiNext(stmt: string, i: nat)
    requires i < |stmt| && stmt[i] == ';'
    ensures Next(stmt[i..]) == Some(Lexed(Semi, stmt[i + 1..]))
  {
    Ahead(stmt, i);
  }

  lemma IdentNext(stmt: string, i: nat)
    requires i < |stmt| && IsIdent(stmt[i])
    ensures Next(stmt[i..]) == Some(Lexed(Plain(stmt[i]), stmt[i + 1..]))
  {
    Ahead(stmt, i);
  }

  lemma RestBlank(stmt: string, i: nat, done: seq<Token>)
    requires i <= |stmt| && Read(stmt, i, done) && forall k :: i <= k < |stmt| ==> IsUnicodeSpace(stmt[k])
    ensures Lex(stmt).Some?
  {
    hide Lex;
    BlankLexes(stmt[i..]);
  }

  lemma SemiEnds(stmt: string, i: nat, done: seq<Token>)
    requires i < |stmt| && stmt[i] == ';' && ReadHead(stmt, i, done)
    ensures FirstStatement(stmt) == Some(Head(done, Some(stmt[i + 1..])))
    ensures IsSingle(stmt) <==> forall k :: i + 1 <= k < |stmt| ==> IsUnicodeSpace(stmt[k])
  {
    hide Next;
    SemiNext(stmt, i);
    assert done + [] == done;
    var rest := stmt[i + 1..];
    if IsSingle(stmt) {
      forall k | i + 1 <= k < |stmt|
        ensures IsUnicodeSpace(stmt[k])
      {
        assert rest[k - i - 1] == stmt[k];
      }
    }
  }

  lemma ReadAll(stmt: string, done: seq<Token>)
    requires Read(stmt, |stmt|, done)
    ensures Lex(stmt).Some?
    ensures ReadHead(stmt, |stmt|, done) ==> IsSingle(stmt)
  {
    assert stmt[|stmt|..] == "";
  }
}
