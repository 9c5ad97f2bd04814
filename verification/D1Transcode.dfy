/** The transcoder: entries and rows appended to one buffer, and what the SQL file it leaves lexes
    to. */
module D1Transcode {
  import opened Common
  import opened D1Lexer
  import opened D1Literals
  import opened D1Inserts
  import D1Scan

  // ---- Entry keywords ----

  predicate ReSpace(c: char) { IsSpace(c) && c != VT }

  predicate WordChar(c: char) { D1Scan.IsIdent(c) }

  function SkipRe(s: string): (r: string)
    ensures |r| <= |s|
  {
    if s != "" && ReSpace(s[0]) then SkipRe(s[1..]) else s
  }

  /** White space, CREATE in any case, white space, the kind in any case, and a word boundary. */
  predicate IsCreate(stmt: string, kind: string) {
    var t := SkipRe(stmt);
    && |t| > 6 && D1Scan.Upper(t[..6]) == "CREATE" && ReSpace(t[6])
    && var v := SkipRe(t[6..]);
       |v| >= |kind| && D1Scan.Upper(v[..|kind|]) == kind && (|v| == |kind| || !WordChar(v[|kind|]))
  }

  // What an entry's keywords may look like, by the entry's parts.

  ghost predicate ReSpaces(s: string) {
    forall k :: 0 <= k < |s| ==> s[k] == ' ' || s[k] == '\t' || s[k] == '\n' || s[k] == '\r' || s[k] as int == 12
  }

  /** The word, each letter in either case. */
  ghost predicate AnyCase(w: string, word: string) {
    |w| == |word| && forall k :: 0 <= k < |w| ==> w[k] == word[k] || w[k] as int == word[k] as int + 32
  }

  predicate Letters(word: string) { word != "" && forall k :: 0 <= k < |word| ==> 'A' <= word[k] <= 'Z' }

  ghost predicate EndsWord(rest: string) {
    rest == "" || !(rest[0] == '_' || 'a' <= rest[0] <= 'z' || 'A' <= rest[0] <= 'Z' || '0' <= rest[0] <= '9')
  }

  /** The letters' case and the amount and kind of white space make no difference to a match. */
  lemma CreateExact(stmt: string, kind: string)
    requires Letters(kind)
    ensures IsCreate(stmt, kind) <==>
            exists gap, create, between, word, rest ::
              && stmt == gap + (create + (between + (word + rest))) && ReSpaces(gap) && AnyCase(create, "CREATE")
              && between != "" && ReSpaces(between) && AnyCase(word, kind) && EndsWord(rest)
  {
    if IsCreate(stmt, kind) {
      var gap, create, between, word, rest := CreateParts(stmt, kind);
    }
    forall gap, create, between, word, rest |
      && stmt == gap + (create + (between + (word + rest))) && ReSpaces(gap) && AnyCase(create, "CREATE")
      && between != "" && ReSpaces(between) && AnyCase(word, kind) && EndsWord(rest)
      ensures IsCreate(stmt, kind)
    {
      CreateFromParts(gap, create, between, word, rest, kind);
    }
  }

  lemma {:induction false} SkipsGap(g: string, t: string)
    requires ReSpaces(g) && (t == "" || !ReSpace(t[0]))
    ensures SkipRe(g + t) == t
  {
    if g == "" {
      assert g + t == t;
    } else {
      assert (g + t)[0] == g[0] && (g + t)[1..] == g[1..] + t;
      SkipsGap(g[1..], t);
    }
  }

  lemma {:induction false} SkippedGap(s: string)
    ensures var i := |s| - |SkipRe(s)|; ReSpaces(s[..i]) && SkipRe(s) == s[i..]
    ensures SkipRe(s) != "" ==> !ReSpace(SkipRe(s)[0])
    ensures s != "" && ReSpace(s[0]) ==> |SkipRe(s)| < |s|
  {
    if s != "" && ReSpace(s[0]) {
      SkippedGap(s[1..]);
      var i := |s| - |SkipRe(s)|;
      assert s[..i] == [s[0]] + s[1..][..i - 1];
    }
  }

  lemma CaseExact(w: string, word: string)
    requires Letters(word)
    ensures D1Scan.Upper(w) == word <==> AnyCase(w, word)
  {
    if D1Scan.Upper(w) == word {
      forall k | 0 <= k < |w|
        ensures w[k] == word[k] || w[k] as int == word[k] as int + 32
      {
        assert D1Scan.Upper(w)[k] == word[k];
      }
    }
  }

  lemma WordStarts(w: string, word: string)
    requires Letters(word) && AnyCase(w, word)
    ensures w != "" && !ReSpace(w[0])
  {
    assert w[0] == word[0] || w[0] as int == word[0] as int + 32;
  }

  lemma CreateFromParts(gap: string, create: string, between: string, word: string, rest: string, kind: string)
    requires Letters(kind) && ReSpaces(gap) && AnyCase(create, "CREATE") && between != "" && ReSpaces(between)
    requires AnyCase(word, kind) && EndsWord(rest)
    ensures IsCreate(gap + (create + (between + (word + rest))), kind)
  {
    hide SkipRe, AnyCase, ReSpaces;
    var t := create + (between + (word + rest));
    WordStarts(create, "CREATE");
    WordStarts(word, kind);
    CaseExact(create, "CREATE");
    CaseExact(word, kind);
    CaseLength(create, "CREATE");
    CaseLength(word, kind);
    FirstSpace(between);
    SkipsGap(gap, t);
    assert t[..6] == create && t[6..] == between + (word + rest) && t[6] == between[0];
    SkipsGap(between, word + rest);
    assert (word + rest)[..|kind|] == word && (rest != "" ==> (word + rest)[|kind|] == rest[0]);
  }

  lemma CaseLength(w: string, word: string)
    requires AnyCase(w, word)
    ensures |w| == |word|
  {
  }

  lemma FirstSpace(g: string)
    requires g != "" && ReSpaces(g)
    ensures ReSpace(g[0])
  {
  }

  lemma CreateParts(stmt: string, kind: string) returns (gap: string, create: string, between: string, word: string, rest: string)
    requires Letters(kind) && IsCreate(stmt, kind)
    ensures stmt == gap + (create + (between + (word + rest))) && ReSpaces(gap) && AnyCase(create, "CREATE")
    ensures between != "" && ReSpaces(between) && AnyCase(word, kind) && EndsWord(rest)
  {
    hide SkipRe, AnyCase, ReSpaces;
    var t := SkipRe(stmt);
    SkippedGap(stmt);
    gap := stmt[..|stmt| - |t|];
    create := t[..6];
    CaseExact(create, "CREATE");
    var more := t[6..];
    var v := SkipRe(more);
    SkippedGap(more);
    between := more[..|more| - |v|];
    word, rest := v[..|kind|], v[|kind|..];
    CaseExact(word, kind);
    assert v == word + rest && more == between + v && t == create + more && stmt == gap + t;
  }

  predicate IsSchema(stmt: string) { IsCreate(stmt, "INDEX") || IsCreate(stmt, "TRIGGER") || IsCreate(stmt, "VIEW") }

  datatype Table = Table(name: string, sql: string, columns: seq<string>, rows: seq<seq<Cell>>)

  predicate TableDdlOk(t: Table) { t.name != "" && IsCreate(t.sql, "TABLE") && D1Scan.IsSingle(t.sql) }

  predicate RowsOk(t: Table) {
    t.name != "" && (t.rows == [] || (t.columns != [] && AllRenderable(|t.columns|, t.rows)))
  }

  // ---- Rows ----

  /** The rows of a table in statements of at most BATCH rows. */
  function Batches(rows: seq<seq<Cell>>): seq<seq<seq<Cell>>>
    decreases |rows|
  {
    if rows == [] then [] else if |rows| <= BATCH then [rows] else [rows[..BATCH]] + Batches(rows[BATCH..])
  }

  /** Every row is in exactly one batch, in order, and there are as few batches as the size allows. */
  lemma {:induction false} BatchesHoldRows(rows: seq<seq<Cell>>)
    ensures Flatten(Batches(rows)) == rows && |Batches(rows)| == (|rows| + BATCH - 1) / BATCH
    ensures forall i :: 0 <= i < |Batches(rows)| ==> 0 < |Batches(rows)[i]| <= BATCH
    decreases |rows|
  {
    if rows == [] {
    } else if |rows| <= BATCH {
      assert Flatten([rows]) == rows + Flatten([]);
    } else {
      BatchesHoldRows(rows[BATCH..]);
      assert Batches(rows)[1..] == Batches(rows[BATCH..]);
      assert rows[..BATCH] + rows[BATCH..] == rows;
    }
  }

  function Flatten(batches: seq<seq<seq<Cell>>>): seq<seq<Cell>> {
    if batches == [] then [] else batches[0] + Flatten(batches[1..])
  }

  lemma {:induction false} BatchesRenderable(width: nat, rows: seq<seq<Cell>>)
    requires AllRenderable(width, rows)
    ensures forall i :: 0 <= i < |Batches(rows)| ==> Batches(rows)[i] != [] && AllRenderable(width, Batches(rows)[i])
    decreases |rows|
  {
    hide Renderable;
    if |rows| > BATCH {
      BatchesRenderable(width, rows[BATCH..]);
    }
  }

  function InsertText(table: string, columns: seq<string>, batch: seq<seq<Cell>>): string
    requires batch != [] && AllRenderable(|columns|, batch)
  {
    HeadText(table, columns) + RowsText(batch)
  }

  function InsertsText(table: string, columns: seq<string>, batches: seq<seq<seq<Cell>>>): string
    requires forall i :: 0 <= i < |batches| ==> batches[i] != [] && AllRenderable(|columns|, batches[i])
  {
    if batches == [] then "" else InsertsText(table, columns, batches[..|batches| - 1]) + InsertText(table, columns, batches[|batches| - 1])
  }

  const BEGIN := "BEGIN TRANSACTION;\n"
  const COMMIT := "COMMIT;\n"

  // ---- Writing rows ----

  lemma {:induction false} CellsSnoc(row: seq<Cell>, j: nat)
    requires j < |row| && Renderable(row[..j + 1])
    ensures Renderable(row[..j]) && Literal(row[j]).Some?
    ensures CellsText(row[..j + 1]) == CellsText(row[..j]) + (if j > 0 then ", " else "") + Literal(row[j]).value
    decreases j
  {
    hide Literal;
    assert forall k :: 0 <= k < j ==> row[..j][k] == row[..j + 1][k];
    assert row[..j + 1][j] == row[j];
    if j == 0 {
      assert row[..1] == [row[0]] && row[..0] == [];
    } else {
      var tail := row[1..];
      assert row[..j + 1][1..] == tail[..j] && row[..j][1..] == tail[..j - 1] && row[..j + 1][0] == row[0] == row[..j][0];
      assert forall k :: 0 <= k < j ==> tail[..j][k] == row[..j + 1][k + 1];
      CellsSnoc(tail, j - 1);
    }
  }

  /** One row in parentheses; None when its width or a cell is wrong. */
  method WriteRow(buf: string, row: seq<Cell>, width: nat) returns (r: Option<string>)
    ensures r.Some? <==> |row| == width && Renderable(row)
    ensures r.Some? ==> r.value == buf + RowText(row)
  {
    hide Literal, CellsText;
    if |row| != width {
      return None;
    }
    var out := buf + "(";
    assert CellsText(row[..0]) == "" by { NoCells(); }
    for j := 0 to |row|
      invariant Renderable(row[..j]) && out == buf + "(" + CellsText(row[..j])
    {
      var lit := Literal(row[j]);
      if lit.None? {
        return None;
      }
      assert Renderable(row[..j + 1]) by { OneMore(row, j); }
      CellsSnoc(row, j);
      if j > 0 {
        out := out + ", ";
      }
      out := out + lit.value;
    }
    assert row[..|row|] == row;
    r := Some(out + ")");
    assert out + ")" == buf + ("(" + CellsText(row) + ")");
  }

  lemma NoCells()
    ensures Renderable([]) && CellsText([]) == ""
  {
  }

  lemma OneMore(row: seq<Cell>, j: nat)
    requires j < |row| && Renderable(row[..j]) && Literal(row[j]).Some?
    ensures Renderable(row[..j + 1])
  {
    hide Literal;
    var part := row[..j + 1];
    forall k | 0 <= k < |part|
      ensures Literal(part[k]).Some?
    {
      if k < j {
        assert row[..j][k] == part[k];
      }
    }
  }

  /** Rows that are not the last of their statement. */
  function OpenRows(rows: seq<seq<Cell>>): string
    requires forall i :: 0 <= i < |rows| ==> Renderable(rows[i])
  {
    if rows == [] then "" else RowText(rows[0]) + ",\n" + OpenRows(rows[1..])
  }

  lemma {:induction false} OpenSnoc(rows: seq<seq<Cell>>, i: nat)
    requires i < |rows| && forall k :: 0 <= k <= i ==> Renderable(rows[k])
    ensures OpenRows(rows[..i + 1]) == OpenRows(rows[..i]) + (RowText(rows[i]) + ",\n")
    decreases i
  {
    hide RowText, Renderable;
    if i == 0 {
      assert rows[..1] == [rows[0]] && rows[..0] == [] && rows[..1][1..] == [];
    } else {
      assert rows[..i + 1][1..] == rows[1..][..i] && rows[..i][1..] == rows[1..][..i - 1];
      OpenSnoc(rows[1..], i - 1);
    }
  }

  lemma {:induction false} LastRow(rows: seq<seq<Cell>>)
    requires rows != [] && forall k :: 0 <= k < |rows| ==> Renderable(rows[k])
    ensures RowsText(rows) == OpenRows(rows[..|rows| - 1]) + (RowText(rows[|rows| - 1]) + ";\n")
  {
    hide RowText, Renderable;
    if |rows| > 1 {
      LastRow(rows[1..]);
      assert rows[1..][..|rows| - 2] == rows[..|rows| - 1][1..];
    }
  }

  /** One INSERT of a batch. */
  method WriteBatch(buf: string, table: string, columns: seq<string>, batch: seq<seq<Cell>>) returns (r: Option<string>)
    requires batch != []
    ensures r.Some? <==> AllRenderable(|columns|, batch)
    ensures r.Some? ==> r.value == buf + InsertText(table, columns, batch)
  {
    hide RowText, Renderable, HeadText, OpenRows, RowsText;
    var head := HeadText(table, columns);
    var out := buf + head;
    assert OpenRows(batch[..0]) == "" by { NoOpenRows(); }
    for i := 0 to |batch|
      invariant forall k :: 0 <= k < i ==> |batch[k]| == |columns| && Renderable(batch[k])
      invariant i < |batch| ==> out == buf + head + OpenRows(batch[..i])
      invariant i == |batch| ==> out == buf + head + RowsText(batch)
    {
      var row := WriteRow(out, batch[i], |columns|);
      if row.None? {
        return None;
      }
      if i == |batch| - 1 {
        LastRow(batch);
        out := row.value + ";\n";
      } else {
        OpenSnoc(batch, i);
        out := row.value + ",\n";
      }
    }
    assert buf + head + RowsText(batch) == buf + (head + RowsText(batch));
    r := Some(out);
  }

  lemma NoOpenRows()
    ensures OpenRows([]) == ""
  {
  }

  /** One table's rows inside a transaction; nothing for no rows. */
  function TableRowsText(t: Table): string
    requires RowsOk(t)
  {
    if t.rows == [] then ""
    else
      BatchesRenderable(|t.columns|, t.rows);
      BEGIN + InsertsText(t.name, t.columns, Batches(t.rows)) + COMMIT
  }

  /** A table's rows can be written: it has a name, and columns if there are rows; each row is as
      wide as the columns; and each cell is one that SQL has an exact literal for. */
  lemma RowsExact(t: Table)
    ensures RowsOk(t) <==>
            && t.name != "" && (t.rows != [] ==> t.columns != [])
            && forall i :: 0 <= i < |t.rows| ==> |t.rows[i]| == |t.columns| && forall j :: 0 <= j < |t.rows[i]| ==> HasLiteral(t.rows[i][j])
  {
    hide Literal, HasLiteral;
    forall cell
      ensures Literal(cell).Some? <==> HasLiteral(cell)
    {
      LiteralExact(cell);
    }
  }

  method WriteInserts(t: Table) returns (r: Option<string>)
    ensures r.Some? <==> RowsOk(t)
    ensures r.Some? <==>
            && t.name != "" && (t.rows != [] ==> t.columns != [])
            && forall i :: 0 <= i < |t.rows| ==> |t.rows[i]| == |t.columns| && forall j :: 0 <= j < |t.rows[i]| ==> HasLiteral(t.rows[i][j])
    ensures r.Some? ==> r.value == TableRowsText(t)
  {
    hide AllRenderable, InsertText, HasLiteral;
    RowsExact(t);
    if t.name == "" {
      return None;
    }
    if |t.rows| == 0 {
      return Some("");
    }
    if |t.columns| == 0 {
      return None;
    }
    var out := BEGIN;
    var start: nat := 0;
    ghost var done: seq<seq<seq<Cell>>> := [];
    NothingYet(t);
    assert t.rows[0..] == t.rows && [] + Batches(t.rows) == Batches(t.rows);
    while start < |t.rows|
      invariant start <= |t.rows| && done + Batches(t.rows[start..]) == Batches(t.rows)
      invariant forall i :: 0 <= i < |done| ==> done[i] != [] && AllRenderable(|t.columns|, done[i])
      invariant RenderableUpTo(t, start)
      invariant out == BEGIN + InsertsText(t.name, t.columns, done)
      decreases |t.rows| - start
    {
      var end := if start + BATCH > |t.rows| then |t.rows| else start + BATCH;
      var batch := t.rows[start..end];
      NextBatch(t.rows, start, end);
      var next := WriteBatch(out, t.name, t.columns, batch);
      UpTo(t, start, end);
      if next.None? {
        return None;
      }
      assert done + [batch] + Batches(t.rows[end..]) == done + ([batch] + Batches(t.rows[end..]));
      assert (done + [batch])[..|done|] == done;
      assert out + InsertText(t.name, t.columns, batch) == BEGIN + (InsertsText(t.name, t.columns, done) + InsertText(t.name, t.columns, batch));
      out := next.value;
      done := done + [batch];
      start := end;
    }
    assert t.rows[..|t.rows|] == t.rows && t.rows[|t.rows|..] == [];
    assert done + [] == done;
    UpToAll(t);
    r := Some(out + COMMIT);
  }

  ghost predicate RenderableUpTo(t: Table, n: nat)
    requires n <= |t.rows|
  {
    AllRenderable(|t.columns|, t.rows[..n])
  }

  lemma NothingYet(t: Table)
    ensures RenderableUpTo(t, 0)
  {
  }

  lemma UpTo(t: Table, start: nat, end: nat)
    requires start <= end <= |t.rows| && RenderableUpTo(t, start)
    ensures AllRenderable(|t.columns|, t.rows[start..end]) ==> RenderableUpTo(t, end)
    ensures !AllRenderable(|t.columns|, t.rows[start..end]) ==> !AllRenderable(|t.columns|, t.rows)
  {
    hide Renderable;
    var part := t.rows[start..end];
    assert forall k :: 0 <= k < |part| ==> part[k] == t.rows[start + k];
    if AllRenderable(|t.columns|, part) {
      forall k | 0 <= k < end
        ensures |t.rows[..end][k]| == |t.columns| && Renderable(t.rows[..end][k])
      {
        if k < start {
          assert t.rows[..start][k] == t.rows[k];
        } else {
          assert part[k - start] == t.rows[k];
        }
      }
    }
  }

  lemma UpToAll(t: Table)
    requires RenderableUpTo(t, |t.rows|)
    ensures AllRenderable(|t.columns|, t.rows)
  {
    assert t.rows[..|t.rows|] == t.rows;
  }

  lemma NextBatch(rows: seq<seq<Cell>>, start: nat, end: nat)
    requires start < |rows| && end == if start + BATCH > |rows| then |rows| else start + BATCH
    ensures Batches(rows[start..]) == [rows[start..end]] + Batches(rows[end..])
  {
    var rest := rows[start..];
    if |rest| <= BATCH {
      assert rows[start..end] == rest && rows[end..] == [];
    } else {
      assert rest[..BATCH] == rows[start..end] && rest[BATCH..] == rows[end..];
    }
  }

  // ---- Pieces of the output ----

  predicate Ends(ts: seq<Token>) { ts == [] || (|ts| >= 2 && ts[|ts| - 2] == Semi && ts[|ts| - 1] == Gap) }

  /** Text that lexes to these tokens by itself and can be put behind any other such text. */
  ghost predicate Whole(text: string, ts: seq<Token>) {
    Fresh(text) && Lex(text) == Some(ts) && Ends(ts)
  }

  lemma WholeAppend(a: string, ta: seq<Token>, b: string, tb: seq<Token>)
    requires Whole(a, ta) && Whole(b, tb)
    ensures Whole(a + b, ta + tb)
  {
    hide Lex;
    LexAppend(a, b);
    if a == "" {
      assert a + b == b;
    }
    if tb == [] {
      assert ta + tb == ta;
    }
  }

  lemma {:induction false} StatementsAppend(x: seq<Token>, b: seq<Token>, current: seq<Token>)
    ensures Statements(x + [Semi, Gap] + b, current) == Statements(x + [Semi, Gap], current) + Statements(b, [])
    decreases |x|
  {
    if x == [] {
      assert [] + [Semi, Gap] + b == [Semi] + ([Gap] + b) && [] + [Semi, Gap] == [Semi] + [Gap];
      assert ([Semi] + ([Gap] + b))[1..] == [Gap] + b && ([Gap] + b)[1..] == b && ([Semi] + [Gap])[1..] == [Gap];
      assert Statements([Gap], []) == [];
      assert Finish(current) + [] == Finish(current);
    } else {
      var y := x[1..];
      assert x + [Semi, Gap] + b == [x[0]] + (y + [Semi, Gap] + b) && x + [Semi, Gap] == [x[0]] + (y + [Semi, Gap]);
      var next := if x[0] == Semi || (x[0] == Gap && current == []) then [] else current + [x[0]];
      StatementsAppend(y, b, next);
      if x[0] == Semi {
        assert Finish(current) + (Statements(y + [Semi, Gap], []) + Statements(b, [])) == Finish(current) + Statements(y + [Semi, Gap], []) + Statements(b, []);
      }
    }
  }

  /** The statements of pieces put together are the pieces' statements. */
  lemma StatementsJoin(a: seq<Token>, b: seq<Token>)
    requires Ends(a)
    ensures Statements(a + b, []) == Statements(a, []) + Statements(b, [])
  {
    if a == [] {
      assert a + b == b;
    } else {
      var x := a[..|a| - 2];
      assert a == x + [Semi, Gap];
      StatementsAppend(x, b, []);
    }
  }

  /** A statement of tokens without a semicolon, closed. */
  lemma OneClosed(body: seq<Token>)
    requires NoSemi(body) && body != [] && body[0] != Gap
    ensures Statements(body + [Semi, Gap], []) == [body] && Ends(body + [Semi, Gap])
  {
    OneStatement(body, [Gap], []);
    assert body + [Semi] + [Gap] == body + [Semi, Gap];
    assert Statements([Gap], []) == [];
    assert [] + body == body && [body] + [] == [body];
  }

  // ---- Schema entries ----

  /** An entry's own tokens, closed with a semicolon. */
  function EntryTokens(stmt: string): seq<Token> {
    (if Lex(stmt).Some? then Lex(stmt).value else []) + [Semi, Gap]
  }

  lemma CreateIsFresh(stmt: string, kind: string)
    requires IsCreate(stmt, kind)
    ensures stmt != "" && !IsQuote(stmt[0]) && stmt[0] != '-' && stmt[0] != '*'
  {
    if !ReSpace(stmt[0]) {
      assert D1Scan.Upper(stmt[..6])[0] == 'C';
    }
  }

  lemma EntryIsWhole(stmt: string)
    requires IsSchema(stmt) || IsCreate(stmt, "TABLE")
    requires Lex(stmt).Some?
    ensures Whole(stmt + ";\n", EntryTokens(stmt))
  {
    hide Lex, IsCreate;
    if IsCreate(stmt, "TABLE") {
      CreateIsFresh(stmt, "TABLE");
    } else if IsCreate(stmt, "INDEX") {
      CreateIsFresh(stmt, "INDEX");
    } else if IsCreate(stmt, "TRIGGER") {
      CreateIsFresh(stmt, "TRIGGER");
    } else {
      CreateIsFresh(stmt, "VIEW");
    }
    LexAppend(stmt, ";\n");
    EndLexes("");
    assert ";\n" + "" == ";\n";
    assert Lex("") == Some([]) by { LexEmpty(); }
    assert [Semi, Gap] + [] == [Semi, Gap];
  }

  lemma LexEmpty()
    ensures Lex("") == Some([])
  {
  }

  /** An entry's tokens: its statement's, then what its trailing white space lexes to. */
  lemma {:induction false} FirstAndRest(stmt: string)
    requires FirstStatement(stmt).Some?
    ensures var f := FirstStatement(stmt).value;
            NoSemi(f.tokens) && Lex(stmt) == if f.behind.None? then Some(f.tokens) else Cat(f.tokens + [Semi], Lex(f.behind.value))
    decreases |stmt|
  {
    hide Next;
    if stmt != "" {
      var first := Next(stmt).value;
      if first.token == Semi {
        assert [] + [Semi] == [Semi];
      } else {
        FirstAndRest(first.rest);
        var more := FirstStatement(first.rest).value;
        if more.behind.Some? && Lex(more.behind.value).Some? {
          var r := Lex(more.behind.value).value;
          assert [first.token] + (more.tokens + [Semi] + r) == [first.token] + more.tokens + [Semi] + r;
        }
      }
    }
  }

  /** What blank text lexes to: gaps, and a plain character for each space that is not ASCII. */
  lemma BlankTokens(s: string)
    requires D1Scan.Blank(s)
    ensures Lex(s) == Some(Plains(s)) && NoSemi(Plains(s))
    ensures Trimmed(Plains(s)) == [] <==> AllSpace(s)
  {
    hide Lex, Trimmed;
    assert AllSimple(s);
    SimpleLexes(s, "");
    LexEmpty();
    assert s + "" == s && Plains(s) + [] == Plains(s);
    TrimmedPlains(s);
  }

  predicate AllSpace(s: string) { forall k :: 0 <= k < |s| ==> IsSpace(s[k]) }

  lemma AllSpaceCons(s: string)
    requires s != ""
    ensures AllSpace(s) <==> IsSpace(s[0]) && AllSpace(s[1..])
  {
    assert s == [s[0]] + s[1..];
  }

  lemma {:induction false} TrimmedPlains(s: string)
    ensures Trimmed(Plains(s)) == [] <==> AllSpace(s)
    decreases |s|
  {
    hide Plains, AllSpace;
    if s == "" {
      assert AllSpace(s) by { NoSpaces(); }
    } else {
      TrimmedPlains(s[1..]);
      PlainsCons(s);
      AllSpaceCons(s);
      assert Plains(s)[1..] == Plains(s[1..]);
    }
  }

  lemma NoSpaces()
    ensures AllSpace("")
  {
  }

  /** The entry's one statement. */
  function EntryStatement(stmt: string): seq<Token> {
    var f := FirstStatement(stmt);
    if f.None? then [] else Trimmed(f.value.tokens)
  }

  /** Nothing but ASCII white space follows the entry's first semicolon. */
  predicate AsciiTail(stmt: string) {
    var f := FirstStatement(stmt);
    f.Some? && f.value.behind.Some? ==> AllSpace(f.value.behind.value)
  }

  lemma {:induction false} StartsWithC(stmt: string)
    requires FirstStatement(stmt).Some? && SkipRe(stmt) != "" && D1Scan.IsIdent(SkipRe(stmt)[0])
    ensures EntryStatement(stmt) != []
    decreases |stmt|
  {
    hide Span, Until, CommentEnd;
    if ReSpace(stmt[0]) {
      StartsWithC(stmt[1..]);
      assert Next(stmt) == Some(Lexed(Gap, stmt[1..]));
    } else {
      assert Next(stmt) == Some(Lexed(Plain(stmt[0]), stmt[1..]));
    }
  }

  lemma CreateStarts(stmt: string, kind: string)
    requires IsCreate(stmt, kind)
    ensures SkipRe(stmt) != "" && D1Scan.IsIdent(SkipRe(stmt)[0])
  {
    assert D1Scan.Upper(SkipRe(stmt)[..6])[0] == 'C';
  }

  /** An accepted entry that is not a trigger comes out as exactly one statement if, and only if,
      its trailing white space is ASCII, and as two otherwise. TrimSpace also passes spaces an SQL lexer does not skip. */
  lemma EntryIsOneStatement(stmt: string)
    requires IsCreate(stmt, "TABLE") || IsCreate(stmt, "INDEX") || IsCreate(stmt, "VIEW")
    requires D1Scan.IsSingle(stmt)
    ensures Lex(stmt).Some? && EntryStatement(stmt) != []
    ensures Statements(EntryTokens(stmt), []) == [EntryStatement(stmt)] <==> AsciiTail(stmt)
    ensures |Statements(EntryTokens(stmt), [])| == if AsciiTail(stmt) then 1 else 2
  {
    hide Lex, FirstStatement, IsCreate, Plains, SkipRe;
    if IsCreate(stmt, "TABLE") {
      CreateStarts(stmt, "TABLE");
    } else if IsCreate(stmt, "INDEX") {
      CreateStarts(stmt, "INDEX");
    } else {
      CreateStarts(stmt, "VIEW");
    }
    StartsWithC(stmt);
    FirstAndRest(stmt);
    var f := FirstStatement(stmt).value;
    if f.behind.None? {
      HeadOnly(f.tokens);
    } else {
      BlankTokens(f.behind.value);
      HeadThenRest(f.tokens, Plains(f.behind.value));
    }
  }

  lemma GapOnly()
    ensures Statements([Gap], []) == []
  {
  }

  lemma HeadOnly(head: seq<Token>)
    requires NoSemi(head) && Trimmed(head) != []
    ensures Statements(head + [Semi, Gap], []) == [Trimmed(head)]
  {
    hide Statements, Trimmed;
    OneStatement(head, [Gap], []);
    GapOnly();
    assert head + [Semi] + [Gap] == head + [Semi, Gap];
    assert [] + Trimmed(head) == Trimmed(head) && [Trimmed(head)] + [] == [Trimmed(head)];
  }

  lemma HeadThenRest(head: seq<Token>, rest: seq<Token>)
    requires NoSemi(head) && NoSemi(rest) && Trimmed(head) != []
    ensures Statements(head + [Semi] + rest + [Semi, Gap], []) == [Trimmed(head)] + Finish(Trimmed(rest))
  {
    hide Statements, Trimmed;
    var more := rest + [Semi, Gap];
    OneStatement(head, more, []);
    OneStatement(rest, [Gap], []);
    GapOnly();
    assert rest + [Semi] + [Gap] == more;
    assert head + [Semi] + rest + [Semi, Gap] == head + [Semi] + more;
    assert [] + Trimmed(head) == Trimmed(head) && [] + Trimmed(rest) == Trimmed(rest);
    assert Finish(Trimmed(rest)) + [] == Finish(Trimmed(rest));
  }

  lemma {:induction false} FirstSimple(p: string, t: string)
    requires AllSimple(p)
    ensures FirstStatement(p + ";" + t) == Some(Head(Plains(p), Some(t)))
    decreases |p|
  {
    hide Span, Until, CommentEnd, Plains;
    var s := p + ";" + t;
    if p == "" {
      assert s == ";" + t;
      assert s[0] == ';' && s[1..] == t;
      NoPlains();
      assert Next(s) == Some(Lexed(Semi, t));
    } else {
      FirstSimple(p[1..], t);
      PlainsCons(p);
      assert s[0] == p[0] && s[1..] == p[1..] + ";" + t;
      assert Next(s) == Some(Lexed(PlainToken(p[0]), p[1..] + ";" + t));
    }
  }

  lemma SkipOne(rest: string)
    requires rest != "" && !ReSpace(rest[0])
    ensures SkipRe(rest) == rest && SkipRe(" " + rest) == rest
  {
    assert (" " + rest)[1..] == rest;
  }

  lemma CreateTableText(body: string)
    ensures IsCreate("CREATE" + (" " + ("TABLE" + (" " + body))), "TABLE")
  {
    hide SkipRe;
    var v := "TABLE" + (" " + body);
    var s := "CREATE" + (" " + v);
    SkipOne(v);
    SkipOne(s);
    assert s[..6] == "CREATE" && s[6..] == " " + v && v[..5] == "TABLE" && v[5] == ' ';
    assert D1Scan.Upper("CREATE") == "CREATE" && D1Scan.Upper("TABLE") == "TABLE";
  }

  /** For instance a non-breaking space: the entry is accepted and comes out as two statements. */
  lemma NonAsciiTailIsAStatement(stmt: string)
    requires stmt == "CREATE TABLE t(x)" + ";" + [0xA0 as char]
    ensures IsCreate(stmt, "TABLE") && D1Scan.IsSingle(stmt)
    ensures Statements(EntryTokens(stmt), []) != [EntryStatement(stmt)]
  {
    hide Lex, SkipRe, IsCreate, Statements, FirstStatement;
    var tail := [0xA0 as char];
    FirstSimple("CREATE TABLE t(x)", tail);
    assert D1Scan.Blank(tail) && !IsSpace(tail[0]);
    CreateTableText("t(x)" + ";" + tail);
    assert stmt == "CREATE" + (" " + ("TABLE" + (" " + ("t(x)" + ";" + tail))));
    EntryIsOneStatement(stmt);
  }

  // ---- Rows as pieces ----

  /** The tokens of one closed INSERT for each batch. */
  function BatchesTokens(table: string, columns: seq<string>, batches: seq<seq<seq<Cell>>>): seq<Token> {
    if batches == [] then []
    else BatchesTokens(table, columns, batches[..|batches| - 1]) + (InsertTokens(table, columns, batches[|batches| - 1]) + [Semi, Gap])
  }

  function BatchesStatements(table: string, columns: seq<string>, batches: seq<seq<seq<Cell>>>): (r: seq<seq<Token>>)
    ensures |r| == |batches| && forall i :: 0 <= i < |batches| ==> r[i] == InsertTokens(table, columns, batches[i])
  {
    seq(|batches|, i requires 0 <= i < |batches| => InsertTokens(table, columns, batches[i]))
  }

  lemma SimpleIsWhole(text: string)
    requires AllSimple(text) && text != "" && text[0] != '*' && !IsSpace(text[0])
    ensures Whole(text + ";\n", Plains(text) + [Semi, Gap])
    ensures Statements(Plains(text) + [Semi, Gap], []) == [Plains(text)]
  {
    hide Lex, Statements;
    SimpleLexes(text, ";\n");
    EndLexes("");
    LexEmpty();
    assert ";\n" + "" == ";\n" && [Semi, Gap] + [] == [Semi, Gap];
    OneClosed(Plains(text));
  }

  lemma InsertIsWhole(table: string, columns: seq<string>, batch: seq<seq<Cell>>)
    requires columns != [] && batch != [] && AllRenderable(|columns|, batch)
    ensures Whole(InsertText(table, columns, batch), InsertTokens(table, columns, batch) + [Semi, Gap])
    ensures Statements(InsertTokens(table, columns, batch) + [Semi, Gap], []) == [InsertTokens(table, columns, batch)]
  {
    hide Lex, RowsText, Renderable, InsertTokens, Statements, NoSemi, InQuotes, NamesText;
    var ts := InsertTokens(table, columns, batch) + [Semi, Gap];
    InsertLexes(table, columns, batch, "");
    LexEmpty();
    assert HeadText(table, columns) + RowsText(batch) + "" == InsertText(table, columns, batch) && ts + [] == ts;
    InsertNoSemi(table, columns, batch);
    OneClosed(InsertTokens(table, columns, batch));
  }

  lemma NothingIsWhole()
    ensures Whole("", []) && Statements([], []) == []
  {
  }

  lemma {:induction false} InsertsAreWhole(table: string, columns: seq<string>, batches: seq<seq<seq<Cell>>>)
    requires columns != [] && forall i :: 0 <= i < |batches| ==> batches[i] != [] && AllRenderable(|columns|, batches[i])
    ensures Whole(InsertsText(table, columns, batches), BatchesTokens(table, columns, batches))
    ensures Statements(BatchesTokens(table, columns, batches), []) == BatchesStatements(table, columns, batches)
    decreases |batches|
  {
    hide Whole, InsertText, AllRenderable, InsertTokens, Statements;
    if batches == [] {
      NothingIsWhole();
    } else {
      var n := |batches| - 1;
      InsertsAreWhole(table, columns, batches[..n]);
      InsertIsWhole(table, columns, batches[n]);
      WholeJoin(InsertsText(table, columns, batches[..n]), BatchesTokens(table, columns, batches[..n]),
                InsertText(table, columns, batches[n]), InsertTokens(table, columns, batches[n]) + [Semi, Gap]);
      assert BatchesStatements(table, columns, batches) == BatchesStatements(table, columns, batches[..n]) + [InsertTokens(table, columns, batches[n])];
    }
  }

  /** Putting one piece behind another joins their tokens and their statements. */
  lemma WholeJoin(a: string, ta: seq<Token>, b: string, tb: seq<Token>)
    requires Whole(a, ta) && Whole(b, tb)
    ensures Whole(a + b, ta + tb) && Statements(ta + tb, []) == Statements(ta, []) + Statements(tb, [])
  {
    hide Lex, Statements;
    WholeAppend(a, ta, b, tb);
    StatementsJoin(ta, tb);
  }

  function TableRowsTokens(t: Table): seq<Token> {
    if t.rows == [] then []
    else Plains("BEGIN TRANSACTION") + [Semi, Gap] + BatchesTokens(t.name, t.columns, Batches(t.rows)) + (Plains("COMMIT") + [Semi, Gap])
  }

  /** A transaction around one INSERT per batch, or nothing. */
  function TableRowsStatements(t: Table): seq<seq<Token>> {
    if t.rows == [] then []
    else [Plains("BEGIN TRANSACTION")] + BatchesStatements(t.name, t.columns, Batches(t.rows)) + [Plains("COMMIT")]
  }

  lemma TableRowsAreWhole(t: Table)
    requires RowsOk(t)
    ensures Whole(TableRowsText(t), TableRowsTokens(t)) && Statements(TableRowsTokens(t), []) == TableRowsStatements(t)
  {
    hide Whole, InsertsText, BatchesTokens, Statements, Plains, AllRenderable, Batches;
    if t.rows == [] {
      NothingIsWhole();
    } else {
      BatchesRenderable(|t.columns|, t.rows);
      var batches := Batches(t.rows);
      InsertsAreWhole(t.name, t.columns, batches);
      SimpleIsWhole("BEGIN TRANSACTION");
      SimpleIsWhole("COMMIT");
      assert BEGIN == "BEGIN TRANSACTION" + ";\n" && COMMIT == "COMMIT" + ";\n";
      var begin, commit := Plains("BEGIN TRANSACTION") + [Semi, Gap], Plains("COMMIT") + [Semi, Gap];
      WholeJoin(BEGIN, begin, InsertsText(t.name, t.columns, batches), BatchesTokens(t.name, t.columns, batches));
      WholeJoin(BEGIN + InsertsText(t.name, t.columns, batches), begin + BatchesTokens(t.name, t.columns, batches), COMMIT, commit);
    }
  }

  /** Row k of a batch's statement reads back as the cells it was rendered from. */
  lemma BatchesRead(t: Table, i: nat)
    requires RowsOk(t) && i < |Batches(t.rows)|
    ensures ReadInsert(BatchesStatements(t.name, t.columns, Batches(t.rows))[i]) ==
            Some(Insert(t.name, t.columns, AllValues(Batches(t.rows)[i])))
  {
    hide ReadInsert, InsertTokens, Batches, AllRenderable;
    BatchesHoldRows(t.rows);
    if t.rows != [] {
      BatchesRenderable(|t.columns|, t.rows);
      InsertReads(t.name, t.columns, Batches(t.rows)[i]);
    }
  }

  // ---- Whole bodies ----

  function DdlTokens(tables: seq<Table>): seq<Token> {
    if tables == [] then [] else DdlTokens(tables[..|tables| - 1]) + EntryTokens(tables[|tables| - 1].sql)
  }

  function LoadTokens(tables: seq<Table>): seq<Token> {
    if tables == [] then [] else LoadTokens(tables[..|tables| - 1]) + TableRowsTokens(tables[|tables| - 1])
  }

  function SchemaTokens(entries: seq<string>): seq<Token> {
    if entries == [] then [] else SchemaTokens(entries[..|entries| - 1]) + EntryTokens(entries[|entries| - 1])
  }

  function DdlStatements(tables: seq<Table>): seq<seq<Token>> {
    if tables == [] then [] else DdlStatements(tables[..|tables| - 1]) + [EntryStatement(tables[|tables| - 1].sql)]
  }

  function LoadStatements(tables: seq<Table>): seq<seq<Token>> {
    if tables == [] then [] else LoadStatements(tables[..|tables| - 1]) + TableRowsStatements(tables[|tables| - 1])
  }

  function SchemaStatements(entries: seq<string>): seq<seq<Token>> {
    if entries == [] then [] else SchemaStatements(entries[..|entries| - 1]) + [EntryStatement(entries[|entries| - 1])]
  }

  predicate NoTriggers(entries: seq<string>) { forall i :: 0 <= i < |entries| ==> !IsCreate(entries[i], "TRIGGER") }

  /** Nothing but ASCII white space behind any entry. */
  predicate AsciiTails(tables: seq<Table>, entries: seq<string>) { AsciiDdl(tables) && AsciiSchema(entries) }

  predicate TablesOk(tables: seq<Table>) { forall i :: 0 <= i < |tables| ==> TableDdlOk(tables[i]) }

  predicate LoadsOk(tables: seq<Table>) { forall i :: 0 <= i < |tables| ==> RowsOk(tables[i]) }

  predicate EntriesOk(entries: seq<string>) {
    forall i :: 0 <= i < |entries| ==> IsSchema(entries[i]) && Lex(entries[i]).Some?
  }

  /** Entries that are not triggers are single statements. */
  predicate EntriesSingle(entries: seq<string>) {
    forall i :: 0 <= i < |entries| ==> IsSchema(entries[i]) && (!IsCreate(entries[i], "TRIGGER") ==> D1Scan.IsSingle(entries[i]))
  }

  method WriteCreateTable(buf: string, t: Table) returns (r: Option<string>)
    ensures r.Some? <==> TableDdlOk(t)
    ensures r.Some? ==> r.value == buf + (t.sql + ";\n")
  {
    if t.name == "" {
      return None;
    }
    if !IsCreate(t.sql, "TABLE") {
      return None;
    }
    var single := D1Scan.RequireSingleStatement(t.sql, false);
    if !single {
      return None;
    }
    r := Some(buf + t.sql + ";\n");
    assert buf + t.sql + ";\n" == buf + (t.sql + ";\n");
  }

  /** Phase 1: every table's DDL. */
  method WriteTables(buf: string, ghost ts: seq<Token>, tables: seq<Table>) returns (r: Option<string>)
    requires Whole(buf, ts)
    ensures r.Some? <==> TablesOk(tables)
    ensures r.Some? ==> Whole(r.value, ts + DdlTokens(tables))
  {
    hide Whole, EntryTokens, TableDdlOk;
    var out := buf;
    assert ts + [] == ts;
    for i := 0 to |tables|
      invariant forall j :: 0 <= j < i ==> TableDdlOk(tables[j])
      invariant Whole(out, ts + DdlTokens(tables[..i]))
    {
      assert tables[..i + 1][..i] == tables[..i];
      var next := WriteCreateTable(out, tables[i]);
      if next.None? {
        return None;
      }
      TableEntryWhole(tables[i]);
      WholeAppend(out, ts + DdlTokens(tables[..i]), tables[i].sql + ";\n", EntryTokens(tables[i].sql));
      assert ts + DdlTokens(tables[..i]) + EntryTokens(tables[i].sql) == ts + DdlTokens(tables[..i + 1]);
      out := next.value;
    }
    assert tables[..|tables|] == tables;
    r := Some(out);
  }

  lemma TableEntryWhole(t: Table)
    requires TableDdlOk(t)
    ensures Whole(t.sql + ";\n", EntryTokens(t.sql))
  {
    hide IsCreate, EntryTokens;
    EntryIsOneStatement(t.sql);
    EntryIsWhole(t.sql);
  }

  /** Phase 2: each table's rows. */
  method WriteLoads(buf: string, ghost ts: seq<Token>, tables: seq<Table>) returns (r: Option<string>)
    requires Whole(buf, ts)
    ensures r.Some? <==> LoadsOk(tables)
    ensures r.Some? ==> Whole(r.value, ts + LoadTokens(tables))
  {
    hide Whole, TableRowsTokens, TableRowsText, RowsOk;
    var out := buf;
    assert ts + [] == ts;
    for i := 0 to |tables|
      invariant forall j :: 0 <= j < i ==> RowsOk(tables[j])
      invariant Whole(out, ts + LoadTokens(tables[..i]))
    {
      assert tables[..i + 1][..i] == tables[..i];
      var ins := WriteInserts(tables[i]);
      if ins.None? {
        return None;
      }
      TableRowsAreWhole(tables[i]);
      WholeAppend(out, ts + LoadTokens(tables[..i]), ins.value, TableRowsTokens(tables[i]));
      assert ts + LoadTokens(tables[..i]) + TableRowsTokens(tables[i]) == ts + LoadTokens(tables[..i + 1]);
      out := out + ins.value;
    }
    assert tables[..|tables|] == tables;
    r := Some(out);
  }

  /** Phase 3: indexes, triggers and views. */
  method WriteSchema(buf: string, ghost ts: seq<Token>, entries: seq<string>) returns (r: Option<string>)
    requires Whole(buf, ts)
    ensures r.Some? ==> EntriesOk(entries) && EntriesSingle(entries)
    ensures r.Some? <== EntriesSingle(entries) && NoTriggers(entries)
    ensures r.Some? ==> Whole(r.value, ts + SchemaTokens(entries))
  {
    hide Whole, EntryTokens, IsCreate, Lex;
    var out := buf;
    assert ts + [] == ts;
    for i := 0 to |entries|
      invariant forall j :: 0 <= j < i ==> IsSchema(entries[j]) && Lex(entries[j]).Some?
                                           && (!IsCreate(entries[j], "TRIGGER") ==> D1Scan.IsSingle(entries[j]))
      invariant Whole(out, ts + SchemaTokens(entries[..i]))
    {
      var stmt := entries[i];
      assert entries[..i + 1][..i] == entries[..i];
      if !IsSchema(stmt) {
        return None;
      }
      var single := D1Scan.RequireSingleStatement(stmt, IsCreate(stmt, "TRIGGER"));
      if !single {
        return None;
      }
      EntryIsWhole(stmt);
      WholeAppend(out, ts + SchemaTokens(entries[..i]), stmt + ";\n", EntryTokens(stmt));
      assert ts + SchemaTokens(entries[..i]) + EntryTokens(stmt) == ts + SchemaTokens(entries[..i + 1]);
      assert out + stmt + ";\n" == out + (stmt + ";\n");
      out := out + stmt + ";\n";
    }
    assert entries[..|entries|] == entries;
    r := Some(out);
  }

  // ---- Statements of whole bodies ----

  predicate AsciiDdl(tables: seq<Table>) { forall i :: 0 <= i < |tables| ==> AsciiTail(tables[i].sql) }

  predicate AsciiSchema(entries: seq<string>) { forall i :: 0 <= i < |entries| ==> AsciiTail(entries[i]) }

  /** No list of statements is shorter than the intended one, and one of its length is it. */
  predicate Exactly(found: seq<seq<Token>>, intended: seq<seq<Token>>, ascii: bool) {
    && |found| >= |intended| && (ascii ==> found == intended) && (!ascii ==> |found| > |intended|)
  }

  lemma DdlAscii(tables: seq<Table>, n: nat)
    requires |tables| == n + 1
    ensures AsciiDdl(tables) <==> AsciiDdl(tables[..n]) && AsciiTail(tables[n].sql)
  {
    hide AsciiTail;
    assert tables == tables[..n] + [tables[n]];
  }

  lemma SchemaAscii(entries: seq<string>, n: nat)
    requires |entries| == n + 1
    ensures AsciiSchema(entries) <==> AsciiSchema(entries[..n]) && AsciiTail(entries[n])
  {
    hide AsciiTail;
    assert entries == entries[..n] + [entries[n]];
  }

  lemma {:induction false} DdlAreStatements(tables: seq<Table>)
    requires TablesOk(tables)
    ensures Ends(DdlTokens(tables)) && Exactly(Statements(DdlTokens(tables), []), DdlStatements(tables), AsciiDdl(tables))
    decreases |tables|
  {
    hide EntryTokens, Statements, IsCreate, EntryStatement, AsciiTail, AsciiDdl;
    if tables == [] {
      NothingIsWhole();
      assert AsciiDdl([]) by { NoTails(); }
    } else {
      var n := |tables| - 1;
      DdlAreStatements(tables[..n]);
      DdlAscii(tables, n);
      EntryIsOneStatement(tables[n].sql);
      StatementsJoin(DdlTokens(tables[..n]), EntryTokens(tables[n].sql));
      EntryEnds(DdlTokens(tables[..n]), tables[n].sql);
    }
  }

  lemma NoTails()
    ensures AsciiDdl([]) && AsciiSchema([])
  {
  }

  lemma EntryEnds(ts: seq<Token>, stmt: string)
    ensures Ends(ts + EntryTokens(stmt))
  {
    hide Lex;
  }

  lemma {:induction false} SchemaAreStatements(entries: seq<string>)
    requires EntriesSingle(entries) && NoTriggers(entries)
    ensures Ends(SchemaTokens(entries)) && Exactly(Statements(SchemaTokens(entries), []), SchemaStatements(entries), AsciiSchema(entries))
    decreases |entries|
  {
    hide EntryTokens, Statements, IsCreate, EntryStatement, AsciiTail, AsciiSchema;
    if entries == [] {
      NothingIsWhole();
      assert AsciiSchema([]) by { NoTails(); }
    } else {
      var n := |entries| - 1;
      SchemaAreStatements(entries[..n]);
      SchemaAscii(entries, n);
      EntryIsOneStatement(entries[n]);
      StatementsJoin(SchemaTokens(entries[..n]), EntryTokens(entries[n]));
      EntryEnds(SchemaTokens(entries[..n]), entries[n]);
    }
  }

  lemma {:induction false} LoadsAreStatements(tables: seq<Table>)
    requires LoadsOk(tables)
    ensures Ends(LoadTokens(tables)) && Statements(LoadTokens(tables), []) == LoadStatements(tables)
    decreases |tables|
  {
    hide TableRowsTokens, TableRowsStatements, Statements, TableRowsText, RowsOk, Lex;
    if tables == [] {
      NothingIsWhole();
    } else {
      var n := |tables| - 1;
      LoadsAreStatements(tables[..n]);
      TableRowsAreWhole(tables[n]);
      StatementsJoin(LoadTokens(tables[..n]), TableRowsTokens(tables[n]));
      if TableRowsTokens(tables[n]) == [] {
        assert LoadTokens(tables) == LoadTokens(tables[..n]);
      }
    }
  }

  /** A whole-database body. No span of an entry ever reaches into the next one: the output's
      tokens are the entries' and the rows' own tokens, one after another. Without triggers it is
      exactly one statement for each table, the transactions with their INSERTs, and one statement
      for each schema entry, if and only if the white space behind the entries is ASCII. */
  method TranscodeFull(tables: seq<Table>, schema: seq<string>) returns (r: Option<string>)
    ensures r.Some? ==> TablesOk(tables) && LoadsOk(tables) && EntriesOk(schema) && EntriesSingle(schema)
    ensures TablesOk(tables) && LoadsOk(tables) && EntriesSingle(schema) && NoTriggers(schema) ==> r.Some?
    ensures r.Some? ==> Lex(r.value) == Some(DdlTokens(tables) + LoadTokens(tables) + SchemaTokens(schema))
    ensures r.Some? && NoTriggers(schema) ==>
              (StatementsOf(r.value) == Some(DdlStatements(tables) + LoadStatements(tables) + SchemaStatements(schema))
               <==> AsciiTails(tables, schema))
  {
    hide TablesOk, LoadsOk, EntriesOk, EntriesSingle, Statements, DdlTokens, LoadTokens, SchemaTokens, Lex, IsCreate, AsciiDdl, AsciiSchema;
    NothingIsWhole();
    var out := WriteTables("", [], tables);
    if out.None? {
      return None;
    }
    assert [] + DdlTokens(tables) == DdlTokens(tables);
    out := WriteLoads(out.value, DdlTokens(tables), tables);
    if out.None? {
      return None;
    }
    r := WriteSchema(out.value, DdlTokens(tables) + LoadTokens(tables), schema);
    if r.Some? && NoTriggers(schema) {
      DdlAreStatements(tables);
      LoadsAreStatements(tables);
      SchemaAreStatements(schema);
      StatementsJoin(DdlTokens(tables), LoadTokens(tables));
      JoinEnds(DdlTokens(tables), LoadTokens(tables));
      StatementsJoin(DdlTokens(tables) + LoadTokens(tables), SchemaTokens(schema));
    }
  }

  lemma JoinEnds(a: seq<Token>, b: seq<Token>)
    requires Ends(a) && Ends(b)
    ensures Ends(a + b)
  {
    if b == [] {
      assert a + b == a;
    }
  }
}
