/** One table's rows as INSERT statements: the text of a statement, the tokens an SQL lexer finds
    in it, and reading the rows back out of those tokens. */
module D1Inserts {
  import opened Common
  import opened D1Lexer
  import opened D1Literals

  const BATCH: nat := 256

  // ---- The text ----

  predicate Renderable(row: seq<Cell>) { forall j :: 0 <= j < |row| ==> Literal(row[j]).Some? }

  predicate AllRenderable(width: nat, rows: seq<seq<Cell>>) {
    forall i :: 0 <= i < |rows| ==> |rows[i]| == width && Renderable(rows[i])
  }

  function NamesText(columns: seq<string>): string {
    if columns == [] then ""
    else if |columns| == 1 then QuoteIdent(columns[0])
    else QuoteIdent(columns[0]) + ", " + NamesText(columns[1..])
  }

  function CellsText(row: seq<Cell>): string
    requires Renderable(row)
  {
    if row == [] then ""
    else if |row| == 1 then Literal(row[0]).value
    else Literal(row[0]).value + ", " + CellsText(row[1..])
  }

  function RowText(row: seq<Cell>): string
    requires Renderable(row)
  {
    "(" + CellsText(row) + ")"
  }

  function RowsText(rows: seq<seq<Cell>>): string
    requires rows != [] && forall i :: 0 <= i < |rows| ==> Renderable(rows[i])
  {
    if |rows| == 1 then RowText(rows[0]) + ";\n" else RowText(rows[0]) + ",\n" + RowsText(rows[1..])
  }

  function HeadText(table: string, columns: seq<string>): string {
    "INSERT INTO " + QuoteIdent(table) + " (" + NamesText(columns) + ") VALUES\n"
  }

  // ---- Its tokens ----

  function NamesTokens(columns: seq<string>): seq<Token> {
    if columns == [] then []
    else if |columns| == 1 then [Quoted('"', columns[0])]
    else [Quoted('"', columns[0]), Plain(','), Gap] + NamesTokens(columns[1..])
  }

  function CellsTokens(row: seq<Cell>): seq<Token> {
    if row == [] then []
    else if |row| == 1 then LiteralTokens(row[0])
    else LiteralTokens(row[0]) + [Plain(','), Gap] + CellsTokens(row[1..])
  }

  function RowTokens(row: seq<Cell>): seq<Token> { [Plain('(')] + CellsTokens(row) + [Plain(')')] }

  function RowsTokens(rows: seq<seq<Cell>>): seq<Token> {
    if rows == [] then []
    else if |rows| == 1 then RowTokens(rows[0])
    else RowTokens(rows[0]) + [Plain(','), Gap] + RowsTokens(rows[1..])
  }

  function InsertTokens(table: string, columns: seq<string>, rows: seq<seq<Cell>>): seq<Token> {
    Plains("INSERT INTO ") + ([Quoted('"', table)] + (Plains(" (") + (NamesTokens(columns) + (Plains(") VALUES\n") + RowsTokens(rows)))))
  }

  lemma CatCat(a: seq<Token>, b: seq<Token>, o: Option<seq<Token>>)
    ensures Cat(a, Cat(b, o)) == Cat(a + b, o)
  {
    if o.Some? {
      assert a + (b + o.value) == a + b + o.value;
    }
  }

  lemma CommaLexes(s: string, t: string)
    requires s == ", " || s == ",\n"
    ensures Lex(s + t) == Cat([Plain(','), Gap], Lex(t))
  {
    hide Lex;
    SimpleLexes(s, t);
    assert Plains(s) == [Plain(','), Gap];
  }

  lemma {:induction false} NamesLex(columns: seq<string>, t: string)
    requires columns != [] && t != "" && t[0] == ')'
    ensures Lex(NamesText(columns) + t) == Cat(NamesTokens(columns), Lex(t))
  {
    hide Lex, InQuotes;
    var c := columns[0];
    if |columns| == 1 {
      QuotedLexes(c, '"', t);
    } else {
      var u := NamesText(columns[1..]) + t;
      NamesLex(columns[1..], t);
      CommaLexes(", ", u);
      QuotedLexes(c, '"', ", " + u);
      assert NamesText(columns) + t == QuoteIdent(c) + (", " + u);
      CatCat([Plain(','), Gap], NamesTokens(columns[1..]), Lex(t));
      CatCat([Quoted('"', c)], [Plain(','), Gap] + NamesTokens(columns[1..]), Lex(t));
      assert [Quoted('"', c)] + ([Plain(','), Gap] + NamesTokens(columns[1..])) == NamesTokens(columns);
    }
  }

  lemma {:induction false} CellsLex(row: seq<Cell>, t: string)
    requires Renderable(row) && row != [] && t != "" && t[0] == ')'
    ensures Lex(CellsText(row) + t) == Cat(CellsTokens(row), Lex(t))
  {
    hide Lex, Literal, LiteralTokens;
    var c := row[0];
    if |row| == 1 {
      LiteralReads(c, t);
    } else {
      var u := CellsText(row[1..]) + t;
      CellsLex(row[1..], t);
      CommaLexes(", ", u);
      LiteralReads(c, ", " + u);
      assert CellsText(row) + t == Literal(c).value + (", " + u);
      CatCat([Plain(','), Gap], CellsTokens(row[1..]), Lex(t));
      CatCat(LiteralTokens(c), [Plain(','), Gap] + CellsTokens(row[1..]), Lex(t));
      assert LiteralTokens(c) + ([Plain(','), Gap] + CellsTokens(row[1..])) == CellsTokens(row);
    }
  }

  lemma RowLex(row: seq<Cell>, t: string)
    requires Renderable(row) && row != []
    ensures Lex(RowText(row) + t) == Cat(RowTokens(row), Lex(t))
  {
    hide Lex, CellsText, CellsTokens, Plains;
    var u := ")" + t;
    CellsLex(row, u);
    SimpleLexes(")", t);
    SimpleLexes("(", CellsText(row) + u);
    OneChar('(');
    OneChar(')');
    assert RowText(row) + t == "(" + (CellsText(row) + u);
    CatCat(CellsTokens(row), [Plain(')')], Lex(t));
    CatCat([Plain('(')], CellsTokens(row) + [Plain(')')], Lex(t));
    assert [Plain('(')] + (CellsTokens(row) + [Plain(')')]) == RowTokens(row);
  }

  lemma OneChar(c: char)
    requires !IsSpace(c)
    ensures Plains([c]) == [Plain(c)]
  {
  }

  lemma {:induction false} RowsLex(rows: seq<seq<Cell>>, t: string)
    requires rows != [] && forall i :: 0 <= i < |rows| ==> Renderable(rows[i]) && rows[i] != []
    ensures Lex(RowsText(rows) + t) == Cat(RowsTokens(rows) + [Semi, Gap], Lex(t))
  {
    hide Lex, RowText, RowTokens, Renderable;
    var row := rows[0];
    if |rows| == 1 {
      EndLexes(t);
      RowLex(row, ";\n" + t);
      assert RowsText(rows) + t == RowText(row) + (";\n" + t);
      CatCat(RowTokens(row), [Semi, Gap], Lex(t));
    } else {
      var u := RowsText(rows[1..]) + t;
      RowsLex(rows[1..], t);
      CommaLexes(",\n", u);
      RowLex(row, ",\n" + u);
      assert RowsText(rows) + t == RowText(row) + (",\n" + u);
      var more := RowsTokens(rows[1..]) + [Semi, Gap];
      CatCat([Plain(','), Gap], more, Lex(t));
      CatCat(RowTokens(row), [Plain(','), Gap] + more, Lex(t));
      assert RowTokens(row) + ([Plain(','), Gap] + more) == RowsTokens(rows) + [Semi, Gap];
    }
  }

  lemma EndLexes(t: string)
    ensures Lex(";\n" + t) == Cat([Semi, Gap], Lex(t))
  {
    hide Span, Until, CommentEnd;
    var s := ";\n" + t;
    assert s[0] == ';' && s[1..] == "\n" + t;
    assert ("\n" + t)[0] == '\n' && ("\n" + t)[1..] == t;
    if Lex(t).Some? {
      assert [Semi] + ([Gap] + Lex(t).value) == [Semi, Gap] + Lex(t).value;
    }
  }

  /** An INSERT's text lexes to its tokens and the end of the statement. */
  lemma InsertLexes(table: string, columns: seq<string>, rows: seq<seq<Cell>>, t: string)
    requires columns != [] && rows != [] && AllRenderable(|columns|, rows)
    ensures Lex(HeadText(table, columns) + RowsText(rows) + t) == Cat(InsertTokens(table, columns, rows) + [Semi, Gap], Lex(t))
  {
    hide Lex, InQuotes, NamesText, NamesTokens, RowsText, RowsTokens, Plains, Renderable;
    var end := RowsTokens(rows) + [Semi, Gap];
    var a := RowsText(rows) + t;
    RowsLex(rows, t);
    var b := ") VALUES\n" + a;
    SimpleLexes(") VALUES\n", a);
    CatCat(Plains(") VALUES\n"), end, Lex(t));
    var c := NamesText(columns) + b;
    NamesLex(columns, b);
    CatCat(NamesTokens(columns), Plains(") VALUES\n") + end, Lex(t));
    var d := " (" + c;
    SimpleLexes(" (", c);
    CatCat(Plains(" ("), NamesTokens(columns) + (Plains(") VALUES\n") + end), Lex(t));
    var e := QuoteIdent(table) + d;
    QuotedLexes(table, '"', d);
    CatCat([Quoted('"', table)], Plains(" (") + (NamesTokens(columns) + (Plains(") VALUES\n") + end)), Lex(t));
    SimpleLexes("INSERT INTO ", e);
    CatCat(Plains("INSERT INTO "), [Quoted('"', table)] + (Plains(" (") + (NamesTokens(columns) + (Plains(") VALUES\n") + end))), Lex(t));
    TextRegroups(table, columns, rows, t);
    TokensRegroup(table, columns, rows);
  }

  lemma TextRegroups(table: string, columns: seq<string>, rows: seq<seq<Cell>>, t: string)
    requires rows != [] && AllRenderable(|columns|, rows)
    ensures HeadText(table, columns) + RowsText(rows) + t ==
            "INSERT INTO " + (QuoteIdent(table) + (" (" + (NamesText(columns) + (") VALUES\n" + (RowsText(rows) + t)))))
  {
    hide InQuotes, NamesText, RowsText, Renderable;
  }

  lemma TokensRegroup(table: string, columns: seq<string>, rows: seq<seq<Cell>>)
    ensures InsertTokens(table, columns, rows) + [Semi, Gap] ==
            Plains("INSERT INTO ") + ([Quoted('"', table)] + (Plains(" (") + (NamesTokens(columns) +
            (Plains(") VALUES\n") + (RowsTokens(rows) + [Semi, Gap])))))
  {
    hide Plains, NamesTokens, RowsTokens;
  }

  // ---- Reading an INSERT ----

  datatype Insert = Insert(table: string, columns: seq<string>, rows: seq<seq<SqlValue>>)

  function CellEnd(ts: seq<Token>): (n: nat)
    ensures n <= |ts|
  {
    if ts == [] || ts[0] == Plain(',') || ts[0] == Plain(')') then 0 else 1 + CellEnd(ts[1..])
  }

  function ReadCells(ts: seq<Token>): (r: Option<(seq<SqlValue>, seq<Token>)>)
    ensures r.Some? ==> |r.value.1| < |ts|
    decreases |ts|
  {
    var n := CellEnd(ts);
    if n == |ts| then None
    else if ts[n] == Plain(')') then Some(([ValueOf(ts[..n])], ts[n + 1..]))
    else if n + 1 < |ts| && ts[n + 1] == Gap then
      var more := ReadCells(ts[n + 2..]);
      if more.None? then None else Some(([ValueOf(ts[..n])] + more.value.0, more.value.1))
    else None
  }

  function ReadRows(ts: seq<Token>): Option<seq<seq<SqlValue>>>
    decreases |ts|
  {
    if ts == [] || ts[0] != Plain('(') then None
    else
      var row := ReadCells(ts[1..]);
      if row.None? then None
      else if row.value.1 == [] then Some([row.value.0])
      else if [Plain(','), Gap] <= row.value.1 then
        var more := ReadRows(row.value.1[2..]);
        if more.None? then None else Some([row.value.0] + more.value)
      else None
  }

  function ReadNames(ts: seq<Token>): (r: Option<(seq<string>, seq<Token>)>)
    decreases |ts|
  {
    if ts == [] || !ts[0].Quoted? || ts[0].q != '"' then None
    else if |ts| > 1 && ts[1] == Plain(')') then Some(([ts[0].text], ts[1..]))
    else if [Plain(','), Gap] <= ts[1..] then
      var more := ReadNames(ts[3..]);
      if more.None? then None else Some(([ts[0].text] + more.value.0, more.value.1))
    else None
  }

  function Without(ts: seq<Token>, prefix: seq<Token>): Option<seq<Token>> {
    if prefix <= ts then Some(ts[|prefix|..]) else None
  }

  /** A column-named, multi-row INSERT of literal values. */
  function ReadInsert(ts: seq<Token>): Option<Insert> {
    var a := Without(ts, Plains("INSERT INTO "));
    if a.None? || a.value == [] || !a.value[0].Quoted? || a.value[0].q != '"' then None
    else
      var b := Without(a.value[1..], Plains(" ("));
      if b.None? then None
      else
        var names := ReadNames(b.value);
        if names.None? then None
        else
          var c := Without(names.value.1, Plains(") VALUES\n"));
          if c.None? then None
          else
            var rows := ReadRows(c.value);
            if rows.None? then None else Some(Insert(a.value[0].text, names.value.0, rows.value))
  }

  function Values(row: seq<Cell>): (vs: seq<SqlValue>)
    ensures |vs| == |row| && forall j :: 0 <= j < |row| ==> vs[j] == CellValue(row[j])
  {
    seq(|row|, j requires 0 <= j < |row| => CellValue(row[j]))
  }

  function AllValues(rows: seq<seq<Cell>>): (vs: seq<seq<SqlValue>>)
    ensures |vs| == |rows| && forall i :: 0 <= i < |rows| ==> vs[i] == Values(rows[i])
  {
    seq(|rows|, i requires 0 <= i < |rows| => Values(rows[i]))
  }

  lemma {:induction false} CellEndAt(cell: seq<Token>, sep: Token, more: seq<Token>)
    requires forall k :: 0 <= k < |cell| ==> cell[k] !in {Semi, Gap, Plain(','), Plain(')')}
    requires sep == Plain(',') || sep == Plain(')')
    ensures var ts := cell + [sep] + more;
            CellEnd(ts) == |cell| && ts[..|cell|] == cell && ts[|cell|] == sep && ts[|cell| + 1..] == more
  {
    var ts := cell + [sep] + more;
    if cell != [] {
      CellEndAt(cell[1..], sep, more);
      assert ts[1..] == cell[1..] + [sep] + more;
    }
  }

  lemma LastCell(cell: seq<Token>, more: seq<Token>)
    requires forall k :: 0 <= k < |cell| ==> cell[k] !in {Semi, Gap, Plain(','), Plain(')')}
    ensures ReadCells(cell + [Plain(')')] + more) == Some(([ValueOf(cell)], more))
  {
    hide ValueOf, CellEnd;
    CellEndAt(cell, Plain(')'), more);
  }

  lemma MoreCells(cell: seq<Token>, rest: seq<Token>)
    requires forall k :: 0 <= k < |cell| ==> cell[k] !in {Semi, Gap, Plain(','), Plain(')')}
    ensures ReadCells(cell + [Plain(',')] + ([Gap] + rest)) ==
            var more := ReadCells(rest);
            if more.None? then None else Some(([ValueOf(cell)] + more.value.0, more.value.1))
  {
    hide ValueOf, CellEnd;
    var ts := cell + [Plain(',')] + ([Gap] + rest);
    CellEndAt(cell, Plain(','), [Gap] + rest);
    assert ts[|cell| + 1] == Gap && ts[|cell| + 2..] == rest;
  }

  lemma {:induction false} CellsRead(row: seq<Cell>, more: seq<Token>)
    requires Renderable(row) && row != []
    ensures ReadCells(CellsTokens(row) + [Plain(')')] + more) == Some((Values(row), more))
  {
    hide Literal, LiteralTokens, ValueOf, CellEnd, CellValue, ReadCells;
    var cell := LiteralTokens(row[0]);
    LiteralReads(row[0], ",");
    if |row| == 1 {
      LastCell(cell, more);
      assert Values(row) == [ValueOf(cell)];
    } else {
      var rest := CellsTokens(row[1..]) + [Plain(')')] + more;
      MoreCells(cell, rest);
      assert CellsTokens(row) + [Plain(')')] + more == cell + [Plain(',')] + ([Gap] + rest);
      CellsRead(row[1..], more);
      assert Values(row) == [ValueOf(cell)] + Values(row[1..]);
    }
  }

  lemma {:induction false} RowsRead(rows: seq<seq<Cell>>)
    requires rows != [] && forall i :: 0 <= i < |rows| ==> Renderable(rows[i]) && rows[i] != []
    ensures ReadRows(RowsTokens(rows)) == Some(AllValues(rows))
  {
    hide ReadCells, CellsTokens, Renderable, Values;
    var row := rows[0];
    var more := if |rows| == 1 then [] else [Plain(','), Gap] + RowsTokens(rows[1..]);
    var ts := RowsTokens(rows);
    assert ts == [Plain('(')] + (CellsTokens(row) + [Plain(')')] + more);
    assert ts[1..] == CellsTokens(row) + [Plain(')')] + more;
    CellsRead(row, more);
    if |rows| == 1 {
      assert AllValues(rows) == [Values(row)];
    } else {
      assert more[2..] == RowsTokens(rows[1..]) && [Plain(','), Gap] <= more;
      RowsRead(rows[1..]);
      assert AllValues(rows) == [Values(row)] + AllValues(rows[1..]);
    }
  }

  lemma {:induction false} NamesRead(columns: seq<string>, more: seq<Token>)
    requires columns != [] && more != [] && more[0] == Plain(')')
    ensures ReadNames(NamesTokens(columns) + more) == Some((columns, more))
  {
    var ts := NamesTokens(columns) + more;
    if |columns| == 1 {
      assert ts[1..] == more && [columns[0]] == columns;
    } else {
      var rest := NamesTokens(columns[1..]) + more;
      assert ts == [Quoted('"', columns[0]), Plain(','), Gap] + rest;
      assert ts[1..] == [Plain(','), Gap] + rest && ts[3..] == rest;
      NamesRead(columns[1..], more);
      assert [columns[0]] + columns[1..] == columns;
    }
  }

  lemma WithoutPrefix(prefix: seq<Token>, ts: seq<Token>)
    ensures Without(prefix + ts, prefix) == Some(ts)
  {
    assert (prefix + ts)[..|prefix|] == prefix && (prefix + ts)[|prefix|..] == ts;
  }

  /** Every name, and every row's every cell, reads back from the INSERT's tokens. */
  lemma InsertReads(table: string, columns: seq<string>, rows: seq<seq<Cell>>)
    requires columns != [] && rows != [] && AllRenderable(|columns|, rows)
    ensures ReadInsert(InsertTokens(table, columns, rows)) == Some(Insert(table, columns, AllValues(rows)))
  {
    hide Plains, NamesTokens, RowsTokens, ReadNames, ReadRows, Without, Renderable, AllValues;
    var d := Plains(") VALUES\n") + RowsTokens(rows);
    var c := NamesTokens(columns) + d;
    var b := Plains(" (") + c;
    var a := [Quoted('"', table)] + b;
    WithoutPrefix(Plains("INSERT INTO "), a);
    assert a[0] == Quoted('"', table) && a[1..] == b;
    WithoutPrefix(Plains(" ("), c);
    assert d[0] == Plain(')') by { ClosesNames(rows); }
    NamesRead(columns, d);
    WithoutPrefix(Plains(") VALUES\n"), RowsTokens(rows));
    RowsRead(rows);
  }

  lemma ClosesNames(rows: seq<seq<Cell>>)
    ensures (Plains(") VALUES\n") + RowsTokens(rows))[0] == Plain(')')
  {
    hide RowsTokens;
  }

  // ---- No statement ends early ----

  predicate NoSemi(ts: seq<Token>) { forall k :: 0 <= k < |ts| ==> ts[k] != Semi }

  lemma {:induction false} CellsNoSemi(row: seq<Cell>)
    requires Renderable(row)
    ensures NoSemi(CellsTokens(row))
  {
    hide Literal, LiteralTokens;
    if row != [] {
      LiteralReads(row[0], ",");
      if |row| > 1 {
        CellsNoSemi(row[1..]);
      }
    }
  }

  lemma {:induction false} RowsNoSemi(rows: seq<seq<Cell>>)
    requires forall i :: 0 <= i < |rows| ==> Renderable(rows[i])
    ensures NoSemi(RowsTokens(rows))
  {
    hide CellsTokens, Renderable;
    if rows != [] {
      CellsNoSemi(rows[0]);
      if |rows| > 1 {
        RowsNoSemi(rows[1..]);
      }
    }
  }

  lemma {:induction false} NamesNoSemi(columns: seq<string>)
    ensures NoSemi(NamesTokens(columns))
  {
    if |columns| > 1 {
      NamesNoSemi(columns[1..]);
    }
  }

  lemma InsertNoSemi(table: string, columns: seq<string>, rows: seq<seq<Cell>>)
    requires AllRenderable(|columns|, rows)
    ensures NoSemi(InsertTokens(table, columns, rows))
    ensures InsertTokens(table, columns, rows) != [] && InsertTokens(table, columns, rows)[0] == Plain('I')
  {
    hide NamesTokens, RowsTokens, Renderable;
    NamesNoSemi(columns);
    RowsNoSemi(rows);
  }
}
