/** Printing table data as INSERT statements (bulk/dump.go). */
module Dump {
  import opened Scanner

  /** A metadata value; numbers, times and byte strings come as the text they format to. */
  datatype Value = Null | Number(text: string) | Bool(b: bool) | Text(text: string) | Verbatim(text: string)

  type Row = seq<Value>

  /** What the formatters promise of their text: a number is one word, and not one that
      stands for something else. */
  predicate ValueOk(v: Value) {
    match v
    case Number(text) => PlainText(text) && IsWord(text) && text !in {"NULL", "TRUE", "FALSE"}
    case Verbatim(text) => QUOTE !in text
    case _ => true
  }

  /** A character that may be part of a word. */
  predicate WordChar(c: char) {
    !IsSpace(c) && c !in {'(', ')', ',', QUOTE, DOUBLE}
  }

  predicate IsWord(s: string) {
    s != [] && forall i :: 0 <= i < |s| ==> WordChar(s[i])
  }

  function RenderValue(v: Value): string {
    match v
    case Null => "NULL"
    case Number(text) => text
    case Bool(b) => if b then "TRUE" else "FALSE"
    case Text(text) => [QUOTE] + Doubled(text, QUOTE) + [QUOTE]
    case Verbatim(text) => [QUOTE] + text + [QUOTE]
  }

  predicate BareIdent(s: string) {
    s != [] && forall i :: 0 <= i < |s| ==> IdentChar(s[i], i)
  }

  predicate IdentChar(c: char, i: nat) {
    'a' <= c <= 'z' || 'A' <= c <= 'Z' || c == '_' || ('0' <= c <= '9' && i > 0)
  }

  /** Quoted only when it has to be. */
  function QuoteIdent(s: string): string {
    if BareIdent(s) then s else [DOUBLE] + Doubled(s, DOUBLE) + [DOUBLE]
  }

  function Join(parts: seq<string>, sep: string): string
    decreases |parts|
  {
    if parts == [] then []
    else if |parts| == 1 then parts[0]
    else Join(parts[..|parts| - 1], sep) + sep + parts[|parts| - 1]
  }

  function RenderRow(row: Row): string {
    Join(seq(|row|, i requires 0 <= i < |row| => RenderValue(row[i])), ", ")
  }

  function RenderTuple(row: Row): string {
    "  (" + RenderRow(row) + ")"
  }

  /** The tuples of one statement. */
  function RenderRows(rows: seq<Row>): string
    decreases |rows|
  {
    if rows == [] then []
    else if |rows| == 1 then RenderTuple(rows[0])
    else RenderRows(rows[..|rows| - 1]) + ",\n" + RenderTuple(rows[|rows| - 1])
  }

  function InsertPrefix(name: string, cols: seq<string>): string {
    "INSERT INTO " + QuoteIdent(name)
    + " (" + Join(seq(|cols|, i requires 0 <= i < |cols| => QuoteIdent(cols[i])), ", ") + ") VALUES\n"
  }

  // ---- statements as tokens ----

  function ValueToken(v: Value): Token {
    match v
    case Text(text) => Literal(text)
    case Verbatim(text) => Literal(text)
    case _ => Bare(RenderValue(v))
  }

  function IdentToken(s: string): Token {
    if BareIdent(s) then Bare(s) else Quoted(s)
  }

  function Listed(ts: seq<Token>): seq<Token>
    decreases |ts|
  {
    if |ts| <= 1 then ts else Listed(ts[..|ts| - 1]) + [Bare(", "), ts[|ts| - 1]]
  }

  function TupleTokens(row: Row): seq<Token> {
    [Bare("  (")] + Listed(seq(|row|, i requires 0 <= i < |row| => ValueToken(row[i]))) + [Bare(")")]
  }

  function RowsTokens(rows: seq<Row>): seq<Token>
    decreases |rows|
  {
    if rows == [] then []
    else if |rows| == 1 then TupleTokens(rows[0])
    else RowsTokens(rows[..|rows| - 1]) + [Bare(",\n")] + TupleTokens(rows[|rows| - 1])
  }

  function InsertTokens(name: string, cols: seq<string>, rows: seq<Row>): seq<Token> {
    [Bare("INSERT INTO "), IdentToken(name), Bare(" (")]
    + Listed(seq(|cols|, i requires 0 <= i < |cols| => IdentToken(cols[i]))) + [Bare(") VALUES\n")] + RowsTokens(rows)
  }

  // ---- the tokens print as the source renders ----

  lemma {:induction false} NothingDoubled(t: string, q: char)
    requires q !in t
    ensures Doubled(t, q) == t
    decreases |t|
  {
    if t != [] {
      NothingDoubled(t[1..], q);
    }
  }

  lemma ValueShown(v: Value)
    requires ValueOk(v)
    ensures Show(ValueToken(v)) == RenderValue(v)
  {
    if v.Verbatim? {
      NothingDoubled(v.text, QUOTE);
    }
  }

  function Glue(parts: seq<string>): string
    decreases |parts|
  {
    if parts == [] then [] else parts[0] + Glue(parts[1..])
  }

  lemma {:induction false} GlueConcat(a: seq<string>, b: seq<string>)
    ensures Glue(a + b) == Glue(a) + Glue(b)
    decreases |a|
  {
    if a == [] {
      assert a + b == b;
    } else {
      GlueConcat(a[1..], b);
      assert (a + b)[1..] == a[1..] + b;
    }
  }

  function Shown(ts: seq<Token>): seq<string> {
    seq(|ts|, i requires 0 <= i < |ts| => Show(ts[i]))
  }

  lemma {:induction false} PrintIsGlue(ts: seq<Token>)
    ensures Print(ts) == Glue(Shown(ts))
    decreases |ts|
  {
    if ts != [] {
      PrintIsGlue(ts[1..]);
      assert Shown(ts)[1..] == Shown(ts[1..]);
    }
  }

  lemma ShownConcat(a: seq<Token>, b: seq<Token>)
    ensures Shown(a + b) == Shown(a) + Shown(b)
  {
    var x, y := Shown(a + b), Shown(a) + Shown(b);
    forall i | 0 <= i < |x| ensures x[i] == y[i] {
      assert (a + b)[i] == if i < |a| then a[i] else b[i - |a|];
    }
  }

  lemma PrintConcat(a: seq<Token>, b: seq<Token>)
    ensures Print(a + b) == Print(a) + Print(b)
  {
    ShownConcat(a, b);
    GlueConcat(Shown(a), Shown(b));
    PrintIsGlue(a);
    PrintIsGlue(b);
    PrintIsGlue(a + b);
  }

  lemma PrintOne(t: Token)
    ensures Print([t]) == Show(t)
  {
    assert [t][1..] == [];
  }

  lemma {:induction false} ListedPrints(ts: seq<Token>, parts: seq<string>)
    requires |ts| == |parts| && forall i :: 0 <= i < |ts| ==> Show(ts[i]) == parts[i]
    ensures Print(Listed(ts)) == Join(parts, ", ")
    decreases |ts|
  {
    if |ts| == 1 {
      assert ts == [ts[0]];
      PrintOne(ts[0]);
    } else if |ts| > 1 {
      var n := |ts| - 1;
      ListedPrints(ts[..n], parts[..n]);
      PrintConcat(Listed(ts[..n]), [Bare(", "), ts[n]]);
      PrintTwo(Bare(", "), ts[n]);
      JoinMore(parts, ", ");
    }
  }

  lemma PrintTwo(a: Token, b: Token)
    ensures Print([a, b]) == Show(a) + Show(b)
  {
    assert [a, b][1..] == [b];
    PrintOne(b);
  }

  lemma JoinMore(parts: seq<string>, sep: string)
    requires |parts| > 1
    ensures Join(parts, sep) == Join(parts[..|parts| - 1], sep) + (sep + parts[|parts| - 1])
  {
  }

  lemma TuplePrints(row: Row)
    requires forall i :: 0 <= i < |row| ==> ValueOk(row[i])
    ensures Print(TupleTokens(row)) == RenderTuple(row)
  {
    var ts := seq(|row|, i requires 0 <= i < |row| => ValueToken(row[i]));
    var parts := seq(|row|, i requires 0 <= i < |row| => RenderValue(row[i]));
    forall i | 0 <= i < |row| ensures Show(ts[i]) == parts[i] {
      ValueShown(row[i]);
    }
    ListedPrints(ts, parts);
    PrintConcat([Bare("  (")] + Listed(ts), [Bare(")")]);
    PrintConcat([Bare("  (")], Listed(ts));
    PrintOne(Bare("  ("));
    PrintOne(Bare(")"));
  }

  ghost predicate RowsOk(rows: seq<Row>) {
    forall i, j :: 0 <= i < |rows| && 0 <= j < |rows[i]| ==> ValueOk(rows[i][j])
  }

  lemma {:induction false} RowsPrint(rows: seq<Row>)
    requires RowsOk(rows)
    ensures Print(RowsTokens(rows)) == RenderRows(rows)
    decreases |rows|
  {
    if rows != [] {
      var n := |rows| - 1;
      TuplePrints(rows[n]);
      if n > 0 {
        RowsPrint(rows[..n]);
        PrintConcat(RowsTokens(rows[..n]) + [Bare(",\n")], TupleTokens(rows[n]));
        PrintConcat(RowsTokens(rows[..n]), [Bare(",\n")]);
        PrintOne(Bare(",\n"));
      }
    }
  }

  lemma InsertPrints(name: string, cols: seq<string>, rows: seq<Row>)
    requires RowsOk(rows)
    ensures Print(InsertTokens(name, cols, rows)) == InsertPrefix(name, cols) + RenderRows(rows)
  {
    var ts := seq(|cols|, i requires 0 <= i < |cols| => IdentToken(cols[i]));
    var parts := seq(|cols|, i requires 0 <= i < |cols| => QuoteIdent(cols[i]));
    ListedPrints(ts, parts);
    RowsPrint(rows);
    var head := [Bare("INSERT INTO "), IdentToken(name), Bare(" (")];
    HeadPrints(name);
    PrintOne(Bare(") VALUES\n"));
    PrintConcat(head + Listed(ts) + [Bare(") VALUES\n")], RowsTokens(rows));
    PrintConcat(head + Listed(ts), [Bare(") VALUES\n")]);
    PrintConcat(head, Listed(ts));
  }

  lemma HeadPrints(name: string)
    ensures Print([Bare("INSERT INTO "), IdentToken(name), Bare(" (")]) == "INSERT INTO " + QuoteIdent(name) + " ("
  {
    var a, b, c := Bare("INSERT INTO "), IdentToken(name), Bare(" (");
    PrintConcat([a, b], [c]);
    PrintConcat([a], [b]);
    assert [a] + [b] == [a, b] && [a, b] + [c] == [a, b, c];
    PrintOne(a);
    PrintOne(b);
    PrintOne(c);
  }

  // ---- and they are printable ----

  predicate Ends(ts: seq<Token>) {
    ts != [] && ts[|ts| - 1].Literal?
  }

  predicate Begins(ts: seq<Token>) {
    ts != [] && ts[0].Literal?
  }

  lemma PrintableJoin(a: seq<Token>, b: seq<Token>)
    requires Printable(a) && Printable(b) && !(Ends(a) && Begins(b))
    ensures Printable(a + b)
  {
    var s := a + b;
    forall i | 0 <= i < |s| - 1 ensures !(s[i].Literal? && s[i + 1].Literal?) {
      assert i + 1 < |a| ==> s[i] == a[i] && s[i + 1] == a[i + 1];
      assert i >= |a| ==> s[i] == b[i - |a|] && s[i + 1] == b[i + 1 - |a|];
    }
  }

  /** Pieces that are printable one by one. */
  predicate Piece(t: Token) {
    t.Bare? ==> t.text != [] && PlainText(t.text)
  }

  lemma {:induction false} ListedPrintable(ts: seq<Token>)
    requires forall i :: 0 <= i < |ts| ==> Piece(ts[i])
    ensures Printable(Listed(ts))
    decreases |ts|
  {
    if |ts| > 1 {
      var n := |ts| - 1;
      ListedPrintable(ts[..n]);
      PrintableJoin(Listed(ts[..n]), [Bare(", "), ts[n]]);
    }
  }

  lemma IdentPiece(s: string)
    ensures Piece(IdentToken(s))
  {
    if BareIdent(s) {
      forall i | 0 <= i < |s| ensures s[i] != QUOTE && s[i] != DOUBLE && s[i] != ';' && s[i] != '-' {
        assert IdentChar(s[i], i);
      }
    }
  }

  lemma ValuePiece(v: Value)
    requires ValueOk(v)
    ensures Piece(ValueToken(v))
  {
  }

  lemma TuplePrintable(row: Row)
    requires forall i :: 0 <= i < |row| ==> ValueOk(row[i])
    ensures Printable(TupleTokens(row)) && !Begins(TupleTokens(row)) && !Ends(TupleTokens(row))
  {
    var ts := seq(|row|, i requires 0 <= i < |row| => ValueToken(row[i]));
    forall i | 0 <= i < |row| ensures Piece(ts[i]) {
      ValuePiece(row[i]);
    }
    ListedPrintable(ts);
    PrintableJoin([Bare("  (")], Listed(ts));
    PrintableJoin([Bare("  (")] + Listed(ts), [Bare(")")]);
  }

  lemma {:induction false} RowsPrintable(rows: seq<Row>)
    requires RowsOk(rows)
    ensures Printable(RowsTokens(rows)) && !Begins(RowsTokens(rows)) && !Ends(RowsTokens(rows))
    decreases |rows|
  {
    if rows != [] {
      var n := |rows| - 1;
      TuplePrintable(rows[n]);
      if n > 0 {
        RowsPrintable(rows[..n]);
        PrintableJoin(RowsTokens(rows[..n]), [Bare(",\n")]);
        PrintableJoin(RowsTokens(rows[..n]) + [Bare(",\n")], TupleTokens(rows[n]));
      }
    }
  }

  /** The fixed words of a statement. */
  lemma WordPieces()
    ensures Piece(Bare("INSERT INTO ")) && Piece(Bare(" (")) && Piece(Bare(") VALUES\n"))
  {
  }

  lemma HeadPrintable(a: Token, b: Token, c: Token)
    requires Piece(a) && Piece(b) && Piece(c) && !a.Literal? && !c.Literal?
    ensures Printable([a, b, c]) && !Ends([a, b, c])
  {
  }

  lemma FourPrintable(head: seq<Token>, list: seq<Token>, mid: Token, rows: seq<Token>)
    requires Printable(head) && !Ends(head) && Printable(list) && Piece(mid) && !mid.Literal? && Printable(rows)
    ensures Printable(head + list + [mid] + rows)
  {
    PrintableJoin(head, list);
    PrintableJoin(head + list, [mid]);
    PrintableJoin(head + list + [mid], rows);
  }

  lemma ColumnsPrintable(cols: seq<string>)
    ensures Printable(Listed(seq(|cols|, i requires 0 <= i < |cols| => IdentToken(cols[i]))))
  {
    var ts := seq(|cols|, i requires 0 <= i < |cols| => IdentToken(cols[i]));
    forall i | 0 <= i < |cols| ensures Piece(ts[i]) {
      IdentPiece(cols[i]);
    }
    ListedPrintable(ts);
  }

  lemma InsertPrintable(name: string, cols: seq<string>, rows: seq<Row>)
    requires RowsOk(rows)
    ensures Printable(InsertTokens(name, cols, rows))
  {
    WordPieces();
    IdentPiece(name);
    HeadPrintable(Bare("INSERT INTO "), IdentToken(name), Bare(" ("));
    ColumnsPrintable(cols);
    RowsPrintable(rows);
    FourPrintable([Bare("INSERT INTO "), IdentToken(name), Bare(" (")],
                  Listed(seq(|cols|, i requires 0 <= i < |cols| => IdentToken(cols[i]))),
                  Bare(") VALUES\n"), RowsTokens(rows));
  }

  // ---- a table's data, in batches ----

  function Chunks(rows: seq<Row>, batch: nat): seq<seq<Row>>
    requires batch >= 1
    decreases |rows|
  {
    if rows == [] then []
    else if |rows| <= batch then [rows]
    else [rows[..batch]] + Chunks(rows[batch..], batch)
  }

  /** One statement a chunk, then an empty line. */
  function DumpText(prefix: string, chunks: seq<seq<Row>>): string
    decreases |chunks|
  {
    if chunks == [] then "\n"
    else Statement(prefix, chunks[0]) + DumpText(prefix, chunks[1..])
  }

  lemma RowsMore(rows: seq<Row>, row: Row)
    ensures RenderRows(rows + [row]) == RenderRows(rows) + (if rows == [] then "" else ",\n") + RenderTuple(row)
  {
    var more := rows + [row];
    assert more[..|more| - 1] == rows;
  }

  /** What is written and what is still to come make up the dump. */
  ghost predicate Writing(prefix: string, rows: seq<Row>, batch: nat, out: string, pending: seq<Row>, rest: seq<Row>)
    requires batch >= 1
  {
    DumpText(prefix, Chunks(rows, batch)) == out + DumpText(prefix, Chunks(pending + rest, batch))
  }

  lemma TakeRow(prefix: string, rows: seq<Row>, batch: nat, out: string, pending: seq<Row>, rest: seq<Row>)
    requires batch >= 1 && rest != [] && Writing(prefix, rows, batch, out, pending, rest)
    ensures Writing(prefix, rows, batch, out, pending + [rest[0]], rest[1..])
  {
    assert pending + rest == pending + [rest[0]] + rest[1..];
  }

  lemma Flushed(prefix: string, rows: seq<Row>, batch: nat, out: string, pending: seq<Row>, rest: seq<Row>)
    requires 1 <= batch == |pending| && Writing(prefix, rows, batch, out, pending, rest)
    ensures Writing(prefix, rows, batch, out + Statement(prefix, pending), [], rest)
  {
    FirstChunk(pending, rest, batch);
    var chunks := Chunks(rest, batch);
    assert ([pending] + chunks)[1..] == chunks && [] + rest == rest;
    Regroup(out, Statement(prefix, pending), DumpText(prefix, chunks));
  }

  lemma FirstChunk(pending: seq<Row>, rest: seq<Row>, batch: nat)
    requires 1 <= batch == |pending|
    ensures Chunks(pending + rest, batch) == [pending] + Chunks(rest, batch)
  {
    var all := pending + rest;
    assert all[..batch] == pending && all[batch..] == rest;
    if rest == [] {
      assert all == pending;
    }
  }

  /** A statement as it is written. */
  function Statement(prefix: string, rows: seq<Row>): string {
    prefix + RenderRows(rows) + ";\n"
  }

  lemma LastFlush(prefix: string, rows: seq<Row>, batch: nat, out: string, pending: seq<Row>)
    requires |pending| < batch && Writing(prefix, rows, batch, out, pending, [])
    ensures DumpText(prefix, Chunks(rows, batch))
            == (if pending == [] then out else out + Statement(prefix, pending)) + "\n"
  {
    assert pending + [] == pending;
    if pending != [] {
      assert [pending][1..] == [];
      assert DumpText(prefix, [pending]) == Statement(prefix, pending) + DumpText(prefix, []);
      Regroup(out, Statement(prefix, pending), DumpText(prefix, []));
    }
  }

  lemma Regroup(a: string, b: string, c: string)
    ensures a + (b + c) == a + b + c
  {
  }

  /** Buffers tuples and writes a statement whenever the batch is full. */
  method DumpData(prefix: string, rows: seq<Row>, batch: nat) returns (out: string)
    requires batch >= 1
    ensures out == DumpText(prefix, Chunks(rows, batch))
  {
    out := "";
    var rowBuf, count := "", 0;
    ghost var pending: seq<Row> := [];
    var i := 0;
    assert [] + rows[0..] == rows;
    while i < |rows|
      invariant 0 <= i <= |rows| && count == |pending| < batch && rowBuf == RenderRows(pending)
      invariant Writing(prefix, rows, batch, out, pending, rows[i..])
    {
      RowsMore(pending, rows[i]);
      TakeRow(prefix, rows, batch, out, pending, rows[i..]);
      assert rows[i..][1..] == rows[i + 1..];
      rowBuf := rowBuf + (if count > 0 then ",\n" else "") + ("  (" + RenderRow(rows[i]) + ")");
      pending, count := pending + [rows[i]], count + 1;
      if count >= batch {
        Flushed(prefix, rows, batch, out, pending, rows[i + 1..]);
        out := out + (prefix + rowBuf + ";\n");
        rowBuf, count, pending := "", 0, [];
      }
      i := i + 1;
    }
    LastFlush(prefix, rows, batch, out, pending);
    if count > 0 {
      out := out + (prefix + rowBuf + ";\n");
    }
    out := out + "\n";
  }

  // ---- scanning a dump gives its statements ----

  function Entries(name: string, cols: seq<string>, chunks: seq<seq<Row>>, before: seq<Filler>): seq<Entry>
    decreases |chunks|
  {
    if chunks == [] then []
    else [Entry(before, InsertTokens(name, cols, chunks[0]))] + Entries(name, cols, chunks[1..], [Space('\n')])
  }

  function TailOf(chunks: seq<seq<Row>>, before: seq<Filler>): seq<Filler> {
    (if chunks == [] then before else [Space('\n')]) + [Space('\n')]
  }

  lemma FillLine()
    ensures Fill([Space('\n')]) == "\n"
  {
    assert [Space('\n')][1..] == [];
  }

  lemma FillMore(before: seq<Filler>)
    requires |before| <= 1
    ensures Fill(before + [Space('\n')]) == Fill(before) + "\n"
  {
    FillLine();
    if before == [] {
      assert before + [Space('\n')] == [Space('\n')];
    } else {
      var all := before + [Space('\n')];
      assert all[1..] == [Space('\n')] && before[1..] == [] && all[0] == before[0];
      assert Fill(before) == ShowFiller(before[0]);
    }
  }

  /** Moving the line break from the end of a statement to the front of the next. */
  lemma Rebreak(fill: string, body: string, rest: string, more: string)
    requires "\n" + rest == more
    ensures fill + (body + ";\n" + rest) == fill + (body + (";" + more))
  {
    assert ";\n" == ";" + "\n";
    assert body + ";\n" + rest == body + (";" + ("\n" + rest));
  }

  lemma {:induction false} DumpIsScript(name: string, cols: seq<string>, chunks: seq<seq<Row>>, before: seq<Filler>)
    requires |before| <= 1 && forall i :: 0 <= i < |chunks| ==> RowsOk(chunks[i])
    ensures Fill(before) + DumpText(InsertPrefix(name, cols), chunks)
            == Script(Entries(name, cols, chunks, before), TailOf(chunks, before))
    decreases |chunks|
  {
    if chunks == [] {
      FillMore(before);
    } else {
      var line: seq<Filler> := [Space('\n')];
      var rest := DumpText(InsertPrefix(name, cols), chunks[1..]);
      var es := Entries(name, cols, chunks[1..], line);
      DumpIsScript(name, cols, chunks[1..], line);
      FillLine();
      InsertPrints(name, cols, chunks[0]);
      ScriptStep(Entry(before, InsertTokens(name, cols, chunks[0])), es, TailOf(chunks, before));
      Rebreak(Fill(before), Print(InsertTokens(name, cols, chunks[0])), rest, Script(es, TailOf(chunks, before)));
    }
  }

  lemma ScriptStep(e: Entry, es: seq<Entry>, tail: seq<Filler>)
    ensures Script([e] + es, tail) == Fill(e.before) + (Print(e.tokens) + (";" + Script(es, tail)))
  {
    assert ([e] + es)[1..] == es;
  }

  lemma {:induction false} EntriesOk(name: string, cols: seq<string>, chunks: seq<seq<Row>>, before: seq<Filler>)
    requires (forall i :: 0 <= i < |chunks| ==> RowsOk(chunks[i]))
    requires forall i :: 0 <= i < |before| ==> FillerOk(before[i])
    ensures forall i :: 0 <= i < |Entries(name, cols, chunks, before)| ==>
      EntryOk(Entries(name, cols, chunks, before)[i])
    decreases |chunks|
  {
    if chunks != [] {
      InsertPrintable(name, cols, chunks[0]);
      EntriesOk(name, cols, chunks[1..], [Space('\n')]);
    }
  }

  /** The statement for each chunk, after the line break that precedes it. */
  function Inserts(name: string, cols: seq<string>, chunks: seq<seq<Row>>): seq<string> {
    seq(|chunks|, i requires 0 <= i < |chunks| =>
      (if i == 0 then "" else "\n") + (InsertPrefix(name, cols) + RenderRows(chunks[i])))
  }

  lemma {:induction false} EntriesAre(name: string, cols: seq<string>, chunks: seq<seq<Row>>, before: seq<Filler>)
    ensures var es := Entries(name, cols, chunks, before);
            && |es| == |chunks|
            && forall i :: 0 <= i < |es| ==>
                 es[i] == Entry(if i == 0 then before else [Space('\n')], InsertTokens(name, cols, chunks[i]))
    decreases |chunks|
  {
    if chunks != [] {
      EntriesAre(name, cols, chunks[1..], [Space('\n')]);
    }
  }

  lemma StatementIs(name: string, cols: seq<string>, rows: seq<Row>, before: seq<Filler>)
    requires RowsOk(rows) && (before == [] || before == [Space('\n')])
    ensures KeptFill(before) + Print(InsertTokens(name, cols, rows))
            == (if before == [] then "" else "\n") + (InsertPrefix(name, cols) + RenderRows(rows))
  {
    InsertPrints(name, cols, rows);
    assert KeptFill([]) == "" && KeptFill([Space('\n')]) == "\n";
  }

  lemma EntriesState(name: string, cols: seq<string>, chunks: seq<seq<Row>>, before: seq<Filler>)
    requires before == [] && forall i :: 0 <= i < |chunks| ==> RowsOk(chunks[i])
    ensures Statements(Entries(name, cols, chunks, before)) == Inserts(name, cols, chunks)
  {
    var es := Entries(name, cols, chunks, before);
    EntriesAre(name, cols, chunks, before);
    forall i | 0 <= i < |es| ensures Statements(es)[i] == Inserts(name, cols, chunks)[i] {
      StatementIs(name, cols, chunks[i], es[i].before);
    }
  }

  lemma ScansAs(text: string, es: seq<Entry>, tail: seq<Filler>)
    requires text == Script(es, tail) && (forall i :: 0 <= i < |es| ==> EntryOk(es[i]))
    requires forall i :: 0 <= i < |tail| ==> FillerOk(tail[i])
    ensures ScanAll(text) == Statements(es)
  {
    ScanPrinted(es, tail);
  }

  lemma ScansFrom(name: string, cols: seq<string>, chunks: seq<seq<Row>>, before: seq<Filler>, text: string)
    requires before == [] && forall i :: 0 <= i < |chunks| ==> RowsOk(chunks[i])
    requires text == Fill(before) + DumpText(InsertPrefix(name, cols), chunks)
    ensures ScanAll(text) == Inserts(name, cols, chunks)
  {
    DumpIsScript(name, cols, chunks, before);
    EntriesOk(name, cols, chunks, before);
    ScansAs(text, Entries(name, cols, chunks, before), TailOf(chunks, before));
    EntriesState(name, cols, chunks, before);
  }

  /** Scanning the dump of a table yields exactly its INSERT statements, whatever its
      names and values contain. */
  lemma DumpScans(name: string, cols: seq<string>, chunks: seq<seq<Row>>)
    requires forall i :: 0 <= i < |chunks| ==> RowsOk(chunks[i])
    ensures ScanAll(DumpText(InsertPrefix(name, cols), chunks)) == Inserts(name, cols, chunks)
  {
    var text := DumpText(InsertPrefix(name, cols), chunks);
    assert Fill([]) + text == text;
    ScansFrom(name, cols, chunks, [], text);
  }

  /** The chunks of a table hold its rows in order. */
  lemma {:induction false} ChunksHold(rows: seq<Row>, batch: nat)
    requires batch >= 1
    ensures Flat(Chunks(rows, batch)) == rows
    ensures forall i :: 0 <= i < |Chunks(rows, batch)| ==> 1 <= |Chunks(rows, batch)[i]| <= batch
    ensures forall i :: 0 <= i < |Chunks(rows, batch)| - 1 ==> |Chunks(rows, batch)[i]| == batch
    decreases |rows|
  {
    if |rows| > batch {
      ChunksHold(rows[batch..], batch);
      var rest := Chunks(rows[batch..], batch);
      assert ([rows[..batch]] + rest)[1..] == rest;
      assert rows == rows[..batch] + rows[batch..];
    } else if rows != [] {
      assert [rows][1..] == [] && rows + [] == rows;
    }
  }

  function Flat(chunks: seq<seq<Row>>): seq<Row>
    decreases |chunks|
  {
    if chunks == [] then [] else chunks[0] + Flat(chunks[1..])
  }

  lemma {:induction false} ChunksOk(rows: seq<Row>, batch: nat)
    requires batch >= 1 && RowsOk(rows)
    ensures forall i :: 0 <= i < |Chunks(rows, batch)| ==> RowsOk(Chunks(rows, batch)[i])
    decreases |rows|
  {
    if |rows| > batch {
      ChunksOk(rows[batch..], batch);
    }
  }
}
