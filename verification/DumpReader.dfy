/**
  Reading INSERT statements back into tables: what the text of a dump stands for.  Words,
  string literals and quoted identifiers are told apart, and a statement is a table name, a
  list of columns and tuples of values.
 */
module DumpReader {
  import opened Prelude
  import opened Scanner
  import opened Dump

  // ---- words and marks ----

  datatype Lexeme = Word(text: string) | Str(text: string) | Ident(text: string) | Mark(c: char)

  /** What a quoted text stands for, up to a quote that is not doubled, and what follows. */
  function Unquote(s: string, q: char): (r: (string, string))
    ensures |r.1| <= |s|
    decreases |s|
  {
    if s == [] then ([], [])
    else if s[0] != q then
      var (t, rest) := Unquote(s[1..], q);
      ([s[0]] + t, rest)
    else if |s| > 1 && s[1] == q then
      var (t, rest) := Unquote(s[2..], q);
      ([q] + t, rest)
    else ([], s[1..])
  }

  /** How many characters the word at the front has. */
  function WordLength(s: string): (n: nat)
    ensures n <= |s|
    decreases |s|
  {
    if s == [] || !WordChar(s[0]) then 0 else 1 + WordLength(s[1..])
  }

  function Lex(s: string): seq<Lexeme>
    decreases |s|
  {
    if s == [] then []
    else if IsSpace(s[0]) then Lex(s[1..])
    else if s[0] == QUOTE then
      var (t, rest) := Unquote(s[1..], QUOTE);
      [Str(t)] + Lex(rest)
    else if s[0] == DOUBLE then
      var (t, rest) := Unquote(s[1..], DOUBLE);
      [Ident(t)] + Lex(rest)
    else if !WordChar(s[0]) then [Mark(s[0])] + Lex(s[1..])
    else [Word(s[..WordLength(s)])] + Lex(s[WordLength(s)..])
  }

  // ---- statements ----

  datatype Insert = Insert(name: string, cols: seq<string>, rows: seq<Row>)

  /** Items separated by commas up to a closing bracket, and what follows. */
  function Items(ls: seq<Lexeme>): (r: Option<(seq<Lexeme>, seq<Lexeme>)>)
    ensures r.Some? ==> |r.value.1| < |ls|
    decreases |ls|
  {
    if |ls| < 2 || ls[0].Mark? then None
    else if ls[1] == Mark(')') then Some(([ls[0]], ls[2..]))
    else if ls[1] != Mark(',') then None
    else
      var more := Items(ls[2..]);
      if more.None? then None else Some(([ls[0]] + more.value.0, more.value.1))
  }

  /** The same, or none at all, after an opening bracket. */
  function Bracketed(ls: seq<Lexeme>): (r: Option<(seq<Lexeme>, seq<Lexeme>)>)
    ensures r.Some? ==> |r.value.1| < |ls|
  {
    if |ls| < 2 || ls[0] != Mark('(') then None
    else if ls[1] == Mark(')') then Some(([], ls[2..]))
    else Items(ls[1..])
  }

  /** The value a word or a literal stands for. */
  function ReadValue(l: Lexeme): Value {
    match l
    case Word(text) =>
      if text == "NULL" then Null
      else if text == "TRUE" then Bool(true)
      else if text == "FALSE" then Bool(false)
      else Number(text)
    case Str(text) => Text(text)
    case _ => Null
  }

  function ReadRow(ls: seq<Lexeme>): Row {
    seq(|ls|, i requires 0 <= i < |ls| => ReadValue(ls[i]))
  }

  function ReadTuples(ls: seq<Lexeme>): Option<seq<Row>>
    decreases |ls|
  {
    var first := Bracketed(ls);
    if first.None? then None
    else
      var (row, rest) := first.value;
      if rest == [] then Some([ReadRow(row)])
      else if rest[0] != Mark(',') then None
      else
        var more := ReadTuples(rest[1..]);
        if more.None? then None else Some([ReadRow(row)] + more.value)
  }

  function ReadName(l: Lexeme): string {
    if l.Word? || l.Ident? then l.text else ""
  }

  function ReadNames(ls: seq<Lexeme>): seq<string> {
    seq(|ls|, i requires 0 <= i < |ls| => ReadName(ls[i]))
  }

  /** What an INSERT statement says. */
  function ReadInsert(text: string): Option<Insert> {
    ReadStatement(Lex(text))
  }

  function ReadStatement(ls: seq<Lexeme>): Option<Insert> {
    if |ls| < 3 || ls[0] != Word("INSERT") || ls[1] != Word("INTO") || ls[2].Mark? then None
    else
      var cols := Bracketed(ls[3..]);
      if cols.None? || cols.value.1 == [] || cols.value.1[0] != Word("VALUES") then None
      else
        var rows := ReadTuples(cols.value.1[1..]);
        if rows.None? then None else Some(Insert(ReadName(ls[2]), ReadNames(cols.value.0), rows.value))
  }

  // ---- lexing what is printed ----

  /** A word before this text ends there. */
  predicate Breaks(rest: string) {
    rest == [] || !WordChar(rest[0])
  }

  lemma {:induction false} WordEnds(w: string, rest: string)
    requires (forall i :: 0 <= i < |w| ==> WordChar(w[i])) && Breaks(rest)
    ensures WordLength(w + rest) == |w|
    decreases |w|
  {
    if w == [] {
      assert w + rest == rest;
    } else {
      assert (w + rest)[0] == w[0] && (w + rest)[1..] == w[1..] + rest;
      WordEnds(w[1..], rest);
    }
  }

  lemma LexWord(w: string, rest: string)
    requires IsWord(w) && Breaks(rest)
    ensures Lex(w + rest) == [Word(w)] + Lex(rest)
  {
    WordEnds(w, rest);
    var s := w + rest;
    assert s[0] == w[0] && WordChar(w[0]) && s[..|w|] == w && s[|w|..] == rest;
  }

  lemma {:induction false} Unquoted(t: string, q: char, rest: string)
    requires rest == [] || rest[0] != q
    ensures Unquote(Doubled(t, q) + [q] + rest, q) == (t, rest)
    decreases |t|
  {
    var s := Doubled(t, q) + [q] + rest;
    if t == [] {
      assert s[0] == q && s[1..] == rest;
    } else {
      var tail := Doubled(t[1..], q) + [q] + rest;
      Unquoted(t[1..], q, rest);
      DoubledStep(t, q, rest, []);
      assert s == Step(t[0], q) + tail && [t[0]] + t[1..] == t;
      assert s[0] == t[0] && s[|Step(t[0], q)|..] == tail;
      assert t[0] == q ==> s[1] == q;
    }
  }

  lemma LexQuoted(t: string, q: char, rest: string)
    requires q in {QUOTE, DOUBLE} && (rest == [] || rest[0] != q)
    ensures Lex([q] + Doubled(t, q) + [q] + rest) == [if q == QUOTE then Str(t) else Ident(t)] + Lex(rest)
  {
    var s := [q] + Doubled(t, q) + [q] + rest;
    assert s[0] == q && s[1..] == Doubled(t, q) + [q] + rest;
    Unquoted(t, q, rest);
  }

  lemma LexSpace(c: char, rest: string)
    requires IsSpace(c)
    ensures Lex([c] + rest) == Lex(rest)
  {
    assert ([c] + rest)[0] == c && ([c] + rest)[1..] == rest;
  }

  lemma LexMark(c: char, rest: string)
    requires c in {'(', ')', ','}
    ensures Lex([c] + rest) == [Mark(c)] + Lex(rest)
  {
    assert ([c] + rest)[0] == c && ([c] + rest)[1..] == rest;
  }

  // ---- pieces of text and what they read as ----

  type Lexer = string -> seq<Lexeme>

  /** After this text neither a word nor a quoted text goes on. */
  predicate Parts(rest: string) {
    Breaks(rest) && (rest == [] || rest[0] !in {QUOTE, DOUBLE})
  }

  /** The text reads as these lexemes, whatever follows it, or whatever parts from it. */
  ghost predicate Yields(f: Lexer, any: bool, text: string, ls: seq<Lexeme>) {
    forall rest :: any || Parts(rest) ==> f(text + rest) == ls + f(rest)
  }

  lemma YieldsBoth(f: Lexer, p: bool, a: string, x: seq<Lexeme>, q: bool, b: string, y: seq<Lexeme>)
    requires Yields(f, p, a, x) && Yields(f, q, b, y) && (p || (b != [] && Parts(b)))
    ensures Yields(f, q, a + b, x + y)
  {
    forall rest | q || Parts(rest) ensures f(a + b + rest) == x + y + f(rest) {
      assert a + b + rest == a + (b + rest);
      assert b != [] ==> (b + rest)[0] == b[0];
      assert f(a + (b + rest)) == x + f(b + rest);
      assert f(b + rest) == y + f(rest);
    }
  }

  lemma YieldsNothing(f: Lexer)
    ensures Yields(f, true, [], [])
  {
    forall rest ensures f([] + rest) == [] + f(rest) {
      assert [] + rest == rest;
    }
  }

  lemma YieldsWord(w: string)
    requires IsWord(w)
    ensures Yields(Lex, false, w, [Word(w)])
  {
    forall rest | Parts(rest) ensures Lex(w + rest) == [Word(w)] + Lex(rest) {
      LexWord(w, rest);
    }
  }

  lemma YieldsQuoted(t: string, q: char)
    requires q in {QUOTE, DOUBLE}
    ensures Yields(Lex, false, [q] + Doubled(t, q) + [q], [if q == QUOTE then Str(t) else Ident(t)])
  {
    forall rest | Parts(rest)
      ensures Lex([q] + Doubled(t, q) + [q] + rest) == [if q == QUOTE then Str(t) else Ident(t)] + Lex(rest)
    {
      LexQuoted(t, q, rest);
    }
  }

  lemma YieldsSpace(c: char)
    requires IsSpace(c)
    ensures Yields(Lex, true, [c], [])
  {
    forall rest ensures Lex([c] + rest) == [] + Lex(rest) {
      LexSpace(c, rest);
    }
  }

  lemma YieldsMark(c: char)
    requires c in {'(', ')', ','}
    ensures Yields(Lex, true, [c], [Mark(c)])
  {
    forall rest ensures Lex([c] + rest) == [Mark(c)] + Lex(rest) {
      LexMark(c, rest);
    }
  }

  /** The fixed pieces of a statement. */
  ghost predicate Punctuates(f: Lexer) {
    && Yields(f, true, "(", [Mark('(')]) && Yields(f, true, ")", [Mark(')')])
    && Yields(f, true, ", ", [Mark(',')]) && Yields(f, true, ",\n", [Mark(',')])
    && Yields(f, true, "  ", []) && Yields(f, true, " ", [])
  }

  /** A mark or a space, and then a space. */
  lemma YieldsThen(c: char, x: seq<Lexeme>, d: char)
    requires Yields(Lex, true, [c], x) && IsSpace(d)
    ensures Yields(Lex, true, [c, d], x)
  {
    YieldsSpace(d);
    YieldsBoth(Lex, true, [c], x, true, [d], []);
    assert [c] + [d] == [c, d] && x + [] == x;
  }

  lemma LexPunctuates()
    ensures Punctuates(Lex)
  {
    YieldsMark('(');
    YieldsMark(')');
    YieldsMark(',');
    YieldsSpace(' ');
    YieldsThen(',', [Mark(',')], ' ');
    YieldsThen(',', [Mark(',')], '\n');
    YieldsThen(' ', [], ' ');
  }

  /** Words with a space behind each. */
  lemma YieldsSpaced(w: string, c: char)
    requires IsWord(w) && IsSpace(c)
    ensures Yields(Lex, true, w + [c], [Word(w)])
  {
    YieldsWord(w);
    YieldsSpace(c);
    YieldsBoth(Lex, false, w, [Word(w)], true, [c], []);
  }

  lemma Keywords()
    ensures IsWord("INSERT") && IsWord("INTO") && IsWord("VALUES")
    ensures "INSERT INTO " == ("INSERT" + [' ']) + ("INTO" + [' ']) && " VALUES\n" == [' '] + ("VALUES" + ['\n'])
  {
  }

  lemma TwoSpaced(a: string, b: string, text: string)
    requires IsWord(a) && IsWord(b) && text == (a + [' ']) + (b + [' '])
    ensures Yields(Lex, true, text, [Word(a), Word(b)])
  {
    YieldsSpaced(a, ' ');
    YieldsSpaced(b, ' ');
    YieldsBoth(Lex, true, a + [' '], [Word(a)], true, b + [' '], [Word(b)]);
    assert [Word(a)] + [Word(b)] == [Word(a), Word(b)];
  }

  lemma SpacedBefore(a: string, text: string)
    requires IsWord(a) && text == [' '] + (a + ['\n'])
    ensures Yields(Lex, true, text, [Word(a)])
  {
    YieldsSpace(' ');
    YieldsSpaced(a, '\n');
    YieldsBoth(Lex, true, [' '], [], true, a + ['\n'], [Word(a)]);
    assert [] + [Word(a)] == [Word(a)];
  }

  lemma FixedWords()
    ensures Yields(Lex, true, "INSERT INTO ", [Word("INSERT"), Word("INTO")])
    ensures Yields(Lex, true, " VALUES\n", [Word("VALUES")])
  {
    Keywords();
    TwoSpaced("INSERT", "INTO", "INSERT INTO ");
    SpacedBefore("VALUES", " VALUES\n");
  }

  // ---- values, names and lists ----

  /** What a value is written as. */
  function ValueLexeme(v: Value): Lexeme {
    match v
    case Null => Word("NULL")
    case Number(text) => Word(text)
    case Bool(b) => if b then Word("TRUE") else Word("FALSE")
    case Text(text) => Str(text)
    case Verbatim(text) => Str(text)
  }

  function NameLexeme(s: string): Lexeme {
    if BareIdent(s) then Word(s) else Ident(s)
  }

  lemma ValueYields(v: Value)
    requires ValueOk(v)
    ensures Yields(Lex, false, RenderValue(v), [ValueLexeme(v)])
  {
    match v
    case Null => YieldsWord("NULL");
    case Number(text) => YieldsWord(text);
    case Bool(b) => YieldsWord(if b then "TRUE" else "FALSE");
    case Text(text) => YieldsQuoted(text, QUOTE);
    case Verbatim(text) =>
      NothingDoubled(text, QUOTE);
      YieldsQuoted(text, QUOTE);
  }

  lemma NameYields(s: string)
    ensures Yields(Lex, false, QuoteIdent(s), [NameLexeme(s)])
  {
    if BareIdent(s) {
      forall i | 0 <= i < |s| ensures WordChar(s[i]) {
        assert IdentChar(s[i], i);
      }
      YieldsWord(s);
    } else {
      YieldsQuoted(s, DOUBLE);
    }
  }

  /** Items with commas between them. */
  function Commas(ls: seq<Lexeme>): seq<Lexeme>
    decreases |ls|
  {
    if |ls| <= 1 then ls else [ls[0], Mark(',')] + Commas(ls[1..])
  }

  lemma {:induction false} CommasMore(ls: seq<Lexeme>, l: Lexeme)
    ensures Commas(ls + [l]) == if ls == [] then [l] else Commas(ls) + ([Mark(',')] + [l])
    decreases |ls|
  {
    if ls == [] {
      assert ls + [l] == [l];
    } else if |ls| == 1 {
      assert (ls + [l])[1..] == [l];
    } else {
      assert (ls + [l])[1..] == ls[1..] + [l];
      CommasMore(ls[1..], l);
    }
  }

  lemma JoinStep(f: Lexer, head: string, x: seq<Lexeme>, part: string, y: seq<Lexeme>)
    requires Yields(f, false, head, x) && Yields(f, false, part, y) && Yields(f, true, ", ", [Mark(',')])
    ensures Yields(f, false, head + (", " + part), x + ([Mark(',')] + y))
  {
    YieldsBoth(f, true, ", ", [Mark(',')], false, part, y);
    assert (", " + part)[0] == ',';
    YieldsBoth(f, false, head, x, false, ", " + part, [Mark(',')] + y);
  }

  ghost predicate ItemYields(f: Lexer, parts: seq<string>, ls: seq<Lexeme>, i: nat) {
    i < |parts| && i < |ls| ==> Yields(f, false, parts[i], [ls[i]])
  }

  ghost predicate ItemsYield(f: Lexer, parts: seq<string>, ls: seq<Lexeme>) {
    |parts| == |ls| && forall i: nat :: ItemYields(f, parts, ls, i)
  }

  lemma ItemsBefore(f: Lexer, parts: seq<string>, ls: seq<Lexeme>, n: nat)
    requires ItemsYield(f, parts, ls) && n <= |parts|
    ensures ItemsYield(f, parts[..n], ls[..n])
  {
    forall i: nat ensures ItemYields(f, parts[..n], ls[..n], i) {
      assert ItemYields(f, parts, ls, i);
    }
  }

  lemma {:induction false} JoinYields(f: Lexer, parts: seq<string>, ls: seq<Lexeme>)
    requires Yields(f, true, ", ", [Mark(',')]) && ItemsYield(f, parts, ls)
    ensures Yields(f, false, Join(parts, ", "), Commas(ls))
    decreases |parts|
  {
    if parts == [] {
      YieldsNothing(f);
    } else {
      var n := |parts| - 1;
      assert ItemYields(f, parts, ls, n);
      if n == 0 {
        assert ls == [ls[0]];
      } else {
        var head, x := Join(parts[..n], ", "), Commas(ls[..n]);
        assert Yields(f, false, head, x) by {
          ItemsBefore(f, parts, ls, n);
          JoinYields(f, parts[..n], ls[..n]);
        }
        JoinStep(f, head, x, parts[n], [ls[n]]);
        JoinMore(parts, ", ");
        assert ls[..n] + [ls[n]] == ls;
        CommasMore(ls[..n], ls[n]);
      }
    }
  }

  /** A bracketed list. */
  function Wrapped(ls: seq<Lexeme>): seq<Lexeme> {
    [Mark('(')] + Commas(ls) + [Mark(')')]
  }

  lemma WrappedYields(f: Lexer, parts: seq<string>, ls: seq<Lexeme>)
    requires Punctuates(f) && ItemsYield(f, parts, ls)
    ensures Yields(f, true, "(" + Join(parts, ", ") + ")", Wrapped(ls))
  {
    JoinYields(f, parts, ls);
    YieldsBoth(f, true, "(", [Mark('(')], false, Join(parts, ", "), Commas(ls));
    YieldsBoth(f, false, "(" + Join(parts, ", "), [Mark('(')] + Commas(ls), true, ")", [Mark(')')]);
  }

  function RowLexemes(row: Row): seq<Lexeme> {
    seq(|row|, i requires 0 <= i < |row| => ValueLexeme(row[i]))
  }

  function NameLexemes(names: seq<string>): seq<Lexeme> {
    seq(|names|, i requires 0 <= i < |names| => NameLexeme(names[i]))
  }

  lemma TupleYields(row: Row)
    requires forall i :: 0 <= i < |row| ==> ValueOk(row[i])
    ensures Yields(Lex, true, RenderTuple(row), Wrapped(RowLexemes(row)))
  {
    var parts := seq(|row|, i requires 0 <= i < |row| => RenderValue(row[i]));
    forall i: nat ensures ItemYields(Lex, parts, RowLexemes(row), i) {
      if i < |row| {
        ValueYields(row[i]);
      }
    }
    LexPunctuates();
    Indented(Lex, parts, RowLexemes(row), RenderTuple(row));
  }

  lemma Indented(f: Lexer, parts: seq<string>, ls: seq<Lexeme>, text: string)
    requires Punctuates(f) && ItemsYield(f, parts, ls)
    requires text == "  (" + Join(parts, ", ") + ")"
    ensures Yields(f, true, text, Wrapped(ls))
  {
    WrappedYields(f, parts, ls);
    var body := "(" + Join(parts, ", ") + ")";
    YieldsBoth(f, true, "  ", [], true, body, Wrapped(ls));
    assert text == "  " + body && [] + Wrapped(ls) == Wrapped(ls);
  }

  /** Tuples with commas between them. */
  function Strung(ts: seq<seq<Lexeme>>): seq<Lexeme>
    decreases |ts|
  {
    if ts == [] then [] else if |ts| == 1 then ts[0] else ts[0] + ([Mark(',')] + Strung(ts[1..]))
  }

  lemma {:induction false} StrungMore(ts: seq<seq<Lexeme>>, t: seq<Lexeme>)
    ensures Strung(ts + [t]) == if ts == [] then t else Strung(ts) + [Mark(',')] + t
    decreases |ts|
  {
    if ts == [] {
      assert ts + [t] == [t];
    } else {
      assert (ts + [t])[1..] == ts[1..] + [t];
      StrungMore(ts[1..], t);
    }
  }

  function Tuples(rows: seq<Row>): seq<seq<Lexeme>> {
    seq(|rows|, i requires 0 <= i < |rows| => Wrapped(RowLexemes(rows[i])))
  }

  function RowsLexemes(rows: seq<Row>): seq<Lexeme> {
    Strung(Tuples(rows))
  }

  lemma {:induction false} RowsYield(f: Lexer, rows: seq<Row>)
    requires Yields(f, true, ",\n", [Mark(',')])
    requires forall i :: 0 <= i < |rows| ==> Yields(f, true, RenderTuple(rows[i]), Wrapped(RowLexemes(rows[i])))
    ensures Yields(f, true, RenderRows(rows), RowsLexemes(rows))
    decreases |rows|
  {
    if rows == [] {
      YieldsNothing(f);
    } else {
      var n := |rows| - 1;
      var last, t := RenderTuple(rows[n]), Wrapped(RowLexemes(rows[n]));
      assert Yields(f, true, last, t);
      assert Tuples(rows) == Tuples(rows[..n]) + [t];
      StrungMore(Tuples(rows[..n]), t);
      if n > 0 {
        RowsYield(f, rows[..n]);
        RowStep(f, RenderRows(rows[..n]), RowsLexemes(rows[..n]), last, t);
      }
    }
  }

  lemma RowStep(f: Lexer, head: string, x: seq<Lexeme>, last: string, y: seq<Lexeme>)
    requires Yields(f, true, head, x) && Yields(f, true, last, y) && Yields(f, true, ",\n", [Mark(',')])
    ensures Yields(f, true, head + ",\n" + last, x + [Mark(',')] + y)
  {
    YieldsBoth(f, true, head, x, true, ",\n", [Mark(',')]);
    YieldsBoth(f, true, head + ",\n", x + [Mark(',')], true, last, y);
  }

  // ---- a whole statement ----

  function InsertLexemes(name: string, cols: seq<string>, rows: seq<Row>): seq<Lexeme> {
    [Word("INSERT"), Word("INTO")] + [NameLexeme(name)] + Wrapped(NameLexemes(cols)) + [Word("VALUES")]
    + RowsLexemes(rows)
  }

  lemma ColumnsYield(cols: seq<string>)
    ensures Yields(Lex, true, "(" + Join(seq(|cols|, i requires 0 <= i < |cols| => QuoteIdent(cols[i])), ", ") + ")",
                   Wrapped(NameLexemes(cols)))
  {
    var parts := seq(|cols|, i requires 0 <= i < |cols| => QuoteIdent(cols[i]));
    forall i: nat ensures ItemYields(Lex, parts, NameLexemes(cols), i) {
      if i < |cols| {
        NameYields(cols[i]);
      }
    }
    LexPunctuates();
    WrappedYields(Lex, parts, NameLexemes(cols));
  }

  /** Five pieces in a row, the second with a space behind it. */
  lemma Assembled(f: Lexer, a: string, b: string, c: string, d: string, e: string,
                  u: seq<Lexeme>, v: seq<Lexeme>, w: seq<Lexeme>, x: seq<Lexeme>, y: seq<Lexeme>)
    requires Yields(f, true, " ", [])
    requires Yields(f, true, a, u) && Yields(f, false, b, v) && Yields(f, true, c, w)
    requires Yields(f, true, d, x) && Yields(f, true, e, y)
    ensures Yields(f, true, a + b + " " + c + d + e, u + v + w + x + y)
  {
    YieldsBoth(f, true, a, u, false, b, v);
    YieldsBoth(f, false, a + b, u + v, true, " ", []);
    assert u + v + [] == u + v;
    YieldsBoth(f, true, a + b + " ", u + v, true, c, w);
    YieldsBoth(f, true, a + b + " " + c, u + v + w, true, d, x);
    YieldsBoth(f, true, a + b + " " + c + d, u + v + w + x, true, e, y);
  }

  lemma InsertYields(name: string, cols: seq<string>, rows: seq<Row>)
    requires RowsOk(rows)
    ensures Yields(Lex, true, InsertPrefix(name, cols) + RenderRows(rows), InsertLexemes(name, cols, rows))
  {
    var list := "(" + Join(seq(|cols|, i requires 0 <= i < |cols| => QuoteIdent(cols[i])), ", ") + ")";
    FixedWords();
    NameYields(name);
    ColumnsYield(cols);
    LexPunctuates();
    forall i | 0 <= i < |rows| ensures Yields(Lex, true, RenderTuple(rows[i]), Wrapped(RowLexemes(rows[i]))) {
      TupleYields(rows[i]);
    }
    RowsYield(Lex, rows);
    Assembled(Lex, "INSERT INTO ", QuoteIdent(name), list, " VALUES\n", RenderRows(rows),
              [Word("INSERT"), Word("INTO")], [NameLexeme(name)], Wrapped(NameLexemes(cols)), [Word("VALUES")],
              RowsLexemes(rows));
    PrefixIs(name, cols, list);
  }

  lemma PrefixIs(name: string, cols: seq<string>, list: string)
    requires list == "(" + Join(seq(|cols|, i requires 0 <= i < |cols| => QuoteIdent(cols[i])), ", ") + ")"
    ensures InsertPrefix(name, cols) == "INSERT INTO " + QuoteIdent(name) + " " + list + " VALUES\n"
  {
    assert " (" == " " + "(" && ") VALUES\n" == ")" + " VALUES\n";
  }

  lemma InsertLexes(name: string, cols: seq<string>, rows: seq<Row>)
    requires RowsOk(rows)
    ensures Lex(InsertPrefix(name, cols) + RenderRows(rows)) == InsertLexemes(name, cols, rows)
  {
    InsertYields(name, cols, rows);
    WholeText(Lex, InsertPrefix(name, cols) + RenderRows(rows), InsertLexemes(name, cols, rows));
  }

  lemma WholeText(f: Lexer, text: string, ls: seq<Lexeme>)
    requires Yields(f, true, text, ls) && f([]) == []
    ensures f(text) == ls
  {
    assert text + [] == text;
    assert f(text + []) == ls + f([]);
  }

  // ---- reading it back ----

  lemma {:induction false} ItemsBack(ls: seq<Lexeme>, rest: seq<Lexeme>)
    requires ls != [] && forall i :: 0 <= i < |ls| ==> !ls[i].Mark?
    ensures Items(Commas(ls) + [Mark(')')] + rest) == Some((ls, rest))
    decreases |ls|
  {
    var all := Commas(ls) + [Mark(')')] + rest;
    if |ls| == 1 {
      assert all[0] == ls[0] && all[1] == Mark(')') && all[2..] == rest && [ls[0]] == ls;
    } else {
      assert all[0] == ls[0] && all[1] == Mark(',');
      assert all[2..] == Commas(ls[1..]) + [Mark(')')] + rest;
      ItemsBack(ls[1..], rest);
      assert [ls[0]] + ls[1..] == ls;
    }
  }

  lemma BracketedBack(ls: seq<Lexeme>, rest: seq<Lexeme>)
    requires forall i :: 0 <= i < |ls| ==> !ls[i].Mark?
    ensures Bracketed(Wrapped(ls) + rest) == Some((ls, rest))
  {
    var all := Wrapped(ls) + rest;
    if ls == [] {
      assert all[0] == Mark('(') && all[1] == Mark(')') && all[2..] == rest;
    } else {
      ItemsBack(ls, rest);
      assert all[0] == Mark('(') && all[1..] == Commas(ls) + [Mark(')')] + rest;
      assert all[1] == ls[0];
    }
  }

  /** What a value stands for: text that was written as it is reads as text. */
  function Meant(v: Value): Value {
    if v.Verbatim? then Text(v.text) else v
  }

  function MeantRow(row: Row): Row {
    seq(|row|, i requires 0 <= i < |row| => Meant(row[i]))
  }

  function MeantRows(rows: seq<Row>): seq<Row> {
    seq(|rows|, i requires 0 <= i < |rows| => MeantRow(rows[i]))
  }

  lemma RowBack(row: Row)
    requires forall i :: 0 <= i < |row| ==> ValueOk(row[i])
    ensures ReadRow(RowLexemes(row)) == MeantRow(row)
  {
    forall i | 0 <= i < |row| ensures ReadValue(RowLexemes(row)[i]) == Meant(row[i]) {
      assert ValueOk(row[i]);
    }
  }

  lemma LastBack(row: seq<Lexeme>)
    requires forall i :: 0 <= i < |row| ==> !row[i].Mark?
    ensures ReadTuples(Wrapped(row)) == Some([ReadRow(row)])
  {
    BracketedBack(row, []);
    assert Wrapped(row) + [] == Wrapped(row);
  }

  lemma FirstBack(row: seq<Lexeme>, more: seq<Lexeme>, rows: seq<Row>)
    requires (forall i :: 0 <= i < |row| ==> !row[i].Mark?) && ReadTuples(more) == Some(rows)
    ensures ReadTuples(Wrapped(row) + ([Mark(',')] + more)) == Some([ReadRow(row)] + rows)
  {
    BracketedBack(row, [Mark(',')] + more);
    assert ([Mark(',')] + more)[0] == Mark(',') && ([Mark(',')] + more)[1..] == more;
  }

  lemma {:induction false} TuplesBack(rows: seq<Row>)
    requires RowsOk(rows) && rows != []
    ensures ReadTuples(RowsLexemes(rows)) == Some(MeantRows(rows))
    decreases |rows|
  {
    var first := RowLexemes(rows[0]);
    RowBack(rows[0]);
    if |rows| == 1 {
      LastBack(first);
      assert MeantRows(rows) == [MeantRow(rows[0])];
    } else {
      TuplesBack(rows[1..]);
      FirstBack(first, RowsLexemes(rows[1..]), MeantRows(rows[1..]));
      assert Tuples(rows)[1..] == Tuples(rows[1..]);
      assert MeantRows(rows) == [MeantRow(rows[0])] + MeantRows(rows[1..]);
    }
  }

  lemma NamesBack(names: seq<string>)
    ensures ReadNames(NameLexemes(names)) == names
  {
  }

  lemma StatementReads(name: Lexeme, cols: seq<Lexeme>, rows: seq<Lexeme>, ls: seq<Lexeme>, read: seq<Row>)
    requires ls == [Word("INSERT"), Word("INTO")] + [name] + Wrapped(cols) + [Word("VALUES")] + rows
    requires !name.Mark? && (forall i :: 0 <= i < |cols| ==> !cols[i].Mark?) && ReadTuples(rows) == Some(read)
    ensures ReadStatement(ls) == Some(Insert(ReadName(name), ReadNames(cols), read))
  {
    var rest := [Word("VALUES")] + rows;
    assert ls[0] == Word("INSERT") && ls[1] == Word("INTO") && ls[2] == name;
    assert ls[3..] == Wrapped(cols) + rest;
    BracketedBack(cols, rest);
    assert rest[0] == Word("VALUES") && rest[1..] == rows;
  }

  /** A rendered statement reads as the table, the columns and the rows it was made from. */
  lemma InsertBack(name: string, cols: seq<string>, rows: seq<Row>)
    requires RowsOk(rows) && rows != []
    ensures ReadInsert(InsertPrefix(name, cols) + RenderRows(rows)) == Some(Insert(name, cols, MeantRows(rows)))
  {
    InsertLexes(name, cols, rows);
    TuplesBack(rows);
    NamesBack(cols);
    StatementReads(NameLexeme(name), NameLexemes(cols), RowsLexemes(rows), InsertLexemes(name, cols, rows),
                   MeantRows(rows));
  }

  /** The same after the line break between statements. */
  lemma StatementBack(name: string, cols: seq<string>, rows: seq<Row>, gap: string)
    requires RowsOk(rows) && rows != [] && (gap == "" || gap == "\n")
    ensures ReadInsert(gap + (InsertPrefix(name, cols) + RenderRows(rows))) == Some(Insert(name, cols, MeantRows(rows)))
  {
    var text := InsertPrefix(name, cols) + RenderRows(rows);
    InsertBack(name, cols, rows);
    if gap == "" {
      assert gap + text == text;
    } else {
      LexSpace('\n', text);
    }
  }

  // ---- a whole dump ----

  /** What each statement says. */
  function ReadAll(stmts: seq<string>): seq<Option<Insert>> {
    seq(|stmts|, i requires 0 <= i < |stmts| => ReadInsert(stmts[i]))
  }

  /** Every one is an INSERT into the table. */
  predicate AllInto(read: seq<Option<Insert>>, name: string, cols: seq<string>) {
    forall i :: 0 <= i < |read| ==> read[i].Some? && read[i].value.name == name && read[i].value.cols == cols
  }

  /** None is empty and all but the last have a full batch of rows. */
  predicate Batched(read: seq<Option<Insert>>, batch: nat) {
    forall i :: 0 <= i < |read| ==>
      read[i].Some? && 1 <= |read[i].value.rows| <= batch && (i < |read| - 1 ==> |read[i].value.rows| == batch)
  }

  /** The rows of all of them, in order. */
  function RowsOf(read: seq<Option<Insert>>): seq<Row>
    decreases |read|
  {
    if read == [] then [] else (if read[0].Some? then read[0].value.rows else []) + RowsOf(read[1..])
  }

  lemma MeantConcat(a: seq<Row>, b: seq<Row>)
    ensures MeantRows(a + b) == MeantRows(a) + MeantRows(b)
  {
  }

  lemma {:induction false} RowsBack(read: seq<Option<Insert>>, name: string, cols: seq<string>, chunks: seq<seq<Row>>)
    requires |read| == |chunks|
    requires forall i :: 0 <= i < |read| ==> read[i] == Some(Insert(name, cols, MeantRows(chunks[i])))
    ensures RowsOf(read) == MeantRows(Flat(chunks))
    decreases |read|
  {
    if read != [] {
      RowsBack(read[1..], name, cols, chunks[1..]);
      MeantConcat(chunks[0], Flat(chunks[1..]));
    }
  }

  /** Dumping a table, scanning the text and reading each statement gives the table's name,
      its columns and its rows in order, none lost, repeated or changed; one statement a
      batch. */
  lemma DumpRoundTrip(name: string, cols: seq<string>, rows: seq<Row>, batch: nat)
    requires batch >= 1 && RowsOk(rows)
    ensures var read := ReadAll(ScanAll(DumpText(InsertPrefix(name, cols), Chunks(rows, batch))));
            AllInto(read, name, cols) && Batched(read, batch) && RowsOf(read) == MeantRows(rows)
  {
    var chunks := Chunks(rows, batch);
    ChunksOk(rows, batch);
    ChunksHold(rows, batch);
    DumpScans(name, cols, chunks);
    var stmts := Inserts(name, cols, chunks);
    forall i | 0 <= i < |stmts| ensures ReadAll(stmts)[i] == Some(Insert(name, cols, MeantRows(chunks[i]))) {
      StatementBack(name, cols, chunks[i], if i == 0 then "" else "\n");
    }
    RowsBack(ReadAll(stmts), name, cols, chunks);
  }
}
