/** Splitting a dump into statements (bulk/scan.go). */
module Scanner {
  import opened Prelude

  /** What the scanner is inside of. */
  datatype Mode = Plain | InString | InIdent | InComment

  const QUOTE: char := '\''
  const DOUBLE: char := '\"'

  predicate IsSpace(c: char) {
    c == ' ' || c == '\t' || c == '\n' || c == '\r' || c == '\U{b}' || c == '\U{c}'
  }

  predicate Blank(s: string) {
    forall i :: 0 <= i < |s| ==> IsSpace(s[i])
  }

  /** A statement, or none at the end, and the input left. */
  datatype Scan = Scan(stmt: Option<string>, rest: string)

  /** One statement read from the input, with some text already kept. */
  function Run(mode: Mode, s: string, buf: string): (r: Scan)
    ensures |r.rest| <= |s| && (s != [] ==> |r.rest| < |s|)
    decreases |s|
  {
    if s == [] then Scan(if Blank(buf) then None else Some(buf), [])
    else
      var c := s[0];
      match mode
      case InComment => if c == '\n' then Run(Plain, s[1..], buf + [c]) else Run(InComment, s[1..], buf)
      case InString =>
        if c != QUOTE then Run(InString, s[1..], buf + [c])
        else if |s| > 1 && s[1] == QUOTE then Run(InString, s[2..], buf + [QUOTE, QUOTE])
        else Run(Plain, s[1..], buf + [c])
      case InIdent => Run(if c == DOUBLE then Plain else InIdent, s[1..], buf + [c])
      case Plain =>
        if c == QUOTE then Run(InString, s[1..], buf + [c])
        else if c == DOUBLE then Run(InIdent, s[1..], buf + [c])
        else if c == '-' && |s| > 1 && s[1] == '-' then Run(InComment, s[2..], buf)
        else if c == ';' then Scan(Some(buf), s[1..])
        else Run(Plain, s[1..], buf + [c])
  }

  /** The scanner over an input. */
  class StmtScanner {
    var input: string

    constructor (text: string)
      ensures input == text
    {
      input := text;
    }

    /** The next statement without its semicolon, or none when nothing is left. */
    method Next() returns (stmt: Option<string>)
      modifies this
      ensures Scan(stmt, input) == Run(Plain, old(input), "")
    {
      var buf := "";
      var inString, inIdent, inComment := false, false, false;
      while true
        invariant !(inString && inIdent) && !(inComment && (inString || inIdent))
        invariant Run(Plain, old(input), "") == Run(Flags(inString, inIdent, inComment), input, buf)
        decreases |input|
      {
        if input == [] {
          return if Blank(buf) then None else Some(buf);
        }
        ghost var s, before := input, buf;
        var c := input[0];
        input := input[1..];
        assert |s| > 1 ==> s[2..] == input[1..];
        if inComment {
          if c == '\n' {
            inComment, buf := false, buf + [c];
          }
        } else if inString {
          buf := buf + [c];
          if c == QUOTE {
            if input != [] && input[0] == QUOTE {
              input, buf := input[1..], buf + [QUOTE];
              assert buf == before + [QUOTE, QUOTE];
            } else {
              inString := false;
            }
          }
        } else if inIdent {
          buf := buf + [c];
          if c == DOUBLE {
            inIdent := false;
          }
        } else if c == QUOTE {
          inString, buf := true, buf + [c];
        } else if c == DOUBLE {
          inIdent, buf := true, buf + [c];
        } else if c == '-' && input != [] && input[0] == '-' {
          input, inComment := input[1..], true;
        } else if c == ';' {
          return Some(buf);
        } else {
          buf := buf + [c];
        }
      }
    }
  }

  function Flags(inString: bool, inIdent: bool, inComment: bool): Mode {
    if inComment then InComment else if inString then InString else if inIdent then InIdent else Plain
  }

  // ---- every statement of an input ----

  function ScanAll(s: string): seq<string>
    decreases |s|
  {
    var r := Run(Plain, s, "");
    if r.stmt.None? || s == [] then [] else [r.stmt.value] + ScanAll(r.rest)
  }

  // ---- text that passes through unchanged ----

  /** No quote or semicolon, no comment inside, and none begun at the end. */
  predicate PlainText(t: string) {
    && (forall i :: 0 <= i < |t| ==> t[i] != QUOTE && t[i] != DOUBLE && t[i] != ';')
    && (forall i :: 0 <= i < |t| - 1 ==> t[i] != '-' || t[i + 1] != '-')
    && (t != [] ==> t[|t| - 1] != '-')
  }

  /** Each q doubled. */
  function Doubled(t: string, q: char): string
    decreases |t|
  {
    if t == [] then [] else (if t[0] == q then [q, q] else [t[0]]) + Doubled(t[1..], q)
  }

  function StringLiteral(t: string): string {
    [QUOTE] + Doubled(t, QUOTE) + [QUOTE]
  }

  function QuotedIdent(t: string): string {
    [DOUBLE] + Doubled(t, DOUBLE) + [DOUBLE]
  }

  lemma {:induction false} PlainPasses(t: string, rest: string, buf: string)
    requires PlainText(t)
    ensures Run(Plain, t + rest, buf) == Run(Plain, rest, buf + t)
    decreases |t|
  {
    if t == [] {
      assert t + rest == rest && buf + t == buf;
    } else {
      var s := t + rest;
      assert s[0] == t[0] && s[1..] == t[1..] + rest;
      assert |t| > 1 ==> s[1] == t[1];
      PlainPasses(t[1..], rest, buf + [t[0]]);
      assert buf + [t[0]] + t[1..] == buf + t;
    }
  }

  /** What one character of the text is written as. */
  function Step(c: char, q: char): string {
    if c == q then [q, q] else [c]
  }

  lemma StringStep(c: char, tail: string, buf: string)
    ensures Run(InString, Step(c, QUOTE) + tail, buf) == Run(InString, tail, buf + Step(c, QUOTE))
  {
    var s := Step(c, QUOTE) + tail;
    assert s[0] == c && s[|Step(c, QUOTE)|..] == tail;
    assert c == QUOTE ==> s[1] == QUOTE;
  }

  lemma IdentStep(c: char, tail: string, buf: string)
    ensures Run(InIdent, Step(c, DOUBLE) + tail, buf) == Run(InIdent, tail, buf + Step(c, DOUBLE))
  {
    var s := Step(c, DOUBLE) + tail;
    if c == DOUBLE {
      var t := [DOUBLE] + tail;
      assert s[0] == DOUBLE && s[1..] == t && t[0] == DOUBLE && t[1..] == tail;
      assert buf + [DOUBLE] + [DOUBLE] == buf + Step(c, DOUBLE);
    } else {
      assert s[0] == c && s[1..] == tail;
    }
  }

  lemma DoubledStep(t: string, q: char, rest: string, buf: string)
    requires t != []
    ensures Doubled(t, q) + [q] + rest == Step(t[0], q) + (Doubled(t[1..], q) + [q] + rest)
    ensures buf + Step(t[0], q) + Doubled(t[1..], q) + [q] == buf + Doubled(t, q) + [q]
  {
    assert Doubled(t, q) == Step(t[0], q) + Doubled(t[1..], q);
  }

  /** Inside a literal, doubled quotes keep it open and the last one closes it. */
  lemma {:induction false} StringPasses(t: string, rest: string, buf: string)
    requires rest == [] || rest[0] != QUOTE
    ensures Run(InString, Doubled(t, QUOTE) + [QUOTE] + rest, buf)
            == Run(Plain, rest, buf + Doubled(t, QUOTE) + [QUOTE])
    decreases |t|
  {
    if t == [] {
      var s := Doubled(t, QUOTE) + [QUOTE] + rest;
      assert s[0] == QUOTE && s[1..] == rest && buf + Doubled(t, QUOTE) == buf;
    } else {
      DoubledStep(t, QUOTE, rest, buf);
      StringStep(t[0], Doubled(t[1..], QUOTE) + [QUOTE] + rest, buf);
      StringPasses(t[1..], rest, buf + Step(t[0], QUOTE));
    }
  }

  /** A doubled quote closes the identifier and opens it again at once. */
  lemma {:induction false} IdentPasses(t: string, rest: string, buf: string)
    ensures Run(InIdent, Doubled(t, DOUBLE) + [DOUBLE] + rest, buf)
            == Run(Plain, rest, buf + Doubled(t, DOUBLE) + [DOUBLE])
    decreases |t|
  {
    if t == [] {
      var s := Doubled(t, DOUBLE) + [DOUBLE] + rest;
      assert s[0] == DOUBLE && s[1..] == rest && buf + Doubled(t, DOUBLE) == buf;
    } else {
      DoubledStep(t, DOUBLE, rest, buf);
      IdentStep(t[0], Doubled(t[1..], DOUBLE) + [DOUBLE] + rest, buf);
      IdentPasses(t[1..], rest, buf + Step(t[0], DOUBLE));
    }
  }

  // ---- printed statements ----

  /** A piece of a statement: bare text, a string literal, or a quoted identifier. */
  datatype Token = Bare(text: string) | Literal(text: string) | Quoted(text: string)

  function Show(t: Token): string {
    match t
    case Bare(text) => text
    case Literal(text) => StringLiteral(text)
    case Quoted(text) => QuotedIdent(text)
  }

  function Print(ts: seq<Token>): string
    decreases |ts|
  {
    if ts == [] then [] else Show(ts[0]) + Print(ts[1..])
  }

  /** Bare text is plain, and a literal is followed by something else than a literal. */
  predicate Printable(ts: seq<Token>) {
    && (forall i :: 0 <= i < |ts| && ts[i].Bare? ==> ts[i].text != [] && PlainText(ts[i].text))
    && (forall i :: 0 <= i < |ts| - 1 ==> !(ts[i].Literal? && ts[i + 1].Literal?))
  }

  predicate StartsQuote(s: string) {
    s != [] && s[0] == QUOTE
  }

  lemma TokenPasses(t: Token, rest: string, buf: string)
    requires t.Bare? ==> PlainText(t.text)
    requires t.Literal? ==> !StartsQuote(rest)
    ensures Run(Plain, Show(t) + rest, buf) == Run(Plain, rest, buf + Show(t))
  {
    match t
    case Bare(text) =>
      PlainPasses(text, rest, buf);
    case Literal(text) =>
      var d := Doubled(text, QUOTE);
      var s := [QUOTE] + d + [QUOTE] + rest;
      assert s[0] == QUOTE && s[1..] == d + [QUOTE] + rest;
      StringPasses(text, rest, buf + [QUOTE]);
      assert buf + [QUOTE] + d + [QUOTE] == buf + StringLiteral(text);
    case Quoted(text) =>
      var d := Doubled(text, DOUBLE);
      var s := [DOUBLE] + d + [DOUBLE] + rest;
      assert s[0] == DOUBLE && s[1..] == d + [DOUBLE] + rest;
      IdentPasses(text, rest, buf + [DOUBLE]);
      assert buf + [DOUBLE] + d + [DOUBLE] == buf + QuotedIdent(text);
  }

  lemma PrintStart(ts: seq<Token>, rest: string)
    requires Printable(ts) && !StartsQuote(rest) && (ts != [] ==> !ts[0].Literal?)
    ensures !StartsQuote(Print(ts) + rest)
  {
    if ts == [] {
      assert Print(ts) + rest == rest;
    } else {
      assert (Print(ts) + rest)[0] == Show(ts[0])[0];
    }
  }

  /** A printed statement passes through unchanged. */
  lemma {:induction false} PrintPasses(ts: seq<Token>, rest: string, buf: string)
    requires Printable(ts) && !StartsQuote(rest)
    ensures Run(Plain, Print(ts) + rest, buf) == Run(Plain, rest, buf + Print(ts))
    decreases |ts|
  {
    if ts == [] {
      assert Print(ts) + rest == rest && buf + Print(ts) == buf;
    } else {
      var tail := Print(ts[1..]) + rest;
      assert Printable(ts[1..]);
      if ts[0].Literal? {
        PrintStart(ts[1..], rest);
      }
      assert Print(ts) + rest == Show(ts[0]) + tail;
      TokenPasses(ts[0], tail, buf);
      PrintPasses(ts[1..], rest, buf + Show(ts[0]));
      assert buf + Show(ts[0]) + Print(ts[1..]) == buf + Print(ts);
    }
  }

  // ---- what stands between statements ----

  /** White space, or a comment to the end of its line. */
  datatype Filler = Space(c: char) | Comment(text: string)

  predicate FillerOk(f: Filler) {
    match f
    case Space(c) => IsSpace(c)
    case Comment(text) => '\n' !in text
  }

  function ShowFiller(f: Filler): string {
    match f
    case Space(c) => [c]
    case Comment(text) => "--" + text + "\n"
  }

  /** What the scanner keeps of it. */
  function Kept(f: Filler): char {
    if f.Space? then f.c else '\n'
  }

  function Fill(fs: seq<Filler>): string
    decreases |fs|
  {
    if fs == [] then [] else ShowFiller(fs[0]) + Fill(fs[1..])
  }

  function KeptFill(fs: seq<Filler>): string {
    seq(|fs|, i requires 0 <= i < |fs| => Kept(fs[i]))
  }

  lemma {:induction false} CommentPasses(text: string, rest: string, buf: string)
    requires '\n' !in text
    ensures Run(InComment, text + "\n" + rest, buf) == Run(Plain, rest, buf + "\n")
    decreases |text|
  {
    var s := text + "\n" + rest;
    if text == [] {
      assert s[0] == '\n' && s[1..] == rest;
    } else {
      assert s[0] == text[0] && s[1..] == text[1..] + "\n" + rest;
      CommentPasses(text[1..], rest, buf);
    }
  }

  lemma FillerPasses(f: Filler, rest: string, buf: string)
    requires FillerOk(f)
    ensures Run(Plain, ShowFiller(f) + rest, buf) == Run(Plain, rest, buf + [Kept(f)])
  {
    var s := ShowFiller(f) + rest;
    match f
    case Space(c) =>
      assert s[0] == c && s[1..] == rest;
    case Comment(text) =>
      assert s[0] == '-' && s[1] == '-' && s[2..] == text + "\n" + rest;
      CommentPasses(text, rest, buf);
  }

  lemma {:induction false} FillPasses(fs: seq<Filler>, rest: string, buf: string)
    requires forall i :: 0 <= i < |fs| ==> FillerOk(fs[i])
    ensures Run(Plain, Fill(fs) + rest, buf) == Run(Plain, rest, buf + KeptFill(fs))
    decreases |fs|
  {
    if fs == [] {
      assert Fill(fs) + rest == rest && buf + KeptFill(fs) == buf;
    } else {
      assert Fill(fs) + rest == ShowFiller(fs[0]) + (Fill(fs[1..]) + rest);
      FillerPasses(fs[0], Fill(fs[1..]) + rest, buf);
      FillPasses(fs[1..], rest, buf + [Kept(fs[0])]);
      assert buf + [Kept(fs[0])] + KeptFill(fs[1..]) == buf + KeptFill(fs);
    }
  }

  lemma KeptBlank(fs: seq<Filler>)
    requires forall i :: 0 <= i < |fs| ==> FillerOk(fs[i])
    ensures Blank(KeptFill(fs))
  {
  }

  // ---- whole scripts ----

  /** A statement with what precedes it. */
  datatype Entry = Entry(before: seq<Filler>, tokens: seq<Token>)

  predicate EntryOk(e: Entry) {
    Printable(e.tokens) && forall i :: 0 <= i < |e.before| ==> FillerOk(e.before[i])
  }

  /** The script: each statement ended by a semicolon, then whatever is left. */
  function Script(es: seq<Entry>, tail: seq<Filler>): string
    decreases |es|
  {
    if es == [] then Fill(tail)
    else Fill(es[0].before) + (Print(es[0].tokens) + (";" + Script(es[1..], tail)))
  }

  /** What scanning it should give: the statements, after the white space kept. */
  function Statements(es: seq<Entry>): seq<string> {
    seq(|es|, i requires 0 <= i < |es| => KeptFill(es[i].before) + Print(es[i].tokens))
  }

  lemma ScanOne(e: Entry, rest: string)
    requires EntryOk(e)
    ensures Run(Plain, Fill(e.before) + (Print(e.tokens) + (";" + rest)), "")
            == Scan(Some(KeptFill(e.before) + Print(e.tokens)), rest)
  {
    FillPasses(e.before, Print(e.tokens) + (";" + rest), "");
    assert "" + KeptFill(e.before) == KeptFill(e.before);
    PrintPasses(e.tokens, ";" + rest, KeptFill(e.before));
    assert (";" + rest)[0] == ';' && (";" + rest)[1..] == rest;
  }

  /** Scanning a printed script gives back exactly its statements, up to white space and
      comments before each. */
  lemma {:induction false} ScanPrinted(es: seq<Entry>, tail: seq<Filler>)
    requires (forall i :: 0 <= i < |es| ==> EntryOk(es[i])) && forall i :: 0 <= i < |tail| ==> FillerOk(tail[i])
    ensures ScanAll(Script(es, tail)) == Statements(es)
    decreases |es|
  {
    if es == [] {
      FillPasses(tail, "", "");
      assert Fill(tail) + "" == Fill(tail) && "" + KeptFill(tail) == KeptFill(tail);
      KeptBlank(tail);
    } else {
      ScanOne(es[0], Script(es[1..], tail));
      ScanPrinted(es[1..], tail);
      assert Statements(es) == [KeptFill(es[0].before) + Print(es[0].tokens)] + Statements(es[1..]);
    }
  }
}
