/** Scripts with DELIMITER lines: every section is split by the delimiter that the line above it sets. */
module SqlSections {
  import opened Common
  import opened SqlChunking
  import opened SqlDirective
  import opened SqlLexer
  import opened SqlScriptPieces

  datatype Script =
    | Last(stmts: seq<seq<Piece>>)
    | More(stmts: seq<seq<Piece>>, line: Line, rest: Script)

  /** The first value of a directive line. */
  function Value(d: Line): seq<byte> { if d.fields == [] then [] else d.fields[0].value }

  /** The script as it is written when the first section's delimiter is `delimiter`. */
  function SectionsText(s: Script, delimiter: seq<byte>): seq<byte>
    decreases s, 0
  {
    if s.stmts == [] then []
    else match s
      case Last(stmts) => ScriptText(stmts, delimiter)
      case More(stmts, d, rest) => ScriptText(stmts, delimiter) + UnderLine(d, rest)
  }

  /** The directive line and the sections under it. */
  function UnderLine(d: Line, rest: Script): seq<byte>
    decreases rest, 1
  {
    LineText(d) + [LF] + SectionsText(rest, Value(d))
  }

  /** One value of at most 32 bytes. */
  ghost predicate SetsDelimiter(d: Line) { IsLine(d) && |d.fields| == 1 && 1 <= |Value(d)| <= 32 }

  /** The lexer behind the line: the delimiter is new, nothing is open, and the position has moved on. */
  function Directed(lx: Lexer, d: Line): Lexer
    requires 1 <= |Value(d)| <= 32
  {
    ConsumedAll(Reset(lx).(delimiter := Value(d)), LineText(d) + [LF])
  }

  predicate EndsLine(s: seq<byte>) { s == [] || s[|s| - 1] == LF }

  /** Every section reads with its own delimiter. A directive line starts a line and has one value of at most
      32 bytes, and no statement is open there. */
  ghost predicate SectionsRead(s: Script, lx: Lexer)
    decreases s
  {
    && s.stmts != []
    && match s
       case Last(stmts) => ScriptReads(stmts, lx, [])
       case More(stmts, d, rest) =>
         && ScriptReads(stmts, lx, UnderLine(d, rest)) && EndsLine(ScriptText(stmts, lx.delimiter))
         && !AnyCode(stmts[|stmts| - 1]) && SetsDelimiter(d)
         && SectionsRead(rest, Directed(AfterSection(stmts, lx), d))
  }

  function SectionsExpected(s: Script): seq<seq<byte>> {
    match s
    case Last(stmts) => Expected(stmts)
    case More(stmts, _, rest) => Expected(stmts) + SectionsExpected(rest)
  }

  // ---- The position behind a section ----

  /** Behind `s`, the line number and whether a line starts there. */
  predicate Placed(lx: Lexer, s: seq<byte>, l: Lexer) {
    l.line == lx.line + Breaks(s) && l.lineStart == (if s == [] then lx.lineStart else s[|s| - 1] == LF)
  }

  lemma {:induction false} BreaksAppend(a: seq<byte>, b: seq<byte>)
    ensures Breaks(a + b) == Breaks(a) + Breaks(b)
    decreases |a|
  {
    if a == [] {
      assert a + b == b;
    } else {
      assert (a + b)[1..] == a[1..] + b;
      BreaksAppend(a[1..], b);
    }
  }

  lemma PlacedAppend(lx: Lexer, a: seq<byte>, m: Lexer, b: seq<byte>, l: Lexer)
    requires Placed(lx, a, m) && Placed(m, b, l)
    ensures Placed(lx, a + b, l)
  {
    BreaksAppend(a, b);
  }

  lemma {:induction false} FedPlaces(lx: Lexer, s: seq<byte>)
    ensures Placed(lx, s, Fed(lx, s))
    decreases |s|
  {
    if s != [] { FedPlaces(Fed1(lx, s[0]), s[1..]); }
  }

  lemma {:induction false} AfterAllPlaces(lx: Lexer, ps: seq<Piece>)
    ensures Placed(lx, Render(ps), AfterAll(lx, ps))
    decreases |ps|
  {
    hide Fed, Spell, HasCode;
    if ps != [] {
      var l := After(lx, ps[0]);
      FedPlaces(lx, Spell(ps[0]));
      AfterAllPlaces(l, ps[1..]);
      assert Placed(lx, Spell(ps[0]), l);
      PlacedAppend(lx, Spell(ps[0]), l, Render(ps[1..]), AfterAll(lx, ps));
    }
  }

  lemma NextPlaces(lx: Lexer)
    ensures Placed(lx, lx.delimiter, Next(lx))
  {
    ConsumedAllPasses(Reset(lx), lx.delimiter);
  }

  lemma {:induction false} SectionPlaces(stmts: seq<seq<Piece>>, lx: Lexer)
    requires stmts != []
    ensures Placed(lx, ScriptText(stmts, lx.delimiter), AfterSection(stmts, lx))
    decreases |stmts|
  {
    hide AfterAll, Render, Next, Placed;
    var l := AfterAll(lx, stmts[0]);
    AfterAllPlaces(lx, stmts[0]);
    if |stmts| > 1 {
      AfterAllKeeps(lx, stmts[0]);
      NextKeepsDelimiter(l);
      NextPlaces(l);
      SectionPlaces(stmts[1..], Next(l));
      var more, end := ScriptText(stmts[1..], lx.delimiter), AfterSection(stmts, lx);
      PlacedAppend(l, lx.delimiter, Next(l), more, end);
      PlacedAppend(lx, Render(stmts[0]), l, lx.delimiter + more, end);
    }
  }

  lemma NextKeepsDelimiter(lx: Lexer)
    ensures Next(lx).delimiter == lx.delimiter
  {
    ConsumedAllKeeps(Reset(lx), lx.delimiter);
  }

  // ---- Past a directive line ----

  /** A line that sets the delimiter is passed, and another one ends the run with its error. */
  lemma DirectiveRun(lx: Lexer, d: Line, more: seq<byte>)
    requires lx.mode.Normal? && lx.lineStart && IsLine(d)
    ensures var p := Run(lx, LineText(d) + [LF] + more, true);
            match Refusal(d, lx.hasCode, lx.line)
            case Some(e) => p == Failed(e)
            case None => 1 <= |Value(d)| <= 32 && p == Run(Directed(lx, d), more, true)
  {
    hide LineText, IsLine, Step, Run, ConsumedAll, Breaks;
    var s := LineText(d) + [LF] + more;
    DirectiveDecides(lx, d, [LF], more, true);
    if Refusal(d, lx.hasCode, lx.line).Some? {
      RunStops(lx, s);
    } else {
      RunStep(lx, s, true);
      var g := Step(lx, s, true);
      assert IsField(d.fields[0]) by { LineFields(d); }
      DirectedMeans(lx, d);
      assert g.next == Directed(lx, d);
      assert s[g.used..] == more;
      PrependNothing(Run(g.next, more, true));
    }
  }

  lemma RunStops(lx: Lexer, s: seq<byte>)
    requires s != [] && Step(lx, s, true).Stop?
    ensures Run(lx, s, true) == Failed(Step(lx, s, true).error)
  {
    hide Step;
  }

  lemma LineFields(d: Line)
    requires IsLine(d)
    ensures AllFields(d.fields) && LF !in LineText(d)
  {
  }

  lemma DirectedMeans(lx: Lexer, d: Line)
    requires IsLine(d) && 1 <= |Value(d)| <= 32
    ensures var l := Directed(lx, d);
            && l == Reset(lx).(delimiter := Value(d), absolute := lx.absolute + |LineText(d)| + 1, line := lx.line + 1,
                               previous := Some(LF), lineStart := true)
  {
    LineFields(d);
    hide LineText, IsLine;
    NoBreaks(LineText(d));
    ConsumedAllPasses(Reset(lx).(delimiter := Value(d)), LineText(d) + [LF]);
  }

  // ---- The whole script ----

  lemma SectionThenLine(stmts: seq<seq<Piece>>, lx: Lexer, d: Line, rest: seq<byte>) returns (out: seq<Statement>)
    requires stmts != [] && Fresh(lx) && lx.lineStart && IsLine(d) && EndsLine(ScriptText(stmts, lx.delimiter))
    requires ScriptReads(stmts, lx, LineText(d) + [LF] + rest)
    ensures var l := AfterSection(stmts, lx);
            && l.limit == lx.limit && l.mode.Normal? && Sqls(out) == Expected(stmts[..|stmts| - 1])
            && var p := Run(lx, ScriptText(stmts, lx.delimiter) + (LineText(d) + [LF] + rest), true);
            match Refusal(d, AnyCode(stmts[|stmts| - 1]), lx.line + Breaks(ScriptText(stmts, lx.delimiter)))
            case Some(e) => p == Failed(e)
            case None => 1 <= |Value(d)| <= 32 && p == Prepend(out, Run(Directed(l, d), rest, true))
  {
    hide LineText, IsLine, Run, Breaks, Refusal, AfterSection, ScriptReads, ScriptText, AnyCode, Expected, Directed;
    out := SectionRun(stmts, lx, LineText(d) + [LF] + rest);
    SectionPlaces(stmts, lx);
    DirectiveRun(AfterSection(stmts, lx), d, rest);
  }

  /** A directive line that is wrong, or that stands inside a statement, ends the split with its error. */
  lemma WrongLineStops(stmts: seq<seq<Piece>>, lx: Lexer, d: Line, rest: seq<byte>, e: ScriptError)
    requires stmts != [] && Fresh(lx) && lx.lineStart && IsLine(d) && EndsLine(ScriptText(stmts, lx.delimiter))
    requires ScriptReads(stmts, lx, LineText(d) + [LF] + rest)
    requires Refusal(d, AnyCode(stmts[|stmts| - 1]), lx.line + Breaks(ScriptText(stmts, lx.delimiter))) == Some(e)
    ensures Concluded(Run(lx, ScriptText(stmts, lx.delimiter) + (LineText(d) + [LF] + rest), true)) == Err(e)
  {
    hide LineText, IsLine, Run, Breaks, Refusal, AfterSection, ScriptReads, ScriptText, AnyCode, Expected, Directed;
    var out := SectionThenLine(stmts, lx, d, rest);
  }

  /** Every section is split into its statements by its own delimiter. */
  lemma {:induction false} SectionsSplit(s: Script, lx: Lexer)
    requires Fresh(lx) && lx.lineStart && SectionsRead(s, lx)
    ensures var r := Concluded(Run(lx, SectionsText(s, lx.delimiter), true));
            r.Ok? && Sqls(r.value) == SectionsExpected(s)
    decreases s
  {
    match s
    case Last(stmts) => ScriptSplits(stmts, lx);
    case More(stmts, d, rest) =>
      hide IsLine, Run, Breaks, AfterSection, ScriptReads, ScriptText, AnyCode, Expected, Directed, Concluded, Fresh,
        SectionsText, UnderLine, SectionsRead, LineText;
      var l, text := AfterSection(stmts, lx), SectionsText(rest, Value(d));
      ReadsMore(stmts, d, rest, lx);
      var out := SectionThenLine(stmts, lx, d, text);
      DirectedIsFresh(l, d);
      SectionsSplit(rest, Directed(l, d));
      ConcludedTail(out, Run(Directed(l, d), text, true));
      SqlsAppend(out, Concluded(Run(Directed(l, d), text, true)).value);
      NothingOpen(stmts);
  }

  lemma ReadsMore(stmts: seq<seq<Piece>>, d: Line, rest: Script, lx: Lexer)
    requires SectionsRead(More(stmts, d, rest), lx)
    ensures stmts != [] && EndsLine(ScriptText(stmts, lx.delimiter)) && SetsDelimiter(d) && !AnyCode(stmts[|stmts| - 1])
    ensures var under := LineText(d) + [LF] + SectionsText(rest, Value(d));
            && ScriptReads(stmts, lx, under) && SectionsRead(rest, Directed(AfterSection(stmts, lx), d))
            && SectionsText(More(stmts, d, rest), lx.delimiter) == ScriptText(stmts, lx.delimiter) + under
    ensures forall code, n :: !code ==> Refusal(d, code, n) == None
  {
  }

  lemma DirectedIsFresh(lx: Lexer, d: Line)
    requires lx.mode.Normal? && IsLine(d) && 1 <= |Value(d)| <= 32
    ensures var l := Directed(lx, d); Fresh(l) && l.lineStart && l.delimiter == Value(d) && l.limit == lx.limit
  {
    hide IsLine, Directed;
    DirectedMeans(lx, d);
  }

  lemma NothingOpen(stmts: seq<seq<Piece>>)
    requires stmts != [] && !AnyCode(stmts[|stmts| - 1])
    ensures Expected(stmts) == Expected(stmts[..|stmts| - 1])
  {
    hide AnyCode, Render;
    var last := stmts[|stmts| - 1];
    ExpectedLast(stmts);
    ExpectedNothing();
    assert [last][1..] == [];
  }

  /** Splitting undoes writing a script: fed in any safe pieces to a new splitter, the statements of all
      sections come back, each section split by the delimiter that the line above it sets. */
  lemma SplitUndoesSections(s: Script, limit: nat, pieces: seq<seq<byte>>)
    requires SectionsRead(s, Init(limit))
    requires Concat(pieces) == SectionsText(s, [SEMICOLON]) && SafeCuts(Init(limit), pieces)
    ensures var r := Session(Init(limit), pieces);
            r.Ok? && Sqls(r.value) == SectionsExpected(s)
  {
    hide Run, SectionsRead, SectionsText;
    SectionsSplit(s, Init(limit));
    ChunkingInvariance(Init(limit), pieces);
  }
}
