/** Scripts that end inside a comment or a quoted part: a line comment may be cut short, and everything else that
    is still open is an error. */
module SqlEndings {
  import opened Common
  import opened SqlDirective
  import opened SqlLexer
  import opened SqlScriptPieces
  import opened SqlSections

  datatype Ending =
    | CutLine(open: seq<byte>, body: seq<byte>)
    | CutBlock(body: seq<byte>)
    | CutQuote(quote: byte, body: seq<byte>, backslash: bool)

  function EndingText(e: Ending): seq<byte> {
    match e
    case CutLine(open, body) => open + body
    case CutBlock(body) => [SLASH, STAR] + body
    case CutQuote(q, body, backslash) => [q] + (body + Last(backslash))
  }

  /** A backslash with nothing behind it. */
  function Last(backslash: bool): seq<byte> { if backslash then [BACKSLASH] else [] }

  predicate EndingReads(e: Ending) {
    match e
    case CutLine(open, body) =>
      LF !in body && (open == [HASH] || (open == [DASH, DASH] && body != [] && body[0] in BLANKS))
    case CutBlock(body) => NoBlockEnd(body)
    case CutQuote(q, body, backslash) => q in QUOTES && Escaped(body, q) && (backslash ==> q != BACKTICK)
  }

  /** What is still open, if that is an error. */
  function Open(e: Ending): Option<Mode> {
    match e
    case CutLine(_, _) => None
    case CutBlock(_) => Some(BlockComment)
    case CutQuote(q, _, _) => Some(QuoteMode(q))
  }

  // ---- The lexer at the end ----

  /** All of `s` has been read into the buffer, in this mode. */
  ghost predicate AllIn(lx: Lexer, s: seq<byte>, mode: Mode, p: Progress) {
    && p.Done? && p.rest == [] && p.out == [] && p.lx.mode == mode && p.lx.limit == lx.limit
    && p.lx.current == lx.current + s && (mode == LineComment ==> p.lx.hasCode == lx.hasCode) && Placed(lx, s, p.lx)
  }

  lemma ReadAll(lx: Lexer, s: seq<byte>, mode: Mode, l: Lexer, p: Progress)
    requires l == Fed(lx, s).(mode := mode, escaped := l.escaped, hasCode := l.hasCode)
    requires p == Run(l, [], true) && (mode == LineComment ==> l.hasCode == lx.hasCode)
    ensures AllIn(lx, s, mode, p)
  {
    RunNothing(l);
    FedKeeps(lx, s);
    FedPlaces(lx, s);
    hide Fed, Run;
  }

  lemma {:induction false} LineToEnd(lx: Lexer, body: seq<byte>)
    requires lx.mode.LineComment? && LF !in body && |lx.current| + |body| <= lx.limit
    ensures Run(lx, body, true) == Run(Fed(lx, body), [], true)
    decreases |body|
  {
    if body != [] {
      var l := Fed(lx, [body[0]]);
      TakenIsFed(lx, body[0]);
      FedKeeps(lx, [body[0]]);
      assert body[0] in body && forall b <- body[1..] :: b in body;
      OneStep(lx, body, l, 1);
      LineToEnd(l, body[1..]);
      assert [body[0]] + body[1..] == body;
      FedAppend(lx, [body[0]], body[1..]);
    }
  }

  lemma {:induction false} BlockToEnd(lx: Lexer, body: seq<byte>)
    requires lx.mode.BlockComment? && NoBlockEnd(body) && |lx.current| + |body| <= lx.limit
    ensures Run(lx, body, true) == Run(Fed(lx, body), [], true)
    decreases |body|
  {
    hide Run, Fed;
    if body == [] {
      FedNothing(lx);
    } else {
      var l := Fed(lx, [body[0]]);
      FedKeeps(lx, [body[0]]);
      BlockByte(lx, body);
      BlockToEnd(l, body[1..]);
      assert [body[0]] + body[1..] == body;
      FedAppend(lx, [body[0]], body[1..]);
    }
  }

  lemma FedNothing(lx: Lexer)
    ensures Fed(lx, []) == lx
  {
  }

  lemma {:induction false} QuoteToEnd(lx: Lexer, q: byte, body: seq<byte>, backslash: bool)
    requires IsQuote(q) && lx.mode == QuoteMode(q) && !lx.escaped && Escaped(body, q) && (backslash ==> q != BACKTICK)
    requires |lx.current| + |body| + |Last(backslash)| <= lx.limit
    ensures var s := body + Last(backslash);
            Run(lx, s, true) == Run(Fed(lx, s).(escaped := backslash), [], true)
    decreases |body|
  {
    hide Run, Fed, Escaped, QuoteMode;
    var s := body + Last(backslash);
    if body == [] {
      BackslashLast(lx, q, backslash);
      assert s == Last(backslash);
    } else {
      QuotedTurn(lx, q, body, Last(backslash));
      var n := Width(body, q);
      var l := Fed(lx, body[..n]);
      FedKeeps(lx, body[..n]);
      QuoteToEnd(l, q, body[n..], backslash);
      assert body[..n] + (body[n..] + Last(backslash)) == s;
      FedAppend(lx, body[..n], body[n..] + Last(backslash));
    }
  }

  lemma BackslashLast(lx: Lexer, q: byte, backslash: bool)
    requires IsQuote(q) && lx.mode == QuoteMode(q) && !lx.escaped && (backslash ==> q != BACKTICK)
    requires |lx.current| + |Last(backslash)| <= lx.limit
    ensures Run(lx, Last(backslash), true) == Run(Fed(lx, Last(backslash)).(escaped := backslash), [], true)
  {
    hide Run;
    if backslash {
      EscapeOpens(lx, q, [BACKSLASH]);
      FedOne(lx, BACKSLASH);
      assert [BACKSLASH][1..] == [];
    }
  }

  lemma LineEnding(lx: Lexer, open: seq<byte>, body: seq<byte>)
    requires lx.mode.Normal? && EndingReads(CutLine(open, body)) && |lx.current| + |open + body| <= lx.limit
    ensures AllIn(lx, open + body, LineComment, Run(lx, open + body, true))
  {
    var s, tail := open + body, open[1..] + body;
    assert s[0] == open[0] && s[1..] == tail && s == [s[0]] + tail && LF !in tail && (s[0] == HASH || DashComment(s));
    hide Run, Fed, Fed1, DashComment;
    var l := Fed1(lx, s[0]);
    LineOpens(lx, s);
    FedOne(lx, s[0]);
    FedKeeps(lx, [s[0]]);
    LineToEnd(l.(mode := LineComment), tail);
    FedIgnores(l, LineComment, lx.escaped, lx.hasCode, tail);
    FedAppend(lx, [s[0]], tail);
    FedKeeps(lx, s);
    ReadAll(lx, s, LineComment, Fed(l.(mode := LineComment), tail), Run(lx, s, true));
  }

  lemma BlockEnding(lx: Lexer, body: seq<byte>)
    requires lx.mode.Normal? && NoBlockEnd(body) && |lx.current| + |body| + 2 <= lx.limit
    ensures AllIn(lx, [SLASH, STAR] + body, BlockComment, Run(lx, [SLASH, STAR] + body, true))
  {
    var s := [SLASH, STAR] + body;
    var code := lx.hasCode || OpensVersioned(s);
    assert s[2..] == body && OpensBlock(s);
    hide Run, Fed, OpensBlock, OpensVersioned;
    var l := Fed(lx, [SLASH, STAR]);
    BlockOpens(lx, s);
    FedKeeps(lx, [SLASH, STAR]);
    BlockToEnd(l.(mode := BlockComment, hasCode := code), body);
    FedIgnores(l, BlockComment, lx.escaped, code, body);
    FedAppend(lx, [SLASH, STAR], body);
    FedKeeps(lx, s);
    ReadAll(lx, s, BlockComment, Fed(l.(mode := BlockComment, hasCode := code), body), Run(lx, s, true));
  }

  lemma QuoteEnding(lx: Lexer, q: byte, body: seq<byte>, backslash: bool)
    requires lx.mode.Normal? && !lx.escaped && EndingReads(CutQuote(q, body, backslash))
    requires |lx.current| + |EndingText(CutQuote(q, body, backslash))| <= lx.limit
    ensures var s := EndingText(CutQuote(q, body, backslash)); AllIn(lx, s, QuoteMode(q), Run(lx, s, true))
  {
    var tail := body + Last(backslash);
    var s := [q] + tail;
    assert IsQuote(q) && s[1..] == tail && QuoteMode(q) != LineComment;
    hide Run, Fed, Fed1, Escaped, QuoteMode;
    var l := Fed1(lx, q);
    var inside := l.(mode := QuoteMode(q), hasCode := true);
    QuoteOpens(lx, s);
    FedOne(lx, q);
    FedKeeps(lx, [q]);
    QuoteToEnd(inside, q, body, backslash);
    FedIgnores(l, QuoteMode(q), lx.escaped, true, tail);
    FedAppend(lx, [q], tail);
    FedKeeps(lx, s);
    ReadAll(lx, s, QuoteMode(q), Fed(inside, tail).(escaped := backslash), Run(lx, s, true));
  }

  lemma EndingRun(lx: Lexer, e: Ending)
    requires lx.mode.Normal? && !lx.escaped && EndingReads(e) && |lx.current| + |EndingText(e)| <= lx.limit
    ensures AllIn(lx, EndingText(e), if Open(e).Some? then Open(e).value else LineComment, Run(lx, EndingText(e), true))
  {
    hide AllIn, Run, QuoteMode;
    match e
    case CutLine(open, body) => LineEnding(lx, open, body);
    case CutBlock(body) => BlockEnding(lx, body);
    case CutQuote(q, body, backslash) => QuoteEnding(lx, q, body, backslash);
  }

  // ---- The whole script ----

  /** What a script with statements of code and an ending is split into, or its error, which names the last line. */
  ghost predicate Ends(stmts: seq<seq<Piece>>, lx: Lexer, e: Ending, r: Result<seq<Statement>, ScriptError>)
    requires stmts != []
  {
    var text := ScriptText(stmts, lx.delimiter) + EndingText(e);
    var last := stmts[|stmts| - 1];
    match Open(e)
    case Some(mode) => r == Err(Unterminated(mode, lx.line + Breaks(text)))
    case None =>
      && r.Ok? && Sqls(r.value) == Expected(stmts[..|stmts| - 1])
         + (if AnyCode(last) then [Trimmed(Render(last) + EndingText(e))] else [])
  }

  /** A line comment at the end belongs to the last statement; a block comment, a string or a quoted name that the
      end of the script leaves open is an error. */
  lemma ScriptEnds(stmts: seq<seq<Piece>>, lx: Lexer, e: Ending)
    requires stmts != [] && Fresh(lx) && ScriptReads(stmts, lx, EndingText(e)) && EndingReads(e)
    requires |Render(stmts[|stmts| - 1])| + |EndingText(e)| <= lx.limit
    ensures Ends(stmts, lx, e, Concluded(Run(lx, ScriptText(stmts, lx.delimiter) + EndingText(e), true)))
  {
    hide Run, AfterSection, Fresh, ScriptReads, Expected, ScriptText, Render, AnyCode, EndingText, EndingReads,
      QuoteMode, Breaks, Concluded, Open;
    var text := EndingText(e);
    var out := SectionRun(stmts, lx, text);
    var l := AfterSection(stmts, lx);
    SectionPlaces(stmts, lx);
    EndingRun(l, e);
    var p := Run(l, text, true);
    PlacedAppend(lx, ScriptText(stmts, lx.delimiter), l, text, p.lx);
    OpenIsError(e);
    Concludes(out, p);
  }

  lemma OpenIsError(e: Ending)
    ensures Open(e).Some? ==> !Closed(Open(e).value)
  {
  }

  lemma Concludes(out: seq<Statement>, p: Progress)
    requires p.Done? && p.out == []
    ensures var r := Concluded(Prepend(out, p));
            if Closed(p.lx.mode)
            then r.Ok? && Sqls(r.value) == Sqls(out) + (if p.lx.hasCode then [Trimmed(p.lx.current)] else [])
            else r == Err(Unterminated(p.lx.mode, p.lx.line))
  {
    assert out + p.out == out && Sqls(out) + [] == Sqls(out);
    OneSql(Emit(p.lx));
    SqlsAppend(out, [Emit(p.lx)]);
    hide Trimmed;
  }
}
