/** No code is lost: every byte the lexer reads as code lies inside an emitted statement. */
module SqlCoverage {
  import opened Common
  import opened SqlLexer
  import opened SqlChunking
  import opened SqlProvenance

  predicate Quoted(mode: Mode) { mode.SingleQuote? || mode.DoubleQuote? || mode.Backtick? }

  // Beside the lexer goes a flag `live`: the block comment being read opened with `!`, so the server
  // executes what is in it.

  /** The flag after the step at the front of `rest`. */
  predicate LiveAfter(lx: Lexer, rest: seq<byte>, live: bool) {
    if lx.mode.BlockComment? then live else OpensVersioned(rest)
  }

  /** Between the ends of a construct that is code throughout, white space included. */
  predicate Within(lx: Lexer, live: bool) { Quoted(lx.mode) || (lx.mode.BlockComment? && live) }

  /** The step at the front of `rest` reads code: anything but white space, a comment that is not
      executed, a delimiter or a DELIMITER line. */
  predicate ReadsCode(lx: Lexer, rest: seq<byte>, final: bool, live: bool)
    requires rest != []
  {
    match lx.mode
    case Normal =>
      if AtDirective(lx, rest) && ParseDirective(rest, lx.line, final).NewDelimiter? then false
      else if rest[0] == HASH || DashComment(rest) then false
      else if OpensBlock(rest) then OpensVersioned(rest)
      else if IsQuote(rest[0]) then true
      else !DelimiterAt(lx, rest) && !IsSpace(rest[0])
    case LineComment => false
    case BlockComment => live
    case _ => true
  }

  /** The final run over `rest`, whose first byte is at position `at`, reads byte `p` as code. */
  predicate CodeByte(lx: Lexer, live: bool, rest: seq<byte>, at: nat, p: nat)
    decreases |rest|
  {
    rest != [] &&
    match Step(lx, rest, true)
    case Go(next, n, _) =>
      StepUses(lx, rest, true);
      if at <= p < at + n then ReadsCode(lx, rest, true, live)
      else CodeByte(next, LiveAfter(lx, rest, live), rest[n..], at + n, p)
    case _ => false
  }

  predicate Inside(st: Statement, p: nat) { st.offset <= p < End(st) }

  ghost predicate Covered(out: seq<Statement>, p: nat) { exists st <- out :: Inside(st, p) }

  // ---- Open code: read into the current statement, not emitted yet ----

  predicate InsideIsCode(lx: Lexer, live: bool) { Within(lx, live) ==> lx.hasCode }

  ghost predicate Anchored(t: seq<byte>, p: nat) { exists q :: p <= q < |t| && !IsSpace(t[q]) }

  ghost predicate OpenCode(lx: Lexer, live: bool, t: seq<byte>, p: nat) {
    && Tracks(lx, t) && lx.hasCode && lx.stmtOffset <= p < |t|
    && (!Within(lx, live) ==> Anchored(t, p))
  }

  lemma AnchoredGrows(t: seq<byte>, u: seq<byte>, p: nat)
    requires t <= u && Anchored(t, p)
    ensures Anchored(u, p)
  {
    var q :| p <= q < |t| && !IsSpace(t[q]);
    assert !IsSpace(u[q]);
  }

  lemma SpacesAt(t: seq<byte>, a: nat, b: nat)
    requires a <= b <= |t| && AllSpace(t[a..b])
    ensures forall i | a <= i < b :: IsSpace(t[i])
  {
    forall i | a <= i < b ensures IsSpace(t[i]) { assert t[i] == t[a..b][i - a]; }
  }

  lemma StartUnique(t: seq<byte>, u: seq<byte>, w: nat, a: nat, b: nat)
    requires t <= u && StartsAt(t, w, a) && StartsAt(u, w, b)
    ensures a == b
  {
    SpacesAt(t, w, a);
    SpacesAt(u, w, b);
  }

  /** The start of a statement does not move while its buffer grows. */
  lemma StartStays(lx: Lexer, t: seq<byte>, next: Lexer, u: seq<byte>)
    requires Tracks(lx, t) && Tracks(next, u) && t <= u && Window(next, u) == Window(lx, t)
    requires lx.stmtLine != 0 && next.stmtLine != 0
    ensures next.stmtOffset == lx.stmtOffset
  {
    StartUnique(t, u, |t| - |lx.current|, lx.stmtOffset, next.stmtOffset);
  }

  lemma StartBounded(next: Lexer, u: seq<byte>, q: nat)
    requires Tracks(next, u) && next.stmtLine != 0 && Window(next, u) <= q < |u| && !IsSpace(u[q])
    ensures next.stmtOffset <= q
  {
    SpacesAt(u, |u| - |next.current|, next.stmtOffset);
  }

  /** Leaving quotes or an executed comment takes a byte that is not white space. */
  lemma WithinEnds(lx: Lexer, live: bool, rest: seq<byte>, final: bool)
    requires rest != [] && Within(lx, live) && Step(lx, rest, final).Go?
    ensures var g := Step(lx, rest, final);
            1 <= g.used <= |rest| && (!Within(g.next, LiveAfter(lx, rest, live)) ==> !IsSpace(rest[g.used - 1]))
  {
    TakenFacts(lx, rest[0]);
    StepUses(lx, rest, final);
  }

  lemma TakenFacts(lx: Lexer, b: byte)
    ensures Taken(lx, b).Ok? ==> Taken(lx, b).value.hasCode == lx.hasCode && Taken(lx, b).value.mode == lx.mode
  {
  }

  /** What a code step guarantees: the statement has code, and the step ends on a byte that is
      not white space unless it stays within quotes or an executed comment. */
  ghost predicate CodeStepOk(lx: Lexer, live: bool, rest: seq<byte>, g: Outcome)
    requires g.Go?
  {
    && g.next.hasCode && 1 <= g.used <= 2 && g.used <= |rest|
    && (!Within(g.next, LiveAfter(lx, rest, live)) ==> !IsSpace(rest[g.used - 1]))
    && (Within(lx, live) || !IsSpace(rest[0]))
  }

  lemma NormalCodeStep(lx: Lexer, live: bool, rest: seq<byte>, final: bool)
    requires rest != [] && lx.mode.Normal? && StepNormal(lx, rest, final).Go?
    requires ReadsCode(lx, rest, final, live)
    ensures CodeStepOk(lx, live, rest, StepNormal(lx, rest, final))
  {
    TakenFacts(lx, rest[0]);
  }

  lemma QuotedCodeStep(lx: Lexer, live: bool, rest: seq<byte>, final: bool)
    requires rest != [] && Quoted(lx.mode) && lx.hasCode && StepQuoted(lx, rest, final).Go?
    ensures CodeStepOk(lx, live, rest, StepQuoted(lx, rest, final))
  {
    var b := rest[0];
    TakenFacts(lx, b);
    TakenFacts(lx.(escaped := false), b);
    TakenFacts(lx.(escaped := true), b);
    if Taken(lx, b).Ok? { TakenFacts(Taken(lx, b).value, b); }
  }

  lemma BlockCodeStep(lx: Lexer, rest: seq<byte>, final: bool)
    requires rest != [] && lx.mode.BlockComment? && lx.hasCode && StepBlock(lx, rest, final).Go?
    ensures CodeStepOk(lx, true, rest, StepBlock(lx, rest, final))
  {
    TakenFacts(lx, rest[0]);
    if Taken(lx, rest[0]).Ok? { TakenFacts(Taken(lx, rest[0]).value, SLASH); }
  }

  lemma CodeStep(lx: Lexer, live: bool, rest: seq<byte>, final: bool)
    requires rest != [] && ReadsCode(lx, rest, final, live) && Step(lx, rest, final).Go? && InsideIsCode(lx, live)
    ensures CodeStepOk(lx, live, rest, Step(lx, rest, final))
  {
    if lx.mode.Normal? {
      NormalCodeStep(lx, live, rest, final);
    } else if lx.mode.BlockComment? {
      BlockCodeStep(lx, rest, final);
    } else {
      QuotedCodeStep(lx, live, rest, final);
    }
  }

  lemma EnteringByte(lx: Lexer, live: bool, rest: seq<byte>, final: bool)
    requires rest != [] && !Within(lx, live) && StepByte(lx, rest, final).Go?
    requires Within(StepByte(lx, rest, final).next, LiveAfter(lx, rest, live))
    ensures lx.mode.Normal? && (IsQuote(rest[0]) || OpensVersioned(rest))
  {
    if lx.mode.Normal? && !IsQuote(rest[0]) && !OpensBlock(rest) {
      TakenFacts(lx, rest[0]);
      ConsumedAllMode(Reset(lx), lx.delimiter);
    }
  }

  lemma Entering(lx: Lexer, live: bool, rest: seq<byte>, final: bool)
    requires rest != [] && !Within(lx, live) && Step(lx, rest, final).Go?
    requires Within(Step(lx, rest, final).next, LiveAfter(lx, rest, live))
    ensures ReadsCode(lx, rest, final, live)
  {
    if AtDirective(lx, rest) && ParseDirective(rest, lx.line, final).NewDelimiter? {
      var d := ParseDirective(rest, lx.line, final);
      ConsumedAllMode(Reset(lx).(delimiter := d.value), rest[..d.consumed]);
    } else {
      EnteringByte(lx, live, rest, final);
    }
  }

  lemma {:induction false} ConsumedAllMode(lx: Lexer, bs: seq<byte>)
    ensures ConsumedAll(lx, bs).mode == lx.mode
    decreases |bs|
  {
    if bs != [] { ConsumedAllMode(Consumed(lx, bs[0]), bs[1..]); }
  }

  lemma InsideStaysCode(lx: Lexer, live: bool, rest: seq<byte>, final: bool)
    requires rest != [] && Step(lx, rest, final).Go? && InsideIsCode(lx, live)
    ensures InsideIsCode(Step(lx, rest, final).next, LiveAfter(lx, rest, live))
  {
    var g := Step(lx, rest, final);
    if Within(g.next, LiveAfter(lx, rest, live)) {
      if !Within(lx, live) { Entering(lx, live, rest, final); }
      CodeStep(lx, live, rest, final);
    }
  }

  // ---- Open code is emitted in the end ----

  /** Bytes just read as code are open code. */
  lemma CodeOpens(lx: Lexer, live: bool, t: seq<byte>, rest: seq<byte>, p: nat)
    requires rest != [] && Tracks(lx, t) && InsideIsCode(lx, live) && Step(lx, rest, true).Go?
    requires ReadsCode(lx, rest, true, live) && |t| <= p < |t| + Step(lx, rest, true).used
    ensures var g := Step(lx, rest, true);
            g.used <= |rest| && OpenCode(g.next, LiveAfter(lx, rest, live), t + rest[..g.used], p)
  {
    hide Step, ReadsCode, LiveAfter;
    var g := Step(lx, rest, true);
    CodeStep(lx, live, rest, true);
    StepShape(lx, t, rest, true);
    var u := t + rest[..g.used];
    assert u[|t|] == rest[0] && u[|u| - 1] == rest[g.used - 1];
    if Within(lx, live) {
      StartStays(lx, t, g.next, u);
    } else {
      StartBounded(g.next, u, |t|);
    }
  }

  lemma OnlyNormalCuts(lx: Lexer, t: seq<byte>, rest: seq<byte>)
    requires rest != [] && Tracks(lx, t) && Step(lx, rest, true).Go?
    ensures var g := Step(lx, rest, true);
            g.used <= |rest| && (Extends(lx, t, rest, g) || (lx.mode.Normal? && Cuts(lx, t, rest, g)))
  {
    StepShape(lx, t, rest, true);
  }

  /** Open code stays open until the statement that contains it is emitted. */
  lemma OpenStep(lx: Lexer, live: bool, t: seq<byte>, rest: seq<byte>, p: nat)
    requires rest != [] && OpenCode(lx, live, t, p) && Step(lx, rest, true).Go?
    ensures var g := Step(lx, rest, true);
            g.used <= |rest|
            && (OpenCode(g.next, LiveAfter(lx, rest, live), t + rest[..g.used], p) || Covered(g.out, p))
  {
    hide Step, LiveAfter, StartsAt;
    var g := Step(lx, rest, true);
    OnlyNormalCuts(lx, t, rest);
    var u := t + rest[..g.used];
    if Extends(lx, t, rest, g) {
      StepUses(lx, rest, true);
      OpenStaysAnchored(lx, live, t, rest, g, p);
      StartStays(lx, t, g.next, u);
    } else {
      EmitCovers(lx, live, t, p);
      assert g.out[0] in g.out;
    }
  }

  lemma OpenStaysAnchored(lx: Lexer, live: bool, t: seq<byte>, rest: seq<byte>, g: Outcome, p: nat)
    requires rest != [] && g == Step(lx, rest, true) && g.Go? && 1 <= g.used <= |rest|
    requires p < |t| && (!Within(lx, live) ==> Anchored(t, p))
    ensures !Within(g.next, LiveAfter(lx, rest, live)) ==> Anchored(t + rest[..g.used], p)
  {
    var u := t + rest[..g.used];
    if Within(lx, live) {
      WithinEnds(lx, live, rest, true);
      assert u[|u| - 1] == rest[g.used - 1];
    } else {
      AnchoredGrows(t, u, p);
    }
  }

  lemma EmitCovers(lx: Lexer, live: bool, t: seq<byte>, p: nat)
    requires OpenCode(lx, live, t, p) && !Within(lx, live)
    ensures Inside(Emit(lx), p)
  {
    EmitFills(lx, t);
    SpacesAt(t, End(Emit(lx)), |t|);
  }

  lemma CoveredPrepend(out: seq<Statement>, more: seq<Statement>, p: nat)
    requires Covered(out, p) || Covered(more, p)
    ensures Covered(out + more, p)
  {
    var st: Statement :| (st in out || st in more) && Inside(st, p);
    assert st in out + more;
  }

  lemma {:induction false} OpenIsCovered(lx: Lexer, live: bool, t: seq<byte>, rest: seq<byte>, p: nat)
    requires OpenCode(lx, live, t, p) && Finish(lx, rest).Ok?
    ensures Covered(Finish(lx, rest).value, p)
    decreases |rest|
  {
    if rest == [] {
      EmitCovers(lx, live, t, p);
      assert Emit(lx) in Finish(lx, rest).value;
    } else {
      hide Step, OpenCode, Covered;
      var g := Step(lx, rest, true);
      FinishStep(lx, rest);
      OpenStep(lx, live, t, rest, p);
      if !Covered(g.out, p) {
        OpenIsCovered(g.next, LiveAfter(lx, rest, live), t + rest[..g.used], rest[g.used..], p);
      }
      CoveredPrepend(g.out, Finish(g.next, rest[g.used..]).value, p);
    }
  }

  /** One step: byte `p` is open code now, or will be read as code later. */
  lemma CodeTurn(lx: Lexer, live: bool, t: seq<byte>, rest: seq<byte>, p: nat)
    requires Tracks(lx, t) && InsideIsCode(lx, live) && rest != [] && Step(lx, rest, true).Go?
    requires CodeByte(lx, live, rest, |t|, p)
    ensures var g := Step(lx, rest, true);
            && 1 <= g.used <= |rest|
            && var u, after := t + rest[..g.used], LiveAfter(lx, rest, live);
            || OpenCode(g.next, after, u, p)
            || (Tracks(g.next, u) && InsideIsCode(g.next, after) && CodeByte(g.next, after, rest[g.used..], |u|, p))
  {
    hide Step, Tracks, ReadsCode, InsideIsCode, OpenCode, LiveAfter;
    var g := Step(lx, rest, true);
    StepTracks(lx, t, rest);
    StepUses(lx, rest, true);
    if |t| <= p < |t| + g.used {
      CodeOpens(lx, live, t, rest, p);
    } else {
      InsideStaysCode(lx, live, rest, true);
    }
  }

  lemma {:induction false} CodeIsCovered(lx: Lexer, live: bool, t: seq<byte>, rest: seq<byte>, p: nat)
    requires Tracks(lx, t) && InsideIsCode(lx, live) && CodeByte(lx, live, rest, |t|, p) && Finish(lx, rest).Ok?
    ensures Covered(Finish(lx, rest).value, p)
    decreases |rest|
  {
    FinishStep(lx, rest);
    CodeTurn(lx, live, t, rest, p);
    hide Step, OpenCode, Covered, CodeByte, Tracks, LiveAfter;
    var g := Step(lx, rest, true);
    var next, after, tail, u := g.next, LiveAfter(lx, rest, live), rest[g.used..], t + rest[..g.used];
    if OpenCode(next, after, u, p) {
      OpenIsCovered(next, after, u, tail, p);
    } else {
      CodeIsCovered(next, after, u, tail, p);
    }
    CoveredPrepend(g.out, Finish(next, tail).value, p);
  }

  lemma StepTracks(lx: Lexer, t: seq<byte>, rest: seq<byte>)
    requires rest != [] && Tracks(lx, t) && Step(lx, rest, true).Go?
    ensures var g := Step(lx, rest, true);
            g.used <= |rest| && Tracks(g.next, t + rest[..g.used]) && |t + rest[..g.used]| == |t| + g.used
  {
    StepShape(lx, t, rest, true);
  }

  lemma FinishStep(lx: Lexer, rest: seq<byte>)
    requires rest != [] && Finish(lx, rest).Ok?
    ensures var g := Step(lx, rest, true);
            && g.Go? && 1 <= g.used <= |rest| && Finish(g.next, rest[g.used..]).Ok?
            && Finish(lx, rest).value == g.out + Finish(g.next, rest[g.used..]).value
  {
    FinalNeverWaits(lx, rest);
    var g := Step(lx, rest, true);
    RunStep(lx, rest, true);
    ConcludedPrepend(g.out, Run(g.next, rest[g.used..], true));
  }

  /** When a script splits at all, every byte outside the statements is white space, a comment that
      is not executed, a delimiter or part of a DELIMITER line. */
  lemma NoCodeLost(limit: nat, text: seq<byte>, p: nat)
    requires Finish(Init(limit), text).Ok? && CodeByte(Init(limit), false, text, 0, p)
    ensures Covered(Finish(Init(limit), text).value, p)
  {
    InitTracks(limit);
    CodeIsCovered(Init(limit), false, [], text, p);
  }
}
