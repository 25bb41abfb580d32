/** What an error of the splitter says about the script: why it stopped, and on which line. */
module SqlFailures {
  import opened Common
  import opened SqlChunking
  import opened SqlDirective
  import opened SqlLexer
  import opened SqlProvenance

  /** The statement that begins at `w` has grown to one byte more than the limit at `m`. It is named by the line
      of its first byte that is not white space; if there is none yet, by the first line of the script. */
  ghost predicate OverLong(text: seq<byte>, w: int, m: int, limit: nat, line: nat) {
    && 0 <= w <= m <= |text| && m - w == limit + 1
    && if AllSpace(text[w..m]) then line == 1
       else exists p: nat :: StartsAt(text[..m], w, p) && line == 1 + Newlines(text[..p])
  }

  /** A directive line begins at `m`. */
  ghost predicate DirectiveAt(text: seq<byte>, m: int, line: nat) {
    && 0 <= m <= |text| && line == 1 + Newlines(text[..m]) && (m > 0 ==> text[m - 1] == LF)
    && Announces(FirstLine(text[m..]))
  }

  ghost predicate Explains(e: ScriptError, text: seq<byte>, limit: nat) {
    match e
    case TooLong(line) => exists w, m :: OverLong(text, w, m, limit, line)
    case Unterminated(mode, line) => !(mode in {Normal, LineComment}) && line == 1 + Newlines(text)
    case _ => exists m :: DirectiveAt(text, m, e.line)
  }

  // ---- A statement over the limit ----

  lemma OverLongAt(t: seq<byte>, b: byte, more: seq<byte>, w: nat, limit: nat, stmtLine: nat, p: nat)
    requires w <= |t| && |t| + 1 - w == limit + 1 && Started(t + [b], w, stmtLine, p)
    ensures OverLong(t + [b] + more, w, |t| + 1, limit, if stmtLine == 0 then 1 else stmtLine)
  {
    var u, all := t + [b], t + [b] + more;
    assert all[..|u|] == u && all[w..|u|] == u[w..];
    if stmtLine != 0 {
      assert all[..p] == u[..p];
      assert !IsSpace(u[w..][p - w]);
    }
  }

  lemma TakenFails(lx: Lexer, t: seq<byte>, b: byte, more: seq<byte>)
    requires Tracks(lx, t) && Taken(lx, b).Err?
    ensures Explains(Taken(lx, b).error, t + [b] + more, lx.limit)
  {
    var w := |t| - |lx.current|;
    StartedGrows(t, w, lx.stmtLine, lx.stmtOffset, b);
    if lx.stmtLine == 0 && !IsSpace(b) {
      OverLongAt(t, b, more, w, lx.limit, 1 + Newlines(t), |t|);
    } else {
      OverLongAt(t, b, more, w, lx.limit, lx.stmtLine, lx.stmtOffset);
    }
  }

  /** A step that reads bytes fails on the first or on the second. */
  ghost predicate FailsOn(lx: Lexer, rest: seq<byte>, e: ScriptError) {
    && rest != []
    && (|| Taken(lx.(escaped := true), rest[0]) == Err(e) || Taken(lx.(escaped := false), rest[0]) == Err(e)
        || (|rest| >= 2 && Taken(lx, rest[0]).Ok? && Taken(Taken(lx, rest[0]).value, rest[1]) == Err(e)))
  }

  lemma NormalStops(lx: Lexer, rest: seq<byte>)
    requires rest != [] && StepNormal(lx, rest, true).Stop?
    ensures FailsOn(lx, rest, StepNormal(lx, rest, true).error)
  {
    hide Taken, DelimiterAt, DelimiterUndecided, ConsumedAll, IsSpace, DashComment;
    EscapeDoesNotMatter(lx, rest[0]);
  }

  lemma EscapeDoesNotMatter(lx: Lexer, b: byte)
    ensures Taken(lx, b).Err? ==> Taken(lx, b) == Taken(lx.(escaped := lx.escaped), b)
    ensures Taken(lx, b).Err? ==> Taken(lx.(escaped := false), b) == Taken(lx, b) == Taken(lx.(escaped := true), b)
  {
  }

  lemma QuotedStops(lx: Lexer, rest: seq<byte>)
    requires rest != [] && StepQuoted(lx, rest, true).Stop?
    ensures FailsOn(lx, rest, StepQuoted(lx, rest, true).error)
  {
    hide Taken, QuoteByte;
    EscapeDoesNotMatter(lx, rest[0]);
  }

  lemma BlockStops(lx: Lexer, rest: seq<byte>)
    requires rest != [] && StepBlock(lx, rest, true).Stop?
    ensures FailsOn(lx, rest, StepBlock(lx, rest, true).error)
  {
    hide Taken;
    EscapeDoesNotMatter(lx, rest[0]);
  }

  lemma ByteStops(lx: Lexer, rest: seq<byte>)
    requires rest != [] && StepByte(lx, rest, true).Stop?
    ensures FailsOn(lx, rest, StepByte(lx, rest, true).error)
  {
    hide Taken, FailsOn, StepNormal, StepQuoted, StepBlock;
    match lx.mode
    case Normal => NormalStops(lx, rest);
    case LineComment => EscapeDoesNotMatter(lx, rest[0]); LineStops(lx, rest);
    case BlockComment => BlockStops(lx, rest);
    case _ => QuotedStops(lx, rest);
  }

  lemma LineStops(lx: Lexer, rest: seq<byte>)
    requires rest != [] && Taken(lx, rest[0]).Err?
    ensures FailsOn(lx, rest, Taken(lx, rest[0]).error)
  {
    hide Taken;
    EscapeDoesNotMatter(lx, rest[0]);
  }

  lemma FailureExplained(lx: Lexer, t: seq<byte>, rest: seq<byte>, e: ScriptError)
    requires Tracks(lx, t) && FailsOn(lx, rest, e)
    ensures Explains(e, t + rest, lx.limit)
  {
    hide Taken, Tracks, Explains;
    TracksIgnores(lx, t, true);
    TracksIgnores(lx, t, false);
    assert t + rest == t + [rest[0]] + rest[1..];
    if Taken(lx.(escaped := true), rest[0]) == Err(e) {
      TakenFails(lx.(escaped := true), t, rest[0], rest[1..]);
    } else if Taken(lx.(escaped := false), rest[0]) == Err(e) {
      TakenFails(lx.(escaped := false), t, rest[0], rest[1..]);
    } else {
      TrackTaken(lx, t, rest[0]);
      assert t + rest == t + [rest[0]] + [rest[1]] + rest[2..];
      TakenFails(Taken(lx, rest[0]).value, t + [rest[0]], rest[1], rest[2..]);
    }
  }

  // ---- A directive line ----

  lemma DirectiveExplained(lx: Lexer, t: seq<byte>, rest: seq<byte>, e: ScriptError)
    requires Tracks(lx, t) && rest != [] && AtDirective(lx, rest) && !ParseDirective(rest, lx.line, true).NotDirective?
    requires !e.TooLong? && !e.Unterminated? && e.line == lx.line
    ensures Explains(e, t + rest, lx.limit)
  {
    hide ParseDirective, Announces, FirstLine;
    Unannounced(rest, lx.line, true);
    var all := t + rest;
    assert all[..|t|] == t && all[|t|..] == rest;
    assert DirectiveAt(all, |t|, e.line);
  }

  lemma MalformedIs(rest: seq<byte>, line: nat)
    requires rest != [] && rest[0] != LF && ParseDirective(rest, line, true).Malformed?
    ensures var e := ParseDirective(rest, line, true).error; !e.TooLong? && !e.Unterminated? && e.line == line
  {
    hide Words, TrimEndCr, EqIgnoreCase;
  }

  lemma StopExplained(lx: Lexer, t: seq<byte>, rest: seq<byte>)
    requires Tracks(lx, t) && rest != [] && Step(lx, rest, true).Stop?
    ensures Explains(Step(lx, rest, true).error, t + rest, lx.limit)
  {
    hide Tracks, Explains, StepByte, FailsOn, ParseDirective, ConsumedAll;
    var e := Step(lx, rest, true).error;
    if AtDirective(lx, rest) && !ParseDirective(rest, lx.line, true).NotDirective? {
      if ParseDirective(rest, lx.line, true).Malformed? { MalformedIs(rest, lx.line); }
      DirectiveExplained(lx, t, rest, e);
    } else {
      ByteStops(lx, rest);
      FailureExplained(lx, t, rest, e);
    }
  }

  // ---- Whole scripts ----

  lemma {:induction false} RunExplained(lx: Lexer, t: seq<byte>, rest: seq<byte>)
    requires Tracks(lx, t) && Run(lx, rest, true).Failed?
    ensures Explains(Run(lx, rest, true).error, t + rest, lx.limit)
    decreases |rest|
  {
    hide Tracks, Explains, Step;
    if Step(lx, rest, true).Stop? {
      StopExplained(lx, t, rest);
    } else {
      var g := Step(lx, rest, true);
      FinalNeverWaits(lx, rest);
      RunStep(lx, rest, true);
      StepChain(lx, t, rest, true);
      RunExplained(g.next, t + rest[..g.used], rest[g.used..]);
      assert t + rest[..g.used] + rest[g.used..] == t + rest;
    }
  }

  /** Every error of a script is explained by the script, line included. */
  lemma FinishExplained(limit: nat, text: seq<byte>)
    requires Finish(Init(limit), text).Err?
    ensures Explains(Finish(Init(limit), text).error, text, limit)
  {
    var p := Run(Init(limit), text, true);
    InitTracks(limit);
    assert [] + text == text;
    if p.Failed? {
      RunExplained(Init(limit), [], text);
    } else {
      RunTraced(Init(limit), [], text, true);
      RunEnds(Init(limit), text, true);
      assert ReadBy(text, p) == text;
    }
  }
}
