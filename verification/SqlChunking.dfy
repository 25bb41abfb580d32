/** Feeding a script in pieces gives what feeding it whole gives: when, and exactly when. */
module SqlChunking {
  import opened Common
  import opened SqlLexer

  // ---- A decided step stays decided when more input arrives ----

  /** The step that opens a block comment on the last two bytes available, without having seen
      whether the third is the `!` that makes the comment code. */
  predicate BlindOpen(lx: Lexer, rest: seq<byte>) {
    lx.mode.Normal? && rest == [SLASH, STAR] && !lx.hasCode && Step(lx, rest, false).Go?
  }

  predicate StartsWithBang(more: seq<byte>) { more != [] && more[0] == BANG }

  lemma {:induction false} LineEndStable(a: seq<byte>, b: seq<byte>)
    requires LineEnd(a) < |a|
    ensures LineEnd(a + b) == LineEnd(a)
    decreases |a|
  {
    if a[0] != LF {
      assert (a + b)[1..] == a[1..] + b;
      LineEndStable(a[1..], b);
    }
  }

  lemma DirectiveStable(rest: seq<byte>, more: seq<byte>, line: nat, final: bool)
    requires rest != [] && rest[0] != LF && !ParseDirective(rest, line, false).Waiting?
    ensures ParseDirective(rest + more, line, final) == ParseDirective(rest, line, false)
  {
    LineEndStable(rest, more);
    var end := LineEnd(rest);
    assert (rest + more)[..end] == rest[..end];
  }

  lemma DelimiterStable(lx: Lexer, rest: seq<byte>, more: seq<byte>)
    requires rest != [] && !DelimiterUndecided(lx, rest)
    ensures !DelimiterUndecided(lx, rest + more)
    ensures DelimiterAt(lx, rest + more) == DelimiterAt(lx, rest)
  {
    var d := lx.delimiter;
    var all := rest + more;
    if |rest| < |d| {
      assert rest != d[..|rest|];
      var i :| 0 <= i < |rest| && rest[i] != d[..|rest|][i];
      assert all[i] != d[i];
      if |d| <= |all| { assert all[..|d|][i] != d[i]; }
      if |all| < |d| { assert d[..|all|][i] != all[i]; }
    } else {
      assert all[..|d|] == rest[..|d|];
      if all == d { assert rest == d; }
    }
  }

  lemma StepNormalStable(lx: Lexer, rest: seq<byte>, more: seq<byte>, final: bool)
    requires rest != [] && !StepNormal(lx, rest, false).Wait?
    requires rest == [SLASH, STAR] && StartsWithBang(more) ==> lx.hasCode || StepNormal(lx, rest, false).Stop?
    ensures StepNormal(lx, rest + more, final) == StepNormal(lx, rest, false)
  {
    var b := rest[0];
    var all := rest + more;
    assert all[0] == b && (|rest| >= 2 ==> all[1] == rest[1]) && (|rest| >= 3 ==> all[2] == rest[2]);
    if b == HASH || IsQuote(b) {
    } else if OpensBlock(rest) {
      if |rest| == 2 {
        assert rest == [SLASH, STAR];
        if more != [] { assert all[2] == more[0]; }
        TakenKeepsCode(lx, SLASH, STAR);
      }
    } else if !DashComment(rest) {
      DelimiterStable(lx, rest, more);
    }
  }

  lemma TakenKeepsCode(lx: Lexer, a: byte, b: byte)
    ensures Taken2(lx, a, b).Ok? ==> Taken2(lx, a, b).value.hasCode == lx.hasCode
  {
  }

  lemma StepByteStable(lx: Lexer, rest: seq<byte>, more: seq<byte>, final: bool)
    requires rest != [] && !StepByte(lx, rest, false).Wait?
    requires lx.mode.Normal? && rest == [SLASH, STAR] && StartsWithBang(more) ==>
             lx.hasCode || StepByte(lx, rest, false).Stop?
    ensures StepByte(lx, rest + more, final) == StepByte(lx, rest, false)
  {
    assert (rest + more)[0] == rest[0] && (|rest| >= 2 ==> (rest + more)[1] == rest[1]);
    if lx.mode.Normal? {
      StepNormalStable(lx, rest, more, final);
    }
  }

  lemma StepStable(lx: Lexer, rest: seq<byte>, more: seq<byte>, final: bool)
    requires rest != [] && !Step(lx, rest, false).Wait?
    requires !(BlindOpen(lx, rest) && StartsWithBang(more))
    ensures Step(lx, rest + more, final) == Step(lx, rest, false)
  {
    assert (rest + more)[0] == rest[0];
    if AtDirective(lx, rest) {
      DirectiveStable(rest, more, lx.line, final);
      var d := ParseDirective(rest, lx.line, false);
      if d.NewDelimiter? {
        assert (rest + more)[..d.consumed] == rest[..d.consumed];
      }
      if ParseDirective(rest, lx.line, false).NotDirective? {
        StepByteStable(lx, rest, more, final);
      }
    } else {
      StepByteStable(lx, rest, more, final);
    }
  }

  // ---- Runs compose ----

  /** The non-final run over `rest` ends by opening a block comment blindly. */
  predicate OpensAtEnd(lx: Lexer, rest: seq<byte>)
    decreases |rest|
  {
    rest != [] &&
    match Step(lx, rest, false)
    case Go(next, n, _) => StepUses(lx, rest, false); BlindOpen(lx, rest) || OpensAtEnd(next, rest[n..])
    case _ => false
  }

  lemma PrependTwice(a: seq<Statement>, b: seq<Statement>, p: Progress)
    ensures Prepend(a, Prepend(b, p)) == Prepend(a + b, p)
  {
    if p.Done? { assert a + (b + p.out) == (a + b) + p.out; }
  }

  lemma PrependNothing(p: Progress)
    ensures Prepend([], p) == p
  {
    if p.Done? { assert [] + p.out == p.out; }
  }

  /** What is left after the first of two pieces, when nothing it decided depends on the second. */
  function Continued(p: Progress, b: seq<byte>, final: bool): Progress {
    match p
    case Failed(_) => p
    case Done(l, r, out) => Prepend(out, Run(l, r + b, final))
  }

  lemma ContinuedPrepend(out: seq<Statement>, p: Progress, b: seq<byte>, final: bool)
    ensures Continued(Prepend(out, p), b, final) == Prepend(out, Continued(p, b, final))
  {
    if p.Done? { PrependTwice(out, p.out, Run(p.lx, p.rest + b, final)); }
  }

  lemma RunStep(lx: Lexer, rest: seq<byte>, final: bool)
    requires rest != [] && Step(lx, rest, final).Go?
    ensures var g := Step(lx, rest, final);
            1 <= g.used <= |rest| && Run(lx, rest, final) == Prepend(g.out, Run(g.next, rest[g.used..], final))
  {
    StepUses(lx, rest, final);
  }

  lemma {:induction false} RunSplit(lx: Lexer, a: seq<byte>, b: seq<byte>, final: bool)
    requires !(OpensAtEnd(lx, a) && StartsWithBang(b))
    ensures Run(lx, a + b, final) == Continued(Run(lx, a, false), b, final)
    decreases |a|
  {
    hide Step;
    if a == [] || Step(lx, a, false).Wait? {
      if a == [] { assert a + b == b; assert [] + b == b; }
      PrependNothing(Run(lx, a + b, final));
    } else {
      StepStable(lx, a, b, final);
      var g := Step(lx, a, false);
      if g.Go? {
        RunStep(lx, a, false);
        RunStep(lx, a + b, final);
        assert (a + b)[g.used..] == a[g.used..] + b;
        RunSplit(g.next, a[g.used..], b, final);
        ContinuedPrepend(g.out, Run(g.next, a[g.used..], false), b, final);
      }
    }
  }

  // ---- Sessions ----

  lemma ConcludedPrepend(out: seq<Statement>, p: Progress)
    ensures Concluded(Prepend(out, p)) == PrependOk(out, Concluded(p))
  {
    if p.Done? { assert out + (p.out + [Emit(p.lx)]) == (out + p.out) + [Emit(p.lx)]; }
  }

  /** The rest of a session whose first bytes have had progress `p`. */
  function SessionFrom(p: Progress, pieces: seq<seq<byte>>): Progress {
    match p
    case Failed(e) => Failed(e)
    case Done(l, r, out) => Prepend(out, SessionRun(l, r, pieces))
  }

  lemma SessionFromPrepend(out: seq<Statement>, p: Progress, pieces: seq<seq<byte>>)
    ensures SessionFrom(Prepend(out, p), pieces) == Prepend(out, SessionFrom(p, pieces))
  {
    if p.Done? { PrependTwice(out, p.out, SessionRun(p.lx, p.rest, pieces)); }
  }

  /** No cut separates a blindly opened comment from a `!`. */
  predicate SafeCuts(lx: Lexer, pieces: seq<seq<byte>>) {
    forall k | 0 <= k <= |pieces| ::
      !(OpensAtEnd(lx, Concat(pieces[..k])) && StartsWithBang(Concat(pieces[k..])))
  }

  lemma ConcatOne<T>(piece: seq<T>)
    ensures Concat([piece]) == piece
  {
    assert [piece][1..] == [];
  }

  lemma ConcatSplit<T>(pieces: seq<seq<T>>, k: nat)
    requires k <= |pieces|
    ensures Concat(pieces) == Concat(pieces[..k]) + Concat(pieces[k..])
  {
    assert pieces == pieces[..k] + pieces[k..];
    ConcatAppend(pieces[..k], pieces[k..]);
  }

  lemma ConcatTake<T>(pieces: seq<seq<T>>, k: nat)
    requires k < |pieces|
    ensures Concat(pieces[..k + 1]) == Concat(pieces[..k]) + pieces[k]
  {
    hide Concat;
    var a, b := pieces[..k], [pieces[k]];
    assert pieces[..k + 1] == a + b;
    ConcatAppend(a, b);
    ConcatOne(pieces[k]);
  }

  lemma ConcatDrop<T>(pieces: seq<seq<T>>, k: nat)
    requires k < |pieces|
    ensures Concat(pieces[k..]) == pieces[k] + Concat(pieces[k + 1..])
  {
    assert pieces[k..][1..] == pieces[k + 1..];
  }

  lemma ConcatAt<T>(pieces: seq<seq<T>>, k: nat)
    requires k < |pieces|
    ensures Concat(pieces[..k + 1]) == Concat(pieces[..k]) + pieces[k]
    ensures Concat(pieces[k..]) == pieces[k] + Concat(pieces[k + 1..])
    ensures Concat(pieces) == Concat(pieces[..k]) + Concat(pieces[k..])
  {
    hide Concat;
    ConcatTake(pieces, k);
    ConcatDrop(pieces, k);
    ConcatSplit(pieces, k);
  }

  lemma {:induction false} SessionFromPrefix(lx: Lexer, pieces: seq<seq<byte>>, k: nat)
    requires k <= |pieces| && SafeCuts(lx, pieces)
    ensures SessionFrom(Run(lx, Concat(pieces[..k]), false), pieces[k..]) == Run(lx, Concat(pieces), true)
    decreases |pieces| - k
  {
    var a, b := Concat(pieces[..k]), Concat(pieces[k..]);
    var p := Run(lx, a, false);
    if p.Failed? || k == |pieces| {
      if k < |pieces| { ConcatAt(pieces, k); } else { assert pieces[..k] == pieces; assert a + b == a; }
      RunSplit(lx, a, b, true);
      if p.Done? { assert p.rest + b == p.rest; }
    } else {
      ConcatAt(pieces, k);
      RunSplit(lx, a, pieces[k], false);
      SessionFromPrefix(lx, pieces, k + 1);
      assert pieces[k..][1..] == pieces[k + 1..];
      SessionFromPrepend(p.out, Run(p.lx, p.rest + pieces[k], false), pieces[k + 1..]);
    }
  }

  /** Chunking invariance: with safe cuts, feeding the pieces and finishing gives all the statements
      (text, line and offset), the final state, or the error that the whole text gives in one go. */
  lemma ChunkingInvariance(lx: Lexer, pieces: seq<seq<byte>>)
    requires SafeCuts(lx, pieces)
    ensures SessionRun(lx, [], pieces) == Run(lx, Concat(pieces), true)
    ensures Session(lx, pieces) == Finish(lx, Concat(pieces))
  {
    SessionFromPrefix(lx, pieces, 0);
    assert pieces[0..] == pieces && pieces[..0] == [];
    PrependNothing(SessionRun(lx, [], pieces));
  }

  /** The offending cut in the text itself: after a slash and a star, before an exclamation mark. */
  predicate CutsOpener(pieces: seq<seq<byte>>, k: nat)
    requires k <= |pieces|
  {
    var a := Concat(pieces[..k]);
    |a| >= 2 && a[|a| - 2..] == [SLASH, STAR] && StartsWithBang(Concat(pieces[k..]))
  }

  lemma {:induction false} OpensAtEndText(lx: Lexer, a: seq<byte>)
    requires OpensAtEnd(lx, a)
    ensures |a| >= 2 && a[|a| - 2..] == [SLASH, STAR]
    decreases |a|
  {
    if !BlindOpen(lx, a) {
      StepUses(lx, a, false);
      var g := Step(lx, a, false);
      OpensAtEndText(g.next, a[g.used..]);
      assert a[|a| - 2..] == a[g.used..][|a| - g.used - 2..];
    }
  }

  /** Every way of cutting a text that never cuts between the opener and its `!` is invisible. */
  lemma ChunkingInvarianceText(lx: Lexer, pieces: seq<seq<byte>>)
    requires forall k | 0 <= k <= |pieces| :: !CutsOpener(pieces, k)
    ensures SessionRun(lx, [], pieces) == Run(lx, Concat(pieces), true)
  {
    forall k | 0 <= k <= |pieces|
      ensures !(OpensAtEnd(lx, Concat(pieces[..k])) && StartsWithBang(Concat(pieces[k..])))
    {
      if OpensAtEnd(lx, Concat(pieces[..k])) {
        OpensAtEndText(lx, Concat(pieces[..k]));
        assert !CutsOpener(pieces, k);
      }
    }
    ChunkingInvariance(lx, pieces);
  }

  // ---- Exactly which cuts are safe ----

  function WithCode(lx: Lexer): Lexer { lx.(hasCode := true) }

  lemma BlindStep(lx: Lexer, a: seq<byte>, b: seq<byte>, final: bool)
    requires BlindOpen(lx, a) && StartsWithBang(b)
    ensures var g := Step(lx, a, false);
            && g.used == 2 && g.out == [] && g.next.mode == BlockComment && !g.next.hasCode
            && Step(lx, a + b, final) == Go(WithCode(g.next), 2, [])
  {
    assert (a + b)[0] == SLASH && (a + b)[1] == STAR && (a + b)[2] == BANG;
    TakenKeepsCode(lx, SLASH, STAR);
  }

  /** A blind opening that a `!` follows: the whole text has code where the cut one has none. */
  lemma {:induction false} BlindRun(lx: Lexer, a: seq<byte>, b: seq<byte>, final: bool)
    requires OpensAtEnd(lx, a) && StartsWithBang(b)
    ensures var p := Run(lx, a, false);
            && p.Done? && p.rest == [] && p.lx.mode == BlockComment && !p.lx.hasCode
            && Run(lx, a + b, final) == Prepend(p.out, Run(WithCode(p.lx), b, final))
    decreases |a|
  {
    hide Step;
    var g := Step(lx, a, false);
    RunStep(lx, a, false);
    if BlindOpen(lx, a) {
      BlindStep(lx, a, b, final);
      assert a[2..] == [] && (a + b)[2..] == b;
      RunStep(lx, a + b, final);
      PrependNothing(Run(g.next, [], false));
      PrependNothing(Run(WithCode(g.next), b, final));
    } else {
      StepStable(lx, a, b, final);
      RunStep(lx, a + b, final);
      assert (a + b)[g.used..] == a[g.used..] + b;
      BlindRun(g.next, a[g.used..], b, final);
      PrependTwice(g.out, Run(g.next, a[g.used..], false).out,
        Run(WithCode(Run(g.next, a[g.used..], false).lx), b, final));
    }
  }

  lemma TakenIgnoresCode(l: Lexer, b: byte)
    ensures var r, q := Taken(l, b), Taken(WithCode(l), b);
            match r
            case Err(_) => q == r && |l.current| + 1 > l.limit
            case Ok(t) =>
              && q == Ok(WithCode(t)) && |l.current| + 1 <= l.limit
              && t.current == l.current + [b] && t.limit == l.limit
              && t.hasCode == l.hasCode && t.mode == l.mode
  {
  }

  /** One step inside a block comment, with and without the flag. */
  ghost predicate SameBlockStep(l: Lexer, g: Outcome, h: Outcome) {
    match g
    case Go(next, n, out) =>
      && h == Go(WithCode(next), n, []) && out == [] && next.hasCode == l.hasCode
      && |next.current| == |l.current| + n <= l.limit && next.limit == l.limit
      && ((n == 1 && next.mode == BlockComment) || (n == 2 && next.mode == Normal))
    case _ => h == g
  }

  /** Inside a block comment the flag changes nothing until the comment ends. */
  lemma BlockStepIgnoresCode(l: Lexer, b: seq<byte>)
    requires b != [] && l.mode == BlockComment
    ensures SameBlockStep(l, StepBlock(l, b, true), StepBlock(WithCode(l), b, true))
  {
    TakenIgnoresCode(l, b[0]);
    var r := Taken(l, b[0]);
    if r.Ok? {
      TakenIgnoresCode(r.value, SLASH);
    }
  }

  /** With no room left for the two closing bytes the comment cannot end, so neither run can succeed. */
  lemma {:induction false} FullBlock(l: Lexer, b: seq<byte>)
    requires l.mode == BlockComment && |l.current| + 2 > l.limit
    ensures Finish(l, b) == Finish(WithCode(l), b) && Finish(l, b).Err?
    decreases |b|
  {
    if b != [] {
      BlockStepIgnoresCode(l, b);
      FinalNeverWaits(l, b);
      var g := Step(l, b, true);
      if g.Go? {
        RunStep(l, b, true);
        RunStep(WithCode(l), b, true);
        FullBlock(g.next, b[1..]);
        ConcludedPrepend([], Run(g.next, b[1..], true));
        ConcludedPrepend([], Run(WithCode(g.next), b[1..], true));
      }
    }
  }

  lemma NoRoom(l: Lexer, b: seq<byte>)
    requires l.mode == BlockComment && |l.current| + 3 > l.limit && StartsWithBang(b)
    ensures Finish(l, b) == Finish(WithCode(l), b) && Finish(l, b).Err?
  {
    BlockStepIgnoresCode(l, b);
    FinalNeverWaits(l, b);
    var g := Step(l, b, true);
    if g.Go? {
      assert g.used == 1;
      RunStep(l, b, true);
      RunStep(WithCode(l), b, true);
      FullBlock(g.next, b[1..]);
      ConcludedPrepend([], Run(g.next, b[1..], true));
      ConcludedPrepend([], Run(WithCode(g.next), b[1..], true));
    }
  }

  const BANG_CLOSE: seq<byte> := [BANG, STAR, SLASH]

  lemma RoomLosesStatement(l: Lexer)
    requires l.mode == BlockComment && |l.current| + 3 <= l.limit && !l.hasCode
    ensures Finish(l, BANG_CLOSE) == Ok([])
    ensures Finish(WithCode(l), BANG_CLOSE).Ok? && |Finish(WithCode(l), BANG_CLOSE).value| == 1
  {
    CloseRun(l);
    CloseRun(WithCode(l));
  }

  lemma CloseRun(l: Lexer)
    requires l.mode == BlockComment && |l.current| + 3 <= l.limit
    ensures var p := Run(l, BANG_CLOSE, true);
            p.Done? && p.lx.mode == Normal && p.lx.hasCode == l.hasCode && p.out == []
  {
    var g := Step(l, BANG_CLOSE, true);
    BlockStepIgnoresCode(l, BANG_CLOSE);
    RoomSteps(l, BANG_CLOSE);
    RunStep(l, BANG_CLOSE, true);
    assert BANG_CLOSE[1..] == [STAR, SLASH];
    BlockStepIgnoresCode(g.next, [STAR, SLASH]);
    RoomSteps(g.next, [STAR, SLASH]);
    RunStep(g.next, [STAR, SLASH], true);
    assert [STAR, SLASH][2..] == [];
  }

  lemma RoomSteps(l: Lexer, b: seq<byte>)
    requires b != [] && l.mode == BlockComment && |l.current| + 2 <= l.limit
    ensures StepBlock(l, b, true).Go?
    ensures StepBlock(l, b, true).used == if |b| >= 2 && b[0] == STAR && b[1] == SLASH then 2 else 1
  {
    TakenIgnoresCode(l, b[0]);
    TakenIgnoresCode(Taken(l, b[0]).value, SLASH);
  }

  lemma TwoPieces(lx: Lexer, a: seq<byte>, b: seq<byte>)
    requires !(OpensAtEnd(lx, a) && StartsWithBang(b))
    ensures Session(lx, [a, b]) == Finish(lx, a + b)
  {
    CutOnce(lx, a, b);
    RunSplit(lx, a, b, true);
    var p := Run(lx, a, false);
    if p.Done? { ConcludedPrepend(p.out, Run(p.lx, p.rest + b, true)); }
  }

  /** Two feeds and a finish, in terms of the state the first feed leaves. */
  lemma CutOnce(lx: Lexer, a: seq<byte>, b: seq<byte>)
    ensures Session(lx, [a, b]) ==
            match Run(lx, a, false)
            case Failed(e) => Err(e)
            case Done(l, r, out) => PrependOk(out, Finish(l, r + b))
  {
    assert [] + a == a && [a, b][1..] == [b] && [b][1..] == [];
    var p := Run(lx, a, false);
    if p.Done? {
      OnePiece(p.lx, p.rest, b);
      ConcludedPrepend(p.out, SessionRun(p.lx, p.rest, [b]));
    }
  }

  lemma OnePiece(lx: Lexer, pending: seq<byte>, b: seq<byte>)
    ensures SessionRun(lx, pending, [b]) == Run(lx, pending + b, true)
  {
    var all := pending + b;
    assert [b][1..] == [] && all + [] == all;
    RunSplit(lx, all, [], true);
    var q := Run(lx, all, false);
    if q.Done? { assert q.rest + [] == q.rest; }
  }

  lemma BlindSession(lx: Lexer, a: seq<byte>, b: seq<byte>)
    requires OpensAtEnd(lx, a) && StartsWithBang(b)
    ensures var p := Run(lx, a, false);
            && p.Done? && p.lx.mode == BlockComment && !p.lx.hasCode
            && Session(lx, [a, b]) == PrependOk(p.out, Finish(p.lx, b))
            && Finish(lx, a + b) == PrependOk(p.out, Finish(WithCode(p.lx), b))
  {
    CutOnce(lx, a, b);
    BlindRun(lx, a, b, true);
    var p := Run(lx, a, false);
    assert [] + b == b;
    ConcludedPrepend(p.out, Run(WithCode(p.lx), b, true));
  }

  /** The exact condition on a cut after `a`: whatever follows, the two feeds agree with one,
      unless `a` ends in a blind opening and the limit leaves room for the comment to close. */
  lemma ExactCut(lx: Lexer, a: seq<byte>)
    requires Run(lx, a, false).Done?
    ensures var l := Run(lx, a, false).lx;
            (forall b :: Session(lx, [a, b]) == Finish(lx, a + b))
            <==> !(OpensAtEnd(lx, a) && |l.current| + 3 <= l.limit)
  {
    var p := Run(lx, a, false);
    forall b | !(OpensAtEnd(lx, a) && |p.lx.current| + 3 <= p.lx.limit)
      ensures Session(lx, [a, b]) == Finish(lx, a + b)
    {
      if OpensAtEnd(lx, a) && StartsWithBang(b) {
        BlindSession(lx, a, b);
        NoRoom(p.lx, b);
      } else {
        TwoPieces(lx, a, b);
      }
    }
    if OpensAtEnd(lx, a) && |p.lx.current| + 3 <= p.lx.limit {
      var b := BANG_CLOSE;
      BlindSession(lx, a, b);
      RoomLosesStatement(p.lx);
      assert Session(lx, [a, b]) != Finish(lx, a + b);
    }
  }

  // ---- What a feed may leave pending ----

  lemma {:induction false} RunEnds(lx: Lexer, a: seq<byte>, final: bool)
    requires Run(lx, a, final).Done?
    ensures var p := Run(lx, a, final); p.rest == [] || (!final && Step(p.lx, p.rest, final).Wait?)
    ensures |Run(lx, a, final).rest| <= |a|
    decreases |a|
  {
    if a != [] {
      var g := Step(lx, a, final);
      if g.Go? {
        RunStep(lx, a, final);
        RunEnds(g.next, a[g.used..], final);
      } else if final {
        FinalNeverWaits(lx, a);
      }
    }
  }

  /** A waiting lexer holds at most two bytes or a delimiter, unless the line may be a directive. */
  lemma WaitBound(lx: Lexer, rest: seq<byte>)
    requires rest != [] && Step(lx, rest, false).Wait?
    ensures |rest| <= 2 || |rest| <= |lx.delimiter| || (AtDirective(lx, rest) && LF !in rest)
  {
    if AtDirective(lx, rest) && LineEnd(rest) == |rest| {
      assert rest[..|rest|] == rest;
    }
  }

  /** What a successful feed carries over, however much it was given. */
  lemma CarryBound(lx: Lexer, a: seq<byte>)
    requires Run(lx, a, false).Done?
    ensures var p := Run(lx, a, false);
            || |p.rest| <= 2 || |p.rest| <= |p.lx.delimiter|
            || (AtDirective(p.lx, p.rest) && LF !in p.rest)
  {
    RunEnds(lx, a, false);
    var p := Run(lx, a, false);
    if p.rest != [] { WaitBound(p.lx, p.rest); }
  }
}
