/** Every statement the lexer emits is a slice of the text it was fed, and no code is left out. */
module SqlProvenance {
  import opened Common
  import opened SqlLexer
  import opened SqlChunking

  function Newlines(s: seq<byte>): nat {
    if s == [] then 0 else Newlines(s[..|s| - 1]) + if s[|s| - 1] == LF then 1 else 0
  }

  predicate AllSpace(s: seq<byte>) { forall i | 0 <= i < |s| :: IsSpace(s[i]) }

  /** `p` is where the statement in `t[w..]` starts: its first byte that is not white space. */
  predicate StartsAt(t: seq<byte>, w: nat, p: nat) {
    w <= p < |t| && AllSpace(t[w..p]) && !IsSpace(t[p])
  }

  /** The position of a lexer that has consumed exactly `t`. */
  predicate Positioned(lx: Lexer, t: seq<byte>) {
    && lx.absolute == |t|
    && lx.line == 1 + Newlines(t)
    && lx.lineStart == (t == [] || t[|t| - 1] == LF)
    && lx.previous == (if t == [] then None else Some(t[|t| - 1]))
  }

  /** The buffer is the tail of `t`, within the limit. */
  predicate Buffered(lx: Lexer, t: seq<byte>) {
    |lx.current| <= |t| && lx.current == t[|t| - |lx.current|..] && |lx.current| <= lx.limit
  }

  /** Where, and on which line, the statement in `t[w..]` starts, if it has started. */
  predicate Started(t: seq<byte>, w: nat, stmtLine: nat, stmtOffset: nat)
    requires w <= |t|
  {
    if stmtLine == 0 then AllSpace(t[w..])
    else StartsAt(t, w, stmtOffset) && stmtLine == 1 + Newlines(t[..stmtOffset])
  }

  /** The state of a lexer that has consumed exactly `t`. */
  predicate Tracks(lx: Lexer, t: seq<byte>) {
    && Positioned(lx, t) && Buffered(lx, t)
    && Started(t, |t| - |lx.current|, lx.stmtLine, lx.stmtOffset)
    && (lx.hasCode ==> lx.stmtLine != 0)
  }

  /** Where the current statement's buffer begins. */
  function Window(lx: Lexer, t: seq<byte>): int { |t| - |lx.current| }

  lemma PositionConsumed(lx: Lexer, t: seq<byte>, b: byte)
    requires Positioned(lx, t)
    ensures Positioned(Consumed(lx, b), t + [b])
  {
    assert (t + [b])[..|t|] == t;
  }

  lemma TrackConsumed(lx: Lexer, t: seq<byte>, b: byte)
    requires Tracks(lx, t) && lx.current == [] && lx.stmtLine == 0
    ensures Tracks(Consumed(lx, b), t + [b])
  {
    PositionConsumed(lx, t, b);
  }

  lemma {:induction false} TrackConsumedAll(lx: Lexer, t: seq<byte>, bs: seq<byte>)
    requires Tracks(lx, t) && lx.current == [] && lx.stmtLine == 0
    ensures var l := ConsumedAll(lx, bs);
            && Tracks(l, t + bs) && l.current == [] && l.limit == lx.limit && !l.hasCode && l.mode == lx.mode
    decreases |bs|
  {
    if bs == [] {
      assert t + bs == t;
    } else {
      TrackConsumed(lx, t, bs[0]);
      TrackConsumedAll(Consumed(lx, bs[0]), t + [bs[0]], bs[1..]);
      assert t + [bs[0]] + bs[1..] == t + bs;
    }
  }

  lemma WindowGrows(t: seq<byte>, w: nat, b: byte)
    requires w <= |t|
    ensures (t + [b])[w..] == t[w..] + [b]
  {
  }

  lemma StartedGrows(t: seq<byte>, w: nat, stmtLine: nat, p: nat, b: byte)
    requires w <= |t| && Started(t, w, stmtLine, p)
    ensures stmtLine != 0 || IsSpace(b) ==> Started(t + [b], w, stmtLine, p)
    ensures stmtLine == 0 && !IsSpace(b) ==> Started(t + [b], w, 1 + Newlines(t), |t|)
  {
    var u := t + [b];
    WindowGrows(t, w, b);
    if stmtLine != 0 {
      assert u[w..p] == t[w..p];
      assert u[..p] == t[..p];
    } else {
      assert u[w..|t|] == t[w..];
      assert u[..|t|] == t;
    }
  }

  lemma TrackTaken(lx: Lexer, t: seq<byte>, b: byte)
    requires Tracks(lx, t) && Taken(lx, b).Ok?
    ensures var l := Taken(lx, b).value;
            && Tracks(l, t + [b]) && l.current == lx.current + [b]
            && l.limit == lx.limit && l.hasCode == lx.hasCode
            && (!IsSpace(b) ==> l.stmtLine != 0)
  {
    var w := |t| - |lx.current|;
    WindowGrows(t, w, b);
    StartedGrows(t, w, lx.stmtLine, lx.stmtOffset, b);
    PositionConsumed(Appended(lx, b).value, t, b);
  }

  // ---- A step either extends the buffer by what it read, or closes the statement ----

  ghost predicate Extends(lx: Lexer, t: seq<byte>, rest: seq<byte>, g: Outcome)
    requires g.Go? && g.used <= |rest|
  {
    && Tracks(g.next, t + rest[..g.used])
    && g.out == [] && |g.next.current| == |lx.current| + g.used
    && g.next.limit == lx.limit && (lx.hasCode ==> g.next.hasCode)
  }

  ghost predicate Cuts(lx: Lexer, t: seq<byte>, rest: seq<byte>, g: Outcome)
    requires g.Go? && g.used <= |rest|
  {
    && Tracks(g.next, t + rest[..g.used])
    && g.out == (if lx.hasCode then [Emit(lx)] else [])
    && g.next.current == [] && !g.next.hasCode && g.next.limit == lx.limit
    && lx.mode.Normal? && g.next.mode.Normal?
  }

  lemma TracksIgnores(lx: Lexer, t: seq<byte>, escaped: bool)
    requires Tracks(lx, t)
    ensures Tracks(lx.(escaped := escaped), t)
  {
  }

  lemma TracksRead(l: Lexer, t: seq<byte>, mode: Mode, code: bool)
    requires Tracks(l, t) && (code ==> l.stmtLine != 0)
    ensures Tracks(l.(mode := mode, hasCode := l.hasCode || code), t)
  {
  }

  lemma TakenKeepsStart(lx: Lexer, b: byte)
    requires Taken(lx, b).Ok? && lx.stmtLine != 0
    ensures Taken(lx, b).value.stmtLine != 0
  {
  }

  lemma TrackTaken2(lx: Lexer, t: seq<byte>, a: byte, b: byte)
    requires Tracks(lx, t) && Taken2(lx, a, b).Ok? && !IsSpace(a)
    ensures var l := Taken2(lx, a, b).value;
            && Tracks(l, t + [a, b]) && |l.current| == |lx.current| + 2
            && l.limit == lx.limit && l.hasCode == lx.hasCode && l.stmtLine != 0
  {
    TrackTaken(lx, t, a);
    var l := Taken(lx, a).value;
    TrackTaken(l, t + [a], b);
    TakenKeepsStart(l, b);
    assert t + [a] + [b] == t + [a, b];
  }

  lemma ReadOne(lx: Lexer, t: seq<byte>, rest: seq<byte>, mode: Mode, code: bool)
    requires Tracks(lx, t) && rest != [] && (code ==> !IsSpace(rest[0]))
    requires Read(Taken(lx, rest[0]), 1, mode, code).Go?
    ensures Extends(lx, t, rest, Read(Taken(lx, rest[0]), 1, mode, code))
  {
    TrackTaken(lx, t, rest[0]);
    assert rest[..1] == [rest[0]];
    TracksRead(Taken(lx, rest[0]).value, t + rest[..1], mode, code);
  }

  lemma ReadTwo(lx: Lexer, t: seq<byte>, rest: seq<byte>, mode: Mode, code: bool)
    requires Tracks(lx, t) && |rest| >= 2 && !IsSpace(rest[0])
    requires Read(Taken2(lx, rest[0], rest[1]), 2, mode, code).Go?
    ensures Extends(lx, t, rest, Read(Taken2(lx, rest[0], rest[1]), 2, mode, code))
  {
    TrackTaken2(lx, t, rest[0], rest[1]);
    assert rest[..2] == [rest[0], rest[1]];
    TracksRead(Taken2(lx, rest[0], rest[1]).value, t + rest[..2], mode, code);
  }

  /** The escape flag may change before the byte is read. */
  lemma ReadEscaping(lx: Lexer, t: seq<byte>, rest: seq<byte>, escaped: bool)
    requires Tracks(lx, t) && rest != []
    requires Read(Taken(lx.(escaped := escaped), rest[0]), 1, lx.mode, false).Go?
    ensures Extends(lx, t, rest, Read(Taken(lx.(escaped := escaped), rest[0]), 1, lx.mode, false))
  {
    TracksIgnores(lx, t, escaped);
    ReadOne(lx.(escaped := escaped), t, rest, lx.mode, false);
  }

  lemma TracksReset(lx: Lexer, t: seq<byte>, d: Delimiter)
    requires Tracks(lx, t)
    ensures Tracks(Reset(lx), t) && Tracks(Reset(lx).(delimiter := d), t)
  {
  }

  lemma DelimiterShape(lx: Lexer, t: seq<byte>, rest: seq<byte>)
    requires Tracks(lx, t) && DelimiterAt(lx, rest) && lx.mode.Normal?
    ensures Cuts(lx, t, rest, StepDelimiter(lx))
  {
    TracksReset(lx, t, lx.delimiter);
    TrackConsumedAll(Reset(lx), t, lx.delimiter);
  }

  lemma DirectiveShape(lx: Lexer, t: seq<byte>, rest: seq<byte>, d: Delimiter, n: nat)
    requires Tracks(lx, t) && n <= |rest| && !lx.hasCode && lx.mode.Normal?
    ensures Cuts(lx, t, rest, StepDirective(lx, rest, d, n))
  {
    TracksReset(lx, t, d);
    TrackConsumedAll(Reset(lx).(delimiter := d), t, rest[..n]);
  }

  lemma NormalShape(lx: Lexer, t: seq<byte>, rest: seq<byte>, final: bool)
    requires rest != [] && lx.mode.Normal? && Tracks(lx, t) && StepNormal(lx, rest, final).Go?
    ensures var g := StepNormal(lx, rest, final);
            g.used <= |rest| && (Extends(lx, t, rest, g) || Cuts(lx, t, rest, g))
  {
    var b := rest[0];
    if b == HASH || DashComment(rest) {
      ReadOne(lx, t, rest, LineComment, false);
    } else if OpensBlock(rest) {
      ReadTwo(lx, t, rest, BlockComment, OpensVersioned(rest));
    } else if IsQuote(b) {
      ReadOne(lx, t, rest, QuoteMode(b), true);
    } else if DelimiterAt(lx, rest) {
      DelimiterShape(lx, t, rest);
    } else {
      ReadOne(lx, t, rest, Normal, !IsSpace(b));
    }
  }

  lemma BlockShape(lx: Lexer, t: seq<byte>, rest: seq<byte>, final: bool)
    requires rest != [] && Tracks(lx, t) && StepBlock(lx, rest, final).Go?
    ensures var g := StepBlock(lx, rest, final); g.used <= |rest| && Extends(lx, t, rest, g)
  {
    if rest[0] == STAR && |rest| >= 2 && rest[1] == SLASH {
      ReadTwo(lx, t, rest, Normal, false);
    } else {
      ReadOne(lx, t, rest, BlockComment, false);
    }
  }

  lemma QuotedShape(lx: Lexer, t: seq<byte>, rest: seq<byte>, final: bool)
    requires rest != [] && Tracks(lx, t) && StepQuoted(lx, rest, final).Go?
    ensures var g := StepQuoted(lx, rest, final); g.used <= |rest| && Extends(lx, t, rest, g)
  {
    var b := rest[0];
    if lx.escaped {
      ReadEscaping(lx, t, rest, false);
    } else if b == BACKSLASH && !lx.mode.Backtick? {
      ReadEscaping(lx, t, rest, true);
    } else if b == QuoteByte(lx.mode) && |rest| >= 2 && rest[1] == b {
      ReadTwo(lx, t, rest, lx.mode, false);
    } else if b == QuoteByte(lx.mode) {
      ReadOne(lx, t, rest, Normal, false);
    } else {
      ReadOne(lx, t, rest, lx.mode, false);
    }
  }

  lemma ByteShape(lx: Lexer, t: seq<byte>, rest: seq<byte>, final: bool)
    requires rest != [] && Tracks(lx, t) && StepByte(lx, rest, final).Go?
    ensures var g := StepByte(lx, rest, final);
            g.used <= |rest| && (Extends(lx, t, rest, g) || Cuts(lx, t, rest, g))
  {
    match lx.mode
    case Normal => NormalShape(lx, t, rest, final);
    case LineComment => ReadOne(lx, t, rest, if rest[0] == LF then Normal else LineComment, false);
    case BlockComment => BlockShape(lx, t, rest, final);
    case _ => QuotedShape(lx, t, rest, final);
  }

  lemma StepShape(lx: Lexer, t: seq<byte>, rest: seq<byte>, final: bool)
    requires rest != [] && Tracks(lx, t) && Step(lx, rest, final).Go?
    ensures var g := Step(lx, rest, final);
            g.used <= |rest| && (Extends(lx, t, rest, g) || Cuts(lx, t, rest, g))
  {
    if AtDirective(lx, rest) {
      var d := ParseDirective(rest, lx.line, final);
      if d.NewDelimiter? {
        DirectiveShape(lx, t, rest, d.value, d.consumed);
      } else {
        ByteShape(lx, t, rest, final);
      }
    } else {
      ByteShape(lx, t, rest, final);
    }
  }

  // ---- Emitted statements are slices of the text ----

  function End(st: Statement): nat { st.offset + |st.sql| }

  /** The statement is the text's slice at its offset, on the line it claims, trimmed and within the limit. */
  ghost predicate Located(st: Statement, t: seq<byte>, limit: nat) {
    && End(st) <= |t| && st.sql == t[st.offset..End(st)]
    && st.line == 1 + Newlines(t[..st.offset])
    && 0 < |st.sql| <= limit && !IsSpace(st.sql[0]) && !IsSpace(st.sql[|st.sql| - 1])
  }

  lemma LocatedGrows(st: Statement, t: seq<byte>, u: seq<byte>, limit: nat)
    requires Located(st, t, limit) && t <= u
    ensures Located(st, u, limit)
  {
    assert u[..st.offset] == t[..st.offset];
    assert u[st.offset..End(st)] == t[st.offset..End(st)];
  }

  /** Statements located in `t`, in order and disjoint, between `lo` and `hi`. */
  ghost predicate Chain(out: seq<Statement>, t: seq<byte>, limit: nat, lo: int, hi: int) {
    if out == [] then lo <= hi
    else Located(out[0], t, limit) && lo <= out[0].offset && Chain(out[1..], t, limit, End(out[0]), hi)
  }

  lemma {:induction false} ChainGrows(out: seq<Statement>, t: seq<byte>, u: seq<byte>, limit: nat,
                                      lo: int, hi: int, high: int)
    requires Chain(out, t, limit, lo, hi) && hi <= high && t <= u
    ensures Chain(out, u, limit, lo, high)
  {
    if out != [] {
      LocatedGrows(out[0], t, u, limit);
      ChainGrows(out[1..], t, u, limit, End(out[0]), hi, high);
    }
  }

  lemma {:induction false} ChainAppend(a: seq<Statement>, b: seq<Statement>, t: seq<byte>, limit: nat,
                                       lo: int, mid: int, hi: int)
    requires Chain(a, t, limit, lo, mid) && Chain(b, t, limit, mid, hi)
    ensures Chain(a + b, t, limit, lo, hi)
  {
    if a == [] {
      assert a + b == b;
      ChainFrom(b, t, limit, lo, mid, hi);
    } else {
      assert (a + b)[1..] == a[1..] + b;
      ChainAppend(a[1..], b, t, limit, End(a[0]), mid, hi);
    }
  }

  lemma ChainFrom(b: seq<Statement>, t: seq<byte>, limit: nat, lo: int, mid: int, hi: int)
    requires Chain(b, t, limit, mid, hi) && lo <= mid
    ensures Chain(b, t, limit, lo, hi)
  {
  }

  lemma TrimmedSlice(t: seq<byte>, w: nat, p: nat)
    requires w <= |t| && StartsAt(t, w, p)
    ensures var s := Trimmed(t[w..]);
            && s != [] && p + |s| <= |t| && s == t[p..p + |s|]
            && !IsSpace(s[0]) && !IsSpace(s[|s| - 1]) && AllSpace(t[p + |s|..])
  {
    hide LeadingSpaces, TrailingStart;
    var s := t[w..];
    var a, b := LeadingSpaces(s), TrailingStart(s);
    assert !IsSpace(s[p - w]);
    assert s[..p - w] == t[w..p];
    assert a < b;
    assert s[a..b] == t[p..w + b];
    assert t[w + b..] == s[b..];
  }

  /** `st` is what is left of `t[w..]` without the white space around it. */
  ghost predicate Fills(st: Statement, t: seq<byte>, w: int, limit: nat) {
    && Located(st, t, limit) && 0 <= w <= st.offset
    && AllSpace(t[w..st.offset]) && AllSpace(t[End(st)..])
  }

  lemma SliceFills(t: seq<byte>, w: nat, p: nat, limit: nat)
    requires w <= |t| <= w + limit && StartsAt(t, w, p)
    ensures Fills(Statement(Trimmed(t[w..]), 1 + Newlines(t[..p]), p), t, w, limit)
  {
    TrimmedSlice(t, w, p);
  }

  lemma EmitIsSlice(lx: Lexer, t: seq<byte>)
    requires Tracks(lx, t) && lx.hasCode
    ensures var w := |t| - |lx.current|;
            && 0 <= w && |lx.current| <= lx.limit && StartsAt(t, w, lx.stmtOffset)
            && Emit(lx) == Statement(Trimmed(t[w..]), 1 + Newlines(t[..lx.stmtOffset]), lx.stmtOffset)
  {
  }

  lemma EmitFills(lx: Lexer, t: seq<byte>)
    requires Tracks(lx, t) && lx.hasCode
    ensures Fills(Emit(lx), t, Window(lx, t), lx.limit)
  {
    hide Tracks, Fills, Trimmed, StartsAt, Emit;
    EmitIsSlice(lx, t);
    SliceFills(t, |t| - |lx.current|, lx.stmtOffset, lx.limit);
  }

  lemma EmitChain(lx: Lexer, t: seq<byte>)
    requires Tracks(lx, t)
    ensures Chain(if lx.hasCode then [Emit(lx)] else [], t, lx.limit, Window(lx, t), |t|)
  {
    if lx.hasCode {
      EmitFills(lx, t);
      var out := [Emit(lx)];
      assert out[1..] == [];
      assert Chain([], t, lx.limit, End(out[0]), |t|);
    }
  }

  /** A run that has brought the lexer to the end of `u`: its state tracks `u`, and what it emitted
      is located between the window it started with and the one it has now. */
  ghost predicate Traced(limit: nat, w: int, u: seq<byte>, p: Progress)
    requires p.Done?
  {
    Tracks(p.lx, u) && p.lx.limit == limit && Chain(p.out, u, limit, w, Window(p.lx, u))
  }

  /** What a run has read of its input. */
  function ReadBy(rest: seq<byte>, p: Progress): seq<byte>
    requires p.Done?
  {
    if |p.rest| <= |rest| then rest[..|rest| - |p.rest|] else []
  }

  lemma StepChain(lx: Lexer, t: seq<byte>, rest: seq<byte>, final: bool)
    requires rest != [] && Tracks(lx, t) && Step(lx, rest, final).Go?
    ensures var g := Step(lx, rest, final);
            && g.used <= |rest| && g.next.limit == lx.limit && Tracks(g.next, t + rest[..g.used])
            && Chain(g.out, t + rest[..g.used], lx.limit, Window(lx, t), Window(g.next, t + rest[..g.used]))
  {
    StepShape(lx, t, rest, final);
    var g := Step(lx, rest, final);
    if !Extends(lx, t, rest, g) {
      EmitChain(lx, t);
      ChainGrows(g.out, t, t + rest[..g.used], lx.limit, Window(lx, t), |t|, |t| + g.used);
    }
  }

  /** One turn of the loop: either nothing more is read, or the run goes on from a tracked state. */
  lemma Unroll(lx: Lexer, t: seq<byte>, rest: seq<byte>, final: bool)
    returns (next: Lexer, n: nat, out: seq<Statement>)
    requires Tracks(lx, t) && Run(lx, rest, final).Done?
    ensures n == 0 ==> Run(lx, rest, final) == Done(lx, rest, [])
    ensures n > 0 ==>
      && n <= |rest| && next.limit == lx.limit && Tracks(next, t + rest[..n])
      && Chain(out, t + rest[..n], lx.limit, Window(lx, t), Window(next, t + rest[..n]))
      && Run(lx, rest, final) == Prepend(out, Run(next, rest[n..], final))
  {
    if rest == [] || Step(lx, rest, final).Wait? {
      next, n, out := lx, 0, [];
    } else {
      var g := Step(lx, rest, final);
      RunStep(lx, rest, final);
      StepChain(lx, t, rest, final);
      next, n, out := g.next, g.used, g.out;
    }
  }

  lemma {:induction false} RunTraced(lx: Lexer, t: seq<byte>, rest: seq<byte>, final: bool)
    requires Tracks(lx, t) && Run(lx, rest, final).Done?
    ensures var p := Run(lx, rest, final); Traced(lx.limit, Window(lx, t), t + ReadBy(rest, p), p)
    decreases |rest|
  {
    var p := Run(lx, rest, final);
    var next, n, out := Unroll(lx, t, rest, final);
    if n == 0 {
      NothingRead(lx, t, rest, p);
    } else {
      var v := t + rest[..n];
      var q := Run(next, rest[n..], final);
      RunTraced(next, v, rest[n..], final);
      RunEnds(next, rest[n..], final);
      ReadJoin(t, rest, n, p, q);
      TracedPrepend(lx.limit, Window(lx, t), v, Window(next, v), out, t + ReadBy(rest, p), q, p);
    }
  }

  lemma NothingRead(lx: Lexer, t: seq<byte>, rest: seq<byte>, p: Progress)
    requires Tracks(lx, t) && p == Done(lx, rest, [])
    ensures Traced(lx.limit, Window(lx, t), t + ReadBy(rest, p), p)
  {
    assert t + ReadBy(rest, p) == t;
  }

  lemma ReadJoin(t: seq<byte>, rest: seq<byte>, n: nat, p: Progress, q: Progress)
    requires n <= |rest| && p.Done? && q.Done? && p.rest == q.rest && |q.rest| <= |rest| - n
    ensures t + rest[..n] + ReadBy(rest[n..], q) == t + ReadBy(rest, p)
    ensures t + rest[..n] <= t + ReadBy(rest, p)
  {
    assert rest[..n] + rest[n..][..|rest| - n - |q.rest|] == rest[..|rest| - |q.rest|];
  }

  lemma TracedPrepend(limit: nat, lo: int, v: seq<byte>, mid: int, out: seq<Statement>, u: seq<byte>,
                      q: Progress, p: Progress)
    requires v <= u && q.Done? && Chain(out, v, limit, lo, mid) && Traced(limit, mid, u, q)
    requires p == Prepend(out, q)
    ensures Traced(limit, lo, u, p)
  {
    ChainGrows(out, v, u, limit, lo, mid, mid);
    ChainAppend(out, q.out, u, limit, lo, mid, Window(q.lx, u));
  }

  lemma InitTracks(limit: nat)
    ensures Tracks(Init(limit), [])
  {
  }

  /** Provenance: the statements of a script are its slices at their offsets, on their lines,
      ordered, disjoint, trimmed and no longer than the limit. */
  lemma Provenance(limit: nat, text: seq<byte>)
    requires Finish(Init(limit), text).Ok?
    ensures Chain(Finish(Init(limit), text).value, text, limit, 0, |text|)
  {
    InitTracks(limit);
    FinishChain(Init(limit), [], text);
    assert [] + text == text;
  }

  lemma FinishChain(lx: Lexer, t: seq<byte>, rest: seq<byte>)
    requires Tracks(lx, t) && Finish(lx, rest).Ok?
    ensures Chain(Finish(lx, rest).value, t + rest, lx.limit, Window(lx, t), |t + rest|)
  {
    var p := Run(lx, rest, true);
    RunTraced(lx, t, rest, true);
    RunEnds(lx, rest, true);
    assert ReadBy(rest, p) == rest;
    EmitChain(p.lx, t + rest);
    var last := if p.lx.hasCode then [Emit(p.lx)] else [];
    ChainAppend(p.out, last, t + rest, lx.limit, Window(lx, t), Window(p.lx, t + rest), |t + rest|);
    assert p.out + [] == p.out;
  }

  /** What a chain means for any statement, and for any two. */
  lemma {:induction false} ChainMeans(out: seq<Statement>, t: seq<byte>, limit: nat, lo: int, hi: int, i: nat, j: nat)
    requires Chain(out, t, limit, lo, hi) && i <= j < |out|
    ensures Located(out[i], t, limit) && lo <= out[i].offset
    ensures i < j ==> End(out[i]) <= out[j].offset
  {
    if j > 0 {
      if i == 0 {
        ChainMeans(out[1..], t, limit, End(out[0]), hi, j - 1, j - 1);
      } else {
        ChainMeans(out[1..], t, limit, End(out[0]), hi, i - 1, j - 1);
      }
    }
  }
}
