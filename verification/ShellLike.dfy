/** `like_match` of src-tauri/src/txshell.rs against the definition of LIKE. */
module ShellLike {
  import opened Common

  /** Section 8.5 of ISO/IEC 9075-2 without an escape character: `%` stands for any run of characters,
      `_` for any one character, every other character for itself. */
  ghost predicate Like(t: string, p: string)
    decreases |p|
  {
    if p == [] then t == []
    else if p[0] == '%' then exists k :: 0 <= k <= |t| && Like(t[k..], p[1..])
    else t != [] && Fits(p[0], t[0]) && Like(t[1..], p[1..])
  }

  predicate Fits(c: char, x: char) { c == '_' || c == x }

  // ---- The loop ----

  predicate AllPercent(p: string) { forall i | 0 <= i < |p| :: p[i] == '%' }

  function StarRank(p: string, star: Option<nat>): nat {
    match star
    case None => |p| + 1
    case Some(s) => if s <= |p| then |p| - s else 0
  }

  /** The indices of the loop: the last `%` tried, and the text position it was tried at. */
  predicate LoopOk(t: string, p: string, ti: nat, pi: nat, star: Option<nat>, mark: nat) {
    ti <= |t| && pi <= |p| && mark <= ti && (star.Some? ==> star.value < pi)
  }

  /** What the loop returns from a given state. */
  function Matches(t: string, p: string, ti: nat, pi: nat, star: Option<nat>, mark: nat): bool
    requires LoopOk(t, p, ti, pi, star, mark)
    decreases StarRank(p, star), |t| - mark, |t| - ti
  {
    if ti == |t| then AllPercent(p[pi..])
    else if pi < |p| && Fits(p[pi], t[ti]) then Matches(t, p, ti + 1, pi + 1, star, mark)
    else if pi < |p| && p[pi] == '%' then Matches(t, p, ti, pi + 1, Some(pi), ti)
    else if star.Some? then Matches(t, p, mark + 1, star.value + 1, star, mark + 1)
    else false
  }

  method LikeMatch(t: string, p: string) returns (r: bool)
    ensures r == Matches(t, p, 0, 0, None, 0)
  {
    var ti: nat, pi: nat := 0, 0;
    var star: Option<nat>, mark: nat := None, 0;
    while ti < |t|
      invariant LoopOk(t, p, ti, pi, star, mark)
      invariant Matches(t, p, ti, pi, star, mark) == Matches(t, p, 0, 0, None, 0)
      decreases StarRank(p, star), |t| - mark, |t| - ti
    {
      if pi < |p| && (p[pi] == '_' || p[pi] == t[ti]) {
        ti, pi := ti + 1, pi + 1;
      } else if pi < |p| && p[pi] == '%' {
        star, mark := Some(pi), ti;
        pi := pi + 1;
      } else if star.Some? {
        pi := star.value + 1;
        mark := mark + 1;
        ti := mark;
      } else {
        return false;
      }
    }
    while pi < |p| && p[pi] == '%'
      invariant pi <= |p| && AllPercent(p[pi..]) == Matches(t, p, 0, 0, None, 0)
    {
      assert p[pi..] == [p[pi]] + p[pi + 1..];
      pi := pi + 1;
    }
    assert pi < |p| ==> p[pi..][0] == p[pi];
    return pi == |p|;
  }

  // ---- LIKE ----

  lemma LikeEmpty(p: string)
    ensures Like([], p) <==> AllPercent(p)
    decreases |p|
  {
    if p != [] {
      var none: string := [];
      LikeEmpty(p[1..]);
      assert p[0] == '%' && Like(none[0..], p[1..]) ==> Like([], p);
      assert p == [p[0]] + p[1..];
    }
  }

  function Fixed(p: string): nat { if p == [] then 0 else (if p[0] == '%' then 0 else 1) + Fixed(p[1..]) }

  /** A text that matches has a character for each one the pattern fixes. */
  lemma {:induction false} LikeLength(t: string, p: string)
    requires Like(t, p)
    ensures |t| >= Fixed(p)
    decreases |p|
  {
    if p != [] {
      if p[0] == '%' {
        var k :| 0 <= k <= |t| && Like(t[k..], p[1..]);
        LikeLength(t[k..], p[1..]);
      } else {
        LikeLength(t[1..], p[1..]);
      }
    }
  }

  lemma {:induction false} FixedAppend(a: string, b: string)
    ensures Fixed(a + b) == Fixed(a) + Fixed(b)
  {
    if a == [] { assert a + b == b; } else { assert (a + b)[1..] == a[1..] + b; FixedAppend(a[1..], b); }
  }

  lemma {:induction false} FixedPlain(a: string)
    requires '%' !in a
    ensures Fixed(a) == |a|
  {
    if a != [] { FixedPlain(a[1..]); }
  }

  /** A plain segment in front of the pattern takes that many characters, whatever follows. */
  lemma {:induction false} LikeSegment(u: string, seg: string, rest: string)
    requires '%' !in seg && Like(u, seg + rest)
    ensures |seg| <= |u| && Like(u[|seg|..], rest)
    decreases |seg|
  {
    if seg == [] {
      assert seg + rest == rest && u[0..] == u;
    } else {
      assert (seg + rest)[1..] == seg[1..] + rest && (seg + rest)[0] == seg[0];
      LikeSegment(u[1..], seg[1..], rest);
      assert u[1..][|seg| - 1..] == u[|seg|..];
    }
  }

  // ---- The backtracking loop decides LIKE when no `%` can be taken literally ----

  /** A `%` of the pattern never stands against a `%` of the text. */
  predicate Plain(t: string, p: string) { '%' !in t || '%' !in p }

  /** Since the last `%` the pattern has been plain, and matched as many characters as it has. */
  predicate SegmentOk(t: string, p: string, ti: nat, pi: nat, star: Option<nat>, mark: nat) {
    && LoopOk(t, p, ti, pi, star, mark)
    && (star.Some? ==> p[star.value] == '%' && '%' !in p[star.value + 1..pi] && ti - mark == pi - star.value - 1)
  }

  /** A later start for what follows the last `%` would do. */
  ghost predicate Retry(t: string, p: string, star: Option<nat>, mark: nat) {
    star.Some? && star.value < |p| && exists m :: mark < m <= |t| && Like(t[m..], p[star.value + 1..])
  }

  /** At the end of the text no later start can do: it would leave too few characters. */
  lemma NoRetryAtEnd(t: string, p: string, ti: nat, pi: nat, star: Option<nat>, mark: nat)
    requires SegmentOk(t, p, ti, pi, star, mark) && ti == |t|
    ensures !Retry(t, p, star, mark)
  {
    if Retry(t, p, star, mark) {
      var s := star.value;
      var m :| mark < m <= |t| && Like(t[m..], p[s + 1..]);
      LikeLength(t[m..], p[s + 1..]);
      assert p[s + 1..] == p[s + 1..pi] + p[pi..];
      FixedAppend(p[s + 1..pi], p[pi..]);
      FixedPlain(p[s + 1..pi]);
    }
  }

  /** At a new `%`, a later start for the old one is a later start for the new one. */
  lemma NewStarCovers(t: string, p: string, ti: nat, pi: nat, star: Option<nat>, mark: nat)
    requires SegmentOk(t, p, ti, pi, star, mark) && pi < |p| && p[pi] == '%' && Retry(t, p, star, mark)
    ensures Retry(t, p, Some(pi), ti)
  {
    hide Like;
    var s := star.value;
    var m :| mark < m <= |t| && Like(t[m..], p[s + 1..]);
    var seg := p[s + 1..pi];
    assert p[s + 1..] == seg + p[pi..];
    LikeSegment(t[m..], seg, p[pi..]);
    var from := m + |seg|;
    assert t[m..][|seg|..] == t[from..];
    var k := LikePercent(t, from, p, pi);
    assert ti < k <= |t| && Like(t[k..], p[pi + 1..]);
  }

  lemma LikePercent(t: string, from: nat, p: string, pi: nat) returns (k: nat)
    requires from <= |t| && pi < |p| && p[pi] == '%' && Like(t[from..], p[pi..])
    ensures from <= k <= |t| && Like(t[k..], p[pi + 1..])
  {
    var u := t[from..];
    var j :| 0 <= j <= |u| && Like(u[j..], p[pi..][1..]);
    assert u[j..] == t[from + j..] && p[pi..][1..] == p[pi + 1..];
    k := from + j;
  }

  lemma LikeStar(t: string, p: string, ti: nat, pi: nat)
    requires ti <= |t| && pi < |p| && p[pi] == '%'
    ensures Like(t[ti..], p[pi..]) <==> Like(t[ti..], p[pi + 1..]) || Retry(t, p, Some(pi), ti)
  {
    var u, q := t[ti..], p[pi..];
    assert q[0] == '%' && q[1..] == p[pi + 1..];
    if Like(u, q) {
      var k :| 0 <= k <= |u| && Like(u[k..], q[1..]);
      assert u[k..] == t[ti + k..];
    }
    if Like(u, q[1..]) { assert u[0..] == u; }
    if Retry(t, p, Some(pi), ti) {
      var m :| ti < m <= |t| && Like(t[m..], p[pi + 1..]);
      assert u[m - ti..] == t[m..];
    }
  }

  lemma LikeNext(t: string, p: string, ti: nat, pi: nat)
    requires ti < |t| && pi < |p| && p[pi] != '%'
    ensures Like(t[ti..], p[pi..]) <==> Fits(p[pi], t[ti]) && Like(t[ti + 1..], p[pi + 1..])
  {
    var u, q := t[ti..], p[pi..];
    assert u[0] == t[ti] && q[0] == p[pi] && u[1..] == t[ti + 1..] && q[1..] == p[pi + 1..];
  }

  lemma RetryNext(t: string, p: string, star: Option<nat>, mark: nat)
    requires star.Some? && star.value < |p| && mark < |t|
    ensures Retry(t, p, star, mark) <==> Like(t[mark + 1..], p[star.value + 1..]) || Retry(t, p, star, mark + 1)
  {
    if Retry(t, p, star, mark) {
      var m :| mark < m <= |t| && Like(t[m..], p[star.value + 1..]);
      assert m == mark + 1 || mark + 1 < m;
    }
  }

  lemma {:induction false} MatchesMeans(t: string, p: string, ti: nat, pi: nat, star: Option<nat>, mark: nat)
    requires SegmentOk(t, p, ti, pi, star, mark) && Plain(t, p)
    ensures Matches(t, p, ti, pi, star, mark) <==> Like(t[ti..], p[pi..]) || Retry(t, p, star, mark)
    decreases StarRank(p, star), |t| - mark, |t| - ti
  {
    hide Like, Retry;
    if ti == |t| {
      assert t[ti..] == [];
      LikeEmpty(p[pi..]);
      NoRetryAtEnd(t, p, ti, pi, star, mark);
    } else if pi < |p| && Fits(p[pi], t[ti]) {
      assert p[pi] != '%' by { NotBoth(t, p, ti, pi); }
      SegmentGrows(p, pi, star);
      LikeNext(t, p, ti, pi);
      MatchesMeans(t, p, ti + 1, pi + 1, star, mark);
    } else if pi < |p| && p[pi] == '%' {
      assert p[pi + 1..pi + 1] == [];
      LikeStar(t, p, ti, pi);
      if Retry(t, p, star, mark) { NewStarCovers(t, p, ti, pi, star, mark); }
      MatchesMeans(t, p, ti, pi + 1, Some(pi), ti);
    } else {
      Mismatch(t, p, ti, pi);
      if star.Some? {
        RetryNext(t, p, star, mark);
        assert p[star.value + 1..star.value + 1] == [];
        MatchesMeans(t, p, mark + 1, star.value + 1, star, mark + 1);
      } else {
        NoStarNoRetry(t, p, mark);
      }
    }
  }

  lemma NoStarNoRetry(t: string, p: string, mark: nat)
    ensures !Retry(t, p, None, mark)
  {
  }

  lemma NotBoth(t: string, p: string, ti: nat, pi: nat)
    requires ti < |t| && pi < |p| && Fits(p[pi], t[ti]) && Plain(t, p)
    ensures p[pi] != '%'
  {
  }

  lemma SegmentGrows(p: string, pi: nat, star: Option<nat>)
    requires pi < |p| && p[pi] != '%' && star.Some? ==> star.value < pi && '%' !in p[star.value + 1..pi]
    requires pi < |p| && p[pi] != '%'
    ensures star.Some? ==> '%' !in p[star.value + 1..pi + 1]
  {
    if star.Some? { assert p[star.value + 1..pi + 1] == p[star.value + 1..pi] + [p[pi]]; }
  }

  lemma Mismatch(t: string, p: string, ti: nat, pi: nat)
    requires ti < |t| && pi <= |p| && (pi < |p| ==> !Fits(p[pi], t[ti]) && p[pi] != '%')
    ensures !Like(t[ti..], p[pi..])
  {
    if pi < |p| { LikeNext(t, p, ti, pi); }
  }

  /** `like_match` decides LIKE for every text without `%`, and for every pattern without it. */
  lemma MatchesIsLike(t: string, p: string)
    requires Plain(t, p)
    ensures Matches(t, p, 0, 0, None, 0) <==> Like(t, p)
  {
    MatchesMeans(t, p, 0, 0, None, 0);
    assert t[0..] == t && p[0..] == p;
  }

  // ---- Exactly which texts and which patterns are safe ----

  /** Characters equal to the pattern's are taken one by one, a `%` like any other. */
  lemma {:induction false} LiteralRun(t: string, p: string, i: nat, n: nat)
    requires i <= n <= |t| && n <= |p| && forall j | i <= j < n :: t[j] == p[j]
    ensures Matches(t, p, i, i, None, 0) == Matches(t, p, n, n, None, 0)
    decreases n - i
  {
    if i < n { LiteralRun(t, p, i + 1, n); }
  }

  /** Without a star, and with none left in the pattern, lengths must agree. */
  lemma {:induction false} PlainRun(t: string, p: string, ti: nat, pi: nat)
    requires ti <= |t| && pi <= |p| && '%' !in p[pi..] && Matches(t, p, ti, pi, None, 0)
    ensures |t| - ti == |p| - pi
    decreases |t| - ti
  {
    assert pi < |p| ==> p[pi] in p[pi..] && p[pi..][1..] == p[pi + 1..];
    if ti < |t| {
      PlainRun(t, p, ti + 1, pi + 1);
    }
  }

  /** A common prefix keeps a match. */
  lemma {:induction false} LikePrefix(x: string, u: string, v: string)
    requires Like(u, v)
    ensures Like(x + u, x + v)
  {
    if x == [] {
      assert x + u == u && x + v == v;
    } else {
      var a, b := x + u, x + v;
      assert a[1..] == x[1..] + u && b[1..] == x[1..] + v && a[0] == b[0];
      LikePrefix(x[1..], u, v);
    }
  }

  lemma LikeSelf(x: string)
    ensures Like(x, x)
  {
    LikePrefix(x, [], []);
    assert x + [] == x;
  }

  /** The first `%` of a text, or its length. */
  function FirstPercent(s: string): (n: nat)
    ensures n <= |s| && '%' !in s[..n] && (n < |s| ==> s[n] == '%')
    ensures n == |s| <==> '%' !in s
  {
    if s == [] then 0
    else if s[0] == '%' then 0
    else
      var n := 1 + FirstPercent(s[1..]);
      assert s[..n] == [s[0]] + s[1..][..n - 1];
      assert s == [s[0]] + s[1..];
      n
  }

  /** What stands at the first `%` of the text, and a pattern for it that is refused. */
  lemma TailWitness(rest: string) returns (tail: string)
    requires rest != [] && rest[0] == '%'
    ensures Like(rest, tail) && 1 <= |tail| <= 2 && tail[0] == '%' && (|tail| == 1 <==> |rest| > 1)
    ensures |tail| == 2 ==> tail[1] == '_'
  {
    if |rest| > 1 {
      tail := "%";
      assert rest[|rest|..] == [] && tail[1..] == [];
      assert Like(rest[|rest|..], tail[1..]);
    } else {
      tail := "%_";
      assert rest[0..] == rest && rest[1..] == [] && tail[1..] == "_" && "_"[1..] == [];
      assert Like(rest[0..], tail[1..]);
    }
  }

  /** A text with `%` in it has a pattern that matches by definition and is refused. */
  lemma TextWitness(t: string) returns (p: string)
    requires '%' in t
    ensures Like(t, p) && !Matches(t, p, 0, 0, None, 0)
  {
    hide Like, Matches, FirstPercent;
    p := WitnessAt(t, FirstPercent(t));
  }

  lemma WitnessAt(t: string, k: nat) returns (p: string)
    requires k < |t| && t[k] == '%' && '%' !in t[..k]
    ensures Like(t, p) && !Matches(t, p, 0, 0, None, 0)
  {
    hide Like, Matches;
    var tail := TailWitness(t[k..]);
    p := t[..k] + tail;
    assert t == t[..k] + t[k..];
    LikePrefix(t[..k], t[k..], tail);
    JoinedAt(t, k, tail, p);
    LiteralRun(t, p, 0, k + 1);
    StuckAfterPercent(t, p, k + 1);
  }

  lemma JoinedAt(t: string, k: nat, tail: string, p: string)
    requires k < |t| && tail != [] && tail[0] == t[k] && p == t[..k] + tail
    ensures |p| == k + |tail| && forall j | 0 <= j < k + 1 :: t[j] == p[j]
    ensures |tail| > 1 ==> p[k + 1] == tail[1]
  {
  }

  lemma StuckAfterPercent(t: string, p: string, n: nat)
    requires n <= |t| && n <= |p| && (n < |t| <==> n == |p|) && (n < |p| ==> p[n] != '%')
    ensures !Matches(t, p, n, n, None, 0)
  {
    if n < |p| { assert p[n..][0] == p[n]; }
  }

  /** A pattern with `%` in it has a text that matches by definition and is refused. */
  lemma PatternWitness(p: string, k: nat) returns (t: string)
    requires k < |p| && p[k] == '%' && '%' !in p[k + 1..]
    ensures Like(t, p) && !Matches(t, p, 0, 0, None, 0)
  {
    var w := p[k + 1..];
    t := p[..k] + ("%z" + w);
    var u, v := "%z" + w, "%" + w;
    assert u[2..] == w && v[1..] == w && v[0] == '%';
    LikeSelf(w);
    assert Like(u[2..], v[1..]);
    LikePrefix(p[..k], u, v);
    assert p == p[..k] + v;
    assert forall j | 0 <= j <= k :: t[j] == p[j];
    LiteralRun(t, p, 0, k + 1);
    if Matches(t, p, k + 1, k + 1, None, 0) { PlainRun(t, p, k + 1, k + 1); }
  }

  lemma {:induction false} LastPercent(p: string) returns (k: nat)
    requires '%' in p
    ensures k < |p| && p[k] == '%' && '%' !in p[k + 1..]
    decreases |p|
  {
    if '%' in p[1..] {
      k := LastPercent(p[1..]);
      assert p[1..][k + 1..] == p[k + 2..];
      k := k + 1;
    } else {
      assert p == [p[0]] + p[1..];
      k := 0;
    }
  }

  /** The texts on which every pattern is decided rightly are exactly those without `%`. */
  lemma ExactTexts(t: string)
    ensures (forall p :: Matches(t, p, 0, 0, None, 0) <==> Like(t, p)) <==> '%' !in t
  {
    if '%' in t {
      var p := TextWitness(t);
      assert !(Matches(t, p, 0, 0, None, 0) <==> Like(t, p));
    } else {
      forall p ensures Matches(t, p, 0, 0, None, 0) <==> Like(t, p) { MatchesIsLike(t, p); }
    }
  }

  /** The patterns that are right on every text are exactly those without `%`. */
  lemma ExactPatterns(p: string)
    ensures (forall t :: Matches(t, p, 0, 0, None, 0) <==> Like(t, p)) <==> '%' !in p
  {
    if '%' in p {
      var k := LastPercent(p);
      var t := PatternWitness(p, k);
      assert !(Matches(t, p, 0, 0, None, 0) <==> Like(t, p));
    } else {
      forall t ensures Matches(t, p, 0, 0, None, 0) <==> Like(t, p) { MatchesIsLike(t, p); }
    }
  }
}
