/** What the write guard decides: apart for each statement, and whatever the literals say. */
module SqlVerdicts {
  import opened Common
  import opened SqlBlank
  import opened SqlBlankFacts
  import opened SqlSplit
  import opened SqlGuard
  import opened SqlSim

  // ---- Statement compositionality ----

  lemma {:induction false} SplitPairsAppend(a: string, ba: string, b: string, bb: string)
    requires |a| == |ba| && |b| == |bb|
    ensures SplitPairs(a + ";" + b, ba + ";" + bb) == SplitPairs(a, ba) + SplitPairs(b, bb)
    decreases |a|
  {
    var n := FirstSeparator(ba);
    SliceAround(a, b, n);
    SliceAround(ba, bb, n);
    NoSeparatorBefore(ba + ";" + bb, 0, n);
    assert (ba + ";" + bb)[0..] == ba + ";" + bb;
    if n < |a| {
      assert a[n + 1..] + ";" + b == (a + ";" + b)[n + 1..];
      SplitPairsAppend(a[n + 1..], ba[n + 1..], b, bb);
      FirstPart(a, ba);
      FirstPart(a + ";" + b, ba + ";" + bb);
      Assoc([(a[..n], ba[..n])], SplitPairs(a[n + 1..], ba[n + 1..]), SplitPairs(b, bb));
    } else {
      assert a[..n] == a && ba[..n] == ba;
      LastPart(a, ba);
      FirstPart(a + ";" + b, ba + ";" + bb);
    }
  }

  lemma AnyAppend<T>(a: seq<T>, b: seq<T>, f: T -> bool)
    ensures (exists x <- a + b :: f(x)) <==> (exists x <- a :: f(x)) || (exists x <- b :: f(x))
  {
    assert forall x :: x in a + b <==> x in a || x in b;
  }

  /** Each verdict on two statements is the disjunction of the verdicts on the two. */
  lemma VerdictsCompose(engine: Option<Engine>, a: string, b: string, k: Keywords)
    requires EndsInCode(a, ForEngine(engine))
    ensures IsWriteFor(engine, a + ";" + b, k) <==> IsWriteFor(engine, a, k) || IsWriteFor(engine, b, k)
    ensures IsDangerousDdlFor(engine, a + ";" + b, k) <==>
            IsDangerousDdlFor(engine, a, k) || IsDangerousDdlFor(engine, b, k)
    ensures IsUnfilteredWriteFor(engine, a + ";" + b) <==>
            IsUnfilteredWriteFor(engine, a) || IsUnfilteredWriteFor(engine, b)
  {
    hide StatementIsWrite, StatementIsDangerous, UnfilteredUpdel, PartIsWrite, Blank, Split, SplitPairs, EndsInCode;
    var d := ForEngine(engine);
    var ba, bb := Blank(a, d), Blank(b, d);
    Compositional(a, b, d);
    SplitAppend(ba, bb);
    SplitPairsAppend(a, ba, b, bb);
    AnyAppend(Split(ba), Split(bb), s => StatementIsWrite(s, k));
    AnyAppend(Split(ba), Split(bb), s => StatementIsDangerous(s, k));
    AnyAppend(Split(ba), Split(bb), UnfilteredUpdel);
    AnyAppend(SplitPairs(a, ba), SplitPairs(b, bb), part => PartIsWrite(d, part, k));
  }

  // ---- Literals ----

  /** The inside of a single-quoted literal: quotes doubled, backslashes followed by what they escape. */
  predicate ProperBody(body: string, backslash: bool)
    decreases |body|
  {
    if body == [] then true
    else if backslash && body[0] == '\\' then |body| >= 2 && ProperBody(body[2..], backslash)
    else if body[0] == '\'' then Starts2(body, '\'', '\'') && ProperBody(body[2..], backslash)
    else ProperBody(body[1..], backslash)
  }

  function Literal(body: string): string { "'" + body + "'" }

  lemma {:induction false} BodyEnds(body: string, q: string, backslash: bool)
    requires ProperBody(body, backslash) && !(q != [] && q[0] == '\'')
    ensures QuoteLength(body + "'" + q, '\'', backslash) == |body| + 1
    decreases |body|
  {
    var s := body + "'" + q;
    if body == [] {
      assert s[0] == '\'' && (|s| >= 2 ==> s[1] == q[0]);
    } else if (backslash && body[0] == '\\') || body[0] == '\'' {
      assert s[0] == body[0] && s[1] == body[1] && s[2..] == body[2..] + "'" + q;
      BodyEnds(body[2..], q, backslash);
    } else {
      assert s[0] == body[0] && s[1..] == body[1..] + "'" + q;
      BodyEnds(body[1..], q, backslash);
    }
  }

  /** A literal that stands in code between `p` and `q`. */
  predicate LiteralInCode(p: string, body: string, q: string, d: Dialect) {
    && Reaches(p + Literal(body) + q, |p|, d)
    && ProperBody(body, d.backslashEscape) && !(q != [] && q[0] == '\'')
  }

  lemma LiteralParts(p: string, body: string, q: string)
    ensures var s := p + Literal(body) + q;
            && |p| < |s| && s[..|p|] == p && s[|p|] == '\''
            && s[|p|..] == "'" + (body + "'" + q) && s[|p|..][1..] == body + "'" + q
            && s[|p| + |body| + 2..] == q && s[|p|..][|body| + 2..] == q
  {
  }

  lemma LiteralToken(body: string, q: string, d: Dialect)
    requires ProperBody(body, d.backslashEscape) && !(q != [] && q[0] == '\'')
    ensures var s := "'" + (body + "'" + q); Opens(s, d) && TokenLength(s, d) == |body| + 2
  {
    hide QuoteLength, ProperBody;
    var s := "'" + (body + "'" + q);
    assert s[0] == '\'' && s[1..] == body + "'" + q;
    BodyEnds(body, q, d.backslashEscape);
  }

  lemma LiteralBlank(body: string, q: string, d: Dialect)
    requires ProperBody(body, d.backslashEscape) && !(q != [] && q[0] == '\'')
    ensures Blank("'" + (body + "'" + q), d) == Spaces(|body| + 2) + Blank(q, d)
  {
    hide Blank, TokenLength, Opens, ProperBody;
    var s := "'" + (body + "'" + q);
    LiteralToken(body, q, d);
    BlankUnroll(s, d);
    assert s[|body| + 2..] == q;
  }

  /** A literal becomes spaces, and what stands before and behind it is blanked as if alone. */
  lemma BlankAroundLiteral(p: string, body: string, q: string, d: Dialect)
    requires LiteralInCode(p, body, q, d)
    ensures Blank(p + Literal(body) + q, d) == Blank(p, d) + Spaces(|body| + 2) + Blank(q, d)
  {
    hide Blank, Reaches, QuoteLength;
    var s := p + Literal(body) + q;
    LiteralParts(p, body, q);
    ReachSplits(s, |p|, d);
    LiteralBlank(body, q, d);
    ReachStable(s, p, |p|, d);
    assert Blank(p, d)[..|p|] == Blank(p, d);
    Assoc(Blank(p, d), Spaces(|body| + 2), Blank(q, d));
  }

  lemma LiteralAgrees(p: string, body: string, other: string, q: string)
    ensures Agree(p + Literal(body) + q, p + Literal(other) + q, |p|)
  {
    LiteralParts(p, body, q);
    LiteralParts(p, other, q);
  }

  lemma OtherLiteral(p: string, body: string, other: string, q: string, d: Dialect)
    requires LiteralInCode(p, body, q, d) && ProperBody(other, d.backslashEscape)
    ensures LiteralInCode(p, other, q, d)
    ensures Blank(p + Literal(other) + q, d)[..|p|] == Blank(p + Literal(body) + q, d)[..|p|]
  {
    LiteralAgrees(p, body, other, q);
    ReachStable(p + Literal(body) + q, p + Literal(other) + q, |p|, d);
  }

  // ---- Runs of spaces of different lengths ----

  lemma {:induction false} SkipsRun(m: nat, y: string)
    ensures SkipSpaces(Spaces(m) + y) == SkipSpaces(y)
  {
    if m == 0 {
      assert Spaces(0) + y == y;
    } else {
      assert (Spaces(m) + y)[1..] == Spaces(m - 1) + y;
      SkipsRun(m - 1, y);
    }
  }

  lemma {:induction false} SimRefl(s: string)
    ensures Sim(s, s)
    decreases |s|
  {
    if s != [] {
      if s[0] == ' ' { SimRefl(SkipSpaces(s)); } else { SimRefl(s[1..]); }
    }
  }

  lemma SimRun(m: nat, n: nat, y: string)
    requires m > 0 && n > 0
    ensures Sim(Spaces(m) + y, Spaces(n) + y)
  {
    SkipsRun(m, y);
    SkipsRun(n, y);
    SimRefl(SkipSpaces(y));
  }

  lemma {:induction false} SkipsInto(x: string, z: string)
    ensures SkipSpaces(x + z) == if SkipSpaces(x) == [] then SkipSpaces(z) else SkipSpaces(x) + z
  {
    if x == [] {
      assert x + z == z;
    } else if x[0] == ' ' {
      assert (x + z)[1..] == x[1..] + z;
      SkipsInto(x[1..], z);
    }
  }

  lemma {:induction false} SimAround(x: string, m: nat, n: nat, y: string)
    requires m > 0 && n > 0
    ensures Sim(x + (Spaces(m) + y), x + (Spaces(n) + y))
    decreases |x|
  {
    var a, b := Spaces(m) + y, Spaces(n) + y;
    if x == [] {
      assert x + a == a && x + b == b;
      SimRun(m, n, y);
    } else if x[0] == ' ' {
      SkipsInto(x, a);
      SkipsInto(x, b);
      SkipsRun(m, y);
      SkipsRun(n, y);
      if SkipSpaces(x) == [] { SimRefl(SkipSpaces(y)); } else { SimAround(SkipSpaces(x), m, n, y); }
    } else {
      assert (x + a)[1..] == x[1..] + a && (x + b)[1..] == x[1..] + b;
      SimAround(x[1..], m, n, y);
    }
  }

  lemma BlankedLiteralsSim(p: string, body: string, other: string, q: string, d: Dialect)
    requires LiteralInCode(p, body, q, d) && ProperBody(other, d.backslashEscape)
    ensures Sim(Blank(p + Literal(body) + q, d), Blank(p + Literal(other) + q, d))
  {
    hide Blank, Sim, LiteralInCode;
    OtherLiteral(p, body, other, q, d);
    BlankAroundLiteral(p, body, q, d);
    BlankAroundLiteral(p, other, q, d);
    var x := Blank(p, d);
    Assoc(x, Spaces(|body| + 2), Blank(q, d));
    Assoc(x, Spaces(|other| + 2), Blank(q, d));
    SimAround(x, |body| + 2, |other| + 2, Blank(q, d));
  }

  // ---- Literal non-interference ----

  lemma SimAny(a: seq<string>, b: seq<string>, f: string -> bool)
    requires SimParts(a, b) && forall s, t | Sim(s, t) :: f(s) == f(t)
    ensures (exists s <- a :: f(s)) <==> (exists s <- b :: f(s))
  {
    if s :| s in a && f(s) {
      var i :| 0 <= i < |a| && a[i] == s;
      assert f(b[i]) && b[i] in b;
    }
    if s :| s in b && f(s) {
      var i :| 0 <= i < |b| && b[i] == s;
      assert f(a[i]) && a[i] in a;
    }
  }

  lemma SimScripts(x: string, y: string, k: Keywords)
    requires Sim(x, y)
    ensures (exists s <- Split(x) :: StatementIsWrite(s, k)) <==> (exists s <- Split(y) :: StatementIsWrite(s, k))
    ensures (exists s <- Split(x) :: StatementIsDangerous(s, k)) <==>
            (exists s <- Split(y) :: StatementIsDangerous(s, k))
    ensures (exists s <- Split(x) :: UnfilteredUpdel(s)) <==> (exists s <- Split(y) :: UnfilteredUpdel(s))
  {
    hide StatementIsWrite, StatementIsDangerous, UnfilteredUpdel, Split, Sim;
    SimSplit(x, y);
    forall s, t | Sim(s, t)
      ensures StatementIsWrite(s, k) == StatementIsWrite(t, k)
      ensures StatementIsDangerous(s, k) == StatementIsDangerous(t, k)
      ensures UnfilteredUpdel(s) == UnfilteredUpdel(t)
    {
      SimStatementWrite(s, t, k);
      SimStatementDangerous(s, t, k);
      SimUnfiltered(s, t);
    }
    SimAny(Split(x), Split(y), s => StatementIsWrite(s, k));
    SimAny(Split(x), Split(y), s => StatementIsDangerous(s, k));
    SimAny(Split(x), Split(y), UnfilteredUpdel);
  }

  /** What a literal says changes no verdict: in every dialect for the two production limits, and for the
      write verdict wherever only the blanked text is judged. */
  lemma LiteralsDoNotMatter(engine: Option<Engine>, p: string, body: string, other: string, q: string, k: Keywords)
    requires LiteralInCode(p, body, q, ForEngine(engine)) && ProperBody(other, ForEngine(engine).backslashEscape)
    ensures var s, t := p + Literal(body) + q, p + Literal(other) + q;
            && (IsDangerousDdlFor(engine, s, k) <==> IsDangerousDdlFor(engine, t, k))
            && (IsUnfilteredWriteFor(engine, s) <==> IsUnfilteredWriteFor(engine, t))
            && (engine != Some(Postgres) ==> (IsWriteFor(engine, s, k) <==> IsWriteFor(engine, t, k)))
  {
    hide Sim, Blank, LiteralInCode, Split, SplitPairs, StatementIsWrite, StatementIsDangerous, UnfilteredUpdel, Literal;
    var d := ForEngine(engine);
    BlankedLiteralsSim(p, body, other, q, d);
    SimScripts(Blank(p + Literal(body) + q, d), Blank(p + Literal(other) + q, d), k);
  }
}
