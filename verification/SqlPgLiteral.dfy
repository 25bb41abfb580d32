/** Literal non-interference on PostgreSQL, where SET statements are also judged on their raw text. */
module SqlPgLiteral {
  import opened Common
  import opened Text
  import opened SqlBlank
  import opened SqlBlankFacts
  import opened SqlSplit
  import opened SqlGuard
  import opened SqlSim
  import opened SqlVerdicts

  const PG := ForEngine(Some(Postgres))

  // ---- The token scanner stands at a position ----

  /** A turn of `pg_set_tokens` begins at `k`. */
  predicate PgReaches(s: string, k: nat)
    decreases |s|
  {
    k == 0 || (s != [] && PgLength(s) <= k && PgReaches(s[PgLength(s)..], k - PgLength(s)))
  }

  /** The tokens before `k`. */
  function PgBefore(s: string, k: nat): seq<PgToken>
    requires PgReaches(s, k)
    decreases |s|
  {
    if k == 0 then [] else PgYield(s) + PgBefore(s[PgLength(s)..], k - PgLength(s))
  }

  lemma {:induction false} PgSplits(s: string, k: nat)
    requires PgReaches(s, k)
    ensures k <= |s| && PgTokens(s) == PgBefore(s, k) + PgTokens(s[k..])
    decreases |s|
  {
    hide PgYield, PgLength;
    if k > 0 {
      var n := PgLength(s);
      PgSplits(s[n..], k - n);
      assert s[n..][k - n..] == s[k..];
      Assoc(PgYield(s), PgBefore(s[n..], k - n), PgTokens(s[k..]));
    } else {
      assert s[0..] == s;
    }
  }

  lemma {:induction false} NameStable(s: string, t: string, k: nat)
    requires Agree(s, t, k) && QuoteLength(s, '"', false) <= k
    ensures QuotedName(t) == QuotedName(s)
    decreases k
  {
    AgreeAt(s, t, k, 0);
    Pairs(s, t, k);
    if s[0] == '"' {
      if Starts2(s, '"', '"') {
        AgreeDrop(s, t, k, 2);
        NameStable(s[2..], t[2..], k - 2);
      }
    } else {
      AgreeDrop(s, t, k, 1);
      NameStable(s[1..], t[1..], k - 1);
    }
  }

  lemma EscapeStable(s: string, t: string, k: nat)
    requires Agree(s, t, k) && 0 < k < |t|
    ensures EscapeLiteral(t) == EscapeLiteral(s)
  {
    AgreeAt(s, t, k, 0);
    if k > 1 { AgreeAt(s, t, k, 1); }
  }

  lemma PgLengthStable(s: string, t: string, k: nat)
    requires Agree(s, t, k) && 0 < k < |t| && PgLength(s) <= k
    ensures PgLength(t) == PgLength(s)
  {
    hide TagLength, WordRun, ThroughNeedle, QuoteLength, BlockLength, LineLength, IsWhitespace;
    AgreeAt(s, t, k, 0);
    Pairs(s, t, k);
    EscapeStable(s, t, k);
    TagStable(s, t, k);
    WordStable(s, t, k);
    AgreeDrop(s, t, k, 1);
    var c := s[0];
    if IsWhitespace(c) {
    } else if Starts2(s, '-', '-') {
      LineStable(s[1..], t[1..], k - 1);
    } else if Starts2(s, '/', '*') {
      AgreeDrop(s, t, k, 2);
      BlockStable(s[2..], t[2..], k - 2, 1, true);
    } else if c == '\'' {
      QuoteStable(s[1..], t[1..], k - 1, '\'', false);
    } else if EscapeLiteral(s) {
      AgreeDrop(s, t, k, 2);
      QuoteStable(s[2..], t[2..], k - 2, '\'', true);
    } else if c == '$' {
      if TagLength(s) > 0 { DollarStable(s, t, k); }
    } else if c == '"' {
      QuoteStable(s[1..], t[1..], k - 1, '"', false);
    }
  }

  lemma PgYieldStable(s: string, t: string, k: nat)
    requires Agree(s, t, k) && 0 < k < |t| && PgLength(s) <= k
    ensures PgYield(t) == PgYield(s)
  {
    hide TagLength, WordRun, ThroughNeedle, QuoteLength, BlockLength, LineLength;
    AgreeAt(s, t, k, 0);
    Pairs(s, t, k);
    EscapeStable(s, t, k);
    TagStable(s, t, k);
    WordStable(s, t, k);
    var n := WordRun(s);
    assert s[..n] == s[..k][..n] == t[..k][..n] == t[..n];
    if s[0] == '"' {
      AgreeDrop(s, t, k, 1);
      NameStable(s[1..], t[1..], k - 1);
    }
  }

  lemma {:induction false} PgReachStable(s: string, t: string, k: nat)
    requires Agree(s, t, k) && k < |t| && PgReaches(s, k)
    ensures PgReaches(t, k) && PgBefore(t, k) == PgBefore(s, k)
    decreases |s|
  {
    hide PgYield, PgLength, Agree;
    if k > 0 {
      var n := PgLength(s);
      PgLengthStable(s, t, k);
      PgYieldStable(s, t, k);
      AgreeDrop(s, t, k, n);
      PgReachStable(s[n..], t[n..], k - n);
    }
  }

  // ---- One statement ----

  lemma PgLiteralToken(body: string, q: string)
    requires ProperBody(body, false) && !(q != [] && q[0] == '\'')
    ensures PgTokens("'" + (body + "'" + q)) == [Other] + PgTokens(q)
  {
    var s := "'" + (body + "'" + q);
    assert s[0] == '\'' && s[1..] == body + "'" + q;
    BodyEnds(body, q, false);
    assert PgLength(s) == |body| + 2 && PgYield(s) == [Other];
    assert s[|body| + 2..] == q;
  }

  lemma PgAroundLiteral(p: string, body: string, q: string)
    requires ProperBody(body, false) && !(q != [] && q[0] == '\'') && PgReaches(p + Literal(body) + q, |p|)
    ensures var s := p + Literal(body) + q; PgTokens(s) == PgBefore(s, |p|) + ([Other] + PgTokens(q))
  {
    var s := p + Literal(body) + q;
    LiteralParts(p, body, q);
    PgSplits(s, |p|);
    PgLiteralToken(body, q);
  }

  /** On one statement only the raw tokens can tell two bodies apart, and only if it leads with SET. */
  lemma StatementSame(p: string, body: string, other: string, q: string, k: Keywords)
    requires LiteralInCode(p, body, q, PG) && ProperBody(other, false)
    requires var s, t := p + Literal(body) + q, p + Literal(other) + q;
             FirstWord(Blank(s, PG)) == "set" ==> FlipsReadonly(PgTokens(s)) == FlipsReadonly(PgTokens(t))
    ensures var s, t := p + Literal(body) + q, p + Literal(other) + q;
            PartIsWrite(PG, (s, Blank(s, PG)), k) == PartIsWrite(PG, (t, Blank(t, PG)), k)
  {
    hide StatementIsWrite, FirstWord, FlipsReadonly, PgTokens, Blank, Sim, LiteralInCode;
    var s, t := p + Literal(body) + q, p + Literal(other) + q;
    BlankedLiteralsSim(p, body, other, q, PG);
    SimStatementWrite(Blank(s, PG), Blank(t, PG), k);
    SimFirstWord(Blank(s, PG), Blank(t, PG));
  }

  /** Where the token scanner stands at the literal, its tokens are the same whatever the literal says. */
  lemma TokensSame(p: string, body: string, other: string, q: string)
    requires LiteralInCode(p, body, q, PG) && ProperBody(other, false)
    requires PgReaches(p + Literal(body) + q, |p|)
    ensures PgTokens(p + Literal(body) + q) == PgTokens(p + Literal(other) + q)
  {
    hide PgTokens, PgReaches, Blank, Reaches;
    var s, t := p + Literal(body) + q, p + Literal(other) + q;
    LiteralAgrees(p, body, other, q);
    LiteralParts(p, other, q);
    PgReachStable(s, t, |p|);
    PgAroundLiteral(p, body, q);
    PgAroundLiteral(p, other, q);
  }

  // ---- Whole scripts ----

  /** The script with the one body is a write exactly when the script with the other is. */
  predicate SameVerdict(p: string, body: string, other: string, q: string, k: Keywords) {
    IsWriteFor(Some(Postgres), p + Literal(body) + q, k) <==> IsWriteFor(Some(Postgres), p + Literal(other) + q, k)
  }

  /** What `p` has of the statement that a literal behind it stands in. */
  function OwnStatement(p: string): string
    decreases |p|
  {
    var n := FirstSeparator(Blank(p, PG));
    if n < |p| then OwnStatement(p[n + 1..]) else p
  }

  lemma {:induction false} ReachDrop(s: string, j: nat, k: nat, d: Dialect)
    requires Reaches(s, j, d) && Reaches(s, k, d) && j <= k
    ensures j <= |s| && Reaches(s[j..], k - j, d)
    decreases |s|
  {
    if j == 0 {
      assert s[0..] == s;
    } else {
      var n := TokenLength(s, d);
      ReachDrop(s[n..], j - n, k - n, d);
      assert s[n..][j - n..] == s[j..];
    }
  }

  lemma SliceBefore(p: string, l: string, q: string, n: nat)
    requires n < |p|
    ensures var s := p + l + q; s[n] == p[n] && s[..n] == p[..n] && s[n + 1..] == p[n + 1..] + l + q
  {
  }

  lemma SeparatorInFront(x: string, y: string)
    requires FirstSeparator(x) < |x|
    ensures FirstSeparator(x + y) == FirstSeparator(x)
  {
    var n := FirstSeparator(x);
    assert (x + y)[n] == ';' && forall i | 0 <= i < n :: (x + y)[i] == x[i];
    assert (x + y)[0..] == x + y;
    NoSeparatorBefore(x + y, 0, n);
  }

  lemma SeparatorInScript(p: string, body: string, q: string)
    requires LiteralInCode(p, body, q, PG) && FirstSeparator(Blank(p, PG)) < |p|
    ensures FirstSeparator(Blank(p + Literal(body) + q, PG)) == FirstSeparator(Blank(p, PG))
  {
    hide Blank, LiteralInCode, FirstSeparator, Literal;
    BlankAroundLiteral(p, body, q, PG);
    Assoc(Blank(p, PG), Spaces(|body| + 2), Blank(q, PG));
    SeparatorInFront(Blank(p, PG), Spaces(|body| + 2) + Blank(q, PG));
  }

  /** The literal in what follows the first statement of `p`. */
  lemma LiteralLater(p: string, body: string, q: string, n: nat)
    requires LiteralInCode(p, body, q, PG) && n == FirstSeparator(Blank(p, PG)) < |p|
    ensures LiteralInCode(p[n + 1..], body, q, PG) && EndsInCode(p[..n], PG)
    ensures p + Literal(body) + q == p[..n] + ";" + (p[n + 1..] + Literal(body) + q)
  {
    hide Blank, Reaches, EndsInCode, FirstSeparator;
    var s := p + Literal(body) + q;
    SeparatorInScript(p, body, q);
    LiteralParts(p, body, q);
    FirstPartAlone(s, PG);
    SliceBefore(p, Literal(body), q, n);
    SeparatorIsLive(s, n);
    ReachBehind(s, n, |p|);
  }

  lemma SeparatorIsLive(s: string, n: nat)
    requires n == FirstSeparator(Blank(s, PG)) && n < |s|
    ensures s[n] == ';' && Reaches(s, n, PG)
  {
    hide Blank, Reaches;
    FirstPartAlone(s, PG);
    SurvivorIsLive(s, PG, n);
    BlankedSeparators(s, PG);
  }

  lemma ReachBehind(s: string, n: nat, k: nat)
    requires Reaches(s, n, PG) && Reaches(s, k, PG) && n < k && n < |s| && s[n] == ';'
    ensures Reaches(s[n + 1..], k - n - 1, PG)
  {
    ReachDrop(s, n, k, PG);
    SeparatorToken(s[n..]);
    assert s[n..][1..] == s[n + 1..];
  }

  lemma SeparatorToken(s: string)
    requires s != [] && s[0] == ';'
    ensures TokenLength(s, PG) == 1
  {
  }

  lemma WholeIsOnePart(s: string, k: Keywords)
    requires FirstSeparator(Blank(s, PG)) == |s|
    ensures IsWriteFor(Some(Postgres), s, k) == PartIsWrite(PG, (s, Blank(s, PG)), k)
  {
    hide PartIsWrite, Blank, SplitPairs, Split, StatementIsWrite, FirstSeparator;
    LastPart(s, Blank(s, PG));
    var part := (s, Blank(s, PG));
    assert forall x :: x in [part] <==> x == part;
  }

  /** The first separator behind a literal is the first of the text behind it. */
  lemma SeparatorBehind(p: string, body: string, q: string)
    requires LiteralInCode(p, body, q, PG) && FirstSeparator(Blank(p, PG)) == |p|
    ensures FirstSeparator(Blank(p + Literal(body) + q, PG)) == |p| + |body| + 2 + FirstSeparator(Blank(q, PG))
  {
    hide Blank, LiteralInCode;
    BlankAroundLiteral(p, body, q, PG);
    var x, y, z := Blank(p, PG), Spaces(|body| + 2), Blank(q, PG);
    var b, m := x + y + z, |p| + |body| + 2 + FirstSeparator(z);
    forall i | 0 <= i < m ensures b[i] != ';' {
      if i < |p| { assert b[i] == x[i]; }
    }
    NoSeparatorBefore(b, 0, m);
    assert b[0..] == b;
  }

  /** Cutting a script at the first separator, which stands in the text behind the literal. */
  lemma CutBehind(p: string, body: string, q: string, m: nat)
    requires LiteralInCode(p, body, q, PG) && FirstSeparator(Blank(p, PG)) == |p|
    requires m == FirstSeparator(Blank(q, PG)) < |q|
    ensures var s1 := p + Literal(body) + q[..m];
            && p + Literal(body) + q == s1 + ";" + q[m + 1..]
            && EndsInCode(s1, PG) && FirstSeparator(Blank(s1, PG)) == |s1|
            && LiteralInCode(p, body, q[..m], PG)
  {
    hide Blank, Reaches;
    var s := p + Literal(body) + q;
    var n := |p| + |body| + 2 + m;
    SeparatorBehind(p, body, q);
    FirstPartAlone(s, PG);
    var s1 := p + Literal(body) + q[..m];
    assert s[..n] == s1 && s[n + 1..] == q[m + 1..];
    assert forall i | 0 <= i < n :: Blank(s1, PG)[i] == Blank(s, PG)[i];
    NoSeparatorBefore(Blank(s1, PG), 0, n);
    assert Blank(s1, PG)[0..] == Blank(s1, PG);
    LiteralParts(p, body, q);
    LiteralParts(p, body, q[..m]);
    assert Agree(s, s1, |p|);
    ReachStable(s, s1, |p|, PG);
  }

  /** With no statement before the literal: if its statement is judged alike, the script is. */
  lemma FirstStatementDecides(p: string, body: string, other: string, q: string, k: Keywords)
    requires LiteralInCode(p, body, q, PG) && ProperBody(other, false) && FirstSeparator(Blank(p, PG)) == |p|
    requires var q1 := q[..FirstSeparator(Blank(q, PG))]; var s, t := p + Literal(body) + q1, p + Literal(other) + q1;
             PartIsWrite(PG, (s, Blank(s, PG)), k) == PartIsWrite(PG, (t, Blank(t, PG)), k)
    ensures SameVerdict(p, body, other, q, k)
  {
    hide Blank, Reaches, IsWriteFor, PartIsWrite;
    OtherLiteral(p, body, other, q, PG);
    SeparatorBehind(p, body, q);
    SeparatorBehind(p, other, q);
    var m := FirstSeparator(Blank(q, PG));
    var q1 := q[..m];
    if m == |q| {
      assert q1 == q;
    } else {
      CutBehind(p, body, q, m);
      CutBehind(p, other, q, m);
      VerdictsCompose(Some(Postgres), p + Literal(body) + q1, q[m + 1..], k);
      VerdictsCompose(Some(Postgres), p + Literal(other) + q1, q[m + 1..], k);
    }
    WholeIsOnePart(p + Literal(body) + q1, k);
    WholeIsOnePart(p + Literal(other) + q1, k);
  }

  /** The statements before the literal's own have their verdicts, whatever the literal says. */
  lemma EarlierStatement(p: string, body: string, other: string, q: string, k: Keywords)
    requires LiteralInCode(p, body, q, PG) && ProperBody(other, false) && FirstSeparator(Blank(p, PG)) < |p|
    ensures var n := FirstSeparator(Blank(p, PG));
            && LiteralInCode(p[n + 1..], body, q, PG)
            && (SameVerdict(p, body, other, q, k)
                <==> IsWriteFor(Some(Postgres), p[..n], k) || SameVerdict(p[n + 1..], body, other, q, k))
  {
    var n := FirstSeparator(Blank(p, PG));
    hide Blank, Reaches, IsWriteFor;
    OtherLiteral(p, body, other, q, PG);
    LiteralLater(p, body, q, n);
    LiteralLater(p, other, q, n);
    VerdictsCompose(Some(Postgres), p[..n], p[n + 1..] + Literal(body) + q, k);
    VerdictsCompose(Some(Postgres), p[..n], p[n + 1..] + Literal(other) + q, k);
  }

  /** So a script is judged alike if the literal's own statement is, with what follows it. */
  lemma {:induction false} OwnStatementDecides(p: string, body: string, other: string, q: string, k: Keywords)
    requires LiteralInCode(p, body, q, PG) && ProperBody(other, false)
    requires SameVerdict(OwnStatement(p), body, other, q, k)
    ensures SameVerdict(p, body, other, q, k)
    decreases |p|
  {
    hide Blank, LiteralInCode, SameVerdict;
    var n := FirstSeparator(Blank(p, PG));
    if n < |p| {
      EarlierStatement(p, body, other, q, k);
      OwnStatementDecides(p[n + 1..], body, other, q, k);
    }
  }

  lemma {:induction false} OwnInCode(p: string, body: string, q: string)
    requires LiteralInCode(p, body, q, PG)
    ensures LiteralInCode(OwnStatement(p), body, q, PG)
    ensures FirstSeparator(Blank(OwnStatement(p), PG)) == |OwnStatement(p)|
    decreases |p|
  {
    hide Blank, LiteralInCode;
    var n := FirstSeparator(Blank(p, PG));
    if n < |p| {
      LiteralLater(p, body, q, n);
      OwnInCode(p[n + 1..], body, q);
    }
  }
}
