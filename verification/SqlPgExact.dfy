/** Exactly when a literal of a PostgreSQL script can change the write verdict. */
module SqlPgExact {
  import opened Common
  import opened Text
  import opened SqlBlank
  import opened SqlBlankFacts
  import opened SqlSplit
  import opened SqlGuard
  import opened SqlGuardMeaning
  import opened SqlExplain
  import opened SqlSim
  import opened SqlVerdicts
  import opened SqlPgLiteral
  import opened SqlPgUndecided
  import opened SqlPgStraddle
  import opened SqlPgBodies
  import opened SqlPgScanners

  // ---- The condition ----

  /** What the scanner makes of `p` and of the token that reads over the quote. */
  function Known(p: string): seq<PgToken> {
    var s := StopAt(p);
    if s.rest == [] then s.tokens else s.tokens + PgYield(s.rest + "'")
  }

  /** No literal behind `p` matters to its statement: it leads with a word other than SET, or it is a write as
      it stands, or the token scanner stands at the quote, or the tokens so far decide. */
  predicate StatementSettled(p: string, k: Keywords) {
    var b := Blank(p, PG);
    || (TrimStart(b) != [] && FirstWord(b) != "set") || "set" in k.write || StatementIsWrite(b, k)
    || StopAt(p).rest == [] || !Undecided(Known(p))
  }

  /** An earlier statement is a write, or the literal's own is settled. */
  predicate Settled(p: string, k: Keywords)
    decreases |p|
  {
    var n := FirstSeparator(Blank(p, PG));
    if n < |p| then IsWriteFor(Some(Postgres), p[..n], k) || Settled(p[n + 1..], k) else StatementSettled(p, k)
  }

  /** A literal can open behind `p`. */
  predicate LiteralMayOpen(p: string) { Reaches(p + "'", |p|, PG) }

  /** Whatever a literal behind `p` says, and whatever follows it, the write verdict is the same. */
  ghost predicate Immaterial(p: string, k: Keywords) {
    forall body, other, q | ProperBody(body, false) && ProperBody(other, false) && (q != [] ==> q[0] != '\'') ::
      SameVerdict(p, body, other, q, k)
  }

  lemma Opens(p: string, body: string, q: string)
    requires LiteralMayOpen(p) && ProperBody(body, false) && (q != [] ==> q[0] != '\'')
    ensures LiteralInCode(p, body, q, PG)
  {
    hide Reaches, ProperBody;
    var s, t := p + "'", p + Literal(body) + q;
    LiteralParts(p, body, q);
    assert Agree(s, t, |p|);
    ReachStable(s, t, |p|, PG);
  }

  // ---- No quote stands right before the literal ----

  lemma {:induction false} LineNotHere(w: string)
    ensures LineLength(w + "'") != |w|
  {
    if w != [] { assert (w + "'")[1..] == w[1..] + "'"; LineNotHere(w[1..]); }
  }

  lemma {:induction false} DigitsLast(w: string)
    requires w != [] && DigitRun(w + "'") == |w|
    ensures IsDigit(w[|w| - 1])
  {
    assert (w + "'")[1..] == w[1..] + "'";
    if |w| > 1 { DigitsLast(w[1..]); }
  }

  lemma {:induction false} BlockLast(w: string, depth: nat)
    requires depth > 0 && BlockLength(w + "'", depth, true) == |w|
    ensures w != [] && w[|w| - 1] == '/'
    decreases |w|
  {
    if w != [] {
      QuoteBehind(w, []);
      if Starts2(w, '/', '*') {
        BlockLast(w[2..], depth + 1);
      } else if Starts2(w, '*', '/') {
        if depth > 1 { BlockLast(w[2..], depth - 1); }
      } else {
        BlockLast(w[1..], depth);
      }
    }
  }

  lemma {:induction false} QuoteLast(w: string, q: char)
    requires QuoteLength(w + "'", q, false) == |w|
    ensures w != [] && w[|w| - 1] == q != '\''
    decreases |w|
  {
    if w != [] {
      QuoteBehind(w, []);
      if w[0] == q {
        if |w| > 1 { QuoteLast(w[2..], q); }
      } else {
        QuoteLast(w[1..], q);
      }
    }
  }

  lemma {:induction false} NeedleLast(w: string, tag: string)
    requires tag != [] && ThroughNeedle(w + "'", tag) == |w|
    ensures w != [] && w[|w| - 1] == tag[|tag| - 1]
    decreases |w|
  {
    var u := w + "'";
    if |u| >= |tag| {
      if u[..|tag|] == tag {
        assert w[|w| - 1] == u[..|tag|][|w| - 1];
      } else if w != [] {
        assert u[1..] == w[1..] + "'";
        NeedleLast(w[1..], tag);
      }
    }
  }

  lemma CommentLast(p: string)
    requires Starts2(p, '-', '-') || Starts2(p, '/', '*')
    requires TokenLength(p + "'", PG) == |p|
    ensures !EndsInQuote(p)
  {
    hide LineLength, BlockLength, DigitRun;
    var s := p + "'";
    if Starts2(p, '-', '-') {
      assert s[1..] == p[1..] + "'";
      LineNotHere(p[1..]);
    } else if OpensVersioned(s) {
      assert s[3..] == p[3..] + "'" && s[2] == p[2];
      if |p| > 3 { DigitsLast(p[3..]); }
    } else {
      assert s[2..] == p[2..] + "'";
      BlockLast(p[2..], 1);
    }
  }

  lemma DollarLast(p: string)
    requires p != [] && p[0] == '$' && TokenLength(p + "'", PG) == |p|
    ensures !EndsInQuote(p)
  {
    var s, n := p + "'", TagLength(p);
    assert p + ("'" + []) == s;
    TagOver(p, []);
    hide ThroughNeedle, WordRun;
    if n > 0 {
      assert s[n..] == p[n..] + "'" && s[..n] == p[..n];
      NeedleLast(p[n..], p[..n]);
    }
  }

  lemma TokenLast(p: string)
    requires p != [] && TokenLength(p + "'", PG) == |p|
    ensures !EndsInQuote(p)
  {
    hide LineLength, BlockLength, DigitRun, TagLength, QuoteLength, ThroughNeedle;
    var s := p + "'";
    assert s[1..] == p[1..] + "'" && s[0] == p[0] && (|p| > 1 ==> s[1] == p[1]);
    if Starts2(p, '-', '-') || Starts2(p, '/', '*') {
      CommentLast(p);
    } else if p[0] == '$' {
      DollarLast(p);
    } else if IsQuote(p[0]) {
      QuoteLast(p[1..], p[0]);
    }
  }

  lemma {:induction false} NoQuoteBefore(p: string)
    requires LiteralMayOpen(p)
    ensures !EndsInQuote(p)
    decreases |p|
  {
    hide TokenLength;
    if p != [] {
      var s := p + "'";
      var n := TokenLength(s, PG);
      if n == |p| {
        TokenLast(p);
      } else {
        assert s[n..] == p[n..] + "'";
        NoQuoteBefore(p[n..]);
      }
    }
  }

  /** What is left of `p` in the token that reads over the quote. */
  lemma RestReadsOver(p: string)
    requires LiteralMayOpen(p) && StopAt(p).rest != []
    ensures ReadsOver(StopAt(p).rest)
  {
    hide StopAt, PgLength, Reaches;
    RestReadsOn(p);
    NoQuoteBefore(p);
  }

  // ---- Settled: no body matters ----

  lemma ShapeOf(p: string, body: string, q: string)
    ensures p + Literal(body) + q == p + ("'" + (body + ("'" + q))) == p + ("'" + (body + "'" + q))
  {
  }

  /** The scanner stands at the quote. */
  lemma AlignedTokens(p: string, body: string, q: string)
    requires LiteralInCode(p, body, q, PG) && StopAt(p).rest == []
    ensures PgTokens(p + Literal(body) + q) == StopAt(p).tokens + ([Other] + PgTokens(q))
  {
    hide PgTokens, StopAt, Reaches, ProperBody;
    ShapeOf(p, body, q);
    var x := body + "'" + q;
    StopSplits(p, x);
    PgLiteralToken(body, q);
    assert [] + ("'" + x) == "'" + x;
  }

  /** The tokens so far decide. */
  lemma DecidedTokens(p: string, body: string, q: string)
    requires LiteralMayOpen(p) && StopAt(p).rest != [] && !Undecided(Known(p))
    ensures FlipsReadonly(PgTokens(p + Literal(body) + q)) == FlipsReadonly(Known(p))
  {
    hide PgTokens, StopAt, LiteralMayOpen, ReadsOver, PgYield, Undecided, FlipsReadonly, More, KindOf, Alike;
    ShapeOf(p, body, q);
    var x := body + "'" + q;
    var r, t := StopAt(p).rest, StopAt(p).tokens;
    RestReadsOver(p);
    StopSplits(p, x);
    assert r + ("'" + x) != [];
    TokenOver(r, x);
    YieldOver(r, x);
    var y, z := PgYield(r + ("'" + x)), PgYield(r + "'");
    var more := PgTokens(x[More(KindOf(r), x)..]);
    AlikeInside(t, y, z, more);
    FlipsAlike(t + (y + more), t + (z + more));
    Assoc(t, z, more);
    Decided(t + z, more);
  }

  /** A SET is a write by its keyword or by its scope. */
  lemma SetIsWrite(s: string, k: Keywords)
    requires FirstWord(s) == "set"
    ensures 3 <= |TrimStart(s)|
    ensures StatementIsWrite(s, k) <==> "set" in k.write || WordAfter(s, 3) in ["global", "persist", "persist_only"]
  {
    assert |FirstWord(s)| == 3;
    hide FirstWord, WordAfter, TrimStart;
  }

  lemma WordAppend(u: string, y: string)
    requires y != [] && y[0] == ' '
    ensures WordRun(u + y) == WordRun(u) && LowerAll((u + y)[..WordRun(u)]) == LowerAll(u[..WordRun(u)])
  {
    hide WordRun, LowerAll;
    WordRunUpTo(u, y);
    assert (u + y)[..WordRun(u)] == u[..WordRun(u)];
  }

  /** Behind the word SET and white space, more white space changes nothing, and other text only adds a word
      where none was. */
  lemma SetAppend(b: string, y: string)
    requires FirstWord(b) == "set" && y != [] && y[0] == ' '
    ensures FirstWord(b + y) == "set" && 3 <= |TrimStart(b)| && 3 <= |TrimStart(b + y)|
    ensures WordAfter(b, 3) != "" || AllBlank(y) ==> WordAfter(b + y, 3) == WordAfter(b, 3)
  {
    assert |FirstWord(b)| == 3;
    hide TrimStart, FirstWord, WordRun, LowerAll;
    var t := TrimStart(b);
    TrimAppend(b, y);
    FirstWordAppend(b, y);
    assert (t + y)[3..] == t[3..] + y;
    TrimAppend(t[3..], y);
    var u := TrimStart(t[3..]);
    if u == [] {
      NoWordRun();
      if AllBlank(y) {
        TrimBlanks(y, []);
        assert y + [] == y;
      }
    } else {
      WordAppend(u, y);
    }
  }

  lemma NoWordRun()
    ensures WordRun([]) == 0 && LowerAll([]) == ""
  {
  }

  lemma BlankedStatement(p: string, body: string, q: string)
    requires LiteralInCode(p, body, q, PG)
    ensures var y := Spaces(|body| + 2) + Blank(q, PG);
            Blank(p + Literal(body) + q, PG) == Blank(p, PG) + y && y != [] && y[0] == ' '
  {
    hide Blank, LiteralInCode;
    BlankAroundLiteral(p, body, q, PG);
    Assoc(Blank(p, PG), Spaces(|body| + 2), Blank(q, PG));
  }

  /** A statement that leads with another word, or that is a write as it stands, stays so. */
  lemma LeadStays(p: string, body: string, q: string, k: Keywords)
    requires LiteralInCode(p, body, q, PG) && TrimStart(Blank(p, PG)) != []
    ensures var b := Blank(p + Literal(body) + q, PG);
            && FirstWord(b) == FirstWord(Blank(p, PG))
            && (FirstWord(b) == "set" && StatementIsWrite(Blank(p, PG), k) ==> StatementIsWrite(b, k))
  {
    hide Blank, LiteralInCode, FirstWord, TrimStart, StatementIsWrite, WordAfter;
    BlankedStatement(p, body, q);
    var b, y := Blank(p, PG), Spaces(|body| + 2) + Blank(q, PG);
    FirstWordAppend(b, y);
    if FirstWord(b) == "set" {
      SetAppend(b, y);
      SetIsWrite(b, k);
      SetIsWrite(b + y, k);
    }
  }

  lemma NothingIsNoWrite(b: string, k: Keywords)
    requires TrimStart(b) == []
    ensures FirstWord(b) == "" && !StatementIsWrite(b, k)
  {
    assert FirstWord(b) == [];
    hide FirstWord;
  }

  /** The statement is a write whatever the literal says, or leads with another word. */
  lemma LeadSettles(p: string, body: string, q: string, k: Keywords)
    requires LiteralInCode(p, body, q, PG)
    requires var b := Blank(p, PG);
             (TrimStart(b) != [] && FirstWord(b) != "set") || "set" in k.write || StatementIsWrite(b, k)
    ensures var b := Blank(p + Literal(body) + q, PG); FirstWord(b) == "set" ==> StatementIsWrite(b, k)
  {
    hide Blank, LiteralInCode, FirstWord, TrimStart, StatementIsWrite, WordAfter;
    var b, c := Blank(p, PG), Blank(p + Literal(body) + q, PG);
    if FirstWord(c) == "set" { SetIsWrite(c, k); }
    if TrimStart(b) == [] { NothingIsNoWrite(b, k); } else { LeadStays(p, body, q, k); }
  }

  lemma SettledSame(p: string, body: string, other: string, q: string, k: Keywords)
    requires LiteralMayOpen(p) && LiteralInCode(p, body, q, PG) && ProperBody(other, false) && StatementSettled(p, k)
    ensures var s, t := p + Literal(body) + q, p + Literal(other) + q;
            PartIsWrite(PG, (s, Blank(s, PG)), k) == PartIsWrite(PG, (t, Blank(t, PG)), k)
  {
    hide LiteralMayOpen, LiteralInCode, ProperBody, FirstWord, TrimStart, StatementIsWrite, FlipsReadonly, Blank,
      PgTokens, StopAt, Undecided, Known;
    OtherLiteralInCode(p, body, other, q);
    if StopAt(p).rest == [] {
      AlignedTokens(p, body, q);
      AlignedTokens(p, other, q);
      StatementSame(p, body, other, q, k);
    } else if !Undecided(Known(p)) {
      DecidedTokens(p, body, q);
      DecidedTokens(p, other, q);
      StatementSame(p, body, other, q, k);
    } else {
      LeadSettles(p, body, q, k);
      LeadSettles(p, other, q, k);
      WritesAlike(p, body, other, q, k);
    }
  }

  lemma OtherLiteralInCode(p: string, body: string, other: string, q: string)
    requires LiteralInCode(p, body, q, PG) && ProperBody(other, false)
    ensures LiteralInCode(p, other, q, PG)
  {
    hide Blank, Reaches, ProperBody;
    OtherLiteral(p, body, other, q, PG);
  }

  lemma WritesAlike(p: string, body: string, other: string, q: string, k: Keywords)
    requires LiteralInCode(p, body, q, PG) && ProperBody(other, false)
    requires forall b <- [Blank(p + Literal(body) + q, PG), Blank(p + Literal(other) + q, PG)] ::
               FirstWord(b) == "set" ==> StatementIsWrite(b, k)
    ensures var s, t := p + Literal(body) + q, p + Literal(other) + q;
            PartIsWrite(PG, (s, Blank(s, PG)), k) == PartIsWrite(PG, (t, Blank(t, PG)), k)
  {
    hide LiteralInCode, ProperBody, FirstWord, StatementIsWrite, FlipsReadonly, Blank, PgTokens, Sim;
    var b, c := Blank(p + Literal(body) + q, PG), Blank(p + Literal(other) + q, PG);
    assert b in [b, c] && c in [b, c];
    BlankedLiteralsSim(p, body, other, q, PG);
    SimStatementWrite(b, c, k);
  }

  lemma SettledIsImmaterial(p: string, k: Keywords)
    requires LiteralMayOpen(p) && FirstSeparator(Blank(p, PG)) == |p| && StatementSettled(p, k)
    ensures Immaterial(p, k)
  {
    hide LiteralMayOpen, LiteralInCode, ProperBody, Blank, StatementSettled, SameVerdict, PartIsWrite;
    forall body, other, q | ProperBody(body, false) && ProperBody(other, false) && (q != [] ==> q[0] != '\'')
      ensures SameVerdict(p, body, other, q, k)
    {
      var q1 := q[..FirstSeparator(Blank(q, PG))];
      Opens(p, body, q);
      Opens(p, body, q1);
      SettledSame(p, body, other, q1, k);
      FirstStatementDecides(p, body, other, q, k);
    }
  }

  // ---- Not settled: two bodies are judged differently ----

  /** Words and dots. */
  predicate Plain(t: PgToken) { t == Dot || (t.Word? && LowerWord(t.text)) }

  lemma PlainWord(w: string)
    requires w in ["set", "transaction_read_only", "x", "read", "write"]
    ensures LowerWord(w)
  {
  }

  lemma TurningIsPlain(t: seq<PgToken>)
    ensures forall x <- Turning(t) :: Plain(x)
  {
    hide FlipsReadonly, IsScope, IsCharacteristics, LowerWord;
    PlainWord("set");
    PlainWord("transaction_read_only");
    PlainWord("x");
    PlainWord("read");
    PlainWord("write");
  }

  lemma {:induction false} PrintedThen(ts: seq<PgToken>, z: string)
    requires forall t <- ts :: Plain(t)
    ensures PgTokens(PrintTokens(ts) + z) == ts + PgTokens(z)
    ensures NoQuote(PrintTokens(ts)) && forall i | 0 <= i < |PrintTokens(ts)| :: PrintTokens(ts)[i] != ';'
  {
    hide PgTokens, LowerWord;
    if ts == [] {
      assert PrintTokens(ts) + z == z && ts + PgTokens(z) == PgTokens(z);
    } else {
      assert ts[0] in ts && forall t <- ts[1..] :: t in ts;
      PrintedThen(ts[1..], z);
      PrintPlain(ts[0]);
      var more := PrintTokens(ts[1..]) + z;
      assert PrintTokens(ts) + z == PrintToken(ts[0]) + more;
      PgOne(ts[0], more);
      assert [ts[0]] + (ts[1..] + PgTokens(z)) == ts + PgTokens(z);
    }
  }

  lemma PrintPlain(t: PgToken)
    requires Plain(t)
    ensures NoQuote(PrintToken(t)) && (forall i | 0 <= i < |PrintToken(t)| :: PrintToken(t)[i] != ';') && Printable(t)
  {
  }

  /** The rest of the statement: empty, or the SET that it still needs. */
  function Tail(p: string): string { if TrimStart(Blank(p, PG)) == [] then " set" else "" }

  lemma TailIsPlain(p: string)
    ensures PlainText(Tail(p)) && Blank(Tail(p), PG) == Tail(p)
  {
    hide TrimStart;
    BlankPlain(Tail(p), "");
    assert Tail(p) + "" == Tail(p) && Blank("", PG) == "";
  }

  lemma BlankedTail(p: string, body: string)
    requires LiteralInCode(p, body, Tail(p), PG)
    ensures Blank(p + Literal(body) + Tail(p), PG) == Blank(p, PG) + (Spaces(|body| + 2) + Tail(p))
  {
    hide Blank, LiteralInCode, Tail;
    TailIsPlain(p);
    BlankedStatement(p, body, Tail(p));
  }

  /** The statement then leads with SET, and is no write but by its tokens. */
  lemma TailLeads(p: string, body: string, k: Keywords)
    requires LiteralInCode(p, body, Tail(p), PG) && "set" !in k.write
    requires var b := Blank(p, PG); !StatementIsWrite(b, k) && (TrimStart(b) == [] || FirstWord(b) == "set")
    ensures var b := Blank(p + Literal(body) + Tail(p), PG); FirstWord(b) == "set" && !StatementIsWrite(b, k)
  {
    hide Blank, LiteralInCode, FirstWord, TrimStart, StatementIsWrite;
    BlankedTail(p, body);
    LeadsThen(Blank(p, PG), |body| + 2, Tail(p), k);
  }

  lemma LeadsThen(b: string, n: nat, tail: string, k: Keywords)
    requires n > 0 && "set" !in k.write && !StatementIsWrite(b, k) && (TrimStart(b) == [] || FirstWord(b) == "set")
    requires tail == if TrimStart(b) == [] then " set" else ""
    ensures FirstWord(b + (Spaces(n) + tail)) == "set" && !StatementIsWrite(b + (Spaces(n) + tail), k)
  {
    hide FirstWord, TrimStart, StatementIsWrite, WordAfter;
    if TrimStart(b) == [] {
      Assoc(b, Spaces(n), " set");
      LateSet(b, n);
      SetIsWrite((b + Spaces(n)) + " set", k);
    } else {
      SpacesFollow(b, n, k);
    }
  }

  lemma SpacesFollow(b: string, n: nat, k: Keywords)
    requires n > 0 && FirstWord(b) == "set" && !StatementIsWrite(b, k)
    ensures FirstWord(b + (Spaces(n) + "")) == "set" && !StatementIsWrite(b + (Spaces(n) + ""), k)
  {
    var y := Spaces(n) + "";
    assert AllBlank(y) && y[0] == ' ';
    hide FirstWord, TrimStart, StatementIsWrite, WordAfter;
    SetAppend(b, y);
    SetIsWrite(b, k);
    SetIsWrite(b + y, k);
  }

  lemma {:induction false} TrimsToNothing(b: string)
    requires TrimStart(b) == []
    ensures AllBlank(b)
  {
    if b != [] { TrimsToNothing(b[1..]); }
  }

  lemma LateSet(b: string, n: nat)
    requires TrimStart(b) == []
    ensures var s := (b + Spaces(n)) + " set"; FirstWord(s) == "set" && 3 <= |TrimStart(s)| && WordAfter(s, 3) == ""
  {
    TrimsToNothing(b);
    var lead := b + Spaces(n) + " ";
    assert AllBlank(lead) && AllAlpha("set") && LowerAll("set") == "set";
    assert (b + Spaces(n)) + " set" == lead + ("set" + "");
    hide FirstWord, TrimStart, AllBlank, AllAlpha;
    FirstWordOf(lead, "set", "");
    TrimNothing();
  }

  lemma TrimNothing()
    ensures TrimStart("") == "" && LowerAll("") == ""
  {
  }

  lemma NoSemicolons(p: string, body: string)
    requires LiteralInCode(p, body, Tail(p), PG) && FirstSeparator(Blank(p, PG)) == |p|
    ensures var b := Blank(p + Literal(body) + Tail(p), PG); FirstSeparator(b) == |b|
  {
    TailIsPlain(p);
    hide Blank, LiteralInCode, TrimStart;
    SeparatorBehind(p, body, Tail(p));
    NoSemicolonPlain(Tail(p));
  }

  lemma NoSemicolonPlain(q: string)
    requires PlainText(q)
    ensures FirstSeparator(q) == |q|
  {
    NoSeparatorBefore(q, 0, |q|);
    assert q[0..] == q;
  }

  /** So its tokens are its verdict. */
  lemma TokensJudge(p: string, body: string, k: Keywords)
    requires LiteralInCode(p, body, Tail(p), PG) && FirstSeparator(Blank(p, PG)) == |p| && "set" !in k.write
    requires var b := Blank(p, PG); !StatementIsWrite(b, k) && (TrimStart(b) == [] || FirstWord(b) == "set")
    ensures var s := p + Literal(body) + Tail(p); IsWriteFor(Some(Postgres), s, k) <==> FlipsReadonly(PgTokens(s))
  {
    hide Blank, LiteralInCode, FirstWord, TrimStart, StatementIsWrite, FlipsReadonly, PgTokens, Tail;
    TailLeads(p, body, k);
    NoSemicolons(p, body);
    WholeIsOnePart(p + Literal(body) + Tail(p), k);
  }

  /** The two bodies. */
  function StayBody(p: string): string
    requires StopAt(p).rest != []
  {
    Staying(KindOf(StopAt(p).rest))
  }

  function TurnText(p: string): string { " " + PrintTokens(Turning(Known(p))) }

  function TurnBody(p: string): string
    requires StopAt(p).rest != []
  {
    Leaving(KindOf(StopAt(p).rest)) + TurnText(p)
  }

  lemma StayVerdict(p: string)
    requires LiteralMayOpen(p) && StopAt(p).rest != []
    ensures FlipsReadonly(PgTokens(p + Literal(StayBody(p)) + Tail(p))) == FlipsReadonly(Known(p))
  {
    TailIsPlain(p);
    var r, t := StopAt(p).rest, StopAt(p).tokens;
    assert StayBody(p) == Staying(KindOf(r));
    hide PgTokens, StopAt, LiteralMayOpen, PgYield, FlipsReadonly, KindOf, Staying, Tail, PlainText, ReadsOver,
      StayBody, Alike;
    var x := Staying(KindOf(r)) + ("'" + Tail(p));
    ShapeOf(p, StayBody(p), Tail(p));
    RestReadsOver(p);
    StopSplits(p, x);
    StayingTokens(r, Tail(p));
    AlikeBehindTokens(t, PgTokens(r + ("'" + x)), PgYield(r + "'"));
    FlipsAlike(t + PgTokens(r + ("'" + x)), t + PgYield(r + "'"));
  }

  lemma AlikeBehindTokens(t: seq<PgToken>, y: seq<PgToken>, z: seq<PgToken>)
    requires Alike(y, z)
    ensures Alike(t + y, t + z)
  {
  }

  lemma TurnVerdict(p: string)
    requires LiteralMayOpen(p) && StopAt(p).rest != [] && Undecided(Known(p))
    ensures FlipsReadonly(PgTokens(p + Literal(TurnBody(p)) + Tail(p))) != FlipsReadonly(Known(p))
  {
    TailIsPlain(p);
    var r, t, v := StopAt(p).rest, StopAt(p).tokens, TurnText(p) + ("'" + Tail(p));
    assert TurnBody(p) == Leaving(KindOf(r)) + TurnText(p) && Known(p) == t + PgYield(r + "'");
    assert v[0] == ' ';
    TurnTokens(p);
    hide PgTokens, StopAt, LiteralMayOpen, PgYield, FlipsReadonly, KindOf, Leaving, Tail, ReadsOver, TurnBody,
      Known, Turning, Alike, TurnText, Undecided;
    var x := Leaving(KindOf(r)) + v;
    ShapeOf(p, TurnBody(p), Tail(p));
    Assoc(Leaving(KindOf(r)), TurnText(p), "'" + Tail(p));
    RestReadsOver(p);
    StopSplits(p, x);
    LeavingTokens(r, v);
    var y, z, more := PgYield(r + ("'" + x)), PgYield(r + "'"), Turning(Known(p)) + [Other];
    AlikeInside(t, y, z, more);
    FlipsAlike(t + (y + more), t + (z + more));
    Assoc(t, z, more);
    Turns(Known(p));
  }

  lemma TurnTokens(p: string)
    ensures PgTokens(TurnText(p) + ("'" + Tail(p))) == Turning(Known(p)) + [Other]
  {
    TailIsPlain(p);
    hide PgTokens, Known, Turning, Tail, PlainText;
    var ts, z := Turning(Known(p)), "'" + Tail(p);
    TurningIsPlain(Known(p));
    PrintedThen(ts, z);
    assert TurnText(p) + z == " " + (PrintTokens(ts) + z);
    PgBlank(PrintTokens(ts) + z);
    OpenText(Tail(p));
  }

  lemma BodiesAreProper(p: string)
    requires LiteralMayOpen(p) && StopAt(p).rest != []
    ensures ProperBody(StayBody(p), false) && ProperBody(TurnBody(p), false)
  {
    hide StopAt, LiteralMayOpen, KindOf, Known, Turning, PgTokens, ReadsOver, ProperBody, Leaving, Staying;
    RestReadsOver(p);
    KindIsSensible(StopAt(p).rest);
    TurningIsPlain(Known(p));
    PrintedThen(Turning(Known(p)), "");
    LeavingIsProper(KindOf(StopAt(p).rest), TurnText(p));
  }

  /** The two bodies, and what follows the literal, show that it matters. */
  lemma OtherwiseMatters(p: string, k: Keywords)
    requires LiteralMayOpen(p) && FirstSeparator(Blank(p, PG)) == |p| && !StatementSettled(p, k)
    ensures !SameVerdict(p, StayBody(p), TurnBody(p), Tail(p), k)
    ensures ProperBody(StayBody(p), false) && ProperBody(TurnBody(p), false)
    ensures Tail(p) != [] ==> Tail(p)[0] != '\''
  {
    hide StopAt, LiteralMayOpen, LiteralInCode, ProperBody, Blank, FirstWord, TrimStart, StatementIsWrite,
      IsWriteFor, PgTokens, FlipsReadonly, StayBody, TurnBody, Known, Undecided;
    BodiesAreProper(p);
    TailIsPlain(p);
    Opens(p, StayBody(p), Tail(p));
    Opens(p, TurnBody(p), Tail(p));
    TokensJudge(p, StayBody(p), k);
    TokensJudge(p, TurnBody(p), k);
    StayVerdict(p);
    TurnVerdict(p);
  }

  // ---- Whole scripts ----

  lemma OpensLater(p: string, n: nat)
    requires LiteralMayOpen(p) && n == FirstSeparator(Blank(p, PG)) < |p|
    ensures LiteralMayOpen(p[n + 1..])
  {
    hide Blank, Reaches;
    Opens(p, "", "");
    LiteralLater(p, "", "", n);
    var r := p[n + 1..];
    LiteralParts(r, "", "");
    assert Agree(r + Literal("") + "", r + "'", |r|);
    ReachStable(r + Literal("") + "", r + "'", |r|, PG);
  }

  /** Exactly: no literal behind `p` matters, whatever follows it, if and only if an earlier statement is a
      write already, or the literal's own leads with another word than SET, or is a write as it stands, or has
      the token scanner stand at the quote, or is decided by the tokens before. */
  lemma {:induction false} LiteralsAreImmaterial(p: string, k: Keywords)
    requires LiteralMayOpen(p)
    ensures Immaterial(p, k) <==> Settled(p, k)
    decreases |p|
  {
    hide LiteralMayOpen, LiteralInCode, ProperBody, Blank, StatementSettled, SameVerdict, IsWriteFor;
    var n := FirstSeparator(Blank(p, PG));
    if n == |p| {
      if StatementSettled(p, k) {
        SettledIsImmaterial(p, k);
      } else {
        OtherwiseMatters(p, k);
      }
    } else {
      OpensLater(p, n);
      LiteralsAreImmaterial(p[n + 1..], k);
      forall body, other, q | ProperBody(body, false) && ProperBody(other, false) && (q != [] ==> q[0] != '\'')
        ensures SameVerdict(p, body, other, q, k)
           <==> IsWriteFor(Some(Postgres), p[..n], k) || SameVerdict(p[n + 1..], body, other, q, k)
      {
        Opens(p, body, q);
        EarlierStatement(p, body, other, q, k);
      }
    }
  }
}
