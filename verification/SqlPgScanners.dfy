/** The two scanners of a PostgreSQL statement, the blanker and the token scanner, agree on what is a literal but
    behind three constructs: elsewhere the write verdict of a script does not depend on what its literals say. */
module SqlPgScanners {
  import opened Common
  import opened Text
  import opened SqlBlank
  import opened SqlBlankFacts
  import opened SqlSplit
  import opened SqlGuard
  import opened SqlExplain
  import opened SqlGuardMeaning
  import opened SqlVerdicts
  import opened SqlPgLiteral
  import opened SqlPgUndecided
  import opened SqlPgBodies

  // ---- Where the two part ----

  /** What the blanker reads in code and the token scanner reads otherwise: a backtick, the opener of a
      versioned comment or hint, and an E'' literal. `word` says that a word character stands before; an E
      that ends a word opens nothing. */
  predicate Foreign(s: string, word: bool) {
    s != [] && (s[0] == '`' || OpensVersioned(s) || (EscapeLiteral(s) && !word))
  }

  /** The blanker meets nothing of the kind in code before position `k`. */
  predicate SeenAlike(s: string, k: nat, word: bool)
    decreases |s|
  {
    k == 0 || s == []
    || (!Foreign(s, word)
        && (TokenLength(s, PG) <= k ==> SeenAlike(s[TokenLength(s, PG)..], k - TokenLength(s, PG), IsWordChar(s[0]))))
  }

  // ---- A literal the blanker sees is one the token scanner sees ----

  lemma WordToken(s: string, k: nat, word: bool)
    requires k > 0 && s != [] && IsWordChar(s[0]) && Reaches(s, k, PG) && SeenAlike(s, k, word)
    ensures Reaches(s[1..], k - 1, PG) && SeenAlike(s[1..], k - 1, true)
  {
    assert TokenLength(s, PG) == 1;
    hide TokenLength, Foreign;
  }

  lemma {:induction false} ThroughWord(s: string, k: nat, word: bool)
    requires Reaches(s, k, PG) && k < |s| && !IsWordChar(s[k]) && SeenAlike(s, k, word)
    ensures WordRun(s) <= k && Reaches(s[WordRun(s)..], k - WordRun(s), PG)
    ensures SeenAlike(s[WordRun(s)..], k - WordRun(s), word || WordRun(s) > 0)
    decreases |s|
  {
    hide SeenAlike, Reaches;
    if k > 0 && IsWordChar(s[0]) {
      WordToken(s, k, word);
      assert s[1..][k - 1] == s[k];
      ThroughWord(s[1..], k - 1, true);
      assert s[1..][WordRun(s[1..])..] == s[WordRun(s)..];
    } else {
      assert s[0..] == s;
    }
  }

  /** Outside words the two read tokens of one length. */
  lemma SameLength(s: string)
    requires s != [] && !IsWordChar(s[0]) && s[0] != '`' && !OpensVersioned(s)
    ensures TokenLength(s, PG) == PgLength(s)
  {
    hide TagLength, WordRun, ThroughNeedle, QuoteLength, BlockLength, LineLength, DigitRun;
  }

  lemma WordLength(s: string)
    requires s != [] && IsWordChar(s[0]) && !EscapeLiteral(s)
    ensures PgLength(s) == WordRun(s)
  {
    hide WordRun;
  }

  /** The blanker's run arrives at a quote: so does the token scanner's. */
  lemma {:induction false} SameReach(s: string, k: nat, word: bool)
    requires Reaches(s, k, PG) && k < |s| && s[k] == '\'' && SeenAlike(s, k, word)
    requires word ==> !IsWordChar(s[0]) && !EscapeLiteral(s)
    ensures PgReaches(s, k)
    decreases |s|
  {
    hide TokenLength, PgLength, WordRun;
    if k > 0 {
      if IsWordChar(s[0]) {
        var w := WordRun(s);
        WordLength(s);
        WordRunStops(s);
        ThroughWord(s, k, word);
        assert s[w..][k - w] == s[k];
        SameReach(s[w..], k - w, true);
      } else {
        var n := TokenLength(s, PG);
        SameLength(s);
        assert s[n..][k - n] == s[k];
        SameReach(s[n..], k - n, false);
      }
    }
  }

  lemma {:induction false} WordRunStops(s: string)
    ensures s != [] && IsWordChar(s[0]) ==> WordRun(s) > 0
    ensures WordRun(s) < |s| ==> !IsWordChar(s[WordRun(s)..][0]) && !EscapeLiteral(s[WordRun(s)..])
  {
    if s != [] && IsWordChar(s[0]) {
      WordRunStops(s[1..]);
      assert s[1..][WordRun(s[1..])..] == s[WordRun(s)..];
    } else {
      assert s[0..] == s;
    }
  }

  // ---- Statements that lead with SET, and others ----

  lemma {:induction false} TrimAppend(x: string, y: string)
    ensures TrimStart(x + y) == if TrimStart(x) == [] then TrimStart(y) else TrimStart(x) + y
  {
    if x == [] {
      assert x + y == y;
    } else if IsWhitespace(x[0]) {
      assert (x + y)[1..] == x[1..] + y;
      TrimAppend(x[1..], y);
    }
  }

  lemma {:induction false} AlphaAppend(x: string, y: string)
    requires NoLetter(y)
    ensures AlphaRun(x + y) == AlphaRun(x)
  {
    if x == [] {
      assert x + y == y;
    } else if IsAlpha(x[0]) {
      assert (x + y)[1..] == x[1..] + y;
      AlphaAppend(x[1..], y);
    }
  }

  /** What follows does not change a first word that no letter follows. */
  lemma FirstWordAppend(x: string, y: string)
    requires NoLetter(y) && TrimStart(x) != []
    ensures FirstWord(x + y) == FirstWord(x)
  {
    hide TrimStart, AlphaRun;
    TrimAppend(x, y);
    AlphaAppend(TrimStart(x), y);
    var n := AlphaRun(TrimStart(x));
    assert (TrimStart(x) + y)[..n] == TrimStart(x)[..n];
  }

  /** The first word of a script is that of its first statement. */
  lemma FirstWordOfScript(x: string)
    ensures FirstWord(x[..FirstSeparator(x)]) == FirstWord(x)
  {
    var n := FirstSeparator(x);
    if n < |x| {
      var a, y := x[..n], x[n..];
      assert x == a + y && y[0] == ';';
      hide FirstSeparator, TrimStart;
      if TrimStart(a) == [] {
        TrimAppend(a, y);
        NoWord(y);
        TrimBlanks([], y);
        assert [] + y == y;
      } else {
        FirstWordAppend(a, y);
      }
    } else {
      assert x[..n] == x;
    }
  }

  /** The blanked script leads with SET. */
  predicate LeadsWithSet(s: string) { FirstWord(Blank(s, PG)) == "set" }

  lemma FirstStatementLeads(p: string, body: string, q: string)
    requires LiteralInCode(p, body, q, PG) && FirstSeparator(Blank(p, PG)) == |p|
    ensures LeadsWithSet(p + Literal(body) + q[..FirstSeparator(Blank(q, PG))]) == LeadsWithSet(p + Literal(body) + q)
  {
    hide Blank, Reaches, FirstSeparator, LeadsWithSet;
    var s, m := p + Literal(body) + q, FirstSeparator(Blank(q, PG));
    if m == |q| {
      assert q[..m] == q;
    } else {
      SeparatorBehind(p, body, q);
      CutText(p, Literal(body), q, m);
      PartLeads(s);
    }
  }

  lemma PartLeads(s: string)
    requires FirstSeparator(Blank(s, PG)) < |s|
    ensures LeadsWithSet(s[..FirstSeparator(Blank(s, PG))]) == LeadsWithSet(s)
  {
    hide Blank, FirstWord, FirstSeparator;
    FirstPartAlone(s, PG);
    FirstWordOfScript(Blank(s, PG));
  }

  lemma CutText(p: string, l: string, q: string, m: nat)
    requires m <= |q|
    ensures (p + l + q)[..|p| + |l| + m] == p + l + q[..m]
  {
  }

  /** On PostgreSQL the write verdict of a script does not depend on what a literal says, unless the statement
      it stands in leads with SET and has, in the code before the literal, a backtick, a versioned comment or
      hint, or an E'' literal. */
  lemma PgLiteralsInCode(p: string, body: string, other: string, q: string, k: Keywords)
    requires LiteralInCode(p, body, q, PG) && ProperBody(other, false)
    requires var o := OwnStatement(p); var s := o + Literal(body) + q; SeenAlike(s, |o|, false) || !LeadsWithSet(s)
    ensures SameVerdict(p, body, other, q, k)
  {
    hide SeenAlike, LiteralInCode, PartIsWrite, Blank, SameVerdict, LeadsWithSet;
    var o := OwnStatement(p);
    OwnInCode(p, body, q);
    InFirstStatement(o, body, other, q, k);
    FirstStatementDecides(o, body, other, q, k);
    OwnStatementDecides(p, body, other, q, k);
  }

  lemma InFirstStatement(o: string, body: string, other: string, q: string, k: Keywords)
    requires LiteralInCode(o, body, q, PG) && ProperBody(other, false) && FirstSeparator(Blank(o, PG)) == |o|
    requires var s := o + Literal(body) + q; SeenAlike(s, |o|, false) || !LeadsWithSet(s)
    ensures var q1 := q[..FirstSeparator(Blank(q, PG))]; var s, t := o + Literal(body) + q1, o + Literal(other) + q1;
            PartIsWrite(PG, (s, Blank(s, PG)), k) == PartIsWrite(PG, (t, Blank(t, PG)), k)
  {
    hide SeenAlike, Reaches, PartIsWrite, Blank, FirstWord, FlipsReadonly, PgTokens, PgReaches;
    var s, m := o + Literal(body) + q, FirstSeparator(Blank(q, PG));
    var s1 := o + Literal(body) + q[..m];
    if m < |q| { CutBehind(o, body, q, m); } else { assert q[..m] == q; }
    FirstStatementLeads(o, body, q);
    if SeenAlike(s, |o|, false) {
      LiteralParts(o, body, q);
      LiteralParts(o, body, q[..m]);
      SameReach(s, |o|, false);
      assert Agree(s, s1, |o|);
      PgReachStable(s, s1, |o|);
      TokensSame(o, body, other, q[..m]);
    }
    StatementSame(o, body, other, q[..m], k);
  }

  // ---- The same, with the condition on the text ----

  /** No backtick, no versioned comment or hint and no E'' literal starts in `s[..k]`. */
  predicate NothingForeign(s: string, k: nat)
    requires k <= |s|
  {
    forall i | 0 <= i < k :: s[i] != '`' && !OpensVersioned(s[i..]) && !EscapeLiteral(s[i..])
  }

  lemma {:induction false} PlainTextIsSeenAlike(s: string, k: nat, word: bool)
    requires k <= |s| && NothingForeign(s, k)
    ensures SeenAlike(s, k, word)
    decreases |s|
  {
    if k > 0 {
      var n := TokenLength(s, PG);
      hide TokenLength, OpensVersioned;
      assert s[0..] == s;
      if n <= k {
        forall i | 0 <= i < k - n
          ensures s[n..][i] != '`' && !OpensVersioned(s[n..][i..]) && !EscapeLiteral(s[n..][i..])
        {
          assert s[n..][i..] == s[n + i..];
        }
        PlainTextIsSeenAlike(s[n..], k - n, IsWordChar(s[0]));
      }
    }
  }

  /** Whatever a literal says, the write verdict is the same, for every script whose text has no backtick, no
      versioned comment or hint and no E'' literal in the literal's own statement before it. */
  lemma PgLiteralsDoNotMatter(p: string, body: string, other: string, q: string, k: Keywords)
    requires LiteralInCode(p, body, q, PG) && ProperBody(other, false)
    requires var o := OwnStatement(p); NothingForeign(o + Literal(body) + q, |o|)
    ensures SameVerdict(p, body, other, q, k)
  {
    hide IsWriteFor, SeenAlike, NothingForeign, LiteralInCode, SameVerdict;
    var o := OwnStatement(p);
    PlainTextIsSeenAlike(o + Literal(body) + q, |o|, false);
    PgLiteralsInCode(p, body, other, q, k);
  }

  // ---- Each of the three exclusions is needed ----

  lemma PlainToken(s: string)
    requires s != [] && (IsAlpha(s[0]) || s[0] == ' ')
    ensures !Opens(s, PG) && TokenLength(s, PG) == 1
  {
  }

  lemma {:induction false} BlankPlain(w: string, rest: string)
    requires PlainText(w)
    ensures Blank(w + rest, PG) == w + Blank(rest, PG)
  {
    if w == [] {
      assert w + rest == rest;
    } else {
      hide Opens, TokenLength, Blank;
      var s := w + rest;
      assert s[1..] == w[1..] + rest;
      PlainToken(s);
      BlankPlain(w[1..], rest);
      BlankUnroll(s, PG);
      assert w == [w[0]] + w[1..];
    }
  }

  lemma {:induction false} ReachPlain(w: string, rest: string, j: nat)
    requires PlainText(w) && Reaches(rest, j, PG)
    ensures Reaches(w + rest, |w| + j, PG)
  {
    if w == [] {
      assert w + rest == rest;
    } else {
      hide TokenLength;
      var s := w + rest;
      assert s[1..] == w[1..] + rest;
      PlainToken(s);
      ReachPlain(w[1..], rest, j);
    }
  }

  predicate IsHead(head: string) { head == "set local characteristics " }

  lemma HeadTokens(head: string, rest: string)
    requires IsHead(head)
    ensures PgTokens(head + rest)
         == [PgToken.Word("set")] + ([PgToken.Word("local")] + ([PgToken.Word("characteristics")] + PgTokens(rest)))
  {
    var three, two := "characteristics" + (" " + rest), "local" + (" " + ("characteristics" + (" " + rest)));
    assert head + rest == "set" + (" " + two);
    LowerWords();
    hide PgTokens, LowerWord, IsHead;
    PgWord("characteristics", rest);
    PgWord("local", three);
    PgWord("set", two);
  }

  lemma LowerWords()
    ensures LowerWord("set") && LowerWord("local") && LowerWord("characteristics")
    ensures LowerWord("read") && LowerWord("write") && LowerWord("x")
  {
  }

  lemma HeadFlips(u: seq<PgToken>)
    ensures FlipsReadonly([PgToken.Word("set")] + ([PgToken.Word("local")] + ([PgToken.Word("characteristics")] + u)))
       <==> SaysReadWrite(u)
  {
    var t := [PgToken.Word("set")] + ([PgToken.Word("local")] + ([PgToken.Word("characteristics")] + u));
    assert t[3..] == u && t[0] == PgToken.Word("set") && t[1] == PgToken.Word("local");
    assert t[2] == PgToken.Word("characteristics");
    hide SaysReadWrite, FlipsReadonly;
    Characteristics(t);
  }

  lemma HeadWords(head: string, b: string, w: string, second: string)
    requires IsHead(head) && w == "set" && second == "local"
    ensures FirstWord(head + b) == w && 3 <= |TrimStart(head + b)| && WordAfter(head + b, 3) == second
  {
    HeadLetters(w, second);
    HeadText(head, b, w, second);
    hide *;
    TwoWords(w, second, " characteristics " + b);
  }

  lemma HeadText(head: string, b: string, w: string, second: string)
    requires IsHead(head) && w == "set" && second == "local"
    ensures head + b == w + (" " + (second + (" characteristics " + b)))
  {
  }

  lemma HeadLetters(w: string, second: string)
    requires w == "set" && second == "local"
    ensures AllAlpha(w) && LowerAll(w) == w && AllAlpha(second) && LowerAll(second) == second
  {
  }

  lemma TwoWords(w: string, second: string, tail: string)
    requires w != [] && AllAlpha(w) && LowerAll(w) == w
    requires second != [] && AllAlpha(second) && LowerAll(second) == second && tail != [] && tail[0] == ' '
    ensures var s := w + (" " + (second + tail));
            FirstWord(s) == w && |w| <= |TrimStart(s)| && WordAfter(s, |w|) == second
  {
    var t := second + tail;
    var s := w + (" " + t);
    assert [] + s == s && t[..|second|] == second && t[0] == second[0];
    hide TrimStart, WordRun, FirstWord, After, LowerAll;
    FirstWordOf([], w, " " + t);
    TrimBlanks(" ", t);
    WordRunOfWord(second, tail);
  }

  lemma SetIsNoWrite(s: string, k: Keywords)
    requires FirstWord(s) == "set" && "set" !in k.write && 3 <= |TrimStart(s)| && WordAfter(s, 3) == "local"
    ensures !StatementIsWrite(s, k)
  {
    hide FirstWord, WordAfter, TrimStart;
  }

  lemma NoSeparator(s: string)
    requires forall i | 0 <= i < |s| :: s[i] != ';'
    ensures FirstSeparator(Blank(s, PG)) == |s|
  {
    BlankedSeparators(s, PG);
  }

  lemma OneSetStatement(s: string, k: Keywords)
    requires (forall i | 0 <= i < |s| :: s[i] != ';')
    requires FirstWord(Blank(s, PG)) == "set" && !StatementIsWrite(Blank(s, PG), k)
    ensures IsWriteFor(Some(Postgres), s, k) <==> FlipsReadonly(PgTokens(s))
  {
    hide IsWriteFor, StatementIsWrite, FlipsReadonly, PgTokens, Blank, FirstWord;
    NoSeparator(s);
    WholeIsOnePart(s, k);
  }

  lemma HeadIsPlain(head: string)
    requires IsHead(head)
    ensures PlainText(head) && forall i | 0 <= i < |head| :: head[i] != ';'
  {
  }

  predicate NoSemicolon(s: string) { forall i | 0 <= i < |s| :: s[i] != ';' }

  /** The verdict on such a statement is what its tokens say. */
  lemma Judged(head: string, rest: string, k: Keywords)
    requires IsHead(head) && "set" !in k.write && NoSemicolon(rest)
    ensures IsWriteFor(Some(Postgres), head + rest, k) <==> SaysReadWrite(PgTokens(rest))
  {
    var s := head + rest;
    HeadIsPlain(head);
    assert forall i | 0 <= i < |s| :: s[i] != ';';
    hide *;
    BlankPlain(head, rest);
    HeadWords(head, Blank(rest, PG), "set", "local");
    SetIsNoWrite(head + Blank(rest, PG), k);
    OneSetStatement(s, k);
    HeadTokens(head, rest);
    HeadFlips(PgTokens(rest));
  }

  /** A literal of PostgreSQL between `p` and `q`, and two things it can say that are judged differently. */
  ghost predicate Matters(p: string, body: string, other: string, q: string, k: Keywords) {
    && LiteralInCode(p, body, q, PG) && ProperBody(other, false)
    && !IsWriteFor(Some(Postgres), p + Literal(body) + q, k) && IsWriteFor(Some(Postgres), p + Literal(other) + q, k)
  }

  lemma InCode(p: string, body: string, q: string)
    requires Reaches(p + Literal(body) + q, |p|, PG) && ProperBody(body, false) && (q != [] ==> q[0] != '\'')
    ensures LiteralInCode(p, body, q, PG)
  {
    hide Reaches, ProperBody, Literal;
  }

  /** The statement is `head + a` with the one body and `head + b` with the other. */
  lemma Shown(head: string, p: string, body: string, other: string, q: string, a: string, b: string, j: nat,
              k: Keywords)
    requires IsHead(head) && "set" !in k.write && NoQuote(body) && NoQuote(other) && (q != [] ==> q[0] != '\'')
    requires p + Literal(body) + q == head + a && p + Literal(other) + q == head + b && |p| == |head| + j
    requires NoSemicolon(a) && NoSemicolon(b) && Reaches(a, j, PG)
    requires !SaysReadWrite(PgTokens(a)) && SaysReadWrite(PgTokens(b))
    ensures Matters(p, body, other, q, k)
  {
    hide IsHead, NoQuote, Literal, LiteralInCode, NoSemicolon, Reaches, SaysReadWrite, PgTokens, ProperBody, IsWriteFor;
    NoQuoteIsProper(other);
    StandsInCode(head, p, body, q, a, j);
    Judged(head, a, k);
    Judged(head, b, k);
  }

  lemma StandsInCode(head: string, p: string, body: string, q: string, a: string, j: nat)
    requires IsHead(head) && NoQuote(body) && (q != [] ==> q[0] != '\'')
    requires p + Literal(body) + q == head + a && |p| == |head| + j && Reaches(a, j, PG)
    ensures LiteralInCode(p, body, q, PG)
  {
    HeadIsPlain(head);
    hide IsHead, NoQuote, Literal, LiteralInCode, Reaches, ProperBody, PlainText;
    NoQuoteIsProper(body);
    ReachPlain(head, a, j);
    InCode(p, body, q);
  }

  lemma OneToken(s: string, n: nat, y: seq<PgToken>, rest: string)
    requires s != [] && PgLength(s) == n && PgYield(s) == y && s[n..] == rest
    ensures PgTokens(s) == y + PgTokens(rest)
  {
  }

  /** A text in single quotes, up to a quote with none behind. */
  lemma {:induction false} QuoteEndsAt(w: string, rest: string, backslash: bool)
    requires PlainText(w) && (rest != [] ==> rest[0] != '\'')
    ensures QuoteLength(w + ("'" + rest), '\'', backslash) == |w| + 1
  {
    var s := w + ("'" + rest);
    if w == [] {
      assert s == "'" + rest;
    } else {
      assert s[1..] == w[1..] + ("'" + rest);
      QuoteEndsAt(w[1..], rest, backslash);
    }
  }

  lemma StringToken(w: string, rest: string)
    requires PlainText(w) && (rest != [] ==> rest[0] != '\'')
    ensures PgTokens("'" + (w + ("'" + rest))) == [PgToken.Other] + PgTokens(rest)
  {
    var s := "'" + (w + ("'" + rest));
    QuoteEndsAt(w, rest, false);
    assert s[1..] == w + ("'" + rest) && s[|w| + 2..] == rest;
    hide QuoteLength, PgTokens;
    OneToken(s, |w| + 2, [PgToken.Other], rest);
  }

  lemma Behind(a: seq<PgToken>, u: seq<PgToken>)
    requires SaysReadWrite(u)
    ensures SaysReadWrite(a + u)
  {
    var i :| 0 <= i < |u| - 1 && u[i] == PgToken.Word("read") && u[i + 1] == PgToken.Word("write");
    assert (a + u)[|a| + i] == u[i] && (a + u)[|a| + i + 1] == u[i + 1];
  }

  lemma InFront(u: seq<PgToken>)
    ensures SaysReadWrite([PgToken.Word("read")] + ([PgToken.Word("write")] + u))
  {
    var t := [PgToken.Word("read")] + ([PgToken.Word("write")] + u);
    assert t[0] == PgToken.Word("read") && t[1] == PgToken.Word("write");
  }

  lemma ReadWriteTokens(w: string, rest: string)
    requires w == " read write "
    ensures SaysReadWrite(PgTokens(w + rest))
  {
    var y := "write" + (" " + rest);
    var s := "read" + (" " + y);
    assert w + rest == " " + s;
    LowerWords();
    hide PgTokens, LowerWord, SaysReadWrite;
    PgBlank(s);
    PgWord("write", rest);
    PgWord("read", y);
    InFront(PgTokens(rest));
  }

  lemma NoReadWrite(u: seq<PgToken>)
    requires forall i | 0 <= i < |u| :: u[i] != PgToken.Word("read")
    ensures !SaysReadWrite(u)
  {
  }

  // ---- An E'' literal: the second quote of E'\'' is data for the token scanner ----

  /** `E'x' ' read write '` */
  lemma ClosedEscape(x: string, w: string)
    requires x == "x" && w == " read write "
    ensures PgTokens("E'" + (x + ("'" + (" " + ("'" + (w + "'")))))) == [PgToken.Other, PgToken.Other]
  {
    var inner := "'" + (w + ("'" + ""));
    var tail := " " + inner;
    var a := "E'" + (x + ("'" + tail));
    assert PlainText(x) && PlainText(w) && w + ("'" + "") == w + "'";
    QuoteEndsAt(x, tail, true);
    assert a[2..] == x + ("'" + tail) && a[4..] == tail && a[0] == 'E' && a[1] == '\'';
    EscapeToken(a, 4, tail);
    hide PgTokens, PlainText;
    StringToken(w, "");
    PgBlank(inner);
    NoTokens();
  }

  lemma EscapeToken(s: string, n: nat, rest: string)
    requires |s| >= 2 && s[0] == 'E' && s[1] == '\'' && n == 2 + QuoteLength(s[2..], '\'', true) && s[n..] == rest
    ensures PgTokens(s) == [PgToken.Other] + PgTokens(rest)
  {
    hide QuoteLength;
    OneToken(s, n, [PgToken.Other], rest);
  }

  /** `E'\' ' read write '` */
  lemma OpenEscape(w: string)
    requires w == " read write "
    ensures SaysReadWrite(PgTokens("E'\\'" + (" " + ("'" + (w + "'")))))
  {
    var rest := w + "'";
    var u := " " + ("'" + rest);
    var s := "E'\\'" + u;
    assert PlainText(" ") && rest[0] == ' ';
    QuoteEndsAt(" ", rest, true);
    var v := s[2..];
    assert v[0] == '\\' && v[2..] == u && |v| >= 2;
    assert QuoteLength(v, '\'', true) == 2 + QuoteLength(u, '\'', true);
    assert s[6..] == rest;
    hide QuoteLength, PgTokens, SaysReadWrite;
    EscapeToken(s, 6, rest);
    ReadWriteTokens(w, "'");
    Behind([PgToken.Other], PgTokens(rest));
  }

  lemma EscapeTexts(head: string, body: string, w: string)
    requires w == " read write " && |body| == 1 && body[0] != ';' && body[0] != '\''
    ensures var p, q, a := head + "E", " " + ("'" + (w + "'")), "E'" + (body + ("'" + (" " + ("'" + (w + "'")))));
            && p + Literal(body) + q == head + a && NoSemicolon(a) && NoQuote(body) && Reaches(a, 1, PG)
  {
    var q := " " + ("'" + (w + "'"));
    var a := "E'" + (body + ("'" + q));
    assert NoSemicolon(q);
    assert NoSemicolon(a);
    hide TokenLength, NoSemicolon;
    PlainToken(a);
    assert Reaches(a[1..], 0, PG);
  }

  /** On `SET LOCAL CHARACTERISTICS E'…' ' read write '` the verdict depends on what the E'' literal says. */
  lemma EscapeLiteralMatters(head: string, k: Keywords, x: string, other: string, w: string)
    requires IsHead(head) && "set" !in k.write && x == "x" && other == "\\" && w == " read write "
    ensures Matters(head + "E", x, other, " " + ("'" + (w + "'")), k)
  {
    hide IsHead, Literal, NoSemicolon, NoQuote, Reaches, PgTokens, SaysReadWrite, Matters;
    var p, q := head + "E", " " + ("'" + (w + "'"));
    var a, b := "E'" + (x + ("'" + q)), "E'" + (other + ("'" + q));
    assert b == "E'\\'" + q;
    EscapeTexts(head, x, w);
    EscapeTexts(head, other, w);
    ClosedEscape(x, w);
    OpenEscape(w);
    NoReadWrite([PgToken.Other, PgToken.Other]);
    Shown(head, p, x, other, q, a, b, 1, k);
  }

  // ---- A versioned comment: code for the blanker, a comment for the token scanner ----

  predicate NoEnds(w: string) { forall i | 0 <= i < |w| :: w[i] != '*' && w[i] != '/' }

  lemma CommentToken(w: string, rest: string)
    requires NoEnds(w)
    ensures PgTokens("/*" + (w + ("*/" + rest))) == PgTokens(rest)
  {
    var s := "/*" + (w + ("*/" + rest));
    CommentEnds(w, rest);
    assert s[2..] == w + ("*/" + rest) && s[|w| + 4..] == rest && s[0] == '/' && s[1] == '*';
    hide BlockLength, PgTokens;
    OneToken(s, |w| + 4, [], rest);
  }

  lemma {:induction false} CommentEnds(w: string, rest: string)
    requires NoEnds(w)
    ensures BlockLength(w + ("*/" + rest), 1, true) == |w| + 2
  {
    var s := w + ("*/" + rest);
    if w == [] {
      assert s == "*/" + rest && s[2..] == rest;
    } else {
      assert s[1..] == w[1..] + ("*/" + rest) && s[0] == w[0];
      CommentEnds(w[1..], rest);
    }
  }

  lemma CommentTexts(head: string, x: string, other: string, w: string, a: string, b: string)
    requires x == "x" && w == " read write " && other == "*/" + (w + "/*")
    requires a == "/*" + (("!'" + (x + "'")) + ("*/" + ""))
    requires b == "/*" + ("!'" + ("*/" + (w + ("/*" + ("'" + ("*/" + ""))))))
    ensures head + "/*!" + Literal(x) + "*/" == head + a && head + "/*!" + Literal(other) + "*/" == head + b
    ensures NoSemicolon(a) && NoSemicolon(b) && NoQuote(x) && NoQuote(other)
    ensures NoEnds("!'" + (x + "'")) && NoEnds("!'")
  {
  }

  /** On a SET LOCAL CHARACTERISTICS with a literal in a versioned comment, the verdict depends on what it says. */
  lemma VersionedCommentMatters(head: string, k: Keywords, x: string, other: string, w: string)
    requires IsHead(head) && "set" !in k.write && x == "x" && w == " read write " && other == "*/" + (w + "/*")
    ensures Matters(head + "/*!", x, other, "*/", k)
  {
    hide IsHead, Literal, NoSemicolon, NoQuote, Reaches, PgTokens, SaysReadWrite, Matters, NoEnds;
    var a := "/*" + (("!'" + (x + "'")) + ("*/" + ""));
    var b := "/*" + ("!'" + ("*/" + (w + ("/*" + ("'" + ("*/" + ""))))));
    CommentTexts(head, x, other, w, a, b);
    VersionedOpener(a);
    CommentToken("!'" + (x + "'"), "");
    NoTokens();
    CommentToken("!'", w + ("/*" + ("'" + ("*/" + ""))));
    ReadWriteTokens(w, "/*" + ("'" + ("*/" + "")));
    NoReadWrite([]);
    Shown(head, head + "/*!", x, other, "*/", a, b, 3, k);
  }

  lemma VersionedOpener(a: string)
    requires |a| > 3 && a[0] == '/' && a[1] == '*' && a[2] == '!' && a[3] == '\''
    ensures Reaches(a, 3, PG)
  {
    assert TokenLength(a, PG) == 3 && Reaches(a[3..], 0, PG);
  }

  // ---- A backtick: a quoted name for the blanker, nothing for the token scanner ----

  /** Behind a backtick in code the token scanner takes the quote in the name for the start of a string. */
  lemma BacktickTokens(body: string)
    requires PlainText(body) && body != []
    ensures PgTokens("`" + ("'" + ("` " + ("'" + (body + "'"))))) == [PgToken.Other] + PgTokens(body + "'")
  {
    var inner := "` " + ("'" + (body + "'"));
    var t := "'" + inner;
    var s := "`" + t;
    BacktickInside(inner, body);
    assert s[1..] == t && t[1..] == inner && inner[3..] == body + "'" && t[4..] == inner[3..] && s[0] == '`';
    hide QuoteLength, PgTokens, PlainText;
    OneToken(s, 1, [], t);
    OneToken(t, 4, [PgToken.Other], body + "'");
  }

  lemma BacktickInside(u: string, body: string)
    requires PlainText(body) && body != [] && u == "` " + ("'" + (body + "'"))
    ensures QuoteLength(u, '\'', false) == 3
  {
    var v := u[1..];
    var x := v[1..];
    assert x == "'" + (body + "'") && x[1] == body[0] && v[0] == ' ' && u[0] == '`';
    assert QuoteLength(x, '\'', false) == 1;
    assert QuoteLength(v, '\'', false) == 2;
  }

  lemma BacktickName(a: string)
    requires |a| > 4 && a[0] == '`' && a[1] == '\'' && a[2] == '`' && a[3] == ' '
    ensures Reaches(a, 4, PG)
  {
    var u := a[1..];
    assert u[0] == '\'' && u[1..][0] == '`' && u[1..][1] == ' ';
    assert QuoteLength(u[1..], '`', false) == 1;
    assert QuoteLength(u, '`', false) == 2;
    assert TokenLength(a, PG) == 3;
    assert TokenLength(a[3..], PG) == 1 && Reaches(a[3..][1..], 0, PG);
    assert Reaches(a[3..], 1, PG);
  }

  lemma OneWordString(x: string)
    requires x == " x "
    ensures !SaysReadWrite([PgToken.Other] + PgTokens(x + "'"))
  {
    assert x + "'" == " " + (x[1..2] + (" " + "'"));
    assert LowerWord(x[1..2]);
    OneWord(x[1..2], "'");
  }

  lemma OneWord(w: string, end: string)
    requires LowerWord(w) && |w| == 1 && |end| == 1 && end[0] == '\''
    ensures !SaysReadWrite([PgToken.Other] + PgTokens(" " + (w + (" " + end))))
  {
    hide PgTokens, LowerWord, SaysReadWrite;
    PgBlank(w + (" " + end));
    PgWord(w, end);
    OpenText([]);
    assert end == "'" + [];
    NoReadWrite([PgToken.Other] + ([PgToken.Word(w)] + [PgToken.Other]));
  }

  lemma BacktickTexts(head: string, body: string, a: string)
    requires PlainText(body) && a == "`" + ("'" + ("` " + ("'" + (body + "'"))))
    ensures head + "`'` " + Literal(body) + "" == head + a && NoSemicolon(a) && NoQuote(body)
  {
  }

  /** On ``SET LOCAL CHARACTERISTICS `'` '…'`` the verdict depends on what the literal says. */
  lemma BacktickMatters(head: string, k: Keywords, x: string, w: string)
    requires IsHead(head) && "set" !in k.write && x == " x " && w == " read write "
    ensures Matters(head + "`'` ", x, w, "", k)
  {
    assert PlainText(x) && PlainText(w);
    hide IsHead, Literal, NoSemicolon, NoQuote, Reaches, PgTokens, SaysReadWrite, Matters, PlainText;
    var a, b := "`" + ("'" + ("` " + ("'" + (x + "'")))), "`" + ("'" + ("` " + ("'" + (w + "'"))));
    BacktickTexts(head, x, a);
    BacktickTexts(head, w, b);
    BacktickName(a);
    BacktickTokens(x);
    BacktickTokens(w);
    OneWordString(x);
    ReadWriteTokens(w, "'");
    Behind([PgToken.Other], PgTokens(w + "'"));
    Shown(head, head + "`'` ", x, w, "", a, b, 4, k);
  }
}
