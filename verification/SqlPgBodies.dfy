/** Two bodies for a literal whose opening quote a token reads over: with one the token reads to the end of the
    statement, with the other it ends and a text of choice follows. */
module SqlPgBodies {
  import opened Text
  import opened SqlBlank
  import opened SqlGuard
  import opened SqlGuardMeaning
  import opened SqlVerdicts
  import opened SqlPgUndecided
  import opened SqlPgStraddle

  /** Letters and blanks. */
  predicate PlainText(w: string) { forall i | 0 <= i < |w| :: IsAlpha(w[i]) || w[i] == ' ' }

  // ---- What the token yields ----

  lemma OddLower(name: string)
    requires '\'' in name
    ensures OddName(PgToken.Quoted(LowerAll(name)))
  {
    var i :| 0 <= i < |name| && name[i] == '\'';
    assert LowerAll(name)[i] == '\'';
  }

  lemma YieldComment(s: string)
    requires Starts2(s, '-', '-') || Starts2(s, '/', '*')
    ensures PgYield(s) == []
  {
  }

  lemma YieldText(s: string)
    requires s != [] && !Starts2(s, '-', '-') && !Starts2(s, '/', '*')
    requires s[0] == '\'' || EscapeLiteral(s) || (s[0] == '$' && TagLength(s) > 0)
    ensures PgYield(s) == [Other]
  {
    hide TagLength, WordRun, LowerAll;
  }

  lemma YieldName(s: string)
    requires s != [] && s[0] == '"'
    ensures PgYield(s) == [PgToken.Quoted(LowerAll(QuotedName(s[1..])))]
  {
    hide TagLength, WordRun;
  }

  /** The token is the same whatever the literal says, but for what a quoted name contains. */
  lemma YieldOver(r: string, x: string)
    requires ReadsOver(r)
    ensures Alike(PgYield(r + ("'" + x)), PgYield(r + "'"))
  {
    var s, u := r + ("'" + x), r + "'";
    QuoteBehind(r, x);
    if Starts2(r, '-', '-') || Starts2(r, '/', '*') {
      YieldComment(s);
      YieldComment(u);
    } else if r[0] == '\'' || EscapeLiteral(u) {
      YieldText(s);
      YieldText(u);
    } else {
      NoOther(r);
      hide PgYield, PgLength;
      if r[0] == '"' { NameYield(r, x); } else { DollarYield(r, x); }
    }
  }

  lemma NameYield(r: string, x: string)
    requires ReadsOver(r) && r[0] == '"'
    ensures Alike(PgYield(r + ("'" + x)), PgYield(r + "'"))
  {
    hide PgYield, PgLength, OddName;
    OddYield(r, x);
    OddYield(r, []);
    assert r + ("'" + []) == r + "'";
  }

  lemma OddYield(r: string, x: string)
    requires ReadsOver(r) && r[0] == '"'
    ensures var y := PgYield(r + ("'" + x)); |y| == 1 && OddName(y[0])
  {
    hide PgYield, PgLength, QuotedName, LowerAll, OddName;
    var s := r + ("'" + x);
    assert s[0] == r[0];
    QuotedOver(r, x);
    YieldName(s);
    OddLower(QuotedName(s[1..]));
  }

  lemma DollarYield(r: string, x: string)
    requires ReadsOver(r) && r[0] == '$'
    ensures Alike(PgYield(r + ("'" + x)), PgYield(r + "'"))
  {
    hide PgYield, PgLength, TagLength;
    DollarOver(r, x);
    DollarText(r, x);
    DollarText(r, []);
    assert r + ("'" + []) == r + "'";
  }

  lemma DollarText(r: string, x: string)
    requires r != [] && r[0] == '$' && TagLength(r) > 0
    ensures PgYield(r + ("'" + x)) == [Other]
  {
    hide PgYield, TagLength;
    var s := r + ("'" + x);
    assert s[0] == r[0];
    TagOver(r, x);
    YieldText(s);
  }

  lemma TokenOver(r: string, x: string)
    requires ReadsOver(r)
    ensures KindOf(r).Dollar? ==> KindOf(r).tag != []
    ensures var n := More(KindOf(r), x);
            n <= |x| && PgTokens(r + ("'" + x)) == PgYield(r + ("'" + x)) + PgTokens(x[n..])
  {
    hide PgTokens, PgYield, PgLength, More, KindOf, TagLength;
    var s := r + ("'" + x);
    LengthOver(r, x);
    PgStep(s);
    assert s[PgLength(s)..] == x[More(KindOf(r), x)..];
  }

  // ---- A body that stays inside ----

  function Staying(o: Over): string { if o.Escaped? then "\\" else "" }

  lemma {:induction false} TextToEnd(q: string, backslash: bool)
    requires PlainText(q)
    ensures QuoteLength(q, '\'', backslash) == |q|
  {
    if q != [] { TextToEnd(q[1..], backslash); }
  }

  lemma {:induction false} NameToEnd(q: string)
    requires forall i | 0 <= i < |q| :: q[i] != '"'
    ensures QuoteLength(q, '"', false) == |q|
  {
    if q != [] { NameToEnd(q[1..]); }
  }

  lemma {:induction false} LineToEnd(q: string)
    requires forall i | 0 <= i < |q| :: q[i] != '\n'
    ensures LineLength(q) == |q|
  {
    if q != [] { LineToEnd(q[1..]); }
  }

  lemma {:induction false} BlockToEnd(q: string, depth: nat)
    requires depth > 0 && forall i | 0 <= i < |q| :: q[i] != '/' && q[i] != '*'
    ensures BlockLength(q, depth, true) == |q|
  {
    if q != [] { BlockToEnd(q[1..], depth); }
  }

  lemma {:induction false} DollarToEnd(q: string, tag: string)
    requires tag != [] && tag[0] == '$' && forall i | 0 <= i < |q| :: q[i] != '$'
    ensures ThroughNeedle(q, tag) == |q|
    decreases |q|
  {
    if |q| >= |tag| {
      assert q[..|tag|][0] != tag[0];
      DollarToEnd(q[1..], tag);
    }
  }

  predicate Sensible(o: Over) { (o.Block? ==> o.depth > 0) && (o.Dollar? ==> o.tag != [] && o.tag[0] == '$') }

  lemma Stays(o: Over, q: string)
    requires Sensible(o) && PlainText(q)
    ensures var x := Staying(o) + ("'" + q); More(o, x) == |x|
  {
    hide QuoteLength, BlockLength, LineLength, ThroughNeedle;
    var x := Staying(o) + ("'" + q);
    if o.Escaped? {
      assert x[0] == '\\' && x[2..] == q;
      EscapedQuote(x);
      TextToEnd(q, true);
    } else {
      assert x == "'" + q && x[0] == '\'' && x[1..] == q;
      if !o.Text? { assert PlainText(x[1..]); }
      match o
      case Line => LineToEnd(x);
      case Block(depth) => BlockToEnd(x, depth);
      case Text(backslash) => TextToEnd(q, backslash);
      case Name => NameToEnd(x);
      case Dollar(tag) => DollarToEnd(x, tag);
    }
  }

  lemma EscapedQuote(x: string)
    requires |x| >= 2 && x[0] == '\\'
    ensures QuoteLength(x, '\'', true) == 2 + QuoteLength(x[2..], '\'', true)
  {
  }

  // ---- A body that leaves it ----

  function Closers(depth: nat): string { if depth == 0 then [] else "*/" + Closers(depth - 1) }

  function Leaving(o: Over): string {
    match o
    case Line => "\n"
    case Block(depth) => Closers(depth)
    case Text(_) => ""
    case Escaped => "\\''"
    case Name => "\""
    case Dollar(tag) => tag
  }

  lemma {:induction false} ClosersLength(depth: nat, v: string)
    ensures BlockLength(Closers(depth) + v, depth, true) == |Closers(depth)|
  {
    var s := Closers(depth) + v;
    if depth > 0 {
      assert s[0] == '*' && s[1] == '/' && s[2..] == Closers(depth - 1) + v;
      ClosersLength(depth - 1, v);
    }
  }

  lemma QuoteEnds(x: string, q: char)
    requires x != [] && x[0] == q && (|x| > 1 ==> x[1] != q) && q != '\\'
    ensures QuoteLength(x, q, true) == 1 && QuoteLength(x, q, false) == 1
  {
  }

  lemma Leaves(o: Over, v: string)
    requires Sensible(o) && v != [] && v[0] == ' '
    ensures var x := Leaving(o) + v; var n := More(o, x); n <= |x| && PgTokens(x[n..]) == PgTokens(v)
  {
    hide QuoteLength, BlockLength, LineLength, ThroughNeedle, PgTokens;
    var x := Leaving(o) + v;
    match o
    case Line =>
      NoLine(x);
      assert x[0..] == x && x[1..] == v;
      LineFeed(x);
    case Block(depth) =>
      ClosersLength(depth, v);
      assert x[|Closers(depth)|..] == v;
    case Text(_) =>
      assert x == v && x[0..] == v;
    case Escaped =>
      EscapedQuote(x);
      assert x[2..][0] == '\'' && x[2..][1] == ' ' && x[3..] == v;
      QuoteEnds(x[2..], '\'');
    case Name =>
      assert x[1..] == v && x[0] == '"' && x[1] == v[0];
      QuoteEnds(x, '"');
    case Dollar(tag) =>
      assert x[..|tag|] == tag && x[|tag|..] == v;
      NeedleHere(x, tag);
  }

  lemma NoLine(x: string)
    requires x != [] && x[0] == '\n'
    ensures LineLength(x) == 0
  {
  }

  lemma LineFeed(x: string)
    requires x != [] && x[0] == '\n'
    ensures PgTokens(x) == PgTokens(x[1..])
  {
    hide PgTokens;
    PgStep(x);
    assert [] + PgTokens(x[1..]) == PgTokens(x[1..]);
  }

  lemma NeedleHere(x: string, tag: string)
    requires tag != [] && tag <= x
    ensures ThroughNeedle(x, tag) == |tag|
  {
  }

  // ---- Both are bodies of a literal ----

  predicate NoQuote(body: string) { forall i | 0 <= i < |body| :: body[i] != '\'' }

  lemma {:induction false} NoQuoteIsProper(body: string)
    requires NoQuote(body)
    ensures ProperBody(body, false)
  {
    if body != [] { NoQuoteIsProper(body[1..]); }
  }

  lemma {:induction false} ClosersPlain(depth: nat)
    ensures NoQuote(Closers(depth))
  {
    if depth > 0 { ClosersPlain(depth - 1); }
  }

  lemma LeavingIsProper(o: Over, v: string)
    requires (o.Dollar? ==> NoQuote(o.tag)) && NoQuote(v)
    ensures ProperBody(Leaving(o) + v, false) && ProperBody(Staying(o), false)
  {
    hide ProperBody;
    NoQuoteIsProper(Staying(o));
    if o.Escaped? {
      var x := Leaving(o) + v;
      assert x[0] == '\\' && x[1..][0] == x[1..][1] == '\'' && x[1..][2..] == v;
      NoQuoteIsProper(v);
      ProperStep(x);
      ProperStep(x[1..]);
    } else {
      if o.Block? { ClosersPlain(o.depth); }
      NoQuoteIsProper(Leaving(o) + v);
    }
  }

  lemma ProperStep(x: string)
    requires x != []
    ensures x[0] != '\'' ==> ProperBody(x, false) == ProperBody(x[1..], false)
    ensures Starts2(x, '\'', '\'') ==> ProperBody(x, false) == ProperBody(x[2..], false)
  {
  }

  // ---- Together ----

  lemma KindIsSensible(r: string)
    requires ReadsOver(r)
    ensures Sensible(KindOf(r)) && (KindOf(r).Dollar? ==> NoQuote(KindOf(r).tag))
  {
    if Starts2(r, '/', '*') { BlockIsOpen(r); }
    if !Starts2(r, '-', '-') && !Starts2(r, '/', '*') && r[0] != '\'' && !EscapeLiteral(r + "'") {
      NoOther(r);
      if r[0] == '$' { TagIsSensible(r); }
    }
    hide PgLength, TagLength, DepthAfter, Pending, ReadsOver;
  }

  lemma TagIsSensible(r: string)
    requires ReadsOver(r) && r[0] == '$'
    ensures 0 < TagLength(r) <= |r| && r[..TagLength(r)][0] == '$' && NoQuote(r[..TagLength(r)])
  {
    hide PgLength, TagLength;
    TagOver(r, []);
    DollarOver(r, []);
  }

  lemma BlockIsOpen(r: string)
    requires ReadsOver(r) && Starts2(r, '/', '*')
    ensures DepthAfter(r[2..], 1) > 0
  {
    hide BlockLength, DepthAfter;
    var u := r + "'";
    assert u[2..] == r[2..] + "'";
    BlockOver(r[2..], 1, []);
  }

  /** The tokens of the statement with the one body: those before, and the one that reads on. */
  lemma StayingTokens(r: string, q: string)
    requires ReadsOver(r) && PlainText(q)
    ensures Alike(PgTokens(r + ("'" + (Staying(KindOf(r)) + ("'" + q)))), PgYield(r + "'"))
  {
    assert r != [];
    hide PgTokens, PgYield, PgLength, More, KindOf, Staying, ReadsOver;
    var x := Staying(KindOf(r)) + ("'" + q);
    KindIsSensible(r);
    TokenOver(r, x);
    Stays(KindOf(r), q);
    YieldOver(r, x);
    assert x[|x|..] == [];
    NoTokens();
    assert PgYield(r + ("'" + x)) + [] == PgYield(r + ("'" + x));
  }

  lemma NoTokens()
    ensures PgTokens([]) == []
  {
  }

  lemma OpenText(q: string)
    requires PlainText(q)
    ensures PgTokens("'" + q) == [Other]
  {
    var s := "'" + q;
    assert s[1..] == q;
    TextToEnd(q, false);
    hide QuoteLength, PgTokens;
    assert PgLength(s) == |s| && PgYield(s) == [Other] && s[|s|..] == [];
    PgStep(s);
    NoTokens();
  }

  /** With the other: the text of choice is read from its start. */
  lemma LeavingTokens(r: string, v: string)
    requires ReadsOver(r) && v != [] && v[0] == ' '
    ensures var s := r + ("'" + (Leaving(KindOf(r)) + v));
            PgTokens(s) == PgYield(s) + PgTokens(v) && Alike(PgYield(s), PgYield(r + "'"))
  {
    assert r != [];
    hide PgTokens, PgYield, PgLength, More, KindOf, Leaving, ReadsOver;
    var x := Leaving(KindOf(r)) + v;
    KindIsSensible(r);
    TokenOver(r, x);
    Leaves(KindOf(r), v);
    YieldOver(r, x);
  }
}
