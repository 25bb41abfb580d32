/** The token scanner of PostgreSQL where a literal opens: it stands there, or a token of its own reads over the
    quote. */
module SqlPgStraddle {
  import opened Common
  import opened Text
  import opened SqlBlank
  import opened SqlBlankFacts
  import opened SqlGuard
  import opened SqlGuardMeaning
  import opened SqlPgLiteral

  // ---- Where the scanner is when a quote follows `p` ----

  /** The tokens that end in `p`, and the part of `p` that belongs to a token that reads on. */
  datatype Stop = Stop(tokens: seq<PgToken>, rest: string)

  function StopAt(p: string): Stop
    decreases |p|
  {
    if p == [] then Stop([], [])
    else
      var n := PgLength(p + "'");
      if n <= |p| then var s := StopAt(p[n..]); Stop(PgYield(p + "'") + s.tokens, s.rest)
      else Stop([], p)
  }

  lemma {:induction false} RestReadsOn(p: string)
    ensures var r := StopAt(p).rest;
            && |r| <= |p| && r == p[|p| - |r|..] && (r != [] ==> PgLength(r + "'") == |r| + 1)
    decreases |p|
  {
    hide PgLength, PgYield;
    if p != [] {
      var n := PgLength(p + "'");
      if n <= |p| { RestReadsOn(p[n..]); }
    }
  }

  lemma QuoteAgrees(p: string, x: string)
    ensures Agree(p + "'", p + ("'" + x), |p|)
  {
  }

  /** Whatever the literal says, these tokens come first. */
  lemma {:induction false} StopSplits(p: string, x: string)
    ensures PgTokens(p + ("'" + x)) == StopAt(p).tokens + PgTokens(StopAt(p).rest + ("'" + x))
    decreases |p|
  {
    hide PgTokens, PgYield, PgLength;
    var s, t := p + "'", p + ("'" + x);
    if p == [] {
      assert [] + PgTokens(t) == PgTokens(t);
    } else {
      var n := PgLength(s);
      if n <= |p| {
        QuoteAgrees(p, x);
        PgLengthStable(s, t, |p|);
        PgYieldStable(s, t, |p|);
        PgStep(t);
        assert t[n..] == p[n..] + ("'" + x);
        StopSplits(p[n..], x);
        Assoc(PgYield(s), StopAt(p[n..]).tokens, PgTokens(StopAt(p[n..]).rest + ("'" + x)));
      } else {
        assert [] + PgTokens(t) == PgTokens(t);
      }
    }
  }

  // ---- The token that reads over the quote ----

  /** What is open behind the quote: a line comment, a block comment at a depth, a text that the quote closes
      unless another follows, an E'' text that goes on, a name in double quotes, a text in dollar quotes. */
  datatype Over = Line | Block(depth: nat) | Text(backslash: bool) | Escaped | Name | Dollar(tag: string)

  /** How much of what follows the quote belongs to it. */
  function More(o: Over, x: string): nat
    requires o.Dollar? ==> o.tag != []
  {
    match o
    case Line => LineLength(x)
    case Block(depth) => BlockLength(x, depth, true)
    case Text(backslash) => if x != [] && x[0] == '\'' then 1 + QuoteLength(x[1..], '\'', backslash) else 0
    case Escaped => QuoteLength(x, '\'', true)
    case Name => QuoteLength(x, '"', false)
    case Dollar(tag) => ThroughNeedle(x, tag)
  }

  /** How deep a comment is at the end of `w`. */
  function DepthAfter(w: string, depth: nat): nat
    decreases |w|
  {
    if w == [] || depth == 0 then depth
    else if Starts2(w, '/', '*') then DepthAfter(w[2..], depth + 1)
    else if Starts2(w, '*', '/') then DepthAfter(w[2..], depth - 1)
    else DepthAfter(w[1..], depth)
  }

  /** An E'' text ends in a backslash that escapes what follows. */
  predicate Pending(w: string)
    decreases |w|
  {
    if w == [] then false
    else if w[0] == '\\' then |w| == 1 || Pending(w[2..])
    else if Starts2(w, '\'', '\'') then Pending(w[2..])
    else Pending(w[1..])
  }

  function KindOf(r: string): Over
    requires r != []
  {
    if Starts2(r, '-', '-') then Line
    else if Starts2(r, '/', '*') then Block(DepthAfter(r[2..], 1))
    else if r[0] == '\'' then Text(false)
    else if EscapeLiteral(r + "'") then if |r| == 1 || Pending(r[2..]) then Escaped else Text(true)
    else if r[0] == '"' then Name
    else Dollar(r[..TagLength(r)])
  }

  /** Both texts go on alike as long as `w` does. */
  lemma QuoteBehind(w: string, x: string)
    requires w != []
    ensures var s, u := w + ("'" + x), w + "'";
            && s[0] == u[0] == w[0] && u[1..] == w[1..] + "'" && s[1..] == w[1..] + ("'" + x)
            && s[1] == u[1] == (if |w| > 1 then w[1] else '\'')
            && (|w| > 1 ==> u[2..] == w[2..] + "'" && s[2..] == w[2..] + ("'" + x)) && (|w| == 1 ==> s[2..] == x)
  {
  }

  lemma {:induction false} LineOver(w: string, x: string)
    requires LineLength(w + "'") == |w| + 1
    ensures LineLength(w + ("'" + x)) == |w| + 1 + LineLength(x)
  {
    var s := w + ("'" + x);
    if w == [] {
      assert s[1..] == x;
    } else {
      assert (w + "'")[1..] == w[1..] + "'" && s[1..] == w[1..] + ("'" + x);
      LineOver(w[1..], x);
    }
  }

  lemma {:induction false} BlockOver(w: string, depth: nat, x: string)
    requires depth > 0 && BlockLength(w + "'", depth, true) == |w| + 1
    ensures DepthAfter(w, depth) > 0
    ensures BlockLength(w + ("'" + x), depth, true) == |w| + 1 + BlockLength(x, DepthAfter(w, depth), true)
    decreases |w|
  {
    var s, u := w + ("'" + x), w + "'";
    if w == [] {
      assert s[1..] == x;
    } else {
      QuoteBehind(w, x);
      if Starts2(w, '/', '*') {
        BlockOver(w[2..], depth + 1, x);
      } else if Starts2(w, '*', '/') {
        BlockOver(w[2..], depth - 1, x);
      } else {
        BlockOver(w[1..], depth, x);
      }
    }
  }

  predicate EndsInQuote(w: string) { w != [] && w[|w| - 1] == '\'' }

  lemma {:induction false} TextOver(w: string, backslash: bool, x: string)
    requires QuoteLength(w + "'", '\'', backslash) == |w| + 1 && !EndsInQuote(w)
    ensures QuoteLength(w + ("'" + x), '\'', backslash)
         == |w| + 1 + if backslash && Pending(w) then More(Escaped, x) else More(Text(backslash), x)
    decreases |w|
  {
    var s, u := w + ("'" + x), w + "'";
    if w == [] {
      assert s[1..] == x && (x != [] ==> s[1] == x[0] && s[2..] == x[1..]);
    } else {
      QuoteBehind(w, x);
      if (backslash && w[0] == '\\') || w[0] == '\'' {
        if |w| > 1 { TextOver(w[2..], backslash, x); }
      } else {
        TextOver(w[1..], backslash, x);
      }
    }
  }

  lemma {:induction false} NameOver(w: string, x: string)
    requires QuoteLength(w + "'", '"', false) == |w| + 1
    ensures QuoteLength(w + ("'" + x), '"', false) == |w| + 1 + QuoteLength(x, '"', false)
    ensures '\'' in QuotedName(w + ("'" + x))
    decreases |w|
  {
    var s, u := w + ("'" + x), w + "'";
    if w == [] {
      assert s[1..] == x;
    } else {
      QuoteBehind(w, x);
      if w[0] == '"' { NameOver(w[2..], x); } else { NameOver(w[1..], x); }
    }
  }

  lemma {:induction false} NeedleOver(w: string, tag: string, x: string)
    requires tag != [] && '\'' !in tag && ThroughNeedle(w + "'", tag) == |w| + 1
    ensures ThroughNeedle(w + ("'" + x), tag) == |w| + 1 + ThroughNeedle(x, tag)
    decreases |w|
  {
    var s, u := w + ("'" + x), w + "'";
    var m := |tag|;
    if |w| < m {
      if m <= |s| { assert s[..m][|w|] == '\'' && (s[..m] == tag ==> '\'' in tag); }
    } else {
      assert u[..m] == w[..m] == s[..m];
    }
    if w == [] {
      assert s[1..] == x;
      if |x| < m { ShortOfNeedle(x, tag); }
    } else {
      assert u[1..] == w[1..] + "'" && s[1..] == w[1..] + ("'" + x);
      if |u| < m { ShortOfNeedle(u[1..], tag); }
      if |s| < m { ShortOfNeedle(x, tag); } else { NeedleOver(w[1..], tag, x); }
    }
  }

  lemma ShortOfNeedle(x: string, tag: string)
    requires tag != [] && |x| < |tag|
    ensures ThroughNeedle(x, tag) == |x|
  {
  }

  // ---- Each kind ----

  predicate ReadsOver(r: string) { r != [] && PgLength(r + "'") == |r| + 1 && !EndsInQuote(r) }

  lemma TagOver(r: string, x: string)
    requires r != [] && r[0] == '$'
    ensures TagLength(r + ("'" + x)) == TagLength(r) <= |r|
    ensures TagLength(r) > 0 ==> '\'' !in r[..TagLength(r)] && r[TagLength(r) - 1] == '$'
  {
    var s := r + ("'" + x);
    assert s[1..] == r[1..] + ("'" + x);
    WordRunUpTo(r[1..], "'" + x);
  }

  lemma {:induction false} WordRunUpTo(w: string, y: string)
    requires y != [] && !IsWordChar(y[0])
    ensures WordRun(w + y) == WordRun(w) && forall i | 0 <= i < WordRun(w) :: w[i] != '\''
  {
    if w == [] {
      assert w + y == y;
    } else {
      assert (w + y)[1..] == w[1..] + y;
      WordRunUpTo(w[1..], y);
    }
  }

  lemma CommentsOver(r: string, x: string)
    requires ReadsOver(r) && (Starts2(r, '-', '-') || Starts2(r, '/', '*'))
    ensures PgLength(r + ("'" + x)) == |r| + 1 + More(KindOf(r), x)
  {
    hide LineLength, BlockLength, DepthAfter;
    var s, u := r + ("'" + x), r + "'";
    if Starts2(r, '-', '-') {
      assert u[1..] == r[1..] + "'" && s[1..] == r[1..] + ("'" + x);
      LineOver(r[1..], x);
    } else {
      assert u[2..] == r[2..] + "'" && s[2..] == r[2..] + ("'" + x);
      BlockOver(r[2..], 1, x);
    }
  }

  lemma TextsOver(r: string, x: string)
    requires ReadsOver(r) && !Starts2(r, '-', '-') && !Starts2(r, '/', '*')
    requires r[0] == '\'' || EscapeLiteral(r + "'")
    ensures PgLength(r + ("'" + x)) == |r| + 1 + More(KindOf(r), x)
  {
    hide QuoteLength, Pending;
    var s, u := r + ("'" + x), r + "'";
    if r[0] == '\'' {
      assert u[1..] == r[1..] + "'" && s[1..] == r[1..] + ("'" + x);
      TextOver(r[1..], false, x);
    } else {
      assert s[1] == u[1];
      if |r| == 1 {
        assert s[2..] == x;
      } else {
        assert u[2..] == r[2..] + "'" && s[2..] == r[2..] + ("'" + x);
        TextOver(r[2..], true, x);
      }
    }
  }

  lemma DollarLength(s: string)
    requires s != [] && s[0] == '$'
    ensures var n := TagLength(s); PgLength(s) == if n > 0 then n + ThroughNeedle(s[n..], s[..n]) else 1
  {
    hide ThroughNeedle, TagLength, QuoteLength, WordRun, LineLength, BlockLength;
  }

  lemma CutBefore(r: string, x: string, n: nat)
    requires n <= |r|
    ensures var s := r + ("'" + x); s[n..] == r[n..] + ("'" + x) && s[..n] == r[..n]
    ensures (r + "'")[n..] == r[n..] + "'" && (r + "'")[..n] == r[..n] && r + ("'" + []) == r + "'"
  {
  }

  lemma DollarOver(r: string, x: string)
    requires ReadsOver(r) && r[0] == '$'
    ensures TagLength(r) > 0 && PgLength(r + ("'" + x)) == |r| + 1 + ThroughNeedle(x, r[..TagLength(r)])
  {
    hide ThroughNeedle, TagLength, PgLength;
    var n := TagLength(r);
    TagOver(r, []);
    TagOver(r, x);
    CutBefore(r, x, n);
    DollarLength(r + "'");
    DollarLength(r + ("'" + x));
    if n > 0 { NeedleOver(r[n..], r[..n], x); }
  }

  lemma QuotedOver(r: string, x: string)
    requires ReadsOver(r) && r[0] == '"'
    ensures PgLength(r + ("'" + x)) == |r| + 1 + QuoteLength(x, '"', false)
    ensures '\'' in QuotedName((r + ("'" + x))[1..])
  {
    hide QuoteLength, QuotedName, ThroughNeedle, TagLength, WordRun, LineLength, BlockLength;
    var s, u := r + ("'" + x), r + "'";
    assert u[1..] == r[1..] + "'" && s[1..] == r[1..] + ("'" + x);
    NameOver(r[1..], x);
  }

  /** No other token reads over a quote. */
  lemma NoOther(r: string)
    requires ReadsOver(r) && !Starts2(r, '-', '-') && !Starts2(r, '/', '*')
    requires r[0] != '\'' && !EscapeLiteral(r + "'")
    ensures r[0] == '"' || r[0] == '$'
  {
    var u := r + "'";
    assert |r| > 1 ==> u[1] == r[1];
    if IsWordChar(r[0]) { WordRunUpTo(r, "'"); }
    hide QuoteLength, ThroughNeedle, TagLength, WordRun, LineLength, BlockLength;
  }

  /** Behind the quote the token goes on as its kind says. */
  lemma LengthOver(r: string, x: string)
    requires ReadsOver(r)
    ensures KindOf(r).Dollar? ==> KindOf(r).tag != []
    ensures PgLength(r + ("'" + x)) == |r| + 1 + More(KindOf(r), x)
  {
    hide PgLength, TagLength, QuoteLength, ThroughNeedle, LineLength, BlockLength, DepthAfter;
    if Starts2(r, '-', '-') || Starts2(r, '/', '*') {
      CommentsOver(r, x);
    } else if r[0] == '\'' || EscapeLiteral(r + "'") {
      TextsOver(r, x);
    } else {
      NoOther(r);
      if r[0] == '$' { DollarOver(r, x); } else { QuotedOver(r, x); }
    }
  }
}
