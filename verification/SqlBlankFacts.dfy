/** What blanking keeps: positions, itself when repeated, and statements apart. */
module SqlBlankFacts {
  import opened Text
  import opened SqlBlank

  // ---- Character by character ----

  /** A character that is not blanked stands where nothing opens, and is the input's. */
  lemma {:induction false} Survives(s: string, d: Dialect, i: nat)
    requires i < |s|
    ensures Blank(s, d)[i] == s[i] || Blank(s, d)[i] == ' '
    ensures Blank(s, d)[i] != ' ' ==> !Opens(s[i..], d)
    decreases |s|
  {
    var n := TokenLength(s, d);
    var first := if Opens(s, d) then Spaces(n) else [s[0]];
    assert |first| == n;
    if i < n {
      assert Blank(s, d)[i] == first[i];
      if i == 0 { assert s[0..] == s; }
    } else {
      assert Blank(s, d)[i] == Blank(s[n..], d)[i - n];
      assert s[n..][i - n..] == s[i..];
      Survives(s[n..], d, i - n);
    }
  }

  lemma {:induction false} WordRunSame(a: string, b: string, n: nat)
    requires WordRun(a) < n <= |a| && n <= |b| && a[..n] == b[..n]
    ensures WordRun(b) == WordRun(a)
    decreases n
  {
    assert a[0] == a[..n][0] == b[..n][0] == b[0];
    if IsWordChar(a[0]) {
      assert a[1..][..n - 1] == a[..n][1..] == b[..n][1..] == b[1..][..n - 1];
      WordRunSame(a[1..], b[1..], n - 1);
    }
  }

  lemma TagSame(a: string, b: string, n: nat)
    requires n == TagLength(a) > 0 && n <= |b| && a[..n] == b[..n]
    ensures TagLength(b) == n
  {
    assert a[0] == a[..n][0] == b[..n][0] == b[0];
    assert a[1..][..n - 1] == a[..n][1..] == b[..n][1..] == b[1..][..n - 1];
    WordRunSame(a[1..], b[1..], n - 1);
    assert b[n - 1] == b[..n][n - 1] == a[n - 1];
  }

  lemma {:induction false} RunIsWord(s: string)
    ensures forall i | 0 <= i < WordRun(s) :: s[i] != ' '
  {
    if s != [] && IsWordChar(s[0]) {
      RunIsWord(s[1..]);
      forall i | 0 <= i < WordRun(s) ensures s[i] != ' ' {
        if i > 0 { assert s[i] == s[1..][i - 1]; }
      }
    }
  }

  lemma TagHasNoSpace(s: string)
    ensures forall i | 0 <= i < TagLength(s) :: s[i] != ' '
  {
    if TagLength(s) > 0 {
      RunIsWord(s[1..]);
      forall i | 0 <= i < TagLength(s) ensures s[i] != ' ' {
        if 0 < i < TagLength(s) - 1 { assert s[i] == s[1..][i - 1]; }
      }
    }
  }

  /** No comment, quote or dollar opener survives. */
  lemma NothingOpens(s: string, d: Dialect, i: nat)
    requires i < |s|
    ensures !Opens(Blank(s, d)[i..], d)
  {
    hide Blank;
    var r := Blank(s, d);
    var a, b := r[i..], s[i..];
    if Opens(a, d) {
      Survives(s, d, i);
      assert a[0] == b[0];
      if |a| >= 2 {
        Survives(s, d, i + 1);
        assert a[1] == b[1] || a[1] == ' ';
      }
      if a[0] == '$' && d.dollarStrings && TagLength(a) > 0 {
        TagSurvives(s, d, i);
      }
    }
  }

  lemma TagSurvives(s: string, d: Dialect, i: nat)
    requires i < |s|
    ensures TagLength(Blank(s, d)[i..]) > 0 ==> TagLength(s[i..]) > 0
  {
    hide Blank;
    var a, b := Blank(s, d)[i..], s[i..];
    var n := TagLength(a);
    if n > 0 {
      TagHasNoSpace(a);
      forall j | 0 <= j < n ensures a[j] == b[j] {
        Survives(s, d, i + j);
      }
      assert a[..n] == b[..n];
      TagSame(a, b, n);
    }
  }

  lemma {:induction false} PlainIsFixed(r: string, d: Dialect)
    requires forall i | 0 <= i < |r| :: !Opens(r[i..], d)
    ensures Blank(r, d) == r
    decreases |r|
  {
    if r != [] {
      assert r[0..] == r;
      assert !Opens(r, d) && TokenLength(r, d) == 1;
      forall i | 0 <= i < |r[1..]| ensures !Opens(r[1..][i..], d) {
        assert r[1..][i..] == r[i + 1..];
      }
      PlainIsFixed(r[1..], d);
      assert r == [r[0]] + r[1..];
    }
  }

  /** Blanking twice is blanking once. */
  lemma Idempotent(s: string, d: Dialect)
    ensures Blank(Blank(s, d), d) == Blank(s, d)
  {
    forall i | 0 <= i < |s| ensures !Opens(Blank(s, d)[i..], d) {
      NothingOpens(s, d, i);
    }
    hide Blank;
    PlainIsFixed(Blank(s, d), d);
  }

  // ---- Live positions ----

  /** The scanner stands in code at position `k`: a turn of its loop begins there. */
  predicate Reaches(s: string, k: nat, d: Dialect)
    decreases |s|
  {
    k == 0 || (s != [] && TokenLength(s, d) <= k && Reaches(s[TokenLength(s, d)..], k - TokenLength(s, d), d))
  }

  /** What one turn writes. */
  function Written(s: string, d: Dialect): (w: string)
    requires s != []
    ensures |w| == TokenLength(s, d)
  {
    if Opens(s, d) then Spaces(TokenLength(s, d)) else [s[0]]
  }

  lemma BlankUnroll(s: string, d: Dialect)
    requires s != []
    ensures Blank(s, d) == Written(s, d) + Blank(s[TokenLength(s, d)..], d)
  {
  }

  lemma SplitLater(first: string, rest: string, m: nat, tail: string)
    requires m <= |rest| && rest == rest[..m] + tail
    ensures (first + rest)[..|first| + m] == first + rest[..m]
    ensures first + rest == (first + rest)[..|first| + m] + tail
  {
    assert first + (rest[..m] + tail) == (first + rest[..m]) + tail;
  }

  lemma {:induction false} ReachSplits(s: string, k: nat, d: Dialect)
    requires Reaches(s, k, d)
    ensures k <= |s| && Blank(s, d) == Blank(s, d)[..k] + Blank(s[k..], d)
    decreases |s|
  {
    hide Blank, TokenLength, Written;
    if k > 0 {
      var n := TokenLength(s, d);
      ReachSplits(s[n..], k - n, d);
      assert s[n..][k - n..] == s[k..];
      BlankUnroll(s, d);
      SplitLater(Written(s, d), Blank(s[n..], d), k - n, Blank(s[k..], d));
    } else {
      assert s[0..] == s;
    }
  }

  /** At `k`, where `s` has a separator or a quote, `t` continues as `s` does, or ends. */
  predicate Agree(s: string, t: string, k: nat) {
    && k < |s| && k <= |t| && s[..k] == t[..k]
    && (s[k] == ';' || s[k] == '\'') && (k < |t| ==> t[k] == s[k])
  }

  lemma AgreeDrop(s: string, t: string, k: nat, n: nat)
    requires Agree(s, t, k) && n <= k
    ensures Agree(s[n..], t[n..], k - n)
  {
    assert s[n..][..k - n] == s[..k][n..];
    assert t[n..][..k - n] == t[..k][n..];
  }

  /** Below `k` the two have the same characters; at `k` nothing that extends a token. */
  lemma AgreeAt(s: string, t: string, k: nat, i: nat)
    requires Agree(s, t, k) && i < k
    ensures i < |t| && s[i] == t[i]
  {
    assert s[i] == s[..k][i] == t[..k][i] == t[i];
  }

  lemma {:induction false} LineStable(s: string, t: string, k: nat)
    requires Agree(s, t, k) && LineLength(s) <= k
    ensures LineLength(t) == LineLength(s)
    decreases k
  {
    if k > 0 {
      AgreeAt(s, t, k, 0);
      if s[0] != '\n' {
        AgreeDrop(s, t, k, 1);
        LineStable(s[1..], t[1..], k - 1);
      }
    }
  }

  lemma {:induction false} DigitsStable(s: string, t: string, k: nat)
    requires Agree(s, t, k) && DigitRun(s) <= k
    ensures DigitRun(t) == DigitRun(s)
    decreases k
  {
    if k > 0 {
      AgreeAt(s, t, k, 0);
      if IsDigit(s[0]) {
        AgreeDrop(s, t, k, 1);
        DigitsStable(s[1..], t[1..], k - 1);
      }
    }
  }

  lemma {:induction false} WordStable(s: string, t: string, k: nat)
    requires Agree(s, t, k)
    ensures WordRun(t) == WordRun(s) <= k
    decreases k
  {
    if k > 0 {
      AgreeAt(s, t, k, 0);
      if IsWordChar(s[0]) {
        AgreeDrop(s, t, k, 1);
        WordStable(s[1..], t[1..], k - 1);
      }
    }
  }

  lemma {:induction false} BlockStable(s: string, t: string, k: nat, depth: nat, nested: bool)
    requires Agree(s, t, k) && BlockLength(s, depth, nested) <= k
    ensures BlockLength(t, depth, nested) == BlockLength(s, depth, nested)
    decreases k
  {
    if depth > 0 {
      assert k > 0;
      AgreeAt(s, t, k, 0);
      Pairs(s, t, k);
      if nested && Starts2(s, '/', '*') {
        AgreeDrop(s, t, k, 2);
        BlockStable(s[2..], t[2..], k - 2, depth + 1, nested);
      } else if Starts2(s, '*', '/') {
        AgreeDrop(s, t, k, 2);
        BlockStable(s[2..], t[2..], k - 2, depth - 1, nested);
      } else {
        AgreeDrop(s, t, k, 1);
        BlockStable(s[1..], t[1..], k - 1, depth, nested);
      }
    }
  }

  /** Two-character openers are seen in both or in neither. */
  lemma Pairs(s: string, t: string, k: nat)
    requires Agree(s, t, k) && k > 0
    ensures forall a, b | b != ';' && b != '\'' :: Starts2(s, a, b) == Starts2(t, a, b)
  {
    AgreeAt(s, t, k, 0);
    if k > 1 { AgreeAt(s, t, k, 1); }
  }

  lemma {:induction false} QuoteStable(s: string, t: string, k: nat, q: char, backslash: bool)
    requires Agree(s, t, k) && IsQuote(q) && QuoteLength(s, q, backslash) <= k
    ensures QuoteLength(t, q, backslash) == QuoteLength(s, q, backslash)
    decreases k
  {
    assert 0 < k < |s|;
    hide Agree;
    AgreeAt(s, t, k, 0);
    if k > 1 { AgreeAt(s, t, k, 1); }
    if backslash && s[0] == '\\' && q != '`' && |s| >= 2 {
      AgreeDrop(s, t, k, 2);
      QuoteStable(s[2..], t[2..], k - 2, q, backslash);
    } else if s[0] == q {
      if Starts2(s, q, q) {
        AgreeDrop(s, t, k, 2);
        QuoteStable(s[2..], t[2..], k - 2, q, backslash);
      }
    } else {
      AgreeDrop(s, t, k, 1);
      QuoteStable(s[1..], t[1..], k - 1, q, backslash);
    }
  }

  lemma TagStable(s: string, t: string, k: nat)
    requires Agree(s, t, k) && k > 0
    ensures TagLength(t) == TagLength(s)
  {
    AgreeAt(s, t, k, 0);
    if s[0] == '$' {
      AgreeDrop(s, t, k, 1);
      WordStable(s[1..], t[1..], k - 1);
      var j := 1 + WordRun(s[1..]);
      if j < k { AgreeAt(s, t, k, j); }
    }
  }

  lemma {:induction false} NeedleStable(s: string, t: string, k: nat, needle: string)
    requires Agree(s, t, k) && needle != [] && ThroughNeedle(s, needle) <= k
    ensures ThroughNeedle(t, needle) == ThroughNeedle(s, needle)
    decreases k
  {
    var m := |needle|;
    NeedleFits(s, needle);
    assert s[..m] == s[..k][..m] == t[..k][..m] == t[..m];
    if s[..m] != needle {
      AgreeDrop(s, t, k, 1);
      NeedleStable(s[1..], t[1..], k - 1, needle);
    }
  }

  lemma {:induction false} NeedleFits(s: string, needle: string)
    requires needle != []
    ensures |needle| <= |s| ==> ThroughNeedle(s, needle) >= |needle|
    ensures |needle| > |s| ==> ThroughNeedle(s, needle) == |s|
    decreases |s|
  {
    if |s| > |needle| { NeedleFits(s[1..], needle); }
  }

  /** A token that ends by `k` is the same token in both. */
  lemma TokenStable(s: string, t: string, k: nat, d: Dialect)
    requires Agree(s, t, k) && k > 0 && TokenLength(s, d) <= k
    ensures Opens(t, d) == Opens(s, d) && TokenLength(t, d) == TokenLength(s, d)
  {
    hide TagLength, WordRun, ThroughNeedle, QuoteLength, BlockLength, LineLength, DigitRun;
    AgreeAt(s, t, k, 0);
    Pairs(s, t, k);
    TagStable(s, t, k);
    AgreeDrop(s, t, k, 1);
    if Starts2(s, '-', '-') || (s[0] == '#' && d.hashComment) {
      LineStable(s[1..], t[1..], k - 1);
    } else if Starts2(s, '/', '*') {
      if k > 2 { AgreeAt(s, t, k, 2); }
      AgreeDrop(s, t, k, 2);
      if OpensVersioned(s) {
        AgreeDrop(s, t, k, 3);
        DigitsStable(s[3..], t[3..], k - 3);
      } else {
        BlockStable(s[2..], t[2..], k - 2, 1, d.nestedComments);
      }
    } else if s[0] == '$' && d.dollarStrings && TagLength(s) > 0 {
      DollarStable(s, t, k);
    } else if IsQuote(s[0]) {
      QuoteStable(s[1..], t[1..], k - 1, s[0], d.backslashEscape);
    }
  }

  lemma DollarStable(s: string, t: string, k: nat)
    requires Agree(s, t, k) && TagLength(s) == TagLength(t) > 0
    requires TagLength(s) + ThroughNeedle(s[TagLength(s)..], s[..TagLength(s)]) <= k
    ensures ThroughNeedle(t[TagLength(t)..], t[..TagLength(t)]) == ThroughNeedle(s[TagLength(s)..], s[..TagLength(s)])
  {
    hide TagLength, ThroughNeedle;
    var n := TagLength(s);
    AgreeDrop(s, t, k, n);
    assert s[..n] == s[..k][..n] == t[..k][..n] == t[..n];
    NeedleStable(s[n..], t[n..], k - n, s[..n]);
  }

  /** What is blanked before a live position does not depend on what follows it. */
  lemma {:induction false} ReachStable(s: string, t: string, k: nat, d: Dialect)
    requires Agree(s, t, k) && Reaches(s, k, d)
    ensures Reaches(t, k, d) && Blank(t, d)[..k] == Blank(s, d)[..k]
    decreases |s|
  {
    hide Blank, TokenLength, Opens;
    if k > 0 {
      var n := TokenLength(s, d);
      TokenStable(s, t, k, d);
      AgreeAt(s, t, k, 0);
      AgreeDrop(s, t, k, n);
      ReachStable(s[n..], t[n..], k - n, d);
      BlankUnroll(s, d);
      BlankUnroll(t, d);
      PrefixOfAppend(Written(s, d), Blank(s[n..], d), k);
      PrefixOfAppend(Written(s, d), Blank(t[n..], d), k);
    }
  }

  lemma PrefixOfAppend(first: string, rest: string, k: nat)
    requires |first| <= k <= |first| + |rest|
    ensures (first + rest)[..k] == first + rest[..k - |first|]
  {
  }

  // ---- Statements ----

  /** A separator written after `a` is one for the scanner: `a` ends in code. */
  predicate EndsInCode(a: string, d: Dialect) { Reaches(a + ";", |a|, d) }

  lemma SeparatorStays(b: string, d: Dialect)
    ensures Blank(";" + b, d) == ";" + Blank(b, d)
  {
    var s := ";" + b;
    assert s[0] == ';' && s[1..] == b;
  }

  /** Statement compositionality: statements are blanked apart. */
  lemma Compositional(a: string, b: string, d: Dialect)
    requires EndsInCode(a, d)
    ensures Blank(a + ";" + b, d) == Blank(a, d) + ";" + Blank(b, d)
    ensures Reaches(a + ";" + b, |a|, d)
  {
    var s, t := a + ";", a + ";" + b;
    hide Blank, Reaches;
    assert s[..|a|] == a == t[..|a|] && t[|a|..] == ";" + b;
    ReachStable(s, t, |a|, d);
    ReachStable(s, a, |a|, d);
    ReachSplits(t, |a|, d);
    SeparatorStays(b, d);
    assert Blank(a, d)[..|a|] == Blank(a, d);
    assert Blank(a, d) + (";" + Blank(b, d)) == Blank(a, d) + ";" + Blank(b, d);
  }
}
