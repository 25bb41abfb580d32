/** The verdicts do not see how long a run of spaces is. */
module SqlSim {
  import opened Text
  import opened SqlBlank
  import opened SqlSplit
  import opened SqlGuard

  function SkipSpaces(s: string): (r: string)
    ensures |r| <= |s|
    ensures s != [] && s[0] == ' ' ==> |r| < |s|
    ensures r != [] ==> r[0] != ' '
  {
    if s != [] && s[0] == ' ' then SkipSpaces(s[1..]) else s
  }

  /** The two texts differ at most in the lengths of their runs of spaces. */
  predicate Sim(s: string, t: string)
    decreases |s|
  {
    if s == [] || t == [] then s == t
    else if s[0] == ' ' then t[0] == ' ' && Sim(SkipSpaces(s), SkipSpaces(t))
    else s[0] == t[0] && Sim(s[1..], t[1..])
  }

  lemma {:induction false} SimSymmetric(s: string, t: string)
    requires Sim(s, t)
    ensures Sim(t, s)
    decreases |s|
  {
    if s != [] {
      if s[0] == ' ' { SimSymmetric(SkipSpaces(s), SkipSpaces(t)); } else { SimSymmetric(s[1..], t[1..]); }
    }
  }

  // ---- Prefixes without spaces ----

  predicate NoSpaces(s: string) { forall i | 0 <= i < |s| :: s[i] != ' ' }

  lemma {:induction false} SimPrefix(s: string, t: string, n: nat)
    requires Sim(s, t) && n <= |s| && NoSpaces(s[..n])
    ensures n <= |t| && s[..n] == t[..n] && Sim(s[n..], t[n..])
    decreases n
  {
    if n == 0 {
      assert s[0..] == s && t[0..] == t;
    } else {
      assert s[..n][0] == s[0] && s[..n][1..] == s[1..][..n - 1];
      SimPrefix(s[1..], t[1..], n - 1);
      assert s[n..] == s[1..][n - 1..] && t[n..] == t[1..][n - 1..];
      assert s[..n] == [s[0]] + s[1..][..n - 1] && t[..n] == [t[0]] + t[1..][..n - 1];
    }
  }

  lemma SimHead(s: string, t: string)
    requires Sim(s, t)
    ensures s == [] <==> t == []
    ensures s != [] ==> s[0] == t[0]
  {
  }

  lemma {:induction false} AlphaNoSpaces(s: string)
    ensures NoSpaces(s[..AlphaRun(s)])
  {
    if s != [] && IsAlpha(s[0]) {
      AlphaNoSpaces(s[1..]);
      assert s[..AlphaRun(s)] == [s[0]] + s[1..][..AlphaRun(s[1..])];
    }
  }

  lemma {:induction false} WordNoSpaces(s: string)
    ensures NoSpaces(s[..WordRun(s)])
  {
    if s != [] && IsWordChar(s[0]) {
      WordNoSpaces(s[1..]);
      assert s[..WordRun(s)] == [s[0]] + s[1..][..WordRun(s[1..])];
    }
  }

  lemma {:induction false} SimAlpha(s: string, t: string)
    requires Sim(s, t)
    ensures AlphaRun(s) == AlphaRun(t)
    decreases |s|
  {
    SimHead(s, t);
    if s != [] && IsAlpha(s[0]) { SimAlpha(s[1..], t[1..]); }
  }

  lemma {:induction false} SimWord(s: string, t: string)
    requires Sim(s, t)
    ensures WordRun(s) == WordRun(t)
    decreases |s|
  {
    SimHead(s, t);
    if s != [] && IsWordChar(s[0]) { SimWord(s[1..], t[1..]); }
  }

  // ---- Trimming and first words ----

  lemma {:induction false} TrimSkips(s: string)
    ensures TrimStart(SkipSpaces(s)) == TrimStart(s)
  {
    if s != [] && s[0] == ' ' { TrimSkips(s[1..]); }
  }

  lemma {:induction false} SimTrim(s: string, t: string)
    requires Sim(s, t)
    ensures Sim(TrimStart(s), TrimStart(t))
    decreases |s|
  {
    SimHead(s, t);
    if s != [] && IsWhitespace(s[0]) {
      if s[0] == ' ' {
        TrimSkips(s);
        TrimSkips(t);
        SimTrim(SkipSpaces(s), SkipSpaces(t));
      } else {
        SimTrim(s[1..], t[1..]);
      }
    }
  }

  lemma SimFirstWord(s: string, t: string)
    requires Sim(s, t)
    ensures FirstWord(s) == FirstWord(t)
  {
    SimTrim(s, t);
    var a, b := TrimStart(s), TrimStart(t);
    SimAlpha(a, b);
    AlphaNoSpaces(a);
    SimPrefix(a, b, AlphaRun(a));
  }

  lemma FirstWordLength(s: string)
    ensures |FirstWord(s)| == AlphaRun(TrimStart(s))
  {
  }

  /** The text behind the first word, before trimming. */
  lemma SimBehind(s: string, t: string)
    requires Sim(s, t)
    ensures |FirstWord(s)| == |FirstWord(t)|
    ensures Sim(TrimStart(s)[|FirstWord(s)|..], TrimStart(t)[|FirstWord(t)|..])
  {
    SimFirstWord(s, t);
    SimTrim(s, t);
    AlphaNoSpaces(TrimStart(s));
    FirstWordLength(s);
    SimPrefix(TrimStart(s), TrimStart(t), |FirstWord(s)|);
  }

  lemma SimAfter(s: string, t: string)
    requires Sim(s, t)
    ensures |FirstWord(s)| == |FirstWord(t)| && Sim(After(s, |FirstWord(s)|), After(t, |FirstWord(t)|))
  {
    SimBehind(s, t);
    SimTrim(TrimStart(s)[|FirstWord(s)|..], TrimStart(t)[|FirstWord(t)|..]);
  }

  lemma SimWordAfter(s: string, t: string)
    requires Sim(s, t)
    ensures |FirstWord(s)| == |FirstWord(t)| && WordAfter(s, |FirstWord(s)|) == WordAfter(t, |FirstWord(t)|)
  {
    SimAfter(s, t);
    var a, b := After(s, |FirstWord(s)|), After(t, |FirstWord(t)|);
    SimWord(a, b);
    WordNoSpaces(a);
    SimPrefix(a, b, WordRun(a));
  }

  // ---- has_word ----

  predicate Keyword(w: string) { w != [] && NoSpaces(w) }

  lemma WordHereSim(s: string, t: string, w: string)
    requires Sim(s, t) && Keyword(w) && WordHere(s, w)
    ensures WordHere(t, w)
  {
    var n := |w|;
    forall i | 0 <= i < n ensures s[..n][i] != ' ' {
      assert LowerAll(s[..n])[i] == w[i];
    }
    SimPrefix(s, t, n);
    SimHead(s[n..], t[n..]);
    if n < |t| { assert s[n..][0] == s[n] && t[n..][0] == t[n]; }
  }

  lemma NoWordAtSpace(s: string, w: string)
    requires Keyword(w) && s != [] && s[0] == ' '
    ensures !WordHere(s, w)
  {
    if |w| <= |s| { assert LowerAll(s[..|w|])[0] == ' '; }
  }

  lemma {:induction false} HasWordSkips(s: string, w: string, inWord: bool)
    requires Keyword(w) && s != [] && s[0] == ' '
    ensures HasWordFrom(s, w, inWord) == HasWordFrom(SkipSpaces(s), w, false)
    decreases |s|
  {
    NoWordAtSpace(s, w);
    if |s| > 1 && s[1] == ' ' { HasWordSkips(s[1..], w, false); }
  }

  lemma {:induction false} SimHasWord(s: string, t: string, w: string, inWord: bool)
    requires Sim(s, t) && Keyword(w)
    ensures HasWordFrom(s, w, inWord) == HasWordFrom(t, w, inWord)
    decreases |s|
  {
    SimHead(s, t);
    if s != [] {
      if s[0] == ' ' {
        HasWordSkips(s, w, inWord);
        HasWordSkips(t, w, inWord);
        SimHasWord(SkipSpaces(s), SkipSpaces(t), w, false);
      } else {
        SimSymmetric(s, t);
        if WordHere(s, w) { WordHereSim(s, t, w); }
        if WordHere(t, w) { WordHereSim(t, s, w); }
        SimHasWord(s[1..], t[1..], w, IsWordChar(s[0]));
      }
    }
  }

  lemma SimHasAny(s: string, t: string, ws: seq<string>)
    requires Sim(s, t) && forall w <- ws :: Keyword(w)
    ensures HasAnyWord(s, ws) == HasAnyWord(t, ws)
  {
    forall w <- ws ensures HasWord(s, w) == HasWord(t, w) { SimHasWord(s, t, w, false); }
  }

  // ---- The scanners ----

  lemma {:induction false} CopySkips(s: string, depth: int)
    ensures CopyScan(s, depth, "") == CopyScan(SkipSpaces(s), depth, "")
    decreases |s|
  {
    if s != [] && s[0] == ' ' { CopySkips(s[1..], depth); }
  }

  lemma {:induction false} SimCopy(s: string, t: string, depth: int, word: string)
    requires Sim(s, t)
    ensures CopyScan(s, depth, word) == CopyScan(t, depth, word)
    decreases |s|
  {
    SimHead(s, t);
    if s != [] {
      if s[0] == ' ' {
        CopySkips(s[1..], depth);
        CopySkips(t[1..], depth);
        SimCopy(SkipSpaces(s), SkipSpaces(t), depth, "");
      } else if s[0] == '(' {
        SimCopy(s[1..], t[1..], depth + 1, "");
      } else if s[0] == ')' {
        SimCopy(s[1..], t[1..], depth - 1, "");
      } else {
        SimCopy(s[1..], t[1..], depth, if IsWordChar(s[0]) then word + [Lower(s[0])] else "");
      }
    }
  }

  lemma {:induction false} UpdelSkips(s: string, p: Flags, u: bool)
    ensures UpdelScan(s, p, "", u) == UpdelScan(SkipSpaces(s), p, "", u)
    decreases |s|
  {
    if s != [] && s[0] == ' ' { UpdelSkips(s[1..], p, u); }
  }

  lemma {:induction false} SimUpdel(s: string, t: string, p: Flags, word: string, u: bool)
    requires Sim(s, t)
    ensures UpdelScan(s, p, word, u) == UpdelScan(t, p, word, u)
    decreases |s|
  {
    SimHead(s, t);
    if s != [] {
      var q := NoteWord(p, word);
      if s[0] == ' ' {
        UpdelSkips(s[1..], q, u);
        UpdelSkips(t[1..], q, u);
        SimUpdel(SkipSpaces(s), SkipSpaces(t), q, "", u);
      } else if IsWordChar(s[0]) {
        SimUpdel(s[1..], t[1..], p, word + [Lower(s[0])], u);
      } else if s[0] == '(' {
        SimUpdel(s[1..], t[1..], q + [false], "", u);
      } else if s[0] == ')' {
        SimUpdel(s[1..], t[1..], CloseLevel(q), "", u || q[|q| - 1]);
      } else {
        SimUpdel(s[1..], t[1..], q, "", u);
      }
    }
  }

  lemma {:induction false} ParensSkip(s: string, depth: int)
    ensures AfterParens(s, depth) == AfterParens(SkipSpaces(s), depth)
    decreases |s|
  {
    if s != [] && s[0] == ' ' { ParensSkip(s[1..], depth); }
  }

  lemma {:induction false} SimParens(s: string, t: string, depth: int)
    requires Sim(s, t)
    ensures Sim(AfterParens(s, depth), AfterParens(t, depth))
    decreases |s|
  {
    SimHead(s, t);
    if s != [] {
      if s[0] == ' ' {
        ParensSkip(s, depth);
        ParensSkip(t, depth);
        SimParens(SkipSpaces(s), SkipSpaces(t), depth);
      } else {
        SimParens(s[1..], t[1..], if s[0] == '(' then depth + 1 else if s[0] == ')' then depth - 1 else depth);
      }
    }
  }

  lemma SimSign(s: string, t: string)
    requires Sim(s, t)
    ensures Sim(DropSign(s), DropSign(t))
  {
    SimHead(s, t);
    if s != [] && s[0] == '=' { SimTrim(s[1..], t[1..]); }
  }

  lemma SimOption(s: string, t: string)
    requires Sim(s, t) && IsOption(FirstWord(s)) && IsOption(FirstWord(t))
    ensures Sim(DropOption(s), DropOption(t))
  {
    SimFirstWord(s, t);
    SimAfter(s, t);
    var a, b := DropSign(After(s, |FirstWord(s)|)), DropSign(After(t, |FirstWord(t)|));
    SimSign(After(s, |FirstWord(s)|), After(t, |FirstWord(t)|));
    SimFirstWord(a, b);
    SimAfter(a, b);
  }

  lemma {:induction false} SimOptions(s: string, t: string)
    requires Sim(s, t)
    ensures Sim(DropOptions(s), DropOptions(t))
    decreases |s|
  {
    hide IsOption, FirstWord, DropOption;
    SimFirstWord(s, t);
    if IsOption(FirstWord(s)) {
      SimOption(s, t);
      OptionShortens(s);
      SimOptions(DropOption(s), DropOption(t));
    }
  }

  lemma OptionShortens(s: string)
    requires IsOption(FirstWord(s))
    ensures |DropOption(s)| < |s|
  {
  }

  lemma SimStrip(s: string, t: string)
    requires Sim(s, t)
    ensures Sim(StripExplain(s), StripExplain(t))
  {
    hide DropOptions, AfterParens, FirstWord, After;
    SimAfter(s, t);
    var a, b := DropOptions(After(s, |FirstWord(s)|)), DropOptions(After(t, |FirstWord(t)|));
    SimOptions(After(s, |FirstWord(s)|), After(t, |FirstWord(t)|));
    SimHead(a, b);
    SimParens(a, b, 0);
    SimTrim(AfterParens(a, 0), AfterParens(b, 0));
  }

  // ---- The verdicts ----

  lemma SimCopyWrites(s: string, t: string)
    requires Sim(s, t) && FirstWord(s) == "copy"
    ensures CopyWrites(s) == CopyWrites(t)
  {
    SimFirstWord(s, t);
    SimBehind(s, t);
    SimCopy(TrimStart(s)[4..], TrimStart(t)[4..], 0, "");
  }

  lemma SimStatementWrite(s: string, t: string, k: Keywords)
    requires Sim(s, t)
    ensures StatementIsWrite(s, k) == StatementIsWrite(t, k)
    decreases |s|
  {
    hide FirstWord, WordAfter, HasWordFrom, HasAnyWord, CopyWrites, StripExplain, NoSpaces, TrimStart;
    SimFirstWord(s, t);
    var kw := FirstWord(s);
    if kw in k.write {
    } else if kw == "set" || kw == "start" {
      SimWordAfter(s, t);
    } else if kw == "with" {
      Verbs();
      SimHasAny(s, t, ["insert", "update", "delete", "merge"]);
    } else if kw == "copy" {
      SimCopyWrites(s, t);
    } else if kw == "prepare" {
      SimBehind(s, t);
      MoreVerbs();
      SimHasAny(TrimStart(s)[|kw|..], TrimStart(t)[|kw|..],
                ["insert", "update", "delete", "merge", "create", "drop", "alter", "truncate"]);
    } else if kw == "select" {
      Into();
      SimHasWord(s, t, "into", false);
    } else if kw == "explain" || kw == "describe" || kw == "desc" {
      SimStrip(s, t);
      SimStatementWrite(StripExplain(s), StripExplain(t), k);
    }
  }

  lemma Into()
    ensures Keyword("into") && Keyword("full") && Keyword("concurrently")
  {
  }

  lemma Verbs()
    ensures forall w <- ["insert", "update", "delete", "merge"] :: Keyword(w)
  {
  }

  lemma MoreVerbs()
    ensures forall w <- ["insert", "update", "delete", "merge", "create", "drop", "alter", "truncate"] :: Keyword(w)
  {
  }

  lemma SystemVerbs()
    ensures forall w <- ["shutdown", "kill", "restart", "restore", "drop", "stop"] :: Keyword(w)
  {
  }

  lemma SimStatementDangerous(s: string, t: string, k: Keywords)
    requires Sim(s, t)
    ensures StatementIsDangerous(s, k) == StatementIsDangerous(t, k)
  {
    hide FirstWord, HasWordFrom, HasAnyWord, NoSpaces;
    SimFirstWord(s, t);
    Into();
    SystemVerbs();
    SimHasWord(s, t, "full", false);
    SimHasWord(s, t, "concurrently", false);
    SimHasAny(s, t, ["shutdown", "kill", "restart", "restore", "drop", "stop"]);
  }

  lemma SimUnfiltered(s: string, t: string)
    requires Sim(s, t)
    ensures UnfilteredUpdel(s) == UnfilteredUpdel(t)
  {
    SimFirstWord(s, t);
    SimUpdel(s, t, [false], "", false);
  }

  // ---- Splitting ----

  lemma SeparatorStep(s: string)
    ensures FirstSeparator(s) == if s == [] || s[0] == ';' then 0 else 1 + FirstSeparator(s[1..])
  {
  }

  lemma SimNothing()
    ensures Sim([], [])
  {
  }

  lemma SimStep(s: string, t: string)
    requires Sim(s, t) && s != [] && t != []
    ensures s[0] == t[0] && (if s[0] == ' ' then Sim(SkipSpaces(s), SkipSpaces(t)) else Sim(s[1..], t[1..]))
  {
  }

  lemma SimSpaces(s: string, t: string)
    requires s != [] && t != [] && s[0] == t[0] == ' ' && Sim(SkipSpaces(s), SkipSpaces(t))
    ensures Sim(s, t)
  {
  }

  lemma SimCons(s: string, t: string)
    requires s != [] && t != [] && s[0] == t[0] != ' ' && Sim(s[1..], t[1..])
    ensures Sim(s, t)
  {
  }

  lemma {:induction false} SimSeparator(s: string, t: string)
    requires Sim(s, t)
    ensures var m, n := FirstSeparator(s), FirstSeparator(t);
            && (m == |s| <==> n == |t|) && Sim(s[..m], t[..n])
            && (m < |s| ==> Sim(s[m + 1..], t[n + 1..]))
    decreases |s|
  {
    hide SkipSpaces, FirstSeparator, Sim;
    SimHead(s, t);
    SeparatorStep(s);
    SeparatorStep(t);
    if s == [] || s[0] == ';' {
      assert s[..0] == t[..0] == [];
      SimNothing();
      if s != [] { SimStep(s, t); }
    } else {
      SimStep(s, t);
      if s[0] == ' ' {
        SkipSeparator(s);
        SkipSeparator(t);
        SimSeparator(SkipSpaces(s), SkipSpaces(t));
        var m, n := FirstSeparator(s), FirstSeparator(t);
        SimSpaces(s[..m], t[..n]);
      } else {
        SimSeparator(s[1..], t[1..]);
        var m, n := FirstSeparator(s), FirstSeparator(t);
        assert s[..m][1..] == s[1..][..m - 1] && t[..n][1..] == t[1..][..n - 1];
        SimCons(s[..m], t[..n]);
        if m < |s| { assert s[1..][m..] == s[m + 1..] && t[1..][n..] == t[n + 1..]; }
      }
    }
  }

  /** The first part of a text that starts with spaces, and of the text without them. */
  lemma {:induction false} SkipSeparator(s: string)
    requires s != [] && s[0] == ' '
    ensures var r := SkipSpaces(s); var m, n := FirstSeparator(s), FirstSeparator(r);
            && (m == |s| <==> n == |r|) && m > 0 && SkipSpaces(s[..m]) == r[..n]
            && (m < |s| ==> s[m + 1..] == r[n + 1..])
    decreases |s|
  {
    var m := FirstSeparator(s);
    assert s[..m][1..] == s[1..][..m - 1];
    if m < |s| { assert s[1..][m..] == s[m + 1..]; }
    if |s| > 1 && s[1] == ' ' {
      SkipSeparator(s[1..]);
    } else {
      assert SkipSpaces(s) == s[1..];
      var p := s[1..][..m - 1];
      assert SkipSpaces(p) == p;
    }
  }

  ghost predicate SimParts(a: seq<string>, b: seq<string>) {
    |a| == |b| && forall i | 0 <= i < |a| :: Sim(a[i], b[i])
  }

  lemma {:induction false} SimSplit(s: string, t: string)
    requires Sim(s, t)
    ensures SimParts(Split(s), Split(t))
    decreases |s|
  {
    hide Sim, FirstSeparator;
    var m, n := FirstSeparator(s), FirstSeparator(t);
    SimSeparator(s, t);
    if m < |s| { SimSplit(s[m + 1..], t[n + 1..]); }
  }
}
