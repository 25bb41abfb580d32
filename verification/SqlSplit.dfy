/** `split_aligned` of src-tauri/src/sqlguard.rs: raw and blanked text cut at the same separators. */
module SqlSplit {
  import opened Common
  import opened SqlBlank
  import opened SqlBlankFacts

  /** The index of the first separator, or the length. */
  function FirstSeparator(s: string): (n: nat)
    ensures n <= |s|
    ensures n < |s| ==> s[n] == ';'
    ensures forall i | 0 <= i < n :: s[i] != ';'
  {
    if s == [] || s[0] == ';' then 0 else 1 + FirstSeparator(s[1..])
  }

  /** `blanked.split(';')` */
  function Split(s: string): (parts: seq<string>)
    ensures parts != []
    decreases |s|
  {
    var n := FirstSeparator(s);
    if n == |s| then [s] else [s[..n]] + Split(s[n + 1..])
  }

  /** Both texts, cut at the separators of the second. */
  function SplitPairs(raw: string, blanked: string): (parts: seq<(string, string)>)
    requires |raw| == |blanked|
    ensures parts != []
    decreases |blanked|
  {
    var n := FirstSeparator(blanked);
    if n == |blanked| then [(raw, blanked)]
    else [(raw[..n], blanked[..n])] + SplitPairs(raw[n + 1..], blanked[n + 1..])
  }

  function Rejoin(parts: seq<(string, string)>): string
    requires parts != []
  {
    if |parts| == 1 then parts[0].0 else parts[0].0 + ";" + Rejoin(parts[1..])
  }

  lemma NoSeparatorBefore(s: string, from: nat, to: nat)
    requires from <= to <= |s| && forall i | from <= i < to :: s[i] != ';'
    requires to == |s| || s[to] == ';'
    ensures FirstSeparator(s[from..]) == to - from
  {
    assert forall k | 0 <= k < |s| - from :: s[from..][k] == s[from + k];
  }

  method SplitAligned(raw: string, blanked: string) returns (out: seq<(string, string)>)
    requires |raw| == |blanked|
    ensures out == SplitPairs(raw, blanked)
  {
    hide SplitPairs;
    out := [];
    var start := 0;
    assert raw[0..] == raw && blanked[0..] == blanked;
    for i := 0 to |blanked|
      invariant start <= i && forall k | start <= k < i :: blanked[k] != ';'
      invariant out + SplitPairs(raw[start..], blanked[start..]) == SplitPairs(raw, blanked)
    {
      if blanked[i] == ';' {
        NoSeparatorBefore(blanked, start, i);
        CutHere(raw, blanked, start, i);
        Assoc(out, [(raw[start..i], blanked[start..i])], SplitPairs(raw[i + 1..], blanked[i + 1..]));
        out := out + [(raw[start..i], blanked[start..i])];
        start := i + 1;
      }
    }
    NoSeparatorBefore(blanked, start, |blanked|);
    LastPart(raw[start..], blanked[start..]);
    out := out + [(raw[start..], blanked[start..])];
  }

  lemma LastPart(raw: string, blanked: string)
    requires |raw| == |blanked| == FirstSeparator(blanked)
    ensures SplitPairs(raw, blanked) == [(raw, blanked)]
  {
  }

  lemma FirstPart(raw: string, blanked: string)
    requires |raw| == |blanked| && FirstSeparator(blanked) < |blanked|
    ensures var n := FirstSeparator(blanked);
            SplitPairs(raw, blanked) == [(raw[..n], blanked[..n])] + SplitPairs(raw[n + 1..], blanked[n + 1..])
  {
  }

  lemma CutHere(raw: string, blanked: string, start: nat, i: nat)
    requires |raw| == |blanked| && start <= i < |raw| && FirstSeparator(blanked[start..]) == i - start
    ensures SplitPairs(raw[start..], blanked[start..])
         == [(raw[start..i], blanked[start..i])] + SplitPairs(raw[i + 1..], blanked[i + 1..])
  {
    hide SplitPairs, FirstSeparator;
    FirstPart(raw[start..], blanked[start..]);
    SliceSlice(raw, start, 0, i - start);
    SliceSlice(blanked, start, 0, i - start);
    SliceSlice(raw, start, 0, i - start + 1);
    SliceSlice(blanked, start, 0, i - start + 1);
  }

  /** Putting the raw parts back with separators restores the text. */
  lemma {:induction false} RejoinRestores(raw: string, blanked: string)
    requires |raw| == |blanked| && forall i | 0 <= i < |raw| :: blanked[i] == ';' ==> raw[i] == ';'
    ensures Rejoin(SplitPairs(raw, blanked)) == raw
    decreases |raw|
  {
    hide SplitPairs, Rejoin;
    var n := FirstSeparator(blanked);
    if n == |raw| {
      LastPart(raw, blanked);
      RejoinLast(raw, blanked);
    } else {
      var raw', blanked' := raw[n + 1..], blanked[n + 1..];
      assert forall i | 0 <= i < |raw'| :: blanked'[i] == blanked[n + 1 + i] && raw'[i] == raw[n + 1 + i];
      RejoinRestores(raw', blanked');
      FirstPart(raw, blanked);
      RejoinCons(raw[..n], blanked[..n], SplitPairs(raw', blanked'));
      assert raw == raw[..n] + ";" + raw';
    }
  }

  lemma RejoinLast(raw: string, blanked: string)
    ensures Rejoin([(raw, blanked)]) == raw
  {
  }

  lemma RejoinCons(raw: string, blanked: string, parts: seq<(string, string)>)
    requires parts != []
    ensures Rejoin([(raw, blanked)] + parts) == raw + ";" + Rejoin(parts)
  {
    assert ([(raw, blanked)] + parts)[1..] == parts;
  }

  lemma BlankedSeparators(s: string, d: Dialect)
    ensures forall i | 0 <= i < |s| :: Blank(s, d)[i] == ';' ==> s[i] == ';'
  {
    forall i | 0 <= i < |s| ensures Blank(s, d)[i] == ';' ==> s[i] == ';' {
      Survives(s, d, i);
    }
  }

  lemma AppendAt(a: string, b: string, i: nat)
    requires i < |a| + |b|
    ensures (a + b)[i] == if i < |a| then a[i] else b[i - |a|]
  {
  }

  /** A character that survives is read at a live position. */
  lemma {:induction false} SurvivorIsLive(s: string, d: Dialect, i: nat)
    requires i < |s| && Blank(s, d)[i] != ' '
    ensures Reaches(s, i, d)
    decreases |s|
  {
    if i > 0 {
      var n := TokenLength(s, d);
      BlankUnroll(s, d);
      AppendAt(Written(s, d), Blank(s[n..], d), i);
      assert n <= i;
      SurvivorIsLive(s[n..], d, i - n);
    }
  }

  /** The parts a script is cut into: blanking one on its own gives its blanked part. */
  lemma {:induction false} PartsBlankAlone(s: string, d: Dialect)
    ensures forall part <- SplitPairs(s, Blank(s, d)) :: part.1 == Blank(part.0, d)
    decreases |s|
  {
    var b := Blank(s, d);
    var n := FirstSeparator(b);
    if n < |s| {
      FirstPartAlone(s, d);
      PartsBlankAlone(s[n + 1..], d);
    }
  }

  lemma FirstPartAlone(s: string, d: Dialect)
    requires FirstSeparator(Blank(s, d)) < |s|
    ensures var n := FirstSeparator(Blank(s, d));
            && s == s[..n] + ";" + s[n + 1..] && EndsInCode(s[..n], d)
            && Blank(s, d)[..n] == Blank(s[..n], d) && Blank(s, d)[n + 1..] == Blank(s[n + 1..], d)
  {
    hide Blank, Reaches;
    var n := FirstSeparator(Blank(s, d));
    var a, rest := s[..n], s[n + 1..];
    SurvivorIsLive(s, d, n);
    Survives(s, d, n);
    assert s == a + ";" + rest;
    assert (a + ";")[..n] == a == s[..n];
    ReachStable(s, a + ";", n, d);
    Compositional(a, rest, d);
    assert Blank(s, d) == Blank(a, d) + ";" + Blank(rest, d);
  }

  /** The parts with their raw text forgotten. */
  function Seconds(parts: seq<(string, string)>): seq<string> {
    if parts == [] then [] else [parts[0].1] + Seconds(parts[1..])
  }

  /** Splitting the blanked text alone gives the second parts. */
  lemma {:induction false} SplitIsSeconds(raw: string, blanked: string)
    requires |raw| == |blanked|
    ensures Split(blanked) == Seconds(SplitPairs(raw, blanked))
    decreases |blanked|
  {
    var n := FirstSeparator(blanked);
    var parts := SplitPairs(raw, blanked);
    if n < |blanked| {
      SplitIsSeconds(raw[n + 1..], blanked[n + 1..]);
      assert parts[1..] == SplitPairs(raw[n + 1..], blanked[n + 1..]);
    } else {
      assert parts[1..] == [];
    }
  }

  lemma SplitFirst(s: string, n: nat)
    requires n < |s| && s[n] == ';' && forall i | 0 <= i < n :: s[i] != ';'
    ensures Split(s) == [s[..n]] + Split(s[n + 1..])
  {
    NoSeparatorBefore(s, 0, n);
    assert s[0..] == s;
  }

  lemma SliceAround(a: string, b: string, n: nat)
    requires n <= |a|
    ensures (a + ";" + b)[..n] == a[..n] && forall i | 0 <= i < |a| :: (a + ";" + b)[i] == a[i]
    ensures n < |a| ==> (a + ";" + b)[n + 1..] == a[n + 1..] + ";" + b
    ensures (a + ";" + b)[|a|] == ';' && (a + ";" + b)[|a| + 1..] == b
  {
  }

  /** Splitting around a separator splits both sides. */
  lemma {:induction false} SplitAppend(a: string, b: string)
    ensures Split(a + ";" + b) == Split(a) + Split(b)
    decreases |a|
  {
    var n := FirstSeparator(a);
    SliceAround(a, b, n);
    SplitFirst(a + ";" + b, n);
    if n < |a| {
      SplitAppend(a[n + 1..], b);
      Assoc([a[..n]], Split(a[n + 1..]), Split(b));
    } else {
      assert a[..n] == a;
    }
  }
}
