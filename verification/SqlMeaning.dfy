/** What makes a blanked statement a write, a danger or an unfiltered write, said over the places of its words. */
module SqlMeaning {
  import opened Common
  import opened Text
  import opened SqlBlank
  import opened SqlGuard
  import opened SqlGuardLoops
  import opened SqlGuardMeaning
  import opened SqlExplain
  import opened SqlUnfiltered

  // ---- Where words stand ----

  /** `w` is written at `i`, in any letter case. */
  predicate Written(s: string, w: string, i: int) {
    0 <= i && i + |w| <= |s| && forall j | 0 <= j < |w| :: Lower(s[i + j]) == w[j]
  }

  /** It is a whole word there. */
  predicate WordAt(s: string, w: string, i: int) {
    && Written(s, w, i) && (i > 0 ==> !IsWordChar(s[i - 1]))
    && (i + |w| < |s| ==> !IsWordChar(s[i + |w|]))
  }

  ghost predicate Mentions(s: string, w: string) { exists i :: WordAt(s, w, i) }

  /** One of the words stands at or behind `from`. */
  ghost predicate MentionsOneOf(s: string, ws: set<string>, from: int) {
    exists w, i :: w in ws && from <= i && WordAt(s, w, i)
  }

  /** Behind nothing but white space, `w` is written at `n` in letters, and no letter follows. */
  predicate LeadsAt(s: string, w: string, n: int) {
    && w != [] && Written(s, w, n) && AllBlank(s[..n]) && AllAlpha(s[n..n + |w|])
    && (n + |w| < |s| ==> !IsAlpha(s[n + |w|]))
  }

  ghost predicate Leads(s: string, w: string) { exists n :: LeadsAt(s, w, n) }

  /** Behind nothing but white space from `m` on, `v` is a whole run of word characters at `p`. */
  predicate NextAt(s: string, m: int, v: string, p: int) {
    && 0 <= m <= p && v != [] && Written(s, v, p) && AllBlank(s[m..p])
    && (forall j | p <= j < p + |v| :: IsWordChar(s[j])) && (p + |v| < |s| ==> !IsWordChar(s[p + |v|]))
  }

  /** The word after the first `m` characters is `v`. */
  ghost predicate Next(s: string, m: int, v: string) { exists p :: NextAt(s, m, v, p) }

  // ---- The functions find the words ----

  lemma WrittenIs(s: string, w: string, i: nat)
    requires i <= |s|
    ensures WordAt(s, w, i) <==> WholeWordAt(s, w, i)
  {
    var t := s[i..];
    if |w| <= |t| {
      assert forall j | 0 <= j < |w| :: t[..|w|][j] == s[i + j];
    }
  }

  lemma MentionMeans(s: string, w: string)
    ensures HasWord(s, w) <==> Mentions(s, w)
  {
    hide HasWord, WholeWordAt;
    HasWordMeans(s, w);
    forall i | 0 <= i <= |s| ensures WordAt(s, w, i) <==> WholeWordAt(s, w, i) { WrittenIs(s, w, i); }
  }

  lemma {:induction false} TrimIsSuffix(s: string)
    ensures var n := |s| - |TrimStart(s)|; 0 <= n && AllBlank(s[..n]) && TrimStart(s) == s[n..]
  {
    if s != [] && IsWhitespace(s[0]) {
      TrimIsSuffix(s[1..]);
      var n := |s| - |TrimStart(s)|;
      assert s[..n] == [s[0]] + s[1..][..n - 1];
    }
  }

  lemma {:induction false} AlphaRunIs(s: string)
    ensures var n := AlphaRun(s); AllAlpha(s[..n]) && (n < |s| ==> !IsAlpha(s[n]))
  {
    if s != [] && IsAlpha(s[0]) {
      AlphaRunIs(s[1..]);
      var n := AlphaRun(s);
      assert s[..n] == [s[0]] + s[1..][..n - 1];
    }
  }

  lemma {:induction false} WordRunIs(s: string)
    ensures var n := WordRun(s); (forall i | 0 <= i < n :: IsWordChar(s[i])) && (n < |s| ==> !IsWordChar(s[n]))
  {
    if s != [] && IsWordChar(s[0]) {
      WordRunIs(s[1..]);
      var n := WordRun(s);
      assert forall i | 1 <= i < n :: s[i] == s[1..][i - 1];
    }
  }

  lemma {:induction false} WordRunTo(s: string, n: nat)
    requires n <= |s| && (forall i | 0 <= i < n :: IsWordChar(s[i])) && (n < |s| ==> !IsWordChar(s[n]))
    ensures WordRun(s) == n
  {
    if n > 0 {
      assert forall i | 0 <= i < n - 1 :: s[1..][i] == s[i + 1];
      WordRunTo(s[1..], n - 1);
    }
  }

  lemma WrittenLower(s: string, w: string, i: nat)
    requires i + |w| <= |s|
    ensures Written(s, w, i) <==> LowerAll(s[i..i + |w|]) == w
  {
    var r := LowerAll(s[i..i + |w|]);
    assert forall j | 0 <= j < |w| :: r[j] == Lower(s[i + j]);
  }

  lemma InThree(s: string, n: nat, m: nat)
    requires n <= m <= |s|
    ensures s == s[..n] + (s[n..m] + s[m..]) && s[n..] == s[n..m] + s[m..]
  {
  }

  lemma Parts(s: string, w: string, n: int) returns (lead: string, x: string, rest: string)
    requires LeadsAt(s, w, n)
    ensures 0 <= n <= |s| && s == lead + (x + rest) && s[n..] == x + rest && LowerAll(x) == w
    ensures AllBlank(lead) && x != [] && AllAlpha(x) && NoLetter(rest)
  {
    lead, x, rest := s[..n], s[n..n + |w|], s[n + |w|..];
    WrittenLower(s, w, n);
    hide LowerAll, AllBlank, AllAlpha, Written;
    InThree(s, n, n + |w|);
  }

  lemma PartsLead(lead: string, x: string, rest: string)
    requires AllBlank(lead) && x != [] && AllAlpha(x) && NoLetter(rest)
    ensures FirstWord(lead + (x + rest)) == LowerAll(x) && TrimStart(lead + (x + rest)) == x + rest
  {
    hide AllBlank, AllAlpha, NoLetter, FirstWord, TrimStart, LowerAll;
    FirstWordOf(lead, x, rest);
    WordTrimmed(x, rest);
    TrimBlanks(lead, x + rest);
  }

  /** What leads is the first word. */
  lemma LeadIsFirst(s: string, w: string, n: int)
    requires LeadsAt(s, w, n)
    ensures FirstWord(s) == w && TrimStart(s) == s[n..]
  {
    hide *;
    var lead, x, rest := Parts(s, w, n);
    PartsLead(lead, x, rest);
  }

  /** The first word leads. */
  lemma FirstLeads(s: string) returns (n: nat)
    requires FirstWord(s) != []
    ensures n <= |s| && n == |s| - |TrimStart(s)| && LeadsAt(s, FirstWord(s), n)
  {
    var t := TrimStart(s);
    n := |s| - |t|;
    TrimIsSuffix(s);
    AlphaRunIs(t);
    var m := AlphaRun(t);
    assert FirstWord(s) == LowerAll(t[..m]) && s[n..n + m] == t[..m];
    WrittenLower(s, FirstWord(s), n);
    if n + m < |s| { assert s[n + m] == t[m]; }
  }

  lemma LeadMeans(s: string, w: string)
    requires w != []
    ensures FirstWord(s) == w <==> Leads(s, w)
  {
    hide FirstWord, LeadsAt;
    if FirstWord(s) == w { var n := FirstLeads(s); }
    if n :| LeadsAt(s, w, n) { LeadIsFirst(s, w, n); }
  }

  lemma LeadFits(s: string, w: string, n: int)
    requires LeadsAt(s, w, n)
    ensures 0 <= n && n + |w| <= |s|
  {
  }

  /** The second word is the one that stands next. */
  lemma NextMeans(s: string, w: string, n: int, v: string)
    requires LeadsAt(s, w, n) && v != []
    ensures |w| <= |TrimStart(s)| && (WordAfter(s, |w|) == v <==> Next(s, n + |w|, v))
  {
    hide *;
    LeadIsFirst(s, w, n);
    LeadFits(s, w, n);
    AfterIs(s, n, |w|);
    AfterMeans(s, n + |w|, v);
  }

  /** The word after is the run of word characters behind white space. */
  lemma AfterIs(s: string, n: nat, k: nat)
    requires n + k <= |s| && TrimStart(s) == s[n..]
    ensures k <= |TrimStart(s)|
    ensures var t := TrimStart(s[n + k..]); WordAfter(s, k) == LowerAll(t[..WordRun(t)])
  {
    hide TrimStart, WordRun, LowerAll;
    assert s[n..][k..] == s[n + k..];
  }

  lemma AfterMeans(s: string, m: nat, v: string)
    requires m <= |s| && v != []
    ensures var t := TrimStart(s[m..]); LowerAll(t[..WordRun(t)]) == v <==> Next(s, m, v)
  {
    hide TrimStart, WordRun, LowerAll, NextAt;
    var t := TrimStart(s[m..]);
    if LowerAll(t[..WordRun(t)]) == v { RunIsNext(s, m, v); }
    if q :| NextAt(s, m, v, q) { NextIsRun(s, m, v, q); }
  }

  lemma RunIsNext(s: string, m: nat, v: string)
    requires m <= |s| && v != [] && var t := TrimStart(s[m..]); LowerAll(t[..WordRun(t)]) == v
    ensures Next(s, m, v)
  {
    var u := s[m..];
    var t := TrimStart(u);
    TrimIsSuffix(u);
    WordRunIs(t);
    hide TrimStart, WordRun, AllBlank, IsWordChar;
    StandsNext(s, m, |s| - |t|, t, v, WordRun(t));
  }

  lemma StandsNext(s: string, m: nat, p: nat, t: string, v: string, r: nat)
    requires m <= p <= |s| && t == s[p..] && r <= |t| && LowerAll(t[..r]) == v != []
    requires AllBlank(s[m..][..p - m])
    requires (forall i | 0 <= i < r :: IsWordChar(t[i])) && (r < |t| ==> !IsWordChar(t[r]))
    ensures Next(s, m, v)
  {
    hide IsWordChar, AllBlank;
    SliceSlice(s, p, 0, r);
    SliceSlice(s, m, 0, p - m);
    WrittenLower(s, v, p);
    hide LowerAll, Written;
    assert forall j | p <= j < p + r :: s[j] == t[j - p];
    if p + r < |s| { assert s[p + r] == t[r]; }
    assert NextAt(s, m, v, p);
  }

  lemma NextIsRun(s: string, m: nat, v: string, q: int)
    requires m <= |s| && NextAt(s, m, v, q)
    ensures var t := TrimStart(s[m..]); LowerAll(t[..WordRun(t)]) == v
  {
    WordStartsAt(s, m, v, q);
    WrittenLower(s, v, q);
    assert s[q..q + |v|] == s[q..][..|v|];
  }

  lemma WordStartsAt(s: string, m: nat, v: string, q: int)
    requires m <= |s| && NextAt(s, m, v, q)
    ensures TrimStart(s[m..]) == s[q..] && WordRun(s[q..]) == |v|
  {
    var r := s[q..];
    assert s[m..] == s[m..q] + r;
    assert forall i | 0 <= i < |v| :: r[i] == s[q + i];
    assert IsWordChar(r[0]);
    TrimBlanks(s[m..q], r);
    WordRunTo(r, |v|);
  }

  /** Behind a leading word, the words of the rest are those of the statement. */
  lemma BehindMeans(s: string, v: string, n: int, w: string)
    requires LeadsAt(s, v, n) && w != [] && AllAlpha(w)
    ensures |v| <= |TrimStart(s)|
    ensures HasWord(TrimStart(s)[|v|..], w) <==> exists i :: n + |v| <= i && WordAt(s, w, i)
  {
    var m := n + |v|;
    LeadIsFirst(s, v, n);
    var r := s[m..];
    assert s[n..][|v|..] == r;
    assert IsAlpha(s[m - 1]) by { assert s[m - 1] == s[n..n + |v|][|v| - 1]; }
    hide LeadsAt, HasWord, FirstWord, TrimStart;
    MentionMeans(r, w);
    forall i | 0 <= i <= |r| ensures WordAt(r, w, i) <==> WordAt(s, w, m + i) { SameWord(s, m, w, i); }
    if i :| m <= i && WordAt(s, w, i) { assert WordAt(r, w, i - m); }
    if i :| WordAt(r, w, i) { assert WordAt(s, w, m + i); }
  }

  lemma SameWord(s: string, m: nat, w: string, i: nat)
    requires 0 < m <= |s| && i <= |s| - m && w != [] && AllAlpha(w) && IsAlpha(s[m - 1])
    requires m < |s| ==> !IsAlpha(s[m])
    ensures WordAt(s[m..], w, i) <==> WordAt(s, w, m + i)
  {
    var r := s[m..];
    assert forall j | 0 <= j < |r| :: r[j] == s[m + j];
    if i == 0 && m < |s| { assert IsAlpha(w[0]) && Lower(s[m]) != w[0]; }
  }

  lemma AnyMeans(s: string, ws: seq<string>, words: set<string>)
    requires forall w :: w in ws <==> w in words
    ensures HasAnyWord(s, ws) <==> MentionsOneOf(s, words, 0)
  {
    hide HasWord, WordAt;
    forall w ensures HasWord(s, w) <==> Mentions(s, w) { MentionMeans(s, w); }
    forall w, i | WordAt(s, w, i) ensures 0 <= i { NotBefore(s, w, i); }
    if w, i :| w in words && 0 <= i && WordAt(s, w, i) { assert w in ws && Mentions(s, w); }
    if w :| w in ws && HasWord(s, w) {
      assert Mentions(s, w);
      var i :| WordAt(s, w, i);
      assert w in words && 0 <= i;
    }
  }

  lemma NotBefore(s: string, w: string, i: int)
    requires WordAt(s, w, i)
    ensures 0 <= i
  {
  }

  lemma AnyBehindMeans(s: string, v: string, n: int, ws: seq<string>, words: set<string>)
    requires LeadsAt(s, v, n) && forall w :: w in ws <==> w in words
    requires forall w <- ws :: w != [] && AllAlpha(w)
    ensures |v| <= |TrimStart(s)|
    ensures HasAnyWord(TrimStart(s)[|v|..], ws) <==> MentionsOneOf(s, words, n + |v|)
  {
    LeadIsFirst(s, v, n);
    hide HasWord, WordAt, LeadsAt, TrimStart, AllAlpha, FirstWord;
    var r := TrimStart(s)[|v|..];
    forall w | w in ws
      ensures HasWord(r, w) <==> exists i :: n + |v| <= i && WordAt(s, w, i)
    {
      BehindMeans(s, v, n, w);
    }
    if w, i :| w in words && n + |v| <= i && WordAt(s, w, i) { assert w in ws && HasWord(r, w); }
  }

  // ---- A statement that writes ----

  const MODIFIERS: set<string> := {"insert", "update", "delete", "merge"}
  const PAYLOADS: set<string> :=
    {"insert", "update", "delete", "merge", "create", "drop", "alter", "truncate"}
  const SCOPES: set<string> := {"global", "persist", "persist_only"}
  const EXPLAINERS: set<string> := {"explain", "describe", "desc"}

  /** The statement that `w` leads from `n` writes: for each word, what else must stand where. */
  ghost predicate WritesLed(s: string, w: string, n: int, k: Keywords)
    requires LeadsAt(s, w, n)
    decreases |s|, 0
  {
    || w in k.write
    || (w == "set" && exists v :: v in SCOPES && Next(s, n + |w|, v))
    || (w == "start" && !Next(s, n + |w|, "transaction"))
    || (w == "with" && MentionsOneOf(s, MODIFIERS, 0))
    || (w == "copy" && FromFirst(s[n + |w|..], 0))
    || (w == "prepare" && MentionsOneOf(s, PAYLOADS, n + |w|))
    || (w == "select" && Mentions(s, "into"))
    || (w in EXPLAINERS && |StripExplain(s)| < |s| && Writes(StripExplain(s), k))
  }

  ghost predicate Writes(s: string, k: Keywords)
    decreases |s|, 1
  {
    exists w, n :: LeadsAt(s, w, n) && WritesLed(s, w, n, k)
  }

  lemma SetWrites(s: string, w: string, n: int, k: Keywords)
    requires LeadsAt(s, w, n) && w == "set" && w !in k.write
    ensures StatementIsWrite(s, k) <==> WritesLed(s, w, n, k)
  {
    LeadIsFirst(s, w, n);
    hide LeadsAt, FirstWord, WordAfter, Next;
    NextMeans(s, w, n, "global");
    NextMeans(s, w, n, "persist");
    NextMeans(s, w, n, "persist_only");
  }

  lemma StartWrites(s: string, w: string, n: int, k: Keywords)
    requires LeadsAt(s, w, n) && w == "start" && w !in k.write
    ensures StatementIsWrite(s, k) <==> WritesLed(s, w, n, k)
  {
    LeadIsFirst(s, w, n);
    hide LeadsAt, FirstWord, WordAfter, Next;
    NextMeans(s, w, n, "transaction");
  }

  lemma WithWrites(s: string, w: string, n: int, k: Keywords)
    requires LeadsAt(s, w, n) && w == "with" && w !in k.write
    ensures StatementIsWrite(s, k) <==> WritesLed(s, w, n, k)
  {
    LeadIsFirst(s, w, n);
    hide LeadsAt, FirstWord, HasAnyWord, MentionsOneOf;
    AnyMeans(s, ["insert", "update", "delete", "merge"], MODIFIERS);
  }

  lemma CopyLedWrites(s: string, w: string, n: int, k: Keywords)
    requires LeadsAt(s, w, n) && w == "copy" && w !in k.write
    ensures StatementIsWrite(s, k) <==> WritesLed(s, w, n, k)
  {
    LeadIsFirst(s, w, n);
    assert s[n..][4..] == s[n + |w|..];
    hide LeadsAt, FirstWord, CopyWrites, FromFirst, TrimStart;
    CopyMeans(s);
  }

  lemma PrepareWrites(s: string, w: string, n: int, k: Keywords)
    requires LeadsAt(s, w, n) && w == "prepare" && w !in k.write
    ensures StatementIsWrite(s, k) <==> WritesLed(s, w, n, k)
  {
    LeadIsFirst(s, w, n);
    hide LeadsAt, FirstWord, HasAnyWord, MentionsOneOf, TrimStart, AllAlpha;
    var ws := ["insert", "update", "delete", "merge", "create", "drop", "alter", "truncate"];
    PayloadWords(ws);
    AnyBehindMeans(s, w, n, ws, PAYLOADS);
  }

  lemma PayloadWords(ws: seq<string>)
    requires ws == ["insert", "update", "delete", "merge", "create", "drop", "alter", "truncate"]
    ensures (forall w :: w in ws <==> w in PAYLOADS) && forall w <- ws :: w != [] && AllAlpha(w)
  {
  }

  lemma SelectWrites(s: string, w: string, n: int, k: Keywords)
    requires LeadsAt(s, w, n) && w == "select" && w !in k.write
    ensures StatementIsWrite(s, k) <==> WritesLed(s, w, n, k)
  {
    LeadIsFirst(s, w, n);
    hide LeadsAt, FirstWord, HasWord, Mentions;
    MentionMeans(s, "into");
  }

  /** EXPLAIN, DESCRIBE and DESC are judged by what is left of them. */
  lemma ExplainWrites(s: string, w: string, n: int, k: Keywords)
    requires LeadsAt(s, w, n) && w in EXPLAINERS && w !in k.write
    ensures |StripExplain(s)| < |s| && StatementIsWrite(s, k) == StatementIsWrite(StripExplain(s), k)
    ensures WritesLed(s, w, n, k) <==> Writes(StripExplain(s), k)
  {
    LeadIsFirst(s, w, n);
    hide LeadsAt, FirstWord, StripExplain, Writes;
  }

  /** A statement that another word leads, or none, writes only if the table names the word. */
  lemma OtherWrites(s: string, k: Keywords)
    requires FirstWord(s) !in EXPLAINERS + {"set", "start", "with", "copy", "prepare", "select"}
    requires FirstWord(s) !in k.write || FirstWord(s) == ""
    ensures !StatementIsWrite(s, k) && !Writes(s, k)
  {
    hide FirstWord, LeadsAt, MentionsOneOf, Mentions, Next, FromFirst, StripExplain;
    var v := FirstWord(s);
    forall w, n | LeadsAt(s, w, n) ensures w == v && w != "" { LeadIsFirst(s, w, n); NotNothing(s, w, n); }
  }

  lemma NotNothing(s: string, w: string, n: int)
    requires LeadsAt(s, w, n)
    ensures w != ""
  {
  }

  lemma NamedWrites(s: string, w: string, n: int, k: Keywords)
    requires LeadsAt(s, w, n) && w in k.write
    ensures StatementIsWrite(s, k) && WritesLed(s, w, n, k)
  {
    LeadIsFirst(s, w, n);
    NotNothing(s, w, n);
    hide FirstWord, LeadsAt;
  }

  /** One word leads, from one place. */
  lemma OneLeads(s: string, w: string, n: int, k: Keywords)
    requires LeadsAt(s, w, n)
    ensures Writes(s, k) <==> WritesLed(s, w, n, k)
  {
    hide LeadsAt, WritesLed;
    LeadIsFirst(s, w, n);
    if v, m :| LeadsAt(s, v, m) && WritesLed(s, v, m, k) {
      LeadIsFirst(s, v, m);
      SamePlace(s, w, n, v, m);
    }
  }

  lemma SamePlace(s: string, w: string, n: int, v: string, m: int)
    requires LeadsAt(s, w, n) && LeadsAt(s, v, m) && s[n..] == s[m..]
    ensures n == m
  {
    assert |s[n..]| == |s| - n && |s[m..]| == |s| - m;
  }

  /** The verdict says what is written where. */
  lemma {:induction false} WriteMeans(s: string, k: Keywords)
    ensures StatementIsWrite(s, k) <==> Writes(s, k)
    decreases |s|
  {
    hide StatementIsWrite, FirstWord, LeadsAt, WritesLed, Writes, StripExplain;
    var w := FirstWord(s);
    if w == "" {
      OtherWrites(s, k);
    } else {
      var n := FirstLeads(s);
      OneLeads(s, w, n, k);
      if w in k.write { NamedWrites(s, w, n, k); }
      else if w in EXPLAINERS {
        ExplainWrites(s, w, n, k);
        WriteMeans(StripExplain(s), k);
      } else {
        LedMeans(s, w, n, k);
      }
    }
  }

  lemma LedMeans(s: string, w: string, n: int, k: Keywords)
    requires LeadsAt(s, w, n) && w !in k.write && w !in EXPLAINERS
    ensures StatementIsWrite(s, k) <==> WritesLed(s, w, n, k)
  {
    hide StatementIsWrite, FirstWord, LeadsAt, WritesLed, Writes, StripExplain;
    if w == "set" { SetWrites(s, w, n, k); }
    else if w == "start" { StartWrites(s, w, n, k); }
    else if w == "with" { WithWrites(s, w, n, k); }
    else if w == "copy" { CopyLedWrites(s, w, n, k); }
    else if w == "prepare" { PrepareWrites(s, w, n, k); }
    else if w == "select" { SelectWrites(s, w, n, k); }
    else {
      LeadIsFirst(s, w, n);
      OneLeads(s, w, n, k);
      OtherWrites(s, k);
    }
  }

  // ---- A statement that is dangerous, or unfiltered ----

  const ADMINISTRATION: set<string> := {"shutdown", "kill", "restart", "restore", "drop", "stop"}

  /** The word the table is asked for: what leads, or nothing. */
  ghost predicate LeadOrNothing(s: string, w: string) {
    Leads(s, w) || (w == "" && forall v :: !Leads(s, v))
  }

  ghost predicate Endangers(s: string, k: Keywords) {
    || (exists w :: w in k.dangerousDdl && LeadOrNothing(s, w))
    || (Leads(s, "vacuum") && Mentions(s, "full"))
    || (Leads(s, "system") && MentionsOneOf(s, ADMINISTRATION, 0))
    || Leads(s, "cluster")
    || (Leads(s, "reindex") && !Mentions(s, "concurrently"))
    || (Leads(s, "refresh") && !Mentions(s, "concurrently"))
  }

  lemma LeadIs(s: string, w: string)
    ensures FirstWord(s) == w <==> LeadOrNothing(s, w)
    ensures w != "" ==> (FirstWord(s) == w <==> Leads(s, w))
  {
    hide FirstWord, LeadsAt;
    if w != "" {
      LeadMeans(s, w);
    } else {
      forall v, n | LeadsAt(s, v, n) ensures v == FirstWord(s) && v != "" { LeadIsFirst(s, v, n); NotNothing(s, v, n); }
      if FirstWord(s) != "" { LeadMeans(s, FirstWord(s)); }
    }
  }

  lemma DangerMeans(s: string, k: Keywords)
    ensures StatementIsDangerous(s, k) <==> Endangers(s, k)
  {
    hide FirstWord, Leads, LeadOrNothing, HasWord, Mentions, MentionsOneOf, HasAnyWord;
    forall w ensures FirstWord(s) == w <==> LeadOrNothing(s, w) { LeadIs(s, w); }
    LeadIs(s, "vacuum");
    LeadIs(s, "system");
    LeadIs(s, "cluster");
    LeadIs(s, "reindex");
    LeadIs(s, "refresh");
    MentionMeans(s, "full");
    MentionMeans(s, "concurrently");
    AnyMeans(s, ["shutdown", "kill", "restart", "restore", "drop", "stop"], ADMINISTRATION);
  }

  /** An UPDATE, a DELETE or a WITH in which some group of parentheses, or the text outside them, has an UPDATE
      or a DELETE and no WHERE behind it. */
  ghost predicate HitsEveryRow(s: string) {
    (Leads(s, "update") || Leads(s, "delete") || Leads(s, "with")) && SomeGroupUnfiltered(Roots(Events(s, "")))
  }

  lemma UnfilteredMeans(s: string)
    ensures UnfilteredUpdel(s) <==> HitsEveryRow(s)
  {
    hide FirstWord, Leads, SomeGroupUnfiltered, Events, Roots, UpdelScan;
    RefinesTree(s);
    LeadIs(s, "update");
    LeadIs(s, "delete");
    LeadIs(s, "with");
  }
}
