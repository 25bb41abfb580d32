/** The difference of two digest snapshots: `diff_digest_rows` of src-tauri/src/history.rs. */
module HistoryDiff {
  import opened Common
  import opened Text

  /** The three counters that are subtracted. */
  datatype Load = Load(calls: int, totalMs: real, rowsTotal: int)

  const NO_LOAD := Load(0, 0.0, 0)

  function Plus(a: Load, b: Load): Load { Load(a.calls + b.calls, a.totalMs + b.totalMs, a.rowsTotal + b.rowsTotal) }

  function Minus(a: Load, b: Load): Load { Load(a.calls - b.calls, a.totalMs - b.totalMs, a.rowsTotal - b.rowsTotal) }

  lemma Regroup4(a: Load, b: Load, c: Load, d: Load)
    ensures Plus(Minus(a, b), Minus(c, d)) == Minus(Plus(a, c), Plus(b, d))
    ensures Plus(Plus(a, b), Plus(c, d)) == Plus(Plus(a, c), Plus(b, d))
  {
  }

  lemma PlusAssoc(a: Load, b: Load, c: Load)
    ensures Plus(a, Plus(b, c)) == Plus(Plus(a, b), c) && Plus(a, Plus(b, c)) == Plus(b, Plus(a, c))
  {
  }

  lemma Nothing(a: Load)
    ensures Plus(a, NO_LOAD) == a == Plus(NO_LOAD, a) && Minus(a, NO_LOAD) == a
  {
  }

  datatype Row = Row(digest: string, text: string, load: Load, meanMs: real)

  datatype Status = Changed | New | Gone

  datatype Delta = Delta(digest: string, text: string, status: Status, change: Load,
                         afterCalls: int, afterTotalMs: real, afterMeanMs: real)

  // ---- Looking up a digest; of rows with one id the last wins ----

  function Last(rows: seq<Row>, digest: string): Option<Row> {
    if rows == [] then None
    else if Last(rows[1..], digest).Some? then Last(rows[1..], digest)
    else if rows[0].digest == digest then Some(rows[0])
    else None
  }

  function Get(m: map<string, Row>, digest: string): Option<Row> { if digest in m then Some(m[digest]) else None }

  lemma {:induction false} LastAppend(rows: seq<Row>, r: Row, digest: string)
    ensures Last(rows + [r], digest) == if r.digest == digest then Some(r) else Last(rows, digest)
  {
    if rows != [] {
      LastAppend(rows[1..], r, digest);
      assert (rows + [r])[1..] == rows[1..] + [r];
    }
  }

  method ByDigest(rows: seq<Row>) returns (m: map<string, Row>)
    ensures forall d :: Get(m, d) == Last(rows, d)
  {
    m := map[];
    for i := 0 to |rows|
      invariant forall d :: Get(m, d) == Last(rows[..i], d)
    {
      assert rows[..i + 1] == rows[..i] + [rows[i]];
      ghost var was := m;
      m := m[rows[i].digest := rows[i]];
      forall d: string ensures Get(m, d) == Last(rows[..i + 1], d) {
        LastAppend(rows[..i], rows[i], d);
        assert Get(was, d) == Last(rows[..i], d);
      }
    }
    assert rows[..|rows|] == rows;
  }

  // ---- The entries, before they are sorted ----

  function Entry(b: Option<Row>, a: Row): Delta {
    match b
    case Some(b) =>
      Delta(a.digest, a.text, Changed, Minus(a.load, b.load), a.load.calls, a.load.totalMs, a.meanMs)
    case None =>
      Delta(a.digest, a.text, New, a.load, a.load.calls, a.load.totalMs, a.meanMs)
  }

  function GoneEntry(b: Row): Delta { Delta(b.digest, b.text, Gone, Minus(NO_LOAD, b.load), 0, 0.0, 0.0) }

  function Present(before: seq<Row>, after: seq<Row>): seq<Delta> {
    if after == [] then [] else [Entry(Last(before, after[0].digest), after[0])] + Present(before, after[1..])
  }

  function Absent(before: seq<Row>, after: seq<Row>): seq<Delta> {
    if before == [] then []
    else (if Last(after, before[0].digest).Some? then [] else [GoneEntry(before[0])]) + Absent(before[1..], after)
  }

  // ---- The order: total time, then calls, both falling, then the id ----

  predicate Before(x: Delta, y: Delta) {
    || x.change.totalMs > y.change.totalMs
    || (x.change.totalMs == y.change.totalMs
        && (x.change.calls > y.change.calls || (x.change.calls == y.change.calls && TextLe(x.digest, y.digest))))
  }

  function Insert(x: Delta, s: seq<Delta>): seq<Delta> {
    if s == [] || Before(x, s[0]) then [x] + s else [s[0]] + Insert(x, s[1..])
  }

  /** The library's stable sort. */
  function Sorted(s: seq<Delta>): seq<Delta> { if s == [] then [] else Insert(s[0], Sorted(s[1..])) }

  function Diff(before: seq<Row>, after: seq<Row>): seq<Delta> {
    Sorted(Present(before, after) + Absent(before, after))
  }

  method PushPresent(before: seq<Row>, after: seq<Row>, prev: map<string, Row>) returns (out: seq<Delta>)
    requires forall d :: Get(prev, d) == Last(before, d)
    ensures out == Present(before, after)
  {
    hide Last;
    out := [];
    for i := 0 to |after|
      invariant out + Present(before, after[i..]) == Present(before, after)
    {
      var a := after[i];
      assert after[i..][1..] == after[i + 1..];
      assert Get(prev, a.digest) == Last(before, a.digest);
      var e;
      if a.digest in prev {
        var b := prev[a.digest];
        e := Delta(a.digest, a.text, Changed, Minus(a.load, b.load), a.load.calls, a.load.totalMs, a.meanMs);
      } else {
        e := Delta(a.digest, a.text, New, a.load, a.load.calls, a.load.totalMs, a.meanMs);
      }
      Assoc(out, [e], Present(before, after[i + 1..]));
      out := out + [e];
    }
    Whole(out, Present(before, after[|after|..]), Present(before, after));
  }

  method PushAbsent(before: seq<Row>, after: seq<Row>, next: map<string, Row>, start: seq<Delta>)
    returns (out: seq<Delta>)
    requires forall d :: Get(next, d) == Last(after, d)
    ensures out == start + Absent(before, after)
  {
    hide Last;
    out := start;
    assert before[0..] == before;
    for i := 0 to |before|
      invariant out + Absent(before[i..], after) == start + Absent(before, after)
    {
      var b := before[i];
      assert before[i..][1..] == before[i + 1..];
      assert Get(next, b.digest) == Last(after, b.digest);
      if b.digest in next { continue; }
      Assoc(out, [GoneEntry(b)], Absent(before[i + 1..], after));
      out := out + [Delta(b.digest, b.text, Gone, Minus(NO_LOAD, b.load), 0, 0.0, 0.0)];
    }
    Whole(out, Absent(before[|before|..], after), start + Absent(before, after));
  }

  method DiffDigestRows(before: seq<Row>, after: seq<Row>) returns (r: seq<Delta>)
    ensures r == Diff(before, after)
  {
    var prev := ByDigest(before);
    var next := ByDigest(after);
    var out := PushPresent(before, after, prev);
    out := PushAbsent(before, after, next, out);
    r := Sorted(out);
  }

  lemma Whole(out: seq<Delta>, rest: seq<Delta>, all: seq<Delta>)
    requires out + rest == all && rest == []
    ensures out == all
  {
  }

  // ---- The output is a sorted permutation ----

  lemma BeforeOrder(x: Delta, y: Delta, z: Delta)
    ensures Before(x, y) || Before(y, x)
    ensures Before(x, y) && Before(y, z) ==> Before(x, z)
    ensures Before(x, y) && Before(y, x) ==> x.digest == y.digest
  {
    TextLeTotal(x.digest, y.digest);
    if TextLe(x.digest, y.digest) && TextLe(y.digest, z.digest) { TextLeTransitive(x.digest, y.digest, z.digest); }
  }

  ghost predicate InOrder(s: seq<Delta>) { forall i, j | 0 <= i < j < |s| :: Before(s[i], s[j]) }

  lemma {:induction false} InsertKeeps(x: Delta, s: seq<Delta>)
    requires InOrder(s)
    ensures InOrder(Insert(x, s)) && multiset(Insert(x, s)) == multiset(s) + multiset{x}
  {
    hide Before;
    var r := Insert(x, s);
    if s == [] || Before(x, s[0]) {
      forall j | 0 <= j < |s| ensures Before(x, s[j]) { if j > 0 { BeforeOrder(x, s[0], s[j]); } }
    } else {
      var rest := Insert(x, s[1..]);
      InsertKeeps(x, s[1..]);
      assert s == [s[0]] + s[1..];
      forall j | 0 <= j < |rest| ensures Before(s[0], rest[j]) {
        assert rest[j] in multiset(rest);
        if rest[j] == x { BeforeOrder(x, s[0], s[0]); } else { InTail(s, rest[j]); }
      }
    }
  }

  lemma InTail(s: seq<Delta>, y: Delta)
    requires InOrder(s) && s != [] && y in multiset(s[1..])
    ensures Before(s[0], y)
  {
    assert y in s[1..];
    var i :| 0 <= i < |s[1..]| && s[1..][i] == y;
    assert s[i + 1] == y;
  }

  lemma {:induction false} SortedIs(s: seq<Delta>)
    ensures InOrder(Sorted(s)) && multiset(Sorted(s)) == multiset(s)
  {
    if s != [] {
      SortedIs(s[1..]);
      InsertKeeps(s[0], Sorted(s[1..]));
      assert s == [s[0]] + s[1..];
    }
  }


  /** Entries that the order does not tell apart. */
  predicate Tied(x: Delta, y: Delta) { Before(x, y) && Before(y, x) }

  function Ties(s: seq<Delta>, e: Delta): seq<Delta> {
    if s == [] then [] else (if Tied(s[0], e) then [s[0]] else []) + Ties(s[1..], e)
  }

  lemma TiesCons(x: Delta, s: seq<Delta>, e: Delta)
    ensures Ties([x] + s, e) == (if Tied(x, e) then [x] else []) + Ties(s, e)
  {
    assert ([x] + s)[1..] == s;
  }

  lemma {:induction false} InsertStable(x: Delta, s: seq<Delta>, e: Delta)
    ensures Ties(Insert(x, s), e) == Ties([x] + s, e)
  {
    hide Before, Ties;
    if s != [] && !Before(x, s[0]) {
      var rest := s[1..];
      assert s == [s[0]] + rest;
      InsertStable(x, rest, e);
      TiesCons(s[0], Insert(x, rest), e);
      TiesCons(x, rest, e);
      TiesCons(x, s, e);
      TiesCons(s[0], rest, e);
      BeforeOrder(x, e, s[0]);
      assert !(Tied(x, e) && Tied(s[0], e));
    }
  }

  /** Sorting keeps tied entries in the order they came in. */
  lemma {:induction false} SortedStable(s: seq<Delta>, e: Delta)
    ensures Ties(Sorted(s), e) == Ties(s, e)
  {
    hide Ties, Insert, Tied;
    if s != [] {
      SortedStable(s[1..], e);
      InsertStable(s[0], Sorted(s[1..]), e);
      TiesCons(s[0], Sorted(s[1..]), e);
      TiesCons(s[0], s[1..], e);
      assert s == [s[0]] + s[1..];
    }
  }

  /** The output is in order, the largest rise of total time first, and tied entries stay as they came. */
  lemma DiffSorted(before: seq<Row>, after: seq<Row>)
    ensures InOrder(Diff(before, after))
    ensures multiset(Diff(before, after)) == multiset(Present(before, after)) + multiset(Absent(before, after))
    ensures forall e :: Ties(Diff(before, after), e) == Ties(Present(before, after) + Absent(before, after), e)
  {
    hide Ties, Present, Absent, InOrder;
    var raw := Present(before, after) + Absent(before, after);
    SortedIs(raw);
    forall e ensures Ties(Sorted(raw), e) == Ties(raw, e) { SortedStable(raw, e); }
  }

  // ---- Sums that do not see the order ----

  function Sum(out: seq<Delta>): Load { if out == [] then NO_LOAD else Plus(out[0].change, Sum(out[1..])) }

  /** The entries of one digest. */
  function Of(out: seq<Delta>, digest: string): seq<Delta> {
    if out == [] then [] else (if out[0].digest == digest then [out[0]] else []) + Of(out[1..], digest)
  }

  lemma {:induction false} InsertSum(x: Delta, s: seq<Delta>)
    ensures Sum(Insert(x, s)) == Plus(x.change, Sum(s))
    ensures forall d :: |Of(Insert(x, s), d)| == |Of(s, d)| + if x.digest == d then 1 else 0
  {
    hide Plus, Before;
    if s != [] && !Before(x, s[0]) {
      InsertSum(x, s[1..]);
      PlusAssoc(x.change, s[0].change, Sum(s[1..]));
    }
  }

  lemma {:induction false} SortedSum(s: seq<Delta>)
    ensures Sum(Sorted(s)) == Sum(s)
    ensures forall d :: |Of(Sorted(s), d)| == |Of(s, d)|
  {
    if s != [] {
      SortedSum(s[1..]);
      InsertSum(s[0], Sorted(s[1..]));
    }
  }

  lemma {:induction false} SumAppend(a: seq<Delta>, b: seq<Delta>)
    ensures Sum(a + b) == Plus(Sum(a), Sum(b))
  {
    hide Plus;
    if a == [] {
      assert a + b == b;
      Nothing(Sum(b));
    } else {
      assert (a + b)[1..] == a[1..] + b;
      SumAppend(a[1..], b);
      PlusAssoc(a[0].change, Sum(a[1..]), Sum(b));
    }
  }

  lemma OfStep(a: seq<Delta>, d: string)
    requires a != []
    ensures Of(a, d) == (if a[0].digest == d then [a[0]] else []) + Of(a[1..], d)
  {
  }

  lemma {:induction false} OfAppend(a: seq<Delta>, b: seq<Delta>, d: string)
    ensures Of(a + b, d) == Of(a, d) + Of(b, d)
  {
    if a == [] {
      assert a + b == b;
    } else {
      assert (a + b)[1..] == a[1..] + b;
      OfAppend(a[1..], b, d);
      OfStep(a, d);
      OfStep(a + b, d);
      hide Of;
      Common.Assoc(if a[0].digest == d then [a[0]] else [], Of(a[1..], d), Of(b, d));
    }
  }

  lemma {:induction false} OfMembers(out: seq<Delta>, digest: string)
    ensures forall x :: x in Of(out, digest) <==> x in out && x.digest == digest
  {
    if out != [] {
      OfMembers(out[1..], digest);
      assert forall x :: x in out <==> x == out[0] || x in out[1..];
    }
  }

  // ---- One entry for every digest of the union ----

  ghost predicate DistinctDigests(rows: seq<Row>) {
    forall i, j | 0 <= i < j < |rows| :: rows[i].digest != rows[j].digest
  }

  lemma {:induction false} LastIn(rows: seq<Row>, digest: string)
    ensures Last(rows, digest).Some? ==> Last(rows, digest).value in rows && Last(rows, digest).value.digest == digest
    ensures Last(rows, digest).None? ==> forall r <- rows :: r.digest != digest
  {
    if rows != [] {
      LastIn(rows[1..], digest);
      assert forall r :: r in rows <==> r == rows[0] || r in rows[1..];
    }
  }

  lemma HeadOnly(rows: seq<Row>)
    requires DistinctDigests(rows) && rows != []
    ensures DistinctDigests(rows[1..]) && Last(rows[1..], rows[0].digest) == None
    ensures Last(rows, rows[0].digest) == Some(rows[0])
  {
    forall r <- rows[1..] ensures r.digest != rows[0].digest {
      var i :| 0 <= i < |rows[1..]| && rows[1..][i] == r;
      assert rows[i + 1] == r;
    }
    LastIn(rows[1..], rows[0].digest);
  }

  /** What a digest deserves, by its rows alone. */
  function Due(b: Option<Row>, a: Option<Row>): seq<Delta> {
    match (b, a)
    case (_, Some(a)) => [Entry(b, a)]
    case (Some(b), None) => [GoneEntry(b)]
    case (None, None) => []
  }

  lemma {:induction false} PresentOf(before: seq<Row>, after: seq<Row>, d: string)
    requires DistinctDigests(after)
    ensures Of(Present(before, after), d) == if Last(after, d).Some? then Due(Last(before, d), Last(after, d)) else []
  {
    if after != [] {
      HeadOnly(after);
      PresentOf(before, after[1..], d);
      assert Present(before, after)[1..] == Present(before, after[1..]);
    }
  }

  lemma {:induction false} AbsentOf(before: seq<Row>, after: seq<Row>, d: string)
    requires DistinctDigests(before)
    ensures Of(Absent(before, after), d) == if Last(after, d).Some? then [] else Due(Last(before, d), None)
  {
    if before != [] {
      HeadOnly(before);
      AbsentOf(before[1..], after, d);
      if Last(after, before[0].digest).None? {
        assert Absent(before, after)[1..] == Absent(before[1..], after);
      } else {
        assert Absent(before, after) == Absent(before[1..], after);
      }
    }
  }

  /** The entries of a digest are exactly what its two rows deserve: none when it is in neither
      snapshot, one otherwise. */
  lemma DiffAt(before: seq<Row>, after: seq<Row>, d: string)
    requires DistinctDigests(before) && DistinctDigests(after)
    ensures Of(Diff(before, after), d) == Due(Last(before, d), Last(after, d))
  {
    var raw := Present(before, after) + Absent(before, after);
    PresentOf(before, after, d);
    AbsentOf(before, after, d);
    OfAppend(Present(before, after), Absent(before, after), d);
    SortedSum(raw);
    SortedIs(raw);
    OnlyOne(raw, Sorted(raw), d);
  }

  lemma OnlyOne(a: seq<Delta>, b: seq<Delta>, d: string)
    requires multiset(a) == multiset(b) && |Of(a, d)| == |Of(b, d)| <= 1
    ensures Of(a, d) == Of(b, d)
  {
    OfMembers(a, d);
    OfMembers(b, d);
    if |Of(b, d)| == 1 {
      assert Of(b, d)[0] in b && Of(b, d)[0] in multiset(b) && Of(b, d)[0] in a;
      assert Of(b, d)[0] in Of(a, d);
    }
  }

  // ---- Swapping and telescoping, digest by digest ----

  function Held(rows: seq<Row>, d: string): Load { match Last(rows, d) case Some(r) => r.load case None => NO_LOAD }

  /** What the difference says of one digest. */
  lemma ChangeOf(before: seq<Row>, after: seq<Row>, d: string)
    requires DistinctDigests(before) && DistinctDigests(after)
    ensures Sum(Of(Diff(before, after), d)) == Minus(Held(after, d), Held(before, d))
  {
    DiffAt(before, after, d);
  }

  function Flipped(s: Status): Status { match s case Changed => Changed case New => Gone case Gone => New }

  /** Exchanging the snapshots keeps the digests, negates every change and turns new into gone. */
  lemma Swap(before: seq<Row>, after: seq<Row>, d: string)
    requires DistinctDigests(before) && DistinctDigests(after)
    ensures var a, b := Of(Diff(before, after), d), Of(Diff(after, before), d);
            && |a| == |b| <= 1
            && (|a| == 1 ==> b[0].change == Minus(NO_LOAD, a[0].change) && b[0].status == Flipped(a[0].status))
  {
    DiffAt(before, after, d);
    DiffAt(after, before, d);
  }

  /** diff(a, c) = diff(a, b) + diff(b, c) */
  lemma Telescope(a: seq<Row>, b: seq<Row>, c: seq<Row>, d: string)
    requires DistinctDigests(a) && DistinctDigests(b) && DistinctDigests(c)
    ensures Sum(Of(Diff(a, c), d)) == Plus(Sum(Of(Diff(a, b), d)), Sum(Of(Diff(b, c), d)))
  {
    hide Minus, Plus, Diff, Held, DistinctDigests;
    ChangeOf(a, b, d);
    ChangeOf(b, c, d);
    ChangeOf(a, c, d);
    Chained(Held(a, d), Held(b, d), Held(c, d));
  }

  lemma Chained(a: Load, b: Load, c: Load)
    ensures Plus(Minus(b, a), Minus(c, b)) == Minus(c, a)
  {
  }

  // ---- Conservation ----

  function Total(rows: seq<Row>): Load { if rows == [] then NO_LOAD else Plus(rows[0].load, Total(rows[1..])) }

  /** The load that `before` held of the digests in `after`, counted once for each row of `after`. */
  function Met(before: seq<Row>, after: seq<Row>): Load {
    if after == [] then NO_LOAD else Plus(Held(before, after[0].digest), Met(before, after[1..]))
  }

  function Left(before: seq<Row>, after: seq<Row>): Load {
    if before == [] then NO_LOAD
    else Plus(if Last(after, before[0].digest).Some? then NO_LOAD else before[0].load, Left(before[1..], after))
  }

  lemma EntryChange(before: seq<Row>, a: Row)
    ensures Entry(Last(before, a.digest), a).change == Minus(a.load, Held(before, a.digest))
  {
  }

  lemma SplitTotals(before: seq<Row>, after: seq<Row>)
    requires after != []
    ensures Total(after) == Plus(after[0].load, Total(after[1..]))
    ensures Met(before, after) == Plus(Held(before, after[0].digest), Met(before, after[1..]))
  {
  }

  lemma NoTotals(before: seq<Row>)
    ensures Minus(Total([]), Met(before, [])) == NO_LOAD == Met(before, [])
  {
  }

  lemma {:induction false} PresentSum(before: seq<Row>, after: seq<Row>)
    ensures Sum(Present(before, after)) == Minus(Total(after), Met(before, after))
  {
    hide Plus, Minus, Total, Met;
    if after != [] {
      PresentSum(before, after[1..]);
      assert Present(before, after)[1..] == Present(before, after[1..]);
      SplitTotals(before, after);
      EntryChange(before, after[0]);
      Regroup4(after[0].load, Held(before, after[0].digest), Total(after[1..]), Met(before, after[1..]));
    } else {
      NoTotals(before);
    }
  }

  lemma SplitLeft(before: seq<Row>, after: seq<Row>)
    requires before != []
    ensures Left(before, after)
         == Plus(if Last(after, before[0].digest).Some? then NO_LOAD else before[0].load, Left(before[1..], after))
  {
  }

  lemma AbsentHead(before: seq<Row>, after: seq<Row>)
    requires before != []
    ensures Last(after, before[0].digest).Some? ==> Absent(before, after) == Absent(before[1..], after)
    ensures Last(after, before[0].digest).None? ==>
              Sum(Absent(before, after)) == Plus(Minus(NO_LOAD, before[0].load), Sum(Absent(before[1..], after)))
  {
    hide Last, Plus, Minus;
    var more := Absent(before[1..], after);
    if Last(after, before[0].digest).None? { assert Absent(before, after)[1..] == more; }
  }

  lemma {:induction false} AbsentSum(before: seq<Row>, after: seq<Row>)
    ensures Sum(Absent(before, after)) == Minus(NO_LOAD, Left(before, after))
  {
    if before != [] {
      AbsentSum(before[1..], after);
      SplitLeft(before, after);
      hide Plus, Minus, Left, Last;
      AbsentHead(before, after);
      var rest := Left(before[1..], after);
      if Last(after, before[0].digest).None? {
        Regroup4(NO_LOAD, before[0].load, NO_LOAD, rest);
        Nothing(NO_LOAD);
      } else {
        assert Absent(before, after) == Absent(before[1..], after);
        Nothing(rest);
      }
    }
  }

  lemma {:induction false} MetHead(before: seq<Row>, after: seq<Row>)
    requires DistinctDigests(before) && before != [] && DistinctDigests(after)
    ensures Met(before, after)
         == Plus(if Last(after, before[0].digest).Some? then before[0].load else NO_LOAD, Met(before[1..], after))
  {
    hide Plus;
    if after == [] {
      Nothing(NO_LOAD);
    } else {
      HeadOnly(before);
      HeadOnly(after);
      MetHead(before, after[1..]);
      var rest := Met(before[1..], after[1..]);
      var h := Held(before[1..], after[0].digest);
      Nothing(Plus(h, rest));
      Nothing(rest);
      PlusAssoc(before[0].load, h, rest);
    }
  }

  lemma {:induction false} MetAndLeft(before: seq<Row>, after: seq<Row>)
    requires DistinctDigests(before) && DistinctDigests(after)
    ensures Plus(Met(before, after), Left(before, after)) == Total(before)
  {
    hide Plus, Met, Left, Last, Total, DistinctDigests;
    if before == [] {
      NothingMet(after);
      NothingLeft(after);
      Nothing(NO_LOAD);
    } else {
      MetHead(before, after);
      SplitLeft(before, after);
      SplitTotals(after, before);
      HeadOnly(before);
      MetAndLeft(before[1..], after);
      var b := before[0].load;
      var seen := Last(after, before[0].digest).Some?;
      var met, left := if seen then b else NO_LOAD, if seen then NO_LOAD else b;
      Regroup4(met, Met(before[1..], after), left, Left(before[1..], after));
      Nothing(b);
    }
  }

  lemma {:induction false} NothingMet(after: seq<Row>)
    ensures Met([], after) == NO_LOAD
  {
    hide Plus;
    if after != [] {
      NothingMet(after[1..]);
      Nothing(NO_LOAD);
    }
  }

  lemma NothingLeft(after: seq<Row>)
    ensures Left([], after) == NO_LOAD == Total([])
  {
  }

  /** Whatever the ids, the changes together are the later load, less what was met, less what was left. */
  lemma DiffSum(before: seq<Row>, after: seq<Row>)
    ensures Sum(Diff(before, after)) == Minus(Total(after), Plus(Met(before, after), Left(before, after)))
  {
    hide Plus, Minus, Total, Met, Left, Sum, Present, Absent;
    SortedSum(Present(before, after) + Absent(before, after));
    SumAppend(Present(before, after), Absent(before, after));
    PresentSum(before, after);
    AbsentSum(before, after);
    Regroup4(Total(after), Met(before, after), NO_LOAD, Left(before, after));
    Nothing(Total(after));
  }

  /** The changes of all entries together are what the later snapshot holds more than the earlier. */
  lemma Conservation(before: seq<Row>, after: seq<Row>)
    requires DistinctDigests(before) && DistinctDigests(after)
    ensures Sum(Diff(before, after)) == Minus(Total(after), Total(before))
  {
    hide Plus, Minus, Total, Met, Left, Sum, Diff;
    DiffSum(before, after);
    MetAndLeft(before, after);
  }

  /** The changes conserve the load exactly when every earlier row is met once by a later one or left over:
      what the lookups met and what was left must together be what the earlier snapshot held. */
  lemma ConservedExactly(before: seq<Row>, after: seq<Row>)
    ensures Sum(Diff(before, after)) == Minus(Total(after), Total(before))
       <==> Plus(Met(before, after), Left(before, after)) == Total(before)
  {
    hide Plus, Total, Met, Left, Sum, Diff;
    DiffSum(before, after);
    MinusCancels(Total(after), Plus(Met(before, after), Left(before, after)), Total(before));
  }

  lemma MinusCancels(a: Load, b: Load, c: Load)
    ensures Minus(a, b) == Minus(a, c) <==> b == c
  {
  }

  /** With a repeated id the sums part, and the tables do not forbid one. */
  lemma RepeatedIdsLoseLoad(r: Row)
    requires r.load.calls != 0
    ensures Sum(Diff([r, r], [r])) != Minus(Total([r]), Total([r, r]))
  {
    hide Diff, Sum, Met, Left, Total, Plus, Minus, Last;
    DiffSum([r, r], [r]);
    FoundTwice(r);
    assert [r, r][1..] == [r] && [r][1..] == [];
    SplitLeft([r, r], [r]);
    SplitLeft([r], [r]);
    NothingLeft([r]);
    NoTotals([r, r]);
    SplitTotals([r, r], [r]);
    SplitTotals([r, r], [r, r]);
    LosesOne(r.load);
    Nothing(NO_LOAD);
    Nothing(r.load);
  }

  lemma FoundTwice(r: Row)
    ensures Last([r], r.digest) == Last([r, r], r.digest) == Some(r)
  {
    assert [r, r][1..] == [r];
  }

  lemma LosesOne(l: Load)
    requires l.calls != 0
    ensures Minus(l, l) != Minus(l, Plus(l, l))
  {
  }
}
