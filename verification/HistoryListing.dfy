/** What the differences of HistoryDiff list: which entries, with what in each column, in what order. */
module HistoryListing {
  import opened Common
  import opened Text
  import opened HistoryDiff

  // ---- The order ----

  /** `x` may stand before `y`: a larger rise of total time, then more calls, then the id. */
  ghost predicate Ahead(x: Delta, y: Delta) {
    && x.change.totalMs >= y.change.totalMs
    && (x.change.totalMs == y.change.totalMs ==> x.change.calls >= y.change.calls)
    && (x.change.totalMs == y.change.totalMs && x.change.calls == y.change.calls ==> InDictionary(x.digest, y.digest))
  }

  lemma BeforeMeans(x: Delta, y: Delta)
    ensures Before(x, y) <==> Ahead(x, y)
  {
    hide TextLe, InDictionary;
    TextLeMeans(x.digest, y.digest);
  }

  /** Of any two entries the first has the larger rise, or at one rise the more calls, or with both the same the
      smaller id. */
  lemma DiffFalls(before: seq<Row>, after: seq<Row>, i: nat, j: nat)
    requires i < j < |Diff(before, after)|
    ensures Ahead(Diff(before, after)[i], Diff(before, after)[j])
  {
    hide Before, Diff, Ahead;
    DiffSorted(before, after);
    BeforeMeans(Diff(before, after)[i], Diff(before, after)[j]);
  }

  // ---- The entries ----

  /** The `k`-th row is the last with the id. */
  predicate LastWith(rows: seq<Row>, digest: string, k: nat) {
    k < |rows| && rows[k].digest == digest && forall j | k < j < |rows| :: rows[j].digest != digest
  }

  predicate Without(rows: seq<Row>, digest: string) { forall i | 0 <= i < |rows| :: rows[i].digest != digest }

  /** The entry of a later row: its id, text and figures, and what it has more than the last earlier row of the id. */
  ghost predicate Tells(e: Delta, before: seq<Row>, a: Row) {
    && e.digest == a.digest && e.text == a.text
    && e.afterCalls == a.load.calls && e.afterTotalMs == a.load.totalMs && e.afterMeanMs == a.meanMs
    && (Without(before, a.digest) ==> e.status == New && e.change == a.load)
    && forall k: nat | LastWith(before, a.digest, k) ::
         && e.status == Changed && e.change.calls == a.load.calls - before[k].load.calls
         && e.change.totalMs == a.load.totalMs - before[k].load.totalMs
         && e.change.rowsTotal == a.load.rowsTotal - before[k].load.rowsTotal
  }

  /** The entry of an earlier row whose id is gone. */
  predicate TellsGone(e: Delta, b: Row) {
    && e.digest == b.digest && e.text == b.text && e.status == Gone
    && e.change.calls == -b.load.calls && e.change.totalMs == -b.load.totalMs && e.change.rowsTotal == -b.load.rowsTotal
    && e.afterCalls == 0 && e.afterTotalMs == 0.0 && e.afterMeanMs == 0.0
  }

  lemma {:induction false} LastIs(rows: seq<Row>, digest: string)
    ensures Without(rows, digest) <==> Last(rows, digest).None?
    ensures forall k: nat | LastWith(rows, digest, k) :: Last(rows, digest) == Some(rows[k])
  {
    if rows != [] {
      var rest := rows[1..];
      LastIs(rest, digest);
      assert forall j | 0 <= j < |rest| :: rest[j] == rows[j + 1];
      if Without(rows, digest) { assert Without(rest, digest); }
      if Last(rows, digest).None? { assert forall j | 0 < j < |rows| :: rows[j] == rest[j - 1]; }
      forall k: nat | LastWith(rows, digest, k) ensures Last(rows, digest) == Some(rows[k]) {
        if k > 0 { assert LastWith(rest, digest, k - 1); } else { assert Without(rest, digest); }
      }
    }
  }

  lemma EntryTells(before: seq<Row>, a: Row)
    ensures Tells(Entry(Last(before, a.digest), a), before, a)
  {
    hide Last, Without, LastWith;
    LastIs(before, a.digest);
  }

  lemma {:induction false} PresentTells(before: seq<Row>, after: seq<Row>)
    ensures |Present(before, after)| == |after|
    ensures forall i | 0 <= i < |after| :: Tells(Present(before, after)[i], before, after[i])
  {
    hide Tells, Last, Entry;
    if after != [] {
      PresentTells(before, after[1..]);
      EntryTells(before, after[0]);
    }
  }

  /** The earlier rows whose ids the later snapshot has not. */
  function Lost(before: seq<Row>, after: seq<Row>): seq<Row> { Filter(before, (b: Row) => Without(after, b.digest)) }

  lemma {:induction false} AbsentTells(before: seq<Row>, after: seq<Row>)
    ensures var lost := Lost(before, after);
            && |Absent(before, after)| == |lost|
            && forall i | 0 <= i < |lost| :: TellsGone(Absent(before, after)[i], lost[i])
  {
    hide TellsGone, Last, Without;
    if before != [] {
      AbsentTells(before[1..], after);
      LastIs(after, before[0].digest);
      GoneTells(before[0]);
    }
  }

  lemma GoneTells(b: Row)
    ensures TellsGone(GoneEntry(b), b)
  {
  }

  /** The difference lists, in its order, one entry for each later row and one for each earlier row whose id is
      gone, with these columns and no others. */
  lemma DiffLists(before: seq<Row>, after: seq<Row>) returns (raw: seq<Delta>)
    ensures multiset(Diff(before, after)) == multiset(raw)
    ensures var lost := Lost(before, after);
            && |raw| == |after| + |lost|
            && (forall i | 0 <= i < |after| :: Tells(raw[i], before, after[i]))
            && (forall i | 0 <= i < |lost| :: TellsGone(raw[|after| + i], lost[i]))
  {
    hide Tells, TellsGone, Diff, Present, Absent, Lost;
    raw := Present(before, after) + Absent(before, after);
    DiffSorted(before, after);
    PresentTells(before, after);
    AbsentTells(before, after);
  }
}
