/** The capped tables of src-tauri/src/history.rs that are pruned once in every so many inserts. */
module HistoryRetention {
  import opened Common

  datatype Row = Row(id: nat, payload: string)

  /** A table with an AUTOINCREMENT key: rows in the order of their ids, and the last id ever given. */
  datatype Table = Table(rows: seq<Row>, lastId: nat)

  /** Ids are given in order, so they ascend, and none exceeds the last. */
  predicate Valid(t: Table) {
    && (forall i, j | 0 <= i < j < |t.rows| :: t.rows[i].id < t.rows[j].id)
    && (forall i | 0 <= i < |t.rows| :: 1 <= t.rows[i].id <= t.lastId)
  }

  /** `SELECT id ... ORDER BY id DESC LIMIT 1 OFFSET cap`, or NULL. */
  function Cutoff(rows: seq<Row>, cap: nat): Option<nat> {
    if |rows| <= cap then None else Some(rows[|rows| - 1 - cap].id)
  }

  /** `DELETE ... WHERE id <= cutoff`; comparing with NULL deletes nothing. */
  function DeleteUpTo(rows: seq<Row>, cutoff: Option<nat>): seq<Row> {
    if rows == [] then []
    else (if cutoff.Some? && rows[0].id <= cutoff.value then [] else [rows[0]]) + DeleteUpTo(rows[1..], cutoff)
  }

  predicate Cadence(id: nat, every: nat) { every <= 1 || id % every == 0 }

  function Inserted(t: Table, payload: string, cap: nat, every: nat): Table {
    var id := t.lastId + 1;
    var rows := t.rows + [Row(id, payload)];
    Table(if Cadence(id, every) then DeleteUpTo(rows, Cutoff(rows, cap)) else rows, id)
  }

  /** Deleting rows by any criterion. */
  function Removed(t: Table, keep: Row -> bool): Table { t.(rows := Filter(t.rows, keep)) }

  class HistoryTable {
    var rows: seq<Row>
    var lastId: nat

    constructor ()
      ensures State() == Table([], 0)
    {
      rows, lastId := [], 0;
    }

    ghost function State(): Table
      reads this
    {
      Table(rows, lastId)
    }

    /** `insert_capped`, and the audit log's insert with its trigger. */
    method InsertCapped(payload: string, cap: nat, every: nat) returns (id: nat)
      modifies this
      ensures State() == Inserted(old(State()), payload, cap, every) && id == lastId
    {
      lastId := lastId + 1;
      id := lastId;
      rows := rows + [Row(id, payload)];
      if every <= 1 || id % every == 0 {
        rows := DeleteUpTo(rows, Cutoff(rows, cap));
      }
    }

    method Remove(keep: Row -> bool)
      modifies this
      ensures State() == Removed(old(State()), keep)
    {
      rows := Filter(rows, keep);
    }
  }

  // ---- What one prune does ----

  /** Pruning a table leaves exactly its newest rows, at most `cap` of them. */
  lemma PruneKeepsNewest(t: Table, cap: nat)
    requires Valid(t)
    ensures DeleteUpTo(t.rows, Cutoff(t.rows, cap)) == if |t.rows| <= cap then t.rows else t.rows[|t.rows| - cap..]
  {
    var n := |t.rows|;
    if n <= cap {
      DeleteNone(t.rows, None);
    } else {
      DeleteFirst(t.rows, Some(t.rows[n - 1 - cap].id), n - cap);
    }
  }

  lemma {:induction false} DeleteNone(rows: seq<Row>, cutoff: Option<nat>)
    requires cutoff.Some? ==> forall i | 0 <= i < |rows| :: rows[i].id > cutoff.value
    ensures DeleteUpTo(rows, cutoff) == rows
  {
    if rows != [] {
      DeleteNone(rows[1..], cutoff);
      assert rows == [rows[0]] + rows[1..];
    }
  }

  lemma {:induction false} DeleteFirst(rows: seq<Row>, cutoff: Option<nat>, k: nat)
    requires cutoff.Some? && k <= |rows|
    requires forall i | 0 <= i < k :: rows[i].id <= cutoff.value
    requires forall i | k <= i < |rows| :: rows[i].id > cutoff.value
    ensures DeleteUpTo(rows, cutoff) == rows[k..]
    decreases k
  {
    if k == 0 {
      DeleteNone(rows, cutoff);
    } else {
      DeleteFirst(rows[1..], cutoff, k - 1);
      assert rows[1..][k - 1..] == rows[k..];
    }
  }

  lemma AppendValid(t: Table, payload: string)
    requires Valid(t)
    ensures Valid(Table(t.rows + [Row(t.lastId + 1, payload)], t.lastId + 1))
  {
  }

  lemma SuffixValid(t: Table, k: nat)
    requires Valid(t) && k <= |t.rows|
    ensures Valid(t.(rows := t.rows[k..]))
  {
  }

  /** An insert adds its row, and keeps of the old ones either all, or the newest that fit the cap with it. */
  lemma InsertKeepsNewest(t: Table, payload: string, cap: nat, every: nat)
    requires Valid(t)
    ensures var all := t.rows + [Row(t.lastId + 1, payload)];
            var u := Inserted(t, payload, cap, every);
            && Valid(u)
            && u.rows == (if Cadence(t.lastId + 1, every) && |all| > cap then all[|all| - cap..] else all)
  {
    hide DeleteUpTo, Cutoff, Valid;
    var all := Table(t.rows + [Row(t.lastId + 1, payload)], t.lastId + 1);
    AppendValid(t, payload);
    PruneKeepsNewest(all, cap);
    if |all.rows| > cap { SuffixValid(all, |all.rows| - cap); }
  }

  // ---- Every run ----

  datatype Op = Insert(payload: string) | Remove(keep: Row -> bool)

  function Step(t: Table, op: Op, cap: nat, every: nat): Table {
    match op
    case Insert(p) => Inserted(t, p, cap, every)
    case Remove(keep) => Removed(t, keep)
  }

  function Run(ops: seq<Op>, cap: nat, every: nat): Table {
    if ops == [] then Table([], 0) else Step(Run(ops[..|ops| - 1], cap, every), ops[|ops| - 1], cap, every)
  }

  /** The last id on the cadence that was given. */
  function LastCadence(lastId: nat, every: nat): nat { if every <= 1 then lastId else lastId - lastId % every }

  /** How many rows have ids up to `m`. */
  function UpTo(rows: seq<Row>, m: nat): nat {
    if rows == [] then 0 else (if rows[0].id <= m then 1 else 0) + UpTo(rows[1..], m)
  }

  /** The rows that were there at the last cadence fit the cap. */
  predicate Capped(t: Table, cap: nat, every: nat) {
    Valid(t) && UpTo(t.rows, LastCadence(t.lastId, every)) <= cap
  }

  lemma {:induction false} UpToAppend(a: seq<Row>, b: seq<Row>, m: nat)
    ensures UpTo(a + b, m) == UpTo(a, m) + UpTo(b, m)
  {
    if a == [] {
      assert a + b == b;
    } else {
      assert (a + b)[1..] == a[1..] + b;
      UpToAppend(a[1..], b, m);
    }
  }

  lemma {:induction false} UpToLength(rows: seq<Row>, m: nat)
    ensures UpTo(rows, m) <= |rows|
  {
    if rows != [] { UpToLength(rows[1..], m); }
  }

  /** Ids are distinct: the rows above `m` are no more than the ids above it. */
  lemma {:induction false} RowsAbove(rows: seq<Row>, m: nat, last: nat)
    requires forall i, j | 0 <= i < j < |rows| :: rows[i].id < rows[j].id
    requires forall i | 0 <= i < |rows| :: rows[i].id <= last
    requires m <= last
    ensures |rows| - UpTo(rows, m) <= last - m
    decreases |rows|
  {
    if rows != [] {
      var n := |rows| - 1;
      var top := rows[n];
      var rest := rows[..n];
      assert rows == rest + [top];
      UpToAppend(rest, [top], m);
      assert [top][1..] == [];
      if top.id <= m {
        UpToAll(rest, m);
      } else {
        RowsAbove(rest, m, top.id - 1);
      }
    }
  }

  lemma {:induction false} UpToAll(rows: seq<Row>, m: nat)
    requires forall i | 0 <= i < |rows| :: rows[i].id <= m
    ensures UpTo(rows, m) == |rows|
  {
    if rows != [] { UpToAll(rows[1..], m); }
  }

  lemma {:induction false} FilterShrinks(rows: seq<Row>, keep: Row -> bool, m: nat)
    ensures UpTo(Filter(rows, keep), m) <= UpTo(rows, m)
    ensures |Filter(rows, keep)| <= |rows|
    ensures forall r <- Filter(rows, keep) :: r in rows
  {
    if rows != [] {
      FilterShrinks(rows[1..], keep, m);
      UpToAppend(if keep(rows[0]) then [rows[0]] else [], Filter(rows[1..], keep), m);
      assert keep(rows[0]) ==> [rows[0]][1..] == [];
    }
  }

  lemma {:induction false} FilterAscends(rows: seq<Row>, keep: Row -> bool)
    requires forall i, j | 0 <= i < j < |rows| :: rows[i].id < rows[j].id
    ensures forall i, j | 0 <= i < j < |Filter(rows, keep)| :: Filter(rows, keep)[i].id < Filter(rows, keep)[j].id
  {
    if rows != [] {
      FilterAscends(rows[1..], keep);
      FilterShrinks(rows[1..], keep, 0);
      forall r <- Filter(rows[1..], keep) ensures rows[0].id < r.id {
        var i :| 0 <= i < |rows[1..]| && rows[1..][i] == r;
        assert rows[i + 1] == r;
      }
    }
  }

  lemma RemoveCapped(t: Table, keep: Row -> bool, cap: nat, every: nat)
    requires Capped(t, cap, every)
    ensures Capped(Removed(t, keep), cap, every)
  {
    FilterShrinks(t.rows, keep, LastCadence(t.lastId, every));
    FilterAscends(t.rows, keep);
    forall i | 0 <= i < |Filter(t.rows, keep)| ensures 1 <= Filter(t.rows, keep)[i].id <= t.lastId {
      assert Filter(t.rows, keep)[i] in t.rows;
    }
  }

  lemma CadenceStays(id: nat, every: nat)
    requires id >= 1 && !Cadence(id, every)
    ensures LastCadence(id, every) == LastCadence(id - 1, every) < id
  {
    var q, r := id / every, id % every;
    assert id - 1 == q * every + (r - 1);
    DivModUnique(id - 1, every, q, r - 1);
  }

  lemma DivModUnique(n: nat, d: nat, q: nat, r: nat)
    requires d > 0 && r < d && n == q * d + r
    ensures n % d == r
  {
    var k := n / d;
    assert n == k * d + n % d;
    assert q * d == k * d + (q - k) * d;
    if k < q { MulAtLeast(q - k, d); }
    assert k * d == q * d + (k - q) * d;
    if k > q { MulAtLeast(k - q, d); }
  }

  lemma MulAtLeast(a: nat, d: nat)
    requires a >= 1
    ensures a * d >= d
  {
    assert a * d == (a - 1) * d + d;
  }

  lemma InsertCappedStays(t: Table, payload: string, cap: nat, every: nat)
    requires Capped(t, cap, every)
    ensures Capped(Inserted(t, payload, cap, every), cap, every)
    ensures Cadence(t.lastId + 1, every) ==> |Inserted(t, payload, cap, every).rows| <= cap
  {
    var id := t.lastId + 1;
    var u := Inserted(t, payload, cap, every);
    InsertKeepsNewest(t, payload, cap, every);
    if Cadence(id, every) {
      UpToLength(u.rows, LastCadence(id, every));
    } else {
      CadenceStays(id, every);
      UpToAppend(t.rows, [Row(id, payload)], LastCadence(id, every));
      assert [Row(id, payload)][1..] == [];
    }
  }

  /** Over every run of inserts and deletes the table is capped. */
  lemma {:induction false} RunCapped(ops: seq<Op>, cap: nat, every: nat)
    ensures Capped(Run(ops, cap, every), cap, every)
    decreases |ops|
  {
    if ops != [] {
      var before := Run(ops[..|ops| - 1], cap, every);
      RunCapped(ops[..|ops| - 1], cap, every);
      match ops[|ops| - 1]
      case Insert(p) => InsertCappedStays(before, p, cap, every);
      case Remove(keep) => RemoveCapped(before, keep, cap, every);
    }
  }

  /** The cap is a rolling bound: a run never leaves more than cap + every - 1 rows, and at most cap after
      an insert on the cadence. */
  lemma RollingBound(ops: seq<Op>, cap: nat, every: nat)
    ensures |Run(ops, cap, every).rows| <= cap + (if every <= 1 then 0 else every - 1)
    ensures ops != [] && ops[|ops| - 1].Insert? && Cadence(Run(ops, cap, every).lastId, every)
            ==> |Run(ops, cap, every).rows| <= cap
  {
    var t := Run(ops, cap, every);
    RunCapped(ops, cap, every);
    var m := LastCadence(t.lastId, every);
    assert m <= t.lastId;
    RowsAbove(t.rows, m, t.lastId);
    if every > 1 { assert t.lastId - m == t.lastId % every < every; }
    if ops != [] && ops[|ops| - 1].Insert? {
      RunCapped(ops[..|ops| - 1], cap, every);
      InsertCappedStays(Run(ops[..|ops| - 1], cap, every), ops[|ops| - 1].payload, cap, every);
    }
  }

  /** An insert never drops one of the `cap` newest rows, the new one included. */
  lemma InsertDropsNoNewest(ops: seq<Op>, payload: string, cap: nat, every: nat, i: nat)
    requires var t := Run(ops, cap, every); |t.rows| + 1 - cap <= i <= |t.rows|
    ensures var t := Run(ops, cap, every);
            (t.rows + [Row(t.lastId + 1, payload)])[i] in Inserted(t, payload, cap, every).rows
  {
    var t := Run(ops, cap, every);
    RunCapped(ops, cap, every);
    InsertKeepsNewest(t, payload, cap, every);
    var all := t.rows + [Row(t.lastId + 1, payload)];
    if |all| > cap {
      assert all[|all| - cap..][i - (|all| - cap)] == all[i];
    }
  }
}
