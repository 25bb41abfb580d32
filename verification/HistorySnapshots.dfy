/** The digest snapshots of src-tauri/src/history.rs: three tables that refer to each other. */
module HistorySnapshots {
  import opened Common

  datatype Snapshot = Snapshot(id: nat, conn: string, name: string, created: int)

  datatype Counters = Counters(calls: int, totalMs: real, meanMs: real, rowsTotal: int, blksHit: int, blksRead: int)

  datatype RowIn = RowIn(digest: string, text: string, counters: Counters)

  datatype StoredRow = StoredRow(snap: nat, digest: string, counters: Counters)

  /** digest_snapshots, digest_snapshot_rows, digest_texts, and the last snapshot id ever given. */
  datatype Store = Store(snaps: seq<Snapshot>, rows: seq<StoredRow>, texts: map<(string, string), string>, lastId: nat)

  const MAX_QUERY_TEXT_CHARS: nat := 8000

  function Truncated(text: string): string {
    if |text| <= MAX_QUERY_TEXT_CHARS then text else text[..MAX_QUERY_TEXT_CHARS] + "\U{2026}"
  }

  // ---- Queries ----

  function OfConn(snaps: seq<Snapshot>, conn: string): seq<Snapshot> { Filter(snaps, (s: Snapshot) => s.conn == conn) }

  /** `ORDER BY created_at DESC, id DESC` */
  predicate Newer(a: Snapshot, b: Snapshot) { a.created > b.created || (a.created == b.created && a.id > b.id) }

  function InsertNewest(x: Snapshot, s: seq<Snapshot>): seq<Snapshot> {
    if s == [] || Newer(x, s[0]) then [x] + s else [s[0]] + InsertNewest(x, s[1..])
  }

  function NewestFirst(s: seq<Snapshot>): seq<Snapshot> {
    if s == [] then [] else InsertNewest(s[0], NewestFirst(s[1..]))
  }

  function Ids(s: seq<Snapshot>): seq<nat> { if s == [] then [] else [s[0].id] + Ids(s[1..]) }

  /** The snapshots of a connection beyond the cap, oldest last. */
  function Doomed(snaps: seq<Snapshot>, conn: string, cap: nat): seq<Snapshot> {
    var sorted := NewestFirst(OfConn(snaps, conn));
    if |sorted| <= cap then [] else sorted[cap..]
  }

  predicate Refers(snaps: seq<Snapshot>, rows: seq<StoredRow>, conn: string, digest: string) {
    exists r <- rows :: r.digest == digest && exists s <- snaps :: s.id == r.snap && s.conn == conn
  }

  // ---- Saving and deleting ----

  function AddRow(st: Store, id: nat, conn: string, r: RowIn): Store {
    st.(rows := st.rows + [StoredRow(id, r.digest, r.counters)],
      texts := st.texts[(conn, r.digest) := Truncated(r.text)])
  }

  function AddRows(st: Store, id: nat, conn: string, rows: seq<RowIn>): Store
    decreases |rows|
  {
    if rows == [] then st else AddRows(AddRow(st, id, conn, rows[0]), id, conn, rows[1..])
  }

  function DeleteRows(st: Store, id: nat): Store { st.(rows := Filter(st.rows, (r: StoredRow) => r.snap != id)) }

  function DeleteSnap(st: Store, id: nat): Store { st.(snaps := Filter(st.snaps, (s: Snapshot) => s.id != id)) }

  /** `delete_digest_snapshot`: the rows, then the snapshot. */
  function Deleted(st: Store, id: nat): Store { DeleteSnap(DeleteRows(st, id), id) }

  function DeletedAll(st: Store, ids: seq<nat>): Store
    decreases |ids|
  {
    if ids == [] then st else DeletedAll(Deleted(st, ids[0]), ids[1..])
  }

  function DropTexts(st: Store, conn: string): Store {
    st.(texts := map k | k in st.texts && (k.0 != conn || Refers(st.snaps, st.rows, conn, k.1)) :: st.texts[k])
  }

  function NewSnap(st: Store, conn: string, name: string, now: int): Store {
    st.(snaps := st.snaps + [Snapshot(st.lastId + 1, conn, name, now)], lastId := st.lastId + 1)
  }

  /** Everything a save does before it drops texts. */
  function Rolled(st: Store, conn: string, name: string, now: int, rows: seq<RowIn>, cap: nat): Store {
    var added := AddRows(NewSnap(st, conn, name, now), st.lastId + 1, conn, rows);
    DeletedAll(added, Ids(Doomed(added.snaps, conn, cap)))
  }

  function Saved(st: Store, conn: string, name: string, now: int, rows: seq<RowIn>, cap: nat): Store {
    DropTexts(Rolled(st, conn, name, now, rows, cap), conn)
  }

  lemma {:induction false} AddRowsKeeps(st: Store, id: nat, conn: string, rows: seq<RowIn>)
    ensures var r := AddRows(st, id, conn, rows);
            && r.snaps == st.snaps && r.lastId == st.lastId && st.rows <= r.rows
            && (forall k | k in st.texts || (k.0 == conn && exists x <- rows :: x.digest == k.1) :: k in r.texts)
            && (forall k | k in st.texts && k.0 != conn :: r.texts[k] == st.texts[k])
            && (forall k | k in r.texts && k.0 != conn :: k in st.texts)
            && (forall x | x in r.rows[|st.rows|..] :: x.snap == id && exists y <- rows :: y.digest == x.digest)
    decreases |rows|
  {
    if rows != [] {
      var one := AddRow(st, id, conn, rows[0]);
      AddRowsKeeps(one, id, conn, rows[1..]);
      var r := AddRows(st, id, conn, rows);
      assert r.rows[|st.rows|..] == [StoredRow(id, rows[0].digest, rows[0].counters)] + r.rows[|one.rows|..];
      assert forall y :: y in rows <==> y == rows[0] || y in rows[1..];
    }
  }

  lemma {:induction false} DeletedAllKeeps(st: Store, ids: seq<nat>)
    ensures var r := DeletedAll(st, ids);
            && r.texts == st.texts && r.lastId == st.lastId
            && (forall x :: x in r.snaps <==> x in st.snaps && x.id !in ids)
            && (forall x :: x in r.rows <==> x in st.rows && x.snap !in ids)
    decreases |ids|
  {
    if ids != [] {
      DeletedAllKeeps(Deleted(st, ids[0]), ids[1..]);
      assert forall i :: i in ids <==> i == ids[0] || i in ids[1..];
    }
  }

  class DigestStore {
    var snaps: seq<Snapshot>
    var rows: seq<StoredRow>
    var texts: map<(string, string), string>
    var lastId: nat

    constructor ()
      ensures State() == Store([], [], map[], 0)
    {
      snaps, rows, texts, lastId := [], [], map[], 0;
    }

    ghost function State(): Store
      reads this
    {
      Store(snaps, rows, texts, lastId)
    }

    /** `save_digest_snapshot_capped`, one transaction; `now` is the clock of the database. */
    method Save(conn: string, name: string, now: int, ins: seq<RowIn>, cap: nat) returns (id: nat)
      modifies this
      ensures State() == Saved(old(State()), conn, name, now, ins, cap) && id == lastId
    {
      hide AddRows, DeletedAll, Doomed, Refers;
      lastId := lastId + 1;
      id := lastId;
      snaps := snaps + [Snapshot(id, conn, name, now)];
      ghost var added := AddRows(State(), id, conn, ins);
      AddAll(id, conn, ins);
      AddRowsKeeps(NewSnap(old(State()), conn, name, now), id, conn, ins);
      RollOff(Ids(Doomed(snaps, conn, cap)));
      DeletedAllKeeps(added, Ids(Doomed(added.snaps, conn, cap)));
      texts := map k | k in texts && (k.0 != conn || Refers(snaps, rows, conn, k.1)) :: texts[k];
    }

    /** The rows of the new snapshot and their texts, the latest text winning. */
    method AddAll(id: nat, conn: string, ins: seq<RowIn>)
      modifies this
      ensures State() == AddRows(old(State()), id, conn, ins)
    {
      assert ins[0..] == ins;
      for i := 0 to |ins|
        invariant AddRows(State(), id, conn, ins[i..]) == AddRows(old(State()), id, conn, ins)
      {
        assert ins[i..][1..] == ins[i + 1..];
        var r := ins[i];
        rows := rows + [StoredRow(id, r.digest, r.counters)];
        texts := texts[(conn, r.digest) := Truncated(r.text)];
      }
    }

    method RollOff(doomed: seq<nat>)
      modifies this
      ensures State() == DeletedAll(old(State()), doomed)
    {
      assert doomed[0..] == doomed;
      for i := 0 to |doomed|
        invariant DeletedAll(State(), doomed[i..]) == DeletedAll(old(State()), doomed)
      {
        assert doomed[i..][1..] == doomed[i + 1..];
        Delete(doomed[i]);
      }
    }

    /** `delete_digest_snapshot_locked` */
    method Delete(id: nat)
      modifies this
      ensures State() == Deleted(old(State()), id)
    {
      rows := Filter(rows, (r: StoredRow) => r.snap != id);
      snaps := Filter(snaps, (s: Snapshot) => s.id != id);
    }
  }

  // ---- Coherence ----

  ghost predicate DistinctIds(snaps: seq<Snapshot>) {
    forall i, j | 0 <= i < j < |snaps| :: snaps[i].id != snaps[j].id
  }

  /** Row `r` belongs to a snapshot of the store. */
  ghost predicate Owned(st: Store, r: StoredRow) { exists s <- st.snaps :: s.id == r.snap }

  /** No row lacks its snapshot, or its text. */
  ghost predicate Coherent(st: Store) {
    && DistinctIds(st.snaps) && (forall s <- st.snaps :: 1 <= s.id <= st.lastId)
    && (forall r <- st.rows :: Owned(st, r))
    && (forall r, s | r in st.rows && s in st.snaps && s.id == r.snap :: (s.conn, r.digest) in st.texts)
  }

  lemma {:induction false} FilterDistinct(snaps: seq<Snapshot>, keep: Snapshot -> bool)
    requires DistinctIds(snaps)
    ensures DistinctIds(Filter(snaps, keep))
  {
    if snaps != [] {
      var rest := Filter(snaps[1..], keep);
      FilterDistinct(snaps[1..], keep);
      forall s <- rest ensures s.id != snaps[0].id {
        var i :| 0 <= i < |snaps[1..]| && snaps[1..][i] == s;
        assert snaps[i + 1] == s;
      }
    }
  }

  lemma SameIdSame(snaps: seq<Snapshot>, a: Snapshot, b: Snapshot)
    requires DistinctIds(snaps) && a in snaps && b in snaps && a.id == b.id
    ensures a == b
  {
    var i :| 0 <= i < |snaps| && snaps[i] == a;
    var j :| 0 <= j < |snaps| && snaps[j] == b;
  }

  /** Deleting the rows keeps coherence, and so does deleting the snapshot after them: a crash between
      the two steps leaves a snapshot without rows, never rows without a snapshot. */
  lemma DeleteCoherent(st: Store, id: nat)
    requires Coherent(st)
    ensures Coherent(DeleteRows(st, id)) && Coherent(Deleted(st, id))
  {
    var a, b := DeleteRows(st, id), Deleted(st, id);
    FilterDistinct(st.snaps, (s: Snapshot) => s.id != id);
    forall r <- b.rows ensures Owned(b, r) {
      var s :| s in st.snaps && s.id == r.snap;
      assert s in b.snaps;
    }
    forall r <- a.rows ensures Owned(a, r) {
      assert Owned(st, r);
    }
  }

  lemma {:induction false} DeletedAllCoherent(st: Store, ids: seq<nat>)
    requires Coherent(st)
    ensures Coherent(DeletedAll(st, ids))
    decreases |ids|
  {
    hide Coherent, Deleted;
    if ids != [] {
      DeleteCoherent(st, ids[0]);
      DeletedAllCoherent(Deleted(st, ids[0]), ids[1..]);
    }
  }

  lemma NewSnapCoherent(st: Store, conn: string, name: string, now: int)
    requires Coherent(st)
    ensures Coherent(NewSnap(st, conn, name, now))
  {
    var u := NewSnap(st, conn, name, now);
    assert forall s :: s in u.snaps <==> s in st.snaps || s == Snapshot(st.lastId + 1, conn, name, now);
    forall r <- u.rows ensures Owned(u, r) && r.snap <= st.lastId {
      var s :| s in st.snaps && s.id == r.snap;
      assert s in u.snaps;
    }
  }

  lemma AddRowCoherent(st: Store, s: Snapshot, r: RowIn)
    requires Coherent(st) && s in st.snaps
    ensures Coherent(AddRow(st, s.id, s.conn, r))
  {
    var u := AddRow(st, s.id, s.conn, r);
    forall x <- u.rows ensures Owned(u, x) {
      if x in st.rows { assert Owned(st, x); }
    }
    forall x, t | x in u.rows && t in u.snaps && t.id == x.snap ensures (t.conn, x.digest) in u.texts {
      if x !in st.rows { SameIdSame(st.snaps, s, t); }
    }
  }

  lemma {:induction false} AddRowsCoherent(st: Store, s: Snapshot, rows: seq<RowIn>)
    requires Coherent(st) && s in st.snaps
    ensures Coherent(AddRows(st, s.id, s.conn, rows))
    decreases |rows|
  {
    hide Coherent;
    if rows != [] {
      AddRowCoherent(st, s, rows[0]);
      AddRowsCoherent(AddRow(st, s.id, s.conn, rows[0]), s, rows[1..]);
    }
  }

  lemma DropTextsCoherent(st: Store, conn: string)
    requires Coherent(st)
    ensures Coherent(DropTexts(st, conn))
  {
    var u := DropTexts(st, conn);
    forall r <- u.rows ensures Owned(u, r) { assert Owned(st, r); }
    forall r, s | r in u.rows && s in u.snaps && s.id == r.snap ensures (s.conn, r.digest) in u.texts {
      assert (s.conn, r.digest) in st.texts;
      if s.conn == conn { assert Refers(st.snaps, st.rows, conn, r.digest); }
    }
  }

  lemma SaveCoherent(st: Store, conn: string, name: string, now: int, rows: seq<RowIn>, cap: nat)
    requires Coherent(st)
    ensures Coherent(Rolled(st, conn, name, now, rows, cap)) && Coherent(Saved(st, conn, name, now, rows, cap))
  {
    hide Coherent, AddRows, DeletedAll, Doomed, DropTexts;
    var started := NewSnap(st, conn, name, now);
    var s := Snapshot(st.lastId + 1, conn, name, now);
    NewSnapCoherent(st, conn, name, now);
    assert started.snaps[|st.snaps|] == s;
    AddRowsCoherent(started, s, rows);
    var added := AddRows(started, s.id, conn, rows);
    DeletedAllCoherent(added, Ids(Doomed(added.snaps, conn, cap)));
    DropTextsCoherent(Rolled(st, conn, name, now, rows, cap), conn);
  }

  datatype Op =
    | Save(conn: string, name: string, now: int, rows: seq<RowIn>, cap: nat)
    | Delete(id: nat)

  function Apply(st: Store, op: Op): Store {
    match op
    case Save(conn, name, now, rows, cap) => Saved(st, conn, name, now, rows, cap)
    case Delete(id) => Deleted(st, id)
  }

  function Run(ops: seq<Op>): Store {
    if ops == [] then Store([], [], map[], 0) else Apply(Run(ops[..|ops| - 1]), ops[|ops| - 1])
  }

  /** Over every run of saves and deletes, whatever the clock does, the store is coherent. */
  lemma {:induction false} RunCoherent(ops: seq<Op>)
    ensures Coherent(Run(ops))
    decreases |ops|
  {
    if ops != [] {
      hide Coherent, Saved, Deleted;
      RunCoherent(ops[..|ops| - 1]);
      match ops[|ops| - 1]
      case Save(conn, name, now, rows, cap) => SaveCoherent(Run(ops[..|ops| - 1]), conn, name, now, rows, cap);
      case Delete(id) => DeleteCoherent(Run(ops[..|ops| - 1]), id);
    } else {
      NothingCoherent();
    }
  }

  lemma NothingCoherent()
    ensures Coherent(Store([], [], map[], 0))
  {
  }

  // ---- Newest first ----

  ghost predicate Descending(s: seq<Snapshot>) { forall i, j | 0 <= i < j < |s| :: Newer(s[i], s[j]) }

  lemma {:induction false} InsertSorted(x: Snapshot, s: seq<Snapshot>)
    requires Descending(s) && forall y <- s :: y.id != x.id
    ensures Descending(InsertNewest(x, s)) && |InsertNewest(x, s)| == |s| + 1
    ensures forall y :: y in InsertNewest(x, s) <==> y == x || y in s
  {
    var r := InsertNewest(x, s);
    if s == [] || Newer(x, s[0]) {
      forall j | 0 <= j < |s| ensures Newer(x, s[j]) { }
    } else {
      InsertSorted(x, s[1..]);
      forall j | 1 <= j < |r| ensures Newer(r[0], r[j]) {
        assert r[j] == InsertNewest(x, s[1..])[j - 1] && r[j] in InsertNewest(x, s[1..]);
        if r[j] != x {
          var i :| 0 <= i < |s[1..]| && s[1..][i] == r[j];
          assert s[i + 1] == r[j];
        } else {
          assert s[0] in s;
        }
      }
    }
  }

  lemma {:induction false} NewestSorted(s: seq<Snapshot>)
    requires DistinctIds(s)
    ensures Descending(NewestFirst(s)) && |NewestFirst(s)| == |s|
    ensures forall y :: y in NewestFirst(s) <==> y in s
  {
    if s != [] {
      NewestSorted(s[1..]);
      forall y <- NewestFirst(s[1..]) ensures y.id != s[0].id {
        var i :| 0 <= i < |s[1..]| && s[1..][i] == y;
        assert s[i + 1] == y;
      }
      InsertSorted(s[0], NewestFirst(s[1..]));
    }
  }

  lemma {:induction false} IdsOf(s: seq<Snapshot>)
    ensures forall i :: i in Ids(s) <==> exists x <- s :: x.id == i
  {
    if s != [] {
      IdsOf(s[1..]);
      assert forall x :: x in s <==> x == s[0] || x in s[1..];
    }
  }

  /** Distinct members of a sequence are no more than its length. */
  lemma {:induction false} Pigeonhole(a: seq<Snapshot>, b: seq<Snapshot>)
    requires DistinctIds(a) && forall x <- a :: x in b
    ensures |a| <= |b|
    decreases |a|
  {
    if a != [] {
      assert a[0] in a;
      var k :| 0 <= k < |b| && b[k] == a[0];
      var rest := b[..k] + b[k + 1..];
      forall x <- a[1..] ensures x in rest {
        var i :| 0 <= i < |a[1..]| && a[1..][i] == x;
        assert a[i + 1] == x && x in a && x.id != a[0].id;
        var j :| 0 <= j < |b| && b[j] == x;
        assert j < k ==> rest[j] == x;
        assert j > k ==> rest[j - 1] == x;
      }
      Pigeonhole(a[1..], rest);
    }
  }

  // ---- What a save leaves ----

  /** The snapshots of the connection that a save keeps: the newest of all, its own included. */
  ghost function Candidates(st: Store, conn: string, name: string, now: int): seq<Snapshot> {
    NewestFirst(OfConn(NewSnap(st, conn, name, now).snaps, conn))
  }

  lemma CandidatesSorted(st: Store, conn: string, name: string, now: int)
    requires Coherent(st)
    ensures var c := Candidates(st, conn, name, now);
            && Descending(c)
            && forall s ::
                 s in c <==> s.conn == conn && (s in st.snaps || s == Snapshot(st.lastId + 1, conn, name, now))
  {
    NewSnapCoherent(st, conn, name, now);
    var u := NewSnap(st, conn, name, now);
    FilterDistinct(u.snaps, (s: Snapshot) => s.conn == conn);
    NewestSorted(OfConn(u.snaps, conn));
  }

  /** Of the connection's snapshots exactly the `cap` newest are kept; of the others, all. */
  lemma SaveKeepsNewest(st: Store, conn: string, name: string, now: int, rows: seq<RowIn>, cap: nat)
    requires Coherent(st)
    ensures var c := Candidates(st, conn, name, now);
            var u := Saved(st, conn, name, now, rows, cap);
            && (forall s: Snapshot | s.conn == conn :: s in u.snaps <==> s in c[..if |c| <= cap then |c| else cap])
            && (forall s: Snapshot | s.conn != conn :: s in u.snaps <==> s in st.snaps)
  {
    hide Coherent, AddRows, DeletedAll, DropTexts;
    var started := NewSnap(st, conn, name, now);
    var added := AddRows(started, st.lastId + 1, conn, rows);
    AddRowsKeeps(started, st.lastId + 1, conn, rows);
    var c := Candidates(st, conn, name, now);
    var doomed := Doomed(added.snaps, conn, cap);
    DeletedAllKeeps(added, Ids(doomed));
    DropKeepsSnaps(Rolled(st, conn, name, now, rows, cap), conn);
    IdsOf(doomed);
    CandidatesSorted(st, conn, name, now);
    NewSnapCoherent(st, conn, name, now);
    assert doomed == if |c| <= cap then [] else c[cap..];
    hide Candidates, Doomed, Ids, Saved, Descending;
    Survivors(started, conn, c, if |c| <= cap then |c| else cap, doomed);
  }

  lemma Survivors(st: Store, conn: string, c: seq<Snapshot>, k: nat, doomed: seq<Snapshot>)
    requires Coherent(st) && Descending(c) && k <= |c| && doomed == c[k..]
    requires forall s: Snapshot :: s in c <==> s.conn == conn && s in st.snaps
    ensures forall s: Snapshot | s.conn == conn :: s in c[..k] <==> s in st.snaps && s.id !in Ids(doomed)
    ensures forall s: Snapshot | s.conn != conn && s in st.snaps :: s.id !in Ids(doomed)
  {
    hide Coherent, Descending, Ids;
    assert c == c[..k] + c[k..];
    forall s: Snapshot | s in st.snaps ensures s.id in Ids(doomed) <==> s in doomed { DoomedById(st, s, doomed); }
    forall s: Snapshot | s in c[..k] ensures s !in doomed { Apart(c, k, s); }
  }

  lemma OnePlace(c: seq<Snapshot>, i: nat, j: nat)
    requires Descending(c) && i < |c| && j < |c|
    ensures i != j ==> c[i] != c[j]
  {
    if i < j { assert Newer(c[i], c[j]); }
    if j < i { assert Newer(c[j], c[i]); }
  }

  lemma DropKeepsSnaps(st: Store, conn: string)
    ensures DropTexts(st, conn).snaps == st.snaps && DropTexts(st, conn).rows == st.rows
  {
  }

  lemma DoomedById(st: Store, s: Snapshot, doomed: seq<Snapshot>)
    requires Coherent(st) && s in st.snaps && forall d <- doomed :: d in st.snaps
    ensures s.id in Ids(doomed) <==> s in doomed
  {
    IdsOf(doomed);
    if s.id in Ids(doomed) {
      var d :| d in doomed && d.id == s.id;
      SameIdSame(st.snaps, s, d);
    }
  }

  lemma Apart(c: seq<Snapshot>, k: nat, s: Snapshot)
    requires Descending(c) && k <= |c| && s in c[..k]
    ensures s !in c[k..]
  {
    var i :| 0 <= i < k && c[i] == s;
    forall j | 0 <= j < |c| - k ensures c[k..][j] != s { assert Newer(c[i], c[k + j]); }
  }

  /** A save leaves at most `cap` snapshots of its connection. */
  lemma SaveFitsCap(st: Store, conn: string, name: string, now: int, rows: seq<RowIn>, cap: nat)
    requires Coherent(st)
    ensures |OfConn(Saved(st, conn, name, now, rows, cap).snaps, conn)| <= cap
  {
    hide Saved, Candidates;
    var u := Saved(st, conn, name, now, rows, cap);
    var c := Candidates(st, conn, name, now);
    SaveKeepsNewest(st, conn, name, now, rows, cap);
    SaveCoherent(st, conn, name, now, rows, cap);
    FilterDistinct(u.snaps, (s: Snapshot) => s.conn == conn);
    Pigeonhole(OfConn(u.snaps, conn), c[..if |c| <= cap then |c| else cap]);
  }

  /** The texts a save leaves for its connection are exactly those its rows refer to; the texts of the
      other connections are as they were. */
  lemma SaveTexts(st: Store, conn: string, name: string, now: int, rows: seq<RowIn>, cap: nat)
    requires Coherent(st)
    ensures var u := Saved(st, conn, name, now, rows, cap);
            && (forall digest :: (conn, digest) in u.texts <==> Refers(u.snaps, u.rows, conn, digest))
            && (forall k: (string, string) | k.0 != conn ::
                 (k in u.texts <==> k in st.texts) && (k in u.texts ==> u.texts[k] == st.texts[k]))
  {
    hide AddRows, DeletedAll, Doomed;
    var started := NewSnap(st, conn, name, now);
    var added := AddRows(started, st.lastId + 1, conn, rows);
    AddRowsKeeps(started, st.lastId + 1, conn, rows);
    DeletedAllKeeps(added, Ids(Doomed(added.snaps, conn, cap)));
    SaveCoherent(st, conn, name, now, rows, cap);
    var u := Saved(st, conn, name, now, rows, cap);
    forall digest | Refers(u.snaps, u.rows, conn, digest) ensures (conn, digest) in u.texts {
      var r :| r in u.rows && r.digest == digest && exists s <- u.snaps :: s.id == r.snap && s.conn == conn;
      var s :| s in u.snaps && s.id == r.snap && s.conn == conn;
    }
  }

  /** The rows of the other connections are as they were. */
  lemma SaveOtherRows(st: Store, conn: string, name: string, now: int, rows: seq<RowIn>, cap: nat,
                      s: Snapshot, r: StoredRow)
    requires Coherent(st) && s in st.snaps && s.conn != conn && r.snap == s.id
    ensures r in Saved(st, conn, name, now, rows, cap).rows <==> r in st.rows
  {
    hide Coherent, AddRows, DeletedAll, DropTexts, Doomed;
    var started := NewSnap(st, conn, name, now);
    var added := AddRows(started, st.lastId + 1, conn, rows);
    AddRowsKeeps(started, st.lastId + 1, conn, rows);
    var doomed := Doomed(added.snaps, conn, cap);
    DeletedAllKeeps(added, Ids(doomed));
    DropKeepsSnaps(Rolled(st, conn, name, now, rows, cap), conn);
    SaveKeepsNewest(st, conn, name, now, rows, cap);
    assert s.id !in Ids(doomed);
    OldId(st, s);
    assert added.rows == st.rows + added.rows[|st.rows|..];
  }

  lemma OldId(st: Store, s: Snapshot)
    requires Coherent(st) && s in st.snaps
    ensures s.id <= st.lastId
  {
  }

  /** The snapshot just saved is kept exactly when fewer than `cap` of its connection carry a later time:
      a clock that steps back can make a save delete what it has written. */
  lemma SaveKeepsItself(st: Store, conn: string, name: string, now: int, rows: seq<RowIn>, cap: nat)
    requires Coherent(st)
    ensures Snapshot(st.lastId + 1, conn, name, now) in Saved(st, conn, name, now, rows, cap).snaps
            <==> |Filter(OfConn(st.snaps, conn), (s: Snapshot) => s.created > now)| < cap
  {
    hide Saved, Candidates;
    var own := Snapshot(st.lastId + 1, conn, name, now);
    var c := Candidates(st, conn, name, now);
    var later := Filter(OfConn(st.snaps, conn), (s: Snapshot) => s.created > now);
    SaveKeepsNewest(st, conn, name, now, rows, cap);
    CandidatesSorted(st, conn, name, now);
    var i :| 0 <= i < |c| && c[i] == own;
    OwnRank(st, c, own, i, later);
    var k := if |c| <= cap then |c| else cap;
    if i < k { assert c[..k][i] == own; }
    if own in c[..k] {
      var j :| 0 <= j < k && c[j] == own;
      OnePlace(c, i, j);
    }
  }

  /** Ahead of the new snapshot stand exactly those with a later time. */
  lemma OwnRank(st: Store, c: seq<Snapshot>, own: Snapshot, i: nat, later: seq<Snapshot>)
    requires Coherent(st) && i < |c| && c[i] == own && Descending(c) && own.id == st.lastId + 1
    requires forall s :: s in c <==> s.conn == own.conn && (s in st.snaps || s == own)
    requires later == Filter(OfConn(st.snaps, own.conn), (s: Snapshot) => s.created > own.created)
    ensures |later| == i
  {
    FilterDistinct(st.snaps, (s: Snapshot) => s.conn == own.conn);
    FilterDistinct(OfConn(st.snaps, own.conn), (s: Snapshot) => s.created > own.created);
    forall s <- later ensures s in c[..i] { LaterIsAhead(c, i, s); }
    forall s <- c[..i] ensures s in later {
      AheadIsNewer(c, i, s);
      OwnIsNewest(st, s, own);
    }
    hide Coherent, Descending, Filter;
    DescendingDistinct(c, st, own);
    FirstDistinct(c, i);
    Pigeonhole(later, c[..i]);
    Pigeonhole(c[..i], later);
  }

  lemma FirstDistinct(c: seq<Snapshot>, i: nat)
    requires DistinctIds(c) && i <= |c|
    ensures DistinctIds(c[..i])
  {
  }

  lemma LaterIsAhead(c: seq<Snapshot>, i: nat, s: Snapshot)
    requires Descending(c) && i < |c| && s in c && s.created > c[i].created
    ensures s in c[..i]
  {
    forall j | i <= j < |c| ensures c[j] != s { if i < j { assert Newer(c[i], c[j]); } }
    var j :| 0 <= j < |c| && c[j] == s;
    assert c[..i][j] == s;
  }

  lemma AheadIsNewer(c: seq<Snapshot>, i: nat, s: Snapshot)
    requires Descending(c) && i < |c| && s in c[..i]
    ensures s in c && Newer(s, c[i])
  {
    var j :| 0 <= j < i && c[..i][j] == s;
    assert c[j] == s;
  }

  lemma OwnIsNewest(st: Store, s: Snapshot, own: Snapshot)
    requires Coherent(st) && own.id == st.lastId + 1 && (s in st.snaps || s == own) && Newer(s, own)
    ensures s in st.snaps && s.created > own.created
  {
  }

  lemma DescendingDistinct(c: seq<Snapshot>, st: Store, own: Snapshot)
    requires Coherent(st) && Descending(c) && own.id == st.lastId + 1
    requires forall s <- c :: s in st.snaps || s == own
    ensures DistinctIds(c)
  {
    forall i, j | 0 <= i < j < |c| ensures c[i].id != c[j].id {
      assert Newer(c[i], c[j]);
      if c[i].id == c[j].id && c[i] in st.snaps && c[j] in st.snaps { SameIdSame(st.snaps, c[i], c[j]); }
    }
  }
}
