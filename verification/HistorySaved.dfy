/** What HistorySnapshots stores: after a save the rows and the texts are those that were given. */
module HistorySaved {
  import opened Common
  import opened HistorySnapshots

  /** The rows of one snapshot, in the order they were stored. */
  function RowsOf(rows: seq<StoredRow>, id: nat): seq<StoredRow> { Filter(rows, (r: StoredRow) => r.snap == id) }

  /** The rows are the given ones, in order. */
  predicate Hold(stored: seq<StoredRow>, given: seq<RowIn>) {
    |stored| == |given|
    && forall i | 0 <= i < |given| :: stored[i].digest == given[i].digest && stored[i].counters == given[i].counters
  }

  /** The `i`-th row is the last of its digest. */
  predicate LastOf(given: seq<RowIn>, i: nat)
    requires i < |given|
  {
    forall j | i < j < |given| :: given[j].digest != given[i].digest
  }

  /** A text of at most 8000 characters as it is, a longer one cut there and marked. */
  predicate Shortened(stored: string, text: string) {
    if |text| <= 8000 then stored == text
    else |stored| == 8001 && stored[..8000] == text[..8000] && stored[8000] == '\U{2026}'
  }

  lemma {:induction false} RowsOfAppend(a: seq<StoredRow>, b: seq<StoredRow>, id: nat)
    ensures RowsOf(a + b, id) == RowsOf(a, id) + RowsOf(b, id)
  {
    if a == [] {
      assert a + b == b;
    } else {
      assert (a + b)[1..] == a[1..] + b;
      RowsOfAppend(a[1..], b, id);
    }
  }

  lemma {:induction false} NoRowsOf(rows: seq<StoredRow>, id: nat)
    requires forall r <- rows :: r.snap != id
    ensures RowsOf(rows, id) == []
  {
    if rows != [] { NoRowsOf(rows[1..], id); }
  }

  lemma {:induction false} RowsOfOthers(rows: seq<StoredRow>, gone: nat, id: nat)
    requires gone != id
    ensures RowsOf(Filter(rows, (r: StoredRow) => r.snap != gone), id) == RowsOf(rows, id)
  {
    if rows != [] {
      RowsOfOthers(rows[1..], gone, id);
      var rest := Filter(rows[1..], (r: StoredRow) => r.snap != gone);
      if rows[0].snap != gone { assert ([rows[0]] + rest)[1..] == rest; } else { assert [] + rest == rest; }
    }
  }

  lemma {:induction false} DeletedAllRows(st: Store, ids: seq<nat>, id: nat)
    requires id !in ids
    ensures RowsOf(DeletedAll(st, ids).rows, id) == RowsOf(st.rows, id)
    decreases |ids|
  {
    hide RowsOf;
    if ids != [] {
      assert ids[0] != id;
      RowsOfOthers(st.rows, ids[0], id);
      DeletedAllRows(Deleted(st, ids[0]), ids[1..], id);
    }
  }

  lemma {:induction false} AddedRows(st: Store, id: nat, conn: string, given: seq<RowIn>)
    requires RowsOf(st.rows, id) == []
    ensures Hold(RowsOf(AddRows(st, id, conn, given).rows, id), given)
    decreases |given|
  {
    AddedAre(st, id, conn, given);
    RowsOfAppend(st.rows, AddRows(st, id, conn, given).rows[|st.rows|..], id);
    var more := AddRows(st, id, conn, given).rows[|st.rows|..];
    assert st.rows + more == AddRows(st, id, conn, given).rows;
    AllRowsOf(more, id);
    assert [] + more == more;
  }

  lemma {:induction false} AllRowsOf(rows: seq<StoredRow>, id: nat)
    requires forall r <- rows :: r.snap == id
    ensures RowsOf(rows, id) == rows
  {
    if rows != [] { AllRowsOf(rows[1..], id); }
  }

  /** The rows behind the old ones. */
  lemma {:induction false} AddedAre(st: Store, id: nat, conn: string, given: seq<RowIn>)
    ensures var rows := AddRows(st, id, conn, given).rows;
            && st.rows <= rows && Hold(rows[|st.rows|..], given) && forall r <- rows[|st.rows|..] :: r.snap == id
    decreases |given|
  {
    if given != [] {
      var one := AddRow(st, id, conn, given[0]);
      AddedAre(one, id, conn, given[1..]);
      var rows := AddRows(st, id, conn, given).rows;
      assert rows[|st.rows|..] == [rows[|st.rows|]] + rows[|one.rows|..];
      assert rows[|st.rows|] == one.rows[|st.rows|];
    }
  }

  lemma {:induction false} AddedText(st: Store, id: nat, conn: string, given: seq<RowIn>, i: nat)
    requires i < |given| && LastOf(given, i)
    ensures (conn, given[i].digest) in AddRows(st, id, conn, given).texts
    ensures Shortened(AddRows(st, id, conn, given).texts[(conn, given[i].digest)], given[i].text)
    decreases |given|
  {
    var one := AddRow(st, id, conn, given[0]);
    if i > 0 {
      assert forall j | i - 1 < j < |given| - 1 :: given[1..][j] == given[j + 1];
      AddedText(one, id, conn, given[1..], i - 1);
    } else {
      assert forall j | 0 <= j < |given| - 1 :: given[1..][j] == given[j + 1];
      OtherText(one, id, conn, given[1..], (conn, given[0].digest));
    }
  }

  /** The save says nothing of the text `k`. */
  predicate Unnamed(given: seq<RowIn>, conn: string, k: (string, string)) {
    k.0 != conn || forall i | 0 <= i < |given| :: given[i].digest != k.1
  }

  lemma {:induction false} OtherText(st: Store, id: nat, conn: string, given: seq<RowIn>, k: (string, string))
    requires Unnamed(given, conn, k)
    ensures var texts := AddRows(st, id, conn, given).texts;
            (k in texts <==> k in st.texts) && (k in texts ==> texts[k] == st.texts[k])
    decreases |given|
  {
    if given != [] {
      var one := AddRow(st, id, conn, given[0]);
      assert k in one.texts <==> k in st.texts;
      OtherText(one, id, conn, given[1..], k);
    }
  }

  // ---- A save ----

  /** What a save makes, step by step, as far as the rows and texts of what survives are concerned. */
  lemma SavedParts(st: Store, conn: string, name: string, now: int, given: seq<RowIn>, cap: nat, s: Snapshot)
    requires Coherent(st) && s in Saved(st, conn, name, now, given, cap).snaps
    ensures var added := AddRows(NewSnap(st, conn, name, now), st.lastId + 1, conn, given);
            RowsOf(Saved(st, conn, name, now, given, cap).rows, s.id) == RowsOf(added.rows, s.id)
    ensures s == Snapshot(st.lastId + 1, conn, name, now) || s in st.snaps
  {
    hide Coherent, AddRows, DeletedAll, Doomed, RowsOf;
    var started := NewSnap(st, conn, name, now);
    var added := AddRows(started, st.lastId + 1, conn, given);
    AddRowsKeeps(started, st.lastId + 1, conn, given);
    var ids := Ids(Doomed(added.snaps, conn, cap));
    DeletedAllKeeps(added, ids);
    DropKeepsSnaps(Rolled(st, conn, name, now, given, cap), conn);
    DeletedAllRows(added, ids, s.id);
  }

  lemma OldRows(st: Store, id: nat)
    requires Coherent(st) && id > st.lastId
    ensures RowsOf(st.rows, id) == []
  {
    forall r <- st.rows ensures r.snap != id { assert Owned(st, r); }
    NoRowsOf(st.rows, id);
  }

  /** A snapshot that its save keeps holds exactly the given rows, in order, with their counters. */
  lemma SaveStoresRows(st: Store, conn: string, name: string, now: int, given: seq<RowIn>, cap: nat)
    requires Coherent(st)
    requires Snapshot(st.lastId + 1, conn, name, now) in Saved(st, conn, name, now, given, cap).snaps
    ensures Hold(RowsOf(Saved(st, conn, name, now, given, cap).rows, st.lastId + 1), given)
  {
    hide Coherent, AddRows, Saved, RowsOf, Hold;
    SavedParts(st, conn, name, now, given, cap, Snapshot(st.lastId + 1, conn, name, now));
    OldRows(st, st.lastId + 1);
    AddedRows(NewSnap(st, conn, name, now), st.lastId + 1, conn, given);
  }

  /** The rows of every other snapshot that survives, of the same connection too, are as they were. */
  lemma SaveKeepsRows(st: Store, conn: string, name: string, now: int, given: seq<RowIn>, cap: nat, s: Snapshot)
    requires Coherent(st) && s in st.snaps && s in Saved(st, conn, name, now, given, cap).snaps
    ensures RowsOf(Saved(st, conn, name, now, given, cap).rows, s.id) == RowsOf(st.rows, s.id)
  {
    hide Coherent, AddRows, Saved, RowsOf, Hold;
    var started := NewSnap(st, conn, name, now);
    SavedParts(st, conn, name, now, given, cap, s);
    OldId(st, s);
    AddedAre(started, st.lastId + 1, conn, given);
    var rows := AddRows(started, st.lastId + 1, conn, given).rows;
    var more := rows[|st.rows|..];
    assert rows == st.rows + more;
    RowsOfAppend(st.rows, more, s.id);
    NoRowsOf(more, s.id);
    assert RowsOf(st.rows, s.id) + [] == RowsOf(st.rows, s.id);
  }

  lemma SavedTexts(st: Store, conn: string, name: string, now: int, given: seq<RowIn>, cap: nat, k: (string, string))
    ensures var texts := Saved(st, conn, name, now, given, cap).texts;
            var added := AddRows(NewSnap(st, conn, name, now), st.lastId + 1, conn, given).texts;
            k in texts ==> k in added && texts[k] == added[k]
  {
    hide AddRows, DeletedAll, Doomed, Refers;
    var started := NewSnap(st, conn, name, now);
    var added := AddRows(started, st.lastId + 1, conn, given);
    DeletedAllKeeps(added, Ids(Doomed(added.snaps, conn, cap)));
  }

  /** A surviving text that the save names is the last given for its digest, shortened; one that it does not
      name is as it was. */
  lemma SaveStoresTexts(st: Store, conn: string, name: string, now: int, given: seq<RowIn>, cap: nat,
                        k: (string, string))
    requires k in Saved(st, conn, name, now, given, cap).texts
    ensures var text := Saved(st, conn, name, now, given, cap).texts[k];
            && (forall i | 0 <= i < |given| && k == (conn, given[i].digest) && LastOf(given, i)
                  :: Shortened(text, given[i].text))
            && (Unnamed(given, conn, k) ==> k in st.texts && text == st.texts[k])
  {
    hide AddRows, Saved, LastOf, Shortened;
    var started := NewSnap(st, conn, name, now);
    SavedTexts(st, conn, name, now, given, cap, k);
    var text := Saved(st, conn, name, now, given, cap).texts[k];
    forall i | 0 <= i < |given| && k == (conn, given[i].digest) && LastOf(given, i)
      ensures Shortened(text, given[i].text)
    {
      AddedText(started, st.lastId + 1, conn, given, i);
    }
    if Unnamed(given, conn, k) {
      OtherText(started, st.lastId + 1, conn, given, k);
    }
  }

  /** The text of every digest of a kept snapshot is there. */
  lemma SavedTextIsThere(st: Store, conn: string, name: string, now: int, given: seq<RowIn>, cap: nat, i: nat)
    requires Coherent(st) && i < |given|
    requires Snapshot(st.lastId + 1, conn, name, now) in Saved(st, conn, name, now, given, cap).snaps
    ensures (conn, given[i].digest) in Saved(st, conn, name, now, given, cap).texts
  {
    hide Saved, Coherent, RowsOf, Refers;
    SaveStoresRows(st, conn, name, now, given, cap);
    SaveTexts(st, conn, name, now, given, cap);
    var u := Saved(st, conn, name, now, given, cap);
    var own := Snapshot(st.lastId + 1, conn, name, now);
    var r := RowsOf(u.rows, own.id)[i];
    RowIsThere(u.rows, own.id, r);
    Refer(u, own, r);
  }

  lemma RowIsThere(rows: seq<StoredRow>, id: nat, r: StoredRow)
    requires r in RowsOf(rows, id)
    ensures r in rows && r.snap == id
  {
  }

  lemma Refer(u: Store, s: Snapshot, r: StoredRow)
    requires s in u.snaps && r in u.rows && r.snap == s.id
    ensures Refers(u.snaps, u.rows, s.conn, r.digest)
  {
  }

  // ---- Which snapshots survive ----

  /** By time, and by id at one time. */
  predicate Later(x: Snapshot, s: Snapshot) { x.created > s.created || (x.created == s.created && x.id > s.id) }

  /** The snapshots of the connection that are later than `s`. */
  function LaterThan(all: seq<Snapshot>, s: Snapshot): seq<Snapshot> {
    Filter(all, (x: Snapshot) => x.conn == s.conn && Later(x, s))
  }

  lemma NotBehind(c: seq<Snapshot>, i: nat, j: nat)
    requires i <= j < |c| && Descending(c)
    ensures c[j].created < c[i].created || (c[j].created == c[i].created && c[j].id <= c[i].id)
  {
    if i < j { assert Newer(c[i], c[j]); }
  }

  lemma Rank(c: seq<Snapshot>, i: nat, later: seq<Snapshot>)
    requires i < |c| && Descending(c) && DistinctIds(c) && DistinctIds(later)
    requires forall x: Snapshot :: x in later <==> x in c && Later(x, c[i])
    ensures |later| == i
  {
    forall x <- later ensures x in c[..i] {
      var j :| 0 <= j < |c| && c[j] == x;
      if i <= j { NotBehind(c, i, j); }
      assert c[..i][j] == x;
    }
    forall x <- c[..i] ensures x in later {
      var j :| 0 <= j < i && c[..i][j] == x;
      assert c[j] == x && Newer(c[j], c[i]);
    }
    hide Descending, DistinctIds;
    FirstDistinct(c, i);
    Pigeonhole(later, c[..i]);
    Pigeonhole(c[..i], later);
  }

  /** Of the snapshots of the connection, the new one included, one survives a save if and only if fewer than
      `cap` are later. */
  lemma SaveKeepsLatest(st: Store, conn: string, name: string, now: int, given: seq<RowIn>, cap: nat, s: Snapshot)
    requires Coherent(st) && s.conn == conn && (s in st.snaps || s == Snapshot(st.lastId + 1, conn, name, now))
    ensures s in Saved(st, conn, name, now, given, cap).snaps
       <==> |LaterThan(st.snaps + [Snapshot(st.lastId + 1, conn, name, now)], s)| < cap
  {
    hide Saved, Candidates, Coherent, Descending;
    var own := Snapshot(st.lastId + 1, conn, name, now);
    var c := Candidates(st, conn, name, now);
    SaveKeepsNewest(st, conn, name, now, given, cap);
    CandidatesSorted(st, conn, name, now);
    NewSnapCoherent(st, conn, name, now);
    CandidatesDistinct(st, conn, name, now);
    var i :| 0 <= i < |c| && c[i] == s;
    LaterDistinct(NewSnap(st, conn, name, now), s);
    Rank(c, i, LaterThan(st.snaps + [own], s));
    var k := if |c| <= cap then |c| else cap;
    if i < k { assert c[..k][i] == s; }
    if s in c[..k] {
      var j :| 0 <= j < k && c[j] == s;
      OnePlace(c, i, j);
    }
  }

  lemma LaterDistinct(st: Store, s: Snapshot)
    requires Coherent(st)
    ensures DistinctIds(LaterThan(st.snaps, s))
  {
    FilterDistinct(st.snaps, (x: Snapshot) => x.conn == s.conn && Later(x, s));
  }

  lemma CandidatesDistinct(st: Store, conn: string, name: string, now: int)
    requires Coherent(st)
    ensures DistinctIds(Candidates(st, conn, name, now))
  {
    hide Candidates;
    CandidatesSorted(st, conn, name, now);
    DescendingDistinct(Candidates(st, conn, name, now), st, Snapshot(st.lastId + 1, conn, name, now));
  }
}
