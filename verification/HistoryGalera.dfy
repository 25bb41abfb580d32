/** The cluster events of src-tauri/src/history.rs: an observation is stored once, and each connection
    keeps its newest. */
module HistoryGalera {
  import opened Common

  /** What is observed: the class of the transition, its summary, and the rest. */
  datatype Observation = Observation(kind: string, summary: string, detail: string, ok: bool)

  datatype Event = Event(id: nat, conn: string, seen: Observation, created: int)

  /** Rows in the order of their ids, and the last id ever given. */
  datatype Table = Table(rows: seq<Event>, lastId: nat)

  predicate Same(a: Observation, b: Observation) { a.kind == b.kind && a.summary == b.summary }

  function OfConn(rows: seq<Event>, conn: string): seq<Event> {
    if rows == [] then [] else (if rows[0].conn == conn then [rows[0]] else []) + OfConn(rows[1..], conn)
  }

  /** `SELECT ... ORDER BY id DESC LIMIT 1` */
  function Latest(rows: seq<Event>, conn: string): Option<Observation> {
    var c := OfConn(rows, conn);
    if c == [] then None else Some(c[|c| - 1].seen)
  }

  /** `ORDER BY created_at DESC, id DESC` */
  predicate Newer(a: Event, b: Event) { a.created > b.created || (a.created == b.created && a.id > b.id) }

  function CountNewer(rows: seq<Event>, e: Event): nat {
    if rows == [] then 0 else (if Newer(rows[0], e) then 1 else 0) + CountNewer(rows[1..], e)
  }

  /** The rows left when those of the connection behind its `cap` newest are deleted. */
  function RollOff(rows: seq<Event>, all: seq<Event>, conn: string, cap: nat): seq<Event> {
    if rows == [] then []
    else if BehindCap(all, conn, cap, rows[0]) then RollOff(rows[1..], all, conn, cap)
    else [rows[0]] + RollOff(rows[1..], all, conn, cap)
  }

  /** `id IN (SELECT id ... ORDER BY created_at DESC, id DESC LIMIT -1 OFFSET cap)` */
  predicate BehindCap(all: seq<Event>, conn: string, cap: nat, e: Event) {
    e.conn == conn && CountNewer(OfConn(all, conn), e) >= cap
  }

  function Recorded(t: Table, conn: string, seen: Observation, now: int, cap: nat): Table {
    var latest := Latest(t.rows, conn);
    if latest.Some? && Same(latest.value, seen) then t
    else
      var rows := t.rows + [Event(t.lastId + 1, conn, seen, now)];
      Table(RollOff(rows, rows, conn, cap), t.lastId + 1)
  }

  class GaleraTable {
    var rows: seq<Event>
    var lastId: nat

    constructor ()
      ensures State() == Table([], 0)
    {
      rows, lastId := [], 0;
    }

    ghost function State(): Table
      reads this
    {
      Table(rows, lastId)
    }

    /** `record_galera_event_capped`; `now` is the clock of the database. */
    method Record(conn: string, seen: Observation, now: int, cap: nat) returns (id: Option<nat>)
      modifies this
      ensures State() == Recorded(old(State()), conn, seen, now, cap)
      ensures id == if lastId == old(lastId) then None else Some(lastId)
    {
      var latest := Latest(rows, conn);
      if latest.Some? && latest.value.kind == seen.kind && latest.value.summary == seen.summary {
        return None;
      }
      lastId := lastId + 1;
      id := Some(lastId);
      rows := rows + [Event(lastId, conn, seen, now)];
      rows := RollOff(rows, rows, conn, cap);
    }
  }

  // ---- The simple form: drop repeats, keep the last of the rest ----

  datatype Call = Call(conn: string, seen: Observation, now: int)

  /** The observations of a connection, in order. */
  function Observed(calls: seq<Call>, conn: string): seq<Observation> {
    if calls == [] then []
    else
      var last := calls[|calls| - 1];
      Observed(calls[..|calls| - 1], conn) + if last.conn == conn then [last.seen] else []
  }

  /** Without the observations that repeat the one before. */
  function Dedup(seen: seq<Observation>): (r: seq<Observation>)
    ensures seen != [] ==> r != [] && Same(r[|r| - 1], seen[|seen| - 1])
  {
    if seen == [] then []
    else
      var d, x := Dedup(seen[..|seen| - 1]), seen[|seen| - 1];
      if d != [] && Same(d[|d| - 1], x) then d else d + [x]
  }

  function Suffix<T>(s: seq<T>, n: nat): seq<T> { if |s| <= n then s else s[|s| - n..] }

  function Run(calls: seq<Call>, cap: nat): Table {
    if calls == [] then Table([], 0)
    else
      var c := calls[|calls| - 1];
      Recorded(Run(calls[..|calls| - 1], cap), c.conn, c.seen, c.now, cap)
  }

  function Seen(events: seq<Event>): seq<Observation> {
    if events == [] then [] else [events[0].seen] + Seen(events[1..])
  }

  // ---- Which events of a connection a roll-off keeps ----

  predicate Ascending(s: seq<Event>) { forall i, j | 0 <= i < j < |s| :: s[i].id < s[j].id }

  /** The events of `s` with fewer than `cap` newer ones in `all`. */
  function Keep(s: seq<Event>, all: seq<Event>, cap: nat): seq<Event> {
    if s == [] then []
    else if CountNewer(all, s[0]) >= cap then Keep(s[1..], all, cap)
    else [s[0]] + Keep(s[1..], all, cap)
  }

  lemma {:induction false} OfConnMembers(rows: seq<Event>, conn: string)
    ensures forall e :: e in OfConn(rows, conn) <==> e in rows && e.conn == conn
  {
    if rows != [] {
      OfConnMembers(rows[1..], conn);
      assert forall e :: e in rows <==> e == rows[0] || e in rows[1..];
    }
  }

  lemma {:induction false} OfConnAscending(rows: seq<Event>, conn: string)
    requires Ascending(rows)
    ensures Ascending(OfConn(rows, conn))
  {
    if rows != [] {
      var rest := OfConn(rows[1..], conn);
      OfConnAscending(rows[1..], conn);
      OfConnMembers(rows[1..], conn);
      forall j | 0 <= j < |rest| ensures rows[0].id < rest[j].id { LaterId(rows, rest[j]); }
    }
  }

  lemma LaterId(rows: seq<Event>, e: Event)
    requires Ascending(rows) && rows != [] && e in rows[1..]
    ensures rows[0].id < e.id
  {
    var i :| 0 <= i < |rows[1..]| && rows[1..][i] == e;
    assert rows[i + 1] == e;
  }

  lemma {:induction false} OfConnAppend(a: seq<Event>, e: Event, conn: string)
    ensures OfConn(a + [e], conn) == OfConn(a, conn) + if e.conn == conn then [e] else []
  {
    if a == [] {
      assert [e][1..] == [];
    } else {
      assert (a + [e])[1..] == a[1..] + [e];
      OfConnAppend(a[1..], e, conn);
      Common.Assoc(if a[0].conn == conn then [a[0]] else [], OfConn(a[1..], conn), if e.conn == conn then [e] else []);
    }
  }

  lemma {:induction false} RollOffOthers(rows: seq<Event>, all: seq<Event>, conn: string, cap: nat, other: string)
    requires other != conn
    ensures OfConn(RollOff(rows, all, conn, cap), other) == OfConn(rows, other)
  {
    if rows != [] {
      var rest := RollOff(rows[1..], all, conn, cap);
      RollOffOthers(rows[1..], all, conn, cap, other);
      assert ([rows[0]] + rest)[1..] == rest && [] + rest == rest;
    }
  }

  lemma OfConnCons(e: Event, rows: seq<Event>, conn: string)
    ensures OfConn([e] + rows, conn) == if e.conn == conn then [e] + OfConn(rows, conn) else OfConn(rows, conn)
  {
    assert ([e] + rows)[1..] == rows;
  }

  lemma {:induction false} RollOffKeeps(rows: seq<Event>, all: seq<Event>, conn: string, cap: nat)
    ensures OfConn(RollOff(rows, all, conn, cap), conn) == Keep(OfConn(rows, conn), OfConn(all, conn), cap)
  {
    if rows != [] {
      assert rows == [rows[0]] + rows[1..];
      RollOffKeeps(rows[1..], all, conn, cap);
      OfConnCons(rows[0], rows[1..], conn);
      OfConnCons(rows[0], RollOff(rows[1..], all, conn, cap), conn);
      hide OfConn, CountNewer;
      if rows[0].conn == conn { KeepCons(rows[0], OfConn(rows[1..], conn), OfConn(all, conn), cap); }
    }
  }

  lemma KeepCons(e: Event, s: seq<Event>, all: seq<Event>, cap: nat)
    ensures Keep([e] + s, all, cap) == if CountNewer(all, e) >= cap then Keep(s, all, cap) else [e] + Keep(s, all, cap)
  {
    assert ([e] + s)[1..] == s;
  }

  lemma {:induction false} RollOffSubset(rows: seq<Event>, all: seq<Event>, conn: string, cap: nat)
    ensures forall e <- RollOff(rows, all, conn, cap) :: e in rows
    ensures Ascending(rows) ==> Ascending(RollOff(rows, all, conn, cap))
  {
    if rows != [] {
      RollOffSubset(rows[1..], all, conn, cap);
      var rest := RollOff(rows[1..], all, conn, cap);
      if Ascending(rows) {
        forall j | 0 <= j < |rest| ensures rows[0].id < rest[j].id { LaterId(rows, rest[j]); }
      }
    }
  }

  /** Every event but the `k`-th is newer than it. */
  predicate Oldest(s: seq<Event>, k: nat)
    requires k < |s|
  {
    forall i | 0 <= i < |s| && i != k :: Newer(s[i], s[k])
  }

  lemma {:induction false} CountNewerFits(s: seq<Event>, e: Event)
    ensures CountNewer(s, e) <= |s|
    ensures CountNewer(s, e) == |s| <==> forall i | 0 <= i < |s| :: Newer(s[i], e)
  {
    if s != [] {
      CountNewerFits(s[1..], e);
      assert forall i | 1 <= i < |s| :: s[i] == s[1..][i - 1];
      assert s[0] == s[0];
    }
  }

  lemma {:induction false} CountNewerAppend(a: seq<Event>, b: seq<Event>, e: Event)
    ensures CountNewer(a + b, e) == CountNewer(a, e) + CountNewer(b, e)
  {
    if a == [] {
      assert a + b == b;
    } else {
      assert (a + b)[1..] == a[1..] + b;
      CountNewerAppend(a[1..], b, e);
    }
  }

  /** An event has all others ahead of it exactly when it is the oldest. */
  lemma CountOfOldest(s: seq<Event>, k: nat)
    requires k < |s|
    ensures CountNewer(s, s[k]) < |s|
    ensures CountNewer(s, s[k]) == |s| - 1 <==> Oldest(s, k)
  {
    var a, e, b := s[..k], s[k], s[k + 1..];
    assert s == a + ([e] + b) && ([e] + b)[1..] == b;
    CountNewerAppend(a, [e] + b, e);
    CountNewerFits(a, e);
    CountNewerFits(b, e);
    assert CountNewer([e] + b, e) == CountNewer(b, e);
    hide CountNewer, Newer, Oldest;
    assert forall i | 0 <= i < k :: s[i] == a[i];
    assert forall i | k < i < |s| :: s[i] == b[i - k - 1];
    OldestParts(a, e, b, s, k);
  }

  lemma OldestParts(a: seq<Event>, e: Event, b: seq<Event>, s: seq<Event>, k: nat)
    requires k == |a| && |s| == |a| + 1 + |b| && s[k] == e
    requires forall i | 0 <= i < k :: s[i] == a[i]
    requires forall i | k < i < |s| :: s[i] == b[i - k - 1]
    ensures Oldest(s, k) <==> (forall i | 0 <= i < |a| :: Newer(a[i], e)) && (forall i | 0 <= i < |b| :: Newer(b[i], e))
  {
    hide Newer;
    if (forall i | 0 <= i < |a| :: Newer(a[i], e)) && (forall i | 0 <= i < |b| :: Newer(b[i], e)) {
      forall i | 0 <= i < |s| && i != k ensures Newer(s[i], s[k]) {
        if i < k { assert Newer(a[i], e); } else { assert Newer(b[i - k - 1], e); }
      }
    }
    if Oldest(s, k) {
      forall i | 0 <= i < |a| ensures Newer(a[i], e) { assert Newer(s[i], s[k]); }
      forall i | 0 <= i < |b| ensures Newer(b[i], e) { assert Newer(s[i + k + 1], s[k]); }
    }
  }

  lemma {:induction false} KeepAll(s: seq<Event>, all: seq<Event>, cap: nat)
    requires forall i | 0 <= i < |s| :: CountNewer(all, s[i]) < cap
    ensures Keep(s, all, cap) == s
  {
    if s != [] { KeepAll(s[1..], all, cap); }
  }

  lemma {:induction false} KeepFewer(s: seq<Event>, all: seq<Event>, cap: nat)
    ensures |Keep(s, all, cap)| <= |s|
    ensures (exists i :: 0 <= i < |s| && CountNewer(all, s[i]) >= cap) ==> |Keep(s, all, cap)| < |s|
  {
    if s != [] {
      KeepFewer(s[1..], all, cap);
      if exists i :: 0 <= i < |s| && CountNewer(all, s[i]) >= cap {
        var i :| 0 <= i < |s| && CountNewer(all, s[i]) >= cap;
        if i > 0 { assert s[1..][i - 1] == s[i]; }
      }
    }
  }

  lemma {:induction false} SomeOldest(s: seq<Event>) returns (k: nat)
    requires Ascending(s) && s != []
    ensures k < |s| && Oldest(s, k)
  {
    if |s| == 1 {
      k := 0;
    } else {
      var j := SomeOldest(s[1..]);
      forall i | 1 <= i < |s| && i != j + 1 ensures Newer(s[i], s[j + 1]) { assert Newer(s[1..][i - 1], s[1..][j]); }
      k := if Newer(s[0], s[j + 1]) then j + 1 else 0;
    }
  }

  /** Of at most one event too many, all but the oldest stay: the last `cap` exactly when the one recorded
      first is the oldest. */
  lemma KeepsLast(s: seq<Event>, cap: nat)
    requires Ascending(s) && |s| <= cap + 1
    ensures |Keep(s, s, cap)| <= cap
    ensures Keep(s, s, cap) == Suffix(s, cap) <==> |s| <= cap || Oldest(s, 0)
    ensures |s| > 1 && |s| > cap && !Oldest(s, 0) ==> Keep(s, s, cap) != [] && Keep(s, s, cap)[0] == s[0]
  {
    forall k | 0 <= k < |s| ensures CountNewer(s, s[k]) < |s| && (CountNewer(s, s[k]) == |s| - 1 <==> Oldest(s, k)) {
      CountOfOldest(s, k);
    }
    if |s| <= cap {
      KeepAll(s, s, cap);
    } else {
      var k := SomeOldest(s);
      KeepFewer(s, s, cap);
      if Oldest(s, 0) {
        forall i | 0 <= i < |s[1..]| ensures CountNewer(s, s[1..][i]) < cap { NotOldest(s, i + 1); }
        KeepAll(s[1..], s, cap);
      }
    }
  }

  lemma NotOldest(s: seq<Event>, k: nat)
    requires 0 < k < |s| && Oldest(s, 0)
    ensures !Oldest(s, k) && CountNewer(s, s[k]) < |s| - 1
  {
    CountOfOldest(s, k);
    assert Newer(s[k], s[0]);
  }

  // ---- One recording ----

  ghost predicate Valid(t: Table, cap: nat) {
    && Ascending(t.rows) && (forall e <- t.rows :: e.id <= t.lastId)
    && (forall conn :: |OfConn(t.rows, conn)| <= cap)
  }

  predicate Repeats(t: Table, conn: string, seen: Observation) {
    Latest(t.rows, conn).Some? && Same(Latest(t.rows, conn).value, seen)
  }

  /** No event of the connection, and not the one recorded `now`, is older than its first. */
  predicate FirstIsOldest(c: seq<Event>, now: int) {
    c != [] ==> c[0].created <= now && forall i | 0 <= i < |c| :: c[0].created <= c[i].created
  }

  lemma FirstOldest(c: seq<Event>, e: Event)
    requires Ascending(c + [e])
    ensures Oldest(c + [e], 0) <==> FirstIsOldest(c, e.created)
  {
    var s := c + [e];
    if c != [] {
      assert s[0] == c[0] && s[|c|] == e;
      assert forall i | 0 < i < |c| :: s[i] == c[i];
      if Oldest(s, 0) {
        assert Newer(s[|c|], s[0]);
        forall i | 0 <= i < |c| ensures c[0].created <= c[i].created { if i > 0 { assert Newer(s[i], s[0]); } }
      }
      if FirstIsOldest(c, e.created) {
        forall i | 0 < i < |s| ensures Newer(s[i], s[0]) { assert s[0].id < s[i].id; }
      }
    }
  }

  lemma AppendAscends(t: Table, e: Event, cap: nat)
    requires Valid(t, cap) && e.id == t.lastId + 1
    ensures Ascending(t.rows + [e]) && Ascending(OfConn(t.rows, e.conn) + [e])
  {
    assert forall i | 0 <= i < |t.rows| :: t.rows[i] in t.rows;
    OfConnAscending(t.rows + [e], e.conn);
    OfConnAppend(t.rows, e, e.conn);
  }

  /** What a recording leaves of its connection, and of another. */
  lemma RecordedOf(t: Table, conn: string, seen: Observation, now: int, cap: nat, other: string)
    requires !Repeats(t, conn, seen)
    ensures var e := Event(t.lastId + 1, conn, seen, now); var c := OfConn(t.rows, conn) + [e];
            && OfConn(Recorded(t, conn, seen, now, cap).rows, conn) == Keep(c, c, cap)
            && (other != conn ==> OfConn(Recorded(t, conn, seen, now, cap).rows, other) == OfConn(t.rows, other))
  {
    hide OfConn, RollOff, Keep;
    var e := Event(t.lastId + 1, conn, seen, now);
    var rows := t.rows + [e];
    OfConnAppend(t.rows, e, conn);
    OfConnAppend(t.rows, e, other);
    RollOffKeeps(rows, rows, conn, cap);
    assert OfConn(t.rows, other) + [] == OfConn(t.rows, other);
    if other != conn { RollOffOthers(rows, rows, conn, cap, other); }
  }

  /** A recording leaves the last `cap` events of its connection, the new one included, if and only if the
      cap is not reached yet or the event recorded first is the oldest by the clock. */
  lemma RecordKeepsLast(t: Table, conn: string, seen: Observation, now: int, cap: nat)
    requires Valid(t, cap) && !Repeats(t, conn, seen)
    ensures var c := OfConn(t.rows, conn);
            OfConn(Recorded(t, conn, seen, now, cap).rows, conn) ==
              Suffix(c + [Event(t.lastId + 1, conn, seen, now)], cap)
            <==> |c| < cap || FirstIsOldest(c, now)
  {
    var e := Event(t.lastId + 1, conn, seen, now);
    var c := OfConn(t.rows, conn);
    RecordedOf(t, conn, seen, now, cap, conn);
    AppendAscends(t, e, cap);
    KeepsLast(c + [e], cap);
    FirstOldest(c, e);
  }

  lemma RecordedIs(t: Table, conn: string, seen: Observation, now: int, cap: nat)
    ensures var rows := t.rows + [Event(t.lastId + 1, conn, seen, now)];
            Recorded(t, conn, seen, now, cap)
            == if Repeats(t, conn, seen) then t else Table(RollOff(rows, rows, conn, cap), t.lastId + 1)
  {
  }

  lemma RecordAscends(t: Table, e: Event, cap: nat)
    requires Valid(t, cap) && e.id == t.lastId + 1
    ensures var rows := RollOff(t.rows + [e], t.rows + [e], e.conn, cap);
            Ascending(rows) && forall x <- rows :: x.id <= e.id
  {
    AppendAscends(t, e, cap);
    RollOffSubset(t.rows + [e], t.rows + [e], e.conn, cap);
  }

  lemma RecordFits(t: Table, conn: string, seen: Observation, now: int, cap: nat, other: string)
    requires Valid(t, cap) && !Repeats(t, conn, seen)
    ensures |OfConn(Recorded(t, conn, seen, now, cap).rows, other)| <= cap
  {
    var e := Event(t.lastId + 1, conn, seen, now);
    AppendAscends(t, e, cap);
    RecordedOf(t, conn, seen, now, cap, other);
    assert |OfConn(t.rows, conn)| <= cap && |OfConn(t.rows, other)| <= cap;
    hide Recorded, Keep, OfConn, Suffix, Repeats, Valid;
    KeepsLast(OfConn(t.rows, conn) + [e], cap);
  }

  /** Whatever the clock does, a connection never has more than `cap` events. */
  lemma RecordValid(t: Table, conn: string, seen: Observation, now: int, cap: nat)
    requires Valid(t, cap)
    ensures Valid(Recorded(t, conn, seen, now, cap), cap)
  {
    hide OfConn, RollOff, Repeats, Ascending;
    RecordedIs(t, conn, seen, now, cap);
    hide Recorded;
    if !Repeats(t, conn, seen) {
      RecordAscends(t, Event(t.lastId + 1, conn, seen, now), cap);
      forall other ensures |OfConn(Recorded(t, conn, seen, now, cap).rows, other)| <= cap {
        RecordFits(t, conn, seen, now, cap, other);
      }
    }
  }

  lemma {:induction false} RunValid(calls: seq<Call>, cap: nat)
    ensures Valid(Run(calls, cap), cap)
    decreases |calls|
  {
    hide Valid, Recorded;
    if calls == [] {
      NothingStored(cap);
    } else {
      var c := calls[|calls| - 1];
      RunValid(calls[..|calls| - 1], cap);
      RecordValid(Run(calls[..|calls| - 1], cap), c.conn, c.seen, c.now, cap);
    }
  }

  lemma NothingStored(cap: nat)
    ensures Valid(Table([], 0), cap) && forall conn :: OfConn([], conn) == []
  {
  }

  // ---- Runs against the simple form ----

  lemma {:induction false} SeenAppend(a: seq<Event>, e: Event)
    ensures Seen(a + [e]) == Seen(a) + [e.seen]
  {
    if a == [] {
      assert [e][1..] == [];
    } else {
      assert (a + [e])[1..] == a[1..] + [e];
      SeenAppend(a[1..], e);
    }
  }

  lemma {:induction false} SeenLength(a: seq<Event>)
    ensures |Seen(a)| == |a| && (forall i | 0 <= i < |a| :: Seen(a)[i] == a[i].seen)
  {
    if a != [] { SeenLength(a[1..]); }
  }

  lemma SeenSuffix(a: seq<Event>, n: nat)
    ensures Seen(Suffix(a, n)) == Suffix(Seen(a), n)
  {
    SeenLength(a);
    SeenLength(Suffix(a, n));
  }

  /** Cutting to the newest, then adding and cutting again, is adding and cutting once. */
  lemma SuffixPush<T>(s: seq<T>, x: T, n: nat)
    ensures Suffix(Suffix(s, n) + [x], n) == Suffix(s + [x], n)
  {
  }

  /** What is stored of the connection is the end of its observations without repeats. */
  predicate Refines(t: Table, calls: seq<Call>, cap: nat, conn: string) {
    Seen(OfConn(t.rows, conn)) == Suffix(Dedup(Observed(calls, conn)), cap)
  }

  /** If the next call records an event of the connection beyond the cap, its first event is the oldest. */
  predicate InTime(t: Table, c: Call, cap: nat, conn: string) {
    c.conn == conn && !Repeats(t, conn, c.seen) && |OfConn(t.rows, conn)| >= cap ==>
      FirstIsOldest(OfConn(t.rows, conn), c.now)
  }

  lemma LatestIs(t: Table, calls: seq<Call>, cap: nat, conn: string)
    requires Refines(t, calls, cap, conn) && cap > 0
    ensures var d := Dedup(Observed(calls, conn));
            Latest(t.rows, conn) == if d == [] then None else Some(d[|d| - 1])
  {
    var c, d := OfConn(t.rows, conn), Dedup(Observed(calls, conn));
    SeenLength(c);
    if d != [] { assert Seen(c)[|c| - 1] == d[|d| - 1]; }
  }

  lemma ObservedPush(calls: seq<Call>, conn: string)
    requires calls != []
    ensures var c := calls[|calls| - 1]; var before := Dedup(Observed(calls[..|calls| - 1], conn));
            var dropped := c.conn != conn || (before != [] && Same(before[|before| - 1], c.seen));
            Dedup(Observed(calls, conn)) == if dropped then before
                                            else before + [c.seen]
  {
    var c, o := calls[|calls| - 1], Observed(calls[..|calls| - 1], conn);
    if c.conn == conn { assert (o + [c.seen])[..|o|] == o; } else { assert o + [] == o; }
  }

  ghost predicate Differ(d: seq<Observation>) { forall i, j | 0 <= i < j < |d| && j == i + 1 :: !Same(d[i], d[j]) }

  lemma DifferPush(d: seq<Observation>, x: Observation)
    requires Differ(d) && (d != [] ==> !Same(d[|d| - 1], x))
    ensures Differ(d + [x])
  {
    forall i, j | 0 <= i < j < |d + [x]| && j == i + 1 ensures !Same((d + [x])[i], (d + [x])[j]) {
      if j < |d| { assert !Same(d[i], d[j]); }
    }
  }

  lemma DifferSuffix(d: seq<Observation>, n: nat)
    requires Differ(d)
    ensures Differ(Suffix(d, n))
  {
    var s, off := Suffix(d, n), |d| - |Suffix(d, n)|;
    forall i, j | 0 <= i < j < |s| && j == i + 1 ensures !Same(s[i], s[j]) {
      assert s[i] == d[off + i] && s[j] == d[off + j];
    }
  }

  lemma {:induction false} DedupDiffers(seen: seq<Observation>)
    ensures Differ(Dedup(seen))
    decreases |seen|
  {
    if seen != [] {
      var before := Dedup(seen[..|seen| - 1]);
      DedupDiffers(seen[..|seen| - 1]);
      if before == [] || !Same(before[|before| - 1], seen[|seen| - 1]) { DifferPush(before, seen[|seen| - 1]); }
    }
  }

  /** Without repeats, the last `cap` and what is left when another than the first goes differ. */
  lemma SeenTellsApart(s: seq<Event>, cap: nat)
    requires Ascending(s) && 0 < cap && |s| <= cap + 1 && Differ(Seen(s))
    ensures Seen(Keep(s, s, cap)) == Suffix(Seen(s), cap) <==> |s| <= cap || Oldest(s, 0)
  {
    KeepsLast(s, cap);
    SeenSuffix(s, cap);
    SeenLength(s);
    SeenLength(Keep(s, s, cap));
    hide Keep, Oldest, Seen, Same;
    if |s| > cap && !Oldest(s, 0) {
      assert !Same(Seen(s)[0], Seen(s)[1]);
      NotSame(Seen(s)[0], Seen(s)[1]);
      assert Seen(Keep(s, s, cap))[0] == Seen(s)[0] && Suffix(Seen(s), cap)[0] == Seen(s)[1];
    }
  }

  lemma NotSame(a: Observation, b: Observation)
    requires !Same(a, b)
    ensures a != b
  {
  }

  /** One call: refinement goes on exactly when the call is in time. */
  lemma CallRefines(t: Table, calls: seq<Call>, cap: nat, conn: string)
    requires calls != [] && cap > 0 && Valid(t, cap) && Refines(t, calls[..|calls| - 1], cap, conn)
    ensures var c := calls[|calls| - 1];
            Refines(Recorded(t, c.conn, c.seen, c.now, cap), calls, cap, conn) <==> InTime(t, c, cap, conn)
  {
    hide Dedup, Observed, Keep, OfConn, Seen, Suffix, Valid, Same, Latest, RollOff, Recorded, FirstIsOldest;
    var before, c := calls[..|calls| - 1], calls[|calls| - 1];
    ObservedPush(calls, conn);
    LatestIs(t, before, cap, conn);
    RecordedIs(t, c.conn, c.seen, c.now, cap);
    DedupDiffers(Observed(before, conn));
    if c.conn == conn {
      if !Repeats(t, conn, c.seen) { OwnCall(t, c, cap, Dedup(Observed(before, conn))); }
    } else if !Repeats(t, c.conn, c.seen) {
      RecordedOf(t, c.conn, c.seen, c.now, cap, conn);
    }
  }

  lemma OwnCall(t: Table, c: Call, cap: nat, d: seq<Observation>)
    requires cap > 0 && Valid(t, cap) && !Repeats(t, c.conn, c.seen)
    requires Seen(OfConn(t.rows, c.conn)) == Suffix(d, cap) && Differ(d)
    requires d != [] ==> !Same(d[|d| - 1], c.seen)
    ensures Seen(OfConn(Recorded(t, c.conn, c.seen, c.now, cap).rows, c.conn)) == Suffix(d + [c.seen], cap)
       <==> |OfConn(t.rows, c.conn)| < cap || FirstIsOldest(OfConn(t.rows, c.conn), c.now)
  {
    var e := Event(t.lastId + 1, c.conn, c.seen, c.now);
    var s := OfConn(t.rows, c.conn) + [e];
    RecordedOf(t, c.conn, c.seen, c.now, cap, c.conn);
    AppendAscends(t, e, cap);
    FirstOldest(OfConn(t.rows, c.conn), e);
    SeenAppend(OfConn(t.rows, c.conn), e);
    SuffixPush(d, c.seen, cap);
    hide OfConn, Seen, Keep, Ascending, Oldest, FirstIsOldest, Recorded, Same, Suffix, Differ;
    DifferSuffix(d, cap);
    SuffixEnds(d, cap);
    DifferPush(Suffix(d, cap), c.seen);
    SeenTellsApart(s, cap);
  }

  lemma SuffixEnds(d: seq<Observation>, cap: nat)
    requires cap > 0
    ensures (d == [] <==> Suffix(d, cap) == []) && (d != [] ==> Suffix(d, cap)[|Suffix(d, cap)| - 1] == d[|d| - 1])
  {
  }

  /** At every point of the run the table stores of the connection the last `cap` of its observations
      without repeats. */
  ghost predicate AlwaysRefines(calls: seq<Call>, cap: nat, conn: string) {
    forall n | 0 <= n <= |calls| :: Refines(Run(calls[..n], cap), calls[..n], cap, conn)
  }

  ghost predicate AlwaysInTime(calls: seq<Call>, cap: nat, conn: string) {
    forall n | 0 <= n < |calls| :: InTime(Run(calls[..n], cap), calls[n], cap, conn)
  }

  lemma StepRefines(calls: seq<Call>, cap: nat, conn: string, n: nat)
    requires cap > 0 && n < |calls| && Refines(Run(calls[..n], cap), calls[..n], cap, conn)
    ensures Refines(Run(calls[..n + 1], cap), calls[..n + 1], cap, conn) <==>
            InTime(Run(calls[..n], cap), calls[n], cap, conn)
  {
    hide Refines, InTime, Recorded;
    var u := calls[..n + 1];
    assert u[..|u| - 1] == calls[..n] && u[|u| - 1] == calls[n];
    RunValid(calls[..n], cap);
    CallRefines(Run(calls[..n], cap), u, cap, conn);
  }

  lemma {:induction false} InTimeRefines(calls: seq<Call>, cap: nat, conn: string, n: nat)
    requires cap > 0 && n <= |calls| && AlwaysInTime(calls, cap, conn)
    ensures Refines(Run(calls[..n], cap), calls[..n], cap, conn)
  {
    hide Refines, Run, InTime;
    if n == 0 {
      NothingRefines(cap, conn);
      assert calls[..0] == [];
    } else {
      InTimeRefines(calls, cap, conn, n - 1);
      assert InTime(Run(calls[..n - 1], cap), calls[n - 1], cap, conn);
      StepRefines(calls, cap, conn, n - 1);
    }
  }

  lemma NothingRefines(cap: nat, conn: string)
    ensures Refines(Run([], cap), [], cap, conn)
  {
  }

  /** Every run: the table is throughout the last `cap` observations of the connection without repeats, if
      and only if each event recorded beyond the cap finds the first event to be the oldest. */
  lemma RunRefinesExactly(calls: seq<Call>, cap: nat, conn: string)
    requires cap > 0
    ensures AlwaysRefines(calls, cap, conn) <==> AlwaysInTime(calls, cap, conn)
  {
    hide Refines, InTime, Run;
    if AlwaysRefines(calls, cap, conn) {
      forall n | 0 <= n < |calls| ensures InTime(Run(calls[..n], cap), calls[n], cap, conn) {
        assert Refines(Run(calls[..n + 1], cap), calls[..n + 1], cap, conn);
        StepRefines(calls, cap, conn, n);
      }
    }
    if AlwaysInTime(calls, cap, conn) {
      forall n | 0 <= n <= |calls| ensures Refines(Run(calls[..n], cap), calls[..n], cap, conn) {
        InTimeRefines(calls, cap, conn, n);
      }
    }
  }

  // ---- A clock that does not step back for the connection ----

  /** The calls of the connection come in order of their times; the others may come at any. */
  predicate ClockRuns(calls: seq<Call>, conn: string) {
    forall i, j | 0 <= i < j < |calls| && calls[i].conn == conn && calls[j].conn == conn :: calls[i].now <= calls[j].now
  }

  ghost predicate Sorted(c: seq<Event>) { forall i, j | 0 <= i < j < |c| :: c[i].created <= c[j].created }

  /** The connection's events are in order of time, and were recorded by its calls. */
  ghost predicate OnClock(t: Table, calls: seq<Call>, conn: string) {
    var c := OfConn(t.rows, conn);
    Sorted(c) && forall e <- c :: exists i :: 0 <= i < |calls| && calls[i].conn == conn && calls[i].now == e.created
  }

  lemma {:induction false} KeepSubset(s: seq<Event>, all: seq<Event>, cap: nat)
    ensures forall e <- Keep(s, all, cap) :: e in s
    ensures Sorted(s) ==> Sorted(Keep(s, all, cap))
  {
    if s != [] {
      var rest := Keep(s[1..], all, cap);
      KeepSubset(s[1..], all, cap);
      if Sorted(s) {
        forall j | 0 <= j < |rest| ensures s[0].created <= rest[j].created {
          assert rest[j] in s[1..];
          var i :| 0 <= i < |s[1..]| && s[1..][i] == rest[j];
          assert s[i + 1] == rest[j];
        }
      }
    }
  }

  lemma ClockAhead(t: Table, calls: seq<Call>, c: Call)
    requires ClockRuns(calls + [c], c.conn) && OnClock(t, calls, c.conn)
    ensures forall e <- OfConn(t.rows, c.conn) :: e.created <= c.now
  {
    var all := calls + [c];
    forall e <- OfConn(t.rows, c.conn) ensures e.created <= c.now {
      var i :| 0 <= i < |calls| && calls[i].conn == c.conn && calls[i].now == e.created;
      assert all[i] == calls[i] && all[|calls|] == c;
    }
  }

  lemma ClockGrows(t: Table, calls: seq<Call>, c: Call, conn: string)
    requires OnClock(t, calls, conn)
    ensures OnClock(t, calls + [c], conn)
  {
    var all := calls + [c];
    forall e <- OfConn(t.rows, conn)
      ensures exists i :: 0 <= i < |all| && all[i].conn == conn && all[i].now == e.created
    {
      var i :| 0 <= i < |calls| && calls[i].conn == conn && calls[i].now == e.created;
      assert all[i] == calls[i];
    }
  }

  lemma ClockedInTime(t: Table, calls: seq<Call>, c: Call, conn: string, cap: nat)
    requires ClockRuns(calls + [c], conn) && OnClock(t, calls, conn)
    ensures InTime(t, c, cap, conn)
  {
    if c.conn == conn {
      ClockAhead(t, calls, c);
      var had := OfConn(t.rows, conn);
      assert had != [] ==> had[0] in had;
    }
  }

  lemma SortedPush(s: seq<Event>, e: Event)
    requires Sorted(s) && forall x <- s :: x.created <= e.created
    ensures Sorted(s + [e]) && (s + [e])[..|s|] == s
  {
    assert forall i | 0 <= i < |s| :: s[i] in s;
  }

  lemma OnClockStep(t: Table, calls: seq<Call>, c: Call, conn: string, cap: nat)
    requires ClockRuns(calls + [c], conn) && OnClock(t, calls, conn)
    ensures OnClock(Recorded(t, c.conn, c.seen, c.now, cap), calls + [c], conn)
  {
    ClockGrows(t, calls, c, conn);
    RecordedIs(t, c.conn, c.seen, c.now, cap);
    if c.conn == conn { ClockAhead(t, calls, c); }
    assert Sorted(OfConn(t.rows, conn));
    hide OfConn, RollOff, Recorded, ClockRuns, Repeats, Sorted, Keep;
    if !Repeats(t, c.conn, c.seen) {
      RecordedOf(t, c.conn, c.seen, c.now, cap, conn);
      if c.conn == conn {
        var e := Event(t.lastId + 1, conn, c.seen, c.now);
        var s := OfConn(t.rows, conn) + [e];
        SortedPush(OfConn(t.rows, conn), e);
        KeepSubset(s, s, cap);
        assert (calls + [c])[|calls|] == c;
        OwnOnClock(Recorded(t, conn, c.seen, c.now, cap), t, calls + [c], conn, s, cap, |calls|);
      }
    }
  }

  lemma OwnOnClock(u: Table, t: Table, all: seq<Call>, conn: string, s: seq<Event>, cap: nat, n: nat)
    requires OnClock(t, all, conn) && OfConn(u.rows, conn) == Keep(s, s, cap) && n < |all| && all[n].conn == conn
    requires s != [] && s[..|s| - 1] == OfConn(t.rows, conn) && s[|s| - 1].created == all[n].now
    requires Sorted(Keep(s, s, cap)) && forall e <- Keep(s, s, cap) :: e in s
    ensures OnClock(u, all, conn)
  {
    hide OfConn, Keep, Sorted;
    forall e <- Keep(s, s, cap) ensures exists i :: 0 <= i < |all| && all[i].conn == conn && all[i].now == e.created {
      assert s == s[..|s| - 1] + [s[|s| - 1]];
      if e !in s[..|s| - 1] { assert all[n].now == e.created; }
    }
  }

  lemma {:induction false} ClockInTime(calls: seq<Call>, conn: string, cap: nat, n: nat)
    requires ClockRuns(calls, conn) && n <= |calls|
    ensures OnClock(Run(calls[..n], cap), calls[..n], conn)
    ensures forall m | 0 <= m < n :: InTime(Run(calls[..m], cap), calls[m], cap, conn)
    decreases n
  {
    hide OnClock, InTime, Recorded, ClockRuns;
    if n == 0 {
      NothingOnClock(conn, cap);
      assert calls[..0] == [];
    } else {
      var u := calls[..n];
      ClockInTime(calls, conn, cap, n - 1);
      assert u[..|u| - 1] == calls[..n - 1] && u == calls[..n - 1] + [calls[n - 1]];
      ClockPrefix(calls, conn, n);
      ClockedInTime(Run(calls[..n - 1], cap), calls[..n - 1], calls[n - 1], conn, cap);
      OnClockStep(Run(calls[..n - 1], cap), calls[..n - 1], calls[n - 1], conn, cap);
    }
  }

  lemma ClockPrefix(calls: seq<Call>, conn: string, n: nat)
    requires ClockRuns(calls, conn) && n <= |calls|
    ensures ClockRuns(calls[..n], conn)
  {
  }

  lemma NothingOnClock(conn: string, cap: nat)
    ensures OnClock(Run([], cap), [], conn)
  {
  }

  /** So with a clock that does not step back between the calls of a connection, the table stores exactly
      the last `cap` of its observations without repeats. */
  lemma RunRefines(calls: seq<Call>, cap: nat, conn: string)
    requires cap > 0 && ClockRuns(calls, conn)
    ensures AlwaysRefines(calls, cap, conn)
  {
    hide Refines, InTime, Run, OnClock;
    ClockInTime(calls, conn, cap, |calls|);
    RunRefinesExactly(calls, cap, conn);
  }

  /** And no two events of it that follow one another tell the same. */
  lemma NoRepeats(calls: seq<Call>, cap: nat, conn: string)
    requires cap > 0 && ClockRuns(calls, conn)
    ensures var c := OfConn(Run(calls, cap).rows, conn);
            |c| <= cap && Differ(Seen(c))
  {
    RunRefines(calls, cap, conn);
    assert calls[..|calls|] == calls;
    assert Refines(Run(calls, cap), calls, cap, conn);
    RunValid(calls, cap);
    hide Differ, Dedup, Observed, Run, ClockRuns, AlwaysRefines;
    DedupDiffers(Observed(calls, conn));
    DifferSuffix(Dedup(Observed(calls, conn)), cap);
  }

  lemma RecordTwo(conn: string, a: Event, b: Event, e: Event)
    requires a.conn == b.conn == e.conn == conn && !Same(b.seen, e.seen) && e.id == 3
    requires Newer(a, b) && Newer(e, b) && !Newer(b, a) && !Newer(b, e)
    ensures Recorded(Table([a, b], 2), conn, e.seen, e.created, 2).rows == [a, e]
  {
    assert [a, b][1..] == [b] && [b][1..] == [] && OfConn([b], conn) == [b] && OfConn([a, b], conn) == [a, b];
    var s := [a, b] + [e];
    assert s == [a, b, e] && s[1..] == [b, e] && [b, e][1..] == [e] && [e][1..] == [];
    assert OfConn([e], conn) == [e] && OfConn([b, e], conn) == [b, e] && OfConn(s, conn) == s;
    CountThree(a, b, e);
    hide CountNewer, OfConn;
    assert RollOff([e], s, conn, 2) == [e];
    assert RollOff([b, e], s, conn, 2) == [e];
    assert RollOff(s, s, conn, 2) == [a, e];
  }

  lemma CountThree(a: Event, b: Event, e: Event)
    requires Newer(a, b) && Newer(e, b) && !Newer(b, a) && !Newer(b, e)
    ensures CountNewer([a, b, e], a) < 2 && CountNewer([a, b, e], b) == 2 && CountNewer([a, b, e], e) < 2
  {
    assert [a, b, e][1..] == [b, e] && [b, e][1..] == [e] && [e][1..] == [];
    forall x ensures CountNewer([a, b, e], x)
        == (if Newer(a, x) then 1 else 0) + (if Newer(b, x) then 1 else 0) + (if Newer(e, x) then 1 else 0) {
      assert CountNewer([e], x) == if Newer(e, x) then 1 else 0;
      assert CountNewer([b, e], x) == (if Newer(b, x) then 1 else 0) + CountNewer([e], x);
    }
  }

  lemma RecordFirst(conn: string, a: Event, b: Event)
    requires a.conn == b.conn == conn && !Same(a.seen, b.seen) && a.id == 1 && b.id == 2
    ensures Recorded(Recorded(Table([], 0), conn, a.seen, a.created, 2), conn, b.seen, b.created, 2) == Table([a, b], 2)
  {
    assert [] + [a] == [a] && [a][1..] == [] && OfConn([a], conn) == [a];
    assert CountNewer([a], a) <= 1;
    assert RollOff([a], [a], conn, 2) == [a];
    var s := [a] + [b];
    assert s == [a, b] && s[1..] == [b] && [b][1..] == [] && OfConn([b], conn) == [b] && OfConn(s, conn) == s;
    CountOfOldest(s, 0);
    CountOfOldest(s, 1);
    assert s[0] == a && s[1] == b;
    hide CountNewer, OfConn, Latest, Same, RollOff;
    assert !BehindCap(s, conn, 2, a) && !BehindCap(s, conn, 2, b);
    RollOffCons(b, [], s, conn, 2);
    RollOffCons(a, [b], s, conn, 2);
    assert [b] + [] == [b];
    SecondCall(conn, a, b);
  }

  lemma RollOffCons(e: Event, rest: seq<Event>, all: seq<Event>, conn: string, cap: nat)
    ensures RollOff([], all, conn, cap) == []
    ensures RollOff([e] + rest, all, conn, cap)
         == if BehindCap(all, conn, cap, e) then RollOff(rest, all, conn, cap) else [e] + RollOff(rest, all, conn, cap)
  {
    assert ([e] + rest)[1..] == rest;
  }

  lemma SecondCall(conn: string, a: Event, b: Event)
    requires a.conn == b.conn == conn && !Same(a.seen, b.seen) && a.id == 1 && b.id == 2
    ensures Latest([a], conn) == Some(a.seen) && Latest([], conn) == None
  {
    assert [a][1..] == [] && OfConn([a], conn) == [a];
  }

  /** A clock that steps back stores a repeat: with room for two, one observation at 10, another at 5 and the
      first again at 6 leave the first twice, one behind the other. */
  lemma SteppingBackRepeats(conn: string, a: Observation, b: Observation)
    requires !Same(a, b)
    ensures Run([Call(conn, a, 10), Call(conn, b, 5), Call(conn, a, 6)], 2).rows ==
            [Event(1, conn, a, 10), Event(3, conn, a, 6)]
  {
    var calls := [Call(conn, a, 10), Call(conn, b, 5), Call(conn, a, 6)];
    assert calls[..2] == [calls[0], calls[1]] && calls[..2][..1] == [calls[0]] && [calls[0]][..0] == [];
    var e, f, g := Event(1, conn, a, 10), Event(2, conn, b, 5), Event(3, conn, a, 6);
    RecordFirst(conn, e, f);
    RecordTwo(conn, e, f, g);
    hide Recorded;
    assert Run([calls[0]], 2) == Recorded(Table([], 0), conn, a, 10, 2);
    assert Run(calls[..2], 2) == Recorded(Run([calls[0]], 2), conn, b, 5, 2);
  }
}
