/** Exactly when a recording of HistoryGalera leaves two equal events one behind the other. */
module HistoryRepeats {
  import opened HistoryGalera

  lemma {:induction false} KeepAppend(a: seq<Event>, b: seq<Event>, all: seq<Event>, cap: nat)
    ensures Keep(a + b, all, cap) == Keep(a, all, cap) + Keep(b, all, cap)
  {
    hide CountNewer;
    if a == [] {
      assert a + b == b;
    } else {
      assert (a + b)[1..] == a[1..] + b;
      KeepAppend(a[1..], b, all, cap);
    }
  }

  /** With one event too many, exactly the oldest goes. */
  lemma DropsOldest(s: seq<Event>, cap: nat, k: nat)
    requires |s| == cap + 1 && k < |s| && Oldest(s, k)
    ensures Keep(s, s, cap) == s[..k] + s[k + 1..]
  {
    forall i | 0 <= i < |s| ensures CountNewer(s, s[i]) >= cap <==> i == k {
      CountOfOldest(s, i);
      if i != k { assert Newer(s[i], s[k]); }
    }
    hide CountNewer, Newer, Oldest;
    var a, b := s[..k], s[k + 1..];
    assert s == a + ([s[k]] + b);
    assert forall i | 0 <= i < |b| :: b[i] == s[i + k + 1];
    KeepAppend(a, [s[k]] + b, s, cap);
    KeepCons(s[k], b, s, cap);
    KeepAll(a, s, cap);
    KeepAll(b, s, cap);
  }

  /** Taking one out leaves a repeat exactly when its neighbours tell the same. */
  lemma WithoutOne(d: seq<Observation>, k: nat)
    requires k < |d| && Differ(d)
    ensures Differ(d[..k] + d[k + 1..]) <==> (0 < k < |d| - 1 ==> !Same(d[k - 1], d[k + 1]))
  {
    var e := d[..k] + d[k + 1..];
    if 0 < k < |d| - 1 { assert e[k - 1] == d[k - 1] && e[k] == d[k + 1]; }
    if 0 < k < |d| - 1 ==> !Same(d[k - 1], d[k + 1]) {
      forall i, j | 0 <= i < j < |e| && j == i + 1 ensures !Same(e[i], e[j]) {
        if j < k {
          assert !Same(d[i], d[j]);
        } else if j > k {
          assert !Same(d[i + 1], d[j + 1]);
        }
      }
    }
  }

  lemma {:induction false} RepeatsWithout(s: seq<Event>, k: nat)
    requires k < |s| && Differ(Seen(s))
    ensures Differ(Seen(s[..k] + s[k + 1..])) <==> (0 < k < |s| - 1 ==> !Same(s[k - 1].seen, s[k + 1].seen))
  {
    var r := s[..k] + s[k + 1..];
    SeenLength(s);
    SeenLength(r);
    assert Seen(r) == Seen(s)[..k] + Seen(s)[k + 1..];
    WithoutOne(Seen(s), k);
  }

  /** What is kept of at most one event too many has a repeat exactly when the oldest parts two alike. */
  lemma KeptRepeats(s: seq<Event>, cap: nat)
    requires Ascending(s) && 0 < |s| <= cap + 1 && Differ(Seen(s))
    ensures !Differ(Seen(Keep(s, s, cap)))
       <==> |s| > cap && exists k :: 0 < k < |s| - 1 && Oldest(s, k) && Same(s[k - 1].seen, s[k + 1].seen)
  {
    hide Seen, Differ, Same, Oldest, Keep, Ascending;
    if |s| <= cap {
      CountsFit(s, cap);
      KeepAll(s, s, cap);
    } else {
      var k := SomeOldest(s);
      DropsOldest(s, cap, k);
      RepeatsWithout(s, k);
      forall j | 0 <= j < |s| && j != k ensures !Oldest(s, j) { OneOldest(s, j, k); }
    }
  }

  /** A recording that is no repeat leaves two equal events one behind the other, where there were none, if and
      only if the connection is at its cap and the oldest event by the clock stands between two that tell the
      same. */
  lemma RecordRepeats(t: Table, conn: string, seen: Observation, now: int, cap: nat)
    requires Valid(t, cap) && !Repeats(t, conn, seen) && Differ(Seen(OfConn(t.rows, conn)))
    ensures var s := OfConn(t.rows, conn) + [Event(t.lastId + 1, conn, seen, now)];
            !Differ(Seen(OfConn(Recorded(t, conn, seen, now, cap).rows, conn)))
            <==> |s| > cap && exists k :: 0 < k < |s| - 1 && Oldest(s, k) && Same(s[k - 1].seen, s[k + 1].seen)
  {
    var e := Event(t.lastId + 1, conn, seen, now);
    var c := OfConn(t.rows, conn);
    assert |c| <= cap;
    hide Valid, Repeats, Recorded, OfConn, Seen, Differ, Same, Oldest, Keep, Ascending;
    SeenAppend(c, e);
    LatestDiffers(t, conn, seen);
    DifferPush(Seen(c), seen);
    RecordedOf(t, conn, seen, now, cap, conn);
    AppendAscends(t, e, cap);
    KeptRepeats(c + [e], cap);
  }

  lemma CountsFit(s: seq<Event>, cap: nat)
    requires |s| <= cap
    ensures forall i | 0 <= i < |s| :: CountNewer(s, s[i]) < cap
  {
    forall i | 0 <= i < |s| ensures CountNewer(s, s[i]) < cap { CountOfOldest(s, i); }
  }

  lemma OneOldest(s: seq<Event>, j: nat, k: nat)
    requires j < |s| && k < |s| && Oldest(s, k) && j != k
    ensures !Oldest(s, j)
  {
    assert Newer(s[j], s[k]);
  }

  lemma LatestDiffers(t: Table, conn: string, seen: Observation)
    requires !Repeats(t, conn, seen)
    ensures var d := Seen(OfConn(t.rows, conn)); d != [] ==> !Same(d[|d| - 1], seen)
  {
    SeenLength(OfConn(t.rows, conn));
  }

  // ---- When an observation is a repeat ----

  /** Row `i` is the connection's last, and tells the same kind and the same summary. */
  predicate LastTells(rows: seq<Event>, conn: string, kind: string, summary: string, i: int) {
    && 0 <= i < |rows| && rows[i].conn == conn && (forall j | i < j < |rows| :: rows[j].conn != conn)
    && rows[i].seen.kind == kind && rows[i].seen.summary == summary
  }

  lemma {:induction false} LatestIsLast(rows: seq<Event>, conn: string)
    ensures var c := OfConn(rows, conn);
            if c == [] then forall j | 0 <= j < |rows| :: rows[j].conn != conn
            else exists i :: 0 <= i < |rows| && rows[i] == c[|c| - 1] && rows[i].conn == conn
                               && forall j | i < j < |rows| :: rows[j].conn != conn
  {
    if rows != [] {
      var rest, c := rows[1..], OfConn(rows, conn);
      LatestIsLast(rest, conn);
      assert forall j | 0 < j < |rows| :: rows[j] == rest[j - 1];
      if OfConn(rest, conn) != [] {
        var i :| 0 <= i < |rest| && rest[i] == c[|c| - 1] && rest[i].conn == conn
                   && forall j | i < j < |rest| :: rest[j].conn != conn;
        assert rows[i + 1] == c[|c| - 1];
      } else if rows[0].conn == conn {
        assert rows[0] == c[|c| - 1];
      }
    }
  }

  /** An observation is not stored exactly when the connection's last row, of whatever time, tells the same kind and
      the same summary; its detail and its outcome do not count. Otherwise it takes the next id. */
  lemma StoredUnlessTold(t: Table, conn: string, seen: Observation, now: int, cap: nat)
    ensures var u := Recorded(t, conn, seen, now, cap);
            && (u.lastId == t.lastId <==> exists i :: LastTells(t.rows, conn, seen.kind, seen.summary, i))
            && (u.lastId == t.lastId ==> u == t) && (u.lastId != t.lastId ==> u.lastId == t.lastId + 1)
  {
    hide RollOff, OfConn;
    LatestIsLast(t.rows, conn);
    var c := OfConn(t.rows, conn);
    if c != [] {
      var i :| 0 <= i < |t.rows| && t.rows[i] == c[|c| - 1] && t.rows[i].conn == conn
                 && forall j | i < j < |t.rows| :: t.rows[j].conn != conn;
      if Same(t.rows[i].seen, seen) { assert LastTells(t.rows, conn, seen.kind, seen.summary, i); }
    }
  }
}
