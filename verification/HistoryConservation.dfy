/** For which ids the differences of HistoryDiff add up, whatever the loads. */
module HistoryConservation {
  import opened HistoryDiff

  function Count(rows: seq<Row>, digest: string): nat {
    if rows == [] then 0 else (if rows[0].digest == digest then 1 else 0) + Count(rows[1..], digest)
  }

  /** A digest of both snapshots is repeated in neither. */
  predicate SharedOnce(before: seq<Row>, after: seq<Row>) {
    forall b <- before | Count(after, b.digest) > 0 :: Count(before, b.digest) == 1 == Count(after, b.digest)
  }

  predicate Conserves(before: seq<Row>, after: seq<Row>) {
    Sum(Diff(before, after)) == Minus(Total(after), Total(before))
  }

  /** The same ids, with any loads. */
  predicate SameIds(a: seq<Row>, b: seq<Row>) { |a| == |b| && forall i | 0 <= i < |a| :: a[i].digest == b[i].digest }

  lemma {:induction false} CountFound(rows: seq<Row>, digest: string)
    ensures Last(rows, digest).Some? <==> Count(rows, digest) > 0
  {
    if rows != [] { CountFound(rows[1..], digest); }
  }

  lemma {:induction false} CountIn(rows: seq<Row>, r: Row)
    requires r in rows
    ensures Count(rows, r.digest) > 0
  {
    if rows[0] != r { CountIn(rows[1..], r); }
  }

  // ---- Once each: the changes add up ----

  lemma HeldHead(rows: seq<Row>, digest: string)
    requires rows != []
    ensures Held(rows, digest)
         == if Last(rows[1..], digest).None? && rows[0].digest == digest then rows[0].load else Held(rows[1..], digest)
  {
  }

  lemma {:induction false} MetSkip(before: seq<Row>, after: seq<Row>)
    requires before != [] && (Last(before[1..], before[0].digest).Some? || Count(after, before[0].digest) == 0)
    ensures Met(before, after) == Met(before[1..], after)
  {
    hide Held, Last, Plus;
    if after != [] {
      HeldHead(before, after[0].digest);
      MetSkip(before, after[1..]);
    }
  }

  lemma {:induction false} MetOnce(before: seq<Row>, after: seq<Row>)
    requires before != [] && Last(before[1..], before[0].digest).None? && Count(after, before[0].digest) == 1
    ensures Met(before, after) == Plus(before[0].load, Met(before[1..], after))
  {
    hide Held, Last, Plus;
    var h, rest := Held(before[1..], after[0].digest), Met(before[1..], after[1..]);
    HeldHead(before, after[0].digest);
    if after[0].digest == before[0].digest {
      MetSkip(before, after[1..]);
      NothingHeld(before[1..], after[0].digest);
      Nothing(rest);
    } else {
      MetOnce(before, after[1..]);
      PlusAssoc(before[0].load, h, rest);
    }
  }

  lemma NothingHeld(rows: seq<Row>, digest: string)
    requires Last(rows, digest).None?
    ensures Held(rows, digest) == NO_LOAD
  {
  }

  lemma SharedLater(before: seq<Row>, after: seq<Row>)
    requires before != [] && SharedOnce(before, after)
    ensures SharedOnce(before[1..], after)
  {
    forall b <- before[1..] | Count(after, b.digest) > 0
      ensures Count(before[1..], b.digest) == 1 == Count(after, b.digest)
    {
      assert b in before;
      CountIn(before[1..], b);
    }
  }

  lemma {:induction false} SharedAddsUp(before: seq<Row>, after: seq<Row>)
    requires SharedOnce(before, after)
    ensures Plus(Met(before, after), Left(before, after)) == Total(before)
  {
    hide Plus, Met, Left, Last, Total, SharedOnce, Count;
    if before == [] {
      NothingMet(after);
      NothingLeft(after);
      Nothing(NO_LOAD);
    } else {
      SharedLater(before, after);
      SharedAddsUp(before[1..], after);
      SplitLeft(before, after);
      SplitTotals(after, before);
      OneMore(before, after);
      var b, met, left := before[0].load, Met(before[1..], after), Left(before[1..], after);
      Regroup4(if Last(after, before[0].digest).Some? then b else NO_LOAD, met,
               if Last(after, before[0].digest).Some? then NO_LOAD else b, left);
      Nothing(b);
      Nothing(met);
    }
  }

  lemma OneMore(before: seq<Row>, after: seq<Row>)
    requires before != [] && SharedOnce(before, after)
    ensures Met(before, after)
         == Plus(if Last(after, before[0].digest).Some? then before[0].load else NO_LOAD, Met(before[1..], after))
  {
    hide Met, Last, Plus;
    var d := before[0].digest;
    CountFound(after, d);
    CountFound(before[1..], d);
    Nothing(Met(before[1..], after));
    if Count(after, d) == 0 {
      MetSkip(before, after);
    } else {
      assert before[0] in before;
      MetOnce(before, after);
    }
  }

  // ---- Otherwise some loads show it: one call in one row ----

  const ONE_CALL := Load(1, 0.0, 0)

  /** The rows with one call in the `i`-th and nothing else. */
  function Loaded(rows: seq<Row>, i: int): (r: seq<Row>)
    ensures SameIds(r, rows)
  {
    if rows == [] then [] else [rows[0].(load := if i == 0 then ONE_CALL else NO_LOAD)] + Loaded(rows[1..], i - 1)
  }

  lemma {:induction false} LastLater(rows: seq<Row>, i: nat)
    requires i < |rows|
    ensures Last(rows, rows[i].digest).Some?
  {
    if i > 0 { LastLater(rows[1..], i - 1); }
  }

  lemma {:induction false} LoadedLast(rows: seq<Row>, i: int, digest: string)
    ensures Last(Loaded(rows, i), digest).Some? == Last(rows, digest).Some?
  {
    if rows != [] {
      assert Loaded(rows, i)[1..] == Loaded(rows[1..], i - 1);
      LoadedLast(rows[1..], i - 1, digest);
    }
  }

  /** The `i`-th row is the last of the digest. */
  predicate LastAt(rows: seq<Row>, i: int, digest: string) {
    0 <= i < |rows| && rows[i].digest == digest && Last(rows[i + 1..], digest).None?
  }

  lemma LastAtLater(rows: seq<Row>, i: int, digest: string)
    requires rows != [] && i != 0
    ensures LastAt(rows, i, digest) == LastAt(rows[1..], i - 1, digest)
    ensures LastAt(rows, i, digest) ==> Last(rows[1..], digest).Some?
  {
    if 0 < i < |rows| {
      assert rows[1..][i..] == rows[i + 1..];
      LastLater(rows[1..], i - 1);
    }
  }

  lemma FirstAt(rows: seq<Row>, digest: string)
    requires rows != []
    ensures LastAt(rows, 0, digest) <==> rows[0].digest == digest && Last(rows[1..], digest).None?
    ensures !LastAt(rows[1..], -1, digest)
  {
  }

  lemma LoadedHead(rows: seq<Row>, i: int, digest: string)
    requires rows != []
    ensures Held(Loaded(rows, i), digest)
         == if Last(rows[1..], digest).None? && rows[0].digest == digest then (if i == 0 then ONE_CALL else NO_LOAD)
            else Held(Loaded(rows[1..], i - 1), digest)
  {
    var l := Loaded(rows, i);
    assert l[1..] == Loaded(rows[1..], i - 1) && l[0] == rows[0].(load := if i == 0 then ONE_CALL else NO_LOAD);
    LoadedLast(rows[1..], i - 1, digest);
    hide Held, Last, Loaded;
    HeldHead(l, digest);
  }

  lemma {:induction false} LoadedHeld(rows: seq<Row>, i: int, digest: string)
    ensures Held(Loaded(rows, i), digest).calls == if LastAt(rows, i, digest) then 1 else 0
  {
    if rows == [] {
      NothingHeld([], digest);
    } else {
      hide Held, Last, Loaded, LastAt;
      LoadedHead(rows, i, digest);
      LoadedHeld(rows[1..], i - 1, digest);
      FirstAt(rows, digest);
      if i != 0 { LastAtLater(rows, i, digest); }
    }
  }

  lemma {:induction false} LoadedTotals(rows: seq<Row>, i: int, after: seq<Row>)
    ensures Total(Loaded(rows, i)).calls == if 0 <= i < |rows| then 1 else 0
    ensures 0 <= i < |rows| && Last(after, rows[i].digest).Some? ==> Left(Loaded(rows, i), after).calls == 0
    ensures !(0 <= i < |rows|) ==> Left(Loaded(rows, i), after).calls == 0
  {
    hide Last;
    if rows != [] {
      assert Loaded(rows, i)[1..] == Loaded(rows[1..], i - 1);
      LoadedTotals(rows[1..], i - 1, after);
    }
  }

  lemma {:induction false} MetCalls(rows: seq<Row>, after: seq<Row>, digest: string, held: bool)
    requires forall x :: Held(rows, x).calls == if x == digest && held then 1 else 0
    ensures Met(rows, after).calls == if held then Count(after, digest) else 0
  {
    hide Held;
    if after != [] { MetCalls(rows, after[1..], digest, held); }
  }

  lemma {:induction false} EarlierOf(rows: seq<Row>, digest: string) returns (i: nat)
    requires Count(rows, digest) > 0
    ensures i < |rows| && rows[i].digest == digest
    ensures Count(rows, digest) > 1 ==> Last(rows[i + 1..], digest).Some?
  {
    if rows[0].digest == digest {
      i := 0;
      CountFound(rows[1..], digest);
    } else {
      var j := EarlierOf(rows[1..], digest);
      i := j + 1;
      assert rows[1..][j + 1..] == rows[i + 1..];
    }
  }

  lemma RepeatedLosesLoad(before: seq<Row>, after: seq<Row>, b: Row) returns (rows: seq<Row>)
    requires b in before && Count(after, b.digest) > 0
    requires Count(before, b.digest) != 1 || Count(after, b.digest) != 1
    ensures SameIds(rows, before) && !Conserves(rows, after)
  {
    hide Met, Left, Total, Sum, Diff, Last, Held, Loaded;
    var d := b.digest;
    CountIn(before, b);
    var i := EarlierOf(before, d);
    rows := Loaded(before, i);
    forall x ensures Held(rows, x).calls == if x == d && LastAt(before, i, d) then 1 else 0 {
      LoadedHeld(before, i, x);
    }
    MetCalls(rows, after, d, LastAt(before, i, d));
    CountFound(after, d);
    LoadedTotals(before, i, after);
    ConservedExactly(rows, after);
  }

  lemma {:induction false} CountSame(a: seq<Row>, b: seq<Row>, digest: string)
    requires SameIds(a, b)
    ensures Count(a, digest) == Count(b, digest)
  {
    if a != [] { CountSame(a[1..], b[1..], digest); }
  }

  lemma SharedSame(before: seq<Row>, after: seq<Row>, b: seq<Row>, a: seq<Row>)
    requires SharedOnce(before, after) && SameIds(b, before) && SameIds(a, after)
    ensures SharedOnce(b, a)
  {
    forall x <- b | Count(a, x.digest) > 0 ensures Count(b, x.digest) == 1 == Count(a, x.digest) {
      var i :| 0 <= i < |b| && b[i] == x;
      assert before[i] in before;
      CountSame(a, after, x.digest);
      CountSame(b, before, x.digest);
    }
  }

  /** Whatever the loads, the changes add up to the later total less the earlier, if and only if no digest that
      both snapshots hold is repeated in either. */
  lemma ConservedForEveryLoad(before: seq<Row>, after: seq<Row>)
    ensures (forall b, a | SameIds(b, before) && SameIds(a, after) :: Conserves(b, a)) <==> SharedOnce(before, after)
  {
    hide Conserves, Count, SameIds;
    if SharedOnce(before, after) {
      forall b, a | SameIds(b, before) && SameIds(a, after) ensures Conserves(b, a) {
        SharedSame(before, after, b, a);
        SharedConserves(b, a);
      }
    } else {
      var x: Row :| x in before && Count(after, x.digest) > 0
        && !(Count(before, x.digest) == 1 == Count(after, x.digest));
      var rows := RepeatedLosesLoad(before, after, x);
      IdsOfItself(after);
    }
  }

  lemma IdsOfItself(rows: seq<Row>)
    ensures SameIds(rows, rows)
  {
  }

  lemma SharedConserves(before: seq<Row>, after: seq<Row>)
    requires SharedOnce(before, after)
    ensures Conserves(before, after)
  {
    hide SharedOnce, Met, Left, Total, Sum, Diff, Plus, Minus;
    SharedAddsUp(before, after);
    ConservedExactly(before, after);
  }
}
