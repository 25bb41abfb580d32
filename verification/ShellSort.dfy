/** The `sort` stage of src-tauri/src/txshell.rs: numbers by value, everything else by text. */
module ShellSort {
  import opened Common
  import opened Text

  /** What a text can read as: a floating-point number may be no number at all. */
  datatype Number = NaN | NegInfinity | Finite(value: real) | PosInfinity

  /** A cell as the comparator sees it: how it is written, and its number if it reads as one. */
  datatype Cell = Cell(text: string, number: Option<Number>)

  datatype Order = Less | Equal | Greater

  function CompareText(a: string, b: string): Order {
    if a == b then Equal else if TextLe(a, b) then Less else Greater
  }

  function Rank(n: Number): int {
    match n case NegInfinity => 0 case Finite(_) => 1 case PosInfinity => 2 case NaN => 3
  }

  /** `partial_cmp(..).unwrap_or(Equal)`: what is no number is equal to every number. */
  function CompareNumber(a: Number, b: Number): Order {
    if a.NaN? || b.NaN? then Equal
    else if Rank(a) != Rank(b) then if Rank(a) < Rank(b) then Less else Greater
    else if a.Finite? && a.value != b.value then if a.value < b.value then Less else Greater
    else Equal
  }

  function Compare(x: Cell, y: Cell): Order {
    if x.number.Some? && y.number.Some? then CompareNumber(x.number.value, y.number.value)
    else CompareText(x.text, y.text)
  }

  function Reverse(o: Order): Order { match o case Less => Greater case Equal => Equal case Greater => Less }

  function Ordered(x: Cell, y: Cell, desc: bool): Order { if desc then Reverse(Compare(x, y)) else Compare(x, y) }

  predicate Le(x: Cell, y: Cell, desc: bool) { Ordered(x, y, desc) != Greater }

  // ---- When the comparator orders a column ----

  lemma CompareReversed(x: Cell, y: Cell)
    ensures Compare(y, x) == Reverse(Compare(x, y))
    ensures forall desc :: Le(x, y, desc) || Le(y, x, desc)
  {
    TextLeTotal(x.text, y.text);
  }

  ghost predicate Transitive(col: seq<Cell>, desc: bool) {
    forall x, y, z | x in col && y in col && z in col && Le(x, y, desc) && Le(y, z, desc) :: Le(x, z, desc)
  }

  /** A cell that reads as no number leaves no two different numbers beside it. */
  ghost predicate NumbersAgree(col: seq<Cell>) {
    forall n, p, q | n in col && p in col && q in col && n.number == Some(NaN) && p.number.Some? && q.number.Some? ::
      CompareNumber(p.number.value, q.number.value) == Equal
  }

  /** Two numbers with a text between them, in the order of texts, are in that order as numbers, and
      differ unless all three are written alike. */
  predicate Parted(p: Cell, t: Cell, q: Cell)
    requires p.number.Some? && q.number.Some?
  {
    TextLe(p.text, t.text) && TextLe(t.text, q.text) ==>
      var o := CompareNumber(p.number.value, q.number.value);
      if p.text == t.text == q.text then o != Greater else o == Less
  }

  /** Every text of the column parts the numbers of the column. */
  ghost predicate Separates(col: seq<Cell>) {
    forall p, t, q | p in col && t in col && q in col && p.number.Some? && t.number.None? && q.number.Some? ::
      Parted(p, t, q)
  }

  lemma TransitiveEitherWay(col: seq<Cell>)
    ensures Transitive(col, true) <==> Transitive(col, false)
  {
    forall x, y ensures Le(x, y, true) <==> Le(y, x, false) { CompareReversed(x, y); }
  }

  lemma TextOrder(a: string, b: string, c: string)
    ensures TextLe(a, b) && TextLe(b, c) ==> TextLe(a, c)
    ensures TextLe(a, b) || TextLe(b, a)
    ensures TextLe(a, b) && TextLe(b, a) ==> a == b
  {
    TextLeTotal(a, b);
    if TextLe(a, b) && TextLe(b, c) { TextLeTransitive(a, b, c); }
  }

  lemma LeIs(x: Cell, y: Cell)
    ensures Le(x, y, false) <==> if x.number.Some? && y.number.Some?
              then CompareNumber(x.number.value, y.number.value) != Greater else TextLe(x.text, y.text)
  {
    TextLeTotal(x.text, y.text);
  }

  lemma NumberOrder(a: Number, b: Number, c: Number)
    ensures CompareNumber(a, b) == Reverse(CompareNumber(b, a))
    ensures !b.NaN? && CompareNumber(a, b) != Greater && CompareNumber(b, c) != Greater ==>
            CompareNumber(a, c) != Greater
  {
  }

  lemma NumberTriple(col: seq<Cell>, x: Cell, y: Cell, z: Cell)
    requires NumbersAgree(col) && x in col && y in col && z in col && Le(x, y, false) && Le(y, z, false)
    requires x.number.Some? && y.number.Some? && z.number.Some?
    ensures Le(x, z, false)
  {
    NumberOrder(x.number.value, y.number.value, z.number.value);
  }

  lemma SeparatedTriple(col: seq<Cell>, x: Cell, y: Cell, z: Cell)
    requires Separates(col) && NumbersAgree(col)
    requires x in col && y in col && z in col && Le(x, y, false) && Le(y, z, false)
    ensures Le(x, z, false)
  {
    if x.number.Some? && y.number.Some? && z.number.Some? {
      NumberTriple(col, x, y, z);
    } else {
      MixedTriple(col, x, y, z);
    }
  }

  lemma MixedTriple(col: seq<Cell>, x: Cell, y: Cell, z: Cell)
    requires Separates(col) && x in col && y in col && z in col && Le(x, y, false) && Le(y, z, false)
    requires x.number.None? || y.number.None? || z.number.None?
    ensures Le(x, z, false)
  {
    LeIs(x, y);
    LeIs(y, z);
    LeIs(x, z);
    TextOrder(x.text, y.text, z.text);
    TextOrder(z.text, x.text, y.text);
    TextOrder(y.text, z.text, x.text);
    assert forall a, b :: CompareNumber(a, b) == Reverse(CompareNumber(b, a));
    hide TextLe, Le, CompareNumber;
    if x.number.Some? && y.number.Some? { assert Parted(y, z, x); }
    if y.number.Some? && z.number.Some? { assert Parted(z, x, y); }
    if x.number.Some? && z.number.Some? { assert Parted(x, y, z); }
  }

  lemma TransitiveParts(col: seq<Cell>, p: Cell, t: Cell, q: Cell)
    requires Transitive(col, false) && p in col && t in col && q in col
    requires p.number.Some? && t.number.None? && q.number.Some?
    ensures Parted(p, t, q)
  {
    LeIs(p, t);
    LeIs(t, q);
    LeIs(p, q);
    LeIs(q, p);
    LeIs(t, p);
    LeIs(q, t);
    TextOrder(p.text, t.text, q.text);
    TextOrder(t.text, p.text, q.text);
    TextOrder(q.text, t.text, p.text);
    NumberOrder(p.number.value, q.number.value, p.number.value);
    hide TextLe, Le, CompareNumber;
    if TextLe(p.text, t.text) && TextLe(t.text, q.text) {
      assert Le(p, t, false) && Le(t, q, false);
      assert Le(q, p, false) ==> Le(t, p, false) && Le(q, t, false);
    }
  }

  lemma TransitiveAgrees(col: seq<Cell>, n: Cell, p: Cell, q: Cell)
    requires Transitive(col, false) && n in col && p in col && q in col
    requires n.number == Some(NaN) && p.number.Some? && q.number.Some?
    ensures CompareNumber(p.number.value, q.number.value) == Equal
  {
    assert Le(p, n, false) && Le(n, q, false) && Le(q, n, false) && Le(n, p, false);
    NumberOrder(p.number.value, q.number.value, p.number.value);
  }

  /** The comparator is transitive on a column, in either direction, exactly when its texts part its numbers
      and a cell that reads as no number stands beside no two different ones. */
  lemma TransitiveWhenSeparated(col: seq<Cell>, desc: bool)
    ensures Transitive(col, desc) <==> Separates(col) && NumbersAgree(col)
  {
    hide Le, CompareNumber, Parted;
    TransitiveEitherWay(col);
    if Separates(col) && NumbersAgree(col) {
      forall x, y, z | x in col && y in col && z in col && Le(x, y, false) && Le(y, z, false) ensures Le(x, z, false) {
        SeparatedTriple(col, x, y, z);
      }
    }
    if Transitive(col, false) {
      forall p, t, q | p in col && t in col && q in col && p.number.Some? && t.number.None? && q.number.Some?
        ensures Parted(p, t, q)
      {
        TransitiveParts(col, p, t, q);
      }
      forall n, p, q | n in col && p in col && q in col && n.number == Some(NaN) && p.number.Some? && q.number.Some?
        ensures CompareNumber(p.number.value, q.number.value) == Equal
      {
        TransitiveAgrees(col, n, p, q);
      }
    }
  }

  function Num(text: string, value: real): Cell { Cell(text, Some(Finite(value))) }

  /** 9, 10 and a text between them go round in a circle. */
  lemma MixedColumnGoesRound()
    ensures var nine, ten, mid := Num("9", 9.0), Num("10", 10.0), Cell("5x", None);
            Compare(ten, mid) == Compare(mid, nine) == Compare(nine, ten) == Less
  {
    assert "10" != "5x" && "5x" != "9" && TextLe("10", "5x") && TextLe("5x", "9");
  }

  /** A column of numbers alone is not always in order: with nan between them, 2 comes before 1. */
  lemma NotANumberGoesRound()
    ensures var two, nan, one := Num("2", 2.0), Cell("nan", Some(NaN)), Num("1", 1.0);
            Le(two, nan, false) && Le(nan, one, false) && !Le(two, one, false) && !Transitive([two, nan, one], false)
  {
    var two, nan, one := Num("2", 2.0), Cell("nan", Some(NaN)), Num("1", 1.0);
    var col := [two, nan, one];
    assert col[0] in col && col[1] in col && col[2] in col;
    assert Le(two, nan, false) && Le(nan, one, false) && !Le(two, one, false);
  }

  // ---- Sorting ----

  /** A row: its cell in the sorted column, and the rest of it. */
  datatype Row = Row(key: Cell, others: seq<string>)

  function Insert(x: Row, s: seq<Row>, desc: bool): seq<Row> {
    if s == [] || Le(x.key, s[0].key, desc) then [x] + s else [s[0]] + Insert(x, s[1..], desc)
  }

  /** A stable sort by the comparator, as the library's is. */
  function Sorted(s: seq<Row>, desc: bool): seq<Row> {
    if s == [] then [] else Insert(s[0], Sorted(s[1..], desc), desc)
  }

  ghost predicate InOrder(s: seq<Row>, desc: bool) { forall i, j | 0 <= i < j < |s| :: Le(s[i].key, s[j].key, desc) }

  ghost predicate KeysIn(s: seq<Row>, col: seq<Cell>) { forall x <- s :: x.key in col }

  lemma {:induction false} InsertMembers(x: Row, s: seq<Row>, desc: bool)
    ensures multiset(Insert(x, s, desc)) == multiset(s) + multiset{x}
    ensures forall y :: y in Insert(x, s, desc) <==> y == x || y in s
  {
    hide Le;
    if s != [] && !Le(x.key, s[0].key, desc) {
      InsertMembers(x, s[1..], desc);
      assert s == [s[0]] + s[1..];
    }
  }

  lemma {:induction false} SortedMembers(s: seq<Row>, desc: bool)
    ensures multiset(Sorted(s, desc)) == multiset(s)
    ensures forall y :: y in Sorted(s, desc) <==> y in s
  {
    if s != [] {
      SortedMembers(s[1..], desc);
      hide Insert, Le;
      InsertMembers(s[0], Sorted(s[1..], desc), desc);
      assert s == [s[0]] + s[1..];
    }
  }

  lemma {:induction false} InsertInOrder(x: Row, s: seq<Row>, desc: bool, col: seq<Cell>)
    requires InOrder(s, desc) && Transitive(col, desc) && x.key in col && KeysIn(s, col)
    ensures InOrder(Insert(x, s, desc), desc)
  {
    hide Le;
    if s == [] {
    } else if Le(x.key, s[0].key, desc) {
      forall j | 0 <= j < |s| ensures Le(x.key, s[j].key, desc) { assert s[0] in s && s[j] in s; }
    } else {
      var rest := Insert(x, s[1..], desc);
      InsertInOrder(x, s[1..], desc, col);
      InsertMembers(x, s[1..], desc);
      CompareReversed(x.key, s[0].key);
      forall j | 0 <= j < |rest| ensures Le(s[0].key, rest[j].key, desc) {
        assert rest[j] in rest;
        if rest[j] != x {
          var i :| 0 <= i < |s[1..]| && s[1..][i] == rest[j];
          assert s[i + 1] == rest[j];
        }
      }
    }
  }

  lemma TailKeys(s: seq<Row>, desc: bool, col: seq<Cell>)
    requires s != [] && KeysIn(s, col)
    ensures s[0].key in col && KeysIn(s[1..], col) && KeysIn(Sorted(s[1..], desc), col)
  {
    SortedMembers(s[1..], desc);
    assert s[0] in s && forall x <- s[1..] :: x in s;
  }

  lemma {:induction false} SortedInOrder(s: seq<Row>, desc: bool, col: seq<Cell>)
    requires Transitive(col, desc) && KeysIn(s, col)
    ensures InOrder(Sorted(s, desc), desc)
    decreases |s|
  {
    hide Transitive, KeysIn, Le, InOrder, Insert;
    if s == [] {
      NothingInOrder(desc);
    } else {
      TailKeys(s, desc, col);
      SortedInOrder(s[1..], desc, col);
      InsertInOrder(s[0], Sorted(s[1..], desc), desc, col);
    }
  }

  lemma NothingInOrder(desc: bool)
    ensures InOrder([], desc)
  {
  }

  /** The rows whose cells the comparator takes for equal to `c`. */
  function Alike(s: seq<Row>, c: Cell): seq<Row> {
    if s == [] then [] else (if Compare(s[0].key, c) == Equal then [s[0]] else []) + Alike(s[1..], c)
  }

  lemma EqualBothWays(x: Cell, c: Cell)
    ensures Compare(x, c) == Equal ==> forall desc :: Le(x, c, desc) && Le(c, x, desc)
  {
    CompareReversed(x, c);
  }

  lemma AlikeCons(x: Row, s: seq<Row>, c: Cell)
    ensures Alike([x] + s, c) == (if Compare(x.key, c) == Equal then [x] else []) + Alike(s, c)
  {
    assert ([x] + s)[1..] == s;
  }

  lemma {:induction false} InsertStable(x: Row, s: seq<Row>, desc: bool, col: seq<Cell>, c: Cell)
    requires Transitive(col, desc) && x.key in col && c in col && KeysIn(s, col)
    ensures Alike(Insert(x, s, desc), c) == Alike([x] + s, c)
  {
    hide Compare, Le, Alike;
    if s != [] && !Le(x.key, s[0].key, desc) {
      var rest := s[1..];
      assert s[0] in s && s == [s[0]] + rest && forall y <- rest :: y in s;
      InsertStable(x, rest, desc, col, c);
      AlikeCons(s[0], Insert(x, rest, desc), c);
      AlikeCons(x, rest, c);
      AlikeCons(x, s, c);
      AlikeCons(s[0], rest, c);
      EqualBothWays(x.key, c);
      EqualBothWays(s[0].key, c);
      assert !(Compare(x.key, c) == Equal && Compare(s[0].key, c) == Equal);
    }
  }

  lemma {:induction false} SortedStable(s: seq<Row>, desc: bool, col: seq<Cell>, c: Cell)
    requires Transitive(col, desc) && c in col && KeysIn(s, col)
    ensures Alike(Sorted(s, desc), c) == Alike(s, c)
    decreases |s|
  {
    hide Transitive, KeysIn, Le, Insert, Alike, Compare;
    if s != [] {
      TailKeys(s, desc, col);
      SortedStable(s[1..], desc, col, c);
      InsertStable(s[0], Sorted(s[1..], desc), desc, col, c);
      AlikeCons(s[0], Sorted(s[1..], desc), c);
      AlikeCons(s[0], s[1..], c);
      assert s == [s[0]] + s[1..];
    }
  }

  /** On a column whose texts part its numbers, and that has no nan beside different ones, the stage sorts:
      the same rows, in order, and rows with equal cells in the order they came in. */
  lemma SortSorts(s: seq<Row>, desc: bool, col: seq<Cell>)
    requires Separates(col) && NumbersAgree(col) && KeysIn(s, col)
    ensures InOrder(Sorted(s, desc), desc) && multiset(Sorted(s, desc)) == multiset(s)
    ensures forall c <- col :: Alike(Sorted(s, desc), c) == Alike(s, c)
  {
    hide *;
    TransitiveWhenSeparated(col, desc);
    SortedMembers(s, desc);
    SortedInOrder(s, desc, col);
    forall c | c in col ensures Alike(Sorted(s, desc), c) == Alike(s, c) { SortedStable(s, desc, col, c); }
  }

  // ---- The order, on what the cells hold ----

  /** No number is below or above nan; the infinities are the ends. */
  predicate NotAbove(m: Number, n: Number) {
    m.NaN? || n.NaN? || m.NegInfinity? || n.PosInfinity? || (m.Finite? && n.Finite? && m.value <= n.value)
  }

  /** Of two rows of a sorted column, the first has the smaller number, or, unless both are numbers, the text
      that comes first in a dictionary; descending, it is the other way round. */
  lemma SortOrders(s: seq<Row>, desc: bool, col: seq<Cell>, i: nat, j: nat)
    requires Separates(col) && NumbersAgree(col) && KeysIn(s, col) && i < j < |Sorted(s, desc)|
    ensures var low, high := Sorted(s, desc)[if desc then j else i].key, Sorted(s, desc)[if desc then i else j].key;
            if low.number.Some? && high.number.Some? then NotAbove(low.number.value, high.number.value)
            else InDictionary(low.text, high.text)
  {
    hide *;
    SortSorts(s, desc, col);
    var x, y := Sorted(s, desc)[i].key, Sorted(s, desc)[j].key;
    InOrderAt(Sorted(s, desc), desc, i, j);
    if desc { LeOnFields(y, x); } else { LeOnFields(x, y); }
  }

  lemma InOrderAt(s: seq<Row>, desc: bool, i: nat, j: nat)
    requires InOrder(s, desc) && i < j < |s|
    ensures if desc then Le(s[j].key, s[i].key, false) else Le(s[i].key, s[j].key, false)
  {
    assert Le(s[i].key, s[j].key, desc);
    CompareReversed(s[i].key, s[j].key);
    hide Compare;
  }

  lemma LeOnFields(x: Cell, y: Cell)
    requires Le(x, y, false)
    ensures if x.number.Some? && y.number.Some? then NotAbove(x.number.value, y.number.value)
            else InDictionary(x.text, y.text)
  {
    hide InDictionary, TextLe;
    TextLeTotal(x.text, y.text);
    TextLeMeans(x.text, y.text);
  }
}
