/** The flood fill and the feathering of dev/make_icon.py. */
module IconFill {
  import opened Common

  datatype Pixel = Pixel(r: byte, g: byte, b: byte, a: byte)

  datatype Cell = Cell(x: int, y: int)

  /** The picture by columns: `img[x][y]`. */
  type Image = img: seq<seq<Pixel>> |
    |img| >= 1 && |img[0]| >= 1 && forall x | 0 <= x < |img| :: |img[x]| == |img[0]|
    witness [[Pixel(0, 0, 0, 0)]]

  const WHITE: int := 238
  const FEATHER_LO: int := 150
  const CLEAR := Pixel(255, 255, 255, 0)

  predicate InGrid(img: Image, c: Cell) { 0 <= c.x < |img| && 0 <= c.y < |img[0]| }

  function At(img: Image, c: Cell): Pixel
    requires InGrid(img, c)
  {
    img[c.x][c.y]
  }

  predicate WhitePixel(p: Pixel) { p.a > 0 && p.r >= WHITE && p.g >= WHITE && p.b >= WHITE }

  predicate White(img: Image, c: Cell) { InGrid(img, c) && WhitePixel(At(img, c)) }

  predicate Border(img: Image, c: Cell) {
    InGrid(img, c) && (c.x == 0 || c.x == |img| - 1 || c.y == 0 || c.y == |img[0]| - 1)
  }

  /** The four directions, in the order the loop tries them. */
  function Step(c: Cell, i: nat): Cell
    requires i < 4
  {
    if i == 0 then Cell(c.x + 1, c.y) else if i == 1 then Cell(c.x - 1, c.y)
    else if i == 2 then Cell(c.x, c.y + 1) else Cell(c.x, c.y - 1)
  }

  predicate Adjacent(c: Cell, d: Cell) { exists i: nat :: i < 4 && d == Step(c, i) }

  // ---- Background: white joined to the border by white ----

  /** A 4-connected path of white pixels that starts on the border. */
  ghost predicate Path(img: Image, p: seq<Cell>) {
    && p != [] && Border(img, p[0])
    && (forall i | 0 <= i < |p| :: White(img, p[i]))
    && (forall i | 0 < i < |p| :: Adjacent(p[i - 1], p[i]))
  }

  ghost predicate Reached(img: Image, c: Cell) { exists p :: Path(img, p) && p[|p| - 1] == c }

  lemma ReachedSeed(img: Image, c: Cell)
    requires Border(img, c) && White(img, c)
    ensures Reached(img, c)
  {
    assert Path(img, [c]);
  }

  lemma ReachedStep(img: Image, c: Cell, d: Cell)
    requires Reached(img, c) && White(img, d) && Adjacent(c, d)
    ensures Reached(img, d)
  {
    var p :| Path(img, p) && p[|p| - 1] == c;
    assert Path(img, p + [d]);
  }

  /** A set that holds the white border and, with a pixel, its white neighbours. */
  ghost predicate Closed(img: Image, s: set<Cell>) {
    && (forall c | Border(img, c) && White(img, c) :: c in s)
    && (forall c, d | c in s && Adjacent(c, d) && White(img, d) :: d in s)
  }

  lemma {:induction false} ClosedHoldsPath(img: Image, s: set<Cell>, p: seq<Cell>, n: nat)
    requires Closed(img, s) && Path(img, p) && n < |p|
    ensures p[n] in s
  {
    if n > 0 { ClosedHoldsPath(img, s, p, n - 1); }
  }

  lemma ClosedHoldsReached(img: Image, s: set<Cell>, c: Cell)
    requires Closed(img, s) && Reached(img, c)
    ensures c in s
  {
    var p :| Path(img, p) && p[|p| - 1] == c;
    ClosedHoldsPath(img, s, p, |p| - 1);
  }

  // ---- The flattened array of seen flags ----

  function Index(img: Image, c: Cell): int { c.y * |img| + c.x }

  lemma RowBound(y: int, h: int, w: int)
    requires 0 <= y < h && w >= 1
    ensures 0 <= y * w && y * w + w <= h * w
    decreases h
  {
    if y + 1 < h {
      RowBound(y, h - 1, w);
      assert h * w == (h - 1) * w + w;
    } else {
      assert h * w == y * w + w;
      RowAtLeast(y, w);
    }
  }

  lemma RowAtLeast(y: int, w: int)
    requires 0 <= y && w >= 1
    ensures 0 <= y * w
    decreases y
  {
    if y > 0 {
      RowAtLeast(y - 1, w);
      assert y * w == (y - 1) * w + w;
    }
  }

  lemma IndexInRange(img: Image, c: Cell)
    requires InGrid(img, c)
    ensures 0 <= Index(img, c) < |img[0]| * |img|
  {
    RowBound(c.y, |img[0]|, |img|);
  }

  lemma IndexInjective(img: Image, c: Cell, d: Cell)
    requires InGrid(img, c) && InGrid(img, d) && Index(img, c) == Index(img, d)
    ensures c == d
  {
    var w := |img|;
    if c.y < d.y { RowBound(c.y, d.y, w); }
    if d.y < c.y { RowBound(d.y, c.y, w); }
  }

  /** The array marks exactly the cells of `s`. */
  ghost predicate Marks(img: Image, seen: array<bool>, s: set<Cell>)
    reads seen
  {
    && seen.Length == |img[0]| * |img|
    && (forall c <- s :: InGrid(img, c))
    && (forall c | InGrid(img, c) :: 0 <= Index(img, c) < seen.Length && (seen[Index(img, c)] <==> c in s))
  }

  method Mark(img: Image, seen: array<bool>, ghost s: set<Cell>, c: Cell)
    requires Marks(img, seen, s) && InGrid(img, c)
    modifies seen
    ensures Marks(img, seen, s + {c})
  {
    seen[Index(img, c)] := true;
    forall d | InGrid(img, d)
      ensures 0 <= Index(img, d) < seen.Length && (seen[Index(img, d)] <==> d in s + {c})
    {
      IndexInRange(img, d);
      if Index(img, d) == Index(img, c) { IndexInjective(img, c, d); }
    }
  }

  // ---- The flood ----

  /** What the fill knows between two turns: the seen cells are background, and each is queued or done. */
  ghost predicate Flooding(img: Image, s: set<Cell>, q: seq<Cell>, done: seq<Cell>) {
    && (forall c <- s :: White(img, c) && Reached(img, c))
    && (forall c :: c in s <==> c in q || c in done)
    && (forall c | Border(img, c) && White(img, c) :: c in s)
    && (forall c, d | c in done && Adjacent(c, d) && White(img, d) :: d in s)
  }

  /** How often the seeding loops come to a cell: corners twice, cells of a single row or column more. */
  function Seedings(img: Image, c: Cell): nat {
    (if c.y == 0 then 1 else 0) + (if c.y == |img[0]| - 1 then 1 else 0)
    + (if c.x == 0 then 1 else 0) + (if c.x == |img| - 1 then 1 else 0)
  }

  /** Each seen cell is queued or done as often as it was seeded, and once if it was flooded. */
  ghost predicate Counted(img: Image, s: set<Cell>, m: multiset<Cell>) {
    forall c :: m[c] == if c in s then (if Seedings(img, c) > 0 then Seedings(img, c) else 1) else 0
  }

  /** How often the seeding loops have come to a white cell after `i` columns and `j` rows. */
  function SeedCount(img: Image, c: Cell, i: nat, j: nat): nat {
    var rows := (if c.y == 0 then 1 else 0) + (if c.y == |img[0]| - 1 then 1 else 0);
    var columns := (if c.x == 0 then 1 else 0) + (if c.x == |img| - 1 then 1 else 0);
    if !White(img, c) then 0 else (if c.x < i then rows else 0) + (if c.y < j then columns else 0)
  }

  ghost predicate Queued(q: seq<Cell>, s: set<Cell>) { forall c :: c in s <==> c in q }

  method TrySeed(img: Image, seen: array<bool>, ghost s: set<Cell>, q: seq<Cell>, c: Cell)
    returns (r: seq<Cell>, ghost u: set<Cell>)
    requires Marks(img, seen, s) && InGrid(img, c) && Queued(q, s)
    modifies seen
    ensures Marks(img, seen, u) && Queued(r, u)
    ensures forall d :: multiset(r)[d] == multiset(q)[d] + if d == c && White(img, c) then 1 else 0
  {
    r, u := q, s;
    if White(img, c) {
      r := r + [c];
      Mark(img, seen, s, c);
      u := u + {c};
    }
  }

  /** Two cells tried: each white one is queued once more. */
  method TryTwo(img: Image, seen: array<bool>, ghost s: set<Cell>, q: seq<Cell>, a: Cell, b: Cell)
    returns (r: seq<Cell>, ghost u: set<Cell>)
    requires Marks(img, seen, s) && InGrid(img, a) && InGrid(img, b) && Queued(q, s)
    modifies seen
    ensures Marks(img, seen, u) && Queued(r, u) && TriedTwo(img, q, a, b, r)
  {
    hide Marks, Queued, White;
    r, u := TrySeed(img, seen, s, q, a);
    r, u := TrySeed(img, seen, u, r, b);
  }

  ghost predicate TriedTwo(img: Image, q: seq<Cell>, a: Cell, b: Cell, r: seq<Cell>) {
    forall d :: multiset(r)[d] == multiset(q)[d] + (if d == a && White(img, a) then 1 else 0)
                                                 + (if d == b && White(img, b) then 1 else 0)
  }

  ghost predicate Seeded(img: Image, q: seq<Cell>, i: nat, j: nat) {
    forall c :: multiset(q)[c] == SeedCount(img, c, i, j)
  }

  lemma SeedColumn(img: Image, q: seq<Cell>, x: nat, r: seq<Cell>)
    requires x < |img| && Seeded(img, q, x, 0) && TriedTwo(img, q, Cell(x, 0), Cell(x, |img[0]| - 1), r)
    ensures Seeded(img, r, x + 1, 0)
  {
    hide WhitePixel, At;
    forall c ensures multiset(r)[c] == SeedCount(img, c, x + 1, 0) {
      assert multiset(q)[c] == SeedCount(img, c, x, 0);
    }
  }

  lemma SeedRow(img: Image, q: seq<Cell>, y: nat, r: seq<Cell>)
    requires y < |img[0]| && Seeded(img, q, |img|, y) && TriedTwo(img, q, Cell(0, y), Cell(|img| - 1, y), r)
    ensures Seeded(img, r, |img|, y + 1)
  {
    hide WhitePixel, At;
    forall c ensures multiset(r)[c] == SeedCount(img, c, |img|, y + 1) {
      assert multiset(q)[c] == SeedCount(img, c, |img|, y);
    }
  }

  /** Every white pixel of the border is queued and marked. */
  method Seed(img: Image, seen: array<bool>) returns (q: seq<Cell>, ghost s: set<Cell>)
    requires Marks(img, seen, {})
    modifies seen
    ensures Marks(img, seen, s) && Queued(q, s) && Seeded(img, q, |img|, |img[0]|)
  {
    var w, h := |img|, |img[0]|;
    q, s := [], {};
    assert Queued(q, s) && Seeded(img, q, 0, 0);
    hide Marks, Queued, Seeded, TriedTwo;
    for x := 0 to w
      invariant Marks(img, seen, s) && Queued(q, s) && Seeded(img, q, x, 0)
    {
      ghost var before := q;
      q, s := TryTwo(img, seen, s, q, Cell(x, 0), Cell(x, h - 1));
      SeedColumn(img, before, x, q);
    }
    for y := 0 to h
      invariant Marks(img, seen, s) && Queued(q, s) && Seeded(img, q, w, y)
    {
      ghost var before := q;
      q, s := TryTwo(img, seen, s, q, Cell(0, y), Cell(w - 1, y));
      SeedRow(img, before, y, q);
    }
  }

  lemma SeedsFlood(img: Image, s: set<Cell>, q: seq<Cell>)
    requires Queued(q, s) && Seeded(img, q, |img|, |img[0]|)
    ensures Flooding(img, s, q, []) && Counted(img, s, multiset(q))
  {
    forall c
      ensures c in s <==> Border(img, c) && White(img, c)
      ensures c in s ==> White(img, c) && Reached(img, c)
      ensures multiset(q)[c] == if c in s then (if Seedings(img, c) > 0 then Seedings(img, c) else 1) else 0
    {
      assert c in q <==> c in multiset(q);
      if Border(img, c) && White(img, c) { ReachedSeed(img, c); }
    }
  }

  /** What visiting the neighbours of `c` does to the queue and the seen cells. */
  ghost predicate Visited(img: Image, s: set<Cell>, q: seq<Cell>, c: Cell, u: set<Cell>, r: seq<Cell>, n: nat)
    requires n <= 4
  {
    && s <= u && (forall d | d in u && d !in s :: White(img, d) && Adjacent(c, d))
    && (forall j: nat | j < n :: White(img, Step(c, j)) ==> Step(c, j) in u)
    && (forall d :: multiset(r)[d] == multiset(q)[d] + if d in u && d !in s then 1 else 0)
    && |r| - |q| == |u| - |s|
  }

  method Visit(img: Image, seen: array<bool>, ghost s: set<Cell>, q: seq<Cell>, c: Cell)
    returns (r: seq<Cell>, ghost u: set<Cell>)
    requires Marks(img, seen, s)
    modifies seen
    ensures Marks(img, seen, u) && Visited(img, s, q, c, u, r, 4)
  {
    r, u := q, s;
    for i := 0 to 4
      invariant Marks(img, seen, u) && Visited(img, s, q, c, u, r, i)
    {
      var d := Step(c, i);
      if InGrid(img, d) && !seen[Index(img, d)] && White(img, d) {
        Mark(img, seen, u, d);
        assert Adjacent(c, d);
        r, u := r + [d], u + {d};
      }
    }
  }

  lemma QueueStep(s: set<Cell>, q: seq<Cell>, done: seq<Cell>, u: set<Cell>, r: seq<Cell>)
    requires q != [] && s <= u && forall c :: c in s <==> c in q || c in done
    requires forall d :: multiset(r)[d] == multiset(q[1..])[d] + if d in u && d !in s then 1 else 0
    ensures forall c :: c in u <==> c in r || c in done + [q[0]]
  {
    assert q == [q[0]] + q[1..];
    forall d ensures d in u <==> d in r || d in done + [q[0]] {
      assert d in q[1..] <==> d in multiset(q[1..]);
      assert d in r <==> d in multiset(r);
    }
  }

  lemma CloseStep(img: Image, s: set<Cell>, done: seq<Cell>, c: Cell, u: set<Cell>)
    requires s <= u && forall d, e | d in done && Adjacent(d, e) && White(img, e) :: e in s
    requires forall j: nat | j < 4 :: White(img, Step(c, j)) ==> Step(c, j) in u
    ensures forall d, e | d in done + [c] && Adjacent(d, e) && White(img, e) :: e in u
  {
    forall d, e | d in done + [c] && Adjacent(d, e) && White(img, e) ensures e in u {
      if d !in done {
        var j: nat :| j < 4 && e == Step(c, j);
      }
    }
  }

  lemma FloodStep(img: Image, s: set<Cell>, q: seq<Cell>, done: seq<Cell>, u: set<Cell>, r: seq<Cell>)
    requires q != [] && Flooding(img, s, q, done) && Visited(img, s, q[1..], q[0], u, r, 4)
    ensures Flooding(img, u, r, done + [q[0]])
  {
    hide White, Reached, Adjacent, Step, Border;
    var c := q[0];
    assert c in s by { assert c in q; }
    QueueStep(s, q, done, u, r);
    CloseStep(img, s, done, c, u);
    forall d | d in u ensures White(img, d) && Reached(img, d) {
      if d !in s { ReachedStep(img, c, d); }
    }
  }

  lemma CountQueue(q: seq<Cell>, done: seq<Cell>, r: seq<Cell>, d: Cell, n: nat)
    requires q != [] && multiset(r)[d] == multiset(q[1..])[d] + n
    ensures (multiset(r) + multiset(done + [q[0]]))[d] == (multiset(q) + multiset(done))[d] + n
  {
    assert q == [q[0]] + q[1..];
  }

  lemma CountStep(img: Image, s: set<Cell>, q: seq<Cell>, done: seq<Cell>, u: set<Cell>, r: seq<Cell>)
    requires q != [] && Flooding(img, s, q, done) && Visited(img, s, q[1..], q[0], u, r, 4)
    requires Counted(img, s, multiset(q) + multiset(done))
    ensures Counted(img, u, multiset(r) + multiset(done + [q[0]]))
  {
    hide Reached, Adjacent, Step, WhitePixel;
    forall d
      ensures (multiset(r) + multiset(done + [q[0]]))[d]
           == if d in u then (if Seedings(img, d) > 0 then Seedings(img, d) else 1) else 0
    {
      CountQueue(q, done, r, d, if d in u && d !in s then 1 else 0);
      if d in u && d !in s { assert !Border(img, d); }
    }
  }

  ghost function Grid(img: Image): set<Cell> {
    set x, y | 0 <= x < |img| && 0 <= y < |img[0]| :: Cell(x, y)
  }

  /** The fill: the background is exactly the white joined to the border by white. */
  method Flood(img: Image) returns (background: seq<Cell>)
    ensures forall c :: c in background <==> Reached(img, c)
    ensures forall c :: multiset(background)[c] ==
                        if !Reached(img, c) then 0 else if Seedings(img, c) > 0 then Seedings(img, c) else 1
  {
    var seen := new bool[|img[0]| * |img|](_ => false);
    forall c | InGrid(img, c) ensures 0 <= Index(img, c) < seen.Length { IndexInRange(img, c); }
    var q;
    ghost var s;
    q, s := Seed(img, seen);
    SeedsFlood(img, s, q);
    background := [];
    ghost var all := Grid(img);
    while q != []
      invariant Marks(img, seen, s) && Flooding(img, s, q, background)
      invariant Counted(img, s, multiset(q) + multiset(background))
      decreases all - s, |q|
    {
      ghost var t, p := s, q;
      var c := q[0];
      q, s := Visit(img, seen, s, q[1..], c);
      FloodStep(img, t, p, background, s, q);
      CountStep(img, t, p, background, s, q);
      background := background + [c];
      Progress(img, t, s, p, q);
    }
    FloodIsReached(img, s, background);
  }

  lemma Progress(img: Image, s: set<Cell>, u: set<Cell>, q: seq<Cell>, r: seq<Cell>)
    requires q != [] && Visited(img, s, q[1..], q[0], u, r, 4)
    ensures Grid(img) - u < Grid(img) - s || (u == s && |r| < |q|)
  {
    if u != s {
      var d :| d in u && d !in s;
      assert d in Grid(img);
    }
  }

  lemma FloodIsReached(img: Image, s: set<Cell>, done: seq<Cell>)
    requires Flooding(img, s, [], done)
    ensures forall c :: c in s <==> c in done
    ensures forall c :: c in s <==> Reached(img, c)
  {
    assert Closed(img, s);
    forall c ensures c in s <==> Reached(img, c) {
      if Reached(img, c) { ClosedHoldsReached(img, s, c); }
    }
  }

  // ---- Clearing and feathering ----

  /** 255 * (1 - (lum - 150) / (238 - 150)) truncated and kept within a byte, where lum is a third of `sum`. */
  function Alpha(sum: int): (a: byte)
    requires 3 * FEATHER_LO < sum <= 765
    ensures a < 255
    ensures a as real <= 255.0 * (1.0 - (sum as real / 3.0 - 150.0) / 88.0) || a == 0
    ensures 255.0 * (1.0 - (sum as real / 3.0 - 150.0) / 88.0) < a as real + 1.0
  {
    if sum >= 714 then 0 else 255 * (714 - sum) / 264
  }

  /** An edge pixel that is not solid outline gives up as much alpha as it is bright. */
  function Feathered(p: Pixel): Pixel {
    var sum := p.r + p.g + p.b;
    if sum <= 3 * FEATHER_LO then p else p.(a := Alpha(sum))
  }

  lemma BrighterIsFainter(s: int, t: int)
    requires 3 * FEATHER_LO < s <= t <= 765
    ensures Alpha(t) <= Alpha(s)
  {
    if t < 714 { assert 255 * (714 - t) <= 255 * (714 - s); }
  }

  /** An opaque pixel next to the background. */
  ghost predicate Edge(img: Image, c: Cell) {
    InGrid(img, c) && !Reached(img, c) && At(img, c).a == 255 && exists b :: Reached(img, b) && Adjacent(b, c)
  }

  /** The picture after both loops. */
  ghost function Final(img: Image, c: Cell): Pixel
    requires InGrid(img, c)
  {
    if Reached(img, c) then CLEAR else if Edge(img, c) then Feathered(At(img, c)) else At(img, c)
  }

  /** Not wholly transparent, and every channel at 238 or more. */
  predicate Bright(p: Pixel) { p.a != 0 && 238 <= p.r && 238 <= p.g && 238 <= p.b }

  /** What becomes of a pixel, channel by channel. The background is white with no alpha. An opaque pixel beside it
      keeps its colour; up to a mean brightness of 150 it stays opaque, from 238 on it vanishes, and in
      between its alpha falls in proportion, truncated to a byte. */
  lemma PixelMeans(img: Image, c: Cell)
    requires InGrid(img, c)
    ensures var p, f := At(img, c), Final(img, c); var mean := (p.r + p.g + p.b) as real / 3.0;
            && (Reached(img, c) ==> (f.r, f.g, f.b, f.a) == (255, 255, 255, 0) && Bright(p))
            && (Border(img, c) && Bright(p) ==> Reached(img, c))
            && (!Reached(img, c) ==> (f.r, f.g, f.b) == (p.r, p.g, p.b) && (f.a != p.a ==> p.a == 255 && Edge(img, c)))
            && (Edge(img, c) ==>
                  && (mean <= 150.0 ==> f.a == 255) && (mean >= 238.0 ==> f.a == 0)
                  && (150.0 < mean < 238.0 ==>
                        f.a as real <= 255.0 * (238.0 - mean) / 88.0 < f.a as real + 1.0))
  {
    if Reached(img, c) { ReachedInGrid(img, c); }
    if White(img, c) && Border(img, c) { ReachedSeed(img, c); }
    hide Reached, Adjacent, Alpha;
    var p := At(img, c);
    var sum := p.r + p.g + p.b;
    if 3 * FEATHER_LO < sum {
      FadedAlpha(sum);
    }
  }

  lemma FadedAlpha(sum: int)
    requires 3 * FEATHER_LO < sum <= 765
    ensures var mean := sum as real / 3.0;
            && (mean >= 238.0 ==> Alpha(sum) == 0)
            && (mean < 238.0 ==> Alpha(sum) as real <= 255.0 * (238.0 - mean) / 88.0 < Alpha(sum) as real + 1.0)
  {
  }

  ghost predicate Cleared(img: Image, px: array2<Pixel>, done: seq<Cell>)
    reads px
  {
    && px.Length0 == |img| && px.Length1 == |img[0]|
    && forall c | InGrid(img, c) :: px[c.x, c.y] == if c in done then CLEAR else At(img, c)
  }

  method Clear(img: Image, px: array2<Pixel>, background: seq<Cell>)
    requires Cleared(img, px, []) && forall c <- background :: InGrid(img, c)
    modifies px
    ensures Cleared(img, px, background)
  {
    for i := 0 to |background|
      invariant Cleared(img, px, background[..i])
    {
      var c := background[i];
      assert c in background;
      px[c.x, c.y] := CLEAR;
      assert background[..i + 1] == background[..i] + [c];
    }
    assert background[..|background|] == background;
  }

  ghost predicate NextTo(near: seq<Cell>, d: Cell) { exists c <- near :: Adjacent(c, d) }

  lemma NextToMore(near: seq<Cell>, c: Cell, d: Cell)
    ensures NextTo(near + [c], d) <==> NextTo(near, d) || Adjacent(c, d)
  {
    assert forall b :: b in near + [c] <==> b in near || b == c;
  }

  ghost predicate SteppedTo(c: Cell, i: nat, d: Cell)
    requires i <= 4
  {
    exists j: nat :: j < i && d == Step(c, j)
  }

  /** The cells next to one of `near` that are still opaque. */
  ghost predicate Touched(img: Image, px: array2<Pixel>, near: seq<Cell>, edge: seq<Cell>)
    requires px.Length0 == |img| && px.Length1 == |img[0]|
    reads px
  {
    forall d :: d in edge <==> InGrid(img, d) && px[d.x, d.y].a == 255 && NextTo(near, d)
  }

  method Touch(img: Image, px: array2<Pixel>, near: seq<Cell>, c: Cell, edge: seq<Cell>) returns (r: seq<Cell>)
    requires px.Length0 == |img| && px.Length1 == |img[0]| && Touched(img, px, near, edge)
    ensures Touched(img, px, near + [c], r)
  {
    r := edge;
    for i := 0 to 4
      invariant forall d :: d in r <==> d in edge || (InGrid(img, d) && px[d.x, d.y].a == 255 && SteppedTo(c, i, d))
    {
      var d := Step(c, i);
      if InGrid(img, d) && px[d.x, d.y].a == 255 { r := r + [d]; }
    }
    forall d ensures NextTo(near + [c], d) <==> NextTo(near, d) || SteppedTo(c, 4, d) {
      NextToMore(near, c, d);
    }
  }

  method Edges(img: Image, px: array2<Pixel>, background: seq<Cell>) returns (edge: seq<Cell>)
    requires px.Length0 == |img| && px.Length1 == |img[0]|
    ensures Touched(img, px, background, edge)
  {
    edge := [];
    for i := 0 to |background|
      invariant Touched(img, px, background[..i], edge)
    {
      edge := Touch(img, px, background[..i], background[i], edge);
      assert background[..i + 1] == background[..i] + [background[i]];
    }
    assert background[..|background|] == background;
  }

  /** Each cell of the set is feathered once, in whatever order. */
  method Feather(img: Image, px: array2<Pixel>, edge: set<Cell>)
    requires px.Length0 == |img| && px.Length1 == |img[0]| && forall c <- edge :: InGrid(img, c)
    modifies px
    ensures forall c | InGrid(img, c) ::
              px[c.x, c.y] == if c in edge then Feathered(old(px[c.x, c.y])) else old(px[c.x, c.y])
  {
    var rest := edge;
    while rest != {}
      invariant rest <= edge
      invariant forall c | InGrid(img, c) ::
        px[c.x, c.y] == if c in edge && c !in rest then Feathered(old(px[c.x, c.y])) else old(px[c.x, c.y])
      decreases rest
    {
      var c :| c in rest;
      px[c.x, c.y] := Feathered(px[c.x, c.y]);
      rest := rest - {c};
    }
  }

  lemma EdgeIsTouched(img: Image, px: array2<Pixel>, background: seq<Cell>, edge: seq<Cell>, c: Cell)
    requires Cleared(img, px, background) && Touched(img, px, background, edge) && InGrid(img, c)
    requires forall b :: b in background <==> Reached(img, b)
    ensures c in edge <==> Edge(img, c)
  {
    hide Reached, Adjacent;
    if Edge(img, c) {
      var b :| Reached(img, b) && Adjacent(b, c);
      assert b in background;
    }
  }

  /** The whole of it: the background disappears, its edge fades, everything else stays, enclosed white included. */
  method MakeTransparent(img: Image, px: array2<Pixel>)
    requires Cleared(img, px, [])
    modifies px
    ensures px.Length0 == |img| && px.Length1 == |img[0]|
    ensures forall c | InGrid(img, c) :: px[c.x, c.y] == Final(img, c)
  {
    hide Reached, Adjacent, Feathered;
    var background := Flood(img);
    forall c <- background ensures InGrid(img, c) { ReachedInGrid(img, c); }
    Clear(img, px, background);
    var edge := Edges(img, px, background);
    var cells := set c | c in edge;
    forall c | InGrid(img, c) ensures c in edge <==> Edge(img, c) {
      EdgeIsTouched(img, px, background, edge, c);
    }
    Feather(img, px, cells);
  }

  lemma ReachedInGrid(img: Image, c: Cell)
    requires Reached(img, c)
    ensures White(img, c)
  {
    var p :| Path(img, p) && p[|p| - 1] == c;
  }
}
