/**
 The click ripple: which ring each grid cell falls in (the floor of its
 Euclidean distance to the clicked cell), the insertion-ordered ring ->
 keys map the click handler builds, the colour map it builds beside it, the
 delay each ring is flashed after, and the timers one click schedules.
 */
module Ripple {
  import opened Grid
  import Colour

  const BASE_DELAY: nat := 50
  const RING_BEAT: nat := 70
  const FLASH_DURATION: nat := 200

  /** The integer square root: floor(sqrt(n)). */
  function Isqrt(n: nat): (k: nat)
    ensures k * k <= n < (k + 1) * (k + 1)
  {
    if n == 0 then 0
    else
      var k := Isqrt(n - 1);
      assert (k + 2) * (k + 2) == (k + 1) * (k + 1) + 2 * k + 3;
      if (k + 1) * (k + 1) <= n then k + 1 else k
  }

  lemma {:induction false} SquareMonotone(a: nat, b: nat)
    requires a <= b
    ensures a * a <= b * b
    decreases b - a
  {
    if a < b {
      SquareMonotone(a + 1, b);
      assert (a + 1) * (a + 1) == a * a + 2 * a + 1;
    }
  }

  /** Isqrt(n) is the only k with k^2 <= n < (k+1)^2. */
  lemma IsqrtUnique(n: nat, k: nat)
    requires k * k <= n < (k + 1) * (k + 1)
    ensures Isqrt(n) == k
  {
    var j := Isqrt(n);
    if j < k {
      SquareMonotone(j + 1, k);
    } else if k < j {
      SquareMonotone(k + 1, j);
    }
  }

  /** A larger square distance never gives a smaller ring. */
  lemma IsqrtMonotone(m: nat, n: nat)
    requires m <= n
    ensures Isqrt(m) <= Isqrt(n)
  {
    var a, b := Isqrt(m), Isqrt(n);
    if b < a {
      SquareMonotone(b + 1, a);
    }
  }

  /** Squared Euclidean distance between two cells, in cell units. */
  function SqDist(c: Cell, origin: Cell): (d: nat)
    ensures d == 0 <==> c == origin
  {
    var dr, dc := c.row - origin.row, c.col - origin.col;
    assert dr != 0 ==> dr * dr > 0;
    assert dc != 0 ==> dc * dc > 0;
    dr * dr + dc * dc
  }

  /**
   Math.floor(Math.hypot(r - row, c - col)): the ring of cell `c` around
   `origin`. Ring 0 is the clicked cell alone.
   */
  function Ring(c: Cell, origin: Cell): (k: nat)
    ensures k * k <= SqDist(c, origin) < (k + 1) * (k + 1)
    ensures k == 0 <==> c == origin
  {
    Isqrt(SqDist(c, origin))
  }

  /** A cell nearer the click is never in a later ring. */
  lemma RingMonotone(a: Cell, b: Cell, origin: Cell)
    requires SqDist(a, origin) <= SqDist(b, origin)
    ensures Ring(a, origin) <= Ring(b, origin)
  {
    IsqrtMonotone(SqDist(a, origin), SqDist(b, origin));
  }

  /** `ring === 0 ? 0 : BASE_DELAY + (ring - 1) * RING_BEAT`, in milliseconds. */
  function RingDelay(ring: nat): nat {
    if ring == 0 then 0 else BASE_DELAY + (ring - 1) * RING_BEAT
  }

  /** Ring 0 fires at once; ring 1 after BASE_DELAY; each further ring RING_BEAT later. */
  lemma RingDelaySteps(k: nat)
    ensures RingDelay(0) == 0
    ensures RingDelay(k + 1) == RingDelay(k) + (if k == 0 then BASE_DELAY else RING_BEAT)
  {
  }

  /** Delays strictly increase with the ring. */
  lemma {:induction false} RingDelayIncreasing(j: nat, k: nat)
    requires j < k
    ensures RingDelay(j) < RingDelay(k)
    decreases k - j
  {
    RingDelaySteps(j);
    if j + 1 < k {
      RingDelayIncreasing(j + 1, k);
    }
  }

  /** A cell nearer the click never flashes later than a farther one. */
  lemma NearerFlashesNoLater(a: Cell, b: Cell, origin: Cell)
    requires SqDist(a, origin) <= SqDist(b, origin)
    ensures RingDelay(Ring(a, origin)) <= RingDelay(Ring(b, origin))
  {
    RingMonotone(a, b, origin);
    if Ring(a, origin) < Ring(b, origin) {
      RingDelayIncreasing(Ring(a, origin), Ring(b, origin));
    }
  }

  /** Whether the click handler files cell `c` under a ring: under reduced motion only ring 0. */
  predicate Kept(c: Cell, origin: Cell, reduced: bool) {
    !reduced || Ring(c, origin) == 0
  }

  /**
   A JavaScript `Map` from ring numbers to key lists: the entries, and the
   order in which their rings were first inserted (the order `forEach` visits).
   */
  datatype RingMap = RingMap(buckets: map<nat, seq<string>>, order: seq<nat>) {
    predicate Valid() {
      && Distinct(order)
      && (forall k :: k in order ==> k in buckets)
      && (forall k :: k in buckets ==> k in order)
    }

    /** `if (!rings.has(ring)) rings.set(ring, []); rings.get(ring).push(key)` */
    function Push(ring: nat, key: string): (m: RingMap)
      requires Valid()
      ensures m.Valid()
      ensures m.buckets.Keys == buckets.Keys + {ring}
      ensures m.buckets[ring] == (if ring in buckets then buckets[ring] else []) + [key]
      ensures forall k :: k in buckets && k != ring ==> m.buckets[k] == buckets[k]
      ensures ring in buckets ==> m.order == order
      ensures ring !in buckets ==> m.order == order + [ring]
    {
      if ring in buckets then RingMap(buckets[ring := buckets[ring] + [key]], order)
      else RingMap(buckets[ring := [key]], order + [ring])
    }
  }

  /** The rings map after the click handler has visited `cells` in order. */
  function Rings(cells: seq<Cell>, origin: Cell, reduced: bool): (m: RingMap)
    ensures m.Valid()
  {
    if cells == [] then RingMap(map[], [])
    else
      var prev := Rings(cells[..|cells| - 1], origin, reduced);
      var c := cells[|cells| - 1];
      if Kept(c, origin, reduced) then prev.Push(Ring(c, origin), Key(c)) else prev
  }

  /** The cells of `cells` filed under ring `k`, in visiting order. */
  function RingCells(cells: seq<Cell>, origin: Cell, reduced: bool, k: nat): seq<Cell> {
    if cells == [] then []
    else
      var c := cells[|cells| - 1];
      RingCells(cells[..|cells| - 1], origin, reduced, k)
        + (if Kept(c, origin, reduced) && Ring(c, origin) == k then [c] else [])
  }

  lemma KeysAppend(cells: seq<Cell>, c: Cell)
    ensures Keys(cells + [c]) == Keys(cells) + [Key(c)]
  {
  }

  /** Each ring's entry holds exactly the keys of the cells filed under it, in visiting order. */
  lemma {:induction false} RingsHoldRingCells(cells: seq<Cell>, origin: Cell, reduced: bool)
    ensures forall k :: k in Rings(cells, origin, reduced).buckets <==> RingCells(cells, origin, reduced, k) != []
    ensures forall k :: k in Rings(cells, origin, reduced).buckets ==>
      Rings(cells, origin, reduced).buckets[k] == Keys(RingCells(cells, origin, reduced, k))
  {
    if cells != [] {
      var init, c := cells[..|cells| - 1], cells[|cells| - 1];
      RingsHoldRingCells(init, origin, reduced);
      var prev, now := Rings(init, origin, reduced), Rings(cells, origin, reduced);
      var kept, ring := Kept(c, origin, reduced), Ring(c, origin);
      assert now == if kept then prev.Push(ring, Key(c)) else prev;
      forall k
        ensures k in now.buckets <==> RingCells(cells, origin, reduced, k) != []
        ensures k in now.buckets ==> now.buckets[k] == Keys(RingCells(cells, origin, reduced, k))
      {
        var before := RingCells(init, origin, reduced, k);
        if kept && k == ring {
          assert RingCells(cells, origin, reduced, k) == before + [c];
          KeysAppend(before, c);
        } else {
          assert RingCells(cells, origin, reduced, k) == before;
        }
      }
    }
  }

  /** A cell is filed under ring `k` exactly when it was visited, kept, and lies in ring `k`. */
  lemma {:induction false} RingCellsMembers(cells: seq<Cell>, origin: Cell, reduced: bool, k: nat)
    ensures forall x :: x in RingCells(cells, origin, reduced, k) <==>
      x in cells && Kept(x, origin, reduced) && Ring(x, origin) == k
  {
    if cells != [] {
      var init := cells[..|cells| - 1];
      RingCellsMembers(init, origin, reduced, k);
      SplitLast(cells);
    }
  }

  /** Visiting each cell once files each cell at most once. */
  lemma {:induction false} RingCellsDistinct(cells: seq<Cell>, origin: Cell, reduced: bool, k: nat)
    requires Distinct(cells)
    ensures Distinct(RingCells(cells, origin, reduced, k))
  {
    if cells != [] {
      var init, c := cells[..|cells| - 1], cells[|cells| - 1];
      assert Distinct(init);
      RingCellsDistinct(init, origin, reduced, k);
      RingCellsMembers(init, origin, reduced, k);
      assert c !in init;
    }
  }

  /** Ring 0 holds the clicked cell and nothing else. */
  lemma {:induction false} RingZeroCells(cells: seq<Cell>, origin: Cell, reduced: bool)
    requires Distinct(cells)
    ensures RingCells(cells, origin, reduced, 0) == if origin in cells then [origin] else []
  {
    if cells != [] {
      var init, c := cells[..|cells| - 1], cells[|cells| - 1];
      assert Distinct(init);
      RingZeroCells(init, origin, reduced);
      SplitLast(cells);
    }
  }

  /** Under reduced motion nothing is filed outside ring 0. */
  lemma {:induction false} ReducedKeepsRingZero(cells: seq<Cell>, origin: Cell, k: nat)
    requires k != 0
    ensures RingCells(cells, origin, true, k) == []
  {
    if cells != [] {
      ReducedKeepsRingZero(cells[..|cells| - 1], origin, k);
    }
  }

  /** The rings map of a click on cell `origin` of a `rows` x `cols` grid. */
  function ClickRings(rows: nat, cols: nat, origin: Cell, reduced: bool): (m: RingMap)
    ensures m.Valid()
  {
    Rings(AllCells(rows, cols), origin, reduced)
  }

  /**
   Every grid cell the handler keeps is filed under exactly one ring, the
   floor of its distance to the clicked cell; every filed key is such a cell's
   key, and no entry repeats a key or is empty.
   */
  lemma RingsPartitionGrid(rows: nat, cols: nat, origin: Cell, reduced: bool)
    ensures var m := ClickRings(rows, cols, origin, reduced);
      && (forall x, k :: InGrid(x, rows, cols) && k in m.buckets ==>
            (Key(x) in m.buckets[k] <==> Kept(x, origin, reduced) && Ring(x, origin) == k))
      && (forall x :: InGrid(x, rows, cols) && Kept(x, origin, reduced) ==> Ring(x, origin) in m.buckets)
      && (forall k, s :: k in m.buckets && s in m.buckets[k] ==>
            exists x :: InGrid(x, rows, cols) && Kept(x, origin, reduced) && Ring(x, origin) == k && s == Key(x))
      && (forall k :: k in m.buckets ==> m.buckets[k] != [] && Distinct(m.buckets[k]))
  {
    var cells := AllCells(rows, cols);
    var m := ClickRings(rows, cols, origin, reduced);
    AllCellsAreGrid(rows, cols);
    RingsHoldRingCells(cells, origin, reduced);
    forall k | k in m.buckets
      ensures forall x :: InGrid(x, rows, cols) ==>
        (Key(x) in m.buckets[k] <==> Kept(x, origin, reduced) && Ring(x, origin) == k)
      ensures forall s :: s in m.buckets[k] ==>
        exists x :: InGrid(x, rows, cols) && Kept(x, origin, reduced) && Ring(x, origin) == k && s == Key(x)
      ensures m.buckets[k] != [] && Distinct(m.buckets[k])
    {
      var rc := RingCells(cells, origin, reduced, k);
      RingCellsMembers(cells, origin, reduced, k);
      RingCellsDistinct(cells, origin, reduced, k);
      KeysDistinct(rc);
      forall x | InGrid(x, rows, cols) && Key(x) in m.buckets[k]
        ensures Kept(x, origin, reduced) && Ring(x, origin) == k
      {
        var i :| 0 <= i < |rc| && Keys(rc)[i] == Key(x);
        KeyInjective(x, rc[i]);
      }
      forall s | s in m.buckets[k]
        ensures exists x :: InGrid(x, rows, cols) && Kept(x, origin, reduced) && Ring(x, origin) == k && s == Key(x)
      {
        var i :| 0 <= i < |rc| && Keys(rc)[i] == s;
        assert rc[i] in rc;
      }
    }
    forall x | InGrid(x, rows, cols) && Kept(x, origin, reduced)
      ensures Ring(x, origin) in m.buckets
    {
      RingCellsMembers(cells, origin, reduced, Ring(x, origin));
    }
  }

  /** Ring 0 is the clicked cell's key alone. */
  lemma RingZeroIsClickedCell(rows: nat, cols: nat, origin: Cell, reduced: bool)
    requires InGrid(origin, rows, cols)
    ensures 0 in ClickRings(rows, cols, origin, reduced).buckets
    ensures ClickRings(rows, cols, origin, reduced).buckets[0] == [Key(origin)]
  {
    var cells := AllCells(rows, cols);
    AllCellsAreGrid(rows, cols);
    RingsHoldRingCells(cells, origin, reduced);
    RingZeroCells(cells, origin, reduced);
    assert RingCells(cells, origin, reduced, 0) == [origin];
    assert Keys([origin]) == [Key(origin)];
  }

  /** A map with the single entry 0 has visited 0 alone. */
  lemma SingleEntryOrder(m: RingMap)
    requires m.Valid() && m.buckets.Keys == {0}
    ensures m.order == [0]
  {
    DistinctSetSize(m.order);
    assert Members(m.order) == {0};
    assert |m.order| == 1;
    assert m.order[0] in m.buckets;
    assert m.order == [m.order[0]];
  }

  /** Under reduced motion the map holds ring 0, the clicked cell, and nothing else. */
  lemma ReducedRingsOnlyClickedCell(rows: nat, cols: nat, origin: Cell)
    requires InGrid(origin, rows, cols)
    ensures ClickRings(rows, cols, origin, true) == RingMap(map[0 := [Key(origin)]], [0])
  {
    var cells := AllCells(rows, cols);
    var m := ClickRings(rows, cols, origin, true);
    RingZeroIsClickedCell(rows, cols, origin, true);
    RingsHoldRingCells(cells, origin, true);
    forall k | k != 0 ensures k !in m.buckets {
      ReducedKeepsRingZero(cells, origin, k);
    }
    assert m.buckets == map[0 := [Key(origin)]];
    SingleEntryOrder(m);
  }

  /** The colour a cell flashes in: the accent colour at the alpha its distance gives. */
  function CellColour(c: Cell, origin: Cell, alpha: (int, int) -> string): string {
    Colour.HexToRgba(Colour.ACCENT_COLOR, alpha(c.row - origin.row, c.col - origin.col))
  }

  /** The colour map after the click handler has visited `cells` in order. */
  function ColourMap(cells: seq<Cell>, origin: Cell, alpha: (int, int) -> string): map<string, string> {
    if cells == [] then map[]
    else
      var c := cells[|cells| - 1];
      ColourMap(cells[..|cells| - 1], origin, alpha)[Key(c) := CellColour(c, origin, alpha)]
  }

  /** The colour map's keys are the keys of the visited cells. */
  lemma {:induction false} ColourMapKeys(cells: seq<Cell>, origin: Cell, alpha: (int, int) -> string)
    ensures ColourMap(cells, origin, alpha).Keys == KeySet(cells)
  {
    if cells != [] {
      var init, c := cells[..|cells| - 1], cells[|cells| - 1];
      var prev := ColourMap(init, origin, alpha);
      ColourMapKeys(init, origin, alpha);
      SplitLast(cells);
      KeySetAppend(init, c);
      var cm := ColourMap(cells, origin, alpha);
      assert cm == prev[Key(c) := CellColour(c, origin, alpha)];
      assert cm.Keys == prev.Keys + {Key(c)};
    }
  }

  /** Each visited cell's key holds that cell's colour. */
  lemma {:induction false} ColourMapValues(cells: seq<Cell>, origin: Cell, alpha: (int, int) -> string)
    ensures forall x :: x in cells ==>
      (Key(x) in ColourMap(cells, origin, alpha) && ColourMap(cells, origin, alpha)[Key(x)] == CellColour(x, origin, alpha))
  {
    if cells != [] {
      var init, c := cells[..|cells| - 1], cells[|cells| - 1];
      ColourMapValues(init, origin, alpha);
      SplitLast(cells);
      forall x | x in cells
        ensures Key(x) in ColourMap(cells, origin, alpha)
        ensures ColourMap(cells, origin, alpha)[Key(x)] == CellColour(x, origin, alpha)
      {
        if Key(x) == Key(c) {
          KeyInjective(x, c);
        }
      }
    }
  }

  /** The colour map of a click on cell `origin` of a `rows` x `cols` grid. */
  function ClickColours(rows: nat, cols: nat, origin: Cell, alpha: (int, int) -> string): map<string, string> {
    ColourMap(AllCells(rows, cols), origin, alpha)
  }

  /**
   Whatever the motion preference, the colour map holds one entry for each of
   the rows * cols cells, and every key filed under a ring has a colour.
   */
  lemma ColoursCoverGrid(rows: nat, cols: nat, origin: Cell, reduced: bool, alpha: (int, int) -> string)
    ensures var cm := ClickColours(rows, cols, origin, alpha);
      && |cm| == rows * cols
      && (forall x :: InGrid(x, rows, cols) ==> Key(x) in cm && cm[Key(x)] == CellColour(x, origin, alpha))
      && (forall s :: s in cm ==> exists x :: InGrid(x, rows, cols) && s == Key(x))
      && (forall k, s ::
            (k in ClickRings(rows, cols, origin, reduced).buckets && s in ClickRings(rows, cols, origin, reduced).buckets[k])
            ==> s in cm)
  {
    var cells := AllCells(rows, cols);
    AllCellsAreGrid(rows, cols);
    ColourMapKeys(cells, origin, alpha);
    ColourMapValues(cells, origin, alpha);
    KeySetSize(cells);
    RingsPartitionGrid(rows, cols, origin, reduced);
    var cm := ClickColours(rows, cols, origin, alpha);
    forall s | s in cm ensures exists x :: InGrid(x, rows, cols) && s == Key(x) {
      var x :| x in cells && Key(x) == s;
    }
  }

  /**
   The nested loops of the click handler: visit every cell row by row, record
   its colour under its key, and (unless reduced motion skips it) push its key
   onto the list of its ring, creating that list on first use.
   */
  method BuildRings(rows: nat, cols: nat, origin: Cell, reduced: bool, alpha: (int, int) -> string)
    returns (rings: RingMap, colorMap: map<string, string>)
    ensures rings == ClickRings(rows, cols, origin, reduced)
    ensures colorMap == ClickColours(rows, cols, origin, alpha)
    ensures rings.Valid()
    ensures forall k, s :: k in rings.buckets && s in rings.buckets[k] ==> s in colorMap
  {
    rings := RingMap(map[], []);
    colorMap := map[];
    for r := 0 to rows
      invariant rings == Rings(RowMajor(r, 0, cols), origin, reduced)
      invariant colorMap == ColourMap(RowMajor(r, 0, cols), origin, alpha)
    {
      for c := 0 to cols
        invariant rings == Rings(RowMajor(r, c, cols), origin, reduced)
        invariant colorMap == ColourMap(RowMajor(r, c, cols), origin, alpha)
      {
        var cell := Cell(r, c);
        VisitStep(r, c, cols, origin, reduced, alpha);
        var ring := Ring(cell, origin);
        colorMap := colorMap[Key(cell) := CellColour(cell, origin, alpha)];
        if reduced && ring != 0 {
          continue;
        }
        rings := rings.Push(ring, Key(cell));
      }
      assert RowMajor(r + 1, 0, cols) == RowMajor(r, cols, cols);
    }
    ColoursCoverGrid(rows, cols, origin, reduced, alpha);
  }

  /** Visiting cell (r, c) extends both folds by that one cell. */
  lemma VisitStep(r: nat, c: nat, cols: nat, origin: Cell, reduced: bool, alpha: (int, int) -> string)
    requires c < cols
    ensures var cell, prev := Cell(r, c), RowMajor(r, c, cols);
      && Rings(RowMajor(r, c + 1, cols), origin, reduced) ==
           (if Kept(cell, origin, reduced) then Rings(prev, origin, reduced).Push(Ring(cell, origin), Key(cell))
            else Rings(prev, origin, reduced))
      && ColourMap(RowMajor(r, c + 1, cols), origin, alpha) ==
           ColourMap(prev, origin, alpha)[Key(cell) := CellColour(cell, origin, alpha)]
  {
    var cells := RowMajor(r, c + 1, cols);
    assert cells[..|cells| - 1] == RowMajor(r, c, cols);
  }

  /** What a pending timer does when it fires: switch a ring's cells on, or off again. */
  datatype Action =
    | FlashOn(keys: seq<string>, colours: map<string, string>)
    | FlashOff(keys: seq<string>)

  datatype Timer = Timer(delay: nat, action: Action)

  /** The timers `rings.forEach` arms: one per ring, in insertion order, at that ring's delay. */
  function RingTimers(m: RingMap, cm: map<string, string>): (ts: seq<Timer>)
    requires m.Valid()
    ensures |ts| == |m.order|
  {
    seq(|m.order|, i requires 0 <= i < |m.order| => Timer(RingDelay(m.order[i]), FlashOn(m.buckets[m.order[i]], cm)))
  }

  /** The timers a click schedules. */
  function ClickTimers(rows: nat, cols: nat, origin: Cell, reduced: bool, alpha: (int, int) -> string): (ts: seq<Timer>)
    ensures |ts| == |ClickRings(rows, cols, origin, reduced).order|
  {
    RingTimers(ClickRings(rows, cols, origin, reduced), ClickColours(rows, cols, origin, alpha))
  }

  /**
   The i-th timer of a click switches on the i-th ring the map received, at
   that ring's delay, in the click's colour map; the grid cells it names are
   exactly the kept cells of that ring.
   */
  lemma ClickTimerAt(rows: nat, cols: nat, origin: Cell, reduced: bool, alpha: (int, int) -> string, i: nat)
    requires i < |ClickRings(rows, cols, origin, reduced).order|
    ensures var m := ClickRings(rows, cols, origin, reduced);
      var cm := ClickColours(rows, cols, origin, alpha);
      var t := ClickTimers(rows, cols, origin, reduced, alpha)[i];
      && t == Timer(RingDelay(m.order[i]), FlashOn(m.buckets[m.order[i]], cm))
      && (forall s :: s in t.action.keys ==> s in cm)
      && (forall x :: InGrid(x, rows, cols) ==>
            (Key(x) in t.action.keys <==> Kept(x, origin, reduced) && Ring(x, origin) == m.order[i]))
  {
    RingsPartitionGrid(rows, cols, origin, reduced);
    ColoursCoverGrid(rows, cols, origin, reduced, alpha);
  }

  /**
   One click switches every kept grid cell on exactly once, at the delay of
   its ring, in the click's colour map; every switched key has a colour.
   */
  lemma ClickFlashesEachCellOnce(rows: nat, cols: nat, origin: Cell, reduced: bool, alpha: (int, int) -> string)
    ensures var ts := ClickTimers(rows, cols, origin, reduced, alpha);
      var cm := ClickColours(rows, cols, origin, alpha);
      && (forall i :: 0 <= i < |ts| ==> ts[i].action.FlashOn? && ts[i].action.colours == cm)
      && (forall i, s :: 0 <= i < |ts| && s in ts[i].action.keys ==> s in cm)
      && (forall x :: InGrid(x, rows, cols) && Kept(x, origin, reduced) ==>
            exists i :: 0 <= i < |ts| && Key(x) in ts[i].action.keys)
      && (forall x, i :: InGrid(x, rows, cols) && 0 <= i < |ts| && Key(x) in ts[i].action.keys ==>
            Kept(x, origin, reduced) && ts[i].delay == RingDelay(Ring(x, origin)))
      && (forall x, i, j ::
            (InGrid(x, rows, cols) && 0 <= i < |ts| && 0 <= j < |ts| &&
             Key(x) in ts[i].action.keys && Key(x) in ts[j].action.keys) ==> i == j)
  {
    var ts := ClickTimers(rows, cols, origin, reduced, alpha);
    var m := ClickRings(rows, cols, origin, reduced);
    forall i | 0 <= i < |ts|
      ensures ts[i].action.FlashOn? && ts[i].action.colours == ClickColours(rows, cols, origin, alpha)
      ensures forall s :: s in ts[i].action.keys ==> s in ClickColours(rows, cols, origin, alpha)
      ensures forall x :: InGrid(x, rows, cols) && Key(x) in ts[i].action.keys ==>
        Kept(x, origin, reduced) && ts[i].delay == RingDelay(Ring(x, origin)) && m.order[i] == Ring(x, origin)
    {
      ClickTimerAt(rows, cols, origin, reduced, alpha, i);
    }
    forall x | InGrid(x, rows, cols) && Kept(x, origin, reduced)
      ensures exists i :: 0 <= i < |ts| && Key(x) in ts[i].action.keys
    {
      RingsPartitionGrid(rows, cols, origin, reduced);
      var i :| 0 <= i < |m.order| && m.order[i] == Ring(x, origin);
      ClickTimerAt(rows, cols, origin, reduced, alpha, i);
    }
  }

  /**
   The clicked cell is switched on at once; under reduced motion that is the
   click's only timer.
   */
  lemma ClickStartsAtClickedCell(rows: nat, cols: nat, origin: Cell, reduced: bool, alpha: (int, int) -> string)
    requires InGrid(origin, rows, cols)
    ensures var ts := ClickTimers(rows, cols, origin, reduced, alpha);
      var on := Timer(0, FlashOn([Key(origin)], ClickColours(rows, cols, origin, alpha)));
      && (exists i :: 0 <= i < |ts| && ts[i] == on)
      && (reduced ==> ts == [on])
  {
    var m := ClickRings(rows, cols, origin, reduced);
    RingZeroIsClickedCell(rows, cols, origin, reduced);
    var i :| 0 <= i < |m.order| && m.order[i] == 0;
    ClickTimerAt(rows, cols, origin, reduced, alpha, i);
    if reduced {
      ReducedRingsOnlyClickedCell(rows, cols, origin);
      ClickTimerAt(rows, cols, origin, reduced, alpha, 0);
    }
  }

  /** What switching a ring on does to the flash map: exactly its keys now hold their colours. */
  predicate SwitchedOn(prev: map<string, string>, next: map<string, string>, keys: seq<string>, colours: map<string, string>)
  {
    && next.Keys == prev.Keys + (set k | k in keys)
    && (forall k :: k in keys ==> k in colours && next[k] == colours[k])
    && (forall k :: k in prev && k !in keys ==> next[k] == prev[k])
  }

  /** What switching a ring off does to the flash map: exactly its keys are gone. */
  predicate SwitchedOff(prev: map<string, string>, next: map<string, string>, keys: seq<string>)
  {
    && next.Keys == prev.Keys - (set k | k in keys)
    && (forall k :: k in next ==> next[k] == prev[k])
  }

  /**
   The updater passed to setFlashes when a ring's timer fires: copy the map,
   then set each key to its colour.
   */
  method LightRing(prev: map<string, string>, keys: seq<string>, colours: map<string, string>)
    returns (next: map<string, string>)
    requires forall k :: k in keys ==> k in colours
    ensures SwitchedOn(prev, next, keys, colours)
  {
    next := prev;
    for i := 0 to |keys|
      invariant next.Keys == prev.Keys + (set k | k in keys[..i])
      invariant forall k :: k in keys[..i] ==> next[k] == colours[k]
      invariant forall k :: k in prev && k !in keys[..i] ==> next[k] == prev[k]
    {
      next := next[keys[i] := colours[keys[i]]];
      assert keys[..i + 1] == keys[..i] + [keys[i]];
    }
    assert keys[..|keys|] == keys;
  }

  /**
   The updater passed to setFlashes FLASH_DURATION later: copy the map, then
   delete each key.
   */
  method DimRing(prev: map<string, string>, keys: seq<string>) returns (next: map<string, string>)
    ensures SwitchedOff(prev, next, keys)
  {
    next := prev;
    for i := 0 to |keys|
      invariant next.Keys == prev.Keys - (set k | k in keys[..i])
      invariant forall k :: k in next ==> next[k] == prev[k]
    {
      next := next - {keys[i]};
      assert keys[..i + 1] == keys[..i] + [keys[i]];
    }
    assert keys[..|keys|] == keys;
  }

  /** A ring switched on and then off leaves every other cell's flash as it was. */
  lemma OnThenOffRestoresOthers(prev: map<string, string>, mid: map<string, string>, next: map<string, string>,
                                keys: seq<string>, colours: map<string, string>)
    requires SwitchedOn(prev, mid, keys, colours) && SwitchedOff(mid, next, keys)
    ensures next == prev - (set k | k in keys)
  {
    var gone := set k | k in keys;
    assert next.Keys == (prev - gone).Keys;
    forall k | k in next ensures next[k] == (prev - gone)[k] {
      assert k !in keys;
    }
  }
}
