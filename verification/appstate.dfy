/**
 The state the App component keeps between events and what its click handler
 and timers do to it: the grid size, the reduced-motion flag, the list of
 timeout handles, the flash map, and the browser's armed timers (the handles
 `setTimeout` has handed out and not yet fired or cleared).
 */
module AppState {
  import opened Grid
  import opened Ripple

  /** The `n` handles handed out from `base` on, in order. */
  function Handles(base: nat, n: nat): seq<nat> {
    if n == 0 then [] else Handles(base, n - 1) + [base + n - 1]
  }

  /** The i-th of those handles is `base + i`. */
  lemma {:induction false} HandlesAt(base: nat, n: nat)
    ensures |Handles(base, n)| == n
    ensures forall i :: 0 <= i < n ==> Handles(base, n)[i] == base + i
  {
    if n > 0 {
      HandlesAt(base, n - 1);
    }
  }

  /** The timers `ts` armed one after another under the handles from `base` on. */
  function Armed(base: nat, ts: seq<Timer>): map<nat, Timer>
  {
    if ts == [] then map[]
    else Armed(base, ts[..|ts| - 1])[base + |ts| - 1 := ts[|ts| - 1]]
  }

  /** Arming `ts` from `base` on gives handle `base + i` to the i-th timer and no other handle. */
  lemma {:induction false} ArmedHandles(base: nat, ts: seq<Timer>)
    ensures forall h :: h in Armed(base, ts) <==> base <= h < base + |ts|
    ensures forall i :: 0 <= i < |ts| ==> Armed(base, ts)[base + i] == ts[i]
  {
    if ts != [] {
      var init := ts[..|ts| - 1];
      ArmedHandles(base, init);
      assert forall i :: 0 <= i < |init| ==> ts[i] == init[i];
    }
  }

  lemma ArmedStep(base: nat, ts: seq<Timer>, i: nat)
    requires i < |ts|
    ensures Handles(base, i) + [base + i] == Handles(base, i + 1)
    ensures Armed(base, ts[..i])[base + i := ts[i]] == Armed(base, ts[..i + 1])
  {
    assert ts[..i + 1][..i] == ts[..i];
  }

  lemma ArmedSingle(base: nat, t: Timer)
    ensures Armed(base, [t]) == map[base := t]
  {
    assert [t][..0] == [];
  }

  /** Under reduced motion a click arms a single timer: the clicked cell, at once. */
  lemma ReducedClickArmsOne(base: nat, rows: nat, cols: nat, origin: Cell, alpha: (int, int) -> string)
    requires InGrid(origin, rows, cols)
    ensures Armed(base, ClickTimers(rows, cols, origin, true, alpha)) ==
      map[base := Timer(0, FlashOn([Key(origin)], ClickColours(rows, cols, origin, alpha)))]
  {
    ClickStartsAtClickedCell(rows, cols, origin, true, alpha);
    ArmedSingle(base, Timer(0, FlashOn([Key(origin)], ClickColours(rows, cols, origin, alpha))));
  }

  /** A timer that switches keys on has a colour for each of them. */
  predicate Coloured(a: Action) {
    a.FlashOn? ==> forall k :: k in a.keys ==> k in a.colours
  }

  class App {
    /** `grid.rows` and `grid.cols`. */
    var rows: nat
    var cols: nat
    /** `prefersReduced.current`. */
    var prefersReduced: bool
    /** `timeoutsRef.current`: every handle scheduled since the last clear. */
    var timeouts: seq<nat>
    /** The `flashes` state: cell key -> colour of the cells lit now. */
    var flashes: map<string, string>
    /** The browser's timers that are armed: handle -> what it will do. */
    var pending: map<nat, Timer>
    /** The handle the browser hands out next. */
    var nextHandle: nat

    /**
     Every armed timer is in the handle list (so clearing the list disarms
     everything), every handle was handed out already, and every ring a
     timer will switch on has a colour for each of its keys.
     */
    ghost predicate Valid()
      reads this
    {
      && (forall h :: h in pending ==> h in timeouts && Coloured(pending[h].action))
      && (forall i :: 0 <= i < |timeouts| ==> timeouts[i] < nextHandle)
    }

    /** The first render: an empty 0 x 0 grid, no timers, nothing lit. */
    constructor ()
      ensures Valid()
      ensures rows == 0 && cols == 0 && !prefersReduced
      ensures timeouts == [] && flashes == map[] && pending == map[]
    {
      rows, cols := 0, 0;
      prefersReduced := false;
      timeouts, flashes, pending := [], map[], map[];
      nextHandle := 0;
    }

    /** `updateGrid` for a viewport of `innerWidth` x `innerHeight` pixels. */
    method UpdateGrid(innerWidth: nat, innerHeight: nat)
      requires Valid()
      modifies this
      ensures Valid()
      ensures cols == GridDimension(innerWidth) && rows == GridDimension(innerHeight)
      ensures 1 <= rows && 1 <= cols
      ensures prefersReduced == old(prefersReduced) && timeouts == old(timeouts)
      ensures flashes == old(flashes) && pending == old(pending) && nextHandle == old(nextHandle)
    {
      cols := GridDimension(innerWidth);
      rows := GridDimension(innerHeight);
    }

    /** The matchMedia listener: record whether reduced motion is preferred. */
    method UpdateMotionPreference(matches: bool)
      requires Valid()
      modifies this
      ensures Valid()
      ensures prefersReduced == matches
      ensures rows == old(rows) && cols == old(cols) && timeouts == old(timeouts)
      ensures flashes == old(flashes) && pending == old(pending) && nextHandle == old(nextHandle)
    {
      prefersReduced := matches;
    }

    /** `schedule(fn, delay)`: arm a timer and push its handle onto the list. */
    method Schedule(action: Action, delay: nat)
      requires Valid()
      requires Coloured(action)
      modifies this
      ensures Valid()
      ensures old(nextHandle) !in old(pending)
      ensures timeouts == old(timeouts) + [old(nextHandle)]
      ensures pending == old(pending)[old(nextHandle) := Timer(delay, action)]
      ensures nextHandle == old(nextHandle) + 1
      ensures rows == old(rows) && cols == old(cols) && prefersReduced == old(prefersReduced)
      ensures flashes == old(flashes)
    {
      var id := nextHandle;
      assert id !in timeouts by {
        assert forall i :: 0 <= i < |timeouts| ==> timeouts[i] != id;
      }
      pending := pending[id := Timer(delay, action)];
      nextHandle := nextHandle + 1;
      timeouts := timeouts + [id];
    }

    /**
     `clearTimers()`: cancel every listed timeout and empty the list. Nothing
     is armed afterwards; on an empty list nothing changes. The unmount
     cleanup runs the same two statements.
     */
    method ClearTimers()
      requires Valid()
      modifies this
      ensures Valid()
      ensures timeouts == [] && pending == map[]
      ensures old(timeouts) == [] ==> pending == old(pending)
      ensures nextHandle == old(nextHandle)
      ensures rows == old(rows) && cols == old(cols) && prefersReduced == old(prefersReduced)
      ensures flashes == old(flashes)
    {
      var ids := timeouts;
      for i := 0 to |ids|
        invariant pending.Keys == old(pending).Keys - (set j | 0 <= j < i :: ids[j])
        invariant forall h :: h in pending ==> pending[h] == old(pending)[h]
        invariant timeouts == ids && nextHandle == old(nextHandle) && flashes == old(flashes)
        invariant rows == old(rows) && cols == old(cols) && prefersReduced == old(prefersReduced)
      {
        pending := pending - {ids[i]};
      }
      assert old(pending).Keys <= (set j | 0 <= j < |ids| :: ids[j]);
      assert ids == [] ==> old(pending) == map[];
      timeouts := [];
    }

    /**
     `triggerRing(keys, delay, colorMap)`: arm a timer that will switch the
     ring's keys on after `delay` milliseconds.
     */
    method TriggerRing(keys: seq<string>, delay: nat, colorMap: map<string, string>)
      requires Valid()
      requires forall k :: k in keys ==> k in colorMap
      modifies this
      ensures Valid()
      ensures timeouts == old(timeouts) + [old(nextHandle)]
      ensures old(nextHandle) !in old(pending)
      ensures pending == old(pending)[old(nextHandle) := Timer(delay, FlashOn(keys, colorMap))]
      ensures nextHandle == old(nextHandle) + 1
      ensures rows == old(rows) && cols == old(cols) && prefersReduced == old(prefersReduced)
      ensures flashes == old(flashes)
    {
      Schedule(FlashOn(keys, colorMap), delay);
    }

    /**
     The browser fires the armed timer `h`. Switching a ring on lights its
     keys and arms the timer that switches them off FLASH_DURATION later;
     switching it off removes them. The fired handle stays in the list.
     */
    method Fire(h: nat)
      requires Valid()
      requires h in pending
      modifies this
      ensures Valid()
      ensures old(pending[h].action).FlashOn? ==>
        var a := old(pending[h].action);
        && SwitchedOn(old(flashes), flashes, a.keys, a.colours)
        && timeouts == old(timeouts) + [old(nextHandle)]
        && pending == (old(pending) - {h})[old(nextHandle) := Timer(FLASH_DURATION, FlashOff(a.keys))]
        && nextHandle == old(nextHandle) + 1
      ensures old(pending[h].action).FlashOff? ==>
        && SwitchedOff(old(flashes), flashes, old(pending[h].action).keys)
        && timeouts == old(timeouts)
        && pending == old(pending) - {h}
        && nextHandle == old(nextHandle)
      ensures rows == old(rows) && cols == old(cols) && prefersReduced == old(prefersReduced)
    {
      var action := pending[h].action;
      pending := pending - {h};
      match action
      case FlashOn(keys, colours) =>
        flashes := LightRing(flashes, keys, colours);
        Schedule(FlashOff(keys), FLASH_DURATION);
      case FlashOff(keys) =>
        flashes := DimRing(flashes, keys);
    }

    /**
     `rings.forEach((keys, ring) => triggerRing(keys, delay, colorMap))` on
     an empty handle list: the handles handed out next, one per ring, arm
     the ring timers in order.
     */
    method ArmRings(rings: RingMap, colorMap: map<string, string>)
      requires Valid()
      requires timeouts == [] && pending == map[]
      requires rings.Valid()
      requires forall k, s :: k in rings.buckets && s in rings.buckets[k] ==> s in colorMap
      modifies this
      ensures Valid()
      ensures timeouts == Handles(old(nextHandle), |rings.order|)
      ensures pending == Armed(old(nextHandle), RingTimers(rings, colorMap))
      ensures nextHandle == old(nextHandle) + |rings.order|
      ensures rows == old(rows) && cols == old(cols) && prefersReduced == old(prefersReduced)
      ensures flashes == old(flashes)
    {
      ghost var ts := RingTimers(rings, colorMap);
      ghost var base := nextHandle;
      for i := 0 to |rings.order|
        invariant Valid()
        invariant rows == old(rows) && cols == old(cols) && prefersReduced == old(prefersReduced)
        invariant flashes == old(flashes)
        invariant nextHandle == base + i
        invariant timeouts == Handles(base, i)
        invariant pending == Armed(base, ts[..i])
      {
        var ring := rings.order[i];
        TriggerRing(rings.buckets[ring], RingDelay(ring), colorMap);
        ArmedStep(base, ts, i);
      }
      assert ts[..|rings.order|] == ts;
    }

    /** Whether a click at cell (`row`, `col`) is ignored by the click handler. */
    predicate Misses(onContentBlock: bool, row: int, col: int)
      reads this
    {
      onContentBlock || cols == 0 || rows == 0 || col < 0 || row < 0 || col >= cols || row >= rows
    }

    /**
     `handleClick` on cell (`row`, `col`). A click on a content block, on an
     empty grid or outside the grid changes nothing. Any other click cancels
     every timer, clears the flashes, and arms one timer per ring, in the
     order the rings were first reached, each switching its ring on at that
     ring's delay with the click's colour map. `alpha` gives the alpha text
     for a cell at offset (dr, dc) from the clicked one.
     */
    method HandleClick(onContentBlock: bool, row: int, col: int, alpha: (int, int) -> string)
      requires Valid()
      modifies this
      ensures Valid()
      ensures old(Misses(onContentBlock, row, col)) ==> unchanged(this)
      ensures !old(Misses(onContentBlock, row, col)) ==>
        var ts := ClickTimers(rows, cols, Cell(row, col), prefersReduced, alpha);
        && flashes == map[]
        && timeouts == Handles(old(nextHandle), |ts|)
        && pending == Armed(old(nextHandle), ts)
        && nextHandle == old(nextHandle) + |ts|
      ensures !old(Misses(onContentBlock, row, col)) ==> forall h :: h in old(pending) ==> h !in pending
      ensures !old(Misses(onContentBlock, row, col)) && prefersReduced ==>
        pending == map[old(nextHandle) := Timer(0, FlashOn([Key(Cell(row, col))], ClickColours(rows, cols, Cell(row, col), alpha)))]
      ensures rows == old(rows) && cols == old(cols) && prefersReduced == old(prefersReduced)
    {
      if onContentBlock {
        return;
      }
      if cols == 0 || rows == 0 {
        return;
      }
      if col < 0 || row < 0 || col >= cols || row >= rows {
        return;
      }
      ClearTimers();
      flashes := map[];
      var rings, colorMap := BuildRings(rows, cols, Cell(row, col), prefersReduced, alpha);
      ghost var base := nextHandle;
      ArmRings(rings, colorMap);
      ArmedHandles(base, RingTimers(rings, colorMap));
      if prefersReduced {
        ReducedClickArmsOne(base, rows, cols, Cell(row, col), alpha);
      }
    }
  }
}
