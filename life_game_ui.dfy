/**
  The windowed front-end's engine: a history queue kept in a fixed array of
  slots overwritten in a circle, and the grid object that advances one
  generation per call, recording the grid it starts from.
 */
module LifeGameUi {
  import opened LifeRules
  import opened Periphery
  import opened Window

  /** `periphery_expand`'s default maxima, used when the grid is set up. */
  const INIT_MAX_ROW: nat := 100
  const INIT_MAX_COL: nat := 100
  /** The maxima `update_grid` passes for the growth after each generation. */
  const MAX_ROW: nat := 50
  const MAX_COL: nat := 50
  /** `FifoQueue(20)`. */
  const HISTORY_SIZE: nat := 20

  /** A slot of the circular queue: the 0 it starts with, or a stored item. */
  datatype Slot<T> = Zero | Entry(item: T)

  /** The slots holding the items of s, in order. */
  function Entries<T>(s: seq<T>): (e: seq<Slot<T>>)
    ensures |e| == |s| && forall k :: 0 <= k < |s| ==> e[k] == Entry(s[k])
  {
    seq(|s|, k requires 0 <= k < |s| => Entry(s[k]))
  }

  /** An item's slot is among the slots of s exactly when the item is in s. */
  lemma InEntries<T>(s: seq<T>, x: T)
    ensures Entry(x) in Entries(s) <==> x in s
  {
    if x in s {
      var k :| 0 <= k < |s| && s[k] == x;
      assert Entries(s)[k] == Entry(x);
    }
  }

  /**
    The layout of the circular queue after the items `added`: while fewer
    than `size` have been added they fill the slots from the front, the
    rest still placeholders, and `head` is the next free slot; after that,
    reading from `head` round to the slot before it gives the last `size`
    items, oldest first.
   */
  ghost predicate Circular<T>(slots: seq<Slot<T>>, head: nat, added: seq<T>, size: nat) {
    |slots| == size &&
    if |added| < size then
      head == |added| && slots[..head] == Entries(added) &&
      forall i :: head <= i < size ==> slots[i] == Zero
    else
      (head < size || head == size == 0) &&
      slots[head..] + slots[..head] == Entries(Last(added, size))
  }

  /** Dropping the oldest item and adding one at the end, on the slots. */
  lemma EntriesShift<T>(s: seq<T>, x: T)
    requires |s| > 0
    ensures Entries(s[1..] + [x]) == Entries(s)[1..] + [Entry(x)]
  {
    var u, v := Entries(s[1..] + [x]), Entries(s)[1..] + [Entry(x)];
    forall k | 0 <= k < |u|
      ensures u[k] == v[k]
    {
      if k < |s| - 1 {
        assert u[k] == Entry(s[k + 1]) == v[k];
      }
    }
  }

  /**
    Writing the item into slot `head` and moving `head` on by one, round to
    0 after the last slot, keeps the layout with the item added.
   */
  lemma CircularAdd<T>(slots: seq<Slot<T>>, head: nat, added: seq<T>, size: nat, item: T)
    requires Circular(slots, head, added, size) && size > 0
    ensures head < size
    ensures Circular(slots[head := Entry(item)], (head + 1) % size, added + [item], size)
  {
    assert (head + 1) % size == if head + 1 < size then head + 1 else 0;
    if |added| < size {
      FillingAdd(slots, head, added, size, item);
    } else {
      FullAdd(slots, head, added, size, item);
    }
  }

  /** `CircularAdd` while the queue is filling. */
  lemma FillingAdd<T>(slots: seq<Slot<T>>, head: nat, added: seq<T>, size: nat, item: T)
    requires Circular(slots, head, added, size) && |added| < size
    ensures head < size
    ensures Circular(slots[head := Entry(item)], if head + 1 < size then head + 1 else 0, added + [item], size)
  {
    var s := slots[head := Entry(item)];
    var a := added + [item];
    forall k | 0 <= k <= head
      ensures s[..head + 1][k] == Entries(a)[k]
    {
      if k < head {
        assert s[k] == slots[..head][k];
      }
    }
    assert s[..head + 1] == Entries(a);
    if |a| == size {
      assert s == s[..head + 1];
      assert Last(a, size) == a;
    }
  }

  /** `CircularAdd` once the queue is full: the oldest item's slot is overwritten. */
  lemma FullAdd<T>(slots: seq<Slot<T>>, head: nat, added: seq<T>, size: nat, item: T)
    requires Circular(slots, head, added, size) && size > 0 && |added| >= size
    ensures head < size
    ensures Circular(slots[head := Entry(item)], if head + 1 < size then head + 1 else 0, added + [item], size)
  {
    var s := slots[head := Entry(item)];
    var a := added + [item];
    LastAppend(added, item, size);
    EntriesShift(Last(added, size), item);
    var w := Entries(Last(added, size));
    assert w == slots[head..] + slots[..head];
    assert w[1..] == slots[head + 1..] + slots[..head];
    if head + 1 < size {
      assert s[head + 1..] == slots[head + 1..];
      assert s[..head + 1] == slots[..head] + [Entry(item)];
    } else {
      assert s == slots[..head] + [Entry(item)];
    }
  }

  /**
    In either layout an item's slot is present exactly when the item is one
    of the last `size` added: the placeholders never match an item.
   */
  lemma CircularHolds<T>(slots: seq<Slot<T>>, head: nat, added: seq<T>, size: nat, item: T)
    requires Circular(slots, head, added, size)
    ensures Entry(item) in slots <==> item in Last(added, size)
  {
    InEntries(Last(added, size), item);
    if |added| < size {
      assert slots == slots[..head] + slots[head..];
      assert Entry(item) !in slots[head..];
    } else {
      assert slots == slots[..head] + slots[head..];
    }
  }

  /**
    The fixed-length first-in-first-out queue: `size` slots written in turn
    from `head`, each new item overwriting the oldest. `added` is every
    item ever added, oldest first.
   */
  class FifoQueue<T(==)> {
    const size: nat
    const slots: array<Slot<T>>
    var head: nat
    ghost var added: seq<T>

    ghost predicate Valid()
      reads this, slots
    {
      Circular(slots[..], head, added, size)
    }

    /** The items the queue answers for: the last `size` added. */
    ghost function Window(): seq<T>
      reads this
    {
      Last(added, size)
    }

    /** `FifoQueue(size)`: `size` slots holding the placeholder 0, `head` at 0. */
    constructor (size: nat)
      ensures Valid() && this.size == size && fresh(slots)
      ensures slots[..] == seq(size, _ => Zero) && head == 0 && added == []
    {
      this.size := size;
      slots := new Slot<T>[size](_ => Zero);
      head := 0;
      added := [];
    }

    /**
      `add`: the item overwrites slot `head`, which moves on by one modulo
      `size`; a queue of no slots fails here, so `size` must be positive.
     */
    method Add(item: T)
      requires Valid() && size > 0
      modifies this, slots
      ensures Valid() && added == old(added) + [item]
      ensures old(head) < size && head == (old(head) + 1) % size
      ensures slots[..] == old(slots[..])[old(head) := Entry(item)]
    {
      ghost var before := slots[..];
      CircularAdd(before, head, added, size, item);
      slots[head] := Entry(item);
      assert slots[..] == before[head := Entry(item)];
      head := (head + 1) % size;
      added := added + [item];
    }

    /** `item in q`: the item is one of the last `size` items added. */
    function Contains(item: T): (r: bool)
      reads this, slots
      requires Valid()
      ensures r <==> item in Window()
    {
      CircularHolds(slots[..], head, added, size, item);
      Entry(item) in slots[..]
    }
  }

  /** The windowed engine: the current grid, the grid being computed, and the history. */
  class LifeGrid {
    var grid: Grid
    var gridNew: Grid
    var history: FifoQueue<Grid>

    ghost predicate Valid()
      reads this, history, history.slots
    {
      Rect(grid) && Binary(grid) && SameShape(gridNew, grid) &&
      history.Valid() && history.size == HISTORY_SIZE
    }

    /**
      `LifeGrid(rowCnt, colCnt)` with the random population given as `init`:
      the grid is grown once with the default maxima, the grid being
      computed is all -1, the history is twenty placeholder slots.
     */
    constructor (init: Grid)
      requires Rect(init) && Binary(init)
      ensures Valid() && fresh(history) && fresh(history.slots)
      ensures grid == Expanded(init, INIT_MAX_ROW, INIT_MAX_COL)
      ensures gridNew == Placeholder(|grid|, Width(grid))
      ensures history.added == [] && history.head == 0
    {
      var g := PeripheryExpand(init, INIT_MAX_ROW, INIT_MAX_COL);
      ExpandedKeepsCells(init, INIT_MAX_ROW, INIT_MAX_COL);
      grid := g;
      gridNew := Placeholder(|g|, |g[0]|);
      history := new FifoQueue(HISTORY_SIZE);
    }

    /** `updateCell(r, c)`: the rule applied to the neighbour sum read from `grid`, written to `gridNew[r][c]`. */
    method UpdateCell(r: nat, c: nat)
      requires Valid() && r < |grid| && c < Width(grid)
      modifies this
      ensures Valid() && grid == old(grid) && history == old(history)
      ensures gridNew == old(gridNew)[r := old(gridNew)[r][c := NextCell(grid, r, c)]]
    {
      RuleGivesNextCell(grid, r, c);
      var total := NeighbourSum(grid, r, c);
      var next := Rule(total);
      gridNew := gridNew[r := gridNew[r][c := next.value]];
    }

    /** The cell loop of `update_grid`: every cell of `gridNew` rewritten from the unchanged `grid`. */
    method UpdateCells()
      requires Valid()
      modifies this
      ensures Valid() && grid == old(grid) && history == old(history)
      ensures gridNew == NextGeneration(grid)
    {
      var r := 0;
      while r < |grid|
        invariant 0 <= r <= |grid|
        invariant Valid() && grid == old(grid) && history == old(history)
        invariant forall k :: 0 <= k < r ==> gridNew[k] == NextRow(grid, k)
      {
        var c := 0;
        while c < |grid[r]|
          invariant r < |grid| && 0 <= c <= |grid[r]|
          invariant Valid() && grid == old(grid) && history == old(history)
          invariant forall k :: 0 <= k < r ==> gridNew[k] == NextRow(grid, k)
          invariant forall j :: 0 <= j < c ==> gridNew[r][j] == NextCell(grid, r, j)
        {
          UpdateCell(r, c);
          c := c + 1;
        }
        assert gridNew[r] == NextRow(grid, r);
        r := r + 1;
      }
      forall k | 0 <= k < |grid|
        ensures gridNew[k] == NextGeneration(grid)[k]
      {
        NextRowsAt(grid, |grid|, k);
      }
    }

    /**
      `update_grid()`: record the grid, rewrite every cell of `gridNew` from
      it, grow the result up to 50 by 50 and make it the grid, which is
      returned. The grid the call started from is then in the history, so
      a generation that changes nothing is reported balanced at once.
     */
    method UpdateGrid() returns (g: Grid)
      requires Valid()
      modifies this, history, history.slots
      ensures Valid() && history == old(history)
      ensures history.added == old(history.added) + [old(grid)]
      ensures grid == Step(old(grid), MAX_ROW, MAX_COL) && gridNew == grid && g == grid
      ensures old(grid) in history.Window()
      ensures grid == old(grid) ==> IsGridBalanced()
    {
      history.Add(grid);
      LastHasNewest(old(history.added), grid, HISTORY_SIZE);
      Generation();
      g := grid;
    }

    /**
      The computing part of `update_grid`: every cell of `gridNew` rewritten
      from `grid`, the result grown up to 50 by 50 and made the grid.
     */
    method Generation()
      requires Valid()
      modifies this
      ensures Valid() && history == old(history)
      ensures grid == Step(old(grid), MAX_ROW, MAX_COL) && gridNew == grid
    {
      UpdateCells();
      gridNew := PeripheryExpand(gridNew, MAX_ROW, MAX_COL);
      assert gridNew == Step(grid, MAX_ROW, MAX_COL);
      grid := gridNew;
    }

    /** `is_grid_live`: some cell is alive. */
    function IsGridLive(): (live: bool)
      reads this, history, history.slots
      requires Valid()
      ensures live <==> Total(grid) > 0
      ensures live <==> exists r, c :: 0 <= r < |grid| && 0 <= c < |grid[r]| && grid[r][c] == 1
    {
      TotalOfBinary(grid);
      Total(grid) > 0
    }

    /** `is_grid_balanced`: the grid is one of the last twenty recorded. */
    function IsGridBalanced(): (balanced: bool)
      reads this, history, history.slots
      requires Valid()
      ensures balanced <==> grid in history.Window()
    {
      history.Contains(grid)
    }

    /** `get_grid`: the current grid, always a 0/1 rectangle. */
    function GetGrid(): (g: Grid)
      reads this, history, history.slots
      requires Valid()
      ensures g == grid && Rect(g) && Binary(g)
    {
      grid
    }
  }
}
