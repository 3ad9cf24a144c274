/**
  The console front-end's engine: a history queue that keeps its items in a
  growing list and drops the consumed prefix now and then, and the grid
  object that runs up to a given number of generations, stopping when the
  grid dies out or comes back to a recent state.
 */
module LifeGame {
  import opened LifeRules
  import opened Periphery
  import opened Window

  /** Growth maxima of `peripheryExpand`'s defaults, used by every call in this front-end. */
  const MAX_ROW: nat := 100
  const MAX_COL: nat := 100
  /** `FifoQueue(20)`: twenty generations of history, compaction threshold left at its default 10. */
  const HISTORY_SIZE: nat := 20
  const MAX_HEAD: nat := 10

  /**
    A first-in-first-out queue of bounded length: `queue[head..]` holds the
    live items, and the consumed prefix `queue[..head]` is cut off once
    `head` passes `maxHead`. `added` is every item ever added, oldest first.
   */
  class FifoQueue<T(==)> {
    var queue: seq<T>
    var head: nat
    const size: nat
    const maxHead: nat
    ghost var added: seq<T>

    ghost predicate Valid()
      reads this
    {
      head <= |queue| && head <= maxHead &&
      queue[head..] == Last(added, size) &&
      (head > 0 ==> |queue| - head == size)
    }

    /** The items the queue answers for: the last `size` added. */
    ghost function Window(): seq<T>
      reads this
    {
      Last(added, size)
    }

    constructor (size: nat, maxHead: nat)
      ensures Valid() && this.size == size && this.maxHead == maxHead
      ensures queue == [] && head == 0 && added == []
    {
      queue, head := [], 0;
      this.size, this.maxHead := size, maxHead;
      added := [];
    }

    /**
      `add`: the item goes at the end; once the list is longer than `size`
      the head moves past the oldest live item, and `clean` may compact.
     */
    method Add(item: T)
      requires Valid()
      modifies this
      ensures Valid() && added == old(added) + [item]
      ensures |queue| - head == if |added| < size then |added| else size
      ensures var q := old(queue) + [item];
        if |q| <= size then queue == q && head == old(head)
        else if old(head) + 1 > maxHead then queue == q[old(head) + 1..] && head == 0
        else queue == q && head == old(head) + 1
    {
      LiveAfterAdd(queue, head, added, size, item);
      queue := queue + [item];
      added := added + [item];
      if |queue| > size {
        head := head + 1;
        Clean();
      }
    }

    /** `clean`: once the head has passed `maxHead`, the consumed prefix is cut off. */
    method Clean()
      requires head <= |queue|
      modifies this
      ensures head <= |queue| && added == old(added) && queue[head..] == old(queue[head..])
      ensures if old(head) > maxHead then queue == old(queue[head..]) && head == 0
              else queue == old(queue) && head == old(head)
    {
      if head > maxHead {
        queue := queue[head..];
        head := 0;
      }
    }

    /** `item in q`: the item is one of the last `size` items added. */
    function Contains(item: T): (r: bool)
      reads this
      requires Valid()
      ensures r <==> item in Window()
    {
      item in queue[head..]
    }
  }

  /**
    The live part of the list after appending one item, past the oldest live
    item once the list outgrows `size`, is the window of the queue with that
    item added.
   */
  lemma LiveAfterAdd<T>(queue: seq<T>, head: nat, added: seq<T>, size: nat, item: T)
    requires head <= |queue| && queue[head..] == Last(added, size)
    requires head > 0 ==> |queue| - head == size
    ensures var q := queue + [item];
      (if |q| > size then q[head + 1..] else q[head..]) == Last(added + [item], size)
  {
    var q := queue + [item];
    assert q[head..] == queue[head..] + [item];
    if size > 0 {
      LastAppend(added, item, size);
    }
  }

  /**
    The grid after k generations: g for k = 0, else `Step` of generation
    k - 1 (`RunStep` states exactly that). The definition is spread over
    `Run`, `Next`, `Grown` and `Transition` so that the verifier unfolds one
    generation at a time. The `|g|` in the `decreases` clauses keeps a literal
    k from unfolding a whole generation at once.
   */
  function Run(g: Grid, k: nat): (s: Grid)
    requires Rect(g) && Binary(g)
    ensures Rect(s) && Binary(s)
    decreases |g| + k, 3
  {
    if k == 0 then g else Next(g, k)
  }

  /** Generation k, for k >= 1. */
  function Next(g: Grid, k: nat): (s: Grid)
    requires Rect(g) && Binary(g) && k > 0
    ensures Rect(s) && Binary(s)
    decreases |g| + k, 2
  {
    Grown(g, k)
  }

  /** Generation k, for k >= 1: the transition out of generation k - 1, grown. */
  function Grown(g: Grid, k: nat): (s: Grid)
    requires Rect(g) && Binary(g) && k > 0
    ensures Rect(s) && Binary(s)
    decreases |g| + k, 1
  {
    ExpandedKeepsCells(Transition(g, k), MAX_ROW, MAX_COL);
    Expanded(Transition(g, k), MAX_ROW, MAX_COL)
  }

  /** The transition out of generation k - 1, before growth. */
  function Transition(g: Grid, k: nat): (t: Grid)
    requires Rect(g) && Binary(g) && k > 0
    ensures Rect(t) && Binary(t)
    decreases |g| + k, 0
  {
    NextGeneration(Run(g, k - 1))
  }

  /** Each generation is one `Step` from the one before. */
  lemma RunStep(g: Grid, k: nat)
    requires Rect(g) && Binary(g)
    ensures Run(g, k + 1) == Step(Run(g, k), MAX_ROW, MAX_COL)
  {
    assert Run(g, k + 1) == Next(g, k + 1) == Grown(g, k + 1);
    assert Transition(g, k + 1) == NextGeneration(Run(g, k));
  }

  /**
    The grids recorded by k generations started from grid g with `_gridNew`
    equal to `first`: each generation records `_gridNew` before computing,
    which is `first` the first time and the grid of the previous generation
    afterwards.
   */
  function Recorded(first: Grid, g: Grid, k: nat): (s: seq<Grid>)
    requires Rect(g) && Binary(g)
    ensures |s| == k
  {
    if k == 0 then [] else Recorded(first, g, k - 1) + [if k == 1 then first else Run(g, k - 1)]
  }

  /**
    What the history receives: record 0 is `first`, record j for 0 < j < k
    is generation j, so the starting grid is never recorded as such.
   */
  lemma {:induction false} RecordedAt(first: Grid, g: Grid, k: nat)
    requires Rect(g) && Binary(g)
    ensures k > 0 ==> Recorded(first, g, k)[0] == first
    ensures forall j :: 0 < j < k ==> Recorded(first, g, k)[j] == Run(g, j)
  {
    if k > 0 {
      RecordedAt(first, g, k - 1);
    }
  }

  /** The test that lets the generation loop go on: something is alive and the grid is not in the window. */
  predicate GoesOn(g: Grid, window: seq<Grid>) {
    Total(g) > 0 && g !in window
  }

  /**
    Generations never shrink the grid and never grow an axis past the larger
    of its start size and its maximum.
   */
  lemma {:induction false} RunBounds(g: Grid, k: nat)
    requires Rect(g) && Binary(g)
    ensures |g| <= |Run(g, k)| <= (if |g| < MAX_ROW then MAX_ROW else |g|)
    ensures Width(g) <= Width(Run(g, k)) <= (if Width(g) < MAX_COL then MAX_COL else Width(g))
  {
    if k > 0 {
      RunBounds(g, k - 1);
      RunStep(g, k - 1);
    }
  }

  /** An all-dead grid stays the same all-dead grid for any number of generations. */
  lemma {:induction false} DeadStaysDead(g: Grid, k: nat)
    requires Rect(g) && Binary(g) && AllDead(g)
    ensures Run(g, k) == g
  {
    if k > 0 {
      DeadStaysDead(g, k - 1);
      RunStep(g, k - 1);
      StepOfDead(g, MAX_ROW, MAX_COL);
    }
  }

  /**
    The loop's test passed after generation j of the run from g whose first
    record is `first` and whose history held a0 before: generation j is live
    and not among the last twenty recorded.
   */
  ghost predicate PassedAt(g: Grid, first: Grid, a0: seq<Grid>, j: nat)
    requires Rect(g) && Binary(g)
  {
    GoesOn(Run(g, j), Last(a0 + Recorded(first, g, j), HISTORY_SIZE))
  }

  /** The generation loop went on after each of the first k generations. */
  ghost predicate WentOn(g: Grid, first: Grid, a0: seq<Grid>, k: int)
    requires Rect(g) && Binary(g)
  {
    forall j: nat :: 0 < j <= k ==> PassedAt(g, first, a0, j)
  }

  /** One more generation left the test passing: the loop went on after k + 1 generations. */
  lemma WentOnNext(g: Grid, first: Grid, a0: seq<Grid>, k: nat, h: Grid, added: seq<Grid>)
    requires Rect(g) && Binary(g) && WentOn(g, first, a0, k)
    requires h == Run(g, k + 1) && added == a0 + Recorded(first, g, k + 1)
    requires GoesOn(h, Last(added, HISTORY_SIZE))
    ensures WentOn(g, first, a0, k + 1)
  {
    forall j: nat | 0 < j <= k + 1
      ensures PassedAt(g, first, a0, j)
    {
      if j == k + 1 {
        assert PassedAt(g, first, a0, j) == GoesOn(h, Last(added, HISTORY_SIZE));
      }
    }
  }

  /** Recording one more generation's grid extends the record by it. */
  lemma RecordedNext(first: Grid, g: Grid, a0: seq<Grid>, k: nat)
    requires Rect(g) && Binary(g)
    ensures a0 + Recorded(first, g, k) + [if k == 0 then first else Run(g, k)] ==
            a0 + Recorded(first, g, k + 1)
  {
  }

  /** The console engine: the current grid, the grid being computed, and the history. */
  class LifeGrid {
    var grid: Grid
    var gridNew: Grid
    var history: FifoQueue<Grid>

    ghost predicate Valid()
      reads this, history
    {
      Rect(grid) && Binary(grid) && SameShape(gridNew, grid) &&
      history.Valid() && history.size == HISTORY_SIZE && history.maxHead == MAX_HEAD
    }

    /**
      `LifeGrid(rowCnt, colCnt)` with the random population given as `init`:
      the grid is grown once, the grid being computed is all -1, the history
      is empty.
     */
    constructor (init: Grid)
      requires Rect(init) && Binary(init)
      ensures Valid() && fresh(history)
      ensures grid == Expanded(init, MAX_ROW, MAX_COL)
      ensures gridNew == Placeholder(|grid|, Width(grid))
      ensures history.added == []
    {
      var g := PeripheryExpand(init, MAX_ROW, MAX_COL);
      ExpandedKeepsCells(init, MAX_ROW, MAX_COL);
      grid := g;
      gridNew := Placeholder(|g|, |g[0]|);
      history := new FifoQueue(HISTORY_SIZE, MAX_HEAD);
    }

    /** `updateCell(r, c)`: the rule applied to the neighbour sum read from `grid`, written to `gridNew[r][c]`. */
    method UpdateCell(r: nat, c: nat)
      requires Valid() && r < |grid| && c < Width(grid)
      modifies this
      ensures Valid() && grid == old(grid) && history == old(history)
      ensures gridNew == old(gridNew)[r := old(gridNew)[r][c := NextCell(grid, r, c)]]
    {
      RuleGivesNextCell(grid, r, c);
      var total := NeighbourSum(grid, r, c);
      var next := Rule(total);
      gridNew := gridNew[r := gridNew[r][c := next.value]];
    }

    /** The cell loop of `updateGrid`: every cell of `gridNew` rewritten from the unchanged `grid`. */
    method UpdateCells()
      requires Valid()
      modifies this
      ensures Valid() && grid == old(grid) && history == old(history)
      ensures gridNew == NextGeneration(grid)
    {
      var r := 0;
      while r < |grid|
        invariant 0 <= r <= |grid|
        invariant Valid() && grid == old(grid) && history == old(history)
        invariant forall k :: 0 <= k < r ==> gridNew[k] == NextRow(grid, k)
      {
        var c := 0;
        while c < |grid[r]|
          invariant r < |grid| && 0 <= c <= |grid[r]|
          invariant Valid() && grid == old(grid) && history == old(history)
          invariant forall k :: 0 <= k < r ==> gridNew[k] == NextRow(grid, k)
          invariant forall j :: 0 <= j < c ==> gridNew[r][j] == NextCell(grid, r, j)
        {
          UpdateCell(r, c);
          c := c + 1;
        }
        assert gridNew[r] == NextRow(grid, r);
        r := r + 1;
      }
      forall k | 0 <= k < |grid|
        ensures gridNew[k] == NextGeneration(grid)[k]
      {
        NextRowsAt(grid, |grid|, k);
      }
    }

    /**
      The body of `updateGrid`'s generation loop: record `gridNew`, rewrite
      every cell from `grid`, grow the result and make it the grid. Started
      at generation p of a run from g0 whose first record is `first`, it
      leaves generation p + 1 with one more record.
     */
    method Generation(ghost g0: Grid, ghost first: Grid, ghost a0: seq<Grid>, ghost p: nat)
      requires Valid() && Rect(g0) && Binary(g0)
      requires grid == Run(g0, p) && gridNew == (if p == 0 then first else grid)
      requires history.added == a0 + Recorded(first, g0, p)
      modifies this, history
      ensures Valid() && history == old(history)
      ensures grid == Run(g0, p + 1) && gridNew == grid
      ensures history.added == a0 + Recorded(first, g0, p + 1)
    {
      history.Add(gridNew);
      RecordedNext(first, g0, a0, p);
      UpdateCells();
      gridNew := PeripheryExpand(gridNew, MAX_ROW, MAX_COL);
      assert gridNew == Step(grid, MAX_ROW, MAX_COL);
      RunStep(g0, p);
      grid := gridNew;
    }

    /**
      `updateGrid(iterCnt)`: at most `iterCnt` generations, each recording
      `gridNew` first, and stopping after the first generation whose grid is
      dead or in the history. Returns the number of generations run.
     */
    method UpdateGrid(iterCnt: int) returns (performed: nat)
      requires Valid()
      modifies this, history
      ensures Valid() && history == old(history)
      ensures performed == 0 || performed <= iterCnt
      ensures grid == Run(old(grid), performed)
      ensures gridNew == if performed == 0 then old(gridNew) else grid
      ensures history.added == old(history.added) + Recorded(old(gridNew), old(grid), performed)
      ensures performed < iterCnt ==> performed > 0 && !GoesOn(grid, history.Window())
      ensures WentOn(old(grid), old(gridNew), old(history.added), performed - 1)
    {
      performed := 0;
      while performed < iterCnt
        invariant Valid() && history == old(history)
        invariant performed == 0 || performed <= iterCnt
        invariant grid == Run(old(grid), performed)
        invariant gridNew == if performed == 0 then old(gridNew) else grid
        invariant history.added == old(history.added) + Recorded(old(gridNew), old(grid), performed)
        invariant WentOn(old(grid), old(gridNew), old(history.added), performed)
        invariant WentOn(old(grid), old(gridNew), old(history.added), performed - 1)
        decreases iterCnt - performed
      {
        Generation(old(grid), old(gridNew), old(history.added), performed);
        performed := performed + 1;
        if !IsGridLive() {
          break;
        } else if IsGridBalance() {
          break;
        }
        WentOnNext(old(grid), old(gridNew), old(history.added), performed - 1, grid, history.added);
      }
    }

    /** `isGridLive`: some cell is alive. */
    function IsGridLive(): (live: bool)
      reads this, history
      requires Valid()
      ensures live <==> Total(grid) > 0
      ensures live <==> exists r, c :: 0 <= r < |grid| && 0 <= c < |grid[r]| && grid[r][c] == 1
    {
      TotalOfBinary(grid);
      Total(grid) > 0
    }

    /** `isGridBalance`: the grid is one of the last twenty recorded. */
    function IsGridBalance(): (balanced: bool)
      reads this, history
      requires Valid()
      ensures balanced <==> grid in history.Window()
    {
      history.Contains(grid)
    }
  }
}
