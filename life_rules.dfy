/**
  The cell grid and the one-generation transition rule shared by both
  front-ends of the game: a grid is a sequence of rows of integer cells,
  1 for a live cell and 0 for a dead one.
 */
module LifeRules {

  datatype Option<T> = None | Some(value: T)

  type Grid = seq<seq<int>>

  /** Non-empty, every row non-empty and as long as the first. */
  predicate Rect(g: Grid) {
    |g| > 0 && |g[0]| > 0 && forall r :: 0 <= r < |g| ==> |g[r]| == |g[0]|
  }

  function Width(g: Grid): nat
    requires Rect(g)
  {
    |g[0]|
  }

  /** Every value is 0 or 1. */
  predicate Bits(s: seq<int>) {
    forall i :: 0 <= i < |s| ==> s[i] == 0 || s[i] == 1
  }

  /** Every cell is 0 or 1. */
  predicate Binary(g: Grid) {
    forall r :: 0 <= r < |g| ==> Bits(g[r])
  }

  /** True when every cell is 0. */
  predicate AllDead(g: Grid) {
    forall r, c :: 0 <= r < |g| && 0 <= c < |g[r]| ==> g[r][c] == 0
  }

  /** Python's `sum` over a list of integers; a list of 0/1 values sums to at most its length. */
  function Sum(s: seq<int>): (t: int)
    ensures Bits(s) ==> 0 <= t <= |s|
  {
    if s == [] then 0 else Sum(s[..|s| - 1]) + s[|s| - 1]
  }

  lemma {:induction false} SumConcat(a: seq<int>, b: seq<int>)
    ensures Sum(a + b) == Sum(a) + Sum(b)
    decreases |b|
  {
    if b == [] {
      assert a + b == a;
    } else {
      assert (a + b)[..|a + b| - 1] == a + b[..|b| - 1];
      SumConcat(a, b[..|b| - 1]);
    }
  }

  /** A sequence of 0/1 values sums to a positive number exactly when it holds a 1, and otherwise it is all 0. */
  lemma {:induction false} SumOfBits(s: seq<int>)
    requires Bits(s)
    ensures Sum(s) >= 0
    ensures Sum(s) > 0 <==> exists i :: 0 <= i < |s| && s[i] == 1
    ensures Sum(s) == 0 ==> forall i :: 0 <= i < |s| ==> s[i] == 0
  {
    if s != [] {
      var p := s[..|s| - 1];
      assert Bits(p);
      SumOfBits(p);
      assert forall i :: 0 <= i < |p| ==> p[i] == s[i];
      if Sum(s) == 0 {
        forall i | 0 <= i < |s|
          ensures s[i] == 0
        {
          if i < |p| {
            assert p[i] == 0;
          }
        }
      }
      if Sum(s) > 0 && s[|s| - 1] != 1 {
        var i :| 0 <= i < |p| && p[i] == 1;
        assert s[i] == 1;
      }
    }
  }

  /** `sum(map(sum, grid))`: the number of live cells of a 0/1 grid, never negative. */
  function Total(g: Grid): (t: int)
    ensures Binary(g) ==> t >= 0
  {
    if g == [] then 0 else Total(g[..|g| - 1]) + Sum(g[|g| - 1])
  }

  /** A 0/1 grid has a positive total exactly when some cell is 1, and a zero total exactly when it is all dead. */
  lemma {:induction false} TotalOfBinary(g: Grid)
    requires Binary(g)
    ensures Total(g) >= 0
    ensures Total(g) > 0 <==> exists r, c :: 0 <= r < |g| && 0 <= c < |g[r]| && g[r][c] == 1
    ensures Total(g) == 0 <==> AllDead(g)
  {
    if g != [] {
      var p := g[..|g| - 1];
      var last := g[|g| - 1];
      assert Binary(p);
      assert Bits(last);
      TotalOfBinary(p);
      SumOfBits(last);
      assert forall r :: 0 <= r < |p| ==> p[r] == g[r];
      if Total(g) > 0 {
        if Sum(last) > 0 {
          var c :| 0 <= c < |last| && last[c] == 1;
          assert g[|g| - 1][c] == 1;
        } else {
          var r, c :| 0 <= r < |p| && 0 <= c < |p[r]| && p[r][c] == 1;
          assert g[r][c] == 1;
        }
      }
      if Total(g) == 0 {
        forall r, c | 0 <= r < |g| && 0 <= c < |g[r]|
          ensures g[r][c] == 0
        {
          if r < |p| {
            assert p[r][c] == 0;
          }
        }
      }
      if AllDead(g) {
        assert AllDead(p);
        assert forall c :: 0 <= c < |last| ==> last[c] == 0;
      }
    }
  }

  /**
    The row that Python's `self._grid[x]` names for an offset x in
    {-1, 0, 1}: a negative index counts from the end.
   */
  function PyRow(g: Grid, x: int): (row: seq<int>)
    requires -|g| <= x < |g|
    ensures row in g
    ensures Rect(g) ==> |row| == Width(g)
  {
    if x < 0 then g[|g| + x] else g[x]
  }

  /**
    The contribution of the cell at offset (x, y) from (r, c) to the
    neighbour sum: its value when the row test on r + x and the column test
    on c + y, which is made against the length of row `PyRow(g, x)`, both
    pass, and nothing (0) otherwise.
   */
  function Contribution(g: Grid, r: int, c: int, x: int, y: int): (v: int)
    requires Rect(g) && 0 <= r < |g| && -1 <= x <= 1
    ensures v != 0 ==> 0 <= r + x < |g| && 0 <= c + y < Width(g) && v == g[r + x][c + y]
    ensures Binary(g) ==> v == 0 || v == 1
  {
    if -1 < r + x < |g| && -1 < c + y < |PyRow(g, x)| then g[r + x][c + y] else 0
  }

  /**
    On a rectangular grid the column test made against row `PyRow(g, x)` is a
    test against the grid's width, so a contribution is exactly the in-bounds
    neighbour's value.
   */
  lemma ColumnBoundIsWidth(g: Grid, r: int, c: int, x: int, y: int)
    requires Rect(g) && 0 <= r < |g| && -1 <= x <= 1
    requires 0 <= r + x < |g|
    ensures |PyRow(g, x)| == Width(g)
    ensures Contribution(g, r, c, x, y) ==
            if 0 <= c + y < Width(g) then g[r + x][c + y] else 0
  {
  }

  /** The offsets (x, y) of the cell itself and its eight neighbours, visited row by row. */
  const OFFSETS: seq<(int, int)> :=
    [(-1, -1), (-1, 0), (-1, 1), (0, -1), (0, 0), (0, 1), (1, -1), (1, 0), (1, 1)]

  /** The sum of the contributions of the first n offsets; on a 0/1 grid at most n. */
  function SumAround(g: Grid, r: int, c: int, n: nat): (v: int)
    requires Rect(g) && 0 <= r < |g| && n <= |OFFSETS|
    ensures Binary(g) ==> 0 <= v <= n
  {
    if n == 0 then 0
    else SumAround(g, r, c, n - 1) + Contribution(g, r, c, OFFSETS[n - 1].0, OFFSETS[n - 1].1)
  }

  /** `sum(nbr)`: the cell at (r, c) plus its in-bounds neighbours, so at most 9 on a 0/1 grid. */
  function NeighbourSum(g: Grid, r: int, c: int): (v: int)
    requires Rect(g) && 0 <= r < |g|
    ensures Binary(g) ==> 0 <= v <= 9
  {
    SumAround(g, r, c, |OFFSETS|)
  }

  /** The neighbour sum written out as its nine contributions. */
  lemma NeighbourSumTerms(g: Grid, r: int, c: int)
    requires Rect(g) && 0 <= r < |g|
    ensures NeighbourSum(g, r, c) ==
      Contribution(g, r, c, -1, -1) + Contribution(g, r, c, -1, 0) + Contribution(g, r, c, -1, 1) +
      Contribution(g, r, c, 0, -1) + Contribution(g, r, c, 0, 0) + Contribution(g, r, c, 0, 1) +
      Contribution(g, r, c, 1, -1) + Contribution(g, r, c, 1, 0) + Contribution(g, r, c, 1, 1)
  {
    assert SumAround(g, r, c, 1) == 0 + Contribution(g, r, c, -1, -1);
    assert SumAround(g, r, c, 2) == SumAround(g, r, c, 1) + Contribution(g, r, c, -1, 0);
    assert SumAround(g, r, c, 3) == SumAround(g, r, c, 2) + Contribution(g, r, c, -1, 1);
    assert SumAround(g, r, c, 4) == SumAround(g, r, c, 3) + Contribution(g, r, c, 0, -1);
    assert SumAround(g, r, c, 5) == SumAround(g, r, c, 4) + Contribution(g, r, c, 0, 0);
    assert SumAround(g, r, c, 6) == SumAround(g, r, c, 5) + Contribution(g, r, c, 0, 1);
    assert SumAround(g, r, c, 7) == SumAround(g, r, c, 6) + Contribution(g, r, c, 1, -1);
    assert SumAround(g, r, c, 8) == SumAround(g, r, c, 7) + Contribution(g, r, c, 1, 0);
    assert SumAround(g, r, c, 9) == SumAround(g, r, c, 8) + Contribution(g, r, c, 1, 1);
  }

  /** On a 0/1 grid the sum lies in 0..9 and counts the cell itself once. */
  lemma NeighbourSumRange(g: Grid, r: int, c: int)
    requires Rect(g) && Binary(g) && 0 <= r < |g| && 0 <= c < Width(g)
    ensures 0 <= NeighbourSum(g, r, c) <= 9
    ensures g[r][c] <= NeighbourSum(g, r, c) <= 8 + g[r][c]
    ensures Contribution(g, r, c, 0, 0) == g[r][c]
  {
    NeighbourSumTerms(g, r, c);
    assert Bits(g[r]);
    forall x, y | -1 <= x <= 1 && -1 <= y <= 1
      ensures 0 <= Contribution(g, r, c, x, y) <= 1
    {
      if 0 <= r + x < |g| {
        assert Bits(g[r + x]);
      }
    }
  }

  /** `RULE_DICT`: the next state for each possible neighbour sum. */
  const RULE_DICT: map<int, int> :=
    map[0 := 0, 1 := 0, 2 := 0, 3 := 1, 4 := 1, 5 := 0, 6 := 0, 7 := 0, 8 := 0, 9 := 0]

  /** `RULE_DICT.get(total)`: defined for totals 0..9, alive exactly for 3 and 4. */
  function Rule(total: int): (v: Option<int>)
    ensures v.Some? <==> 0 <= total <= 9
    ensures v == Some(1) <==> total == 3 || total == 4
    ensures v.Some? ==> v.value == 0 || v.value == 1
  {
    if total in RULE_DICT then Some(RULE_DICT[total]) else None
  }

  /**
    The next state of cell (r, c): alive exactly when the neighbour sum,
    which counts the cell itself, is 3 or 4. `updateCell` computes it
    through `RULE_DICT` (see `Rule`); the lookup is always defined because
    the sum of nine 0/1 values lies in 0..9.
   */
  function NextCell(g: Grid, r: int, c: int): (v: int)
    requires Rect(g) && Binary(g) && 0 <= r < |g| && 0 <= c < Width(g)
    ensures v == 0 || v == 1
  {
    if 3 <= NeighbourSum(g, r, c) <= 4 then 1 else 0
  }

  /** `RULE_DICT.get(sum(nbr))` is always defined and is the next state. */
  lemma RuleGivesNextCell(g: Grid, r: int, c: int)
    requires Rect(g) && Binary(g) && 0 <= r < |g| && 0 <= c < Width(g)
    ensures Rule(NeighbourSum(g, r, c)) == Some(NextCell(g, r, c))
  {
    NeighbourSumRange(g, r, c);
  }

  /** Live neighbours of (r, c): the neighbour sum without the cell itself. */
  function LiveNeighbours(g: Grid, r: int, c: int): int
    requires Rect(g) && 0 <= r < |g| && 0 <= c < Width(g)
  {
    NeighbourSum(g, r, c) - g[r][c]
  }

  /**
    The rule in the classic terms: a live cell survives with 2 or 3 live
    neighbours and dies otherwise; a dead cell is born with 3 live
    neighbours, and also with 4.
   */
  lemma ClassicRule(g: Grid, r: int, c: int)
    requires Rect(g) && Binary(g) && 0 <= r < |g| && 0 <= c < Width(g)
    ensures 0 <= LiveNeighbours(g, r, c) <= 8
    ensures g[r][c] == 1 ==> (NextCell(g, r, c) == 1 <==> 2 <= LiveNeighbours(g, r, c) <= 3)
    ensures g[r][c] == 0 ==> (NextCell(g, r, c) == 1 <==> 3 <= LiveNeighbours(g, r, c) <= 4)
  {
    NeighbourSumRange(g, r, c);
    assert Bits(g[r]);
  }

  /** Row r of the next generation. */
  function NextRow(g: Grid, r: int): (row: seq<int>)
    requires Rect(g) && Binary(g) && 0 <= r < |g|
    ensures |row| == Width(g) && Bits(row)
  {
    seq(Width(g), c requires 0 <= c < Width(g) => NextCell(g, r, c))
  }

  /** The first n rows of the next generation, top to bottom. */
  function NextRows(g: Grid, n: nat): (rows: Grid)
    requires Rect(g) && Binary(g) && n <= |g|
    ensures |rows| == n && forall r :: 0 <= r < n ==> |rows[r]| == Width(g) && Bits(rows[r])
  {
    if n == 0 then [] else NextRows(g, n - 1) + [NextRow(g, n - 1)]
  }

  /** The next generation: every cell rewritten from the same, unchanged grid. */
  function NextGeneration(g: Grid): (n: Grid)
    requires Rect(g) && Binary(g)
    ensures |n| == |g| && Rect(n) && Binary(n) && Width(n) == Width(g)
  {
    NextRows(g, |g|)
  }

  lemma {:induction false} NextRowsAt(g: Grid, n: nat, r: int)
    requires Rect(g) && Binary(g) && n <= |g| && 0 <= r < n
    ensures NextRows(g, n)[r] == NextRow(g, r)
  {
    if r < n - 1 {
      NextRowsAt(g, n - 1, r);
    }
  }

  /** Each cell of the next generation is the next state of the same cell. */
  lemma NextGenerationCells(g: Grid)
    requires Rect(g) && Binary(g)
    ensures var n := NextGeneration(g);
      forall r, c :: 0 <= r < |n| && 0 <= c < |n[r]| ==> n[r][c] == NextCell(g, r, c)
  {
    forall r | 0 <= r < |g|
      ensures NextGeneration(g)[r] == NextRow(g, r)
    {
      NextRowsAt(g, |g|, r);
    }
  }

  /** An all-dead grid has an all-dead next generation: every neighbour sum is 0. */
  lemma {:induction false} DeadGenerationIsDead(g: Grid)
    requires Rect(g) && Binary(g) && AllDead(g)
    ensures NextGeneration(g) == g
  {
    var n := NextGeneration(g);
    NextGenerationCells(g);
    forall r | 0 <= r < |g|
      ensures n[r] == g[r]
    {
      forall c | 0 <= c < Width(g)
        ensures n[r][c] == g[r][c]
      {
        NeighbourSumTerms(g, r, c);
      }
    }
  }

  /** A lone live cell in a 3 by 3 grid dies of isolation. */
  lemma LoneCellDies()
    ensures NextGeneration([[0, 0, 0], [0, 1, 0], [0, 0, 0]]) == [[0, 0, 0], [0, 0, 0], [0, 0, 0]]
  {
    var g := [[0, 0, 0], [0, 1, 0], [0, 0, 0]];
    assert Binary(g) by {
      assert Bits(g[0]) && Bits(g[1]) && Bits(g[2]);
    }
    var n := NextGeneration(g);
    NextGenerationCells(g);
    forall r | 0 <= r < 3
      ensures n[r] == [0, 0, 0]
    {
      forall c | 0 <= c < 3
        ensures n[r][c] == 0
      {
        LoneCellSum(r, c);
      }
    }
  }

  /** In that grid no cell has more than one live cell around it, itself included. */
  lemma LoneCellSum(r: int, c: int)
    requires 0 <= r < 3 && 0 <= c < 3
    ensures NeighbourSum([[0, 0, 0], [0, 1, 0], [0, 0, 0]], r, c) <= 1
  {
    var g := [[0, 0, 0], [0, 1, 0], [0, 0, 0]];
    NeighbourSumTerms(g, r, c);
  }

  /**
    The grid `_gridNew` starts as in both front-ends: every cell -1, so
    that, having a cell, it never equals a 0/1 grid.
   */
  function Placeholder(rows: nat, cols: nat): (p: Grid)
    ensures |p| == rows && forall r :: 0 <= r < rows ==> |p[r]| == cols
    ensures rows > 0 && cols > 0 ==> !Binary(p)
  {
    var p := seq(rows, _ => seq(cols, _ => -1));
    assert rows > 0 && cols > 0 ==> p[0][0] == -1 && !Bits(p[0]);
    p
  }

  /** Same number of rows, and each row as long as the other grid's. */
  predicate SameShape(a: Grid, b: Grid) {
    |a| == |b| && forall r :: 0 <= r < |a| ==> |a[r]| == |b[r]|
  }
}
