/**
  Border growth ("periphery expansion"): each edge of the grid that holds a
  live cell gets one more all-0 row or column on its side, as long as that
  axis is below its maximum. Growth never removes or changes a cell.
 */
module Periphery {
  import opened LifeRules

  /** Column c of the grid, top to bottom. */
  function Column(g: Grid, c: nat): (col: seq<int>)
    requires forall r :: 0 <= r < |g| ==> c < |g[r]|
    ensures |col| == |g| && forall r :: 0 <= r < |g| ==> col[r] == g[r][c]
  {
    seq(|g|, r requires 0 <= r < |g| => g[r][c])
  }

  /** The last cell of every row (`grid[r][-1]`), top to bottom. */
  function LastColumn(g: Grid): (col: seq<int>)
    requires forall r :: 0 <= r < |g| ==> |g[r]| > 0
    ensures |col| == |g| && forall r :: 0 <= r < |g| ==> col[r] == g[r][|g[r]| - 1]
  {
    seq(|g|, r requires 0 <= r < |g| => g[r][|g[r]| - 1])
  }

  /** The bottom row, `grid[-1]`. */
  function LastRow(g: Grid): seq<int>
    requires |g| > 0
  {
    g[|g| - 1]
  }

  /** Which sides grow: the four tests, made in the order top, bottom, left, right. */
  datatype Growth = Growth(top: bool, bottom: bool, left: bool, right: bool)

  function Count(b: bool): nat {
    if b then 1 else 0
  }

  /**
    The four growth decisions as they fall out on a rectangular grid: the
    bottom test sees the row count after a top row was added, the right test
    sees the width after a left column was added, and an added all-0 row or
    column never changes an edge sum.
   */
  function GrowthOf(g: Grid, maxRow: nat, maxCol: nat): (gr: Growth)
    requires Rect(g)
    ensures (gr.top ==> Sum(g[0]) > 0) && (gr.bottom ==> Sum(LastRow(g)) > 0)
    ensures (gr.left ==> Sum(Column(g, 0)) > 0) && (gr.right ==> Sum(LastColumn(g)) > 0)
    ensures |g| + Count(gr.top) + Count(gr.bottom) <= (if |g| < maxRow then maxRow else |g|)
    ensures Width(g) + Count(gr.left) + Count(gr.right) <= (if Width(g) < maxCol then maxCol else Width(g))
  {
    var top := Sum(g[0]) > 0 && |g| < maxRow;
    var bottom := Sum(LastRow(g)) > 0 && |g| + Count(top) < maxRow;
    var left := Sum(Column(g, 0)) > 0 && Width(g) < maxCol;
    var right := Sum(LastColumn(g)) > 0 && Width(g) + Count(left) < maxCol;
    Growth(top, bottom, left, right)
  }

  /** g framed by t rows of 0 above, b below, l columns of 0 on the left and rt on the right. */
  function Pad(g: Grid, t: nat, b: nat, l: nat, rt: nat): (p: Grid)
    requires Rect(g)
    ensures |p| == |g| + t + b
    ensures forall i :: 0 <= i < |p| ==> |p[i]| == Width(g) + l + rt
    ensures Rect(p) && Width(p) == Width(g) + l + rt
  {
    seq(|g| + t + b, i => seq(Width(g) + l + rt, j => PadCell(g, t, l, i, j)))
  }

  /** The cell at (i, j) of g framed with t rows above and l columns on the left. */
  function PadCell(g: Grid, t: nat, l: nat, i: int, j: int): int
    requires Rect(g)
  {
    if t <= i < t + |g| && l <= j < l + Width(g) then g[i - t][j - l] else 0
  }

  /** The reference definition of the grown grid: g framed by one 0 row or column on each side that grows. */
  function Expanded(g: Grid, maxRow: nat, maxCol: nat): (e: Grid)
    requires Rect(g)
    ensures Rect(e) && |g| <= |e| <= |g| + 2 && Width(g) <= Width(e) <= Width(g) + 2
  {
    var gr := GrowthOf(g, maxRow, maxCol);
    Pad(g, Count(gr.top), Count(gr.bottom), Count(gr.left), Count(gr.right))
  }

  /** Framing puts g at offset (t, l) and 0 everywhere else. */
  lemma PadCells(g: Grid, t: nat, b: nat, l: nat, rt: nat)
    requires Rect(g)
    ensures var p := Pad(g, t, b, l, rt);
      forall i, j :: 0 <= i < |p| && 0 <= j < |p[i]| ==>
        p[i][j] == if t <= i < t + |g| && l <= j < l + Width(g) then g[i - t][j - l] else 0
    ensures Binary(g) ==> Binary(Pad(g, t, b, l, rt))
  {
    var p := Pad(g, t, b, l, rt);
    if Binary(g) {
      forall i | 0 <= i < |p|
        ensures Bits(p[i])
      {
        if t <= i < t + |g| {
          assert Bits(g[i - t]);
        }
      }
    }
  }

  /**
    Growth keeps every cell: the grown grid is rectangular, every cell of it
    is the input's cell shifted down one row when the top grew and right one
    column when the left grew, or else an added 0; a 0/1 grid stays a 0/1 grid.
   */
  lemma ExpandedKeepsCells(g: Grid, maxRow: nat, maxCol: nat)
    requires Rect(g)
    ensures var e, gr := Expanded(g, maxRow, maxCol), GrowthOf(g, maxRow, maxCol);
      Rect(e) &&
      |e| == |g| + Count(gr.top) + Count(gr.bottom) &&
      Width(e) == Width(g) + Count(gr.left) + Count(gr.right)
    ensures var e, gr := Expanded(g, maxRow, maxCol), GrowthOf(g, maxRow, maxCol);
      var t, l := Count(gr.top), Count(gr.left);
      forall i, j :: 0 <= i < |e| && 0 <= j < |e[i]| ==>
        e[i][j] == if t <= i < t + |g| && l <= j < l + Width(g) then g[i - t][j - l] else 0
    ensures Binary(g) ==> Binary(Expanded(g, maxRow, maxCol))
  {
    var gr := GrowthOf(g, maxRow, maxCol);
    PadCells(g, Count(gr.top), Count(gr.bottom), Count(gr.left), Count(gr.right));
  }

  /**
    Each axis grows by at most 2, never shrinks, and never passes the larger
    of its old size and its maximum.
   */
  lemma ExpandedSize(g: Grid, maxRow: nat, maxCol: nat)
    requires Rect(g)
    ensures var e := Expanded(g, maxRow, maxCol);
      Rect(e) &&
      |g| <= |e| <= |g| + 2 && Width(g) <= Width(e) <= Width(g) + 2 &&
      |e| <= (if |g| < maxRow then maxRow else |g|) &&
      Width(e) <= (if Width(g) < maxCol then maxCol else Width(g))
  {
  }

  /**
    A side grows only when its edge holds a live cell and its axis is below
    the maximum.
   */
  lemma {:induction false} ExpandedBounds(g: Grid, maxRow: nat, maxCol: nat)
    requires Rect(g) && Binary(g)
    ensures var gr := GrowthOf(g, maxRow, maxCol);
      (gr.top ==> |g| < maxRow && exists c :: 0 <= c < Width(g) && g[0][c] == 1) &&
      (gr.bottom ==> |g| < maxRow && exists c :: 0 <= c < Width(g) && LastRow(g)[c] == 1) &&
      (gr.left ==> Width(g) < maxCol && exists r :: 0 <= r < |g| && g[r][0] == 1) &&
      (gr.right ==> Width(g) < maxCol && exists r :: 0 <= r < |g| && g[r][Width(g) - 1] == 1)
  {
    var gr := GrowthOf(g, maxRow, maxCol);
    assert Bits(g[0]) && Bits(LastRow(g));
    SumOfBits(g[0]);
    SumOfBits(LastRow(g));
    var first, last := Column(g, 0), LastColumn(g);
    assert Bits(first) by {
      forall r | 0 <= r < |g|
        ensures first[r] == 0 || first[r] == 1
      {
        assert Bits(g[r]);
      }
    }
    assert Bits(last) by {
      forall r | 0 <= r < |g|
        ensures last[r] == 0 || last[r] == 1
      {
        assert Bits(g[r]);
      }
    }
    SumOfBits(first);
    SumOfBits(last);
    if gr.left {
      var r :| 0 <= r < |g| && first[r] == 1;
      assert g[r][0] == 1;
    }
    if gr.right {
      var r :| 0 <= r < |g| && last[r] == 1;
      assert g[r][Width(g) - 1] == 1;
    }
  }

  /** An edge whose sum is 0 on a 0/1 grid is all dead. */
  lemma DeadEdges(g: Grid)
    requires Rect(g) && Binary(g)
    ensures Sum(g[0]) <= 0 ==> forall c :: 0 <= c < Width(g) ==> g[0][c] == 0
    ensures Sum(LastRow(g)) <= 0 ==> forall c :: 0 <= c < Width(g) ==> LastRow(g)[c] == 0
    ensures Sum(Column(g, 0)) <= 0 ==> forall r :: 0 <= r < |g| ==> g[r][0] == 0
    ensures Sum(LastColumn(g)) <= 0 ==> forall r :: 0 <= r < |g| ==> g[r][Width(g) - 1] == 0
  {
    assert Bits(g[0]) && Bits(LastRow(g));
    SumOfBits(g[0]);
    SumOfBits(LastRow(g));
    var first, last := Column(g, 0), LastColumn(g);
    assert Bits(first) by {
      forall r | 0 <= r < |g|
        ensures first[r] == 0 || first[r] == 1
      {
        assert Bits(g[r]);
      }
    }
    assert Bits(last) by {
      forall r | 0 <= r < |g|
        ensures last[r] == 0 || last[r] == 1
      {
        assert Bits(g[r]);
      }
    }
    SumOfBits(first);
    SumOfBits(last);
  }

  /**
    With room for two more rows and two more columns, growth leaves all four
    edges of a 0/1 grid dead: an edge that had a live cell got an all-0 row or
    column outside it, and one that had none was already dead.
   */
  lemma {:induction false} ExpandedBorderDead(g: Grid, maxRow: nat, maxCol: nat)
    requires Rect(g) && Binary(g)
    requires |g| + 2 <= maxRow && Width(g) + 2 <= maxCol
    ensures var e := Expanded(g, maxRow, maxCol);
      Rect(e) &&
      (forall j :: 0 <= j < Width(e) ==> e[0][j] == 0 && e[|e| - 1][j] == 0) &&
      (forall i :: 0 <= i < |e| ==> e[i][0] == 0 && e[i][Width(e) - 1] == 0)
  {
    var e, gr := Expanded(g, maxRow, maxCol), GrowthOf(g, maxRow, maxCol);
    var t, b, l, rt := Count(gr.top), Count(gr.bottom), Count(gr.left), Count(gr.right);
    ExpandedBounds(g, maxRow, maxCol);
    DeadEdges(g);
    ExpandedKeepsCells(g, maxRow, maxCol);
    forall j | 0 <= j < Width(e)
      ensures e[0][j] == 0 && e[|e| - 1][j] == 0
    {
      if l <= j < l + Width(g) {
        assert t == 0 ==> e[0][j] == g[0][j - l];
        assert b == 0 ==> e[|e| - 1][j] == g[|g| - 1][j - l];
      }
    }
    forall i | 0 <= i < |e|
      ensures e[i][0] == 0 && e[i][Width(e) - 1] == 0
    {
      if t <= i < t + |g| {
        assert l == 0 ==> e[i][0] == g[i - t][0];
        assert rt == 0 ==> e[i][Width(e) - 1] == g[i - t][Width(g) - 1];
      }
    }
  }

  /** An all-dead grid does not grow. */
  lemma ExpandedDead(g: Grid, maxRow: nat, maxCol: nat)
    requires Rect(g) && Binary(g) && AllDead(g)
    ensures Expanded(g, maxRow, maxCol) == g
  {
    var gr := GrowthOf(g, maxRow, maxCol);
    ExpandedBounds(g, maxRow, maxCol);
    assert !gr.top && !gr.bottom && !gr.left && !gr.right;
    PadNothing(g);
  }

  lemma PadNothing(g: Grid)
    requires Rect(g)
    ensures Pad(g, 0, 0, 0, 0) == g
  {
    var p := Pad(g, 0, 0, 0, 0);
    forall i | 0 <= i < |g|
      ensures p[i] == g[i]
    {
    }
  }

  function Zeros(n: nat): (z: seq<int>)
    ensures |z| == n && forall i :: 0 <= i < n ==> z[i] == 0
  {
    seq(n, _ => 0)
  }

  lemma {:induction false} SumZeros(n: nat)
    ensures Sum(Zeros(n)) == 0
  {
    if n > 0 {
      assert Zeros(n)[..n - 1] == Zeros(n - 1);
      SumZeros(n - 1);
    }
  }

  /** Zeros around a sequence do not change its sum. */
  lemma SumFramed(s: seq<int>, t: nat, b: nat)
    ensures Sum(Zeros(t) + s + Zeros(b)) == Sum(s)
  {
    SumConcat(Zeros(t) + s, Zeros(b));
    SumConcat(Zeros(t), s);
    SumZeros(t);
    SumZeros(b);
  }

  /** The first column of a grid with rows added above and below: the old column framed by zeros. */
  lemma PadFirstColumn(g: Grid, t: nat, b: nat)
    requires Rect(g)
    ensures Column(Pad(g, t, b, 0, 0), 0) == Zeros(t) + Column(g, 0) + Zeros(b)
  {
    var p := Pad(g, t, b, 0, 0);
    var u, v := Column(p, 0), Zeros(t) + Column(g, 0) + Zeros(b);
    forall i | 0 <= i < |u|
      ensures u[i] == v[i]
    {
      assert u[i] == PadCell(g, t, 0, i, 0);
    }
  }

  /** The last column of a grid with rows added above and below and columns on the left: the old last column framed by zeros. */
  lemma PadLastColumn(g: Grid, t: nat, b: nat, l: nat)
    requires Rect(g)
    ensures LastColumn(Pad(g, t, b, l, 0)) == Zeros(t) + LastColumn(g) + Zeros(b)
  {
    var p := Pad(g, t, b, l, 0);
    var u, v := LastColumn(p), Zeros(t) + LastColumn(g) + Zeros(b);
    forall i | 0 <= i < |u|
      ensures u[i] == v[i]
    {
      assert u[i] == PadCell(g, t, l, i, Width(g) + l - 1);
    }
  }

  /** The edge sums that the left and right tests see once earlier sides have grown. */
  lemma PaddedEdgeSums(g: Grid, t: nat, b: nat, l: nat)
    requires Rect(g)
    ensures Sum(Column(Pad(g, t, b, 0, 0), 0)) == Sum(Column(g, 0))
    ensures Sum(LastColumn(Pad(g, t, b, l, 0))) == Sum(LastColumn(g))
  {
    PadFirstColumn(g, t, b);
    PadLastColumn(g, t, b, l);
    SumFramed(Column(g, 0), t, b);
    SumFramed(LastColumn(g), t, b);
  }

  /** The top step: a row of 0 above when the top row sums to more than 0 and there are fewer than maxRow rows. */
  function AddTop(g: Grid, maxRow: nat): (h: Grid)
    requires Rect(g)
    ensures Rect(h) && Width(h) == Width(g)
  {
    if Sum(g[0]) > 0 && |g| < maxRow then [Zeros(|g[0]|)] + g else g
  }

  /** The bottom step: a row of 0 below when the bottom row sums to more than 0 and there are fewer than maxRow rows. */
  function AddBottom(g: Grid, maxRow: nat): (h: Grid)
    requires Rect(g)
    ensures Rect(h) && Width(h) == Width(g)
  {
    if Sum(LastRow(g)) > 0 && |g| < maxRow then g + [Zeros(|LastRow(g)|)] else g
  }

  /** The left step: when the first column sums to more than 0, a 0 in front of every row shorter than maxCol. */
  function AddLeft(g: Grid, maxCol: nat): (h: Grid)
    requires Rect(g)
    ensures Rect(h)
  {
    if Sum(Column(g, 0)) > 0 then PrependZero(g, maxCol) else g
  }

  /** The right step: when the last column sums to more than 0, a 0 after every row shorter than maxCol. */
  function AddRight(g: Grid, maxCol: nat): (h: Grid)
    requires Rect(g)
    ensures Rect(h) && |h| == |g|
  {
    if Sum(LastColumn(g)) > 0 then AppendZero(g, maxCol) else g
  }

  function PrependZero(g: Grid, maxCol: nat): (h: Grid)
    ensures |h| == |g|
    ensures Rect(g) ==> Rect(h)
  {
    seq(|g|, k requires 0 <= k < |g| => if |g[k]| < maxCol then [0] + g[k] else g[k])
  }

  function AppendZero(g: Grid, maxCol: nat): (h: Grid)
    ensures |h| == |g|
    ensures Rect(g) ==> Rect(h)
  {
    seq(|g|, k requires 0 <= k < |g| => if |g[k]| < maxCol then g[k] + [0] else g[k])
  }

  lemma TopStep(g: Grid, maxRow: nat, maxCol: nat)
    requires Rect(g)
    ensures AddTop(g, maxRow) == Pad(g, Count(GrowthOf(g, maxRow, maxCol).top), 0, 0, 0)
  {
    PadNothing(g);
    var p, q := [Zeros(Width(g))] + Pad(g, 0, 0, 0, 0), Pad(g, 1, 0, 0, 0);
    forall i | 0 <= i < |q|
      ensures p[i] == q[i]
    {
    }
  }

  lemma BottomStep(g: Grid, maxRow: nat, maxCol: nat)
    requires Rect(g)
    ensures var gr := GrowthOf(g, maxRow, maxCol);
      AddBottom(Pad(g, Count(gr.top), 0, 0, 0), maxRow) == Pad(g, Count(gr.top), Count(gr.bottom), 0, 0)
  {
    var t := Count(GrowthOf(g, maxRow, maxCol).top);
    var p0 := Pad(g, t, 0, 0, 0);
    assert LastRow(p0) == LastRow(g);
    var p, q := p0 + [Zeros(Width(g))], Pad(g, t, 1, 0, 0);
    forall i | 0 <= i < |q|
      ensures p[i] == q[i]
    {
    }
  }

  /** A 0 in front of row k of a grid with rows added above and below gives row k of the grid also framed on the left. */
  lemma PadRowShift(g: Grid, t: nat, b: nat, k: int)
    requires Rect(g) && 0 <= k < |g| + t + b
    ensures [0] + Pad(g, t, b, 0, 0)[k] == Pad(g, t, b, 1, 0)[k]
  {
    var u, v := [0] + Pad(g, t, b, 0, 0)[k], Pad(g, t, b, 1, 0)[k];
    forall j | 0 <= j < |v|
      ensures u[j] == v[j]
    {
      if j > 0 {
        assert u[j] == PadCell(g, t, 0, k, j - 1);
      }
    }
  }

  /** A 0 after row k of a framed grid gives row k of the grid also framed on the right. */
  lemma PadRowExtend(g: Grid, t: nat, b: nat, l: nat, k: int)
    requires Rect(g) && 0 <= k < |g| + t + b
    ensures Pad(g, t, b, l, 0)[k] + [0] == Pad(g, t, b, l, 1)[k]
  {
    var u, v := Pad(g, t, b, l, 0)[k] + [0], Pad(g, t, b, l, 1)[k];
    forall j | 0 <= j < |v|
      ensures u[j] == v[j]
    {
      if j < |v| - 1 {
        assert u[j] == PadCell(g, t, l, k, j);
      }
    }
  }

  lemma LeftStep(g: Grid, t: nat, b: nat, maxCol: nat)
    requires Rect(g)
    ensures AddLeft(Pad(g, t, b, 0, 0), maxCol) == Pad(g, t, b, Count(Sum(Column(g, 0)) > 0 && Width(g) < maxCol), 0)
  {
    var p0 := Pad(g, t, b, 0, 0);
    PaddedEdgeSums(g, t, b, 0);
    if Sum(Column(g, 0)) > 0 {
      var p := PrependZero(p0, maxCol);
      if Width(g) < maxCol {
        var q := Pad(g, t, b, 1, 0);
        forall k | 0 <= k < |q|
          ensures p[k] == q[k]
        {
          PadRowShift(g, t, b, k);
        }
      } else {
        forall k | 0 <= k < |p|
          ensures p[k] == p0[k]
        {
        }
      }
    }
  }

  lemma RightStep(g: Grid, t: nat, b: nat, l: nat, maxCol: nat)
    requires Rect(g)
    ensures AddRight(Pad(g, t, b, l, 0), maxCol) ==
            Pad(g, t, b, l, Count(Sum(LastColumn(g)) > 0 && Width(g) + l < maxCol))
  {
    var p0 := Pad(g, t, b, l, 0);
    PaddedEdgeSums(g, t, b, l);
    if Sum(LastColumn(g)) > 0 {
      var p := AppendZero(p0, maxCol);
      if Width(g) + l < maxCol {
        var q := Pad(g, t, b, l, 1);
        forall k | 0 <= k < |q|
          ensures p[k] == q[k]
        {
          PadRowExtend(g, t, b, l, k);
        }
      } else {
        forall k | 0 <= k < |p|
          ensures p[k] == p0[k]
        {
        }
      }
    }
  }

  /** The four steps, in `peripheryExpand`'s order (top, bottom, left, right), build the reference grown grid. */
  lemma StepsExpand(g: Grid, maxRow: nat, maxCol: nat)
    requires Rect(g)
    ensures AddRight(AddLeft(AddBottom(AddTop(g, maxRow), maxRow), maxCol), maxCol) == Expanded(g, maxRow, maxCol)
  {
    TopStep(g, maxRow, maxCol);
    BottomStep(g, maxRow, maxCol);
    var gr := GrowthOf(g, maxRow, maxCol);
    LeftStep(g, Count(gr.top), Count(gr.bottom), maxCol);
    RightStep(g, Count(gr.top), Count(gr.bottom), Count(gr.left), maxCol);
  }

  /**
    `peripheryExpand(grid, val=0, maxRow, maxCol)`: the four edge tests and
    growth steps in order, the column steps row by row.
   */
  method PeripheryExpand(grid: Grid, maxRow: nat, maxCol: nat) returns (g: Grid)
    requires Rect(grid)
    ensures g == Expanded(grid, maxRow, maxCol)
  {
    g := grid;
    var sTop := Sum(g[0]);
    if sTop > 0 && |g| < maxRow {
      g := [Zeros(|g[0]|)] + g;
    }
    ghost var g1 := g;
    assert g1 == AddTop(grid, maxRow);

    var sDown := Sum(g[|g| - 1]);
    if sDown > 0 && |g| < maxRow {
      g := g + [Zeros(|g[|g| - 1]|)];
    }
    ghost var g2 := g;
    assert g2 == AddBottom(g1, maxRow);

    var sLeft := Sum(Column(g, 0));
    if sLeft > 0 {
      g := PrependColumn(g, maxCol);
    }
    ghost var g3 := g;
    assert g3 == AddLeft(g2, maxCol);

    var sRight := Sum(LastColumn(g));
    if sRight > 0 {
      g := AppendColumn(g, maxCol);
    }
    assert g == AddRight(g3, maxCol);
    StepsExpand(grid, maxRow, maxCol);
  }

  /** The left step's loop: a 0 is put in front of every row shorter than maxCol. */
  method PrependColumn(grid: Grid, maxCol: nat) returns (g: Grid)
    ensures g == PrependZero(grid, maxCol)
  {
    g := grid;
    var r := 0;
    while r < |g|
      invariant 0 <= r <= |g| == |grid|
      invariant forall k :: 0 <= k < r ==> g[k] == if |grid[k]| < maxCol then [0] + grid[k] else grid[k]
      invariant forall k :: r <= k < |g| ==> g[k] == grid[k]
    {
      if |g[r]| < maxCol {
        g := g[r := [0] + g[r]];
      }
      r := r + 1;
    }
  }

  /** The right step's loop: a 0 is appended to every row shorter than maxCol. */
  method AppendColumn(grid: Grid, maxCol: nat) returns (g: Grid)
    ensures g == AppendZero(grid, maxCol)
  {
    g := grid;
    var r := 0;
    while r < |g|
      invariant 0 <= r <= |g| == |grid|
      invariant forall k :: 0 <= k < r ==> g[k] == if |grid[k]| < maxCol then grid[k] + [0] else grid[k]
      invariant forall k :: r <= k < |g| ==> g[k] == grid[k]
    {
      if |g[r]| < maxCol {
        g := g[r := g[r] + [0]];
      }
      r := r + 1;
    }
  }

  /**
    One generation of either front-end: the transition, then growth up to
    maxRow by maxCol; the grid never shrinks and never grows an axis past
    the larger of its size and its maximum.
   */
  function Step(g: Grid, maxRow: nat, maxCol: nat): (s: Grid)
    requires Rect(g) && Binary(g)
    ensures Rect(s) && Binary(s)
    ensures |g| <= |s| <= (if |g| < maxRow then maxRow else |g|)
    ensures Width(g) <= Width(s) <= (if Width(g) < maxCol then maxCol else Width(g))
  {
    ExpandedKeepsCells(NextGeneration(g), maxRow, maxCol);
    ExpandedSize(NextGeneration(g), maxRow, maxCol);
    Expanded(NextGeneration(g), maxRow, maxCol)
  }

  /** One generation leaves an all-dead grid as it is. */
  lemma StepOfDead(g: Grid, maxRow: nat, maxCol: nat)
    requires Rect(g) && Binary(g) && AllDead(g)
    ensures Step(g, maxRow, maxCol) == g
  {
    DeadGenerationIsDead(g);
    ExpandedDead(g, maxRow, maxCol);
  }
}
