/** `i -= i.min()` (concrete.py:82) as numpy does it: the least cell of the
    two-dimensional array is found, then subtracted from every cell in place. */
module Normalize {
  import opened Types
  import opened Glyphs

  /** The cells of `a`, row after row, as a grid. */
  function Cells(a: array2<int>): (g: Grid)
    reads a
    ensures |g| == a.Length0
    ensures forall i :: 0 <= i < a.Length0 ==> |g[i]| == a.Length1
    ensures forall i, j :: 0 <= i < a.Length0 && 0 <= j < a.Length1 ==> g[i][j] == a[i, j]
  {
    seq(a.Length0, i reads a requires 0 <= i < a.Length0 =>
      seq(a.Length1, j reads a requires 0 <= j < a.Length1 => a[i, j]))
  }

  /** An array has a cell exactly when both of its sides are positive. */
  lemma CellsHaveCell(a: array2<int>)
    ensures HasCell(Cells(a)) <==> a.Length0 > 0 && a.Length1 > 0
  {
    if a.Length0 > 0 && a.Length1 > 0 {
      assert Cells(a)[0] != [] by { assert |Cells(a)[0]| == a.Length1; }
    }
  }

  /** `i.min()`: a scan over every cell that keeps the least value seen. */
  method MinCell(a: array2<int>) returns (lo: int)
    requires a.Length0 > 0 && a.Length1 > 0
    ensures HasCell(Cells(a)) && lo == GridMin(Cells(a))
  {
    ghost var g := Cells(a);
    ghost var bi, bj := 0, 0;
    lo := a[0, 0];
    var i := 0;
    while i < a.Length0
      invariant 0 <= i <= a.Length0
      invariant 0 <= bi < a.Length0 && 0 <= bj < a.Length1 && a[bi, bj] == lo
      invariant forall k, l :: 0 <= k < i && 0 <= l < a.Length1 ==> lo <= a[k, l]
    {
      var j := 0;
      while j < a.Length1
        invariant 0 <= j <= a.Length1
        invariant 0 <= bi < a.Length0 && 0 <= bj < a.Length1 && a[bi, bj] == lo
        invariant forall k, l :: 0 <= k < i && 0 <= l < a.Length1 ==> lo <= a[k, l]
        invariant forall l :: 0 <= l < j ==> lo <= a[i, l]
      {
        if a[i, j] < lo {
          lo := a[i, j];
          bi, bj := i, j;
        }
        j := j + 1;
      }
      i := i + 1;
    }
    CellsHaveCell(a);
    assert IsCell(g, bi, bj);
    forall k, l | IsCell(g, k, l)
      ensures g[bi][bj] <= g[k][l]
    {
      assert lo <= a[k, l];
    }
    MinUnique(g, bi, bj);
  }

  /** `i -= i.min()` in place. An array without a cell makes `i.min()` raise;
      otherwise every cell loses the least one, so that the array holds the
      shifted grid, its least cell is 0 and no cell is negative. The least value
      of the original array is returned. */
  method SubtractMin(a: array2<int>) returns (r: Result<int>)
    modifies a
    ensures r.Err? <==> a.Length0 == 0 || a.Length1 == 0
    ensures r.Err? ==> r.error == EmptyGrid && unchanged(a)
    ensures r.Ok? ==> HasCell(old(Cells(a))) && r.value == GridMin(old(Cells(a)))
    ensures r.Ok? ==> HasCell(old(Cells(a))) && Cells(a) == Normalized(old(Cells(a)))
    ensures r.Ok? ==> HasCell(Cells(a)) && GridMin(Cells(a)) == 0
    ensures r.Ok? ==> forall k, l :: 0 <= k < a.Length0 && 0 <= l < a.Length1 ==> a[k, l] >= 0
  {
    if a.Length0 == 0 || a.Length1 == 0 {
      return Err(EmptyGrid);
    }
    ghost var g := Cells(a);
    var lo := MinCell(a);
    SubtractEach(a, lo);
    ShiftedCells(a, g, lo);
    NormalizedMin(g);
    forall k, l | 0 <= k < a.Length0 && 0 <= l < a.Length1
      ensures a[k, l] >= 0
    {
      assert IsCell(g, k, l);
    }
    CellsHaveCell(a);
    r := Ok(lo);
  }

  /** `i -= d`: every cell loses `d`, row after row. */
  method SubtractEach(a: array2<int>, d: int)
    modifies a
    ensures forall k, l :: 0 <= k < a.Length0 && 0 <= l < a.Length1 ==> a[k, l] == old(a[k, l]) - d
  {
    var i := 0;
    while i < a.Length0
      invariant 0 <= i <= a.Length0
      invariant forall k, l :: 0 <= k < i && 0 <= l < a.Length1 ==> a[k, l] == old(a[k, l]) - d
      invariant forall k, l :: i <= k < a.Length0 && 0 <= l < a.Length1 ==> a[k, l] == old(a[k, l])
    {
      var j := 0;
      while j < a.Length1
        invariant 0 <= j <= a.Length1
        invariant forall k, l :: 0 <= k < i && 0 <= l < a.Length1 ==> a[k, l] == old(a[k, l]) - d
        invariant forall l :: 0 <= l < j ==> a[i, l] == old(a[i, l]) - d
        invariant forall k, l :: i <= k < a.Length0 && 0 <= l < a.Length1 && (k > i || l >= j)
                    ==> a[k, l] == old(a[k, l])
      {
        a[i, j] := a[i, j] - d;
        j := j + 1;
      }
      i := i + 1;
    }
  }

  /** An array whose every cell is the grid's cell less its least one holds the
      shifted grid. */
  lemma ShiftedCells(a: array2<int>, g: Grid, lo: int)
    requires HasCell(g) && lo == GridMin(g)
    requires |g| == a.Length0 && forall k :: 0 <= k < |g| ==> |g[k]| == a.Length1
    requires forall k, l :: 0 <= k < a.Length0 && 0 <= l < a.Length1 ==> a[k, l] == g[k][l] - lo
    ensures Cells(a) == Normalized(g)
  {
    var c, z := Cells(a), Normalized(g);
    forall k | 0 <= k < |g|
      ensures c[k] == z[k]
    {
      forall l | 0 <= l < |g[k]|
        ensures c[k][l] == z[k][l]
      {
        assert IsCell(g, k, l);
      }
    }
  }
}
