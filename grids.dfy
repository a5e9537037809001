/** The `width × height` arrays of per-cell lists both grid stores keep, and the cell pools they build. */
module Grids {
  import opened Vectors
  import opened Lists

  /** A `List<T>[,]`: the list of cell (x, z) is g[x][z]. */
  type Grid<T> = seq<seq<seq<T>>>

  predicate IsGrid<T>(g: Grid<T>, w: int, h: int) {
    |g| == w && forall x :: 0 <= x < |g| ==> |g[x]| == h
  }

  predicate InBounds(w: int, h: int, p: Vec2) {
    0 <= p.x < w && 0 <= p.y < h
  }

  /** The array after `g[p.x, p.y] = v`. */
  function Put<T>(g: Grid<T>, p: Vec2, v: seq<T>): (r: Grid<T>)
    requires 0 <= p.x < |g| && 0 <= p.y < |g[p.x]|
    ensures |r| == |g| && forall x :: 0 <= x < |g| ==> |r[x]| == |g[x]|
    ensures r[p.x][p.y] == v
    ensures forall x, z {:trigger r[x][z]} :: 0 <= x < |g| && 0 <= z < |g[x]| && (x != p.x || z != p.y) ==> r[x][z] == g[x][z]
  {
    g[p.x := g[p.x][p.y := v]]
  }

  lemma PutSame<T>(g: Grid<T>, p: Vec2)
    requires 0 <= p.x < |g| && 0 <= p.y < |g[p.x]|
    ensures Put(g, p, g[p.x][p.y]) == g
  {
    assert g[p.x][p.y := g[p.x][p.y]] == g[p.x];
  }

  lemma PutPut<T>(g: Grid<T>, p: Vec2, u: seq<T>, v: seq<T>)
    requires 0 <= p.x < |g| && 0 <= p.y < |g[p.x]|
    ensures Put(Put(g, p, u), p, v) == Put(g, p, v)
  {
    assert g[p.x][p.y := u][p.y := v] == g[p.x][p.y := v];
  }

  /** Two arrays of the same shape with the same list in every cell are equal. */
  lemma GridExt<T>(a: Grid<T>, b: Grid<T>)
    requires |a| == |b| && forall x :: 0 <= x < |a| ==> |a[x]| == |b[x]|
    requires forall x, z :: 0 <= x < |a| && 0 <= z < |a[x]| ==> a[x][z] == b[x][z]
    ensures a == b
  {
    forall x | 0 <= x < |a|
      ensures a[x] == b[x]
    {
    }
  }

  /**
   * The array after lists adds[0], adds[1], ... have been appended, in that order, to the lists of
   * cells[0], cells[1], ...; a cell off the array is skipped.
   */
  function AppendAll<T>(g: Grid<T>, cells: seq<Vec2>, adds: seq<seq<T>>): (r: Grid<T>)
    requires |cells| == |adds|
    ensures |r| == |g| && forall x :: 0 <= x < |g| ==> |r[x]| == |g[x]|
    decreases |cells|
  {
    if |cells| == 0 then g
    else
      var n := |cells| - 1;
      var prev := AppendAll(g, cells[..n], adds[..n]);
      var p := cells[n];
      if 0 <= p.x < |prev| && 0 <= p.y < |prev[p.x]| then Put(prev, p, prev[p.x][p.y] + adds[n])
      else prev
  }

  /** AppendAll one cell longer: the extra list is appended last. */
  lemma AppendAllSnoc<T>(g: Grid<T>, cells: seq<Vec2>, adds: seq<seq<T>>, c: Vec2, v: seq<T>)
    requires |cells| == |adds|
    ensures var prev := AppendAll(g, cells, adds);
      AppendAll(g, cells + [c], adds + [v]) ==
        if 0 <= c.x < |prev| && 0 <= c.y < |prev[c.x]| then Put(prev, c, prev[c.x][c.y] + v) else prev
  {
    assert (cells + [c])[..|cells|] == cells;
    assert (adds + [v])[..|adds|] == adds;
  }

  /** What AppendAll leaves in one cell: a cell listed once gets its list on top, an unlisted cell is untouched. */
  lemma {:induction false} AppendAllAt<T>(g: Grid<T>, cells: seq<Vec2>, adds: seq<seq<T>>, p: Vec2)
    requires |cells| == |adds| && NoDuplicates(cells)
    requires 0 <= p.x < |g| && 0 <= p.y < |g[p.x]|
    ensures p !in cells ==> AppendAll(g, cells, adds)[p.x][p.y] == g[p.x][p.y]
    ensures forall k :: 0 <= k < |cells| && cells[k] == p ==>
      AppendAll(g, cells, adds)[p.x][p.y] == g[p.x][p.y] + adds[k]
    decreases |cells|
  {
    if |cells| > 0 {
      var n := |cells| - 1;
      assert NoDuplicates(cells[..n]);
      AppendAllAt(g, cells[..n], adds[..n], p);
      if p == cells[n] {
        assert p !in cells[..n];
      } else {
        assert p in cells ==> p in cells[..n];
        forall k | 0 <= k < |cells| && cells[k] == p
          ensures k < n && cells[..n][k] == p
        {
        }
      }
    }
  }

  /** `new List<T>()` in every cell of a w × h array, by the nested loops of CreateGrid/InitializeGrid. */
  method EmptyLists<T>(w: nat, h: nat) returns (g: Grid<T>)
    ensures IsGrid(g, w, h)
    ensures forall x, z :: 0 <= x < w && 0 <= z < h ==> g[x][z] == []
  {
    g := [];
    var x := 0;
    while x < w
      invariant 0 <= x <= w && IsGrid(g, x, h)
      invariant forall i, z :: 0 <= i < x && 0 <= z < h ==> g[i][z] == []
    {
      var column: seq<seq<T>> := [];
      var z := 0;
      while z < h
        invariant 0 <= z <= h && |column| == z
        invariant forall k :: 0 <= k < z ==> column[k] == []
      {
        column := column + [[]];
        z := z + 1;
      }
      g := g + [column];
      x := x + 1;
    }
  }

  /** The cells (x, 0), ..., (x, rows - 1). */
  function Column(x: int, rows: int): seq<Vec2>
    decreases rows
  {
    if rows <= 0 then [] else Column(x, rows - 1) + [Vec2(x, rows - 1)]
  }

  lemma {:induction false} ColumnCells(x: int, rows: int)
    ensures forall p :: p in Column(x, rows) <==> p.x == x && 0 <= p.y < rows
    ensures Distinct(Column(x, rows))
    decreases rows
  {
    if rows > 0 {
      var a := Column(x, rows - 1);
      assert Column(x, rows) == a + [Vec2(x, rows - 1)];
      ColumnCells(x, rows - 1);
      DisjointConcat(a, [Vec2(x, rows - 1)]);
    }
  }

  /** The cells (0, z), ..., (n - 1, z). */
  function Row(z: int, n: int): seq<Vec2>
    decreases n
  {
    if n <= 0 then [] else Row(z, n - 1) + [Vec2(n - 1, z)]
  }

  lemma {:induction false} RowCells(z: int, n: int)
    ensures |Row(z, n)| == if n < 0 then 0 else n
    ensures forall i :: 0 <= i < n ==> Row(z, n)[i] == Vec2(i, z)
    ensures forall p :: p in Row(z, n) <==> p.y == z && 0 <= p.x < n
    ensures Distinct(Row(z, n))
    decreases n
  {
    if n > 0 {
      var a := Row(z, n - 1);
      assert Row(z, n) == a + [Vec2(n - 1, z)];
      RowCells(z, n - 1);
      DisjointConcat(a, [Vec2(n - 1, z)]);
    }
  }

  /** The cells (x, z) with 0 <= x < w and 0 <= z < rows, x-major as the nested loops visit them. */
  function RowMajor(w: int, rows: int): seq<Vec2>
    decreases w
  {
    if w <= 0 then [] else RowMajor(w - 1, rows) + Column(w - 1, rows)
  }

  lemma {:induction false} RowMajorCells(w: int, rows: int)
    ensures forall p :: p in RowMajor(w, rows) <==> InBounds(w, rows, p)
    ensures Distinct(RowMajor(w, rows))
    decreases w
  {
    if w > 0 {
      var a, b := RowMajor(w - 1, rows), Column(w - 1, rows);
      assert RowMajor(w, rows) == a + b;
      RowMajorCells(w - 1, rows);
      ColumnCells(w - 1, rows);
      DisjointConcat(a, b);
    }
  }

  /** The nested loops that list every cell below the frog row (rows = gridHeight - 1). */
  method CollectPositions(w: nat, rows: int) returns (list: seq<Vec2>)
    ensures list == RowMajor(w, rows)
  {
    list := [];
    var x := 0;
    while x < w
      invariant 0 <= x <= w
      invariant list == RowMajor(x, rows)
    {
      var z := 0;
      while z < rows
        invariant 0 <= z <= if rows < 0 then 0 else rows
        invariant list == RowMajor(x, rows) + Column(x, z)
      {
        assert Column(x, z + 1) == Column(x, z) + [Vec2(x, z)];
        list := list + [Vec2(x, z)];
        z := z + 1;
      }
      assert Column(x, z) == Column(x, rows);
      assert RowMajor(x + 1, rows) == RowMajor(x, rows) + Column(x, rows);
      x := x + 1;
    }
  }

  /** The cells below the frog row in the order ShuffleList leaves them, for the draws `picks`. */
  function ShuffledCells(w: int, rows: int, picks: seq<int>): seq<Vec2>
    requires ValidPicks(|RowMajor(w, rows)|, picks)
  {
    Shuffled(RowMajor(w, rows), picks, 0)
  }

  /** Whatever the draws, the shuffled pool holds every cell of the w × rows block exactly once. */
  lemma ShuffledCellsExact(w: int, rows: int, picks: seq<int>)
    requires ValidPicks(|RowMajor(w, rows)|, picks)
    ensures multiset(ShuffledCells(w, rows, picks)) == multiset(RowMajor(w, rows))
    ensures forall p :: p in ShuffledCells(w, rows, picks) <==> InBounds(w, rows, p)
    ensures Distinct(ShuffledCells(w, rows, picks))
  {
    RowMajorCells(w, rows);
    ShuffledPermutation(RowMajor(w, rows), picks, 0);
    var r := ShuffledCells(w, rows, picks);
    assert forall p :: p in r <==> p in multiset(r);
  }
}
