/**
 * The first grid store, `SimpleGrid`: a gridWidth × gridHeight array of grape stacks and a
 * parallel array of tile stacks, one frog per column on the top row (z = gridHeight - 1).
 */
module SimpleGridModel {
  import opened Vectors
  import opened Lists
  import opened Grids

  /** A grape or tile object: the colour id it shows and whether it is active (visible). */
  datatype Piece = Piece(colorId: int, active: bool)

  /** A frog as SpawnFrogs places it: its cell and its colour id. */
  datatype FrogSpawn = FrogSpawn(cell: Vec2, colorId: int)

  /** PlaceTilesAndGrapes stacks three layers per cell and cycles the fill through colour ids 1..5. */
  const StackSize: nat := 3
  const CycleLength: nat := 5

  /** n layers of one colour as StackTilesAndGrapes lays them down: only the top layer stays active. */
  function Layers(id: int, n: nat): (r: seq<Piece>)
    ensures |r| == n
    ensures forall q :: q in r ==> q.colorId == id
    ensures forall i :: 0 <= i < n ==> (r[i].active <==> i == n - 1)
  {
    seq(n, i => Piece(id, i == n - 1))
  }

  /** The colour id the fill gives the k-th remaining cell: 1, 2, 3, 4, 5, 1, ... */
  function CycleId(k: nat): (id: int)
    ensures 1 <= id <= CycleLength
  {
    k % CycleLength + 1
  }

  /** The fill's counter: after id comes id + 1, and after 5 comes 1 again. */
  lemma CycleIdNext(k: nat)
    ensures CycleId(k + 1) == if CycleId(k) == CycleLength then 1 else CycleId(k) + 1
  {
  }

  /** The cells just below the frog row, (i, gridHeight - 2) for every frog i, when that row exists. */
  function FrogNeighbourCells(w: nat, h: nat): seq<Vec2> {
    if h >= 2 then Row(h - 2, w) else []
  }

  lemma FrogNeighbourCellsSnoc(w: nat, h: nat)
    requires h >= 2
    ensures |FrogNeighbourCells(w, h)| == w
    ensures FrogNeighbourCells(w + 1, h) == FrogNeighbourCells(w, h) + [Vec2(w, h - 2)]
  {
    RowCells(h - 2, w);
  }

  /** The pool left for the colour-cycling fill: the shuffled cells below the frog row minus FrogNeighbourCells. */
  function RemainingCells(w: nat, h: nat, picks: seq<int>): seq<Vec2>
    requires ValidPicks(|RowMajor(w, h - 1)|, picks)
  {
    RemoveEach(ShuffledCells(w, h - 1, picks), FrogNeighbourCells(w, h))
  }

  /** The fill covers every cell below the frog neighbours' row, each exactly once. */
  lemma RemainingCellsExact(w: nat, h: nat, picks: seq<int>)
    requires ValidPicks(|RowMajor(w, h - 1)|, picks)
    ensures NoDuplicates(RemainingCells(w, h, picks))
    ensures forall p :: p in RemainingCells(w, h, picks) <==> InBounds(w, h, p) && p.y < h - 2
  {
    FrogNeighbourCellsExact(w, h);
    ShuffledCellsExact(w, h - 1, picks);
    PoolMinus(ShuffledCells(w, h - 1, picks), FrogNeighbourCells(w, h), w, h);
  }

  lemma FrogNeighbourCellsExact(w: nat, h: nat)
    ensures Distinct(FrogNeighbourCells(w, h))
    ensures forall p :: p in FrogNeighbourCells(w, h) <==> h >= 2 && p.y == h - 2 && 0 <= p.x < w
  {
    if h >= 2 {
      RowCells(h - 2, w);
    }
  }

  lemma PoolMinus(s: seq<Vec2>, f: seq<Vec2>, w: nat, h: nat)
    requires Distinct(s) && forall p :: p in s <==> InBounds(w, h - 1, p)
    requires Distinct(f) && forall p :: p in f <==> h >= 2 && p.y == h - 2 && 0 <= p.x < w
    ensures NoDuplicates(RemoveEach(s, f))
    ensures forall p :: p in RemoveEach(s, f) <==> InBounds(w, h, p) && p.y < h - 2
  {
    RemoveEachDistinct(s, f);
    DistinctNoDuplicates(RemoveEach(s, f));
  }

  /** Colour ids 1, 2, ..., n: frog i's neighbour cell gets id i + 1. */
  function Ascending(n: nat): (r: seq<int>)
    ensures |r| == n && forall i :: 0 <= i < n ==> r[i] == i + 1
  {
    seq(n, i => i + 1)
  }

  /** The fill's colour ids for n cells: CycleId(0), ..., CycleId(n - 1). */
  function CycleIds(n: nat): (r: seq<int>)
    ensures |r| == n && forall k :: 0 <= k < n ==> r[k] == CycleId(k)
  {
    seq(n, k requires 0 <= k < n => CycleId(k))
  }

  /** The stacks StackTilesAndGrapes lays down for colour ids ids[0], ids[1], ...: StackSize layers each. */
  function LayerStacks(ids: seq<int>): (r: seq<seq<Piece>>)
    ensures |r| == |ids| && forall k :: 0 <= k < |ids| ==> r[k] == Layers(ids[k], StackSize)
  {
    seq(|ids|, k requires 0 <= k < |ids| => Layers(ids[k], StackSize))
  }

  /**
   * The array after StackTilesAndGrapes has put StackSize layers of colour ids[k] onto cells[k],
   * for k = 0, 1, ... in order; a cell off the array is skipped.
   */
  function StackAll(g: Grid<Piece>, cells: seq<Vec2>, ids: seq<int>): (r: Grid<Piece>)
    requires |cells| == |ids|
    ensures |r| == |g| && forall x :: 0 <= x < |g| ==> |r[x]| == |g[x]|
  {
    AppendAll(g, cells, LayerStacks(ids))
  }

  /** StackAll one cell longer: the extra cell is stacked last. */
  lemma StackAllSnoc(g: Grid<Piece>, cells: seq<Vec2>, ids: seq<int>, c: Vec2, id: int)
    requires |cells| == |ids|
    ensures var prev := StackAll(g, cells, ids);
      StackAll(g, cells + [c], ids + [id]) ==
        if 0 <= c.x < |prev| && 0 <= c.y < |prev[c.x]| then Put(prev, c, prev[c.x][c.y] + Layers(id, StackSize)) else prev
  {
    assert LayerStacks(ids + [id]) == LayerStacks(ids) + [Layers(id, StackSize)];
    AppendAllSnoc(g, cells, LayerStacks(ids), c, Layers(id, StackSize));
  }

  /** What StackAll leaves in one cell: a cell listed once gets its layers on top, an unlisted cell is untouched. */
  lemma StackAllAt(g: Grid<Piece>, cells: seq<Vec2>, ids: seq<int>, p: Vec2)
    requires |cells| == |ids| && NoDuplicates(cells)
    requires 0 <= p.x < |g| && 0 <= p.y < |g[p.x]|
    ensures p !in cells ==> StackAll(g, cells, ids)[p.x][p.y] == g[p.x][p.y]
    ensures forall k :: 0 <= k < |cells| && cells[k] == p ==>
      StackAll(g, cells, ids)[p.x][p.y] == g[p.x][p.y] + Layers(ids[k], StackSize)
  {
    AppendAllAt(g, cells, LayerStacks(ids), p);
  }

  /** The array PlaceTilesAndGrapes leaves: the frog neighbours' stacks first, then the cycling fill of the remaining cells. */
  function Placed(g: Grid<Piece>, w: nat, h: nat, picks: seq<int>): (r: Grid<Piece>)
    requires ValidPicks(|RowMajor(w, h - 1)|, picks)
    ensures |r| == |g| && forall x :: 0 <= x < |g| ==> |r[x]| == |g[x]|
  {
    var front := FrogNeighbourCells(w, h);
    var rest := RemainingCells(w, h, picks);
    StackAll(StackAll(g, front, Ascending(|front|)), rest, CycleIds(|rest|))
  }

  /** The first loop of PlaceTilesAndGrapes cell by cell: the cell below frog x gets x + 1, every other cell is untouched. */
  lemma FrogNeighboursAt(g: Grid<Piece>, w: nat, h: nat, p: Vec2)
    requires IsGrid(g, w, h) && InBounds(w, h, p)
    ensures var front := FrogNeighbourCells(w, h);
      var r := StackAll(g, front, Ascending(|front|));
      (p.y == h - 2 ==> r[p.x][p.y] == g[p.x][p.y] + Layers(p.x + 1, StackSize)) &&
      (p.y != h - 2 ==> r[p.x][p.y] == g[p.x][p.y])
  {
    if h < 2 {
      assert FrogNeighbourCells(w, h) == [];
    } else if p.y == h - 2 {
      BelowFrogAt(g, w, h, p);
    } else {
      AwayFromFrogsAt(g, w, h, p);
    }
  }

  lemma BelowFrogAt(g: Grid<Piece>, w: nat, h: nat, p: Vec2)
    requires IsGrid(g, w, h) && InBounds(w, h, p) && h >= 2 && p.y == h - 2
    ensures var front := FrogNeighbourCells(w, h);
      StackAll(g, front, Ascending(|front|))[p.x][p.y] == g[p.x][p.y] + Layers(p.x + 1, StackSize)
  {
    var front := Row(h - 2, w);
    assert FrogNeighbourCells(w, h) == front;
    RowCells(h - 2, w);
    DistinctNoDuplicates(front);
    var ids := Ascending(w);
    StackAllAt(g, front, ids, p);
    assert front[p.x] == p && ids[p.x] == p.x + 1;
  }

  lemma AwayFromFrogsAt(g: Grid<Piece>, w: nat, h: nat, p: Vec2)
    requires IsGrid(g, w, h) && InBounds(w, h, p) && h >= 2 && p.y != h - 2
    ensures var front := FrogNeighbourCells(w, h);
      StackAll(g, front, Ascending(|front|))[p.x][p.y] == g[p.x][p.y]
  {
    var front := Row(h - 2, w);
    assert FrogNeighbourCells(w, h) == front;
    RowCells(h - 2, w);
    DistinctNoDuplicates(front);
    StackAllAt(g, front, Ascending(w), p);
  }

  /**
   * PlaceTilesAndGrapes cell by cell: the cell below frog x gets frog x's colour x + 1, the k-th remaining
   * cell below that row gets CycleId(k), and the frog row is untouched.
   */
  lemma PlacedAt(g: Grid<Piece>, w: nat, h: nat, picks: seq<int>, p: Vec2)
    requires ValidPicks(|RowMajor(w, h - 1)|, picks)
    requires IsGrid(g, w, h) && InBounds(w, h, p)
    ensures p.y == h - 2 ==> Placed(g, w, h, picks)[p.x][p.y] == g[p.x][p.y] + Layers(p.x + 1, StackSize)
    ensures p.y == h - 1 ==> Placed(g, w, h, picks)[p.x][p.y] == g[p.x][p.y]
    ensures p.y < h - 2 ==>
      (exists k :: 0 <= k < |RemainingCells(w, h, picks)| &&
        RemainingCells(w, h, picks)[k] == p &&
        Placed(g, w, h, picks)[p.x][p.y] == g[p.x][p.y] + Layers(CycleId(k), StackSize))
  {
    var front := FrogNeighbourCells(w, h);
    var g1 := StackAll(g, front, Ascending(|front|));
    FrogNeighboursAt(g, w, h, p);
    var rest := RemainingCells(w, h, picks);
    RemainingCellsExact(w, h, picks);
    StackAllAt(g1, rest, CycleIds(|rest|), p);
    if p.y < h - 2 {
      var k :| 0 <= k < |rest| && rest[k] == p;
    }
  }

  /**
   * The board Start deals: frog x's colour x + 1 just below the frog row, a colour id in 1..5 on every
   * cell further down, and nothing on the frog row.
   */
  ghost predicate StartLayout(g: Grid<Piece>, w: nat, h: nat) {
    IsGrid(g, w, h) &&
    (forall x :: 0 <= x < w && h >= 2 ==> g[x][h - 2] == Layers(x + 1, StackSize)) &&
    (forall x, z :: 0 <= x < w && 0 <= z < h - 2 ==>
      (exists id :: 1 <= id <= CycleLength && g[x][z] == Layers(id, StackSize))) &&
    (forall x :: 0 <= x < w && h >= 1 ==> g[x][h - 1] == [])
  }

  /** PlaceTilesAndGrapes on an empty board deals the StartLayout. */
  lemma PlacedOnEmpty(g: Grid<Piece>, w: nat, h: nat, picks: seq<int>)
    requires ValidPicks(|RowMajor(w, h - 1)|, picks)
    requires IsGrid(g, w, h) && forall x, z :: 0 <= x < w && 0 <= z < h ==> g[x][z] == []
    ensures StartLayout(Placed(g, w, h, picks), w, h)
  {
    var r := Placed(g, w, h, picks);
    forall x, z | 0 <= x < w && 0 <= z < h
      ensures z == h - 2 ==> r[x][z] == Layers(x + 1, StackSize)
      ensures z == h - 1 ==> r[x][z] == []
      ensures z < h - 2 ==> (exists id :: 1 <= id <= CycleLength && r[x][z] == Layers(id, StackSize))
    {
      PlacedAt(g, w, h, picks, Vec2(x, z));
      if z < h - 2 {
        var rest := RemainingCells(w, h, picks);
        var k :| 0 <= k < |rest| && rest[k] == Vec2(x, z) && r[x][z] == g[x][z] + Layers(CycleId(k), StackSize);
        assert r[x][z] == Layers(CycleId(k), StackSize);
      }
    }
  }

  /** A cell's grape and tile lists after CollectGrapeAt. */
  function Collect(g: seq<Piece>, t: seq<Piece>): (r: (seq<Piece>, seq<Piece>))
    ensures |g| == 0 || |t| == 0 ==> r == (g, t)
    ensures |g| > 0 && |t| > 0 ==> |r.0| == |g| - 1 && |r.1| == |t| - 1
    ensures |g| > 0 && |t| > 0 ==>
      (forall i :: 0 <= i < |g| - 2 ==> r.0[i] == g[i]) && (forall i :: 0 <= i < |t| - 2 ==> r.1[i] == t[i])
    ensures |g| > 1 && |t| > 1 ==>
      r.0[|g| - 2] == g[|g| - 2].(active := true) && r.1[|t| - 2] == t[|t| - 2].(active := true)
    ensures |g| > 0 && |t| > 0 && (|g| == 1 || |t| == 1) ==> r == (g[..|g| - 1], t[..|t| - 1])
  {
    if |g| > 0 && |t| > 0 then
      var g', t' := g[..|g| - 1], t[..|t| - 1];
      if |g'| > 0 && |t'| > 0 then (ActivateTop(g'), ActivateTop(t')) else (g', t')
    else (g, t)
  }

  function ActivateTop(s: seq<Piece>): seq<Piece>
    requires |s| > 0
  {
    s[|s| - 1 := s[|s| - 1].(active := true)]
  }

  /** A grape list after HideAllButTopGrape: the same colours, only the last grape active. */
  function ShowOnlyTop(s: seq<Piece>): (r: seq<Piece>)
    ensures |r| == |s|
    ensures forall i :: 0 <= i < |s| ==> r[i].colorId == s[i].colorId && (r[i].active <==> i == |s| - 1)
  {
    seq(|s|, i requires 0 <= i < |s| => s[i].(active := i == |s| - 1))
  }

  class SimpleGrid {
    const gridWidth: nat
    const gridHeight: nat
    var gridArray: Grid<Piece>
    var tileArray: Grid<Piece>
    var frogs: seq<FrogSpawn>

    ghost predicate Valid()
      reads this
    {
      IsGrid(gridArray, gridWidth, gridHeight) && IsGrid(tileArray, gridWidth, gridHeight)
    }

    predicate In(p: Vec2) {
      InBounds(gridWidth, gridHeight, p)
    }

    /** The frogs as SpawnFrogs leaves them: frog i on (i, gridHeight - 1) with colour id i + 1. */
    ghost predicate FrogsAtStart()
      reads this
    {
      |frogs| == gridWidth &&
      forall i :: 0 <= i < |frogs| ==> frogs[i] == FrogSpawn(Vec2(i, gridHeight - 1), i + 1)
    }

    constructor (width: nat, height: nat)
      ensures gridWidth == width && gridHeight == height
      ensures gridArray == [] && tileArray == [] && frogs == []
    {
      gridWidth, gridHeight := width, height;
      gridArray, tileArray, frogs := [], [], [];
    }

    /**
     * Start: CreateGrid, SpawnFrogs, PlaceTilesAndGrapes (the shuffle draws are `picks`). The tile
     * stacks mirror the grape stacks, and each cell holds one three-layer stack or nothing.
     */
    method Start(picks: seq<int>)
      requires ValidPicks(|RowMajor(gridWidth, gridHeight - 1)|, picks)
      modifies this
      ensures Valid() && FrogsAtStart()
      ensures tileArray == gridArray
      ensures StartLayout(gridArray, gridWidth, gridHeight)
    {
      CreateGrid();
      SpawnFrogs();
      GridExt(gridArray, tileArray);
      PlacedOnEmpty(gridArray, gridWidth, gridHeight, picks);
      PlaceTilesAndGrapes(picks);
    }

    /** CreateGrid: an empty grape list and an empty tile list in every cell. */
    method CreateGrid()
      modifies this
      ensures Valid() && frogs == old(frogs)
      ensures forall x, z :: 0 <= x < gridWidth && 0 <= z < gridHeight ==>
        gridArray[x][z] == [] && tileArray[x][z] == []
    {
      gridArray := EmptyLists(gridWidth, gridHeight);
      tileArray := EmptyLists(gridWidth, gridHeight);
    }

    /** SpawnFrogs: one frog per column on the top row, colour ids 1, 2, ... from the left. */
    method SpawnFrogs()
      modifies this
      ensures FrogsAtStart()
      ensures gridArray == old(gridArray) && tileArray == old(tileArray)
    {
      frogs := [];
      var i := 0;
      while i < gridWidth
        invariant 0 <= i <= gridWidth && |frogs| == i
        invariant forall j :: 0 <= j < i ==> frogs[j] == FrogSpawn(Vec2(j, gridHeight - 1), j + 1)
        invariant gridArray == old(gridArray) && tileArray == old(tileArray)
      {
        frogs := frogs + [FrogSpawn(Vec2(i, gridHeight - 1), i + 1)];
        i := i + 1;
      }
    }

    /**
     * PlaceTilesAndGrapes: the cell below each frog gets a stack of that frog's colour, then the
     * remaining shuffled cells get stacks with colour ids cycling 1..5 (see PlacedAt).
     */
    method PlaceTilesAndGrapes(picks: seq<int>)
      requires Valid() && FrogsAtStart()
      requires ValidPicks(|RowMajor(gridWidth, gridHeight - 1)|, picks)
      modifies this
      ensures Valid() && frogs == old(frogs)
      ensures gridArray == Placed(old(gridArray), gridWidth, gridHeight, picks)
      ensures tileArray == Placed(old(tileArray), gridWidth, gridHeight, picks)
    {
      ghost var g0, t0 := gridArray, tileArray;
      ghost var front := FrogNeighbourCells(gridWidth, gridHeight);
      ghost var rest := RemainingCells(gridWidth, gridHeight, picks);
      var available := CollectPositions(gridWidth, gridHeight - 1);
      available := ShuffleList(available, picks);
      assert available == ShuffledCells(gridWidth, gridHeight - 1, picks);
      available := StackBelowFrogs(available);
      assert available == rest;
      assert gridArray == StackAll(g0, front, Ascending(|front|));
      assert tileArray == StackAll(t0, front, Ascending(|front|));
      RemainingCellsExact(gridWidth, gridHeight, picks);
      assert forall k :: 0 <= k < |available| ==> In(available[k]) by {
        forall k | 0 <= k < |available|
          ensures In(available[k])
        {
          assert available[k] in rest;
        }
      }
      StackRemaining(available);
    }

    /** The first loop of PlaceTilesAndGrapes: a stack of frog i's colour below frog i, and that cell leaves the pool. */
    method StackBelowFrogs(pool: seq<Vec2>) returns (available: seq<Vec2>)
      requires Valid() && FrogsAtStart()
      modifies this
      ensures Valid() && frogs == old(frogs)
      ensures available == RemoveEach(pool, FrogNeighbourCells(gridWidth, gridHeight))
      ensures var front := FrogNeighbourCells(gridWidth, gridHeight);
        gridArray == StackAll(old(gridArray), front, Ascending(|front|)) &&
        tileArray == StackAll(old(tileArray), front, Ascending(|front|))
    {
      available := pool;
      ghost var done: seq<Vec2> := [];
      var i := 0;
      while i < |frogs|
        invariant 0 <= i <= |frogs| && Valid() && FrogsAtStart()
        invariant done == FrogNeighbourCells(i, gridHeight) && |done| == (if gridHeight >= 2 then i else 0)
        invariant available == RemoveEach(pool, done)
        invariant gridArray == StackAll(old(gridArray), done, Ascending(|done|))
        invariant tileArray == StackAll(old(tileArray), done, Ascending(|done|))
      {
        assert frogs[i].cell == Vec2(i, gridHeight - 1);
        var frogX := frogs[i].cell.x;
        var frogZ := frogs[i].cell.y - 1;
        if frogZ >= 0 {
          available := StackBelowFrog(i, pool, available, done, old(gridArray), old(tileArray));
          done := done + [Vec2(frogX, frogZ)];
        }
        i := i + 1;
      }
    }

    /** One turn of the frog loop: frog i's cell below gets a stack of id i + 1 and leaves the pool. */
    method StackBelowFrog(i: nat, pool: seq<Vec2>, available: seq<Vec2>, ghost done: seq<Vec2>,
                          ghost g0: Grid<Piece>, ghost t0: Grid<Piece>) returns (rest: seq<Vec2>)
      requires Valid() && i < gridWidth && gridHeight >= 2
      requires done == FrogNeighbourCells(i, gridHeight) && |done| == i && available == RemoveEach(pool, done)
      requires gridArray == StackAll(g0, done, Ascending(i)) && tileArray == StackAll(t0, done, Ascending(i))
      modifies this
      ensures Valid() && frogs == old(frogs)
      ensures var next := done + [Vec2(i, gridHeight - 2)];
        next == FrogNeighbourCells(i + 1, gridHeight) && rest == RemoveEach(pool, next) &&
        gridArray == StackAll(g0, next, Ascending(i + 1)) && tileArray == StackAll(t0, next, Ascending(i + 1))
    {
      var p := Vec2(i, gridHeight - 2);
      FrogNeighbourCellsSnoc(i, gridHeight);
      assert Ascending(i + 1) == Ascending(i) + [i + 1];
      StackAllSnoc(g0, done, Ascending(i), p, i + 1);
      StackAllSnoc(t0, done, Ascending(i), p, i + 1);
      RemoveEachSnoc(pool, done, p);
      StackTilesAndGrapes(i, gridHeight - 2, i + 1, StackSize);
      rest := RemoveFirst(available, p);
    }

    /** The second loop of PlaceTilesAndGrapes: the k-th cell left in the pool gets a stack of colour id CycleId(k). */
    method StackRemaining(available: seq<Vec2>)
      requires Valid()
      requires forall k :: 0 <= k < |available| ==> In(available[k])
      modifies this
      ensures Valid() && frogs == old(frogs)
      ensures gridArray == StackAll(old(gridArray), available, CycleIds(|available|))
      ensures tileArray == StackAll(old(tileArray), available, CycleIds(|available|))
    {
      var id := 1;
      var k := 0;
      while k < |available|
        invariant 0 <= k <= |available| && Valid() && frogs == old(frogs)
        invariant id == CycleId(k)
        invariant gridArray == StackAll(old(gridArray), available[..k], CycleIds(k))
        invariant tileArray == StackAll(old(tileArray), available[..k], CycleIds(k))
      {
        var pos := available[k];
        assert available[..k + 1] == available[..k] + [pos];
        assert CycleIds(k + 1) == CycleIds(k) + [id];
        StackAllSnoc(old(gridArray), available[..k], CycleIds(k), pos, id);
        StackAllSnoc(old(tileArray), available[..k], CycleIds(k), pos, id);
        StackTilesAndGrapes(pos.x, pos.y, id, StackSize);
        CycleIdNext(k);
        id := id + 1;
        if id > CycleLength {
          id := 1;
        }
        k := k + 1;
      }
      assert available[..k] == available;
    }
    /** StackTilesAndGrapes: stackSize tiles and grapes of colour id on (x, y), only the top pair active. */
    method StackTilesAndGrapes(x: int, y: int, id: int, stackSize: nat)
      requires Valid() && In(Vec2(x, y))
      modifies this
      ensures Valid() && frogs == old(frogs)
      ensures gridArray == Put(old(gridArray), Vec2(x, y), old(gridArray[x][y]) + Layers(id, stackSize))
      ensures tileArray == Put(old(tileArray), Vec2(x, y), old(tileArray[x][y]) + Layers(id, stackSize))
    {
      var p := Vec2(x, y);
      PutSame(gridArray, p);
      PutSame(tileArray, p);
      assert old(gridArray[x][y]) + Layers(id, stackSize)[..0] == old(gridArray[x][y]);
      assert old(tileArray[x][y]) + Layers(id, stackSize)[..0] == old(tileArray[x][y]);
      var i := 0;
      while i < stackSize
        invariant 0 <= i <= stackSize && Valid() && frogs == old(frogs)
        invariant gridArray == Put(old(gridArray), p, old(gridArray[x][y]) + Layers(id, stackSize)[..i])
        invariant tileArray == Put(old(tileArray), p, old(tileArray[x][y]) + Layers(id, stackSize)[..i])
      {
        var tile := Piece(id, true);
        var grape := Piece(id, true);
        if i < stackSize - 1 {
          tile := tile.(active := false);
          grape := grape.(active := false);
        }
        assert Layers(id, stackSize)[..i + 1] == Layers(id, stackSize)[..i] + [grape];
        assert old(gridArray[x][y]) + Layers(id, stackSize)[..i + 1] == old(gridArray[x][y]) + Layers(id, stackSize)[..i] + [grape];
        assert old(tileArray[x][y]) + Layers(id, stackSize)[..i + 1] == old(tileArray[x][y]) + Layers(id, stackSize)[..i] + [tile];
        PutPut(old(tileArray), p, old(tileArray[x][y]) + Layers(id, stackSize)[..i], old(tileArray[x][y]) + Layers(id, stackSize)[..i + 1]);
        PutPut(old(gridArray), p, old(gridArray[x][y]) + Layers(id, stackSize)[..i], old(gridArray[x][y]) + Layers(id, stackSize)[..i + 1]);
        tileArray := Put(tileArray, p, tileArray[x][y] + [tile]);
        gridArray := Put(gridArray, p, gridArray[x][y] + [grape]);
        i := i + 1;
      }
      assert Layers(id, stackSize)[..stackSize] == Layers(id, stackSize);
    }

    /** CollectGrapeAt: pops the top grape and the top tile together and shows the pair beneath. */
    method CollectGrapeAt(x: int, y: int)
      requires Valid() && In(Vec2(x, y))
      modifies this
      ensures Valid() && frogs == old(frogs)
      ensures var r := Collect(old(gridArray[x][y]), old(tileArray[x][y]));
        gridArray == Put(old(gridArray), Vec2(x, y), r.0) && tileArray == Put(old(tileArray), Vec2(x, y), r.1)
    {
      var p := Vec2(x, y);
      if |gridArray[x][y]| > 0 && |tileArray[x][y]| > 0 {
        var grapes := gridArray[x][y];
        gridArray := Put(gridArray, p, grapes[..|grapes| - 1]);
        var tiles := tileArray[x][y];
        tileArray := Put(tileArray, p, tiles[..|tiles| - 1]);
        if |gridArray[x][y]| > 0 && |tileArray[x][y]| > 0 {
          PutPut(old(gridArray), p, grapes[..|grapes| - 1], ActivateTop(gridArray[x][y]));
          PutPut(old(tileArray), p, tiles[..|tiles| - 1], ActivateTop(tileArray[x][y]));
          gridArray := Put(gridArray, p, ActivateTop(gridArray[x][y]));
          tileArray := Put(tileArray, p, ActivateTop(tileArray[x][y]));
        }
      } else {
        PutSame(gridArray, p);
        PutSame(tileArray, p);
      }
    }

    /**
     * SpawnGrapeAt: pushes a grape of the frog's colour on (x, z) unless the cell has no tile or a
     * frog stands there; frogCells are the cells the frogs' transforms currently round to.
     */
    method SpawnGrapeAt(x: int, z: int, frogColorID: int, frogCells: seq<Vec2>)
      requires Valid() && In(Vec2(x, z)) && |frogCells| == |frogs|
      modifies this
      ensures Valid() && frogs == old(frogs) && tileArray == old(tileArray)
      ensures |old(tileArray[x][z])| == 0 || Vec2(x, z) in frogCells ==> gridArray == old(gridArray)
      ensures |old(tileArray[x][z])| > 0 && Vec2(x, z) !in frogCells ==>
        gridArray == Put(old(gridArray), Vec2(x, z), ShowOnlyTop(old(gridArray[x][z]) + [Piece(frogColorID, true)]))
    {
      if |tileArray[x][z]| == 0 {
        return;
      }
      var k := 0;
      while k < |frogCells|
        invariant 0 <= k <= |frogCells|
        invariant Vec2(x, z) !in frogCells[..k]
      {
        if frogCells[k].x == x && frogCells[k].y == z {
          return;
        }
        assert frogCells[..k + 1] == frogCells[..k] + [frogCells[k]];
        k := k + 1;
      }
      assert frogCells[..k] == frogCells;
      ghost var g0 := gridArray;
      gridArray := Put(gridArray, Vec2(x, z), gridArray[x][z] + [Piece(frogColorID, true)]);
      HideAllButTopGrape(x, z);
      PutPut(g0, Vec2(x, z), g0[x][z] + [Piece(frogColorID, true)], ShowOnlyTop(g0[x][z] + [Piece(frogColorID, true)]));
    }

    /** HideAllButTopGrape: deactivates every grape on (x, z) except the top one, which it activates. */
    method HideAllButTopGrape(x: int, z: int)
      requires Valid() && In(Vec2(x, z)) && |gridArray[x][z]| > 0
      modifies this
      ensures Valid() && frogs == old(frogs) && tileArray == old(tileArray)
      ensures gridArray == Put(old(gridArray), Vec2(x, z), ShowOnlyTop(old(gridArray[x][z])))
    {
      var p := Vec2(x, z);
      ghost var s := gridArray[x][z];
      PutSame(gridArray, p);
      var i := 0;
      while i < |gridArray[x][z]| - 1
        invariant Valid() && frogs == old(frogs) && tileArray == old(tileArray)
        invariant |gridArray[x][z]| == |s| && 0 <= i <= |s| - 1
        invariant gridArray == Put(old(gridArray), p, gridArray[x][z])
        invariant forall k :: 0 <= k < i ==> gridArray[x][z][k] == s[k].(active := false)
        invariant forall k :: i <= k < |s| ==> gridArray[x][z][k] == s[k]
      {
        var cell := gridArray[x][z];
        PutPut(old(gridArray), p, cell, cell[i := cell[i].(active := false)]);
        gridArray := Put(gridArray, p, cell[i := cell[i].(active := false)]);
        i := i + 1;
      }
      var cell := gridArray[x][z];
      PutPut(old(gridArray), p, cell, cell[|cell| - 1 := cell[|cell| - 1].(active := true)]);
      gridArray := Put(gridArray, p, cell[|cell| - 1 := cell[|cell| - 1].(active := true)]);
      assert gridArray[x][z] == ShowOnlyTop(s);
    }
  }
}
