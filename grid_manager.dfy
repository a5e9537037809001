/**
 * The second grid store, `GridManager`: every cell below the frog row holds either one arrow or a
 * three-grape stack over three tiles; collecting pops the top item, and the store raises
 * OnGrapeCollected when a cell runs empty and OnFrogSpawned when a frog is respawned.
 */
module GridManagerModel {
  import opened Vectors
  import opened Lists
  import opened Grids

  /** An object in a cell's item list: a grape with its colour id, or an arrow with its direction. */
  datatype Item = Grape(colorId: int, active: bool) | Arrow(direction: Vec2, active: bool)

  /** A tile under a grape: the colour of its material and whether it is shown. */
  datatype Tile = Tile(colorId: int, active: bool)

  /** The notifications, in the order they were raised: OnGrapeCollected(x, y, id) and OnFrogSpawned(x, y, id). */
  datatype Event = GrapeCollected(x: int, y: int, colorId: int) | FrogSpawned(x: int, y: int, colorId: int)

  /** A frog as SpawnFrog creates it: its cell and its colour id. */
  datatype FrogSpawn = FrogSpawn(cell: Vec2, colorId: int)

  /**
   * What PlaceTilesAndGrapes draws for one cell: an arrow with the index of its direction, or a grape
   * stack with the colour id of every layer.
   */
  datatype CellChoice = ArrowChoice(directionIndex: int) | GrapeChoice(colorIds: seq<int>)

  /** PlaceTilesAndGrapes stacks three grapes on a grape cell. */
  const GrapeStackSize: nat := 3

  /** The colour id an arrow reports when it is collected. */
  const ArrowColorId: int := 0

  /** PlaceArrow's direction table: up, down, left, right. */
  const Directions: seq<Vec2> := [Up, Down, Left, Right]

  lemma DirectionsAreUnit()
    ensures forall d :: d in Directions <==> IsUnit(d)
  {
  }

  /** The colour id OnGrapeCollected reports for a collected item. */
  function ColorOf(it: Item): int {
    if it.Grape? then it.colorId else ArrowColorId
  }

  /** A draw the random calls can produce: a direction index in 0..3, or three colour ids in 1..colorCount. */
  predicate ValidChoice(c: CellChoice, colorCount: int) {
    match c
    case ArrowChoice(d) => 0 <= d < |Directions|
    case GrapeChoice(ids) => |ids| == GrapeStackSize && ValidColorIds(ids, colorCount)
  }

  predicate ValidColorIds(ids: seq<int>, colorCount: int) {
    forall i :: 0 <= i < |ids| ==> 1 <= ids[i] <= colorCount
  }

  /** The grapes StackTilesAndGrapes lays down for colour ids ids[0], ids[1], ...: only the top one active. */
  function GrapeLayers(ids: seq<int>): (r: seq<Item>)
    ensures |r| == |ids|
    ensures forall i :: 0 <= i < |ids| ==> r[i].Grape? && r[i].colorId == ids[i] && (r[i].active <==> i == |ids| - 1)
  {
    seq(|ids|, i requires 0 <= i < |ids| => Grape(ids[i], i == |ids| - 1))
  }

  /** The tiles under those grapes: the same colour ids and the same active flags. */
  function TileLayers(ids: seq<int>): (r: seq<Tile>)
    ensures |r| == |ids|
    ensures forall i :: 0 <= i < |ids| ==> r[i].colorId == ids[i] && (r[i].active <==> i == |ids| - 1)
  {
    seq(|ids|, i requires 0 <= i < |ids| => Tile(ids[i], i == |ids| - 1))
  }

  /** The items a cell receives for a draw: one arrow, or the grape layers. */
  function ItemsOf(c: CellChoice): seq<Item>
    requires c.ArrowChoice? ==> 0 <= c.directionIndex < |Directions|
  {
    match c
    case ArrowChoice(d) => [Arrow(Directions[d], true)]
    case GrapeChoice(ids) => GrapeLayers(ids)
  }

  /** The tiles a cell receives for a draw: none under an arrow. */
  function TilesOf(c: CellChoice): seq<Tile> {
    match c
    case ArrowChoice(_) => []
    case GrapeChoice(ids) => TileLayers(ids)
  }

  /** A cell that got an arrow: one active arrow pointing up, down, left or right, and no tile. */
  predicate ArrowCell(s: seq<Item>, t: seq<Tile>) {
    |s| == 1 && s[0].Arrow? && IsUnit(s[0].direction) && s[0].active && t == []
  }

  /**
   * A cell that got a grape stack: three grapes with colour ids in 1..colorCount over three tiles of
   * the same colours, only the top pair active.
   */
  predicate GrapeCell(s: seq<Item>, t: seq<Tile>, colorCount: int) {
    |s| == GrapeStackSize && |t| == |s| &&
    forall i :: 0 <= i < |s| ==>
      s[i].Grape? && 1 <= s[i].colorId <= colorCount && t[i].colorId == s[i].colorId &&
      (s[i].active <==> i == |s| - 1) && (t[i].active <==> i == |s| - 1)
  }

  /** Every draw fills an empty cell with exactly one arrow or exactly one grape stack, never both. */
  lemma ChoiceFillsCell(c: CellChoice, colorCount: int)
    requires ValidChoice(c, colorCount)
    ensures ArrowCell(ItemsOf(c), TilesOf(c)) <==> c.ArrowChoice?
    ensures GrapeCell(ItemsOf(c), TilesOf(c), colorCount) <==> c.GrapeChoice?
  {
    if c.ArrowChoice? {
      DirectionsAreUnit();
    }
  }

  /** The item lists of the draws, in order. */
  function ItemsOfAll(choices: seq<CellChoice>): (r: seq<seq<Item>>)
    requires forall k :: 0 <= k < |choices| ==> choices[k].ArrowChoice? ==> 0 <= choices[k].directionIndex < |Directions|
    ensures |r| == |choices| && forall k :: 0 <= k < |choices| ==> r[k] == ItemsOf(choices[k])
  {
    seq(|choices|, k requires 0 <= k < |choices| => ItemsOf(choices[k]))
  }

  /** The tile lists of the draws, in order. */
  function TilesOfAll(choices: seq<CellChoice>): (r: seq<seq<Tile>>)
    ensures |r| == |choices| && forall k :: 0 <= k < |choices| ==> r[k] == TilesOf(choices[k])
  {
    seq(|choices|, k requires 0 <= k < |choices| => TilesOf(choices[k]))
  }

  /** A cell's item list after CollectGrapeAt: the top item is gone and the one beneath is shown. */
  function AfterCollect(s: seq<Item>): (r: seq<Item>)
    requires |s| > 0
    ensures |r| == |s| - 1
    ensures forall i :: 0 <= i < |r| - 1 ==> r[i] == s[i]
    ensures |r| > 0 ==> r[|r| - 1] == s[|r| - 1].(active := true)
  {
    var rest := s[..|s| - 1];
    if |rest| > 0 then rest[|rest| - 1 := rest[|rest| - 1].(active := true)] else rest
  }

  /** Collecting undoes a push: the pushed item goes, and the old top comes back shown. */
  lemma CollectAfterPush(s: seq<Item>, it: Item)
    ensures |s| == 0 ==> AfterCollect(s + [it]) == []
    ensures |s| > 0 && s[|s| - 1].active ==> AfterCollect(s + [it]) == s
  {
    assert (s + [it])[..|s|] == s;
  }

  /** The items left on the board after CollectGrapeAt(p.x, p.y). */
  function CollectedItems(g: Grid<Item>, p: Vec2): (r: Grid<Item>)
    requires 0 <= p.x < |g| && 0 <= p.y < |g[p.x]|
    ensures |r| == |g| && forall x :: 0 <= x < |g| ==> |r[x]| == |g[x]|
    ensures |g[p.x][p.y]| == 0 ==> r == g
    ensures |g[p.x][p.y]| > 0 ==> |r[p.x][p.y]| == |g[p.x][p.y]| - 1
    ensures forall x, y :: 0 <= x < |g| && 0 <= y < |g[x]| && (x != p.x || y != p.y) ==> r[x][y] == g[x][y]
  {
    if |g[p.x][p.y]| > 0 then Put(g, p, AfterCollect(g[p.x][p.y])) else g
  }

  /** The notifications CollectGrapeAt(p.x, p.y) raises: one, with the last item's colour, when the cell runs empty. */
  function CollectedEvents(g: Grid<Item>, p: Vec2): (r: seq<Event>)
    requires 0 <= p.x < |g| && 0 <= p.y < |g[p.x]|
    ensures |r| <= 1
    ensures |r| == 1 <==> |g[p.x][p.y]| == 1
    ensures |r| == 1 ==> r[0] == GrapeCollected(p.x, p.y, ColorOf(g[p.x][p.y][0]))
  {
    if |g[p.x][p.y]| == 1 then [GrapeCollected(p.x, p.y, ColorOf(g[p.x][p.y][0]))] else []
  }

  /** Every arrow on the board points up, down, left or right. */
  ghost predicate ArrowsAreUnit(g: Grid<Item>) {
    forall x, z, i :: 0 <= x < |g| && 0 <= z < |g[x]| && 0 <= i < |g[x][z]| && g[x][z][i].Arrow? ==>
      IsUnit(g[x][z][i].direction)
  }

  /** Replacing one cell with a list of unit arrows keeps all arrows unit. */
  lemma PutKeepsUnitArrows(g: Grid<Item>, p: Vec2, v: seq<Item>)
    requires ArrowsAreUnit(g) && 0 <= p.x < |g| && 0 <= p.y < |g[p.x]|
    requires forall i :: 0 <= i < |v| && v[i].Arrow? ==> IsUnit(v[i].direction)
    ensures ArrowsAreUnit(Put(g, p, v))
  {
    var r: Grid<Item> := Put(g, p, v);
    forall x, z, i | 0 <= x < |r| && 0 <= z < |r[x]| && 0 <= i < |r[x][z]| && r[x][z][i].Arrow?
      ensures IsUnit(r[x][z][i].direction)
    {
      if x != p.x || z != p.y {
        assert r[x][z] == g[x][z];
      }
    }
  }

  /** Collecting keeps all arrows unit. */
  lemma CollectKeepsUnitArrows(g: Grid<Item>, p: Vec2)
    requires ArrowsAreUnit(g) && 0 <= p.x < |g| && 0 <= p.y < |g[p.x]|
    ensures ArrowsAreUnit(CollectedItems(g, p))
  {
    if |g[p.x][p.y]| > 0 {
      var s := g[p.x][p.y];
      var v := AfterCollect(s);
      forall i | 0 <= i < |v| && v[i].Arrow?
        ensures IsUnit(v[i].direction)
      {
        assert v[i].direction == s[i].direction;
      }
      PutKeepsUnitArrows(g, p, v);
    }
  }

  /**
   * The board Start deals: below the frog row every cell is an ArrowCell or a GrapeCell, and the frog
   * row holds nothing.
   */
  ghost predicate StartLayout(items: Grid<Item>, tiles: Grid<Tile>, w: nat, h: nat, colorCount: int) {
    IsGrid(items, w, h) && IsGrid(tiles, w, h) &&
    (forall x, z :: 0 <= x < w && 0 <= z < h - 1 ==>
      ArrowCell(items[x][z], tiles[x][z]) || GrapeCell(items[x][z], tiles[x][z], colorCount)) &&
    (forall x :: 0 <= x < w && h >= 1 ==> items[x][h - 1] == [] && tiles[x][h - 1] == [])
  }

  /** The draws for every available cell are ones the random calls can produce. */
  predicate ValidChoices(choices: seq<CellChoice>, n: int, colorCount: int) {
    |choices| == n && forall k :: 0 <= k < |choices| ==> ValidChoice(choices[k], colorCount)
  }

  /** PlaceTilesAndGrapes cell by cell: the k-th shuffled cell gets draw k on top of what it held, and the frog row is untouched. */
  lemma DealtAt(g: Grid<Item>, t: Grid<Tile>, w: nat, h: nat, picks: seq<int>, choices: seq<CellChoice>, colorCount: int, p: Vec2)
    requires ValidPicks(|RowMajor(w, h - 1)|, picks)
    requires ValidChoices(choices, |RowMajor(w, h - 1)|, colorCount)
    requires IsGrid(g, w, h) && IsGrid(t, w, h) && InBounds(w, h, p)
    ensures var cells := ShuffledCells(w, h - 1, picks);
      |cells| == |choices| &&
      (p.y == h - 1 ==>
        AppendAll(g, cells, ItemsOfAll(choices))[p.x][p.y] == g[p.x][p.y] &&
        AppendAll(t, cells, TilesOfAll(choices))[p.x][p.y] == t[p.x][p.y]) &&
      (p.y < h - 1 ==>
        (exists k :: 0 <= k < |cells| && cells[k] == p &&
          AppendAll(g, cells, ItemsOfAll(choices))[p.x][p.y] == g[p.x][p.y] + ItemsOf(choices[k]) &&
          AppendAll(t, cells, TilesOfAll(choices))[p.x][p.y] == t[p.x][p.y] + TilesOf(choices[k])))
  {
    var cells := ShuffledCells(w, h - 1, picks);
    ShuffledCellsExact(w, h - 1, picks);
    ShuffledPermutation(RowMajor(w, h - 1), picks, 0);
    DistinctNoDuplicates(cells);
    AppendAllAt(g, cells, ItemsOfAll(choices), p);
    AppendAllAt(t, cells, TilesOfAll(choices), p);
    if p.y < h - 1 {
      assert p in cells;
      var k :| 0 <= k < |cells| && cells[k] == p;
    }
  }

  /** PlaceTilesAndGrapes on an empty board deals the StartLayout. */
  lemma DealtOnEmpty(g: Grid<Item>, t: Grid<Tile>, w: nat, h: nat, picks: seq<int>, choices: seq<CellChoice>, colorCount: int)
    requires ValidPicks(|RowMajor(w, h - 1)|, picks)
    requires ValidChoices(choices, |RowMajor(w, h - 1)|, colorCount)
    requires IsGrid(g, w, h) && IsGrid(t, w, h)
    requires forall x, z :: 0 <= x < w && 0 <= z < h ==> g[x][z] == [] && t[x][z] == []
    ensures var cells := ShuffledCells(w, h - 1, picks);
      |cells| == |choices| &&
      StartLayout(AppendAll(g, cells, ItemsOfAll(choices)), AppendAll(t, cells, TilesOfAll(choices)), w, h, colorCount)
  {
    var cells := ShuffledCells(w, h - 1, picks);
    ShuffledPermutation(RowMajor(w, h - 1), picks, 0);
    var items, tiles := AppendAll(g, cells, ItemsOfAll(choices)), AppendAll(t, cells, TilesOfAll(choices));
    forall x, z | 0 <= x < w && 0 <= z < h
      ensures z < h - 1 ==> ArrowCell(items[x][z], tiles[x][z]) || GrapeCell(items[x][z], tiles[x][z], colorCount)
      ensures z == h - 1 ==> items[x][z] == [] && tiles[x][z] == []
    {
      DealtAt(g, t, w, h, picks, choices, colorCount, Vec2(x, z));
      if z < h - 1 {
        var k :| 0 <= k < |cells| && cells[k] == Vec2(x, z) &&
          items[x][z] == g[x][z] + ItemsOf(choices[k]) && tiles[x][z] == t[x][z] + TilesOf(choices[k]);
        assert items[x][z] == ItemsOf(choices[k]) && tiles[x][z] == TilesOf(choices[k]);
        ChoiceFillsCell(choices[k], colorCount);
      }
    }
  }

  /** Dealing one more draw: cell k gets draw k's items and tiles on top of the earlier deals. */
  lemma DealStep(g: Grid<Item>, t: Grid<Tile>, cells: seq<Vec2>, choices: seq<CellChoice>, k: nat)
    requires k < |cells| == |choices|
    requires forall k :: 0 <= k < |choices| ==> choices[k].ArrowChoice? ==> 0 <= choices[k].directionIndex < |Directions|
    ensures var prev := AppendAll(g, cells[..k], ItemsOfAll(choices[..k]));
      var c := cells[k];
      AppendAll(g, cells[..k + 1], ItemsOfAll(choices[..k + 1])) ==
        if 0 <= c.x < |prev| && 0 <= c.y < |prev[c.x]| then Put(prev, c, prev[c.x][c.y] + ItemsOf(choices[k])) else prev
    ensures var prev := AppendAll(t, cells[..k], TilesOfAll(choices[..k]));
      var c := cells[k];
      AppendAll(t, cells[..k + 1], TilesOfAll(choices[..k + 1])) ==
        if 0 <= c.x < |prev| && 0 <= c.y < |prev[c.x]| then Put(prev, c, prev[c.x][c.y] + TilesOf(choices[k])) else prev
  {
    assert cells[..k + 1] == cells[..k] + [cells[k]];
    assert ItemsOfAll(choices[..k + 1]) == ItemsOfAll(choices[..k]) + [ItemsOf(choices[k])];
    assert TilesOfAll(choices[..k + 1]) == TilesOfAll(choices[..k]) + [TilesOf(choices[k])];
    AppendAllSnoc(g, cells[..k], ItemsOfAll(choices[..k]), cells[k], ItemsOf(choices[k]));
    AppendAllSnoc(t, cells[..k], TilesOfAll(choices[..k]), cells[k], TilesOf(choices[k]));
  }

  /** The frogs SpawnInitialFrogs creates: frog i on (i, h - 1) with colour id i + 1. */
  function InitialFrogs(w: nat, h: nat): (r: seq<FrogSpawn>)
    ensures |r| == w && forall i :: 0 <= i < w ==> r[i] == FrogSpawn(Vec2(i, h - 1), i + 1)
  {
    seq(w, i => FrogSpawn(Vec2(i, h - 1), i + 1))
  }

  class GridManager {
    const gridWidth: nat
    const gridHeight: nat
    /** tileMaterials.Length: grape colour ids are drawn from 1..colorCount. */
    const colorCount: nat
    var gridArray: Grid<Item>
    var tileArray: Grid<Tile>
    var frogs: seq<FrogSpawn>
    var events: seq<Event>

    ghost predicate Valid()
      reads this
    {
      IsGrid(gridArray, gridWidth, gridHeight) && IsGrid(tileArray, gridWidth, gridHeight) &&
      ArrowsAreUnit(gridArray)
    }

    predicate In(p: Vec2) {
      InBounds(gridWidth, gridHeight, p)
    }

    constructor (width: nat, height: nat, colors: nat)
      ensures gridWidth == width && gridHeight == height && colorCount == colors
      ensures gridArray == [] && tileArray == [] && frogs == [] && events == []
    {
      gridWidth, gridHeight, colorCount := width, height, colors;
      gridArray, tileArray, frogs, events := [], [], [], [];
    }

    /**
     * Start: InitializeGrid, SpawnInitialFrogs, PlaceTilesAndGrapes (the shuffle draws are `picks`,
     * the per-cell draws `choices`). No notification is raised while dealing.
     */
    method Start(picks: seq<int>, choices: seq<CellChoice>)
      requires ValidPicks(|RowMajor(gridWidth, gridHeight - 1)|, picks)
      requires ValidChoices(choices, |RowMajor(gridWidth, gridHeight - 1)|, colorCount)
      modifies this
      ensures Valid() && events == old(events)
      ensures frogs == old(frogs) + InitialFrogs(gridWidth, gridHeight)
      ensures StartLayout(gridArray, tileArray, gridWidth, gridHeight, colorCount)
    {
      InitializeGrid();
      SpawnInitialFrogs();
      ghost var g0, t0 := gridArray, tileArray;
      PlaceTilesAndGrapes(picks, choices);
      DealtOnEmpty(g0, t0, gridWidth, gridHeight, picks, choices, colorCount);
    }

    /** InitializeGrid: an empty item list and an empty tile list in every cell. */
    method InitializeGrid()
      modifies this
      ensures Valid() && frogs == old(frogs) && events == old(events)
      ensures forall x, z :: 0 <= x < gridWidth && 0 <= z < gridHeight ==>
        gridArray[x][z] == [] && tileArray[x][z] == []
    {
      gridArray := EmptyLists(gridWidth, gridHeight);
      tileArray := EmptyLists(gridWidth, gridHeight);
    }

    /** SpawnInitialFrogs: one frog per column on the top row, colour ids 1, 2, ... from the left. */
    method SpawnInitialFrogs()
      modifies this
      ensures gridArray == old(gridArray) && tileArray == old(tileArray) && events == old(events)
      ensures frogs == old(frogs) + InitialFrogs(gridWidth, gridHeight)
    {
      var i := 0;
      while i < gridWidth
        invariant 0 <= i <= gridWidth
        invariant gridArray == old(gridArray) && tileArray == old(tileArray) && events == old(events)
        invariant frogs == old(frogs) + InitialFrogs(i, gridHeight)
      {
        assert InitialFrogs(i + 1, gridHeight) == InitialFrogs(i, gridHeight) + [FrogSpawn(Vec2(i, gridHeight - 1), i + 1)];
        SpawnFrog(Vec2(i, gridHeight - 1), i + 1);
        i := i + 1;
      }
    }

    /** SpawnFrog: a frog of colour id colorID on `cell`. */
    method SpawnFrog(cell: Vec2, colorID: int)
      modifies this
      ensures frogs == old(frogs) + [FrogSpawn(cell, colorID)]
      ensures gridArray == old(gridArray) && tileArray == old(tileArray) && events == old(events)
    {
      frogs := frogs + [FrogSpawn(cell, colorID)];
    }

    /**
     * GetAvailablePositions: every cell below the frog row, each exactly once, in the order ShuffleList
     * leaves them for the draws `picks`.
     */
    method GetAvailablePositions(picks: seq<int>) returns (available: seq<Vec2>)
      requires ValidPicks(|RowMajor(gridWidth, gridHeight - 1)|, picks)
      ensures available == ShuffledCells(gridWidth, gridHeight - 1, picks)
      ensures forall p :: p in available <==> InBounds(gridWidth, gridHeight - 1, p)
      ensures NoDuplicates(available)
    {
      ShuffledCellsExact(gridWidth, gridHeight - 1, picks);
      DistinctNoDuplicates(ShuffledCells(gridWidth, gridHeight - 1, picks));
      available := CollectPositions(gridWidth, gridHeight - 1);
      available := ShuffleList(available, picks);
    }

    /** PlaceTilesAndGrapes: the k-th available cell gets an arrow or a grape stack, as draw k says. */
    method PlaceTilesAndGrapes(picks: seq<int>, choices: seq<CellChoice>)
      requires Valid()
      requires ValidPicks(|RowMajor(gridWidth, gridHeight - 1)|, picks)
      requires ValidChoices(choices, |RowMajor(gridWidth, gridHeight - 1)|, colorCount)
      modifies this
      ensures Valid() && frogs == old(frogs) && events == old(events)
      ensures var cells := ShuffledCells(gridWidth, gridHeight - 1, picks);
        |cells| == |choices| &&
        gridArray == AppendAll(old(gridArray), cells, ItemsOfAll(choices)) &&
        tileArray == AppendAll(old(tileArray), cells, TilesOfAll(choices))
    {
      ShuffledPermutation(RowMajor(gridWidth, gridHeight - 1), picks, 0);
      var available := GetAvailablePositions(picks);
      forall j | 0 <= j < |available|
        ensures In(available[j])
      {
        assert available[j] in available;
      }
      DealCells(available, choices);
    }

    /** The loop of PlaceTilesAndGrapes: draw k is dealt onto available[k], for k = 0, 1, ... */
    method DealCells(available: seq<Vec2>, choices: seq<CellChoice>)
      requires Valid() && forall j :: 0 <= j < |available| ==> In(available[j])
      requires ValidChoices(choices, |available|, colorCount)
      modifies this
      ensures Valid() && frogs == old(frogs) && events == old(events)
      ensures gridArray == AppendAll(old(gridArray), available, ItemsOfAll(choices))
      ensures tileArray == AppendAll(old(tileArray), available, TilesOfAll(choices))
    {
      var k := 0;
      while k < |available|
        invariant 0 <= k <= |available| && Valid() && frogs == old(frogs) && events == old(events)
        invariant gridArray == AppendAll(old(gridArray), available[..k], ItemsOfAll(choices[..k]))
        invariant tileArray == AppendAll(old(tileArray), available[..k], TilesOfAll(choices[..k]))
      {
        DealStep(old(gridArray), old(tileArray), available, choices, k);
        DealCell(available[k], choices[k]);
        k := k + 1;
      }
      assert available[..k] == available && choices[..k] == choices;
    }

    /** One pass of PlaceTilesAndGrapes' loop: PlaceArrow or StackTilesAndGrapes, as the draw says. */
    method DealCell(pos: Vec2, choice: CellChoice)
      requires Valid() && In(pos) && ValidChoice(choice, colorCount)
      modifies this
      ensures Valid() && frogs == old(frogs) && events == old(events)
      ensures gridArray == Put(old(gridArray), pos, old(gridArray[pos.x][pos.y]) + ItemsOf(choice))
      ensures tileArray == Put(old(tileArray), pos, old(tileArray[pos.x][pos.y]) + TilesOf(choice))
    {
      match choice {
        case ArrowChoice(d) =>
          PutSame(old(tileArray), pos);
          assert old(tileArray[pos.x][pos.y]) + TilesOf(choice) == old(tileArray[pos.x][pos.y]);
          PlaceArrow(pos.x, pos.y, d);
        case GrapeChoice(ids) =>
          StackTilesAndGrapes(pos.x, pos.y, GrapeStackSize, ids);
      }
    }

    /** StackTilesAndGrapes: stackSize tiles and grapes on (x, y), layer i of colour id colorIds[i], only the top pair active. */
    method StackTilesAndGrapes(x: int, y: int, stackSize: nat, colorIds: seq<int>)
      requires Valid() && In(Vec2(x, y))
      requires |colorIds| == stackSize && ValidColorIds(colorIds, colorCount)
      modifies this
      ensures Valid() && frogs == old(frogs) && events == old(events)
      ensures gridArray == Put(old(gridArray), Vec2(x, y), old(gridArray[x][y]) + GrapeLayers(colorIds))
      ensures tileArray == Put(old(tileArray), Vec2(x, y), old(tileArray[x][y]) + TileLayers(colorIds))
    {
      var p := Vec2(x, y);
      ghost var g0, t0 := old(gridArray[x][y]), old(tileArray[x][y]);
      PutSame(gridArray, p);
      PutSame(tileArray, p);
      assert g0 + GrapeLayers(colorIds)[..0] == g0;
      assert t0 + TileLayers(colorIds)[..0] == t0;
      var i := 0;
      while i < stackSize
        invariant 0 <= i <= stackSize && Valid() && frogs == old(frogs) && events == old(events)
        invariant gridArray == Put(old(gridArray), p, g0 + GrapeLayers(colorIds)[..i])
        invariant tileArray == Put(old(tileArray), p, t0 + TileLayers(colorIds)[..i])
      {
        var colorID := colorIds[i];
        var tile := Tile(colorID, i == stackSize - 1);
        var grape := Grape(colorID, i == stackSize - 1);
        assert GrapeLayers(colorIds)[..i + 1] == GrapeLayers(colorIds)[..i] + [grape];
        assert TileLayers(colorIds)[..i + 1] == TileLayers(colorIds)[..i] + [tile];
        assert g0 + GrapeLayers(colorIds)[..i + 1] == g0 + GrapeLayers(colorIds)[..i] + [grape];
        assert t0 + TileLayers(colorIds)[..i + 1] == t0 + TileLayers(colorIds)[..i] + [tile];
        PutPut(old(tileArray), p, t0 + TileLayers(colorIds)[..i], t0 + TileLayers(colorIds)[..i + 1]);
        PutPut(old(gridArray), p, g0 + GrapeLayers(colorIds)[..i], g0 + GrapeLayers(colorIds)[..i + 1]);
        PutKeepsUnitArrows(gridArray, p, gridArray[x][y] + [grape]);
        tileArray := Put(tileArray, p, tileArray[x][y] + [tile]);
        gridArray := Put(gridArray, p, gridArray[x][y] + [grape]);
        i := i + 1;
      }
      assert GrapeLayers(colorIds)[..stackSize] == GrapeLayers(colorIds);
      assert TileLayers(colorIds)[..stackSize] == TileLayers(colorIds);
    }

    /** PlaceArrow: one active arrow pointing Directions[directionIndex] on (x, y); the tiles are left alone. */
    method PlaceArrow(x: int, y: int, directionIndex: int)
      requires Valid() && In(Vec2(x, y)) && 0 <= directionIndex < |Directions|
      modifies this
      ensures Valid() && frogs == old(frogs) && events == old(events) && tileArray == old(tileArray)
      ensures gridArray == Put(old(gridArray), Vec2(x, y), old(gridArray[x][y]) + [Arrow(Directions[directionIndex], true)])
    {
      var direction := Directions[directionIndex];
      var arrow := Arrow(direction, true);
      DirectionsAreUnit();
      PutKeepsUnitArrows(gridArray, Vec2(x, y), gridArray[x][y] + [arrow]);
      gridArray := Put(gridArray, Vec2(x, y), gridArray[x][y] + [arrow]);
    }

    /**
     * CollectGrapeAt: pops the top item, grape or arrow, and shows the one beneath; when the cell runs
     * empty it raises OnGrapeCollected with the popped item's colour. An empty cell is left alone.
     */
    method CollectGrapeAt(x: int, y: int)
      requires Valid() && In(Vec2(x, y))
      modifies this
      ensures Valid() && frogs == old(frogs) && tileArray == old(tileArray)
      ensures gridArray == CollectedItems(old(gridArray), Vec2(x, y))
      ensures events == old(events) + CollectedEvents(old(gridArray), Vec2(x, y))
    {
      var p := Vec2(x, y);
      CollectKeepsUnitArrows(gridArray, p);
      if |gridArray[x][y]| > 0 {
        var items := gridArray[x][y];
        var topGrape := items[|items| - 1];
        var collectedColorID := ColorOf(topGrape);
        gridArray := Put(gridArray, p, items[..|items| - 1]);
        if |gridArray[x][y]| > 0 {
          var rest := gridArray[x][y];
          PutPut(old(gridArray), p, rest, rest[|rest| - 1 := rest[|rest| - 1].(active := true)]);
          gridArray := Put(gridArray, p, rest[|rest| - 1 := rest[|rest| - 1].(active := true)]);
        } else {
          events := events + [GrapeCollected(x, y, collectedColorID)];
        }
      }
    }

    /** SpawnFrogAt: clears the cell's items (its tiles stay), creates a frog there and raises OnFrogSpawned. */
    method SpawnFrogAt(x: int, y: int, frogColorID: int)
      requires Valid() && In(Vec2(x, y))
      modifies this
      ensures Valid() && tileArray == old(tileArray)
      ensures gridArray == Put(old(gridArray), Vec2(x, y), [])
      ensures frogs == old(frogs) + [FrogSpawn(Vec2(x, y), frogColorID)]
      ensures events == old(events) + [FrogSpawned(x, y, frogColorID)]
    {
      RemoveAllGrapesAt(x, y);
      SpawnFrog(Vec2(x, y), frogColorID);
      events := events + [FrogSpawned(x, y, frogColorID)];
    }

    /** RemoveAllGrapesAt: the cell's item list is emptied; nothing else changes. */
    method RemoveAllGrapesAt(x: int, y: int)
      requires Valid() && In(Vec2(x, y))
      modifies this
      ensures Valid() && tileArray == old(tileArray) && frogs == old(frogs) && events == old(events)
      ensures gridArray == Put(old(gridArray), Vec2(x, y), [])
    {
      PutKeepsUnitArrows(gridArray, Vec2(x, y), []);
      gridArray := Put(gridArray, Vec2(x, y), []);
    }
  }
}
