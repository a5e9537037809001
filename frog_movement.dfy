/**
 * The first frog traversal rule, `FrogMovement`: a frog on the SimpleGrid board walks to an
 * orthogonal neighbour whose top grape has its colour, collects that grape on arrival, and looks
 * again from there.
 */
module FrogMovementModel {
  import opened Wrappers
  import opened Vectors
  import opened Grids
  import opened SimpleGridModel

  /** CheckAndMoveToSameColoredGrape's test: p is on the board and its top grape has colour `color`. */
  predicate Matches(g: Grid<Piece>, p: Vec2, color: int)
    ensures Matches(g, p, color) ==> 0 <= p.x < |g| && 0 <= p.y < |g[p.x]|
  {
    0 <= p.x < |g| && 0 <= p.y < |g[p.x]| && |g[p.x][p.y]| > 0 &&
    g[p.x][p.y][|g[p.x][p.y]| - 1].colorId == color
  }

  /** The cells MoveToMatchingGrape probes from (x, z), in priority order. */
  function ProbeOrder(c: Vec2): (r: seq<Vec2>)
    ensures |r| == 4
    ensures forall i :: 0 <= i < 4 ==> Adjacent(c, r[i])
    ensures forall i, j :: 0 <= i < j < 4 ==> r[i] != r[j]
  {
    [Vec2(c.x, c.y - 1), Vec2(c.x, c.y + 1), Vec2(c.x - 1, c.y), Vec2(c.x + 1, c.y)]
  }

  /** The index of the first candidate that matches, if any: the probe that wins. */
  function FirstMatch(g: Grid<Piece>, cands: seq<Vec2>, color: int): (r: Option<nat>)
    ensures r.Some? ==> r.value < |cands| && Matches(g, cands[r.value], color)
    ensures r.Some? ==> forall j :: 0 <= j < r.value ==> !Matches(g, cands[j], color)
    ensures r.None? <==> forall j :: 0 <= j < |cands| ==> !Matches(g, cands[j], color)
  {
    if |cands| == 0 then None
    else if Matches(g, cands[0], color) then Some(0)
    else
      match FirstMatch(g, cands[1..], color)
      case None => None
      case Some(i) => Some(i + 1)
  }

  /** The cell MoveToMatchingGrape commits to from c, if any: always a neighbour holding a matching grape. */
  function NextCell(g: Grid<Piece>, c: Vec2, color: int): (r: Option<Vec2>)
    ensures r.Some? ==> Adjacent(c, r.value) && Matches(g, r.value, color)
    ensures r.None? <==> forall i :: 0 <= i < 4 ==> !Matches(g, ProbeOrder(c)[i], color)
  {
    match FirstMatch(g, ProbeOrder(c), color)
    case None => None
    case Some(i) => Some(ProbeOrder(c)[i])
  }

  class FrogMovement {
    const grid: SimpleGrid
    const frogColorID: int
    /** The cell the frog's transform rounds to. */
    var position: Vec2
    var targetPosition: Vec2
    var isMoving: bool

    /** A moving frog is headed for a cell of the board. */
    ghost predicate Valid()
      reads this, grid
    {
      grid.Valid() && (isMoving ==> grid.In(targetPosition))
    }

    /** Start: the frog stands still, with its own cell as the target. */
    constructor (board: SimpleGrid, cell: Vec2, colorId: int)
      requires board.Valid()
      ensures grid == board && frogColorID == colorId
      ensures position == cell && targetPosition == cell && !isMoving
      ensures Valid()
    {
      grid := board;
      frogColorID := colorId;
      position := cell;
      targetPosition := cell;
      isMoving := false;
    }

    /** CheckAndMoveToSameColoredGrape: commits to (x, z) exactly when its top grape has the frog's colour. */
    method CheckAndMoveToSameColoredGrape(x: int, z: int) returns (moved: bool)
      requires Valid()
      modifies this
      ensures Valid()
      ensures moved <==> Matches(grid.gridArray, Vec2(x, z), frogColorID)
      ensures moved ==> targetPosition == Vec2(x, z) && isMoving
      ensures !moved ==> targetPosition == old(targetPosition) && isMoving == old(isMoving)
      ensures position == old(position)
    {
      moved := false;
      if x >= 0 && x < |grid.gridArray| && z >= 0 && z < |grid.gridArray[x]| {
        if |grid.gridArray[x][z]| > 0 {
          var targetGrape := grid.gridArray[x][z][|grid.gridArray[x][z]| - 1];
          if targetGrape.colorId == frogColorID {
            targetPosition := Vec2(x, z);
            isMoving := true;
            moved := true;
          }
        }
      }
    }

    /** MoveToMatchingGrape: the first matching cell in ProbeOrder wins; with none the frog stops. */
    method MoveToMatchingGrape(x: int, z: int)
      requires Valid()
      modifies this
      ensures Valid() && position == old(position)
      ensures var next := NextCell(grid.gridArray, Vec2(x, z), frogColorID);
        (next.Some? ==> isMoving && targetPosition == next.value) &&
        (next.None? ==> !isMoving && targetPosition == old(targetPosition))
    {
      ghost var g, cands := grid.gridArray, ProbeOrder(Vec2(x, z));
      var moved := CheckAndMoveToSameColoredGrape(x, z - 1);
      if moved {
        return;
      }
      moved := CheckAndMoveToSameColoredGrape(x, z + 1);
      if moved {
        assert FirstMatch(g, cands[1..], frogColorID) == Some(0);
        return;
      }
      moved := CheckAndMoveToSameColoredGrape(x - 1, z);
      if moved {
        assert FirstMatch(g, cands[2..], frogColorID) == Some(0);
        assert FirstMatch(g, cands[1..], frogColorID) == Some(1) by {
          assert cands[1..][1..] == cands[2..];
        }
        return;
      }
      moved := CheckAndMoveToSameColoredGrape(x + 1, z);
      if moved {
        assert FirstMatch(g, cands[3..], frogColorID) == Some(0);
        assert FirstMatch(g, cands[2..], frogColorID) == Some(1) by {
          assert cands[2..][1..] == cands[3..];
        }
        assert FirstMatch(g, cands[1..], frogColorID) == Some(2) by {
          assert cands[1..][1..] == cands[2..];
        }
        return;
      }
      isMoving := false;
    }

    /** OnFrogClicked: ignored while moving; otherwise probes around the frog's cell. */
    method OnFrogClicked()
      requires Valid()
      modifies this
      ensures Valid() && position == old(position)
      ensures old(isMoving) ==> isMoving && targetPosition == old(targetPosition)
      ensures !old(isMoving) ==> var next := NextCell(grid.gridArray, position, frogColorID);
        (next.Some? ==> isMoving && targetPosition == next.value) &&
        (next.None? ==> !isMoving && targetPosition == old(targetPosition))
    {
      if !isMoving {
        MoveToMatchingGrape(position.x, position.y);
      }
    }

    /**
     * The arrival branch of Update: the frog stops on its target, collects the grape there once,
     * and probes again from that cell on the board as the collection left it.
     */
    method Arrive()
      requires Valid() && isMoving
      modifies this, grid
      ensures Valid() && position == old(targetPosition)
      ensures var p := old(targetPosition);
        var r := Collect(old(grid.gridArray[p.x][p.y]), old(grid.tileArray[p.x][p.y]));
        grid.gridArray == Put(old(grid.gridArray), p, r.0) && grid.tileArray == Put(old(grid.tileArray), p, r.1)
      ensures grid.frogs == old(grid.frogs)
      ensures var next := NextCell(grid.gridArray, position, frogColorID);
        (next.Some? ==> isMoving && targetPosition == next.value) &&
        (next.None? ==> !isMoving && targetPosition == old(targetPosition))
    {
      position := targetPosition;
      isMoving := false;
      grid.CollectGrapeAt(position.x, position.y);
      MoveToMatchingGrape(position.x, position.y);
    }
  }
}
