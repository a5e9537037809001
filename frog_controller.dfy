/**
 * The second frog traversal rule, `FrogController`: a frog on the GridManager board keeps a facing
 * direction, steps into the cell ahead when it holds an arrow or a top grape of its colour, turns
 * along the arrows of its own cell when it cannot, and on arrival collects, records the cell in its
 * route and either moves on or finalises, leaving a new frog of its colour on one route cell.
 */
module FrogControllerModel {
  import opened Wrappers
  import opened Vectors
  import opened Grids
  import opened GridManagerModel

  /** What CheckAndMoveToGrape finds in a cell: nothing to move to, an arrow to follow, or a matching grape. */
  datatype Probe = Reject | ToArrow(direction: Vec2) | ToGrape

  /** The index of the first arrow in a cell's item list, if any. */
  function FirstArrow(s: seq<Item>): (r: Option<nat>)
    ensures r.Some? ==> r.value < |s| && s[r.value].Arrow?
  {
    if |s| == 0 then None
    else if s[0].Arrow? then Some(0)
    else
      match FirstArrow(s[1..])
      case None => None
      case Some(i) => Some(i + 1)
  }

  /** FirstArrow finds the arrow of lowest index, and finds none only in a list without arrows. */
  lemma {:induction false} FirstArrowMeaning(s: seq<Item>)
    ensures var r := FirstArrow(s);
      r.Some? ==> forall j :: 0 <= j < r.value ==> !s[j].Arrow?
    ensures FirstArrow(s).None? <==> forall j :: 0 <= j < |s| ==> !s[j].Arrow?
  {
    if |s| > 0 && !s[0].Arrow? {
      FirstArrowMeaning(s[1..]);
      assert forall j :: 1 <= j < |s| ==> s[j] == s[1..][j - 1];
    }
  }

  /**
   * CheckAndMoveToGrape's verdict on cell c: off the board nothing; an arrow anywhere in the list wins
   * whatever its colour, the first one giving the new direction; otherwise the top item must be a
   * grape of the frog's colour.
   */
  function ProbeAt(g: Grid<Item>, c: Vec2, color: int): (r: Probe)
    ensures r != Reject ==> 0 <= c.x < |g| && 0 <= c.y < |g[c.x]|
    ensures r == ToGrape ==>
      |g[c.x][c.y]| > 0 && g[c.x][c.y][|g[c.x][c.y]| - 1].Grape? && g[c.x][c.y][|g[c.x][c.y]| - 1].colorId == color
  {
    if 0 <= c.x < |g| && 0 <= c.y < |g[c.x]| then
      var s := g[c.x][c.y];
      match FirstArrow(s)
      case Some(i) => ToArrow(s[i].direction)
      case None =>
        if |s| > 0 && s[|s| - 1].Grape? && s[|s| - 1].colorId == color then ToGrape else Reject
    else Reject
  }

  /**
   * ProbeAt accepts only cells of the board; an arrow verdict carries the direction of an arrow in the
   * cell, and a grape verdict means the cell holds no arrow and its top grape has the frog's colour.
   */
  lemma ProbeAtMeaning(g: Grid<Item>, c: Vec2, color: int)
    ensures var r := ProbeAt(g, c, color);
      r != Reject ==> 0 <= c.x < |g| && 0 <= c.y < |g[c.x]|
    ensures var r := ProbeAt(g, c, color);
      r.ToArrow? ==> exists i :: 0 <= i < |g[c.x][c.y]| && g[c.x][c.y][i] == Arrow(r.direction, g[c.x][c.y][i].active)
    ensures var r := ProbeAt(g, c, color);
      r == ToGrape ==>
        (forall i :: 0 <= i < |g[c.x][c.y]| ==> !g[c.x][c.y][i].Arrow?) &&
        |g[c.x][c.y]| > 0 && g[c.x][c.y][|g[c.x][c.y]| - 1].colorId == color
  {
    if 0 <= c.x < |g| && 0 <= c.y < |g[c.x]| {
      FirstArrowMeaning(g[c.x][c.y]);
    }
  }

  /** An arrow anywhere in a cell of the board makes the probe accept, whatever the colour, along the cell's first arrow. */
  lemma ProbeAtArrowAccepted(g: Grid<Item>, c: Vec2, color: int, i: int)
    requires 0 <= c.x < |g| && 0 <= c.y < |g[c.x]|
    requires 0 <= i < |g[c.x][c.y]| && g[c.x][c.y][i].Arrow?
    ensures FirstArrow(g[c.x][c.y]).Some? && FirstArrow(g[c.x][c.y]).value <= i
    ensures ProbeAt(g, c, color) == ToArrow(g[c.x][c.y][FirstArrow(g[c.x][c.y]).value].direction)
    ensures (forall j :: 0 <= j < i ==> !g[c.x][c.y][j].Arrow?) ==>
      ProbeAt(g, c, color) == ToArrow(g[c.x][c.y][i].direction)
  {
    FirstArrowMeaning(g[c.x][c.y]);
  }

  /** A cell of the board without arrows whose top grape has the frog's colour is accepted as a grape move. */
  lemma ProbeAtGrapeAccepted(g: Grid<Item>, c: Vec2, color: int)
    requires 0 <= c.x < |g| && 0 <= c.y < |g[c.x]|
    requires forall j :: 0 <= j < |g[c.x][c.y]| ==> !g[c.x][c.y][j].Arrow?
    requires |g[c.x][c.y]| > 0 && g[c.x][c.y][|g[c.x][c.y]| - 1].colorId == color
    ensures ProbeAt(g, c, color) == ToGrape
  {
    FirstArrowMeaning(g[c.x][c.y]);
  }

  /** The directions of the arrows in a cell's item list, in list order. */
  function ArrowDirs(s: seq<Item>): (r: seq<Vec2>)
    ensures |r| <= |s|
    decreases |s|
  {
    if |s| == 0 then []
    else
      var n := |s| - 1;
      ArrowDirs(s[..n]) + (if s[n].Arrow? then [s[n].direction] else [])
  }

  lemma {:induction false} ArrowDirsAppend(a: seq<Item>, b: seq<Item>)
    ensures ArrowDirs(a + b) == ArrowDirs(a) + ArrowDirs(b)
    decreases |b|
  {
    if |b| > 0 {
      var n := |b| - 1;
      assert (a + b)[..|a| + n] == a + b[..n];
      ArrowDirsAppend(a, b[..n]);
    } else {
      assert a + b == a;
    }
  }

  /** Every direction the list yields is the direction of one of its arrows. */
  lemma {:induction false} ArrowDirsFromArrows(s: seq<Item>)
    ensures forall d :: d in ArrowDirs(s) ==> exists i :: 0 <= i < |s| && s[i].Arrow? && s[i].direction == d
    decreases |s|
  {
    if |s| > 0 {
      var n := |s| - 1;
      ArrowDirsFromArrows(s[..n]);
      forall d | d in ArrowDirs(s)
        ensures exists i :: 0 <= i < |s| && s[i].Arrow? && s[i].direction == d
      {
        if d in ArrowDirs(s[..n]) {
          var i :| 0 <= i < n && s[..n][i].Arrow? && s[..n][i].direction == d;
          assert s[i] == s[..n][i];
        } else {
          assert s[n].Arrow? && s[n].direction == d;
        }
      }
    }
  }

  /** The directions in `dirs` are tried in order from `cur`: the index of the first one CheckAndMoveToGrape accepts. */
  function FirstAccepting(g: Grid<Item>, cur: Vec2, dirs: seq<Vec2>, color: int): (r: Option<nat>)
    ensures r.Some? ==> r.value < |dirs|
  {
    if |dirs| == 0 then None
    else if ProbeAt(g, cur.Plus(dirs[0]), color) != Reject then Some(0)
    else
      match FirstAccepting(g, cur, dirs[1..], color)
      case None => None
      case Some(i) => Some(i + 1)
  }

  /** FirstAccepting finds the first direction CheckAndMoveToGrape accepts, and none only when every direction is rejected. */
  lemma {:induction false} FirstAcceptingMeaning(g: Grid<Item>, cur: Vec2, dirs: seq<Vec2>, color: int)
    ensures var r := FirstAccepting(g, cur, dirs, color);
      r.Some? ==>
        (ProbeAt(g, cur.Plus(dirs[r.value]), color) != Reject &&
         forall j :: 0 <= j < r.value ==> ProbeAt(g, cur.Plus(dirs[j]), color) == Reject)
    ensures FirstAccepting(g, cur, dirs, color).None? <==>
      forall j :: 0 <= j < |dirs| ==> ProbeAt(g, cur.Plus(dirs[j]), color) == Reject
  {
    if |dirs| > 0 && ProbeAt(g, cur.Plus(dirs[0]), color) == Reject {
      FirstAcceptingMeaning(g, cur, dirs[1..], color);
      assert forall j :: 1 <= j < |dirs| ==> dirs[j] == dirs[1..][j - 1];
    }
  }

  /** The facing after CheckAndMoveToGrape accepted a cell while facing d: an arrow there turns the frog. */
  function FacingAfter(p: Probe, d: Vec2): Vec2 {
    if p.ToArrow? then p.direction else d
  }

  /** The directions TryMoveToMatchingGrape has tried once it has passed the first i items of its cell. */
  function Tried(facing: Vec2, s: seq<Item>, i: nat): seq<Vec2>
    requires i <= |s|
  {
    [facing] + ArrowDirs(s[..i])
  }

  /** What TryMoveToMatchingGrape ends with: a committed target and the facing then, or a failure and the facing left behind. */
  datatype Attempt = Accept(target: Vec2, facing: Vec2) | Fail(facing: Vec2)

  /**
   * TryMoveToMatchingGrape from cur: first the current facing, then the direction of each arrow on
   * cur in list order; the first accepted step wins, and an arrow in the accepted cell turns the frog.
   */
  function TryMove(g: Grid<Item>, cur: Vec2, facing: Vec2, color: int): (r: Attempt)
    requires 0 <= cur.x < |g| && 0 <= cur.y < |g[cur.x]|
    ensures r.Accept? ==>
      r.target == cur.Plus(facing) || exists d :: d in ArrowDirs(g[cur.x][cur.y]) && r.target == cur.Plus(d)
    ensures r.Fail? ==> r.facing == facing || r.facing in ArrowDirs(g[cur.x][cur.y])
  {
    var dirs := [facing] + ArrowDirs(g[cur.x][cur.y]);
    match FirstAccepting(g, cur, dirs, color)
    case None => Fail(dirs[|dirs| - 1])
    case Some(i) =>
      var t := cur.Plus(dirs[i]);
      Accept(t, FacingAfter(ProbeAt(g, t, color), dirs[i]))
  }

  /** The cell ahead is probed first: when it accepts, the frog goes there and the arrows under it are not consulted. */
  lemma TryMoveAheadFirst(g: Grid<Item>, cur: Vec2, facing: Vec2, color: int)
    requires 0 <= cur.x < |g| && 0 <= cur.y < |g[cur.x]|
    ensures ProbeAt(g, cur.Plus(facing), color) != Reject ==>
      TryMove(g, cur, facing, color) == Accept(cur.Plus(facing), FacingAfter(ProbeAt(g, cur.Plus(facing), color), facing))
  {
    var dirs := [facing] + ArrowDirs(g[cur.x][cur.y]);
    if ProbeAt(g, cur.Plus(facing), color) != Reject {
      assert FirstAccepting(g, cur, dirs, color) == Some(0);
    }
  }

  /** With a unit facing on a board whose arrows are unit, every direction TryMove tries is a unit step. */
  lemma TriedDirsUnit(g: Grid<Item>, cur: Vec2, facing: Vec2)
    requires 0 <= cur.x < |g| && 0 <= cur.y < |g[cur.x]|
    requires IsUnit(facing) && ArrowsAreUnit(g)
    ensures forall j :: 0 <= j < 1 + |ArrowDirs(g[cur.x][cur.y])| ==> IsUnit(([facing] + ArrowDirs(g[cur.x][cur.y]))[j])
  {
    var s := g[cur.x][cur.y];
    var dirs := [facing] + ArrowDirs(s);
    ArrowDirsFromArrows(s);
    forall j | 0 <= j < |dirs|
      ensures IsUnit(dirs[j])
    {
      if j > 0 {
        assert dirs[j] in ArrowDirs(s);
        var i :| 0 <= i < |s| && s[i].Arrow? && s[i].direction == dirs[j];
      }
    }
  }

  /** On a board whose arrows are unit, an arrow that turns the frog turns it onto a unit step. */
  lemma ProbeArrowUnit(g: Grid<Item>, c: Vec2, color: int)
    requires ArrowsAreUnit(g)
    ensures ProbeAt(g, c, color).ToArrow? ==> IsUnit(ProbeAt(g, c, color).direction)
  {
    var p := ProbeAt(g, c, color);
    ProbeAtMeaning(g, c, color);
    if p.ToArrow? {
      var i :| 0 <= i < |g[c.x][c.y]| && g[c.x][c.y][i] == Arrow(p.direction, g[c.x][c.y][i].active);
    }
  }

  /**
   * With a unit facing on a board whose arrows are unit, a committed target is always an orthogonal
   * neighbour that CheckAndMoveToGrape accepts, and the facing stays a unit step.
   */
  lemma TryMoveAccepted(g: Grid<Item>, cur: Vec2, facing: Vec2, color: int)
    requires 0 <= cur.x < |g| && 0 <= cur.y < |g[cur.x]|
    requires IsUnit(facing) && ArrowsAreUnit(g)
    ensures var r := TryMove(g, cur, facing, color);
      IsUnit(r.facing) &&
      (r.Accept? ==> Adjacent(cur, r.target) && ProbeAt(g, r.target, color) != Reject)
  {
    var dirs := [facing] + ArrowDirs(g[cur.x][cur.y]);
    TriedDirsUnit(g, cur, facing);
    assert forall j :: 0 <= j < |dirs| ==> IsUnit(dirs[j]);
    var r := FirstAccepting(g, cur, dirs, color);
    FirstAcceptingMeaning(g, cur, dirs, color);
    if r.Some? {
      var i := r.value;
      assert IsUnit(dirs[i]);
      ProbeArrowUnit(g, cur.Plus(dirs[i]), color);
    } else {
      assert IsUnit(dirs[|dirs| - 1]);
    }
  }

  /**
   * TryMove fails exactly when the cell ahead and the cell along every arrow of the current cell are
   * all rejected, and then the frog is left facing along the last of those arrows.
   */
  lemma TryMoveFails(g: Grid<Item>, cur: Vec2, facing: Vec2, color: int)
    requires 0 <= cur.x < |g| && 0 <= cur.y < |g[cur.x]|
    ensures var r := TryMove(g, cur, facing, color);
      r.Fail? <==>
        ProbeAt(g, cur.Plus(facing), color) == Reject &&
        forall d :: d in ArrowDirs(g[cur.x][cur.y]) ==> ProbeAt(g, cur.Plus(d), color) == Reject
    ensures var r := TryMove(g, cur, facing, color);
      var ds := ArrowDirs(g[cur.x][cur.y]);
      r.Fail? ==> r.facing == if |ds| == 0 then facing else ds[|ds| - 1]
  {
    var ds := ArrowDirs(g[cur.x][cur.y]);
    var dirs := [facing] + ds;
    FirstAcceptingMeaning(g, cur, dirs, color);
    if FirstAccepting(g, cur, dirs, color).None? {
      assert dirs[0] == facing;
      forall d | d in ds
        ensures ProbeAt(g, cur.Plus(d), color) == Reject
      {
        var j :| 0 <= j < |ds| && ds[j] == d;
        assert dirs[j + 1] == d;
      }
    } else if ProbeAt(g, cur.Plus(facing), color) == Reject {
      var k := FirstAccepting(g, cur, dirs, color).value;
      assert k > 0 && dirs[k] in ds;
    }
  }

  /** Trying a list that starts with rejected directions: the first acceptance, if any, comes from the rest. */
  lemma {:induction false} FirstAcceptingAfter(g: Grid<Item>, cur: Vec2, a: seq<Vec2>, b: seq<Vec2>, color: int)
    requires FirstAccepting(g, cur, a, color).None?
    ensures FirstAccepting(g, cur, b, color).None? ==> FirstAccepting(g, cur, a + b, color).None?
    ensures FirstAccepting(g, cur, b, color).Some? ==>
      FirstAccepting(g, cur, a + b, color) == Some(|a| + FirstAccepting(g, cur, b, color).value)
    decreases |a|
  {
    if |a| == 0 {
      assert a + b == b;
    } else {
      assert (a + b)[0] == a[0];
      assert (a + b)[1..] == a[1..] + b;
      FirstAcceptingAfter(g, cur, a[1..], b, color);
    }
  }

  /** One more item of the cell passed without an acceptance: an arrow adds its direction to the tried list. */
  lemma TriedStep(g: Grid<Item>, cur: Vec2, facing: Vec2, s: seq<Item>, i: nat, color: int)
    requires i < |s| && FirstAccepting(g, cur, Tried(facing, s, i), color).None?
    ensures !s[i].Arrow? ==> Tried(facing, s, i + 1) == Tried(facing, s, i)
    ensures s[i].Arrow? ==> Tried(facing, s, i + 1) == Tried(facing, s, i) + [s[i].direction]
    ensures s[i].Arrow? && ProbeAt(g, cur.Plus(s[i].direction), color) == Reject ==>
      FirstAccepting(g, cur, Tried(facing, s, i + 1), color).None?
  {
    assert s[..i + 1][..i] == s[..i];
    if s[i].Arrow? {
      var d := s[i].direction;
      assert Tried(facing, s, i + 1) == Tried(facing, s, i) + [d];
      if ProbeAt(g, cur.Plus(d), color) == Reject {
        assert FirstAccepting(g, cur, [d], color).None? by {
          assert [d][0] == d;
        }
        FirstAcceptingAfter(g, cur, Tried(facing, s, i), [d], color);
      }
    }
  }

  /** The i-th item of the cell is the first arrow whose direction is accepted: TryMove commits along it. */
  lemma TryMoveViaArrow(g: Grid<Item>, cur: Vec2, facing: Vec2, i: nat, color: int)
    requires 0 <= cur.x < |g| && 0 <= cur.y < |g[cur.x]|
    requires i < |g[cur.x][cur.y]| && g[cur.x][cur.y][i].Arrow?
    requires FirstAccepting(g, cur, Tried(facing, g[cur.x][cur.y], i), color).None?
    requires ProbeAt(g, cur.Plus(g[cur.x][cur.y][i].direction), color) != Reject
    ensures var d := g[cur.x][cur.y][i].direction;
      TryMove(g, cur, facing, color) == Accept(cur.Plus(d), FacingAfter(ProbeAt(g, cur.Plus(d), color), d))
  {
    var s := g[cur.x][cur.y];
    var d := s[i].direction;
    var tried := Tried(facing, s, i);
    TriedStep(g, cur, facing, s, i, color);
    assert s == s[..i + 1] + s[i + 1..];
    ArrowDirsAppend(s[..i + 1], s[i + 1..]);
    var dirs := [facing] + ArrowDirs(s);
    assert dirs == Tried(facing, s, i + 1) + ArrowDirs(s[i + 1..]);
    assert dirs == tried + ([d] + ArrowDirs(s[i + 1..]));
    assert FirstAccepting(g, cur, [d] + ArrowDirs(s[i + 1..]), color) == Some(0);
    FirstAcceptingAfter(g, cur, tried, [d] + ArrowDirs(s[i + 1..]), color);
    assert dirs[|tried|] == d;
  }

  /** No tried direction was accepted after the whole cell: TryMove fails, facing along the last one tried. */
  lemma TryMoveAllRejected(g: Grid<Item>, cur: Vec2, facing: Vec2, color: int)
    requires 0 <= cur.x < |g| && 0 <= cur.y < |g[cur.x]|
    requires FirstAccepting(g, cur, Tried(facing, g[cur.x][cur.y], |g[cur.x][cur.y]|), color).None?
    ensures var tried := Tried(facing, g[cur.x][cur.y], |g[cur.x][cur.y]|);
      TryMove(g, cur, facing, color) == Fail(tried[|tried| - 1])
  {
    var s := g[cur.x][cur.y];
    assert s[..|s|] == s;
  }

  class FrogController {
    const gridManager: GridManager
    const frogColorID: int
    /** The cell the frog's transform rounds to. */
    var position: Vec2
    var targetPosition: Vec2
    var movementRoute: seq<Vec2>
    var isMoving: bool
    var lastTilePosition: Vec2
    var facingDirection: Vec2
    /** Set by FinalizeMovement's Destroy(gameObject). */
    var destroyed: bool

    /** The frog stands on the board, faces a unit step, and heads for and remembers only cells of the board. */
    ghost predicate Valid()
      reads this, gridManager
    {
      gridManager.Valid() && gridManager.In(position) && IsUnit(facingDirection) &&
      (isMoving ==> gridManager.In(targetPosition)) &&
      forall k :: 0 <= k < |movementRoute| ==> gridManager.In(movementRoute[k])
    }

    /** Initialize: the frog faces down, has an empty route, targets its own cell and is not moving. */
    constructor (board: GridManager, cell: Vec2, colorId: int)
      requires board.Valid() && board.In(cell)
      ensures gridManager == board && frogColorID == colorId
      ensures position == cell && targetPosition == cell && !isMoving && !destroyed
      ensures facingDirection == Down && movementRoute == [] && lastTilePosition == Vec2(0, 0)
      ensures Valid()
    {
      gridManager := board;
      frogColorID := colorId;
      position := cell;
      targetPosition := cell;
      movementRoute := [];
      isMoving := false;
      lastTilePosition := Vec2(0, 0);
      facingDirection := Down;
      destroyed := false;
    }

    /**
     * CheckAndMoveToGrape: commits to (x, z) exactly when ProbeAt accepts it; an arrow there also
     * turns the frog. A rejected cell changes nothing.
     */
    method CheckAndMoveToGrape(x: int, z: int) returns (moved: bool)
      requires Valid()
      modifies this
      ensures Valid()
      ensures position == old(position) && movementRoute == old(movementRoute)
      ensures lastTilePosition == old(lastTilePosition) && destroyed == old(destroyed)
      ensures var p := ProbeAt(gridManager.gridArray, Vec2(x, z), frogColorID);
        (moved <==> p != Reject) &&
        (p == Reject ==>
          facingDirection == old(facingDirection) && targetPosition == old(targetPosition) && isMoving == old(isMoving)) &&
        (p != Reject ==> targetPosition == Vec2(x, z) && isMoving) &&
        facingDirection == FacingAfter(p, old(facingDirection))
    {
      moved := false;
      var g: Grid<Item> := gridManager.gridArray;
      if x >= 0 && x < |g| && z >= 0 && z < |g[x]| {
        var items := g[x][z];
        FirstArrowMeaning(items);
        var i := 0;
        while i < |items|
          invariant 0 <= i <= |items|
          invariant forall j :: 0 <= j < i ==> !items[j].Arrow?
        {
          if items[i].Arrow? {
            assert FirstArrow(items) == Some(i);
            facingDirection := items[i].direction;
            targetPosition := Vec2(x, z);
            isMoving := true;
            moved := true;
            return;
          }
          i := i + 1;
        }
        if |items| > 0 {
          var targetGrape := items[|items| - 1];
          if targetGrape.Grape? && targetGrape.colorId == frogColorID {
            targetPosition := Vec2(x, z);
            isMoving := true;
            moved := true;
          }
        }
      }
    }

    /**
     * TryMoveToMatchingGrape: probes the cell ahead, then turns along each arrow of (x, z) in list
     * order and probes again; the outcome and the facing it leaves are those of TryMove.
     */
    method TryMoveToMatchingGrape(x: int, z: int) returns (moved: bool)
      requires Valid() && gridManager.In(Vec2(x, z))
      modifies this
      ensures Valid()
      ensures position == old(position) && movementRoute == old(movementRoute)
      ensures lastTilePosition == old(lastTilePosition) && destroyed == old(destroyed)
      ensures var r := TryMove(gridManager.gridArray, Vec2(x, z), old(facingDirection), frogColorID);
        moved == r.Accept? && facingDirection == r.facing &&
        (r.Accept? ==> isMoving && targetPosition == r.target) &&
        (r.Fail? ==> isMoving == old(isMoving) && targetPosition == old(targetPosition))
    {
      ghost var g, cur, f0 := gridManager.gridArray, Vec2(x, z), facingDirection;
      var items: seq<Item> := gridManager.gridArray[x][z];
      TryMoveAheadFirst(g, cur, f0, frogColorID);
      var newX := x + facingDirection.x;
      var newZ := z + facingDirection.y;
      moved := CheckAndMoveToGrape(newX, newZ);
      if moved {
        return;
      }
      assert FirstAccepting(g, cur, Tried(f0, items, 0), frogColorID).None? by {
        assert Tried(f0, items, 0) == [f0];
      }
      moved := TurnAlongArrows(x, z);
    }

    /** The loop of TryMoveToMatchingGrape, after the cell ahead was rejected: each arrow of (x, z) in turn. */
    method TurnAlongArrows(x: int, z: int) returns (moved: bool)
      requires Valid() && gridManager.In(Vec2(x, z))
      requires FirstAccepting(gridManager.gridArray, Vec2(x, z), Tried(facingDirection, gridManager.gridArray[x][z], 0), frogColorID).None?
      modifies this
      ensures Valid()
      ensures position == old(position) && movementRoute == old(movementRoute)
      ensures lastTilePosition == old(lastTilePosition) && destroyed == old(destroyed)
      ensures var r := TryMove(gridManager.gridArray, Vec2(x, z), old(facingDirection), frogColorID);
        moved == r.Accept? && facingDirection == r.facing &&
        (r.Accept? ==> isMoving && targetPosition == r.target) &&
        (r.Fail? ==> isMoving == old(isMoving) && targetPosition == old(targetPosition))
    {
      ghost var g, cur, f0 := gridManager.gridArray, Vec2(x, z), facingDirection;
      var items: seq<Item> := gridManager.gridArray[x][z];
      moved := false;
      var i := 0;
      while i < |items|
        invariant 0 <= i <= |items| && Valid() && !moved && gridManager.gridArray == g
        invariant position == old(position) && movementRoute == old(movementRoute)
        invariant lastTilePosition == old(lastTilePosition) && destroyed == old(destroyed)
        invariant isMoving == old(isMoving) && targetPosition == old(targetPosition)
        invariant FirstAccepting(g, cur, Tried(f0, items, i), frogColorID).None?
        invariant facingDirection == Tried(f0, items, i)[|Tried(f0, items, i)| - 1]
      {
        moved := TurnAt(x, z, i, f0);
        if moved {
          return;
        }
        i := i + 1;
      }
      TryMoveAllRejected(g, cur, f0, frogColorID);
    }

    /** One pass of the arrow loop: item i of (x, z), if it is an arrow, turns the frog and is probed. */
    method TurnAt(x: int, z: int, i: nat, ghost f0: Vec2) returns (moved: bool)
      requires Valid() && gridManager.In(Vec2(x, z)) && i < |gridManager.gridArray[x][z]|
      requires var tried := Tried(f0, gridManager.gridArray[x][z], i);
        FirstAccepting(gridManager.gridArray, Vec2(x, z), tried, frogColorID).None? &&
        facingDirection == tried[|tried| - 1]
      modifies this
      ensures Valid()
      ensures position == old(position) && movementRoute == old(movementRoute)
      ensures lastTilePosition == old(lastTilePosition) && destroyed == old(destroyed)
      ensures moved ==>
        isMoving && TryMove(gridManager.gridArray, Vec2(x, z), f0, frogColorID) == Accept(targetPosition, facingDirection)
      ensures !moved ==>
        var tried := Tried(f0, gridManager.gridArray[x][z], i + 1);
        FirstAccepting(gridManager.gridArray, Vec2(x, z), tried, frogColorID).None? &&
        facingDirection == tried[|tried| - 1] &&
        isMoving == old(isMoving) && targetPosition == old(targetPosition)
    {
      ghost var g: Grid<Item>, cur := gridManager.gridArray, Vec2(x, z);
      var items: seq<Item> := gridManager.gridArray[x][z];
      TriedStep(g, cur, f0, items, i, frogColorID);
      moved := false;
      if items[i].Arrow? {
        assert IsUnit(items[i].direction);
        facingDirection := items[i].direction;
        var newX := x + facingDirection.x;
        var newZ := z + facingDirection.y;
        moved := CheckAndMoveToGrape(newX, newZ);
        if moved {
          TryMoveViaArrow(g, cur, f0, i, frogColorID);
        }
      }
    }

    /** OnFrogClicked: ignored while moving; otherwise TryMoveToMatchingGrape from the frog's cell. It never records a route cell or finalises. */
    method OnFrogClicked()
      requires Valid()
      modifies this
      ensures Valid()
      ensures position == old(position) && movementRoute == old(movementRoute)
      ensures lastTilePosition == old(lastTilePosition) && destroyed == old(destroyed)
      ensures old(isMoving) ==>
        isMoving && targetPosition == old(targetPosition) && facingDirection == old(facingDirection)
      ensures !old(isMoving) ==>
        var r := TryMove(gridManager.gridArray, position, old(facingDirection), frogColorID);
        facingDirection == r.facing &&
        (r.Accept? ==> isMoving && targetPosition == r.target) &&
        (r.Fail? ==> !isMoving && targetPosition == old(targetPosition))
    {
      if !isMoving {
        var _ := TryMoveToMatchingGrape(position.x, position.y);
      }
    }

    /**
     * FinalizeMovement: with a non-empty route, GridManager.SpawnFrogAt on route cell `pick` with the
     * frog's colour; then the frog is destroyed.
     */
    method FinalizeMovement(pick: int)
      requires Valid() && (|movementRoute| > 0 ==> 0 <= pick < |movementRoute|)
      modifies this, gridManager
      ensures Valid() && destroyed
      ensures position == old(position) && movementRoute == old(movementRoute) && isMoving == old(isMoving)
      ensures targetPosition == old(targetPosition) && facingDirection == old(facingDirection)
      ensures lastTilePosition == old(lastTilePosition)
      ensures gridManager.tileArray == old(gridManager.tileArray)
      ensures |movementRoute| == 0 ==>
        gridManager.gridArray == old(gridManager.gridArray) && gridManager.frogs == old(gridManager.frogs) &&
        gridManager.events == old(gridManager.events)
      ensures |movementRoute| > 0 ==>
        var c := movementRoute[pick];
        gridManager.gridArray == Put(old(gridManager.gridArray), c, []) &&
        gridManager.frogs == old(gridManager.frogs) + [FrogSpawn(c, frogColorID)] &&
        gridManager.events == old(gridManager.events) + [FrogSpawned(c.x, c.y, frogColorID)]
    {
      if |movementRoute| > 0 {
        var spawnPosition := movementRoute[pick];
        gridManager.SpawnFrogAt(spawnPosition.x, spawnPosition.y, frogColorID);
      }
      destroyed := true;
    }

    /**
     * The arrival branch of MoveFrog: the frog stops on its target, collects there once, appends the
     * cell to its route, and moves on as TryMove says on the board the collection left; when it
     * cannot, it finalises with the route-cell draw `pick`.
     */
    method Arrive(pick: int)
      requires Valid() && isMoving
      requires 0 <= pick <= |movementRoute|
      modifies this, gridManager
      ensures Valid()
      ensures position == old(targetPosition) && lastTilePosition == position
      ensures movementRoute == old(movementRoute) + [position]
      ensures gridManager.tileArray == old(gridManager.tileArray)
      ensures var p := old(targetPosition);
        var g1 := CollectedItems(old(gridManager.gridArray), p);
        var e1 := old(gridManager.events) + CollectedEvents(old(gridManager.gridArray), p);
        var r := TryMove(g1, p, old(facingDirection), frogColorID);
        facingDirection == r.facing &&
        (r.Accept? ==>
          isMoving && targetPosition == r.target && destroyed == old(destroyed) &&
          gridManager.gridArray == g1 && gridManager.frogs == old(gridManager.frogs) && gridManager.events == e1) &&
        (r.Fail? ==>
          !isMoving && targetPosition == p && destroyed &&
          gridManager.gridArray == Put(g1, movementRoute[pick], []) &&
          gridManager.frogs == old(gridManager.frogs) + [FrogSpawn(movementRoute[pick], frogColorID)] &&
          gridManager.events == e1 + [FrogSpawned(movementRoute[pick].x, movementRoute[pick].y, frogColorID)])
    {
      position := targetPosition;
      isMoving := false;
      var x := position.x;
      var z := position.y;
      gridManager.CollectGrapeAt(x, z);
      lastTilePosition := Vec2(x, z);
      movementRoute := movementRoute + [lastTilePosition];
      var moved := TryMoveToMatchingGrape(x, z);
      if !moved {
        FinalizeMovement(pick);
      }
    }
  }
}
