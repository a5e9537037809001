/**
 * The arrow rotation table, `Arrow.SetDirectionBasedOnRotation`: an arrow reads the yaw of its
 * transform (degrees about the vertical axis) and, for the four exact quarter turns, sets its grid
 * direction; any other yaw leaves the direction as it was.
 */
module ArrowDirectionModel {
  import opened Wrappers
  import opened Vectors

  /** The if-chain as a table: yaw 0 is left, 90 up, 180 right, 270 down, anything else no match. */
  function YawDirection(yaw: real): (r: Option<Vec2>)
    ensures r.Some? <==> yaw == 0.0 || yaw == 90.0 || yaw == 180.0 || yaw == 270.0
    ensures r.Some? ==> IsUnit(r.value)
  {
    if yaw == 0.0 then Some(Left)
    else if yaw == 90.0 then Some(Up)
    else if yaw == 180.0 then Some(Right)
    else if yaw == 270.0 then Some(Down)
    else None
  }

  /** The yaw that gives a unit direction: the inverse of the table. */
  function YawFor(d: Vec2): (r: real)
    requires IsUnit(d)
    ensures 0.0 <= r < 360.0
  {
    if d == Left then 0.0
    else if d == Up then 90.0
    else if d == Right then 180.0
    else 270.0
  }

  /** Every unit direction is reached by exactly one quarter turn, and the table maps it back. */
  lemma YawRoundTrip(d: Vec2, yaw: real)
    requires IsUnit(d)
    ensures YawDirection(YawFor(d)) == Some(d)
    ensures YawDirection(yaw) == Some(d) <==> yaw == YawFor(d)
  {
  }

  /** A unit direction has exactly one non-zero component, and that component is +1 or -1. */
  lemma UnitHasOneComponent(d: Vec2)
    ensures IsUnit(d) <==>
      (d.x == 0 && (d.y == 1 || d.y == -1)) || (d.y == 0 && (d.x == 1 || d.x == -1))
  {
  }

  /** A quarter turn of the yaw (clockwise seen from above) as a grid direction. */
  function QuarterTurn(d: Vec2): (r: Vec2)
    ensures IsUnit(d) ==> IsUnit(r) && r != d
  {
    Vec2(d.y, -d.x)
  }

  /** The table is consistent with rotation: adding 90 degrees (modulo 360) turns the direction a quarter. */
  lemma YawTurnsQuarter(yaw: real)
    requires YawDirection(yaw).Some?
    ensures var next := if yaw + 90.0 < 360.0 then yaw + 90.0 else yaw + 90.0 - 360.0;
      YawDirection(next) == Some(QuarterTurn(YawDirection(yaw).value))
  {
  }

  class Arrow {
    var direction: Vec2

    /** A freshly added arrow component has Unity's default Vector2Int, (0, 0). */
    constructor ()
      ensures direction == Vec2(0, 0)
    {
      direction := Vec2(0, 0);
    }

    /** SetDirectionBasedOnRotation: the table's direction for `yaw`, or the old direction when it has none. */
    method SetDirectionBasedOnRotation(yaw: real)
      modifies this
      ensures YawDirection(yaw).Some? ==> direction == YawDirection(yaw).value
      ensures YawDirection(yaw).None? ==> direction == old(direction)
    {
      if yaw == 0.0 {
        direction := Left;
      } else if yaw == 90.0 {
        direction := Up;
      } else if yaw == 180.0 {
        direction := Right;
      } else if yaw == 270.0 {
        direction := Down;
      }
    }

    /** Start: the arrow sets its direction from its yaw once. */
    method Start(yaw: real)
      modifies this
      ensures YawDirection(yaw).Some? ==> direction == YawDirection(yaw).value && IsUnit(direction)
      ensures YawDirection(yaw).None? ==> direction == old(direction)
    {
      SetDirectionBasedOnRotation(yaw);
    }
  }
}
