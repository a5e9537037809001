/** Unity's Vector2Int, used for grid cells (x, z) and for unit step directions. */
module Vectors {
  datatype Vec2 = Vec2(x: int, y: int) {
    /** The cell one step along `d` from this cell. */
    function Plus(d: Vec2): Vec2 { Vec2(x + d.x, y + d.y) }
  }

  const Up := Vec2(0, 1)
  const Down := Vec2(0, -1)
  const Left := Vec2(-1, 0)
  const Right := Vec2(1, 0)

  /** One of the four orthogonal unit steps: exactly one component is +1 or -1. */
  predicate IsUnit(d: Vec2) {
    d == Up || d == Down || d == Left || d == Right
  }

  /** Two cells that share an edge. */
  predicate Adjacent(a: Vec2, b: Vec2) {
    (a.x == b.x && (a.y - b.y == 1 || b.y - a.y == 1)) ||
    (a.y == b.y && (a.x - b.x == 1 || b.x - a.x == 1))
  }
}
