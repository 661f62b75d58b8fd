/** Grid points and headings: a pair of Rust `i32`s with component-wise addition. */
module Coords {

  const I32_MIN: int := -0x8000_0000
  const I32_MAX: int := 0x7FFF_FFFF

  /** A Rust `i32`. */
  type Int32 = n: int | -0x8000_0000 <= n <= 0x7FFF_FFFF

  /** A cell of the screen, or a heading. Signed, so that one step off an edge can be
      represented before it is wrapped back onto the grid. */
  datatype Coord = Coord(x: Int32, y: Int32)

  /** `Coord::new`: the fields are taken unchanged. */
  function New(x: Int32, y: Int32): (c: Coord)
    ensures c.x == x && c.y == y
  {
    Coord(x, y)
  }

  /** `From<(i32, i32)> for Coord`, which delegates to `Coord::new`. */
  function FromPair(p: (Int32, Int32)): (c: Coord)
    ensures c.x == p.0 && c.y == p.1
    ensures c == New(p.0, p.1)
  {
    New(p.0, p.1)
  }

  /** Both component sums fit in an `i32`; Rust's checked addition panics otherwise. */
  predicate AddFits(a: Coord, b: Coord) {
    I32_MIN <= a.x + b.x <= I32_MAX && I32_MIN <= a.y + b.y <= I32_MAX
  }

  /** `impl Add for Coord`: component-wise sum. */
  function Add(a: Coord, b: Coord): (r: Coord)
    requires AddFits(a, b)
    ensures r.x == a.x + b.x && r.y == a.y + b.y
  {
    Coord(a.x + b.x, a.y + b.y)
  }

  lemma AddCommutative(a: Coord, b: Coord)
    requires AddFits(a, b)
    ensures AddFits(b, a) && Add(a, b) == Add(b, a)
  {
  }

  lemma AddIdentity(a: Coord)
    ensures AddFits(a, Coord(0, 0)) && Add(a, Coord(0, 0)) == a && Add(Coord(0, 0), a) == a
  {
  }

  /** A non-negative point strictly below `i32::MAX` plus a step of at most one in each
      component never overflows, so a head on the grid can always be moved. */
  lemma StepFits(a: Coord, d: Coord)
    requires 0 <= a.x < I32_MAX && 0 <= a.y < I32_MAX
    requires -1 <= d.x <= 1 && -1 <= d.y <= 1
    ensures AddFits(a, d)
    ensures a.x - 1 <= Add(a, d).x <= a.x + 1 && a.y - 1 <= Add(a, d).y <= a.y + 1
  {
  }
}
