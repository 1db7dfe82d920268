/** Grid geometry of the snake game: an n-by-n torus of cells.
    A coordinate is a pair of integers, used both for cells (head, body
    segments, food) and for the direction vector the head moves by. */
module Grid {

  datatype Coord = Coord(x: int, y: int)

  /** The cell lies on the n-by-n grid. */
  predicate InGrid(c: Coord, n: int) {
    0 <= c.x < n && 0 <= c.y < n
  }

  predicate AllInGrid(cs: seq<Coord>, n: int) {
    forall i :: 0 <= i < |cs| ==> InGrid(cs[i], n)
  }

  /** The neutral vector (not moving yet) and the four unit headings. */
  const Still := Coord(0, 0)
  const North := Coord(0, -1)
  const South := Coord(0, 1)
  const West := Coord(-1, 0)
  const East := Coord(1, 0)

  /** A vector the direction field can hold. */
  predicate IsDirection(d: Coord) {
    d in {Still, North, South, West, East}
  }

  function Opposite(d: Coord): Coord {
    Coord(-d.x, -d.y)
  }

  /** One axis of the head update: the sum taken modulo n, where, as in
      Python, the result lies in [0, n) for a positive n. A coordinate that
      steps one past either edge comes back on the other side. */
  function WrapAxis(a: int, da: int, n: int): (r: int)
    requires n > 0
    ensures 0 <= r < n
    ensures 0 <= a < n && -1 <= da <= 1 ==>
      r == (if a + da == n then 0 else if a + da == -1 then n - 1 else a + da)
  {
    (a + da) % n
  }

  /** The head update of one tick: advance c by d on the torus. */
  function Move(c: Coord, d: Coord, n: int): (r: Coord)
    requires n > 0
    ensures InGrid(r, n)
    ensures d == Still ==> (InGrid(c, n) <==> r == c)
  {
    Coord(WrapAxis(c.x, d.x, n), WrapAxis(c.y, d.y, n))
  }
}
