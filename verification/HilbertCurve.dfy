/** The order in which libdither/image_dither.cpp visits the cells of a block: the
    four tables of s_hilbert_curve list the Hilbert curve of level four in four
    orientations. Its properties hold at every level.
 */
module HilbertCurve {
  import opened Bits

  datatype Point = Point(x: int, y: int)

  function Area(n: nat): (a: nat)
    ensures a > 0
  {
    if n == 0 then 1 else 4 * Area(n - 1)
  }

  /** A square of level n has side 2^n. */
  predicate InSquare(n: nat, p: Point) { 0 <= p.x < Power(n) && 0 <= p.y < Power(n) }

  /** A curve for squares of side s, put into quarter q of the square twice as wide. */
  function Into(q: nat, s: nat, p: Point): Point {
    if q == 0 then Point(p.y, p.x)
    else if q == 1 then Point(p.x, p.y + s)
    else if q == 2 then Point(p.x + s, p.y + s)
    else Point(2 * s - 1 - p.y, s - 1 - p.x)
  }

  function OutOf(q: nat, s: nat, p: Point): Point {
    if q == 0 then Point(p.y, p.x)
    else if q == 1 then Point(p.x, p.y - s)
    else if q == 2 then Point(p.x - s, p.y - s)
    else Point(s - 1 - p.y, 2 * s - 1 - p.x)
  }

  function QuarterOfIndex(i: nat, a: nat): (q: nat)
    ensures q < 4
  {
    if i < a then 0 else if i < 2 * a then 1 else if i < 3 * a then 2 else 3
  }

  function QuarterOfPoint(p: Point, s: nat): (q: nat)
    ensures q < 4
  {
    if p.x < s then if p.y < s then 0 else 1 else if p.y < s then 3 else 2
  }

  /** Where quarter q starts along the curve. */
  function Start(q: nat, a: nat): nat { if q == 0 then 0 else if q == 1 then a else if q == 2 then 2 * a else 3 * a }

  /** The i-th point of the Hilbert curve of level n. */
  function Hilbert(n: nat, i: nat): (p: Point)
    requires i < Area(n)
    ensures InSquare(n, p)
    decreases n
  {
    if n == 0 then Point(0, 0)
    else
      var a := Area(n - 1);
      var q := QuarterOfIndex(i, a);
      Into(q, Power(n - 1), Hilbert(n - 1, i - Start(q, a)))
  }

  function Index(n: nat, p: Point): (i: nat)
    requires InSquare(n, p)
    ensures i < Area(n)
    decreases n
  {
    if n == 0 then 0
    else
      var s := Power(n - 1);
      var q := QuarterOfPoint(p, s);
      Start(q, Area(n - 1)) + Index(n - 1, OutOf(q, s, p))
  }

  // -------------------------------------------------------- it visits each cell once

  lemma {:induction false} IntoOutOf(n: nat, q: nat, p: Point)
    requires q < 4 && InSquare(n, p)
    ensures QuarterOfPoint(Into(q, Power(n), p), Power(n)) == q && OutOf(q, Power(n), Into(q, Power(n), p)) == p
  {
  }

  lemma {:induction false} OutOfInto(n: nat, p: Point)
    requires InSquare(n + 1, p)
    ensures var q := QuarterOfPoint(p, Power(n));
            InSquare(n, OutOf(q, Power(n), p)) && Into(q, Power(n), OutOf(q, Power(n), p)) == p
  {
  }

  /** For every level: the index of the i-th point is i ... */
  lemma {:induction false} IndexOfHilbert(n: nat, i: nat)
    requires i < Area(n)
    ensures Index(n, Hilbert(n, i)) == i
    decreases n
  {
    if n > 0 {
      var a := Area(n - 1);
      var q := QuarterOfIndex(i, a);
      IndexOfHilbert(n - 1, i - Start(q, a));
      IntoOutOf(n - 1, q, Hilbert(n - 1, i - Start(q, a)));
    }
  }

  /** ... and the point at the index of p is p. */
  lemma {:induction false} HilbertOfIndex(n: nat, p: Point)
    requires InSquare(n, p)
    ensures Hilbert(n, Index(n, p)) == p
    decreases n
  {
    if n > 0 {
      var s, a := Power(n - 1), Area(n - 1);
      var q := QuarterOfPoint(p, s);
      var inner := OutOf(q, s, p);
      OutOfInto(n - 1, p);
      HilbertOfIndex(n - 1, inner);
      QuarterOfSum(q, a, Index(n - 1, inner));
    }
  }

  lemma {:induction false} QuarterOfSum(q: nat, a: nat, r: nat)
    requires q < 4 && r < a
    ensures QuarterOfIndex(Start(q, a) + r, a) == q && Start(q, a) + r < 4 * a
  {
  }

  predicate Neighbours(p: Point, q: Point) {
    (p.x == q.x && (p.y == q.y + 1 || q.y == p.y + 1)) || (p.y == q.y && (p.x == q.x + 1 || q.x == p.x + 1))
  }

  lemma {:induction false} Ends(n: nat)
    ensures Hilbert(n, 0) == Point(0, 0) && Hilbert(n, Area(n) - 1) == Point(Power(n) - 1, 0)
    decreases n
  {
    if n > 0 {
      Ends(n - 1);
    }
  }

  lemma {:induction false} WithinQuarter(n: nat, i: nat, q: nat, r: nat)
    requires q < 4 && r < Area(n) && i == Start(q, Area(n)) + r
    ensures i < Area(n + 1) && Hilbert(n + 1, i) == Into(q, Power(n), Hilbert(n, r))
  {
    QuarterOfSum(q, Area(n), r);
  }

  lemma {:induction false} SameQuarter(q: nat, s: nat, a: Point, b: Point)
    requires Neighbours(a, b)
    ensures Neighbours(Into(q, s, a), Into(q, s, b))
  {
  }

  lemma {:induction false} NextQuarter(q: nat, s: nat)
    requires q < 3 && s > 0
    ensures Neighbours(Into(q, s, Point(s - 1, 0)), Into(q + 1, s, Point(0, 0)))
  {
  }

  /** The curve never jumps. */
  lemma {:induction false} Unbroken(n: nat, i: nat)
    requires i + 1 < Area(n)
    ensures Neighbours(Hilbert(n, i), Hilbert(n, i + 1))
    decreases n
  {
    hide Hilbert, Into, Neighbours;
    if n > 0 {
      var a, s := Area(n - 1), Power(n - 1);
      var q := QuarterOfIndex(i, a);
      var r := i - Start(q, a);
      WithinQuarter(n - 1, i, q, r);
      if r + 1 < a {
        WithinQuarter(n - 1, i + 1, q, r + 1);
        Unbroken(n - 1, r);
        SameQuarter(q, s, Hilbert(n - 1, r), Hilbert(n - 1, r + 1));
      } else {
        WithinQuarter(n - 1, i + 1, q + 1, 0);
        Ends(n - 1);
        NextQuarter(q, s);
      }
    }
  }

  // ------------------------------------------------------------- the four orientations

  function Turn(c: nat, p: Point): Point {
    if c == 0 then p
    else if c == 1 then Point(15 - p.y, 15 - p.x)
    else if c == 2 then Point(15 - p.x, 15 - p.y)
    else Point(p.y, p.x)
  }

  lemma {:induction false} LevelFour()
    ensures Power(1) == 2 && Power(2) == 4 && Power(3) == 8 && Power(4) == 16
    ensures Area(1) == 4 && Area(2) == 16 && Area(3) == 64 && Area(4) == 256
  {
    assert Power(2) == 4 && Area(2) == 16;
  }

  predicate InBlock(p: Point) { 0 <= p.x < 16 && 0 <= p.y < 16 }

  /** Cell i of a block that is visited with curve c. */
  function Cell(c: nat, i: nat): (p: Point)
    requires c < 4 && i < 256
    ensures InBlock(p)
  {
    LevelFour();
    Turn(c, Hilbert(4, i))
  }

  function CellIndex(c: nat, p: Point): (i: nat)
    requires c < 4 && InBlock(p)
    ensures i < 256
  {
    LevelFour();
    Index(4, Turn(c, p))
  }

  /** Each of the four curves visits every cell of the block exactly once. */
  lemma {:induction false} CellOnce(c: nat, i: nat, p: Point)
    requires c < 4 && i < 256 && InBlock(p)
    ensures CellIndex(c, Cell(c, i)) == i && Cell(c, CellIndex(c, p)) == p
  {
    hide Hilbert, Index;
    LevelFour();
    IndexOfHilbert(4, i);
    assert Turn(c, Turn(c, Hilbert(4, i))) == Hilbert(4, i);
    HilbertOfIndex(4, Turn(c, p));
    assert Turn(c, Turn(c, p)) == p;
  }
}
