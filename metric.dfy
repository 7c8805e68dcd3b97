/** Points of the network's 2-D coordinate space and the distance between them.
    Coordinates are exact integers. */
module Metric {

  datatype Point = Point(x: int, y: int)

  /** Where a freshly constructed node sits. */
  const Origin: Point := Point(0, 0)

  /** The point `(h, h)` that a key hashing to `h` is routed towards. */
  function Target(h: nat): Point
  {
    Point(h, h)
  }

  function Square(a: int): (r: nat)
    ensures a != 0 ==> r > 0
  {
    a * a
  }

  /** The square of the Euclidean distance. The square root is strictly
      monotone on non-negative numbers, so comparing these values orders
      nodes exactly as comparing Euclidean distances does. */
  function SquaredDistance(p: Point, q: Point): (d: nat)
    ensures d == 0 <==> p == q
  {
    Square(p.x - q.x) + Square(p.y - q.y)
  }

  lemma SquaredDistanceSymmetric(p: Point, q: Point)
    ensures SquaredDistance(p, q) == SquaredDistance(q, p)
  {
    assert Square(p.x - q.x) == Square(q.x - p.x);
    assert Square(p.y - q.y) == Square(q.y - p.y);
  }

  /** Index `i` holds the point nearest to `t`, and no earlier point is as near:
      the choice of a scan that replaces its candidate only on a strictly smaller distance. */
  predicate FirstNearest(ps: seq<Point>, t: Point, i: int)
  {
    0 <= i < |ps| &&
    (forall j :: 0 <= j < |ps| ==> SquaredDistance(ps[i], t) <= SquaredDistance(ps[j], t)) &&
    (forall j :: 0 <= j < i ==> SquaredDistance(ps[i], t) < SquaredDistance(ps[j], t))
  }

  /** At most one index is the first nearest one. */
  lemma FirstNearestUnique(ps: seq<Point>, t: Point, i: int, k: int)
    requires FirstNearest(ps, t, i) && FirstNearest(ps, t, k)
    ensures i == k
  {
    var di, dk := SquaredDistance(ps[i], t), SquaredDistance(ps[k], t);
    assert di <= dk && dk <= di;
    assert i < k ==> dk < di;
    assert k < i ==> di < dk;
  }

  /** The distance from a point to the target of hash `h`, multiplied out. */
  lemma DistanceToTarget(p: Point, h: nat)
    ensures SquaredDistance(p, Target(h)) == Square(p.x) + Square(p.y) - 2 * (h * (p.x + p.y)) + 2 * Square(h)
  {
    SquareOfDifference(p.x, h);
    SquareOfDifference(p.y, h);
    assert h * p.x + h * p.y == h * (p.x + p.y);
  }

  /** Step of the proof of `LargerSumIsCloser`: a square of a difference, multiplied out. */
  lemma SquareOfDifference(a: int, b: int)
    ensures Square(a - b) == Square(a) - 2 * (b * a) + Square(b)
  {
    calc {
      Square(a - b);
      (a - b) * (a - b);
      a * a - b * a - a * b + b * b;
    }
  }

  /** Step of the proof of `LargerSumIsCloser`: squares grow with non-negative arguments. */
  lemma SquareMonotone(a: int, m: int)
    requires 0 <= a <= m
    ensures Square(a) <= Square(m)
  {
    assert a * a <= a * m <= m * m;
  }

  /** Step of the proof of `LargerSumIsCloser`: scaling by `h` widens a gap of at least one to at least `h`. */
  lemma ScaledGap(h: nat, a: int, b: int)
    requires a > b
    ensures h * a - h * b >= h
  {
    var g := a - b - 1;
    assert h * a == h * b + h * g + h;
    assert h * g >= 0;
  }

  /** Routing degenerates to "largest coordinate sum wins": when both points lie in
      the box [0, m] x [0, m] and the hash exceeds m * m, the point with the larger
      coordinate sum is strictly closer to the target, whatever the hash is. */
  lemma {:induction false} LargerSumIsCloser(p: Point, q: Point, m: int, h: nat)
    requires 0 <= p.x <= m && 0 <= p.y <= m && 0 <= q.x <= m && 0 <= q.y <= m
    requires p.x + p.y > q.x + q.y
    requires h > Square(m)
    ensures SquaredDistance(p, Target(h)) < SquaredDistance(q, Target(h))
  {
    DistanceToTarget(p, h);
    DistanceToTarget(q, h);
    SquareMonotone(p.x, m);
    SquareMonotone(p.y, m);
    ScaledGap(h, p.x + p.y, q.x + q.y);
  }
}
