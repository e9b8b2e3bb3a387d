/** Integer 2-D geometry used by the placer: one vector type for offsets,
    centres and sizes, frame dimensions, rectangles, and the integer
    forms of the rounding operations the placer relies on. */
module Geometry {

  /** A point, a displacement or a size, in pixels. */
  datatype Vec = Vec(x: int, y: int) {

    function Add(v: Vec): Vec {
      Vec(x + v.x, y + v.y)
    }

    function Sub(v: Vec): Vec {
      Vec(x - v.x, y - v.y)
    }

    function Neg(): Vec {
      Vec(-x, -y)
    }
  }

  const Zero := Vec(0, 0)

  /** The dimensions of a captured frame (its shape is height x width x 3). */
  datatype Dims = Dims(width: nat, height: nat)

  /** A crop rectangle: `topLeft` is inclusive, `botRight` exclusive. */
  datatype Rect = Rect(topLeft: Vec, botRight: Vec) {

    function Size(): Vec {
      botRight.Sub(topLeft)
    }

    /** `inner` lies inside this rectangle. */
    predicate Encloses(inner: Rect) {
      && topLeft.x <= inner.topLeft.x && inner.botRight.x <= botRight.x
      && topLeft.y <= inner.topLeft.y && inner.botRight.y <= botRight.y
    }
  }

  predicate IsEven(n: int) {
    n % 2 == 0
  }

  /** `(n >> 1) << 1` on an unbounded integer: the largest even number
      that is not above `n` (Python's shift floors negative numbers too). */
  function EvenFloor(n: int): (r: int)
    ensures IsEven(r)
    ensures r <= n < r + 2
  {
    (n / 2) * 2
  }

  /** The quotient n / d truncated toward zero, the way a conversion of a
      floating-point quotient to an integer behaves. */
  function TruncDiv(n: int, d: int): (q: int)
    requires d > 0
    ensures n >= 0 ==> 0 <= n - q * d < d
    ensures n < 0 ==> -d < n - q * d <= 0
  {
    if n >= 0 then n / d else -((-n) / d)
  }

  /** n / 2 rounded to the nearest integer, ties going to the even
      neighbour (the default rounding of a half-way floating value). */
  function HalfRoundEven(n: int): (r: int)
    ensures -1 <= n - 2 * r <= 1
    ensures n - 2 * r != 0 ==> IsEven(r)
  {
    var f := n / 2;
    if IsEven(n) || IsEven(f) then f else f + 1
  }

  /** EvenFloor leaves even numbers alone and is idempotent. */
  lemma EvenFloorFixed(n: int)
    ensures IsEven(n) <==> EvenFloor(n) == n
    ensures EvenFloor(EvenFloor(n)) == EvenFloor(n)
  {
  }

  /** For a non-negative dividend, d copies of the truncated quotient fit
      in n, and d copies of the next integer do not. */
  lemma TruncDivBounds(n: int, d: int)
    requires n >= 0 && d > 0
    ensures 0 <= TruncDiv(n, d) * d <= n < (TruncDiv(n, d) + 1) * d
  {
    var q, r := n / d, n % d;
    assert TruncDiv(n, d) == q;
    assert n == q * d + r && 0 <= r < d;
    if q < 0 {
      MulMonotone(q, -1, d);
      assert false;
    }
    MulMonotone(0, q, d);
    assert (q + 1) * d == q * d + d;
  }

  /** Multiplying by a non-negative factor keeps the order. */
  lemma MulMonotone(a: int, b: int, k: int)
    requires a <= b && k >= 0
    ensures a * k <= b * k
  {
  }
}
