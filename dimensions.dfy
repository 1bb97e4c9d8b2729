/**
 * `calculate_dimensions(total_pixels)`: split `total_pixels // 3` pixels into a
 * width and a height, taking the largest width not above the square root that
 * divides the pixel count.
 */
module Dimensions {

  /** The outcome of `calculate_dimensions`. */
  datatype Dims =
    | Found(width: nat, height: nat)  // `(width, height)`
    | NoneFound                       // `(None, None)`: the search range was empty
    | SqrtDomainError                 // `math.sqrt` of a negative count raises ValueError

  /** The integer square root, standing for `int(math.sqrt(n))`. */
  function ISqrt(n: nat): (r: nat)
    ensures r * r <= n < (r + 1) * (r + 1)
  {
    if n == 0 then 0
    else
      var r := ISqrt(n - 1);
      if (r + 1) * (r + 1) <= n then
        assert n <= (r + 1) * (r + 1);
        assert (r + 1) * (r + 1) < (r + 2) * (r + 2);
        r + 1
      else r
  }

  /** A value whose square does not exceed n is at most ISqrt(n). */
  lemma ISqrtIsLargest(n: nat, a: nat)
    requires a * a <= n
    ensures a <= ISqrt(n)
  {
    var r := ISqrt(n);
    if a > r {
      MulMonotone(r + 1, a, a);
      MulMonotone(r + 1, a, r + 1);
    }
  }

  lemma MulMonotone(a: nat, b: nat, c: nat)
    requires a <= b
    ensures a * c <= b * c
  {
  }

  /** An exact division multiplies back; kept apart so the loop's proof carries no division facts. */
  lemma ExactDivision(q: nat, w: nat)
    requires w > 0 && q % w == 0
    ensures w * (q / w) == q
  {
  }

  /**
   * The downward search: `range(int(math.sqrt(q)), 0, -1)` with `q = total_pixels // 3`,
   * returning at the first width that divides q. Python's `//` floors; for the
   * divisor 3 Dafny's Euclidean `/` agrees with it on every integer.
   */
  method CalculateDimensions(totalPixels: int) returns (d: Dims)
    ensures d.SqrtDomainError? <==> totalPixels / 3 < 0
    ensures d.NoneFound? <==> totalPixels / 3 == 0
    ensures d.Found? ==>
      && d.width >= 1
      && d.width * d.height == totalPixels / 3
      && d.width <= ISqrt(totalPixels / 3)
      && forall w :: d.width < w <= ISqrt(totalPixels / 3) ==> (totalPixels / 3) % w != 0
  {
    var q := totalPixels / 3;
    if q < 0 {
      return SqrtDomainError;
    }
    var s := ISqrt(q);
    if q > 0 {
      ISqrtIsLargest(q, 1);
    }
    var width := s;
    while width > 0
      invariant 0 <= width <= s
      invariant forall w :: width < w <= s ==> q % w != 0
    {
      if q % width == 0 {
        var height := q / width;
        ExactDivision(q, width);
        return Found(width, height);
      }
      width := width - 1;
    }
    assert q % 1 == 0;
    return NoneFound;
  }

  /** The width found never exceeds the height: the split is as square as possible. */
  lemma WidthAtMostHeight(q: nat, w: nat, h: nat)
    requires w >= 1 && w * h == q && w <= ISqrt(q)
    ensures w <= h
  {
    var r := ISqrt(q);
    MulMonotone(w, r, w);
    MulMonotone(w, r, r);
    assert w * r == r * w;
    assert w * w <= q;
    if h < w {
      MulMonotone(h + 1, w, w);
      assert false;
    }
  }

  /** A multiple of a leaves no remainder modulo a. */
  lemma MultipleMod(a: nat, b: nat)
    requires a > 0
    ensures (a * b) % a == 0
  {
    var d, r := (a * b) / a, (a * b) % a;
    assert a * b == a * d + r && 0 <= r < a;
    var k := b - d;
    assert a * k == a * b - a * d;
    assert a * k == r;
    if k >= 1 {
      MulMonotone(1, k, a);
    } else if k < 0 {
      MulMonotone(0, -k, a);
      assert a * k == -((-k) * a);
    }
  }

  /**
   * Among all factorisations a * b == q with a <= b, the found width is the largest a:
   * no split of q is closer to square.
   */
  lemma MostSquare(q: nat, w: nat, a: nat, b: nat)
    requires w >= 1 && w <= ISqrt(q)
    requires forall v :: w < v <= ISqrt(q) ==> q % v != 0
    requires 1 <= a <= b && a * b == q
    ensures a <= w
  {
    MulMonotone(a, b, a);
    assert a * a <= q by { assert a * a <= b * a == a * b; }
    ISqrtIsLargest(q, a);
    MultipleMod(a, b);
  }
}
