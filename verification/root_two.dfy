/**
 * Exact arithmetic for the values the Haar transform produces.  Starting
 * from integer channel values and repeatedly adding, subtracting and
 * dividing by sqrt 2 only ever yields numbers p + q*sqrt 2, so a value is
 * kept as the pair (p, q); dividing by sqrt 2 is then the linear map
 * (p, q) -> (q, p/2).  Comparisons (`Math.abs(c) < t`, `Math.max(c, 0)`)
 * go through `Sign`, which decides the sign of p + q*sqrt 2 from p and q
 * alone; `SignOfValue` shows it agrees with the sign of the real number
 * for any positive square root of 2.
 */
module RootTwo {

  /** The real number p + q * sqrt 2. */
  datatype Surd = Surd(p: real, q: real)

  /** A rational (here: any real) value with no sqrt 2 part: `(double) c`. */
  function Of(c: real): Surd {
    Surd(c, 0.0)
  }

  function Add(a: Surd, b: Surd): Surd {
    Surd(a.p + b.p, a.q + b.q)
  }

  function Sub(a: Surd, b: Surd): Surd {
    Surd(a.p - b.p, a.q - b.q)
  }

  /** `v / Math.sqrt(2)`: (p + q*sqrt 2) / sqrt 2 = q + (p/2)*sqrt 2. */
  function DivRootTwo(v: Surd): Surd {
    Surd(v.q, v.p / 2.0)
  }

  /** A positive square root of 2. */
  predicate IsRootTwo(root: real) {
    root > 0.0 && root * root == 2.0
  }

  /** The real number a surd denotes, given sqrt 2 as `root`. */
  function Value(v: Surd, root: real): real {
    v.p + v.q * root
  }

  /** Dividing by sqrt 2 really divides the denoted number by sqrt 2. */
  lemma DivRootTwoValue(v: Surd, root: real)
    requires IsRootTwo(root)
    ensures Value(DivRootTwo(v), root) * root == Value(v, root)
  {
    calc {
      Value(DivRootTwo(v), root) * root;
      (v.q + v.p / 2.0 * root) * root;
      v.q * root + v.p / 2.0 * (root * root);
      Value(v, root);
    }
  }

  function RealSign(x: real): int {
    if x > 0.0 then 1 else if x == 0.0 then 0 else -1
  }

  /**
   * The sign (-1, 0 or 1) of p + q*sqrt 2.  When p and q have opposite
   * signs the larger of |p| and |q|*sqrt 2 wins, which is decided by
   * comparing p*p with 2*q*q.
   */
  function Sign(v: Surd): (r: int)
    ensures -1 <= r <= 1
    ensures v.q == 0.0 ==> r == RealSign(v.p)
    ensures v.p == 0.0 ==> r == RealSign(v.q)
  {
    var p, q := v.p, v.q;
    if p >= 0.0 && q >= 0.0 then (if p == 0.0 && q == 0.0 then 0 else 1)
    else if p <= 0.0 && q <= 0.0 then -1
    else if p > 0.0 then
      (if p * p > 2.0 * q * q then 1 else if p * p == 2.0 * q * q then 0 else -1)
    else
      (if 2.0 * q * q > p * p then 1 else if p * p == 2.0 * q * q then 0 else -1)
  }

  /** For non-negative reals, squaring preserves and reflects the order. */
  lemma SquareOrder(a: real, b: real)
    requires a >= 0.0 && b >= 0.0
    ensures a > b <==> a * a > b * b
    ensures a == b <==> a * a == b * b
  {
    if a > b {
      PositiveProduct(a - b, a + b);
      assert a * a - b * b == (a - b) * (a + b);
    } else if b > a {
      PositiveProduct(b - a, a + b);
      assert b * b - a * a == (b - a) * (a + b);
    }
  }

  lemma PositiveProduct(x: real, y: real)
    requires x > 0.0 && y > 0.0
    ensures x * y > 0.0
  {
  }

  /** `Sign` is the sign of the number the surd denotes. */
  lemma SignOfValue(v: Surd, root: real)
    requires IsRootTwo(root)
    ensures Sign(v) == RealSign(Value(v, root))
  {
    var p, q := v.p, v.q;
    if p > 0.0 && q < 0.0 {
      var b := -q * root;
      assert b > 0.0;
      assert b * b == 2.0 * q * q by {
        assert b * b == q * q * (root * root);
      }
      SquareOrder(p, b);
      assert Value(v, root) == p - b;
    } else if p < 0.0 && q > 0.0 {
      var b := q * root;
      assert b > 0.0;
      assert b * b == 2.0 * q * q by {
        assert b * b == q * q * (root * root);
      }
      SquareOrder(-p, b);
      assert (-p) * (-p) == p * p;
      assert Value(v, root) == b - (-p);
    } else if p >= 0.0 && q >= 0.0 {
      assert q * root >= 0.0;
      if q > 0.0 {
        assert q * root > 0.0;
      }
    } else {
      assert q * root <= 0.0;
      if q < 0.0 {
        assert q * root < 0.0;
      }
    }
  }

  /** `a < b` on the numbers denoted. */
  predicate Less(a: Surd, b: Surd) {
    Sign(Sub(a, b)) < 0
  }

  /** `Math.abs(v) < t`, i.e. -t < v < t. */
  predicate AbsBelow(v: Surd, t: real) {
    Less(v, Of(t)) && Less(Of(-t), v)
  }

  /** Lowering the rational part of a negative number keeps it negative. */
  lemma {:induction false} NegativeDown(p: real, p': real, q: real)
    requires Sign(Surd(p, q)) < 0 && p' <= p
    ensures Sign(Surd(p', q)) < 0
  {
    if p' > 0.0 {
      assert q < 0.0;
      assert p * p < 2.0 * q * q;
      SquareOrder(p, p');
    } else if q > 0.0 {
      assert p < 0.0 && 2.0 * q * q < p * p;
      SquareOrder(-p', -p);
      assert (-p) * (-p) == p * p && (-p') * (-p') == p' * p';
    }
  }

  /** |v| < t1 and t1 <= t2 give |v| < t2. */
  lemma AbsBelowMonotone(v: Surd, t1: real, t2: real)
    requires AbsBelow(v, t1) && t1 <= t2
    ensures AbsBelow(v, t2)
  {
    NegativeDown(v.p - t1, v.p - t2, v.q);
    assert Sub(v, Of(t2)) == Surd(v.p - t2, v.q);
    assert Sub(Of(-t1), v) == Surd(-t1 - v.p, -v.q);
    NegativeDown(-t1 - v.p, -t2 - v.p, -v.q);
    assert Sub(Of(-t2), v) == Surd(-t2 - v.p, -v.q);
  }

  /** No value has magnitude below a non-positive bound. */
  lemma NotAbsBelowNonPositive(v: Surd, t: real)
    requires t <= 0.0
    ensures !AbsBelow(v, t)
  {
    if AbsBelow(v, t) {
      NegativeDown(v.p - t, v.p + t, v.q);
      assert Sub(Of(-t), v) == Surd(-t - v.p, -v.q);
      assert Sign(Surd(v.p + t, v.q)) < 0;
      assert Sign(Surd(-t - v.p, -v.q)) < 0;
      NegationFlipsSign(Surd(v.p + t, v.q));
      assert false;
    }
  }

  /** The sign of -v is the opposite of the sign of v. */
  lemma NegationFlipsSign(v: Surd)
    ensures Sign(Surd(-v.p, -v.q)) == -Sign(v)
  {
    assert (-v.p) * (-v.p) == v.p * v.p;
    assert 2.0 * (-v.q) * (-v.q) == 2.0 * v.q * v.q;
  }

  /**
   * Largest `j <= k` with `j <= v`, or 0: the loop-free reading of a
   * truncating cast of a value known to lie in [0, k].
   */
  function FloorTo(v: Surd, k: nat): (r: nat)
    ensures r <= k
    ensures r > 0 ==> !Less(v, Of(r as real))
    ensures r < k ==> Less(v, Of((r + 1) as real))
  {
    if k == 0 then 0
    else if !Less(v, Of(k as real)) then k
    else FloorTo(v, k - 1)
  }

  /**
   * `(int) Math.min(Math.max(v, 0), 255)`: saturate to [0, 255], then
   * truncate toward zero, which on [0, 255] is the floor.
   */
  function ToChannel(v: Surd): (c: int)
    ensures 0 <= c <= 255
    ensures Less(v, Of(0.0)) ==> c == 0
    ensures Less(Of(255.0), v) ==> c == 255
    ensures 0 < c ==> !Less(v, Of(c as real))
    ensures c < 255 && !Less(v, Of(0.0)) ==> Less(v, Of((c + 1) as real))
  {
    if Less(v, Of(0.0)) then 0
    else if Less(Of(255.0), v) then 255
    else FloorTo(v, 255)
  }

  /** Reading back an exact integer channel value gives the integer. */
  lemma ToChannelOfInt(c: int)
    requires 0 <= c <= 255
    ensures ToChannel(Of(c as real)) == c
  {
    var r := ToChannel(Of(c as real));
    assert Sub(Of(c as real), Of(r as real)) == Surd(c as real - r as real, 0.0);
    assert Sub(Of(c as real), Of((r + 1) as real)) == Surd(c as real - (r + 1) as real, 0.0);
  }
}
