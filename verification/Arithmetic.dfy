/** Powers, divisibility and congruence: the integer arithmetic that the multi-precision routines refine. */
module Arithmetic {

  function Pow(b: nat, e: nat): (r: nat)
    ensures b > 0 ==> r > 0
  {
    if e == 0 then 1 else b * Pow(b, e - 1)
  }

  lemma MulAssoc(x: int, y: int, z: int)
    ensures x * (y * z) == (x * y) * z
  {
  }

  lemma PowZero(b: nat)
    ensures Pow(b, 0) == 1
  {
  }

  lemma PowOne(b: nat)
    ensures Pow(b, 1) == b
  {
    PowZero(b);
  }

  lemma PowStep(b: nat, e: nat)
    ensures Pow(b, e + 1) == b * Pow(b, e)
  {
  }

  lemma {:induction false} PowAdd(b: nat, x: nat, y: nat)
    ensures Pow(b, x + y) == Pow(b, x) * Pow(b, y)
  {
    if x > 0 {
      PowAdd(b, x - 1, y);
      MulAssoc(b, Pow(b, x - 1), Pow(b, y));
    }
  }

  lemma {:induction false} PowMul(b: nat, x: nat, y: nat)
    ensures Pow(Pow(b, x), y) == Pow(b, x * y)
  {
    if y > 0 {
      PowMul(b, x, y - 1);
      PowAdd(b, x, x * (y - 1));
      assert x + x * (y - 1) == x * y;
    }
  }

  lemma PowSplit(b: nat, x: nat, q: nat, t: nat, e: nat)
    requires e == q * x + t
    ensures Pow(b, e) == Pow(Pow(b, x), q) * Pow(b, t)
  {
    hide Pow;
    MulMonotone(0, x, q);
    var m: nat := x * q;
    PowMul(b, x, q);
    PowAdd(b, m, t);
    assert e == m + t;
  }

  lemma {:induction false} PowMonotone(b: nat, x: nat, y: nat)
    requires b > 0 && x <= y
    ensures Pow(b, x) <= Pow(b, y)
  {
    PowAdd(b, x, y - x);
    MulMonotone(1, Pow(b, y - x), Pow(b, x));
  }

  lemma MulMonotone(x: int, y: int, k: int)
    requires x <= y && 0 <= k
    ensures x * k <= y * k && k * x <= k * y
  {
  }

  lemma MulEqual(k: int, x: int, y: int)
    requires x == y
    ensures k * x == k * y
  {
  }

  lemma MulStrict(x: int, y: int, k: int)
    requires x < y && 0 < k
    ensures x * k < y * k
  {
  }

  lemma ScaleSum(a: int, b: int, x: int, c: int)
    ensures a * (b + x * c) == a * b + x * (a * c)
  {
    assert a * (x * c) == x * (a * c);
  }

  /** The quotient and remainder of a non-negative division are unique. */
  lemma DivModUnique(x: int, d: int, q: int, r: int)
    requires 0 <= r < d && x == q * d + r
    ensures x / d == q && x % d == r
  {
    var q', r' := x / d, x % d;
    assert (q' - q) * d == r - r';
    if q' > q { MulMonotone(1, q' - q, d); }
    if q' < q { MulMonotone(q' - q, -1, d); }
  }

  ghost predicate Divides(d: int, x: int) {
    exists k: int :: k * d == x
  }

  lemma DividesMultiple(d: int, k: int)
    ensures Divides(d, k * d)
  {
  }

  lemma Cofactor(d: int, x: int) returns (k: int)
    requires Divides(d, x)
    ensures k * d == x
  {
    k :| k * d == x;
  }

  /** A common divisor divides every integer combination. */
  lemma DividesCombination(d: int, x: int, y: int, a: int, b: int)
    requires Divides(d, x) && Divides(d, y)
    ensures Divides(d, a * x + b * y)
  {
    var k :| k * d == x;
    var l :| l * d == y;
    assert (a * k + b * l) * d == a * (k * d) + b * (l * d);
  }

  /** Congruence modulo n, stated by divisibility so that it chains without division. */
  ghost predicate Congruent(x: int, y: int, n: int) {
    Divides(n, x - y)
  }

  lemma CongruentRefl(x: int, n: int)
    ensures Congruent(x, x, n)
  {
    assert 0 * n == x - x;
  }

  lemma CongruentSym(x: int, y: int, n: int)
    requires Congruent(x, y, n)
    ensures Congruent(y, x, n)
  {
    var k :| k * n == x - y;
    assert (-k) * n == y - x;
  }

  lemma CongruentTrans(x: int, y: int, z: int, n: int)
    requires Congruent(x, y, n) && Congruent(y, z, n)
    ensures Congruent(x, z, n)
  {
    DividesCombination(n, x - y, y - z, 1, 1);
  }

  lemma CongruentMul(x: int, y: int, a: int, b: int, n: int)
    requires Congruent(x, y, n) && Congruent(a, b, n)
    ensures Congruent(x * a, y * b, n)
  {
    DividesCombination(n, x - y, a - b, a, y);
    assert a * (x - y) + y * (a - b) == x * a - y * b;
  }

  lemma CongruentMod(x: int, n: int)
    requires n > 0
    ensures Congruent(x % n, x, n)
  {
    assert (-(x / n)) * n == x % n - x;
  }

  /** Two congruent residues are equal. */
  lemma CongruentUnique(x: int, y: int, n: int)
    requires 0 <= x < n && 0 <= y < n && Congruent(x, y, n)
    ensures x == y
  {
    var k :| k * n == x - y;
    if k > 0 { MulMonotone(1, k, n); }
    if k < 0 { MulMonotone(k, -1, n); }
  }

  lemma {:induction false} CongruentPow(x: nat, y: nat, e: nat, n: int)
    requires Congruent(x, y, n)
    ensures Congruent(Pow(x, e), Pow(y, e), n)
  {
    if e == 0 {
      CongruentRefl(1, n);
    } else {
      CongruentPow(x, y, e - 1, n);
      CongruentMul(x, y, Pow(x, e - 1), Pow(y, e - 1), n);
    }
  }

  /** An odd modulus shares no factor with a power of two. */
  lemma {:induction false} CancelPowerOfTwo(x: int, n: int, e: nat)
    requires n % 2 == 1 && Divides(n, Pow(2, e) * x)
    ensures Divides(n, x)
  {
    if e > 0 {
      var y := Pow(2, e - 1) * x;
      assert Pow(2, e) * x == 2 * y;
      var k :| k * n == 2 * y;
      HalveFactor(k, n, y);
      CancelPowerOfTwo(x, n, e - 1);
    }
  }

  lemma HalveFactor(k: int, n: int, y: int)
    requires n % 2 == 1 && k * n == 2 * y
    ensures k % 2 == 0 && (k / 2) * n == y
  {
    var m := n / 2;
    assert k * n == 2 * (k * m) + k;
    var h := k / 2;
    assert k == 2 * h + k % 2;
    assert k % 2 == 2 * (y - k * m - h);
    assert k * n == 2 * (h * n);
  }
}
