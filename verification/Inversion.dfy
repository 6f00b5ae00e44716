/** Binary greatest common divisor (HAC 14.54) and modular inverse (HAC 14.61). */
module Inversion {
  import opened Arithmetic
  import opened Limbs
  import opened Bignum
  import opened Division
  import opened Exponentiation

  // ---------------------------------------------------------------- common divisors

  ghost predicate Common(d: int, x: int, y: int) {
    Divides(d, x) && Divides(d, y)
  }

  /** g is the greatest common divisor: a common divisor that every common divisor divides. */
  ghost predicate IsGcd(g: int, x: int, y: int) {
    g >= 0 && Common(g, x, y) && forall d :: Common(d, x, y) ==> Divides(d, g)
  }

  /** (x, y) and (u, v) have the same common divisors. */
  ghost predicate SameCommon(x: int, y: int, u: int, v: int) {
    forall d :: Common(d, x, y) <==> Common(d, u, v)
  }

  lemma DividesZero(d: int)
    ensures Divides(d, 0)
  {
    assert 0 * d == 0;
  }

  lemma DividesSelf(d: int)
    ensures Divides(d, d)
  {
    assert 1 * d == d;
  }

  lemma DividesNegated(d: int, x: int)
    requires Divides(d, x)
    ensures Divides(d, -x) && Divides(-d, x)
  {
    var k := Cofactor(d, x);
    assert (-k) * d == -x && (-k) * (-d) == x;
  }

  /** Two greatest common divisors are equal. */
  lemma GcdUnique(g: int, h: int, x: int, y: int)
    requires IsGcd(g, x, y) && IsGcd(h, x, y)
    ensures g == h
  {
    DividesLe(g, h);
    DividesLe(h, g);
  }

  lemma DividesLe(d: int, x: int)
    requires d >= 0 && x >= 0 && Divides(d, x)
    ensures x == 0 || d <= x
  {
    var k := Cofactor(d, x);
    if k >= 1 { MulMonotone(1, k, d); } else { MulMonotone(k, 0, d); }
  }

  lemma GcdSame(g: int, x: int, y: int, u: int, v: int)
    requires IsGcd(g, x, y) && SameCommon(x, y, u, v)
    ensures IsGcd(g, u, v)
  {
    assert Common(g, x, y);
    forall d | Common(d, u, v) ensures Divides(d, g) {
      assert Common(d, x, y);
    }
  }

  lemma GcdWithZero(g: nat)
    ensures IsGcd(g, 0, g) && IsGcd(g, g, 0)
  {
    DividesZero(g);
    DividesSelf(g);
  }

  lemma GcdSigns(g: int, x: int, y: int)
    requires IsGcd(g, Abs(x), Abs(y))
    ensures IsGcd(g, x, y)
  {
    forall d ensures Common(d, x, y) <==> Common(d, Abs(x), Abs(y)) {
      if Common(d, x, y) { DividesNegated(d, x); DividesNegated(d, y); }
      if Common(d, Abs(x), Abs(y)) { DividesNegated(d, Abs(x)); DividesNegated(d, Abs(y)); }
    }
    GcdSame(g, Abs(x), Abs(y), x, y);
  }

  /** A divisor of an odd number divides x when it divides x * 2^k. */
  lemma OddDivisor(d: int, x: int, k: nat, y: int)
    requires y % 2 == 1 && Divides(d, y) && Divides(d, Pow(2, k) * x)
    ensures Divides(d, x)
  {
    hide Pow;
    var c := Cofactor(d, y);
    FactorOfOdd(c, d, y, d / 2);
    CancelPowerOfTwo(x, d, k);
  }

  lemma FactorOfOdd(c: int, d: int, y: int, h: int)
    requires c * d == y && y % 2 == 1 && h == d / 2
    ensures d % 2 == 1
  {
    assert d == 2 * h ==> c * d == 2 * (c * h);
  }

  /** Dividing one of two numbers by a power of two keeps the common divisors when the other is odd. */
  lemma HalveFirst(x: int, k: nat, x': int, y: int)
    requires y % 2 == 1 && x == Pow(2, k) * x'
    ensures SameCommon(x', y, x, y)
  {
    hide Pow;
    forall d ensures Common(d, x', y) <==> Common(d, x, y) {
      if Common(d, x', y) {
        DividesCombination(d, x', x', Pow(2, k), 0);
        assert Pow(2, k) * x' + 0 * x' == x;
      }
      if Common(d, x, y) { OddDivisor(d, x', k, y); }
    }
  }

  lemma SwapCommon(x: int, y: int, u: int, v: int)
    requires SameCommon(x, y, u, v)
    ensures SameCommon(y, x, v, u)
  {
    forall d ensures Common(d, y, x) <==> Common(d, v, u) {
      assert Common(d, x, y) <==> Common(d, u, v);
    }
  }

  lemma HalveSecond(x: int, y: int, k: nat, y': int)
    requires x % 2 == 1 && y == Pow(2, k) * y'
    ensures SameCommon(x, y', x, y)
  {
    HalveFirst(y, k, y', x);
    SwapCommon(y', x, y, x);
  }

  lemma SubtractFirst(x: int, y: int)
    ensures SameCommon(x - y, y, x, y)
  {
    forall d ensures Common(d, x - y, y) <==> Common(d, x, y) {
      if Common(d, x - y, y) { DividesCombination(d, x - y, y, 1, 1); }
      if Common(d, x, y) { DividesCombination(d, x, y, 1, -1); }
    }
  }

  lemma SameTrans(x: int, y: int, u: int, v: int, p: int, q: int)
    requires SameCommon(x, y, u, v) && SameCommon(u, v, p, q)
    ensures SameCommon(x, y, p, q)
  {
    forall d ensures Common(d, x, y) <==> Common(d, p, q) {
      assert Common(d, x, y) <==> Common(d, u, v);
    }
  }

  /** Scaling both numbers by two scales the greatest common divisor. */
  lemma GcdDouble(g: int, x: int, y: int)
    requires IsGcd(g, x, y)
    ensures IsGcd(2 * g, 2 * x, 2 * y)
  {
    DoubleDivides(g, x);
    DoubleDivides(g, y);
    forall d | Common(d, 2 * x, 2 * y) ensures Divides(d, 2 * g) {
      if d % 2 == 0 {
        HalveDivides(d, x);
        HalveDivides(d, y);
        assert Common(d / 2, x, y);
        DoubleDivides(d / 2, g);
      } else {
        PowOne(2);
        CancelPowerOfTwo(x, d, 1);
        CancelPowerOfTwo(y, d, 1);
        assert Common(d, x, y);
        DividesCombination(d, g, g, 2, 0);
        assert 2 * g + 0 * g == 2 * g;
      }
    }
  }

  lemma DoubleDivides(d: int, x: int)
    requires Divides(d, x)
    ensures Divides(2 * d, 2 * x)
  {
    var k := Cofactor(d, x);
    assert k * (2 * d) == 2 * x;
  }

  lemma HalveDivides(d: int, x: int)
    requires d % 2 == 0 && Divides(d, 2 * x)
    ensures Divides(d / 2, x)
  {
    var k := Cofactor(d, 2 * x);
    assert k * d == 2 * (k * (d / 2));
    assert k * (d / 2) == x;
  }

  lemma {:induction false} GcdScale(g: int, x: int, y: int, k: nat)
    requires IsGcd(g, x, y)
    ensures IsGcd(Pow(2, k) * g, Pow(2, k) * x, Pow(2, k) * y)
  {
    hide IsGcd;
    if k > 0 {
      GcdScale(g, x, y, k - 1);
      var w := Pow(2, k - 1);
      GcdDouble(w * g, w * x, w * y);
      assert 2 * (w * g) == Pow(2, k) * g && 2 * (w * x) == Pow(2, k) * x && 2 * (w * y) == Pow(2, k) * y;
    }
  }

  // ---------------------------------------------------------------- binary gcd

  /** Removing the trailing zero bits of X. */
  method MakeOdd(X: Mpi) returns (ret: Ret, ghost k: nat)
    requires X.Valid() && X.s == 1
    modifies X
    ensures X.Valid()
    ensures ret == Ok || ret == AllocFailed
    ensures ret.Ok? ==> X.s == 1 && old(Val(X.p)) == Pow(2, k) * Val(X.p)
    ensures ret.Ok? && old(Val(X.p)) > 0 ==> Val(X.p) % 2 == 1
    ensures ret.Ok? && old(Val(X.p)) % 2 == 1 ==> Val(X.p) == old(Val(X.p))
  {
    hide Val, Pow;
    PowZero(2);
    ghost var x := Val(X.p);
    var shift := X.Lsb();
    k := shift;
    ret := X.ShiftR(shift);
    TrailingZeros(x, shift);
  }

  lemma TrailingZeros(x: nat, k: nat)
    requires (x == 0 ==> k == 0) && (x > 0 ==> x % Pow(2, k) == 0 && x / Pow(2, k) % 2 == 1)
    ensures x == Pow(2, k) * (x / Pow(2, k)) && (x % 2 == 1 ==> x / Pow(2, k) == x)
  {
    hide Pow;
    PowZero(2);
    var w := Pow(2, k);
    DivModParts(x, w);
    if x == 0 { DivModUnique(0, w, 0, 0); }
    if x % 2 == 1 && k > 0 {
      PowStep(2, k - 1);
      EvenMultiple(x, w, Pow(2, k - 1), x / w);
    }
  }

  lemma EvenMultiple(x: int, w: int, h: int, q: int)
    requires x == q * w && w == 2 * h
    ensures x % 2 == 0
  {
    assert x == 2 * (q * h);
  }

  /** One iteration of the gcd loop: the common divisors stay, the sum falls, and one number stays odd. */
  method GcdStep(TA: Mpi, TB: Mpi) returns (ret: Ret)
    requires TA != TB && TA.Valid() && TB.Valid() && TA.s == 1 && TB.s == 1 && Val(TA.p) > 0
    requires Val(TB.p) > 0 ==> Val(TA.p) % 2 == 1 || Val(TB.p) % 2 == 1
    modifies TA, TB
    ensures TA.Valid() && TB.Valid()
    ensures ret == Ok || ret == AllocFailed
    ensures ret.Ok? ==> TA.s == 1 && TB.s == 1 && Val(TA.p) + Val(TB.p) < old(Val(TA.p) + Val(TB.p))
    ensures ret.Ok? && old(Val(TB.p)) == 0 ==> Val(TB.p) == 0
    ensures ret.Ok? && old(Val(TB.p)) > 0 ==> Val(TB.p) > 0 && (Val(TA.p) % 2 == 1 || Val(TB.p) % 2 == 1)
    ensures ret.Ok? && old(Val(TB.p)) > 0 ==> SameCommon(Val(TA.p), Val(TB.p), old(Val(TA.p)), old(Val(TB.p)))
  {
    hide Val, Pow, SameCommon;
    ghost var a, b := Val(TA.p), Val(TB.p);
    ghost var k, l;
    ret, k := MakeOdd(TA);
    if !ret.Ok? { return; }
    ret, l := MakeOdd(TB);
    if !ret.Ok? { return; }
    ghost var a1, b1 := Val(TA.p), Val(TB.p);
    ShrinkOdd(a, k, a1);
    ShrinkOdd(b, l, b1);
    if b > 0 { OddParts(a, b, k, l, a1, b1); }
    ret := GcdSubtract(TA, TB, a1, b1);
    if ret.Ok? && b > 0 { SameTrans(Val(TA.p), Val(TB.p), a1, b1, a, b); }
  }

  /** The larger of two numbers, odd where nonzero, is replaced by half the difference. */
  method GcdSubtract(TA: Mpi, TB: Mpi, ghost a: nat, ghost b: nat) returns (ret: Ret)
    requires TA != TB && TA.Valid() && TB.Valid() && TA.s == 1 && TB.s == 1 && a == Val(TA.p) && b == Val(TB.p)
    requires a % 2 == 1 && (b > 0 ==> b % 2 == 1)
    modifies TA, TB
    ensures TA.Valid() && TB.Valid()
    ensures ret == Ok || ret == AllocFailed
    ensures ret.Ok? ==> TA.s == 1 && TB.s == 1 && Val(TA.p) + Val(TB.p) < a + b
    ensures ret.Ok? && b == 0 ==> Val(TB.p) == 0
    ensures ret.Ok? && b > 0 ==>
              Val(TB.p) > 0 && (Val(TA.p) % 2 == 1 || Val(TB.p) % 2 == 1) && SameCommon(Val(TA.p), Val(TB.p), a, b)
  {
    hide Val, Pow, SameCommon;
    var order := TA.CmpMpi(TB);
    if order >= 0 {
      ret := SubtractHalve(TA, TB);
      if ret.Ok? && b > 0 { SubtractAndHalve(a, b, Val(TA.p)); }
    } else {
      ret := SubtractHalve(TB, TA);
      if ret.Ok? {
        OddDifference(a, b);
        SubtractAndHalve(b, a, Val(TB.p));
        SwapCommon(Val(TB.p), a, b, a);
      }
    }
  }

  /** Two odd numbers differ by at least two. */
  lemma OddDifference(a: nat, b: nat)
    requires a < b && a % 2 == 1 && b % 2 == 1
    ensures (b - a) / 2 > 0
  {
  }

  /** X := (X - Y) >> 1 */
  method SubtractHalve(X: Mpi, Y: Mpi) returns (ret: Ret)
    requires X != Y && X.Valid() && Y.Valid() && X.s == 1 && Val(X.p) >= Val(Y.p)
    modifies X
    ensures X.Valid()
    ensures ret == Ok || ret == AllocFailed
    ensures ret.Ok? ==> X.s == 1 && Val(X.p) == (old(Val(X.p)) - Val(Y.p)) / 2
  {
    hide Val, Pow;
    PowOne(2);
    ret := X.SubAbs(X, Y);
    if !ret.Ok? { return; }
    ret := X.ShiftR(1);
  }

  lemma ShrinkOdd(a: nat, k: nat, a1: nat)
    requires a == Pow(2, k) * a1
    ensures a1 <= a && (a > 0 ==> a1 > 0)
  {
    hide Pow;
    MulMonotone(1, Pow(2, k), a1);
  }

  lemma OddParts(a: nat, b: nat, k: nat, l: nat, a1: nat, b1: nat)
    requires a % 2 == 1 || b % 2 == 1
    requires a == Pow(2, k) * a1 && a1 % 2 == 1 && (a % 2 == 1 ==> a1 == a)
    requires b == Pow(2, l) * b1 && b1 % 2 == 1 && (b % 2 == 1 ==> b1 == b)
    ensures SameCommon(a1, b1, a, b)
  {
    hide SameCommon, Pow;
    if a % 2 == 1 {
      HalveSecond(a, b, l, b1);
    } else {
      HalveFirst(a, k, a1, b);
    }
  }

  lemma SubtractAndHalve(x: nat, y: nat, h: nat)
    requires x >= y && x % 2 == 1 && y % 2 == 1 && h == (x - y) / 2
    ensures SameCommon(h, y, x, y)
  {
    hide SameCommon;
    PowOne(2);
    HalveFirst(x - y, 1, h, y);
    SubtractFirst(x, y);
    SameTrans(h, y, x - y, y, x, y);
  }

  /** mbedtls_mpi_gcd: the greatest common divisor, except that a zero second argument gives zero. */
  method Gcd(G: Mpi, A: Mpi, B: Mpi) returns (ret: Ret)
    requires G.Valid() && A.Valid() && B.Valid()
    modifies G
    ensures G.Valid()
    ensures ret == Ok || ret == AllocFailed
    ensures ret.Ok? ==> (IsGcd(G.Value(), old(A.Value()), old(B.Value())) <==> old(B.Value()) != 0 || old(A.Value()) == 0)
    ensures ret.Ok? && old(B.Value()) == 0 ==> G.Value() == 0
  {
    hide Val, Pow, IsGcd, SameCommon;
    var TA, TB, lz;
    ghost var a, b := Val(A.p), Val(B.p);
    ret, TA, TB, lz := GcdOperands(A, B);
    if !ret.Ok? { return; }
    ghost var a0, b0 := Val(TA.p), Val(TB.p);
    ShrinkOdd(a, lz, a0);
    ShrinkOdd(b, lz, b0);
    ret := GcdLoop(TA, TB);
    if !ret.Ok? { return; }
    ghost var g := Val(TB.p);
    ret := TB.ShiftL(lz);
    if !ret.Ok? { return; }
    GcdResult(A.s, a, B.s, b, lz, a0, b0, g, Val(TB.p));
    ret := G.Copy(TB);
  }

  /** The loop: TA reaches zero and TB then has exactly the common divisors of the two operands. */
  method GcdLoop(TA: Mpi, TB: Mpi) returns (ret: Ret)
    requires TA != TB && TA.Valid() && TB.Valid() && TA.s == 1 && TB.s == 1
    requires Val(TB.p) > 0 && Val(TA.p) > 0 ==> Val(TA.p) % 2 == 1 || Val(TB.p) % 2 == 1
    modifies TA, TB
    ensures TB.Valid()
    ensures ret == Ok || ret == AllocFailed
    ensures ret.Ok? ==> TB.s == 1
    ensures ret.Ok? ==> if old(Val(TB.p)) == 0 then Val(TB.p) == 0 else SameCommon(0, Val(TB.p), old(Val(TA.p)), old(Val(TB.p)))
  {
    hide Val, Pow, SameCommon;
    BaseBounds();
    ghost var a0, b0 := Val(TA.p), Val(TB.p);
    var order := TA.CmpInt(0);
    SameRefl(a0, b0);
    while order != 0
      invariant TA.Valid() && TB.Valid() && TA.s == 1 && TB.s == 1
      invariant order == 0 <==> Val(TA.p) == 0
      invariant if b0 == 0 then Val(TB.p) == 0 else Val(TB.p) > 0 && SameCommon(Val(TA.p), Val(TB.p), a0, b0)
      invariant Val(TB.p) > 0 && Val(TA.p) > 0 ==> Val(TA.p) % 2 == 1 || Val(TB.p) % 2 == 1
      decreases Val(TA.p) + Val(TB.p)
    {
      ghost var a, b := Val(TA.p), Val(TB.p);
      ret := GcdStep(TA, TB);
      if !ret.Ok? { return; }
      if b > 0 { SameTrans(Val(TA.p), Val(TB.p), a, b, a0, b0); }
      order := TA.CmpInt(0);
    }
    return Ok;
  }

  lemma SameRefl(x: int, y: int)
    ensures SameCommon(x, y, x, y)
  {
  }

  /** Copies of the operands without their common factor 2^lz. */
  method GcdOperands(A: Mpi, B: Mpi) returns (ret: Ret, TA: Mpi, TB: Mpi, lz: nat)
    requires A.Valid() && B.Valid()
    ensures fresh(TA) && fresh(TB) && TA != TB && TA.Valid() && TB.Valid()
    ensures ret == Ok || ret == AllocFailed
    ensures ret.Ok? ==> TA.s == 1 && TB.s == 1 && Val(A.p) == Pow(2, lz) * Val(TA.p) && Val(B.p) == Pow(2, lz) * Val(TB.p)
    ensures ret.Ok? && Val(A.p) > 0 && Val(B.p) > 0 ==> Val(TA.p) % 2 == 1 || Val(TB.p) % 2 == 1
  {
    hide Val, Pow;
    TA := new Mpi();
    TB := new Mpi();
    lz := 0;
    ret := TA.Copy(A);
    if !ret.Ok? { return; }
    ret := TB.Copy(B);
    if !ret.Ok? { return; }
    lz := TA.Lsb();
    var lzt := TB.Lsb();
    CommonZeros(Val(A.p), lz, Val(B.p), lzt);
    if lzt < lz { lz := lzt; }
    ret := TA.ShiftR(lz);
    if !ret.Ok? { return; }
    ret := TB.ShiftR(lz);
    TA.s, TB.s := 1, 1;
  }

  lemma CommonZeros(a: nat, k: nat, b: nat, l: nat)
    requires (a == 0 ==> k == 0) && (a > 0 ==> a % Pow(2, k) == 0 && a / Pow(2, k) % 2 == 1)
    requires (b == 0 ==> l == 0) && (b > 0 ==> b % Pow(2, l) == 0 && b / Pow(2, l) % 2 == 1)
    ensures var m := if l < k then l else k;
            a == Pow(2, m) * (a / Pow(2, m)) && b == Pow(2, m) * (b / Pow(2, m))
            && (a > 0 && b > 0 ==> a / Pow(2, m) % 2 == 1 || b / Pow(2, m) % 2 == 1)
  {
    hide Pow;
    TrailingZeros(a, k);
    TrailingZeros(b, l);
    if l < k { FewerZeros(a, k, l); } else { FewerZeros(b, l, k); }
  }

  lemma FewerZeros(a: nat, k: nat, m: nat)
    requires m <= k && a == Pow(2, k) * (a / Pow(2, k))
    ensures a == Pow(2, m) * (a / Pow(2, m))
  {
    hide Pow;
    PowAdd(2, m, k - m);
    var c := Pow(2, k - m) * (a / Pow(2, k));
    MulAssoc(Pow(2, m), Pow(2, k - m), a / Pow(2, k));
    DivModUnique(a, Pow(2, m), c, 0);
  }

  lemma GcdResult(s: int, a: nat, t: int, b: nat, lz: nat, a0: nat, b0: nat, g: nat, r: nat)
    requires a == Pow(2, lz) * a0 && b == Pow(2, lz) * b0 && r == g * Pow(2, lz)
    requires if b0 == 0 then g == 0 else SameCommon(0, g, a0, b0)
    ensures IsGcd(r, Signed(s, a), Signed(t, b)) <==> b != 0 || a == 0
    ensures b == 0 ==> r == 0
  {
    hide Pow, IsGcd, SameCommon;
    ShrinkOdd(b, lz, b0);
    if b0 == 0 {
      NoGcdOfZero(Signed(s, a));
    } else {
      GcdWithZero(g);
      GcdSame(g, 0, g, a0, b0);
      GcdScale(g, a0, b0, lz);
      assert r == Pow(2, lz) * g;
      GcdSigns(r, Signed(s, a), Signed(t, b));
    }
  }

  /** Zero is a common divisor of x and zero only when x is zero. */
  lemma NoGcdOfZero(x: int)
    ensures IsGcd(0, x, 0) <==> x == 0
  {
    GcdWithZero(0);
    if IsGcd(0, x, 0) { var k := Cofactor(0, x); }
  }

  // ---------------------------------------------------------------- modular inverse

  /** u1 * a + u2 * b == u */
  ghost predicate Bezout(u1: int, u2: int, u: int, a: int, b: int) {
    u1 * a + u2 * b == u
  }

  /** Halving a Bezout triple: when a coefficient is odd, adding b to one and subtracting a from the other makes both even. */
  lemma HalveBezout(u1: int, u2: int, u: int, a: int, b: int)
    requires Bezout(u1, u2, u, a, b) && u % 2 == 0 && (a % 2 == 1 || b % 2 == 1)
    ensures u1 % 2 == 0 && u2 % 2 == 0 ==> Bezout(u1 / 2, u2 / 2, u / 2, a, b)
    ensures u1 % 2 != 0 || u2 % 2 != 0 ==>
              (u1 + b) % 2 == 0 && (u2 - a) % 2 == 0 && Bezout((u1 + b) / 2, (u2 - a) / 2, u / 2, a, b)
  {
    if u1 % 2 == 0 && u2 % 2 == 0 {
      HalveSum(u1, u2, u, a, b);
    } else {
      Parity(u1, a);
      Parity(u2, b);
      EvenAfterSwap(u1, u2, a, b, u1 * a, u2 * b);
      SwapSum(u1, u2, a, b);
      HalveSum(u1 + b, u2 - a, u, a, b);
    }
  }

  lemma SwapSum(u1: int, u2: int, a: int, b: int)
    ensures (u1 + b) * a + (u2 - a) * b == u1 * a + u2 * b
  {
  }

  lemma EvenAfterSwap(u1: int, u2: int, a: int, b: int, p: int, q: int)
    requires p % 2 == (if u1 % 2 == 1 && a % 2 == 1 then 1 else 0)
    requires q % 2 == (if u2 % 2 == 1 && b % 2 == 1 then 1 else 0)
    requires (p + q) % 2 == 0 && (a % 2 == 1 || b % 2 == 1) && (u1 % 2 != 0 || u2 % 2 != 0)
    ensures (u1 + b) % 2 == 0 && (u2 - a) % 2 == 0
  {
  }

  lemma Parity(x: int, y: int)
    ensures x * y % 2 == (if x % 2 == 1 && y % 2 == 1 then 1 else 0)
  {
    if x % 2 == 0 {
      EvenMultiple(x * y, x, x / 2, y);
    } else if y % 2 == 0 {
      EvenMultiple(x * y, y, y / 2, x);
    } else {
      OddProduct(x / 2, y / 2);
    }
  }

  lemma OddProduct(p: int, q: int)
    ensures (2 * p + 1) * (2 * q + 1) % 2 == 1
  {
    assert (2 * p + 1) * (2 * q + 1) == 2 * (2 * p * q + p + q) + 1;
  }

  lemma HalveSum(u1: int, u2: int, u: int, a: int, b: int)
    requires u1 * a + u2 * b == u && u1 % 2 == 0 && u2 % 2 == 0
    ensures u % 2 == 0 && Bezout(u1 / 2, u2 / 2, u / 2, a, b)
  {
    var p, q := u1 / 2, u2 / 2;
    assert u1 * a == 2 * (p * a) && u2 * b == 2 * (q * b);
  }

  /** X := X >> 1 for an even number of either sign. */
  method HalveEven(X: Mpi) returns (ret: Ret)
    requires X.Valid() && X.Value() % 2 == 0
    modifies X
    ensures X.Valid()
    ensures ret == Ok || ret == AllocFailed
    ensures ret.Ok? ==> X.Value() == old(X.Value()) / 2 && |X.p| >= old(|X.p|)
  {
    hide Val, Pow;
    PowOne(2);
    ret := X.ShiftR(1);
  }

  /** While TU is even: halve TU and its coefficients. */
  method HalveWhileEven(TU: Mpi, U1: Mpi, U2: Mpi, TA: Mpi, TB: Mpi, ghost other: int) returns (ret: Ret)
    requires TU != U1 && TU != U2 && TU != TA && TU != TB && U1 != U2 && U1 != TA && U1 != TB && U2 != TA && U2 != TB
    requires TU.Valid() && U1.Valid() && U2.Valid() && TA.Valid() && TB.Valid()
    requires |U1.p| > 0 && |U2.p| > 0 && |TA.p| > 0 && |TB.p| > 0 && TU.Value() > 0
    requires TA.Value() % 2 == 1 || TB.Value() % 2 == 1
    requires TU.Value() % 2 == 1 || other % 2 == 1
    requires Bezout(U1.Value(), U2.Value(), TU.Value(), TA.Value(), TB.Value())
    modifies TU, U1, U2
    ensures TU.Valid() && U1.Valid() && U2.Valid()
    ensures ret == Ok || ret == AllocFailed
    ensures ret.Ok? ==> |U1.p| > 0 && |U2.p| > 0 && TU.Value() % 2 == 1 && 0 < TU.Value() <= old(TU.Value())
    ensures ret.Ok? ==> Bezout(U1.Value(), U2.Value(), TU.Value(), TA.Value(), TB.Value())
    ensures ret.Ok? ==> SameCommon(TU.Value(), other, old(TU.Value()), other)
  {
    hide Val, Pow, Bezout, SameCommon;
    ghost var u := TU.Value();
    SameRefl(u, other);
    ParityOfValue(TU);
    while TU.p[0] % 2 == 0
      invariant TU.Valid() && U1.Valid() && U2.Valid() && |U1.p| > 0 && |U2.p| > 0 && |TU.p| > 0
      invariant TU.Value() % 2 == TU.p[0] % 2 && 0 < TU.Value() <= u
      invariant Bezout(U1.Value(), U2.Value(), TU.Value(), TA.Value(), TB.Value())
      invariant SameCommon(TU.Value(), other, u, other)
      invariant TU.Value() % 2 == 1 || other % 2 == 1
      decreases TU.Value()
    {
      ghost var t := TU.Value();
      HalveBezout(U1.Value(), U2.Value(), t, TA.Value(), TB.Value());
      ret := HalveEven(TU);
      if !ret.Ok? { return; }
      PowOne(2);
      HalveFirst(t, 1, TU.Value(), other);
      SameTrans(TU.Value(), other, t, other, u, other);
      ret := HalveCoefficients(U1, U2, TA, TB);
      if !ret.Ok? { return; }
      ParityOfValue(TU);
    }
    return Ok;
  }

  lemma ParityOfValue(X: Mpi)
    requires X.Valid() && X.Value() != 0
    ensures |X.p| > 0 && X.Value() % 2 == X.p[0] % 2
  {
    hide Val;
    if |X.p| == 0 { ValEmpty(X.p); }
    ParityOfLowLimb(X.p);
  }

  method HalveCoefficients(U1: Mpi, U2: Mpi, TA: Mpi, TB: Mpi) returns (ret: Ret)
    requires U1 != U2 && U1 != TA && U1 != TB && U2 != TA && U2 != TB && U1.Valid() && U2.Valid() && TA.Valid() && TB.Valid()
    requires |U1.p| > 0 && |U2.p| > 0 && |TA.p| > 0 && |TB.p| > 0
    requires U1.Value() % 2 != 0 || U2.Value() % 2 != 0 ==>
               (U1.Value() + TB.Value()) % 2 == 0 && (U2.Value() - TA.Value()) % 2 == 0
    modifies U1, U2
    ensures U1.Valid() && U2.Valid()
    ensures ret == Ok || ret == AllocFailed
    ensures ret.Ok? ==> |U1.p| > 0 && |U2.p| > 0
    ensures ret.Ok? ==> if old(U1.Value()) % 2 != 0 || old(U2.Value()) % 2 != 0
                        then U1.Value() == (old(U1.Value()) + TB.Value()) / 2 && U2.Value() == (old(U2.Value()) - TA.Value()) / 2
                        else U1.Value() == old(U1.Value()) / 2 && U2.Value() == old(U2.Value()) / 2
  {
    hide Val, Pow;
    ParityOfLowLimb(U1.p);
    ParityOfLowLimb(U2.p);
    if U1.p[0] % 2 != 0 || U2.p[0] % 2 != 0 {
      ret := U1.AddMpi(U1, TB);
      if !ret.Ok? { return; }
      ret := U2.SubMpi(U2, TA);
      if !ret.Ok? { return; }
    }
    ret := HalveEven(U1);
    if !ret.Ok? { return; }
    ret := HalveEven(U2);
  }

  /** One round of the do-while loop: both numbers are made odd, then the smaller is subtracted from the larger. */
  method InvStep(TU: Mpi, U1: Mpi, U2: Mpi, TV: Mpi, V1: Mpi, V2: Mpi, TA: Mpi, TB: Mpi) returns (ret: Ret)
    requires Distinct([TU, U1, U2, TV, V1, V2, TA, TB])
    requires TU.Valid() && U1.Valid() && U2.Valid() && TV.Valid() && V1.Valid() && V2.Valid() && TA.Valid() && TB.Valid()
    requires |U1.p| > 0 && |U2.p| > 0 && |V1.p| > 0 && |V2.p| > 0 && |TA.p| > 0 && |TB.p| > 0
    requires TU.Value() > 0 && TV.Value() > 0 && (TU.Value() % 2 == 1 || TV.Value() % 2 == 1)
    requires TA.Value() % 2 == 1 || TB.Value() % 2 == 1
    requires Bezout(U1.Value(), U2.Value(), TU.Value(), TA.Value(), TB.Value())
    requires Bezout(V1.Value(), V2.Value(), TV.Value(), TA.Value(), TB.Value())
    modifies TU, U1, U2, TV, V1, V2
    ensures TU.Valid() && U1.Valid() && U2.Valid() && TV.Valid() && V1.Valid() && V2.Valid()
    ensures ret == Ok || ret == AllocFailed
    ensures ret.Ok? ==> |U1.p| > 0 && |U2.p| > 0 && |V1.p| > 0 && |V2.p| > 0
    ensures ret.Ok? ==> TU.Value() >= 0 && TV.Value() > 0 && (TU.Value() % 2 == 1 || TV.Value() % 2 == 1)
    ensures ret.Ok? ==> TU.Value() + TV.Value() < old(TU.Value() + TV.Value())
    ensures ret.Ok? ==> Bezout(U1.Value(), U2.Value(), TU.Value(), TA.Value(), TB.Value())
    ensures ret.Ok? ==> Bezout(V1.Value(), V2.Value(), TV.Value(), TA.Value(), TB.Value())
    ensures ret.Ok? ==> SameCommon(TU.Value(), TV.Value(), old(TU.Value()), old(TV.Value()))
  {
    hide Val, Pow, Bezout, SameCommon;
    DistinctPairs(TU, U1, U2, TV, V1, V2, TA, TB);
    ghost var u0, v0 := TU.Value(), TV.Value();
    ret := HalveWhileEven(TU, U1, U2, TA, TB, v0);
    if !ret.Ok? { return; }
    ghost var u := TU.Value();
    ret := HalveWhileEven(TV, V1, V2, TA, TB, u);
    if !ret.Ok? { return; }
    ghost var v := TV.Value();
    SwapCommon(v, u, v0, u);
    SameTrans(u, v, u, v0, u0, v0);
    var order := TU.CmpMpi(TV);
    if order >= 0 {
      ret := SubtractTriple(TU, U1, U2, TV, V1, V2, TA.Value(), TB.Value());
      SubtractFirst(u, v);
      SameTrans(u - v, v, u, v, u0, v0);
    } else {
      ret := SubtractTriple(TV, V1, V2, TU, U1, U2, TA.Value(), TB.Value());
      SubtractFirst(v, u);
      SwapCommon(v - u, u, v, u);
      SameTrans(u, v - u, u, v, u0, v0);
    }
  }

  ghost predicate Distinct(s: seq<Mpi>) {
    forall i, j :: 0 <= i < j < |s| ==> s[i] != s[j]
  }

  lemma DistinctPairs(a: Mpi, b: Mpi, c: Mpi, d: Mpi, e: Mpi, f: Mpi, g: Mpi, h: Mpi)
    requires Distinct([a, b, c, d, e, f, g, h])
    ensures a != b && a != c && a != d && a != e && a != f && a != g && a != h && b != c && b != d && b != e && b != f && b != g && b != h
    ensures c != d && c != e && c != f && c != g && c != h && d != e && d != f && d != g && d != h
    ensures e != f && e != g && e != h && f != g && f != h && g != h
  {
    var s := [a, b, c, d, e, f, g, h];
    assert s[0] == a && s[1] == b && s[2] == c && s[3] == d && s[4] == e && s[5] == f && s[6] == g && s[7] == h;
  }

  /** (U, U1, U2) := (U, U1, U2) - (V, V1, V2) */
  method SubtractTriple(U: Mpi, U1: Mpi, U2: Mpi, V: Mpi, V1: Mpi, V2: Mpi, ghost a: int, ghost b: int) returns (ret: Ret)
    requires U != U1 && U != U2 && U1 != U2 && V != U && V != U1 && V != U2 && V1 != U && V1 != U1 && V1 != U2
    requires V2 != U && V2 != U1 && V2 != U2
    requires U.Valid() && U1.Valid() && U2.Valid() && V.Valid() && V1.Valid() && V2.Valid()
    requires |U1.p| > 0 && |U2.p| > 0 && |V1.p| > 0 && |V2.p| > 0
    requires Bezout(U1.Value(), U2.Value(), U.Value(), a, b) && Bezout(V1.Value(), V2.Value(), V.Value(), a, b)
    modifies U, U1, U2
    ensures U.Valid() && U1.Valid() && U2.Valid()
    ensures ret == Ok || ret == AllocFailed
    ensures ret.Ok? ==> |U1.p| > 0 && |U2.p| > 0 && U.Value() == old(U.Value()) - V.Value()
    ensures ret.Ok? ==> Bezout(U1.Value(), U2.Value(), U.Value(), a, b)
  {
    hide Val, Pow, Bezout;
    SubtractBezout(U1.Value(), U2.Value(), U.Value(), V1.Value(), V2.Value(), V.Value(), a, b);
    ret := U.SubMpi(U, V);
    if !ret.Ok? { return; }
    ret := U1.SubMpi(U1, V1);
    if !ret.Ok? { return; }
    ret := U2.SubMpi(U2, V2);
  }

  lemma SubtractBezout(u1: int, u2: int, u: int, v1: int, v2: int, v: int, a: int, b: int)
    requires Bezout(u1, u2, u, a, b) && Bezout(v1, v2, v, a, b)
    ensures Bezout(u1 - v1, u2 - v2, u - v, a, b)
  {
    assert (u1 - v1) * a == u1 * a - v1 * a && (u2 - v2) * b == u2 * b - v2 * b;
  }

  /** A number and its residue have the same common divisors with the modulus. */
  lemma ModCommon(a: int, n: int)
    requires n > 0
    ensures SameCommon(a % n, n, a, n)
  {
    var q := a / n;
    DivModParts(a, n);
    forall d ensures Common(d, a % n, n) <==> Common(d, a, n) {
      if Common(d, a % n, n) { DividesCombination(d, a % n, n, 1, q); }
      if Common(d, a, n) { DividesCombination(d, a, n, 1, -q); }
    }
  }

  /** What being coprime to n > 1 gives the loop: a nonzero residue, and not both even. */
  lemma CoprimeStart(a: int, n: int)
    requires n > 1 && IsGcd(1, a, n)
    ensures a % n > 0 && IsGcd(1, a % n, n) && (a % n % 2 == 1 || n % 2 == 1)
  {
    hide SameCommon;
    ModCommon(a, n);
    var r := a % n;
    SwapSame(r, n, a, n);
    GcdSame(1, a, n, r, n);
    if r == 0 {
      GcdWithZero(n);
      GcdUnique(1, n, 0, n);
    }
    CommonTwo(r, n);
  }

  lemma CommonTwo(x: int, y: int)
    ensures x % 2 == 0 && y % 2 == 0 ==> Common(2, x, y)
    ensures !Divides(2, 1)
  {
    if x % 2 == 0 && y % 2 == 0 {
      assert (x / 2) * 2 == x && (y / 2) * 2 == y;
    }
  }

  lemma SwapSame(x: int, y: int, u: int, v: int)
    requires SameCommon(x, y, u, v)
    ensures SameCommon(u, v, x, y)
  {
    forall d ensures Common(d, u, v) <==> Common(d, x, y) {
      assert Common(d, x, y) <==> Common(d, u, v);
    }
  }

  /** When the loop ends, V1 inverts a modulo n. */
  lemma InverseFound(v1: int, v2: int, v: int, a: int, n: int)
    requires n > 1 && v > 0 && IsGcd(1, a, n) && Bezout(v1, v2, v, a % n, n) && SameCommon(0, v, a % n, n)
    ensures Congruent(a * v1, 1, n)
  {
    hide SameCommon, IsGcd, Common, Congruent;
    CoprimeStart(a, n);
    GcdWithZero(v);
    GcdSame(v, 0, v, a % n, n);
    GcdUnique(v, 1, a % n, n);
    var r := a % n;
    assert Congruent(v1 * r, 1, n) by { assert (-v2) * n == v1 * r - 1; DividesMultiple(n, -v2); RevealCongruent(v1 * r, 1, n, -v2); }
    CongruentMod(a, n);
    CongruentSym(r, a, n);
    CongruentRefl(v1, n);
    CongruentMul(a, r, v1, v1, n);
    assert a * v1 == v1 * a && r * v1 == v1 * r;
    CongruentTrans(a * v1, v1 * r, 1, n);
  }

  lemma RevealCongruent(x: int, y: int, n: int, k: int)
    requires k * n == x - y
    ensures Congruent(x, y, n)
  {
  }

  lemma ShiftByModulus(a: int, x: int, n: int, e: int)
    requires Congruent(a * x, 1, n) && (e == 1 || e == -1)
    ensures Congruent(a * (x + e * n), 1, n)
  {
    DividesMultiple(n, 1);
    DividesCombination(n, a * x - 1, 1 * n, 1, a * e);
    assert 1 * (a * x - 1) + (a * e) * (1 * n) == a * (x + e * n) - 1;
  }

  /** Bring V1 into [0, N). */
  method IntoRange(V1: Mpi, N: Mpi, ghost a: int) returns (ret: Ret)
    requires V1 != N && V1.Valid() && N.Valid() && N.Value() > 1 && Congruent(a * V1.Value(), 1, N.Value())
    modifies V1
    ensures V1.Valid()
    ensures ret == Ok || ret == AllocFailed
    ensures ret.Ok? ==> 0 <= V1.Value() < N.Value() && Congruent(a * V1.Value(), 1, N.Value())
  {
    hide Val, Pow, Congruent;
    BaseBounds();
    ghost var n := N.Value();
    var order := V1.CmpInt(0);
    while order < 0
      invariant V1.Valid() && Congruent(a * V1.Value(), 1, n) && (order < 0 <==> V1.Value() < 0)
      decreases -V1.Value()
    {
      ShiftByModulus(a, V1.Value(), n, 1);
      ret := V1.AddMpi(V1, N);
      if !ret.Ok? { return; }
      order := V1.CmpInt(0);
    }
    order := V1.CmpMpi(N);
    while order >= 0
      invariant V1.Valid() && Congruent(a * V1.Value(), 1, n) && V1.Value() >= 0 && (order < 0 <==> V1.Value() < n)
      decreases V1.Value()
    {
      ShiftByModulus(a, V1.Value(), n, -1);
      ret := V1.SubMpi(V1, N);
      if !ret.Ok? { return; }
      order := V1.CmpMpi(N);
    }
    return Ok;
  }

  /** mbedtls_mpi_inv_mod: the inverse of A modulo N, reported missing exactly when A and N are not coprime. For N = 1 the first
      inner loop halves zero for ever, which is the outcome Diverges. */
  method InvMod(X: Mpi, A: Mpi, N: Mpi) returns (ret: Ret)
    requires X.Valid() && A.Valid() && N.Valid()
    modifies X
    ensures X.Valid()
    ensures ret == Ok || ret == AllocFailed || ret == BadInput || ret == NotAcceptable || ret == Diverges
    ensures ret == Diverges ==> old(N.Value()) == 1 && forall k: nat :: Halved(old(A.Value()) % old(N.Value()), k) % 2 == 0
    ensures old(N.Value()) == 1 ==> ret == Diverges || ret == AllocFailed
    ensures ret == BadInput <==> old(N.Value()) <= 0
    ensures ret == NotAcceptable ==> !IsGcd(1, old(A.Value()), old(N.Value()))
    ensures ret.Ok? ==> IsGcd(1, old(A.Value()), old(N.Value()))
    ensures ret.Ok? ==> 0 <= X.Value() < old(N.Value()) && Congruent(old(A.Value()) * X.Value(), 1, old(N.Value()))
  {
    hide Val, Pow, IsGcd, SameCommon, Bezout, Congruent;
    BaseBounds();
    var order := N.CmpInt(0);
    if order <= 0 { return BadInput; }
    ghost var a, n := A.Value(), N.Value();
    var G := new Mpi();
    ret := Gcd(G, A, N);
    if !ret.Ok? { return; }
    order := G.CmpInt(1);
    if order != 0 {
      if IsGcd(1, a, n) { GcdUnique(1, G.Value(), a, n); }
      if n == 1 { GcdWithOne(a); }
      return NotAcceptable;
    }
    order := N.CmpInt(1);
    if order == 0 {
      FirstLoopEnds(a, n);
      return Diverges;
    }
    var V1;
    ret, V1 := InvCoprime(A, N);
    if !ret.Ok? { return; }
    ret := IntoRange(V1, N, a);
    if !ret.Ok? { return; }
    ret := X.Copy(V1);
  }

  /** The extended binary gcd on coprime operands. */
  method InvCoprime(A: Mpi, N: Mpi) returns (ret: Ret, V1: Mpi)
    requires A.Valid() && N.Valid() && N.Value() > 1 && IsGcd(1, A.Value(), N.Value())
    ensures fresh(V1) && V1.Valid()
    ensures ret == Ok || ret == AllocFailed
    ensures ret.Ok? ==> Congruent(A.Value() * V1.Value(), 1, N.Value())
  {
    hide Val, Pow, IsGcd, SameCommon, Bezout, Congruent;
    BaseBounds();
    var TA, TB, TU, TV, U1, U2, V2;
    ret, U1, U2, V1, V2 := InvCoefficients();
    if !ret.Ok? { return; }
    ret, TA, TB, TU, TV := InvOperands(A, N);
    if !ret.Ok? { return; }
    BezoutStart(TA.Value(), TB.Value());
    ret := InvLoop(TU, U1, U2, TV, V1, V2, TA, TB);
    if !ret.Ok? { return; }
    InverseFound(V1.Value(), V2.Value(), TV.Value(), A.Value(), N.Value());
  }

  method InvCoefficients() returns (ret: Ret, U1: Mpi, U2: Mpi, V1: Mpi, V2: Mpi)
    ensures fresh(U1) && fresh(U2) && fresh(V1) && fresh(V2)
    ensures U1 != U2 && U1 != V1 && U1 != V2 && U2 != V1 && U2 != V2 && V1 != V2
    ensures U1.Valid() && U2.Valid() && V1.Valid() && V2.Valid()
    ensures ret == Ok || ret == AllocFailed
    ensures ret.Ok? ==> U1.Value() == 1 && U2.Value() == 0 && V1.Value() == 0 && V2.Value() == 1
    ensures ret.Ok? ==> |U1.p| > 0 && |U2.p| > 0 && |V1.p| > 0 && |V2.p| > 0
  {
    hide Val, Pow;
    BaseBounds();
    U1 := new Mpi();
    U2 := new Mpi();
    V1 := new Mpi();
    V2 := new Mpi();
    ret := U1.Lset(1);
    if !ret.Ok? { return; }
    ret := U2.Lset(0);
    if !ret.Ok? { return; }
    ret := V1.Lset(0);
    if !ret.Ok? { return; }
    ret := V2.Lset(1);
  }

  method InvOperands(A: Mpi, N: Mpi) returns (ret: Ret, TA: Mpi, TB: Mpi, TU: Mpi, TV: Mpi)
    requires A.Valid() && N.Valid() && N.Value() > 1 && IsGcd(1, A.Value(), N.Value())
    ensures fresh(TA) && fresh(TB) && fresh(TU) && fresh(TV) && TA != TB && TA != TU && TA != TV && TB != TU && TB != TV && TU != TV
    ensures TA.Valid() && TB.Valid() && TU.Valid() && TV.Valid()
    ensures ret == Ok || ret == AllocFailed
    ensures ret.Ok? ==> TA.Value() == TU.Value() == A.Value() % N.Value() && TB.Value() == TV.Value() == N.Value()
    ensures ret.Ok? ==> TU.Value() > 0 && (TU.Value() % 2 == 1 || TV.Value() % 2 == 1) && |TA.p| > 0 && |TB.p| > 0
  {
    hide Val, Pow, IsGcd;
    TA := new Mpi();
    TB := new Mpi();
    TU := new Mpi();
    TV := new Mpi();
    ret := ModMpi(TA, A, N);
    if !ret.Ok? { return; }
    ret := TU.Copy(TA);
    if !ret.Ok? { return; }
    ret := TB.Copy(N);
    if !ret.Ok? { return; }
    ret := TV.Copy(N);
    if !ret.Ok? { return; }
    CoprimeStart(A.Value(), N.Value());
    ParityOfValue(TA);
    ParityOfValue(TB);
  }

  lemma BezoutStart(a: int, b: int)
    ensures Bezout(1, 0, a, a, b) && Bezout(0, 1, b, a, b)
  {
  }

  /** The do-while loop. */
  method InvLoop(TU: Mpi, U1: Mpi, U2: Mpi, TV: Mpi, V1: Mpi, V2: Mpi, TA: Mpi, TB: Mpi) returns (ret: Ret)
    requires Distinct([TU, U1, U2, TV, V1, V2, TA, TB])
    requires TU.Valid() && U1.Valid() && U2.Valid() && TV.Valid() && V1.Valid() && V2.Valid() && TA.Valid() && TB.Valid()
    requires |U1.p| > 0 && |U2.p| > 0 && |V1.p| > 0 && |V2.p| > 0 && |TA.p| > 0 && |TB.p| > 0
    requires TU.Value() > 0 && TV.Value() > 0 && (TU.Value() % 2 == 1 || TV.Value() % 2 == 1)
    requires TA.Value() % 2 == 1 || TB.Value() % 2 == 1
    requires Bezout(U1.Value(), U2.Value(), TU.Value(), TA.Value(), TB.Value())
    requires Bezout(V1.Value(), V2.Value(), TV.Value(), TA.Value(), TB.Value())
    modifies TU, U1, U2, TV, V1, V2
    ensures V1.Valid()
    ensures ret == Ok || ret == AllocFailed
    ensures ret.Ok? ==> TV.Value() > 0 && Bezout(V1.Value(), V2.Value(), TV.Value(), TA.Value(), TB.Value())
    ensures ret.Ok? ==> SameCommon(0, TV.Value(), old(TU.Value()), old(TV.Value()))
  {
    hide Val, Pow, Bezout, SameCommon;
    DistinctPairs(TU, U1, U2, TV, V1, V2, TA, TB);
    BaseBounds();
    ghost var u0, v0 := TU.Value(), TV.Value();
    SameRefl(u0, v0);
    while true
      invariant TU.Valid() && U1.Valid() && U2.Valid() && TV.Valid() && V1.Valid() && V2.Valid()
      invariant |U1.p| > 0 && |U2.p| > 0 && |V1.p| > 0 && |V2.p| > 0
      invariant TU.Value() > 0 && TV.Value() > 0 && (TU.Value() % 2 == 1 || TV.Value() % 2 == 1)
      invariant Bezout(U1.Value(), U2.Value(), TU.Value(), TA.Value(), TB.Value())
      invariant Bezout(V1.Value(), V2.Value(), TV.Value(), TA.Value(), TB.Value())
      invariant SameCommon(TU.Value(), TV.Value(), u0, v0)
      decreases TU.Value() + TV.Value()
    {
      ghost var u, v := TU.Value(), TV.Value();
      ret := InvStep(TU, U1, U2, TV, V1, V2, TA, TB);
      if !ret.Ok? { return; }
      SameTrans(TU.Value(), TV.Value(), u, v, u0, v0);
      var order := TU.CmpInt(0);
      if order == 0 { break; }
    }
  }

  // ---------------------------------------------------------------- the modulus one

  /** TU after k rounds of the first inner loop of mbedtls_mpi_inv_mod. */
  function Halved(x: nat, k: nat): (r: nat) {
    if k == 0 then x else Halved(x / 2, k - 1)
  }

  /** Halving reaches an odd number exactly from a nonzero one. */
  lemma {:induction false} HalvingEnds(x: nat)
    ensures (exists k: nat :: Halved(x, k) % 2 == 1) <==> x != 0
  {
    if x == 0 {
      forall k: nat ensures Halved(x, k) % 2 == 0 { HalvedZero(k); }
    } else if x % 2 == 1 {
      assert Halved(x, 0) % 2 == 1;
    } else {
      HalvingEnds(x / 2);
      var k: nat :| Halved(x / 2, k) % 2 == 1;
      assert Halved(x, k + 1) % 2 == 1;
    }
  }

  /** Zero stays zero and even however often it is halved. */
  lemma {:induction false} HalvedZero(k: nat)
    ensures Halved(0, k) == 0
  {
    if k > 0 { HalvedZero(k - 1); }
  }

  /** Of two coprime numbers the first is a multiple of the positive second exactly when the second is one. */
  lemma ResidueZero(a: int, n: int)
    requires n > 0 && IsGcd(1, a, n)
    ensures a % n == 0 <==> n == 1
  {
    if a % n == 0 {
      DivModParts(a, n);
      DividesMultiple(n, a / n);
      DividesSelf(n);
      assert Common(n, a, n);
      DividesLe(n, 1);
    }
  }

  lemma GcdWithOne(a: int)
    ensures IsGcd(1, a, 1)
  {
    DividesMultiple(1, a);
    DividesSelf(1);
  }

  /** For operands that pass the checks of mbedtls_mpi_inv_mod, its first inner loop ends exactly when the modulus is not one. */
  lemma FirstLoopEnds(a: int, n: int)
    requires n > 0 && IsGcd(1, a, n)
    ensures (exists k: nat :: Halved(a % n, k) % 2 == 1) <==> n != 1
  {
    ResidueZero(a, n);
    HalvingEnds(a % n);
  }
}
