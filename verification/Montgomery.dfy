/** Montgomery arithmetic: the negated inverse of the modulus, multiplication (HAC 14.36) and reduction. */
module Montgomery {
  import opened Arithmetic
  import opened Limbs
  import opened Bignum

  // ---------------------------------------------------------------- the negated inverse of an odd limb

  /** x inverts m to k bits. */
  ghost predicate Inverts(m: int, x: int, k: nat) {
    Divides(Pow(2, k), m * x - 1)
  }

  /** An odd number times its mbedtls seed is one modulo sixteen. */
  lemma SeedInverts(m: nat)
    requires m % 2 == 1
    ensures Inverts(m, m + (m + 2) / 4 % 2 * 8, 4)
  {
    hide Inverts;
    SeedBit(m);
    SeedCase(m, m / 16, m % 16, (m + 2) / 4 % 2);
  }

  lemma SeedCase(m: int, q: int, r: int, c: int)
    requires m == 16 * q + r && 0 <= r < 16 && r % 2 == 1 && c == (r + 2) / 4 % 2
    ensures Inverts(m, m + c * 8, 4)
  {
    hide Inverts;
    var s := SeedResidue(r, c);
    var k := SeedLift(m, q, r, c, s);
    InvertsBy(m, m + c * 8, k);
  }

  lemma InvertsBy(m: int, x: int, k: int)
    requires k * 16 == m * x - 1
    ensures Inverts(m, x, 4)
  {
    hide Pow, Divides;
    Sixteen();
    DividesMultiple(16, k);
  }

  lemma Sixteen()
    ensures Pow(2, 4) == 16
  {
  }

  /** The bit that the seed looks at depends on the low four bits only. */
  lemma SeedBit(m: nat)
    ensures (m + 2) / 4 % 2 == (m % 16 + 2) / 4 % 2
  {
    var q, r := m / 16, m % 16;
    var t, u := (r + 2) / 4, (r + 2) % 4;
    DivModUnique(m + 2, 4, 4 * q + t, u);
    DivModUnique(4 * q + t, 2, 2 * q + t / 2, t % 2);
  }

  lemma SeedResidue(r: int, c: int) returns (s: int)
    requires 0 <= r < 16 && r % 2 == 1 && c == (r + 2) / 4 % 2
    ensures r * (r + c * 8) == 16 * s + 1
  {
    s := r * (r + c * 8) / 16;
    assert r == 1 || r == 3 || r == 5 || r == 7 || r == 9 || r == 11 || r == 13 || r == 15;
  }

  lemma SeedLift(m: int, q: int, r: int, c: int, s: int) returns (k: int)
    requires r * (r + c * 8) == 16 * s + 1 && m == 16 * q + r
    ensures k * 16 == m * (m + c * 8) - 1
  {
    var t := r + c * 8;
    k := q * (16 * q) + q * t + q * r + s;
    assert (16 * q + r) * (16 * q + t) == 16 * q * (16 * q) + 16 * q * t + r * (16 * q) + r * t;
  }

  /** One Newton step doubles the number of correct bits. */
  lemma NewtonStep(m: int, x: int, k: nat)
    requires Inverts(m, x, k)
    ensures Inverts(m, x * (2 - m * x), 2 * k)
  {
    hide Pow;
    var w := Pow(2, k);
    var e := Cofactor(w, m * x - 1);
    PowAdd(2, k, k);
    NewtonSquare(m, x, e, w);
    assert (-(e * e)) * Pow(2, 2 * k) == m * (x * (2 - m * x)) - 1;
  }

  lemma NewtonSquare(m: int, x: int, e: int, w: int)
    requires e * w == m * x - 1
    ensures (-(e * e)) * (w * w) == m * (x * (2 - m * x)) - 1
  {
    var y := m * x;
    assert m * (x * (2 - m * x)) == y * (2 - y);
    assert y * (2 - y) - 1 == -((y - 1) * (y - 1));
    assert (e * w) * (e * w) == (e * e) * (w * w);
  }

  /** Wrapping to a limb keeps the bits that fit in it. */
  lemma WrapInverts(m: int, x: int, k: nat)
    requires Inverts(m, x, k) && k <= BITS
    ensures Inverts(m, x % BASE, k)
  {
    hide Pow;
    var w := Pow(2, k);
    PowAdd(2, k, BITS - k);
    var e := Cofactor(w, m * x - 1);
    WrapFactor(m, x, e, w, Pow(2, BITS - k), BASE);
  }

  lemma WrapFactor(m: int, x: int, e: int, w: int, v: int, base: int)
    requires base == w * v && base > 0 && e * w == m * x - 1
    ensures Divides(w, m * (x % base) - 1)
  {
    var q := x / base;
    DivModParts(x, base);
    assert m * (x % base) == m * x - m * (q * base);
    assert m * (q * (w * v)) == (m * q * v) * w;
    assert (e - m * q * v) * w == m * (x % base) - 1;
  }

  /** mpi_montg_init: mm * N == -1 modulo BASE. */
  method MontgInit(N: Mpi) returns (mm: limb)
    requires |N.p| > 0 && N.p[0] % 2 == 1
    ensures Divides(BASE, mm * Val(N.p) + 1)
  {
    hide Val, Pow;
    BaseBounds();
    var m0 := N.p[0];
    var x: limb := (m0 + (m0 + 2) / 4 % 2 * 8) % BASE;
    SeedInverts(m0);
    WrapInverts(m0, m0 + (m0 + 2) / 4 % 2 * 8, 4);
    var i: nat := BITS;
    ghost var k := 4;
    while i >= 8
      invariant i == 4 || i == 8 || i == 16 || i == 32 || i == 64
      invariant k * i == 4 * BITS && Inverts(m0, x, k)
    {
      NewtonStep(m0, x, k);
      Doubling(k, i, BITS);
      WrapInverts(m0, x * (2 - m0 * x), 2 * k);
      x := x * (2 - m0 * x) % BASE;
      i, k := i / 2, 2 * k;
    }
    mm := (BASE - x) % BASE;
    NegatedInverse(N.p, x, mm);
  }

  lemma Doubling(k: nat, i: nat, bits: nat)
    requires k * i == 4 * bits && (i == 8 || i == 16 || i == 32 || i == 64)
    ensures 2 * k <= bits && 2 * k * (i / 2) == 4 * bits
  {
  }

  lemma NegatedInverse(n: seq<limb>, x: limb, mm: limb)
    requires |n| > 0 && Inverts(n[0], x, BITS) && mm == (BASE - x) % BASE
    ensures Divides(BASE, mm * Val(n) + 1)
  {
    hide Val, Pow;
    ValCons(n);
    var e := Cofactor(BASE, n[0] * x - 1);
    if x == 0 { DivModUnique(BASE, BASE, 1, 0); } else { DivModUnique(BASE - x, BASE, 0, BASE - x); }
    var z := if x == 0 then 0 else 1;
    Negate(n[0], Val(n[1..]), x, mm, e, z, BASE, Val(n));
  }

  lemma Negate(n0: int, hi: int, x: int, mm: int, e: int, z: int, base: int, n: int)
    requires n == n0 + base * hi && mm == z * base - x && e * base == n0 * x - 1
    ensures Divides(base, mm * n + 1)
  {
    assert mm * n == mm * n0 + mm * (base * hi);
    assert mm * n0 == (z * n0) * base - x * n0;
    assert mm * (base * hi) == (mm * hi) * base;
    assert (z * n0 - e + mm * hi) * base == mm * n + 1;
  }

  // ---------------------------------------------------------------- Montgomery multiplication

  /** Room above limb i is room in the whole sequence. */
  lemma WindowRoom(t: seq<limb>, i: nat, add: nat)
    requires i <= |t| && Val(t[i..]) + add < Pow(BASE, |t| - i)
    ensures Val(t) + add * Pow(BASE, i) < Pow(BASE, |t|)
  {
    hide Val, Pow;
    ValSplit(t, i);
    ValBound(t[..i]);
    PowAdd(BASE, i, |t| - i);
    RoomScaled(Val(t), Val(t[..i]), Val(t[i..]), add, Pow(BASE, i), Pow(BASE, |t| - i));
  }

  lemma RoomScaled(v: nat, low: nat, hi: nat, add: nat, w: nat, top: nat)
    requires v == low + w * hi && low < w && hi + add < top
    ensures v + add * w < w * top
  {
    MulMonotone(hi + add + 1, top, w);
    assert w * (hi + add + 1) == w * hi + add * w + w;
  }

  /** Adding at limb i adds to the window above limb i. */
  lemma WindowAdd(t: seq<limb>, r: seq<limb>, i: nat, add: nat)
    requires i <= |t| == |r| && r[..i] == t[..i] && Val(r) == Val(t) + add * Pow(BASE, i)
    ensures Val(r[i..]) == Val(t[i..]) + add
  {
    hide Val, Pow;
    ValSplit(t, i);
    ValSplit(r, i);
    CancelWeight(Val(r[i..]), Val(t[i..]), add, Pow(BASE, i));
  }

  lemma CancelWeight(x: int, y: int, add: int, w: int)
    requires w > 0 && w * x == w * y + add * w
    ensures x == y + add
  {
    assert w * (x - y - add) == 0;
    if x > y + add { MulMonotone(1, x - y - add, w); }
    if x < y + add { MulMonotone(x - y - add, -1, w); }
  }

  /** The multiple of N that clears the lowest limb. */
  lemma ClearsLowLimb(d: nat, d0: nat, u0: nat, b: nat, b0: nat, mm: nat, n: nat, u1: nat, base: nat)
    requires base > 0 && Congruent(d, d0, base) && Congruent(b, b0, base) && Divides(base, mm * n + 1)
    requires u1 == (d0 + u0 * b0) * mm % base
    ensures Divides(base, d + u0 * b + u1 * n)
  {
    var x := d0 + u0 * b0;
    var e := d + u0 * b;
    DividesCombination(base, d - d0, b - b0, 1, u0);
    assert Congruent(e, x, base) by { assert 1 * (d - d0) + u0 * (b - b0) == e - x; }
    CongruentMod(x * mm, base);
    DividesCombination(base, u1 - x * mm, mm * n + 1, n, x);
    assert n * (u1 - x * mm) + x * (mm * n + 1) == u1 * n + x;
    DividesCombination(base, e - x, u1 * n + x, 1, 1);
  }

  lemma LowLimb(p: seq<limb>)
    requires |p| > 0
    ensures Congruent(Val(p), p[0], BASE)
  {
    hide Val, Pow;
    ValCons(p);
    assert Val(p[1..]) * BASE == Val(p) - p[0];
  }

  /** A window below twice the modulus leaves room for both products of a row, and is below it again after the row. */
  lemma RowBounds(d: nat, u0: nat, b: nat, u1: nat, n: nat, base: nat)
    requires d < 2 * n && u0 < base && u1 < base && b <= n && base > 0
    ensures d + u0 * b + u1 * n < base * (2 * n)
  {
    MulMonotone(b, n, u0);
    MulMonotone(u0, base - 1, n);
    MulMonotone(u1, base - 1, n);
    assert 2 * ((base - 1) * n) + 2 * n == base * (2 * n);
  }

  /** One iteration of mpi_montmul: the window moves up one limb and is divided by BASE. */
  method MontRow(t: seq<limb>, i: nat, u0: limb, b: seq<limb>, m: nat, n: seq<limb>, mm: limb)
    returns (r: seq<limb>, ghost u1: nat)
    requires 0 < m <= |b| && m <= |n| && Val(b[..m]) == Val(b) <= Val(n)
    requires i + |n| + 2 < |t| && Val(t[i..]) < 2 * Val(n) && Divides(BASE, mm * Val(n) + 1)
    ensures |r| == |t| && r[..i] == t[..i] && r[i] == u0
    ensures BASE * Val(r[i + 1..]) == Val(t[i..]) + u0 * Val(b) + u1 * Val(n)
    ensures Val(r[i + 1..]) < 2 * Val(n)
  {
    hide Val, Pow, Divides, Congruent;
    BaseBounds();
    var u: limb := (t[i] + u0 * b[0]) * mm % BASE;
    u1 := u;
    RowBounds(Val(t[i..]), u0, Val(b), u1, Val(n), BASE);
    RowRoom(n, |t| - i);
    r := AddRows(t, i, u0, b, m, n, u);
    LowLimb(t[i..]);
    LowLimb(b);
    ClearsLowLimb(Val(t[i..]), t[i], u0, Val(b), b[0], mm, Val(n), u1, BASE);
    WindowDown(r, i, 2 * Val(n));
    r := r[i := u0];
    ghost var r2 := r;
    WindowTop(r[i + 1..], n);
    r := r[i + 1 + |n| + 1 := 0];
    assert r == r2;
  }

  /** The two calls of mpi_mul_hlp in a row. */
  method AddRows(t: seq<limb>, i: nat, u0: limb, b: seq<limb>, m: nat, n: seq<limb>, u1: limb) returns (r: seq<limb>)
    requires m <= |b| && m <= |n| && Val(b[..m]) == Val(b) && i + |n| < |t|
    requires Val(t[i..]) + u0 * Val(b) + u1 * Val(n) < Pow(BASE, |t| - i)
    ensures |r| == |t| && r[..i] == t[..i] && Val(r[i..]) == Val(t[i..]) + u0 * Val(b) + u1 * Val(n)
  {
    hide Val, Pow;
    WindowRoom(t, i, u0 * Val(b));
    r := MulHlp(m, b, t, i, u0);
    WindowAdd(t, r, i, u0 * Val(b));
    ghost var r1 := r;
    WindowRoom(r1, i, u1 * Val(n));
    assert n[..|n|] == n;
    r := MulHlp(|n|, n, r, i, u1);
    WindowAdd(r1, r, i, u1 * Val(n));
  }

  /** A window divisible by BASE moves up one limb. */
  lemma WindowDown(r: seq<limb>, i: nat, bound: nat)
    requires i < |r| && Divides(BASE, Val(r[i..])) && Val(r[i..]) < BASE * bound
    ensures BASE * Val(r[i + 1..]) == Val(r[i..]) && Val(r[i + 1..]) < bound
  {
    hide Val, Pow, Divides, Congruent;
    LowLimb(r[i..]);
    ValCons(r[i..]);
    assert r[i..][1..] == r[i + 1..];
    ZeroLimb(r[i], Val(r[i..]), BASE);
    FactorBound(Val(r[i + 1..]), bound, BASE);
  }

  /** The window has n + 2 limbs above limb i. */
  lemma RowRoom(n: seq<limb>, size: nat)
    requires size >= |n| + 2
    ensures BASE * (2 * Val(n)) <= Pow(BASE, size)
  {
    hide Val, Pow;
    BaseBounds();
    ValBound(n);
    PowStep(BASE, |n|);
    PowStep(BASE, |n| + 1);
    PowMonotone(BASE, |n| + 2, size);
    RoomTwice(Val(n), Pow(BASE, |n|), BASE, Pow(BASE, |n| + 1), Pow(BASE, |n| + 2));
  }

  lemma RoomTwice(v: nat, w: nat, base: nat, w1: nat, w2: nat)
    requires v < w && base >= 2 && w1 == base * w && w2 == base * w1
    ensures base * (2 * v) <= w2
  {
    MulMonotone(v, w, base);
    MulMonotone(2, base, base * v);
    MulMonotone(base * v, w1, base);
    assert 2 * (base * v) == base * (2 * v);
  }

  lemma ZeroLimb(x: limb, v: int, base: nat)
    requires base == BASE && Congruent(v, x, base) && Divides(base, v)
    ensures x == 0
  {
    DividesCombination(base, v, v - x, 1, -1);
    assert 1 * v + -1 * (v - x) == x;
    var k := Cofactor(base, x);
    if k > 0 { MulMonotone(1, k, base); }
  }

  lemma WindowTop(w: seq<limb>, n: seq<limb>)
    requires Val(w) < 2 * Val(n) && |n| + 1 < |w|
    ensures w[|n| + 1] == 0 && forall k :: |n| + 1 <= k < |w| ==> w[k] == 0
  {
    hide Val, Pow;
    BaseBounds();
    ValBound(n);
    PowStep(BASE, |n|);
    MulMonotone(2, BASE, Pow(BASE, |n|));
    ValSmall(w, |n| + 1);
  }

  lemma RowCongruence(w: nat, d: nat, va: nat, vb: nat, u0: nat, u1: nat, n: nat, d': nat, base: nat)
    requires Congruent(w * d, va * vb, n) && base * d' == d + u0 * vb + u1 * n
    ensures Congruent(base * w * d', (va + u0 * w) * vb, n)
  {
    assert base * w * d' == w * (base * d');
    assert w * (d + u0 * vb + u1 * n) == w * d + (u0 * w) * vb + (w * u1) * n;
    assert (va + u0 * w) * vb == va * vb + (u0 * w) * vb;
    DividesMultiple(n, 1);
    DividesCombination(n, w * d - va * vb, 1 * n, 1, w * u1);
    assert 1 * (w * d - va * vb) + (w * u1) * (1 * n) == base * w * d' - (va + u0 * w) * vb;
  }

  /** The loop of mpi_montmul: BASE^n times the final window is A * B modulo N, and the window is below 2 * N. */
  method MontRows(a: seq<limb>, b: seq<limb>, m: nat, n: seq<limb>, mm: limb, size: nat) returns (t: seq<limb>)
    requires |n| <= |a| && Val(a[..|n|]) == Val(a) && 0 < m <= |b| && m <= |n| && Val(b[..m]) == Val(b) <= Val(n) && Val(n) > 0
    requires size >= 2 * |n| + 2 && Divides(BASE, mm * Val(n) + 1)
    ensures |t| == size && Val(t[|n|..]) < 2 * Val(n)
    ensures Congruent(Pow(BASE, |n|) * Val(t[|n|..]), Val(a) * Val(b), Val(n))
  {
    hide Val, Pow, Divides, Congruent;
    t := Zeros(size);
    var i := 0;
    ValZero(t[0..]);
    ValEmpty(a[..0]);
    CongruentRefl(0, Val(n));
    while i < |n|
      invariant i <= |n| && |t| == size
      invariant Val(t[i..]) < 2 * Val(n)
      invariant Congruent(Pow(BASE, i) * Val(t[i..]), Val(a[..i]) * Val(b), Val(n))
    {
      ghost var d, u1 := Val(t[i..]), 0;
      t, u1 := MontRow(t, i, a[i], b, m, n, mm);
      RowCongruence(Pow(BASE, i), d, Val(a[..i]), Val(b), a[i], u1, Val(n), Val(t[i + 1..]), BASE);
      PowStep(BASE, i);
      ValSnoc(a, i);
      i := i + 1;
    }
    MulEqual(Val(b), Val(a[..i]), Val(a));
  }

  /** mpi_montmul: A becomes the residue below N whose product with BASE^n is A * B modulo N. */
  method MontMul(A: Mpi, B: Mpi, N: Mpi, mm: limb, T: Mpi)
    requires A != N && A != T && B != T && N != T
    requires 0 < |N.p| < |A.p| && |B.p| > 0 && |T.p| >= 2 * |N.p| + 2
    requires Val(A.p) < Pow(BASE, |N.p|) && Val(B.p) <= Val(N.p) && Val(N.p) > 0
    requires Divides(BASE, mm * Val(N.p) + 1)
    modifies A, T
    ensures A.s == old(A.s) && |A.p| == old(|A.p|) && T.s == old(T.s) && |T.p| == old(|T.p|)
    ensures Val(A.p) < Val(N.p)
    ensures Congruent(Pow(BASE, |N.p|) * Val(A.p), old(Val(A.p)) * old(Val(B.p)), Val(N.p))
  {
    hide Val, Pow, Divides, Congruent;
    var n := |N.p|;
    var m := if |B.p| < n then |B.p| else n;
    ghost var a, b := Val(A.p), Val(B.p);
    LowPart(B.p, m, N.p);
    ValSmall(A.p, n);
    ValHighZero(A.p, n);
    T.p := MontRows(A.p, B.p, m, N.p, mm, |T.p|);
    MontReduce(A, N, T, n, a * b);
  }

  /** The end of mpi_montmul: the window is copied, and N subtracted if it is not below N; otherwise a subtraction is made in T. */
  method MontReduce(A: Mpi, N: Mpi, T: Mpi, n: nat, ghost product: int)
    requires A != N && A != T && N != T && 0 < n == |N.p| < |A.p| && |T.p| >= 2 * n + 2 && Val(A.p) < Pow(BASE, n)
    requires Val(N.p) > 0 && Val(T.p[n..]) < 2 * Val(N.p) && Congruent(Pow(BASE, n) * Val(T.p[n..]), product, Val(N.p))
    modifies A, T
    ensures A.s == old(A.s) && |A.p| == old(|A.p|) && T.s == old(T.s) && |T.p| == old(|T.p|)
    ensures Val(A.p) < Val(N.p) && Congruent(Pow(BASE, n) * Val(A.p), product, Val(N.p))
  {
    hide Val, Pow, Congruent;
    ValSmall(A.p, n);
    ghost var d := Val(T.p[n..]);
    CopiedWindow(T.p, A.p, N.p);
    A.p := T.p[n..2 * n + 1] + A.p[n + 1..];
    var order := A.CmpAbs(N);
    if order >= 0 {
      assert N.p[..n] == N.p;
      A.p := SubHlp(n, N.p, A.p);
      SubtractOnce(Pow(BASE, n), d, Val(N.p), product);
    } else {
      WindowBelow(T.p, A.p, n);
      T.p := SubHlp(n, A.p, T.p);
    }
  }

  lemma LowPart(b: seq<limb>, m: nat, n: seq<limb>)
    requires m == (if |b| < |n| then |b| else |n|) && Val(b) <= Val(n)
    ensures Val(b[..m]) == Val(b)
  {
    hide Val, Pow;
    ValBound(n);
    if |b| < |n| {
      assert b[..m] == b;
    } else {
      ValSmall(b, m);
      ValHighZero(b, m);
    }
  }

  /** The n + 1 limbs that are copied hold the whole window. */
  lemma CopiedWindow(t: seq<limb>, a: seq<limb>, n: seq<limb>)
    requires 2 * |n| + 2 <= |t| && |n| < |a| && Val(t[|n|..]) < 2 * Val(n) && forall k :: |n| <= k < |a| ==> a[k] == 0
    ensures Val(t[|n|..2 * |n| + 1] + a[|n| + 1..]) == Val(t[|n|..])
  {
    hide Val, Pow;
    var w, c := t[|n|..], t[|n|..2 * |n| + 1] + a[|n| + 1..];
    WindowTop(w, n);
    ValHighZero(w, |n| + 1);
    ValHighZero(c, |n| + 1);
    assert w[..|n| + 1] == c[..|n| + 1];
  }

  /** The dummy subtraction in the other branch does not borrow past the end of T. */
  lemma WindowBelow(t: seq<limb>, a: seq<limb>, n: nat)
    requires n <= |t| && n <= |a| && Val(a) == Val(t[n..])
    ensures Val(a[..n]) <= Val(t)
  {
    hide Val, Pow;
    ValSplit(a, n);
    ValSplit(t, n);
    Dominated(Val(a), Val(a[..n]), Val(a[n..]), Val(t), Val(t[..n]), Pow(BASE, n));
  }

  lemma Dominated(a: nat, low: nat, hi: nat, t: nat, tlow: nat, w: nat)
    requires w > 0 && a == low + w * hi && t == tlow + w * a
    ensures low <= t
  {
    MulMonotone(0, hi, w);
    MulMonotone(1, w, a);
  }

  lemma SubtractOnce(w: int, d: int, n: int, ab: int)
    requires Congruent(w * d, ab, n)
    ensures Congruent(w * (d - n), ab, n)
  {
    DividesMultiple(n, 1);
    DividesCombination(n, w * d - ab, 1 * n, 1, -w);
    assert 1 * (w * d - ab) + -w * (1 * n) == w * (d - n) - ab;
  }

  /** mpi_montred: multiplication by one removes the factor BASE^n. */
  method MontRed(A: Mpi, N: Mpi, mm: limb, T: Mpi)
    requires A != N && A != T && N != T && 0 < |N.p| < |A.p| && |T.p| >= 2 * |N.p| + 2
    requires Val(A.p) < Pow(BASE, |N.p|) && Val(N.p) > 0 && Divides(BASE, mm * Val(N.p) + 1)
    modifies A, T
    ensures A.s == old(A.s) && |A.p| == old(|A.p|) && T.s == old(T.s) && |T.p| == old(|T.p|)
    ensures Val(A.p) < Val(N.p)
    ensures Congruent(Pow(BASE, |N.p|) * Val(A.p), old(Val(A.p)), Val(N.p))
  {
    hide Val, Pow, Divides, Congruent;
    BaseBounds();
    var U := new Mpi();
    U.p := [1];
    ValOne(1);
    MontMul(A, U, N, mm, T);
  }

  // ---------------------------------------------------------------- Montgomery form

  /** a in Montgomery form with radix BASE^n. */
  ghost function Mont(a: nat, n: nat, N: nat): nat
    requires N > 0
  {
    Pow(BASE, n) * a % N
  }

  /** For an odd modulus the Montgomery product is unique. */
  lemma MontUnique(x: nat, y: nat, n: nat, N: nat)
    requires N % 2 == 1 && x < N && y < N && Congruent(Pow(BASE, n) * x, Pow(BASE, n) * y, N)
    ensures x == y
  {
    hide Pow, Congruent, Divides;
    BasePower(n);
    CancelRadix(x, y, n * BITS, N, Pow(BASE, n));
    CongruentUnique(x, y, N);
  }

  lemma CancelRadix(x: int, y: int, e: nat, N: int, w: nat)
    requires N % 2 == 1 && w == Pow(2, e) && Congruent(w * x, w * y, N)
    ensures Congruent(x, y, N)
  {
    hide Pow, Divides;
    assert w * x - w * y == w * (x - y);
    CancelPowerOfTwo(x - y, N, e);
  }

  /** Montgomery multiplication multiplies the numbers that are in Montgomery form. */
  lemma MontProduct(z: nat, a: nat, b: nat, n: nat, N: nat)
    requires N % 2 == 1 && z < N
    requires Congruent(Pow(BASE, n) * z, Mont(a, n, N) * Mont(b, n, N), N)
    ensures z == Mont(a * b, n, N)
  {
    hide Pow, Congruent;
    var w := Pow(BASE, n);
    CongruentMod(w * a, N);
    CongruentMod(w * b, N);
    CongruentMul(w * a % N, w * a, w * b % N, w * b, N);
    CongruentTrans(w * z, Mont(a, n, N) * Mont(b, n, N), (w * a) * (w * b), N);
    assert (w * a) * (w * b) == w * (w * (a * b));
    CongruentMod(w * (a * b), N);
    CongruentSym(w * (a * b) % N, w * (a * b), N);
    CongruentRefl(w, N);
    CongruentMul(w, w, w * (a * b), Mont(a * b, n, N), N);
    CongruentTrans(w * z, w * (w * (a * b)), w * Mont(a * b, n, N), N);
    MontUnique(z, Mont(a * b, n, N), n, N);
  }

  /** Montgomery reduction leaves the plain residue. */
  lemma MontOut(z: nat, a: nat, n: nat, N: nat)
    requires N % 2 == 1 && z < N && Congruent(Pow(BASE, n) * z, Mont(a, n, N), N)
    ensures z == a % N
  {
    hide Pow, Congruent;
    var w := Pow(BASE, n);
    CongruentMod(w * a, N);
    CongruentTrans(w * z, Mont(a, n, N), w * a, N);
    CongruentMod(a, N);
    CongruentSym(a % N, a, N);
    CongruentRefl(w, N);
    CongruentMul(w, w, a, a % N, N);
    CongruentTrans(w * z, w * a, w * (a % N), N);
    MontUnique(z, a % N, n, N);
  }
}
