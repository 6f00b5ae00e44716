/** Signed multi-precision integers: storage, comparison, shifts, addition, subtraction and multiplication. */
module Bignum {
  import opened Arithmetic
  import opened Limbs

  /** MBEDTLS_MPI_MAX_LIMBS */
  const MAX_LIMBS: nat

  /** Return codes, propagated where the C code uses MBEDTLS_MPI_CHK. Diverges stands for a call that does not return. */
  datatype Ret = Ok | AllocFailed | BadInput | NegativeValue | DivisionByZero | NotAcceptable | Diverges {
    predicate IsFailure() { !Ok? }
    function PropagateFailure(): Ret requires IsFailure() { this }
  }

  /** BITS_TO_LIMBS */
  function LimbsFor(e: nat): nat { (e + BITS - 1) / BITS }

  function Max(x: int, y: int): int { if x < y then y else x }

  function Abs(x: int): nat { if x < 0 then -x else x }

  /** The integer with the sign of s and magnitude v. */
  function Signed(s: int, v: int): int { if s < 0 then -v else v }

  // ---------------------------------------------------------------- single limbs

  /** Wrap-around addition with the carry read off by comparison. */
  lemma AddStep(x: limb, o: limb, c: nat)
    requires c <= 1
    ensures var u := (x + c) % BASE;
            var v := (u + o) % BASE;
            var c' := (if u < c then 1 else 0) + (if v < o then 1 else 0);
            c' <= 1 && v + c' * BASE == x + o + c
  {
    hide Pow;
    BaseBounds();
    var u := (x + c) % BASE;
    if x + c < BASE { DivModUnique(x + c, BASE, 0, x + c); } else { DivModUnique(x + c, BASE, 1, x + c - BASE); }
    if u + o < BASE { DivModUnique(u + o, BASE, 0, u + o); } else { DivModUnique(u + o, BASE, 1, u + o - BASE); }
  }

  lemma CarryStep(x: limb, c: limb)
    ensures var u := (x + c) % BASE;
            u + (if u < c then 1 else 0) * BASE == x + c
  {
    hide Pow;
    if x + c < BASE { DivModUnique(x + c, BASE, 0, x + c); } else { DivModUnique(x + c, BASE, 1, x + c - BASE); }
  }

  lemma BorrowStep(x: limb, o: limb, c: nat)
    requires c <= 1
    ensures var z := if x < c then 1 else 0;
            var u := (x - c) % BASE;
            var c' := (if u < o then 1 else 0) + z;
            var v := (u - o) % BASE;
            c' <= 1 && v == x - o - c + c' * BASE
  {
    hide Pow;
    BaseBounds();
    var u := (x - c) % BASE;
    if x < c { DivModUnique(x - c, BASE, -1, x - c + BASE); } else { DivModUnique(x - c, BASE, 0, x - c); }
    if u < o { DivModUnique(u - o, BASE, -1, u - o + BASE); } else { DivModUnique(u - o, BASE, 0, u - o); }
  }

  lemma BorrowOne(x: limb, c: nat)
    requires c <= 1
    ensures (x - c) % BASE == x - c + (if x < c then 1 else 0) * BASE
  {
    hide Pow;
    BaseBounds();
    if x < c { DivModUnique(x - c, BASE, -1, x - c + BASE); } else { DivModUnique(x - c, BASE, 0, x - c); }
  }

  /** MULADDC: a product plus two limbs never overflows two limbs. */
  lemma MulAddStep(x: nat, y: nat, d: nat, c: nat, base: nat)
    requires x < base && y < base && d < base && c < base
    ensures 0 <= (x * y + d + c) / base < base
  {
    ProductAtMost(x, y, base - 1);
    SquareAbove(base);
    DivBelowSquare(x * y + d + c, base);
  }

  lemma ProductAtMost(x: nat, y: nat, m: nat)
    requires x <= m && y <= m
    ensures 0 <= x * y <= m * m
  {
    MulMonotone(0, x, y);
    MulMonotone(x, m, y);
    MulMonotone(y, m, m);
  }

  lemma SquareAbove(base: nat)
    ensures (base - 1) * (base - 1) + 2 * (base - 1) < base * base
  {
    assert (base - 1) * (base - 1) == base * base - 2 * base + 1;
  }

  lemma DivBelowSquare(r: nat, base: nat)
    requires base > 0 && r < base * base
    ensures 0 <= r / base < base
  {
    DivModParts(r, base);
    var q := r / base;
    if q >= base { MulMonotone(base, q, base); }
    if q < 0 { MulMonotone(q, -1, base); }
  }

  /** Replacing limb i by v and moving carry c at i to carry c' at i + 1 keeps the total. */
  lemma CarryTotal(p: seq<nat>, i: nat, v: nat, c: int, c': int, add: int)
    requires i < |p| && v + c' * BASE == p[i] + c + add
    ensures Val(p[i := v]) + c' * Pow(BASE, i + 1) == Val(p) + (c + add) * Pow(BASE, i)
  {
    ValUpdate(p, i, v);
    CarryWeights(v, p[i], c, c', add, BASE, Pow(BASE, i));
  }

  lemma CarryWeights(v: int, q: int, c: int, c': int, add: int, base: int, w: int)
    requires v + c' * base == q + c + add
    ensures (v - q) * w + c' * (base * w) == (c + add) * w
  {
    assert c' * (base * w) == (c' * base) * w;
    assert (v - q) * w + (c' * base) * w == (v - q + c' * base) * w;
  }

  /** The same with a borrow. */
  lemma BorrowTotal(p: seq<nat>, i: nat, v: nat, c: int, c': int, o: int)
    requires i < |p| && v - c' * BASE == p[i] - c - o
    ensures Val(p[i := v]) - c' * Pow(BASE, i + 1) == Val(p) - c * Pow(BASE, i) - o * Pow(BASE, i)
  {
    assert v + (-c') * BASE == p[i] + (-c) + (-o);
    CarryTotal(p, i, v, -c, -c', -o);
    BorrowRegroup(o, c, c', Pow(BASE, i), Pow(BASE, i + 1));
  }

  lemma BorrowRegroup(o: int, c: int, c': int, w: int, w': int)
    ensures (-c + -o) * w == -(c * w) - o * w && (-c') * w' == -(c' * w')
  {
  }

  // ---------------------------------------------------------------- limb helpers

  // ---------------------------------------------------------------- addition on limbs

  /** The first loop of mbedtls_mpi_add_abs: the low j limbs of o are added to those of p; c is the carry out. */
  method AddOnto(p: seq<limb>, o: seq<limb>, j: nat) returns (r: seq<limb>, c: nat)
    requires j <= |p| && j <= |o| && Val(o[..j]) == Val(o)
    ensures |r| == |p| && c <= 1 && Val(r) + c * Pow(BASE, j) == Val(p) + Val(o)
  {
    hide Val, Pow;
    ValEmpty(o[..0]);
    r, c := p, 0;
    for i := 0 to j
      invariant |r| == |p| && c <= 1 && Val(r) + c * Pow(BASE, i) == Val(p) + Val(o[..i])
    {
      AddStep(r[i], o[i], c);
      AddTotal(r, i, c, o[i], Val(p), Val(o[..i]));
      ValSnoc(o, i);
      var u := (r[i] + c) % BASE;
      var v := (u + o[i]) % BASE;
      c := (if u < c then 1 else 0) + (if v < o[i] then 1 else 0);
      r := r[i := v];
    }
  }

  /** Every limb doubled, without carry. */
  function Doubled(p: seq<limb>): (r: seq<limb>)
    ensures |r| == |p| && forall k :: 0 <= k < |p| ==> r[k] == DoubledLimb(p[k])
  {
    seq(|p|, k requires 0 <= k < |p| => DoubledLimb(p[k]))
  }

  /** Limb addition wraps. */
  function AddLimb(x: limb, y: limb): (z: limb) {
    BaseBounds();
    (x as int + y as int) % BASE
  }

  function DoubledLimb(x: limb): limb {
    AddLimb(x, x)
  }

  lemma AddZero(x: limb)
    ensures BASE > 0 && AddLimb(x, 0) == x && AddLimb(0, 0) == 0
  {
    hide Pow;
    BaseBounds();
  }

  predicate TopBit(x: nat) {
    2 * x >= BASE
  }

  predicate NoTopBit(p: seq<limb>) {
    forall k :: 0 <= k < |p| ==> !TopBit(p[k])
  }

  function Less(x: nat, y: nat): nat {
    if x < y then 1 else 0
  }

  /** The same loop when the addend is the number itself: a limb is compared with itself, so no carry is ever seen. */
  method AddOntoItself(p: seq<limb>, j: nat) returns (r: seq<limb>, c: nat)
    requires j <= |p| && forall k :: j <= k < |p| ==> p[k] == 0
    ensures r == Doubled(p) && c == 0
  {
    hide Pow, AddLimb;
    BaseBounds();
    AddZero(0);
    r, c := p, 0;
    for i := 0 to j
      invariant |r| == |p| && c == 0
      invariant forall k :: 0 <= k < i ==> r[k] == DoubledLimb(p[k])
      invariant forall k :: i <= k < |p| ==> r[k] == p[k]
    {
      AddZero(r[i]);
      r := r[i := AddLimb(r[i], c)];
      c := Less(r[i], c);
      r := r[i := AddLimb(r[i], r[i])];
      c := c + Less(r[i], r[i]);
    }
  }

  /** What is lost: one unit of the next limb for every limb with its top bit set. */
  ghost function Lost(p: seq<limb>): (r: seq<limb>)
    ensures |r| == |p| && forall k :: 0 <= k < |p| ==> r[k] == if TopBit(p[k]) then 1 else 0
  {
    BaseBounds();
    seq(|p|, k requires 0 <= k < |p| => if TopBit(p[k]) then 1 else 0)
  }

  lemma {:induction false} DoubledTotal(p: seq<limb>)
    ensures Val(Doubled(p)) + BASE * Val(Lost(p)) == 2 * Val(p)
  {
    hide Pow, DoubledLimb, AddLimb;
    if |p| > 0 {
      var n := |p| - 1;
      var q, w := p[..n], Pow(BASE, n);
      DoubledTotal(q);
      assert Doubled(p)[..n] == Doubled(q) && Lost(p)[..n] == Lost(q);
      DoubledParts(p[n]);
      WeightParts(Doubled(p)[n], Lost(p)[n], p[n], w, BASE);
      ScaleSum(BASE, Val(Lost(q)), Lost(p)[n], w);
    } else {
      MulMonotone(0, 0, BASE);
    }
  }

  lemma DoubledParts(x: limb)
    ensures 2 * x == DoubledLimb(x) + BASE * (if TopBit(x) then 1 else 0)
  {
    hide Pow;
    BaseBounds();
    var b := if TopBit(x) then 1 else 0;
    DivModUnique(2 * x, BASE, b, 2 * x - b * BASE);
  }

  lemma WeightParts(a: int, l: int, x: int, w: int, base: int)
    requires 2 * x == a + base * l
    ensures 2 * (x * w) == a * w + l * (base * w)
  {
    assert (a + base * l) * w == a * w + l * (base * w);
  }

  /** Doubling limb by limb doubles the number exactly when no limb has its top bit set. */
  lemma DoubledExactly(p: seq<limb>)
    ensures Val(Doubled(p)) == 2 * Val(p) <==> NoTopBit(p)
  {
    hide Val, Pow, DoubledLimb, AddLimb;
    BaseBounds();
    DoubledTotal(p);
    if NoTopBit(p) {
      ValZero(Lost(p));
    } else {
      var k :| 0 <= k < |p| && TopBit(p[k]);
      ValLarge(Lost(p), k);
      MulMonotone(1, Val(Lost(p)), BASE);
    }
  }

  /** One limb with its top bit set is enough: BASE - 1 added to itself comes out as BASE - 2. */
  lemma SelfSumExample()
    ensures BASE > 0 && !NoTopBit([BASE - 1]) && Val(Doubled([BASE - 1])) == BASE - 2 != 2 * Val([BASE - 1])
  {
    hide Val, Pow;
    BaseBounds();
    var x: limb := BASE - 1;
    assert TopBit([x][0]);
    DoubledParts(x);
    ValOne(x);
    ValOne(DoubledLimb(x));
    assert Doubled([x]) == [DoubledLimb(x)];
  }

  /** The number of limbs up to the most significant nonzero one. */
  method SigLimbs(p: seq<limb>) returns (j: nat)
    ensures j <= |p| && (j > 0 ==> p[j - 1] != 0)
    ensures Val(p[..j]) == Val(p)
    ensures forall k :: j <= k < |p| ==> p[k] == 0
  {
    j := |p|;
    while j > 0 && p[j - 1] == 0
      invariant j <= |p| && forall k :: j <= k < |p| ==> p[k] == 0
    {
      j := j - 1;
    }
    ValHighZero(p, j);
  }

  /** mpi_sub_hlp: subtract the low n limbs of t from d; the borrow never runs past the end of d. */
  method SubHlp(n: nat, t: seq<limb>, d: seq<limb>) returns (r: seq<limb>)
    requires n <= |t| && n <= |d| && Val(t[..n]) <= Val(d)
    ensures |r| == |d| && Val(r) == Val(d) - Val(t[..n])
  {
    hide Val, Pow;
    r := d;
    var i, c := 0, 0;
    ValEmpty(t[..0]);
    while i < n
      invariant i <= n && c <= 1 && |r| == |d|
      invariant Val(r) - c * Pow(BASE, i) == Val(d) - Val(t[..i])
    {
      BorrowStep(r[i], t[i], c);
      var z := if r[i] < c then 1 else 0;
      var u := (r[i] - c) % BASE;
      var c' := (if u < t[i] then 1 else 0) + z;
      var v := (u - t[i]) % BASE;
      BorrowTotal(r, i, v, c, c', t[i]);
      ValSnoc(t, i);
      r, i, c := r[i := v], i + 1, c';
    }
    while c != 0
      invariant n <= i <= |d| && c <= 1 && |r| == |d|
      invariant Val(r) - c * Pow(BASE, i) == Val(d) - Val(t[..n])
      decreases |d| - i
    {
      if i == |d| {
        ValBound(r);
        assert false;
      }
      BorrowOne(r[i], c);
      var z := if r[i] < c then 1 else 0;
      var v := (r[i] - c) % BASE;
      BorrowTotal(r, i, v, c, z, 0);
      r, c, i := r[i := v], z, i + 1;
    }
  }

  /** mpi_mul_hlp: add b times the low n limbs of t to d, starting at limb off. */
  method MulHlp(n: nat, t: seq<limb>, d: seq<limb>, off: nat, b: limb) returns (r: seq<limb>)
    requires n <= |t| && off + n < |d|
    requires Val(d) + b * Val(t[..n]) * Pow(BASE, off) < Pow(BASE, |d|)
    ensures |r| == |d| && r[..off] == d[..off]
    ensures Val(r) == Val(d) + b * Val(t[..n]) * Pow(BASE, off)
  {
    hide Val, Pow;
    BaseBounds();
    r := d;
    var i, c: limb := 0, 0;
    ValEmpty(t[..0]);
    while i < n
      invariant i <= n && |r| == |d| && r[..off] == d[..off]
      invariant Val(r) + c * Pow(BASE, off + i) == Val(d) + b * Val(t[..i]) * Pow(BASE, off)
    {
      MulStepTotal(r, t, off, i, b, c, Val(d));
      var m: int := t[i] * b + r[off + i] + c;
      r, c, i := r[off + i := m % BASE], m / BASE, i + 1;
    }
    ghost var total := Val(d) + b * Val(t[..n]) * Pow(BASE, off);
    while true
      invariant n <= i && off + i < |d| && |r| == |d| && r[..off] == d[..off]
      invariant Val(r) + c * Pow(BASE, off + i) == total
      decreases |d| - i
    {
      CarryStep(r[off + i], c);
      var u := (r[off + i] + c) % BASE;
      var c' := if u < c then 1 else 0;
      CarryTotal(r, off + i, u, c, c', 0);
      r, c, i := r[off + i := u], c', i + 1;
      if c == 0 { break; }
      if off + i == |d| {
        ValBound(r);
        assert false;
      }
    }
  }

  lemma MulStepTotal(r: seq<limb>, t: seq<limb>, off: nat, i: nat, b: limb, c: limb, d: int)
    requires i < |t| && off + i < |r|
    requires Val(r) + c * Pow(BASE, off + i) == d + b * Val(t[..i]) * Pow(BASE, off)
    ensures var m: int := t[i] * b + r[off + i] + c;
            0 <= m / BASE < BASE
            && Val(r[off + i := m % BASE]) + (m / BASE) * Pow(BASE, off + i + 1)
               == d + b * Val(t[..i + 1]) * Pow(BASE, off)
  {
    hide Val, Pow;
    MulAddStep(t[i], b, r[off + i], c, BASE);
    var m: int := t[i] * b + r[off + i] + c;
    DivModParts(m, BASE);
    CarryTotal(r, off + i, m % BASE, c, m / BASE, t[i] * b);
    ValSnoc(t, i);
    PowAdd(BASE, i, off);
    MulRegroup(b, Val(t[..i]), t[i], Pow(BASE, i), Pow(BASE, off), c);
  }

  lemma DivModParts(m: int, base: nat)
    requires base > 0
    ensures m % base + m / base * base == m
  {
  }

  lemma MulRegroup(b: int, v: int, x: int, w: int, s: int, c: int)
    ensures b * (v + x * w) * s == b * v * s + (c + x * b) * (w * s) - c * (w * s)
  {
    assert b * (v + x * w) * s == b * v * s + b * (x * w) * s;
    assert b * (x * w) * s == (x * b) * (w * s);
  }

  // ---------------------------------------------------------------- comparing and shifting limb sequences

  /** Equal above limb i and larger at limb i is larger. */
  lemma ValGreater(p: seq<limb>, q: seq<limb>, i: nat)
    requires |p| == |q| && i < |p| && p[i] > q[i]
    requires forall k :: i < k < |p| ==> p[k] == q[k]
    ensures Val(p) > Val(q)
  {
    hide Val, Pow;
    ValSplit(p, i + 1);
    ValSplit(q, i + 1);
    assert p[i + 1..] == q[i + 1..];
    ValSnoc(p, i);
    ValSnoc(q, i);
    ValBound(q[..i]);
    DigitGreater(p[i], q[i], Val(p[..i]), Val(q[..i]), Pow(BASE, i));
  }

  lemma DigitGreater(x: int, y: int, low: int, low': int, w: int)
    requires x > y && 0 <= low && low' < w && 0 <= w
    ensures low + x * w > low' + y * w
  {
    MulMonotone(y + 1, x, w);
  }

  /** Shifting one limb left by t bits: r0 comes in at the bottom, r1 leaves at the top. */
  lemma ShiftLeftStep(x: limb, t: nat, r0: nat)
    requires 0 < t < BITS && r0 < Pow(2, t)
    ensures var r1 := x / Pow(2, BITS - t);
            var y := x * Pow(2, t) % BASE + r0;
            0 <= r1 < Pow(2, t) && 0 <= y < BASE && y + r1 * BASE == x * Pow(2, t) + r0
  {
    hide Pow;
    PowAdd(2, t, BITS - t);
    SplitProduct(x, Pow(2, t), Pow(2, BITS - t), r0, BASE);
  }

  lemma SplitProduct(x: nat, T: nat, H: nat, r0: nat, base: nat)
    requires T > 0 && H > 0 && base == T * H && x < base && r0 < T
    ensures 0 <= x / H < T && 0 <= x * T % base + r0 < base
    ensures x * T % base + r0 + x / H * base == x * T + r0
  {
    var a, l := x / H, x % H;
    ProductParts(x, a, l, H, T, base);
    DivModUnique(x * T, base, a, l * T);
  }

  lemma ProductParts(x: int, a: int, l: int, H: int, T: int, base: int)
    requires H > 0 && T > 0 && a == x / H && l == x % H && base == T * H && 0 <= x < base
    ensures x * T == a * base + l * T && 0 <= a < T && 0 <= l * T <= base - T
  {
    assert x == a * H + l;
    assert (a * H) * T == a * (T * H);
    if a >= T { MulMonotone(T, a, H); }
    MulMonotone(l + 1, H, T);
  }

  lemma ShiftTotal(lo: int, r0: int, w: int, T: int, lq: int, y: int, r1: int, x: int, base: int)
    requires lo + r0 * w == T * lq && y + r1 * base == x * T + r0
    ensures lo + y * w + r1 * (base * w) == T * (lq + x * w)
  {
    assert r1 * (base * w) == (r1 * base) * w;
    assert y * w + (r1 * base) * w == (x * T + r0) * w;
    assert (x * T) * w == T * (x * w);
  }

  /** Shifting limb x right by v bits, below a higher part hi that was already shifted to lo. */
  lemma ShiftRightStep(x: limb, v: nat, hi: nat, full: nat, lo: nat, r0: int)
    requires 0 < v < BITS && full == x + BASE * hi
    requires lo == hi / Pow(2, v) && r0 == hi % Pow(2, v) * Pow(2, BITS - v)
    ensures var z := x / Pow(2, v) + r0;
            0 <= z < BASE && full / Pow(2, v) == z + BASE * lo
    ensures x * Pow(2, BITS - v) % BASE == full % Pow(2, v) * Pow(2, BITS - v)
  {
    hide Pow;
    PowAdd(2, v, BITS - v);
    SplitQuotient(x, Pow(2, v), Pow(2, BITS - v), hi, BASE, full, lo, r0);
  }

  lemma SplitQuotient(x: nat, T: nat, H: nat, hi: nat, base: nat, full: nat, lo: nat, r0: int)
    requires T > 0 && H > 0 && base == T * H && x < base && full == x + base * hi
    requires lo == hi / T && r0 == hi % T * H
    ensures 0 <= x / T + r0 < base && full / T == x / T + r0 + base * lo
    ensures x * H % base == full % T * H
  {
    var a, b := QuotientRemainder(x, T);
    var l, m := QuotientRemainder(hi, T);
    FullParts(a, b, T, H, l, m, hi, base, x, full);
    DivModUnique(full, T, a + m * H + base * l, b);
    DigitInLimb(a, b, m, T, H, x, base);
    LowDigit(a, b, T, H, x, base);
  }

  lemma QuotientRemainder(x: nat, m: nat) returns (q: nat, r: nat)
    requires m > 0
    ensures x == q * m + r && r < m && q == x / m && r == x % m
  {
    DivModParts(x, m);
    if x / m < 0 { MulMonotone(x / m, -1, m); }
    q, r := x / m, x % m;
  }

  /** All of the number in terms of the halves on both sides of bit v. */
  lemma FullParts(a: nat, b: nat, T: nat, H: nat, l: nat, m: nat, hi: nat, base: nat, x: nat, full: nat)
    requires x == a * T + b && hi == l * T + m && base == T * H && full == x + base * hi
    ensures full == (a + m * H + base * l) * T + b
  {
    assert base * (l * T) == base * l * T;
    assert base * m == m * H * T;
    assert (a + m * H + base * l) * T == a * T + m * H * T + base * l * T;
    assert base * hi == base * (l * T) + base * m;
  }

  lemma DigitInLimb(a: nat, b: nat, m: nat, T: nat, H: nat, x: nat, base: nat)
    requires x == a * T + b && base == T * H && x < base && m < T
    ensures 0 <= a + m * H < base
  {
    MulMonotone(0, m, H);
    if a >= H { MulMonotone(H, a, T); }
    MulMonotone(m + 1, T, H);
    assert (m + 1) * H == m * H + H;
  }

  lemma LowDigit(a: nat, b: nat, T: nat, H: nat, x: nat, base: nat)
    requires H > 0 && x == a * T + b && b < T && base == T * H
    ensures x * H % base == b * H
  {
    MulMonotone(0, b, H);
    MulMonotone(b + 1, T, H);
    assert (b + 1) * H == b * H + H;
    assert x * H == a * base + b * H by { assert (a * T + b) * H == a * T * H + b * H; MulAssoc(a, T, H); }
    DivModUnique(x * H, base, a, b * H);
  }

  lemma TopBitClear(x: nat, j: nat)
    requires j > 0 && x < Pow(2, j) && x / Pow(2, j - 1) % 2 == 0
    ensures x < Pow(2, j - 1)
  {
    var h := Pow(2, j - 1);
    if x >= h { DivModUnique(x, h, 1, x - h); }
  }

  lemma LowBitClear(x: nat, j: nat)
    requires x % Pow(2, j) == 0 && x / Pow(2, j) % 2 == 0
    ensures x % Pow(2, j + 1) == 0
  {
    var h := Pow(2, j);
    var q := x / h;
    assert x == q / 2 * (2 * h);
    DivModUnique(x, 2 * h, q / 2, 0);
  }

  lemma BasePower(i: nat)
    ensures Pow(BASE, i) == Pow(2, i * BITS)
  {
    hide Pow;
    PowZero(2);
    PowSplit(2, BITS, i, 0, i * BITS);
  }

  lemma BitlenOf(p: seq<limb>, i: nat, j: nat)
    requires i < |p| && (forall k :: i < k < |p| ==> p[k] == 0) && (i > 0 ==> p[i] != 0)
    requires j <= BITS && p[i] < Pow(2, j) && (j > 0 ==> p[i] / Pow(2, j - 1) % 2 != 0)
    ensures var r := i * BITS + j;
            Val(p) < Pow(2, r) && (r > 0 ==> Pow(2, r - 1) <= Val(p))
  {
    hide Val, Pow;
    ValHighZero(p, i + 1);
    ValSnoc(p, i);
    ValBound(p[..i]);
    var w, low := Pow(BASE, i), Val(p[..i]);
    PowSplit(2, BITS, i, j, i * BITS + j);
    DigitRange(low, p[i], w, Pow(2, j));
    if j > 0 {
      TopBitSet(p[i], Pow(2, j - 1));
      PowSplit(2, BITS, i, j - 1, i * BITS + j - 1);
      MulMonotone(Pow(2, j - 1), p[i], w);
    } else {
      PowZero(2);
    }
  }

  lemma TopBitSet(x: nat, h: nat)
    requires h > 0 && x / h % 2 != 0
    ensures x >= h
  {
    if x < h { DivModUnique(x, h, 0, x); }
  }

  lemma DigitRange(low: nat, x: nat, w: nat, top: nat)
    requires low < w && x < top
    ensures low + x * w < w * top
  {
    MulMonotone(x + 1, top, w);
  }

  lemma LsbOf(p: seq<limb>, i: nat, j: nat)
    requires i < |p| && (forall k :: 0 <= k < i ==> p[k] == 0)
    requires j < BITS && p[i] % Pow(2, j) == 0 && p[i] / Pow(2, j) % 2 != 0
    ensures var r := i * BITS + j;
            Val(p) > 0 && Val(p) % Pow(2, r) == 0 && Val(p) / Pow(2, r) % 2 == 1
  {
    hide Val, Pow;
    ValSplit(p, i);
    ValZero(p[..i]);
    ValCons(p[i..]);
    assert p[i..][1..] == p[i + 1..];
    PowSplit(2, BITS, i, j, i * BITS + j);
    PowAdd(2, j, BITS - j);
    PowStep(2, BITS - j - 1);
    DivModParts(p[i], Pow(2, j));
    OddPart(Pow(BASE, i), Pow(2, j), p[i] / Pow(2, j), Pow(2, BITS - j - 1), Val(p[i + 1..]), p[i], BASE, Val(p), Pow(2, i * BITS + j));
  }

  lemma OddPart(w: nat, T: nat, o: nat, H: nat, hi: nat, x: nat, base: nat, v: nat, wT: nat)
    requires w > 0 && T > 0 && o % 2 == 1 && x == o * T && base == T * (2 * H)
    requires v == w * (x + base * hi) && wT == w * T
    ensures v > 0 && v % wT == 0 && v / wT % 2 == 1
  {
    MulMonotone(0, H, hi);
    var q := o + 2 * (H * hi);
    OddFactor(T, o, H, hi, base);
    MulEqual(w, x + base * hi, q * T);
    Swapped(w, q, T);
    MulMonotone(1, T, w);
    MulMonotone(1, q, wT);
    DivModUnique(v, wT, q, 0);
  }

  lemma Swapped(w: int, q: int, T: int)
    ensures w * (q * T) == q * (w * T)
  {
  }

  lemma OddFactor(T: nat, o: nat, H: nat, hi: nat, base: nat)
    requires base == T * (2 * H)
    ensures o * T + base * hi == (o + 2 * (H * hi)) * T
  {
    assert base * hi == 2 * (H * hi) * T;
  }

  /** After growing, a left shift by count bits fits in the limbs of x, and no more limbs were added than it needs. */
  lemma ShiftFits(x: seq<limb>, n0: nat, len: nat, count: nat, q: nat)
    requires q * BITS <= count && Val(x) < Pow(2, len) && |x| == Max(n0, LimbsFor(len + count))
    requires len > 0 ==> Pow(2, len - 1) <= Val(x)
    ensures q <= |x|
    ensures Val(x) * Pow(2, count) < Pow(BASE, |x|)
    ensures |x| > n0 && Val(x) > 0 ==> Val(x) * Pow(2, count) >= Pow(BASE, |x| - 1)
  {
    hide Val, Pow;
    var e := len + count;
    LimbCount(e, count, q, |x|, BITS);
    BasePower(|x|);
    PowAdd(2, len, count);
    MulStrict(Val(x), Pow(2, len), Pow(2, count));
    PowMonotone(2, e, |x| * BITS);
    if |x| > n0 && Val(x) > 0 {
      PowZero(2);
      BasePower(|x| - 1);
      PowAdd(2, len - 1, count);
      MulMonotone(Pow(2, len - 1), Val(x), Pow(2, count));
      PowMonotone(2, (|x| - 1) * BITS, e - 1);
    }
  }

  lemma LimbCount(e: nat, count: nat, q: nat, n: nat, bits: nat)
    requires bits > 0 && q * bits <= count <= e && (e + bits - 1) / bits <= n
    ensures e <= n * bits && q <= n
    ensures n == (e + bits - 1) / bits && e > 0 ==> (n - 1) * bits <= e - 1
  {
    var m := (e + bits - 1) / bits;
    MulMonotone(m, n, bits);
    DivModParts(e + bits - 1, bits);
    if q > n { MulMonotone(n + 1, q, bits); }
  }

  lemma LimbsEnough(e: nat, n: nat, bits: nat)
    requires bits > 0 && e <= n * bits
    ensures (e + bits - 1) / bits <= n
  {
    var m := (e + bits - 1) / bits;
    DivModParts(e + bits - 1, bits);
    if m > n { MulMonotone(n + 1, m, bits); }
  }

  /** Moving limbs up by v places multiplies by BASE^v when nothing significant falls off the top. */
  lemma MoveUp(x: seq<limb>, y: seq<limb>, v: nat)
    requires v <= |x| == |y| && Val(x) * Pow(BASE, v) < Pow(BASE, |x|)
    requires forall k :: 0 <= k < v ==> y[k] == 0
    requires forall k :: v <= k < |x| ==> y[k] == x[k - v]
    ensures Val(y) == Val(x) * Pow(BASE, v)
  {
    hide Val, Pow;
    var n := |x| - v;
    PowAdd(BASE, n, v);
    FactorBound(Val(x), Pow(BASE, n), Pow(BASE, v));
    ValSmall(x, n);
    ValHighZero(x, n);
    ValSplit(y, v);
    ValZero(y[..v]);
    assert y[v..] == x[..n];
    OnlyHigh(Val(y), Val(y[..v]), Pow(BASE, v), Val(y[v..]), Val(x));
  }

  lemma OnlyHigh(v: int, low: int, w: int, high: int, x: int)
    requires v == low + w * high && low == 0 && high == x
    ensures v == x * w
  {
  }

  lemma FactorBound(x: int, y: int, w: int)
    requires w > 0 && x * w < y * w
    ensures x < y
  {
    if x >= y { MulMonotone(y, x, w); }
  }

  lemma CountSplit(x: nat, count: nat, q: nat, t: nat, n: nat)
    requires count == q * BITS + t && x * Pow(2, count) < Pow(BASE, n)
    ensures x * Pow(BASE, q) < Pow(BASE, n)
    ensures x * Pow(2, count) == Pow(2, t) * (x * Pow(BASE, q))
  {
    hide Val, Pow;
    PowSplit(2, BITS, q, t, count);
    ScaleTwice(x, Pow(BASE, q), Pow(2, t), Pow(2, count));
  }

  /** The values after each of the two phases of a left shift. */
  lemma ShiftPlan(x: seq<limb>, v: nat, n0: nat, len: nat, count: nat, q: nat, t: nat) returns (moved: nat, total: nat)
    requires v == Val(x) && count == q * BITS + t
    requires v < Pow(2, len) && |x| == Max(n0, LimbsFor(len + count)) && (len > 0 ==> Pow(2, len - 1) <= v)
    ensures q <= |x|
    ensures total == v * Pow(2, count) && moved == v * Pow(BASE, q) && total == Pow(2, t) * moved
    ensures moved < Pow(BASE, |x|) && total < Pow(BASE, |x|)
    ensures (q == 0 ==> moved == v) && (t == 0 ==> total == moved)
    ensures |x| > n0 && total > 0 ==> total >= Pow(BASE, |x| - 1)
  {
    hide Val, Pow;
    moved, total := v * Pow(BASE, q), v * Pow(2, count);
    PowZero(BASE);
    PowZero(2);
    ShiftFits(x, n0, len, count, q);
    CountSplit(v, count, q, t, |x|);
  }

  lemma ScaleTwice(x: nat, a: nat, b: nat, ab: nat)
    requires ab == a * b && b > 0
    ensures x * a <= x * ab && x * ab == b * (x * a)
  {
    assert x * (a * b) == b * (x * a);
    MulMonotone(1, b, x * a);
  }

  lemma NoOverflow(v: nat, r: nat, w: nat)
    requires v + r * w < w
    ensures r == 0
  {
    if r > 0 { MulMonotone(1, r, w); }
  }

  /** A signed multi-precision integer: sign s and limbs p, whose length is the allocated size n. */
  class Mpi {
    var s: int
    var p: seq<limb>

    ghost predicate Valid()
      reads this
    {
      s == 1 || s == -1
    }

    /** The integer that the object stands for. */
    ghost function Value(): int
      reads this
    {
      Signed(s, Val(p))
    }

    constructor ()
      ensures Valid() && s == 1 && p == []
    {
      s, p := 1, [];
    }

    /** mbedtls_mpi_grow: calloc either succeeds or fails, and fails above the limb limit. */
    method Grow(n: nat) returns (ret: Ret)
      modifies this
      ensures s == old(s)
      ensures ret == Ok || ret == AllocFailed
      ensures ret.Ok? ==> |p| == Max(old(|p|), n) && n <= MAX_LIMBS
      ensures !ret.Ok? ==> p == old(p)
      ensures old(p) <= p && Val(p) == old(Val(p))
      ensures forall k :: old(|p|) <= k < |p| ==> p[k] == 0
    {
      if n > MAX_LIMBS { return AllocFailed; }
      if |p| < n {
        var calloc: bool := *;
        if !calloc { return AllocFailed; }
        ghost var p0 := p;
        p := p + Zeros(n - |p|);
        ValHighZero(p, |p0|);
        assert p[..|p0|] == p0;
      }
      return Ok;
    }

    /** mbedtls_mpi_copy */
    method Copy(Y: Mpi) returns (ret: Ret)
      requires Valid() && Y.Valid()
      modifies this
      ensures Valid()
      ensures ret == Ok || ret == AllocFailed
      ensures ret.Ok? ==> Value() == old(Y.Value()) && Val(p) == old(Val(Y.p))
      ensures ret.Ok? && old(|Y.p|) > 0 ==> s == old(Y.s) && |p| > 0 && |p| >= old(|p|)
      ensures ret.Ok? && old(Y.s) == 1 ==> s == 1
      ensures ret.Ok? && this != Y && old(|Y.p|) > 0 ==>
                exists i :: 1 <= i <= old(|Y.p|) && |p| == Max(old(|p|), i) && (i == 1 || old(Y.p[i - 1]) != 0)
    {
      hide Val, Pow;
      if this == Y { return Ok; }
      if |Y.p| == 0 {
        s, p := 1, [];
        ValEmpty(Y.p);
        return Ok;
      }
      var i: nat := |Y.p| - 1;
      while i > 0 && Y.p[i] == 0
        invariant i < |Y.p| && forall k :: i < k < |Y.p| ==> Y.p[k] == 0
      {
        i := i - 1;
      }
      i := i + 1;
      s := Y.s;
      :- Grow(i);
      ghost var y := Y.p;
      assert |p| == Max(old(|p|), i);
      p := Y.p[..i] + Zeros(|p| - i);
      ValHighZero(p, i);
      ValHighZero(Y.p, i);
      assert p[..i] == Y.p[..i];
      return Ok;
    }

    /** mbedtls_mpi_lset */
    method Lset(z: int) returns (ret: Ret)
      requires Abs(z) < BASE
      modifies this
      ensures ret == Ok || ret == AllocFailed
      ensures ret.Ok? ==> Valid() && Value() == z && s == (if z < 0 then -1 else 1) && |p| == Max(old(|p|), 1)
      ensures ret.Ok? ==> forall k :: 1 <= k < |p| ==> p[k] == 0
      ensures !ret.Ok? ==> s == old(s) && p == old(p)
    {
      var v: limb := Abs(z);
      :- Grow(1);
      p := [v] + Zeros(|p| - 1);
      s := if z < 0 then -1 else 1;
      ValHighZero(p, 1);
      assert p[..1] == [v];
      ValOne(v);
      return Ok;
    }

    /** mbedtls_mpi_cmp_abs */
    method CmpAbs(Y: Mpi) returns (r: int)
      ensures -1 <= r <= 1
      ensures r < 0 <==> Val(p) < Val(Y.p)
      ensures r > 0 <==> Val(p) > Val(Y.p)
    {
      hide Val, Pow;
      var i := SigLimbs(p);
      var j := SigLimbs(Y.p);
      if i == 0 && j == 0 { return 0; }
      if i > j {
        ValLarge(p, i - 1);
        ValBound(Y.p[..j]);
        PowMonotone(BASE, j, i - 1);
        return 1;
      }
      if j > i {
        ValLarge(Y.p, j - 1);
        ValBound(p[..i]);
        PowMonotone(BASE, i, j - 1);
        return -1;
      }
      ghost var n := i;
      while i > 0
        invariant 0 <= i <= n <= |p| && n <= |Y.p|
        invariant forall k :: i <= k < n ==> p[k] == Y.p[k]
      {
        if p[i - 1] > Y.p[i - 1] {
          ValGreater(p[..n], Y.p[..n], i - 1);
          return 1;
        }
        if p[i - 1] < Y.p[i - 1] {
          ValGreater(Y.p[..n], p[..n], i - 1);
          return -1;
        }
        i := i - 1;
      }
      assert p[..n] == Y.p[..n];
      return 0;
    }

    /** mbedtls_mpi_cmp_mpi */
    method CmpMpi(Y: Mpi) returns (r: int)
      requires Valid() && Y.Valid()
      ensures -1 <= r <= 1
      ensures r < 0 <==> Value() < Y.Value()
      ensures r > 0 <==> Value() > Y.Value()
    {
      r := CmpSigned(s, p, Y.s, Y.p);
    }

    /** mbedtls_mpi_cmp_int */
    method CmpInt(z: int) returns (r: int)
      requires Valid() && Abs(z) < BASE
      ensures -1 <= r <= 1
      ensures r < 0 <==> Value() < z
      ensures r > 0 <==> Value() > z
    {
      var v: limb := Abs(z);
      ValOne(v);
      r := CmpSigned(s, p, if z < 0 then -1 else 1, [v]);
    }

    /** mbedtls_mpi_bitlen */
    method Bitlen() returns (r: nat)
      ensures Val(p) < Pow(2, r)
      ensures r > 0 ==> Pow(2, r - 1) <= Val(p)
    {
      hide Val, Pow;
      PowZero(2);
      if |p| == 0 {
        ValEmpty(p);
        return 0;
      }
      var i: nat := |p| - 1;
      while i > 0 && p[i] == 0
        invariant i < |p| && forall k :: i < k < |p| ==> p[k] == 0
      {
        i := i - 1;
      }
      var j: nat := BITS;
      while j > 0 && p[i] / Pow(2, j - 1) % 2 == 0
        invariant j <= BITS && p[i] < Pow(2, j)
      {
        TopBitClear(p[i], j);
        j := j - 1;
      }
      BitlenOf(p, i, j);
      return i * BITS + j;
    }

    /** mbedtls_mpi_lsb */
    method Lsb() returns (r: nat)
      ensures Val(p) == 0 ==> r == 0
      ensures Val(p) > 0 ==> Val(p) % Pow(2, r) == 0 && Val(p) / Pow(2, r) % 2 == 1
    {
      hide Val, Pow;
      var i, count := 0, 0;
      while i < |p|
        invariant i <= |p| && count == i * BITS
        invariant forall k :: 0 <= k < i ==> p[k] == 0
      {
        var j: nat := 0;
        PowZero(2);
        while j < BITS
          invariant j <= BITS && count == i * BITS + j
          invariant p[i] % Pow(2, j) == 0
        {
          if p[i] / Pow(2, j) % 2 != 0 {
            LsbOf(p, i, j);
            return count;
          }
          LowBitClear(p[i], j);
          j, count := j + 1, count + 1;
        }
        DivModUnique(p[i], BASE, 0, p[i]);
        i := i + 1;
      }
      ValZero(p);
      return 0;
    }

    /** Room for e bits. */
    method GrowToBits(e: nat) returns (ret: Ret)
      modifies this
      ensures s == old(s)
      ensures ret == Ok || ret == AllocFailed
      ensures ret.Ok? ==> |p| == Max(old(|p|), LimbsFor(e))
      ensures |p| >= old(|p|) && Val(p) == old(Val(p))
    {
      hide Val, Pow;
      if |p| * BITS < e {
        var n := LimbsFor(e);
        ret := Grow(n);
      } else {
        LimbsEnough(e, |p|, BITS);
        return Ok;
      }
    }

    /** mbedtls_mpi_shift_l */
    method ShiftL(count: nat) returns (ret: Ret)
      modifies this
      ensures s == old(s) && |p| >= old(|p|)
      ensures ret == Ok || ret == AllocFailed
      ensures ret.Ok? ==> Val(p) == old(Val(p)) * Pow(2, count)
      ensures ret.Ok? && |p| > old(|p|) && Val(p) > 0 ==> Val(p) >= Pow(BASE, |p| - 1)
    {
      hide Val, Pow;
      var v0: nat, t1: nat := count / BITS, count % BITS;
      DivModParts(count, BITS);
      var len := Bitlen();
      ghost var n0, v := |p|, Val(p);
      :- GrowToBits(len + count);
      ghost var moved, total := ShiftPlan(p, v, n0, len, count, v0, t1);
      if v0 > 0 {
        p := MoveLimbsUp(p, v0, moved);
      }
      if t1 > 0 {
        p := ShiftBitsUp(p, v0, t1, total);
      }
      return Ok;
    }

    /** mbedtls_mpi_shift_r: shifts the magnitude; the early exit resets the number to zero. */
    method ShiftR(count: nat) returns (ret: Ret)
      requires Valid()
      modifies this
      ensures Valid()
      ensures ret == Ok || ret == AllocFailed
      ensures ret.Ok? ==> Val(p) == old(Val(p)) / Pow(2, count) && |p| >= old(|p|)
      ensures ret.Ok? ==> s == old(s) || (s == 1 && Val(p) == 0)
    {
      hide Val, Pow;
      var v0: nat, v1: nat := count / BITS, count % BITS;
      DivModParts(count, BITS);
      ShiftOut(p, count, v0, v1);
      if v0 > |p| || (v0 == |p| && v1 > 0) {
        ret := Lset(0);
        return;
      }
      if v0 > 0 {
        p := MoveLimbsDown(p, v0);
      }
      if v1 > 0 {
        p := ShiftBitsDown(p, v1);
      }
      return Ok;
    }

    /** mbedtls_mpi_add_abs: the carry may extend the number by one limb. When all three arguments are one object, every limb
        is doubled without carry, which is the sum exactly when no limb has its top bit set. */
    method AddAbs(A: Mpi, B: Mpi) returns (ret: Ret)
      requires Valid() && A.Valid() && B.Valid()
      modifies this
      ensures Valid()
      ensures ret == Ok || ret == AllocFailed
      ensures ret.Ok? ==> s == 1
      ensures ret.Ok? && !(this == A == B) ==> Val(p) == old(Val(A.p)) + old(Val(B.p))
      ensures ret.Ok? && this == A == B ==> p == Doubled(old(p)) && (Val(p) == 2 * old(Val(p)) <==> NoTopBit(old(p)))
      ensures ret.Ok? && old(|A.p|) > 0 && old(|B.p|) > 0 ==> |p| >= old(|p|) && |p| > 0
    {
      hide Val, Pow;
      var a, b := A, B;
      if this == B { a, b := this, A; }
      if this != a {
        ret := Copy(a);
        if !ret.Ok? { return; }
      }
      s := 1;
      var j := SigLimbs(b.p);
      ret := Grow(j);
      if !ret.Ok? { return; }
      var c;
      if this == b {
        DoubledExactly(p);
        p, c := AddOntoItself(p, j);
      } else {
        ghost var total := Val(p) + Val(b.p);
        p, c := AddOnto(p, b.p, j);
        ret := CarryUp(j, c, total);
      }
    }

    /** The last loop of mbedtls_mpi_add_abs: the carry runs up from limb i and may extend the number. */
    method CarryUp(i0: nat, c0: nat, ghost total: nat) returns (ret: Ret)
      requires i0 <= |p| && c0 <= 1 && Val(p) + c0 * Pow(BASE, i0) == total
      modifies this
      ensures ret == Ok || ret == AllocFailed
      ensures s == old(s) && |p| >= old(|p|) && (ret.Ok? ==> Val(p) == total)
    {
      hide Val, Pow;
      var i: nat, c: nat := i0, c0;
      while c != 0
        invariant i <= |p| && old(|p|) <= |p| && c <= 1 && s == old(s)
        invariant Val(p) + c * Pow(BASE, i) == total
        decreases c, |p| - i
      {
        if i >= |p| {
          var room := i + 1;
          ret := Grow(room);
          if !ret.Ok? { return; }
        }
        BaseBounds();
        CarryStep(p[i], c);
        var u := (p[i] + c) % BASE;
        var c' := if u < c then 1 else 0;
        CarryTotal(p, i, u, c, c', 0);
        p, c, i := p[i := u], c', i + 1;
      }
      return Ok;
    }

    /** An operand that survives writing to this object: Y itself, or a copy when Y is this object. */
    method Apart(Y: Mpi) returns (ret: Ret, Z: Mpi)
      requires Y.Valid()
      ensures Z.Valid() && (Z == Y || fresh(Z))
      ensures ret == Ok || ret == AllocFailed
      ensures ret.Ok? ==> Z != this && Val(Z.p) == Val(Y.p) && Z.Value() == Y.Value()
    {
      hide Val, Pow;
      Z, ret := Y, Ok;
      if this == Y {
        Z := new Mpi();
        ret := Z.Copy(Y);
      }
    }

    /** mbedtls_mpi_sub_abs */
    method SubAbs(A: Mpi, B: Mpi) returns (ret: Ret)
      requires Valid() && A.Valid() && B.Valid()
      modifies this
      ensures Valid()
      ensures ret == NegativeValue <==> old(Val(A.p)) < old(Val(B.p))
      ensures ret == Ok || ret == AllocFailed || ret == NegativeValue
      ensures ret.Ok? ==> s == 1 && Val(p) == old(Val(A.p)) - old(Val(B.p))
      ensures ret.Ok? && old(|A.p|) > 0 ==> |p| >= old(|p|) && |p| > 0
      ensures ret == NegativeValue ==> s == old(s) && p == old(p)
    {
      hide Val, Pow;
      var order := A.CmpAbs(B);
      if order < 0 { return NegativeValue; }
      var b;
      ret, b := Apart(B);
      if !ret.Ok? { return; }
      if this != A {
        ret := Copy(A);
        if !ret.Ok? { return; }
      }
      s := 1;
      var n := SigLimbs(b.p);
      if n > 0 { ValLarge(b.p, n - 1); }
      LimbsHold(p, n);
      p := SubHlp(n, b.p, p);
      return Ok;
    }

    /** mbedtls_mpi_add_mpi. When all three arguments are one object the sum is right exactly when no limb has its top bit set. */
    method AddMpi(A: Mpi, B: Mpi) returns (ret: Ret)
      requires Valid() && A.Valid() && B.Valid()
      modifies this
      ensures Valid()
      ensures ret == Ok || ret == AllocFailed
      ensures ret.Ok? && !(this == A == B) ==> Value() == old(A.Value()) + old(B.Value())
      ensures ret.Ok? && this == A == B ==> (Value() == old(Value()) + old(Value()) <==> NoTopBit(old(p)))
      ensures ret.Ok? && old(|A.p|) > 0 && old(|B.p|) > 0 ==> |p| >= old(|p|) && |p| > 0
    {
      hide Val, Pow;
      var sign := A.s;
      if A.s * B.s < 0 {
        var order := A.CmpAbs(B);
        if order >= 0 {
          ret := SubAbs(A, B);
          if !ret.Ok? { return; }
          s := sign;
        } else {
          ret := SubAbs(B, A);
          if !ret.Ok? { return; }
          s := -sign;
        }
      } else {
        ret := AddAbs(A, B);
        if !ret.Ok? { return; }
        s := sign;
      }
    }

    /** mbedtls_mpi_sub_mpi */
    method SubMpi(A: Mpi, B: Mpi) returns (ret: Ret)
      requires Valid() && A.Valid() && B.Valid()
      modifies this
      ensures Valid()
      ensures ret == Ok || ret == AllocFailed
      ensures ret.Ok? ==> Value() == old(A.Value()) - old(B.Value())
      ensures ret.Ok? && old(A.s) == 1 && old(A.Value()) >= old(B.Value()) ==> s == 1
      ensures ret.Ok? && old(|A.p|) > 0 && old(|B.p|) > 0 ==> |p| >= old(|p|) && |p| > 0
    {
      hide Val, Pow;
      var sign := A.s;
      if A.s * B.s > 0 {
        var order := A.CmpAbs(B);
        if order >= 0 {
          ret := SubAbs(A, B);
          if !ret.Ok? { return; }
          s := sign;
        } else {
          ret := SubAbs(B, A);
          if !ret.Ok? { return; }
          s := -sign;
        }
      } else {
        ret := AddAbs(A, B);
        if !ret.Ok? { return; }
        s := sign;
      }
    }

    /** mbedtls_mpi_mul_mpi: schoolbook multiplication, one limb of B at a time from the top. */
    method MulMpi(A: Mpi, B: Mpi) returns (ret: Ret)
      requires Valid() && A.Valid() && B.Valid()
      modifies this
      ensures Valid()
      ensures ret == Ok || ret == AllocFailed
      ensures ret.Ok? ==> Value() == old(A.Value()) * old(B.Value())
      ensures ret.Ok? ==> |p| >= old(|p|) && |p| > 0
    {
      hide Val, Pow;
      var a, b;
      ret, a := Apart(A);
      if !ret.Ok? { return; }
      ret, b := Apart(B);
      if !ret.Ok? { return; }
      var i := SigLimbs(a.p);
      var j := SigLimbs(b.p);
      :- Grow(i + j);
      :- Lset(0);
      p := MulLimbs(a.p, i, b.p, j, p);
      MulSigns(a.s, b.s, Val(a.p), Val(b.p));
      s := a.s * b.s;
      return Ok;
    }

    /** mbedtls_mpi_mul_int */
    method MulInt(A: Mpi, b: limb) returns (ret: Ret)
      requires Valid() && A.Valid()
      modifies this
      ensures Valid()
      ensures ret == Ok || ret == AllocFailed
      ensures ret.Ok? ==> Value() == old(A.Value()) * b
      ensures ret.Ok? ==> |p| >= old(|p|) && |p| > 0
    {
      hide Val, Pow;
      var B := new Mpi();
      B.p := [b];
      ValOne(b);
      ret := MulMpi(A, B);
    }
  }

  /** A value of at least BASE^(n-1) occupies at least n limbs. */
  lemma LimbsHold(p: seq<limb>, n: nat)
    requires n > 0 ==> Val(p) >= Pow(BASE, n - 1)
    ensures n <= |p|
  {
    hide Val, Pow;
    if n > |p| {
      ValBound(p);
      PowMonotone(BASE, |p|, n - 1);
    }
  }

  lemma MulStart(a: seq<limb>, i: nat, b: seq<limb>, j: nat)
    requires i <= |a| && j <= |b|
    ensures Val(a[..i]) * Val(b[..j]) < Pow(BASE, i + j)
  {
    hide Val, Pow;
    ValBound(a[..i]);
    ValBound(b[..j]);
    PowAdd(BASE, i, j);
    ProductBound(Val(a[..i]), Val(b[..j]), Pow(BASE, i), Pow(BASE, j));
  }

  lemma ProductBound(x: nat, y: nat, u: nat, v: nat)
    requires x < u && y < v
    ensures x * y < u * v
  {
    MulMonotone(x, u, y);
    MulStrict(y, v, u);
  }

  /** One row of schoolbook multiplication stays inside the limbs of p and moves one limb of b out of the total. */
  lemma MulRow(a: seq<limb>, i: nat, b: seq<limb>, j: nat, j0: nat, p: seq<limb>)
    requires 0 < j <= j0 <= |b| && i <= |a| && i + j0 <= |p|
    requires Val(p) + Val(a[..i]) * Val(b[..j]) == Val(a[..i]) * Val(b[..j0])
    ensures var row := b[j - 1] * Val(a[..i]) * Pow(BASE, j - 1);
            Val(p) + row < Pow(BASE, |p|)
            && Val(p) + row + Val(a[..i]) * Val(b[..j - 1]) == Val(a[..i]) * Val(b[..j0])
  {
    hide Val, Pow;
    ValSnoc(b, j - 1);
    MulStart(a, i, b, j0);
    PowMonotone(BASE, i + j0, |p|);
    RowRegroup(Val(a[..i]), Val(b[..j - 1]), b[j - 1], Pow(BASE, j - 1), Val(b[..j]));
  }

  lemma RowRegroup(x: nat, low: nat, d: nat, w: nat, v: nat)
    requires v == low + d * w
    ensures x * v == d * x * w + x * low && 0 <= x * low
  {
    assert x * (d * w) == d * x * w;
  }

  /** The row loop of mbedtls_mpi_mul_mpi, on a zeroed accumulator. */
  method MulLimbs(a: seq<limb>, i: nat, b: seq<limb>, j: nat, zero: seq<limb>) returns (p: seq<limb>)
    requires i <= |a| && j <= |b| && i + j <= |zero| && Val(zero) == 0
    requires Val(a[..i]) == Val(a) && Val(b[..j]) == Val(b)
    ensures |p| == |zero| && Val(p) == Val(a) * Val(b)
  {
    hide Val, Pow;
    p := zero;
    var k := j;
    while k > 0
      invariant 0 <= k <= j && |p| == |zero|
      invariant Val(p) + Val(a[..i]) * Val(b[..k]) == Val(a[..i]) * Val(b[..j])
    {
      MulRow(a, i, b, k, j, p);
      p := MulHlp(i, a, p, k - 1, b[k - 1]);
      k := k - 1;
    }
    ValEmpty(b[..0]);
    MulEqual(Val(a), Val(b[..j]), Val(b));
  }

  lemma MulSigns(s: int, t: int, x: nat, y: nat)
    requires (s == 1 || s == -1) && (t == 1 || t == -1)
    ensures s * t == 1 || s * t == -1
    ensures Signed(s * t, x * y) == Signed(s, x) * Signed(t, y)
  {
  }

  method ClearLow(x: seq<limb>, v: nat) returns (y: seq<limb>)
    requires v <= |x|
    ensures |y| == |x| && y[v..] == x[v..] && forall k :: 0 <= k < v ==> y[k] == 0
  {
    hide Pow;
    BaseBounds();
    y := x;
    var i := v;
    while i > 0
      invariant 0 <= i <= v && |y| == |x| && y[v..] == x[v..]
      invariant forall k :: i <= k < v ==> y[k] == 0
    {
      y := y[i - 1 := 0];
      i := i - 1;
    }
  }

  /** First phase of mbedtls_mpi_shift_l: by whole limbs, from the top down. */
  method MoveLimbsUp(x: seq<limb>, v: nat, ghost moved: nat) returns (y: seq<limb>)
    requires v <= |x| && moved == Val(x) * Pow(BASE, v) < Pow(BASE, |x|)
    ensures |y| == |x| && Val(y) == moved
    ensures forall k :: 0 <= k < v ==> y[k] == 0
  {
    hide Val, Pow;
    y := x;
    var i := |x|;
    while i > v
      invariant v <= i <= |y| == |x|
      invariant forall k :: i <= k < |x| ==> y[k] == x[k - v]
      invariant forall k :: 0 <= k < i ==> y[k] == x[k]
    {
      y := y[i - 1 := y[i - v - 1]];
      i := i - 1;
    }
    ghost var high := y[v..];
    y := ClearLow(y, v);
    assert forall k :: v <= k < |x| ==> y[k] == high[k - v];
    MoveUp(x, y, v);
  }

  /** Second phase of mbedtls_mpi_shift_l: by t bits, starting at limb v below which all limbs are zero. */
  method ShiftBitsUp(x: seq<limb>, v: nat, t: nat, ghost total: nat) returns (y: seq<limb>)
    requires v <= |x| && 0 < t < BITS && total == Pow(2, t) * Val(x) < Pow(BASE, |x|)
    requires forall k :: 0 <= k < v ==> x[k] == 0
    ensures |y| == |x| && Val(y) == total
  {
    hide Val, Pow;
    y := x;
    var r0: int, i: nat := 0, v;
    ValZero(x[..v]);
    while i < |x|
      invariant v <= i <= |y| == |x| && 0 <= r0 < Pow(2, t)
      invariant forall k :: i <= k < |x| ==> y[k] == x[k]
      invariant Val(y[..i]) + r0 * Pow(BASE, i) == Pow(2, t) * Val(x[..i])
    {
      ShiftLeftStep(x[i], t, r0);
      var r1: int := y[i] / Pow(2, BITS - t);
      var z: limb := y[i] * Pow(2, t) % BASE + r0;
      ShiftTotal(Val(y[..i]), r0, Pow(BASE, i), Pow(2, t), Val(x[..i]), z, r1, x[i], BASE);
      PowStep(BASE, i);
      ValSnoc(x, i);
      ValSnoc(y[i := z], i);
      assert y[i := z][..i] == y[..i];
      y, r0, i := y[i := z], r1, i + 1;
    }
    assert y[..i] == y && x[..i] == x;
    NoOverflow(Val(y), r0, Pow(BASE, |x|));
  }

  /** First phase of mbedtls_mpi_shift_r: by whole limbs. */
  method MoveLimbsDown(x: seq<limb>, v: nat) returns (y: seq<limb>)
    requires v <= |x|
    ensures |y| == |x| && Val(y) == Val(x) / Pow(BASE, v)
  {
    hide Val, Pow;
    y := x;
    var i := 0;
    while i < |x| - v
      invariant i <= |x| - v && |y| == |x|
      invariant forall k :: 0 <= k < i ==> y[k] == x[k + v]
      invariant forall k :: i <= k < |x| ==> y[k] == x[k]
    {
      y := y[i := y[i + v]];
      i := i + 1;
    }
    while i < |x|
      invariant |x| - v <= i <= |x| == |y|
      invariant forall k :: 0 <= k < |x| - v ==> y[k] == x[k + v]
      invariant forall k :: |x| - v <= k < i ==> y[k] == 0
    {
      y := y[i := 0];
      i := i + 1;
    }
    var n := |x| - v;
    ValHighZero(y, n);
    assert y[..n] == x[v..];
    ValSplit(x, v);
    ValBound(x[..v]);
    DivModUnique(Val(x), Pow(BASE, v), Val(y), Val(x[..v]));
  }

  /** Second phase of mbedtls_mpi_shift_r: by v bits, from the top limb down. */
  method ShiftBitsDown(x: seq<limb>, v: nat) returns (y: seq<limb>)
    requires 0 < v < BITS
    ensures |y| == |x| && Val(y) == Val(x) / Pow(2, v)
  {
    hide Val, Pow;
    y := x;
    var r0: int, i := 0, |x|;
    ValEmpty(x[i..]);
    while i > 0
      invariant 0 <= i <= |x| == |y|
      invariant forall k :: 0 <= k < i ==> y[k] == x[k]
      invariant Val(y[i..]) == Val(x[i..]) / Pow(2, v)
      invariant r0 == Val(x[i..]) % Pow(2, v) * Pow(2, BITS - v)
    {
      ValCons(x[i - 1..]);
      assert x[i - 1..][1..] == x[i..];
      ShiftRightStep(x[i - 1], v, Val(x[i..]), Val(x[i - 1..]), Val(y[i..]), r0);
      var r1: int := y[i - 1] * Pow(2, BITS - v) % BASE;
      var z: limb := y[i - 1] / Pow(2, v) + r0;
      ghost var y' := y[i - 1 := z];
      ValCons(y'[i - 1..]);
      assert y'[i - 1..][1..] == y[i..];
      y, r0, i := y[i - 1 := z], r1, i - 1;
    }
    assert y[0..] == y && x[0..] == x;
  }

  /** A right shift is the division by BASE^q followed by the division by 2^t; a shift past the top leaves zero. */
  lemma ShiftOut(p: seq<limb>, count: nat, q: nat, t: nat)
    requires count == q * BITS + t
    ensures Val(p) / Pow(2, count) == Val(p) / Pow(BASE, q) / Pow(2, t)
    ensures q > |p| || (q == |p| && t > 0) ==> Val(p) / Pow(2, count) == 0
    ensures q == 0 ==> Val(p) / Pow(BASE, q) == Val(p)
    ensures t == 0 ==> Val(p) / Pow(2, count) == Val(p) / Pow(BASE, q)
  {
    hide Val, Pow;
    PowZero(2);
    PowZero(BASE);
    PowSplit(2, BITS, q, t, count);
    DivDiv(Val(p), Pow(BASE, q), Pow(2, t), Pow(2, count));
    if q >= |p| {
      ValBound(p);
      PowMonotone(BASE, |p|, q);
      MulMonotone(1, Pow(2, t), Pow(BASE, q));
      DivModUnique(Val(p), Pow(2, count), 0, Val(p));
    }
  }

  lemma DivDiv(x: nat, a: nat, b: nat, ab: nat)
    requires a > 0 && b > 0 && ab == a * b
    ensures x / ab == x / a / b && ab > 0 && x / 1 == x
  {
    var u, v := x / a, x % a;
    var c, d := u / b, u % b;
    MulMonotone(d + 1, b, a);
    assert u * a == c * ab + d * a by { assert (c * b) * a == c * (a * b); }
    MulMonotone(1, b, a);
    DivModUnique(x, ab, c, d * a + v);
  }

  lemma AddTotal(p: seq<limb>, i: nat, c: nat, o: limb, x: int, lo: int)
    requires i < |p| && c <= 1 && Val(p) + c * Pow(BASE, i) == x + lo
    ensures var u := (p[i] + c) % BASE;
            var v := (u + o) % BASE;
            var c' := (if u < c then 1 else 0) + (if v < o then 1 else 0);
            Val(p[i := v]) + c' * Pow(BASE, i + 1) == x + (lo + o * Pow(BASE, i))
  {
    hide Val, Pow;
    AddStep(p[i], o, c);
    var u := (p[i] + c) % BASE;
    var v := (u + o) % BASE;
    var c' := (if u < c then 1 else 0) + (if v < o then 1 else 0);
    CarryTotal(p, i, v, c, c', o);
    assert (c + o) * Pow(BASE, i) == c * Pow(BASE, i) + o * Pow(BASE, i);
  }

  /** The body of mbedtls_mpi_cmp_mpi: magnitudes first, then signs, then limbs. */
  method CmpSigned(s: int, p: seq<limb>, t: int, q: seq<limb>) returns (r: int)
    requires (s == 1 || s == -1) && (t == 1 || t == -1)
    ensures -1 <= r <= 1
    ensures r < 0 <==> Signed(s, Val(p)) < Signed(t, Val(q))
    ensures r > 0 <==> Signed(s, Val(p)) > Signed(t, Val(q))
  {
    hide Val, Pow;
    var i: nat := SigLimbs(p);
    var j: nat := SigLimbs(q);
    ValEmpty(p[..0]);
    ValEmpty(q[..0]);
    if i == 0 && j == 0 { return 0; }
    if i > 0 { ValLarge(p, i - 1); }
    if j > 0 { ValLarge(q, j - 1); }
    if i > j {
      ValBound(q[..j]);
      PowMonotone(BASE, j, i - 1);
      return s;
    }
    if j > i {
      ValBound(p[..i]);
      PowMonotone(BASE, i, j - 1);
      return -t;
    }
    if s > 0 && t < 0 { return 1; }
    if t > 0 && s < 0 { return -1; }
    ghost var n := i;
    while i > 0
      invariant 0 <= i <= n <= |p| && n <= |q|
      invariant forall k :: i <= k < n ==> p[k] == q[k]
    {
      if p[i - 1] > q[i - 1] {
        ValGreater(p[..n], q[..n], i - 1);
        return s;
      }
      if p[i - 1] < q[i - 1] {
        ValGreater(q[..n], p[..n], i - 1);
        return -s;
      }
      i := i - 1;
    }
    assert p[..n] == q[..n];
    return 0;
  }
}
