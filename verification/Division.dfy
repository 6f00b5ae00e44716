/** Multi-precision long division (HAC 14.20) and reduction modulo a positive number. */
module Division {
  import opened Arithmetic
  import opened Limbs
  import opened Bignum

  // ---------------------------------------------------------------- the quotient digit

  /** The digit that the do-while loop settles on: the largest one not above q0 that passes the three-by-two-limb test. */
  ghost predicate Refined(q: nat, q0: nat, y2: nat, x3: nat) {
    q <= q0 && q * y2 <= x3 && (q == q0 || (q + 1) * y2 > x3)
  }

  /** A quotient never exceeds the quotient of the truncated operands. */
  lemma TruncatedQuotient(u: nat, v: nat, w: nat, xh: nat, xl: nat, yh: nat, yl: nat, q: nat)
    requires u == xh * w + xl && xl < w && v == yh * w + yl && q * v <= u
    ensures q * yh <= xh
  {
    assert q * v == (q * yh) * w + q * yl;
    if q * yh > xh { MulMonotone(xh + 1, q * yh, w); }
  }

  /** A digit that passes the test on the top limbs exceeds the true quotient by at most one. */
  lemma OneAddBackSuffices(u: nat, v: nat, w: nat, base: nat, xh: nat, xl: nat, yh: nat, yl: nat, q: nat)
    requires u == xh * w + xl && xl < w && v == yh * w + yl && yl < w
    requires q < base <= yh && q * yh <= xh
    ensures q * v < u + v
  {
    assert q * v == (q * yh) * w + q * yl;
    MulMonotone(q * yh, xh, w);
    MulMonotone(yl, w, q);
    MulMonotone(q, base, w);
    MulMonotone(base, yh, w);
  }

  lemma QuotientAbove(u: nat, v: nat, q: nat)
    requires v > 0 && q * v < u + v
    ensures q <= u / v + 1
  {
    DivModParts(u, v);
    if q >= u / v + 2 { MulMonotone(u / v + 2, q, v); }
  }

  /** The refined digit is never below the true digit and at most one above it. */
  lemma DigitWithinOne(u: nat, v: nat, w: nat, base: nat, xh: nat, xl: nat, yh: nat, yl: nat, q: nat, q0: nat)
    requires u == xh * w + xl && xl < w && v == yh * w + yl && yl < w && w > 0
    requires q0 < base <= yh && Refined(q, q0, yh, xh) && u / v <= q0
    ensures u / v <= q <= u / v + 1
  {
    MulMonotone(1, yh, w);
    OneAddBackSuffices(u, v, w, base, xh, xl, yh, yl, q);
    QuotientAbove(u, v, q);
    DivModParts(u, v);
    TruncatedQuotient(u, v, w, xh, xl, yh, yl, u / v);
    if u / v > q { MulMonotone(q + 1, u / v, yh); }
  }

  // ---------------------------------------------------------------- limbs of the operands

  /** hi is v with everything below weight w cut off. */
  ghost predicate Cut(v: nat, hi: nat, w: nat) {
    hi * w <= v < hi * w + w
  }

  /** Limb k of p, and zero below the lowest limb. */
  function At(p: seq<limb>, k: int): (x: limb)
    requires k < |p|
  {
    BaseBounds();
    if k < 0 then 0 else p[k]
  }

  /** Padding p with a zero limb below and cutting after limb k. */
  lemma PaddedCut(p: seq<limb>, k: nat, top: seq<limb>)
    requires k + |top| <= |p| + 1 && ([0] + p)[k..k + |top|] == top
    requires forall j :: 0 <= j < |p| && k + |top| <= j + 1 ==> p[j] == 0
    ensures Cut(BASE * Val(p), Val(top), Pow(BASE, k))
  {
    hide Val, Pow;
    BaseBounds();
    var z: seq<limb> := [0] + p;
    ValCons(z);
    assert z[1..] == p;
    ValSplit(z, k);
    ValBound(z[..k]);
    ValHighZero(z[k..], |top|);
    assert z[k..][..|top|] == top;
    CutSum(BASE * Val(p), Val(z[..k]), Pow(BASE, k), Val(z[k..]), Val(top));
  }

  lemma CutSum(v: nat, low: nat, w: nat, high: nat, hi: nat)
    requires v == low + w * high && high == hi && low < w
    ensures Cut(v, hi, w)
  {
  }

  lemma CutScale(v: nat, hi: nat, w: nat, k: nat)
    requires Cut(v, hi, w) && k > 0
    ensures Cut(v * k, hi, w * k)
  {
    MulMonotone(hi * w, v, k);
    MulStrict(v, hi * w + w, k);
    assert hi * w * k == hi * (w * k);
  }

  /** First estimate from the top two limbs of X and the top limb of Y, clamped to one limb. */
  method EstimateDigit(x1: limb, x0: limb, y: limb, ghost x2: nat) returns (q: limb)
    requires y > 0 && x2 == x1 * BASE + x0
    ensures q == if x1 >= y then BASE - 1 else x2 / y
  {
    hide Pow;
    BaseBounds();
    if x1 >= y { return BASE - 1; }
    var r: int := (x1 * BASE + x0) / y;
    DivModParts(x2, y);
    if r < 0 { MulMonotone(r, -1, y); }
    EstimateFits(x1, x0, y, BASE, r);
    if r > BASE - 1 { r := BASE - 1; }
    return r;
  }

  /** The clamp never changes the estimate: below the divisor's top limb the quotient is a digit. */
  lemma EstimateFits(x1: nat, x0: nat, y: nat, base: nat, r: int)
    requires x1 < y && x0 < base && r * y <= x1 * base + x0
    ensures r < base
  {
    if r >= base {
      MulMonotone(base, r, y);
      MulMonotone(x1 + 1, y, base);
    }
  }

  /** A temporary set to zero and its low limbs to the given ones. */
  method LoadLimbs(T: Mpi, xs: seq<limb>) returns (ret: Ret)
    requires T.Valid() && 1 <= |xs| <= |T.p|
    modifies T
    ensures T.Valid()
    ensures ret == Ok || ret == AllocFailed
    ensures ret.Ok? ==> T.s == 1 && |T.p| >= |xs| && Val(T.p) == Val(xs)
  {
    hide Val, Pow;
    BaseBounds();
    ret := T.Lset(0);
    if !ret.Ok? { return; }
    T.p := xs + T.p[|xs|..];
    ValHighZero(T.p, |xs|);
    assert T.p[..|xs|] == xs;
  }

  /** One round of the test: is digit q too large for the top limbs? */
  method DigitTooLarge(T1: Mpi, T2: Mpi, ys: seq<limb>, xs: seq<limb>, q: limb) returns (ret: Ret, large: bool)
    requires |ys| == 2 && |xs| == 3
    requires T1 != T2 && T1.Valid() && T2.Valid() && |T1.p| >= 2 && |T2.p| >= 3
    modifies T1, T2
    ensures T1.Valid() && T2.Valid()
    ensures ret == Ok || ret == AllocFailed
    ensures ret.Ok? ==> |T1.p| >= 2 && |T2.p| >= 3 && (large <==> q * Val(ys) > Val(xs))
  {
    hide Val, Pow;
    large := false;
    ret := LoadLimbs(T1, ys);
    if !ret.Ok? { return; }
    ret := T1.MulInt(T1, q);
    if !ret.Ok? { return; }
    ret := LoadLimbs(T2, xs);
    if !ret.Ok? { return; }
    var order := T1.CmpMpi(T2);
    large := order > 0;
  }

  /** The do-while loop: lower the digit until it passes the test. */
  method RefineDigit(T1: Mpi, T2: Mpi, ys: seq<limb>, xs: seq<limb>, q0: limb) returns (ret: Ret, q: limb)
    requires |ys| == 2 && |xs| == 3
    requires T1 != T2 && T1.Valid() && T2.Valid() && |T1.p| >= 2 && |T2.p| >= 3
    modifies T1, T2
    ensures T1.Valid() && T2.Valid()
    ensures ret == Ok || ret == AllocFailed
    ensures ret.Ok? ==> |T1.p| >= 2 && |T2.p| >= 3 && Refined(q, q0, Val(ys), Val(xs))
  {
    hide Val, Pow;
    q := q0;
    while true
      invariant T1.Valid() && T2.Valid() && |T1.p| >= 2 && |T2.p| >= 3
      invariant q <= q0 && (q == q0 || (q as int + 1) * Val(ys) > Val(xs))
      decreases q
    {
      var large;
      ret, large := DigitTooLarge(T1, T2, ys, xs, q);
      if !ret.Ok? || !large { return; }
      q := q - 1;
    }
  }

  // ---------------------------------------------------------------- one step of the division loop

  /** x / d is unchanged when both are scaled. */
  lemma ScaledQuotient(x: nat, d: nat, k: nat)
    requires d > 0 && k > 0
    ensures k * d > 0 && k * x / (k * d) == x / d
  {
    var q, r := x / d, x % d;
    DivModParts(x, d);
    MulStrict(r, d, k);
    MulMonotone(1, d, k);
    assert k * x == q * (k * d) + k * r by { assert k * (q * d) == q * (k * d); }
    DivModUnique(k * x, k * d, q, k * r);
  }

  /** The step's operands, cut to three limbs over two. */
  lemma DigitCuts(x: seq<limb>, y: seq<limb>, i: nat, t: nat, d: nat)
    requires t < i < |x| && t < |y| && y[t] > 0 && (forall k :: t < k < |y| ==> y[k] == 0)
    requires d == Val(y) * Pow(BASE, i - t - 1) && Val(x) < d * BASE
    ensures d > 0
    ensures Cut(BASE * Val(x), Val([At(x, i - 2), x[i - 1], x[i]]), Pow(BASE, i - 1))
    ensures Cut(BASE * d, Val([At(y, t - 1), y[t]]), Pow(BASE, i - 1))
    ensures BASE <= Val([At(y, t - 1), y[t]])
  {
    hide Val, Pow, Cut, At;
    BaseBounds();
    StepBounds(x, y, i, t, d);
    ThreeDown(x, i);
    TwoDown(y, t);
    PaddedCut(x, i - 1, [At(x, i - 2), x[i - 1], x[i]]);
    ShiftedCut(y, t, [At(y, t - 1), y[t]], i - t - 1, d);
    TwoLimbs(At(y, t - 1), y[t]);
  }

  lemma AtLimb(p: seq<limb>, k: nat)
    requires k < |p|
    ensures At(p, k) == p[k]
  {
  }

  lemma ThreeDown(p: seq<limb>, i: nat)
    requires 0 < i < |p|
    ensures ([0] + p)[i - 1..i + 2] == [At(p, i - 2), p[i - 1], p[i]]
  {
  }

  lemma TwoDown(p: seq<limb>, i: nat)
    requires i < |p|
    ensures ([0] + p)[i..i + 2] == [At(p, i - 1), p[i]]
  {
  }

  /** The cut of a number, shifted by whole limbs. */
  lemma ShiftedCut(p: seq<limb>, k: nat, top: seq<limb>, m: nat, d: nat)
    requires k + |top| <= |p| + 1 && ([0] + p)[k..k + |top|] == top
    requires forall j :: 0 <= j < |p| && k + |top| <= j + 1 ==> p[j] == 0
    requires d == Val(p) * Pow(BASE, m)
    ensures Cut(BASE * d, Val(top), Pow(BASE, k + m))
  {
    hide Val, Pow, Cut;
    BaseBounds();
    PaddedCut(p, k, top);
    CutScale(BASE * Val(p), Val(top), Pow(BASE, k), Pow(BASE, m));
    PowAdd(BASE, k, m);
    MulAssoc(BASE, Val(p), Pow(BASE, m));
  }

  /** The same operands, cut to two limbs over one. */
  lemma TopCuts(x: seq<limb>, y: seq<limb>, i: nat, t: nat, d: nat, x2: nat)
    requires t < i < |x| && t < |y| && y[t] > 0 && (forall k :: t < k < |y| ==> y[k] == 0)
    requires d == Val(y) * Pow(BASE, i - t - 1) && Val(x) < d * BASE && x2 == x[i] * BASE + x[i - 1]
    ensures d > 0 && Cut(BASE * Val(x), x2, Pow(BASE, i)) && Cut(BASE * d, y[t], Pow(BASE, i))
  {
    hide Val, Pow, Cut, At;
    BaseBounds();
    StepBounds(x, y, i, t, d);
    TwoDown(x, i);
    assert [At(x, i - 1), x[i]] == [x[i - 1], x[i]] by { AtLimb(x, i - 1); }
    PaddedCut(x, i, [x[i - 1], x[i]]);
    assert ([0] + y)[t + 1..t + 2] == [y[t]];
    ShiftedCut(y, t + 1, [y[t]], i - t - 1, d);
    TwoLimbs(x[i - 1], x[i]);
    ValOne(y[t]);
  }

  /** The true digit is a limb and at most the quotient of the top two limbs by the top one. */
  lemma DigitBelow(x: seq<limb>, y: seq<limb>, i: nat, t: nat, d: nat, x2: nat)
    requires t < i < |x| && t < |y| && y[t] > 0 && (forall k :: t < k < |y| ==> y[k] == 0)
    requires d == Val(y) * Pow(BASE, i - t - 1) && Val(x) < d * BASE && x2 == x[i] * BASE + x[i - 1]
    ensures d > 0 && Val(x) / d <= BASE - 1 && Val(x) / d <= x2 / y[t]
  {
    hide Val, Pow, Cut;
    BaseBounds();
    TopCuts(x, y, i, t, d, x2);
    QuotientBelow(Val(x), d, BASE);
    MulMonotone(1, d, BASE);
    CutQuotient(BASE * Val(x), BASE * d, Pow(BASE, i), x2, y[t]);
    ScaledQuotient(Val(x), d, BASE);
  }

  lemma StepBounds(x: seq<limb>, y: seq<limb>, i: nat, t: nat, d: nat)
    requires t < i < |x| && t < |y| && y[t] > 0 && (forall k :: t < k < |y| ==> y[k] == 0)
    requires d == Val(y) * Pow(BASE, i - t - 1) && Val(x) < d * BASE
    ensures d > 0 && forall k :: i < k < |x| ==> x[k] == 0
  {
    hide Val, Pow;
    ValLarge(y, t);
    ValHighZero(y, t + 1);
    ValBound(y[..t + 1]);
    var m := i - t - 1;
    MulMonotone(1, Val(y), Pow(BASE, m));
    PowAdd(BASE, t + 1, m);
    MulMonotone(Val(y), Pow(BASE, t + 1), Pow(BASE, m));
    PowStep(BASE, i);
    MulMonotone(d, Pow(BASE, i), BASE);
    ValSmall(x, i + 1);
  }

  lemma TwoLimbs(a: nat, b: nat)
    ensures Val([a, b]) == b * BASE + a
    ensures b > 0 ==> Val([a, b]) >= BASE
  {
    hide Val, Pow;
    ValCons([a, b]);
    assert [a, b][1..] == [b];
    ValOne(b);
    if b > 0 { MulMonotone(1, b, BASE); }
  }

  lemma QuotientBelow(x: nat, d: nat, k: nat)
    requires d > 0 && x < d * k
    ensures x / d <= k - 1
  {
    DivModParts(x, d);
    if x / d >= k { MulMonotone(k, x / d, d); }
  }

  lemma CutQuotient(u: nat, v: nat, w: nat, xh: nat, yh: nat)
    requires w > 0 && v > 0 && yh > 0 && Cut(u, xh, w) && Cut(v, yh, w)
    ensures u / v <= xh / yh
  {
    DivModParts(u, v);
    TruncatedQuotient(u, v, w, xh, u - xh * w, yh, v - yh * w, u / v);
    DivModParts(xh, yh);
    if u / v > xh / yh { MulMonotone(xh / yh + 1, u / v, yh); }
  }

  /** After subtracting q times d, one conditional addition of d restores the remainder. */
  lemma AddBack(x: nat, d: nat, q: nat)
    requires d > 0 && x / d <= q <= x / d + 1
    ensures x - q * d >= 0 ==> q == x / d && x - q * d == x % d
    ensures x - q * d < 0 ==> q == x / d + 1 && x - q * d + d == x % d
  {
    DivModParts(x, d);
    if q == x / d + 1 { assert q * d == x / d * d + d; }
  }

  /** T1 := (q * Y) << (BITS * m) */
  method ShiftedProduct(T1: Mpi, Y: Mpi, q: limb, m: nat, ghost d: nat) returns (ret: Ret)
    requires T1 != Y && T1.Valid() && Y.Valid() && Y.s == 1 && d == Val(Y.p) * Pow(BASE, m)
    modifies T1
    ensures T1.Valid()
    ensures ret == Ok || ret == AllocFailed
    ensures ret.Ok? ==> T1.Value() == q * d && |T1.p| >= old(|T1.p|) && |T1.p| > 0
  {
    hide Val, Pow;
    ret := T1.MulInt(Y, q);
    if !ret.Ok? { return; }
    assert Val(T1.p) == Val(Y.p) * q by { MulMonotone(0, q, Val(Y.p)); }
    ret := T1.ShiftL(BITS * m);
    BasePower(m);
    assert m * BITS == BITS * m;
    ProductOrder(Val(Y.p), q, Pow(BASE, m), d);
  }

  lemma ProductOrder(y: nat, q: nat, w: nat, d: nat)
    requires d == y * w
    ensures (y * q) * w == q * d && q * d >= 0
  {
    assert (y * q) * w == q * (y * w);
  }

  /** One iteration of the main loop: X becomes its remainder by d and the digit is the quotient. */
  method DivStep(X: Mpi, Y: Mpi, T1: Mpi, T2: Mpi, i: nat, t: nat, ghost d: nat) returns (ret: Ret, q: limb)
    requires X != Y && X != T1 && X != T2 && Y != T1 && Y != T2 && T1 != T2
    requires X.Valid() && Y.Valid() && T1.Valid() && T2.Valid() && |T1.p| >= 2 && |T2.p| >= 3
    requires t < i < |X.p| && t < |Y.p| && Y.p[t] > 0 && (forall k :: t < k < |Y.p| ==> Y.p[k] == 0) && Y.s == 1
    requires d == Val(Y.p) * Pow(BASE, i - t - 1) && X.Value() >= 0 && Val(X.p) < d * BASE
    modifies X, T1, T2
    ensures X.Valid() && T1.Valid() && T2.Valid()
    ensures ret == Ok || ret == AllocFailed
    ensures ret.Ok? ==> |X.p| >= old(|X.p|) && |T1.p| >= 2 && |T2.p| >= 3
    ensures ret.Ok? ==> d > 0 && q == old(Val(X.p)) / d && X.Value() == old(Val(X.p)) % d
  {
    hide Val, Pow;
    var q0 := EstimateDigit(X.p[i], X.p[i - 1], Y.p[t], X.p[i] * BASE + X.p[i - 1]);
    DigitBelow(X.p, Y.p, i, t, d, X.p[i] * BASE + X.p[i - 1]);
    ret, q := DivWithEstimate(X, Y, T1, T2, i, t, d, q0);
  }

  /** The iteration after any first estimate. An estimate that is not below the true digit is brought down to it;
      one that is too low stays as it is, and X keeps more than a divisor. */
  method DivWithEstimate(X: Mpi, Y: Mpi, T1: Mpi, T2: Mpi, i: nat, t: nat, ghost d: nat, q0: limb) returns (ret: Ret, q: limb)
    requires X != Y && X != T1 && X != T2 && Y != T1 && Y != T2 && T1 != T2
    requires X.Valid() && Y.Valid() && T1.Valid() && T2.Valid() && |T1.p| >= 2 && |T2.p| >= 3
    requires t < i < |X.p| && t < |Y.p| && Y.p[t] > 0 && (forall k :: t < k < |Y.p| ==> Y.p[k] == 0) && Y.s == 1
    requires d == Val(Y.p) * Pow(BASE, i - t - 1) && X.Value() >= 0 && Val(X.p) < d * BASE
    modifies X, T1, T2
    ensures X.Valid() && T1.Valid() && T2.Valid()
    ensures ret == Ok || ret == AllocFailed
    ensures ret.Ok? ==> |X.p| >= old(|X.p|) && |T1.p| >= 2 && |T2.p| >= 3
    ensures ret.Ok? ==> d > 0 && if old(Val(X.p)) / d <= q0 then q == old(Val(X.p)) / d && X.Value() == old(Val(X.p)) % d
                                 else q == q0 && X.Value() == old(Val(X.p)) - q0 * d >= d
  {
    hide Val, Pow, Refined, Cut;
    ghost var x := Val(X.p);
    var m := i - t - 1;
    var ys, xs := [At(Y.p, t - 1), Y.p[t]], [At(X.p, i - 2), X.p[i - 1], X.p[i]];
    DigitCuts(X.p, Y.p, i, t, d);
    ret, q := RefineDigit(T1, T2, ys, xs, q0);
    if !ret.Ok? { return; }
    DigitSettled(x, d, Pow(BASE, i - 1), BASE, Val(xs), Val(ys), q, q0);
    ret := ShiftedProduct(T1, Y, q, m, d);
    if !ret.Ok? { return; }
    ret := X.SubMpi(X, T1);
    if !ret.Ok? { return; }
    var order := X.CmpInt(0);
    if order < 0 {
      ret := AddShifted(X, Y, T1, m, d);
      if !ret.Ok? { return; }
      q := q - 1;
    }
  }

  /** What the refined digit leaves, and what one conditional addition makes of it. */
  lemma DigitSettled(x: nat, d: nat, w: nat, base: nat, xh: nat, yh: nat, q: nat, q0: nat)
    requires d > 0 && w > 0 && 0 < base && q0 < base <= yh
    requires Cut(base * x, xh, w) && Cut(base * d, yh, w) && Refined(q, q0, yh, xh)
    ensures x / d <= q0 && x - q * d >= 0 ==> q == x / d && x - q * d == x % d
    ensures x / d <= q0 && x - q * d < 0 ==> q == x / d + 1 && x - q * d + d == x % d
    ensures x / d > q0 ==> q == q0 && x - q * d >= d
  {
    hide Refined, Cut;
    if x / d <= q0 {
      DigitChosen(x, d, w, base, xh, yh, q, q0);
      AddBack(x, d, q);
    } else {
      DigitKept(x, d, w, base, xh, yh, q, q0);
    }
  }

  /** An estimate below the true digit passes the test at once. */
  lemma DigitKept(x: nat, d: nat, w: nat, base: nat, xh: nat, yh: nat, q: nat, q0: nat)
    requires d > 0 && w > 0 && 0 < base && q0 < x / d
    requires Cut(base * x, xh, w) && Cut(base * d, yh, w) && Refined(q, q0, yh, xh)
    ensures q == q0 && x - q * d >= d
  {
    var k := x / d;
    DivModParts(x, d);
    ScaledQuotient(x, d, base);
    DivModParts(base * x, base * d);
    TruncatedQuotient(base * x, base * d, w, xh, base * x - xh * w, yh, base * d - yh * w, k);
    if q < q0 { MulMonotone(q + 1, k, yh); }
    MulMonotone(q0 + 1, k, d);
    assert (q0 + 1) * d == q0 * d + d;
  }

  /** The add-back: the shifted divisor is added to X once. */
  method AddShifted(X: Mpi, Y: Mpi, T1: Mpi, m: nat, ghost d: nat) returns (ret: Ret)
    requires X != Y && X != T1 && Y != T1 && X.Valid() && Y.Valid() && T1.Valid()
    requires Y.s == 1 && |Y.p| > 0 && |X.p| > 0 && |T1.p| >= 2 && d == Val(Y.p) * Pow(BASE, m)
    modifies X, T1
    ensures X.Valid() && T1.Valid()
    ensures ret == Ok || ret == AllocFailed
    ensures ret.Ok? ==> |X.p| >= old(|X.p|) && |T1.p| >= 2 && X.Value() == old(X.Value()) + d
  {
    hide Val, Pow;
    ret := T1.Copy(Y);
    if !ret.Ok? { return; }
    ret := T1.ShiftL(BITS * m);
    if !ret.Ok? { return; }
    BasePower(m);
    assert m * BITS == BITS * m;
    ret := X.AddMpi(X, T1);
  }

  lemma DigitChosen(x: nat, d: nat, w: nat, base: nat, xh: nat, yh: nat, q: nat, q0: nat)
    requires d > 0 && w > 0 && 0 < base && q0 < base <= yh && x / d <= q0
    requires Cut(base * x, xh, w) && Cut(base * d, yh, w) && Refined(q, q0, yh, xh)
    ensures x / d <= q <= x / d + 1
  {
    hide Refined;
    ScaledQuotient(x, d, base);
    DigitWithinOne(base * x, base * d, w, base, xh, base * x - xh * w, yh, base * d - yh * w, q, q0);
  }

  // ---------------------------------------------------------------- long division of magnitudes

  /** y in [BASE^t, BASE^(t+1)) has its top limb at t. */
  lemma TopLimb(p: seq<limb>, t: nat)
    requires Pow(BASE, t) <= Val(p) < Pow(BASE, t + 1)
    ensures t < |p| && p[t] > 0 && forall k :: t < k < |p| ==> p[k] == 0
  {
    hide Val, Pow;
    LimbsHold(p, t + 1);
    ValSmall(p, t + 1);
    if p[t] == 0 {
      ValHighZero(p, t);
      ValBound(p[..t]);
    }
  }

  /** The top digit, found by repeated subtraction of Y << (BITS * (n - t)). */
  method TopDigit(X: Mpi, Y: Mpi, Z: Mpi, k: nat, ghost yk: nat) returns (ret: Ret)
    requires X != Y && X != Z && Y != Z && X.Valid() && Y.Valid() && Z.Valid()
    requires X.Value() >= 0 && Y.Value() == yk > 0 && |X.p| > 0 && |Y.p| > 0
    requires Val(X.p) < BASE * yk && k < |Z.p| && Val(Z.p) == 0
    modifies X, Z
    ensures X.Valid() && Z.Valid()
    ensures ret == Ok || ret == AllocFailed
    ensures ret.Ok? ==> |X.p| >= old(|X.p|) && |Z.p| == old(|Z.p|) && Z.s == old(Z.s)
    ensures ret.Ok? ==> Val(Z.p) == old(Val(X.p)) / yk * Pow(BASE, k) && X.Value() == old(Val(X.p)) % yk
    ensures ret.Ok? ==> forall j :: 0 <= j < k ==> Z.p[j] == 0
  {
    hide Val, Pow;
    ghost var x := Val(X.p);
    BaseBounds();
    PowZero(BASE);
    ValSmall(Z.p, 0);
    var order := X.CmpMpi(Y);
    while order >= 0
      invariant X.Valid() && X.Value() >= 0 && |X.p| >= old(|X.p|)
      invariant Z.s == old(Z.s) && |Z.p| == old(|Z.p|) && Val(Z.p) == Z.p[k] * Pow(BASE, k)
      invariant forall j :: 0 <= j < k ==> Z.p[j] == 0
      invariant x == Z.p[k] * yk + X.Value()
      invariant order < 0 <==> X.Value() < yk
      decreases X.Value()
    {
      DigitFits(x, Z.p[k], yk, X.Value(), BASE);
      var z: limb := Z.p[k] + 1;
      ValUpdate(Z.p, k, z);
      Increment(Z.p[k], Pow(BASE, k), yk);
      Z.p := Z.p[k := z];
      ret := X.SubMpi(X, Y);
      if !ret.Ok? { return; }
      order := X.CmpMpi(Y);
    }
    DivModUnique(x, yk, Z.p[k], X.Value());
    return Ok;
  }

  lemma DigitFits(x: nat, z: nat, y: nat, r: int, base: nat)
    requires x == z * y + r && r >= y > 0 && x < base * y
    ensures z + 1 < base
  {
    if z + 1 >= base { MulMonotone(base, z + 1, y); }
  }

  lemma Increment(z: int, w: int, y: int)
    ensures z * w + (z + 1 - z) * w == (z + 1) * w && (z + 1) * y == z * y + y
  {
  }

  /** The division loop on normalised magnitudes. */
  method DivLimbs(X: Mpi, Y: Mpi, Z: Mpi, T1: Mpi, T2: Mpi) returns (ret: Ret)
    requires X != Y && X != Z && X != T1 && X != T2 && Y != Z && Y != T1 && Y != T2 && Z != T1 && Z != T2 && T1 != T2
    requires X.Valid() && Y.Valid() && Z.Valid() && T1.Valid() && T2.Valid() && |T1.p| >= 2 && |T2.p| >= 3
    requires X.s == 1 && Y.s == 1 && Z.s == 1 && Val(Z.p) == 0
    requires 0 < |Y.p| && |X.p| < |Z.p| + |Y.p|
    requires Pow(BASE, |Y.p| - 1) <= Val(Y.p) <= Val(X.p)
    modifies X, Y, Z, T1, T2
    ensures X.Valid() && Z.Valid()
    ensures ret == Ok || ret == AllocFailed
    ensures ret.Ok? ==> Z.s == 1 && Val(Z.p) == old(Val(X.p)) / old(Val(Y.p))
    ensures ret.Ok? ==> X.Value() == old(Val(X.p)) % old(Val(Y.p)) && |X.p| > 0
  {
    hide Val, Pow;
    var n, t := |X.p| - 1, |Y.p| - 1;
    ghost var x, y := Val(X.p), Val(Y.p);
    LimbsHold(X.p, t + 1);
    ret := DivTop(X, Y, Z, n, t, x, y);
    if !ret.Ok? { return; }
    TopLimb(Y.p, t);
    ret := DivDigits(X, Y, Z, T1, T2, n, t, x, y);
  }

  /** The part before the main loop: Y is shifted up to X, the top digit taken, and Y shifted back. */
  method DivTop(X: Mpi, Y: Mpi, Z: Mpi, n: nat, t: nat, ghost x: nat, ghost y: nat) returns (ret: Ret)
    requires X != Y && X != Z && Y != Z && X.Valid() && Y.Valid() && Z.Valid() && X.s == 1 && Y.s == 1 && Z.s == 1
    requires x == Val(X.p) && y == Val(Y.p) && t <= n && n + 1 == |X.p| && t + 1 == |Y.p|
    requires Val(Z.p) == 0 && n - t < |Z.p| && Pow(BASE, t) <= y
    modifies X, Y, Z
    ensures X.Valid() && Y.Valid() && Z.Valid()
    ensures ret == Ok || ret == AllocFailed
    ensures ret.Ok? ==> |X.p| > n && |Y.p| > t && |Z.p| == old(|Z.p|) && Y.s == 1 && Z.s == 1 && Val(Y.p) == y < Pow(BASE, t + 1)
    ensures ret.Ok? ==> 0 <= X.Value() < y * Pow(BASE, n - t) && x == Val(Z.p) * y + X.Value()
    ensures ret.Ok? ==> forall k :: 0 <= k < n - t ==> Z.p[k] == 0
  {
    hide Val, Pow;
    ghost var w := Pow(BASE, n - t);
    ghost var yk := y * w;
    ValBound(X.p);
    ValBound(Y.p);
    TopScale(y, n, t, yk);
    BasePower(n - t);
    assert (n - t) * BITS == BITS * (n - t);
    ret := Y.ShiftL(BITS * (n - t));
    if !ret.Ok? { return; }
    ret := TopDigit(X, Y, Z, n - t, yk);
    if !ret.Ok? { return; }
    QuotientScale(x, yk, x / yk, w, y);
    ret := Y.ShiftR(BITS * (n - t));
    if !ret.Ok? { return; }
    DivModUnique(yk, w, y, 0);
  }

  /** The main loop: one digit per iteration, from limb n - t - 1 down to limb 0. */
  method DivDigits(X: Mpi, Y: Mpi, Z: Mpi, T1: Mpi, T2: Mpi, n: nat, t: nat, ghost x: nat, ghost y: nat) returns (ret: Ret)
    requires X != Y && X != Z && X != T1 && X != T2 && Y != Z && Y != T1 && Y != T2 && Z != T1 && Z != T2 && T1 != T2
    requires X.Valid() && Y.Valid() && Z.Valid() && T1.Valid() && T2.Valid() && |T1.p| >= 2 && |T2.p| >= 3
    requires t <= n < |X.p| && n - t < |Z.p| && t < |Y.p| && Y.s == 1 && Z.s == 1
    requires Val(Y.p) == y && Y.p[t] > 0 && forall k :: t < k < |Y.p| ==> Y.p[k] == 0
    requires forall k :: 0 <= k < n - t ==> Z.p[k] == 0
    requires 0 <= X.Value() < y * Pow(BASE, n - t) && x == Val(Z.p) * y + X.Value()
    modifies X, Z, T1, T2
    ensures X.Valid() && Z.Valid()
    ensures ret == Ok || ret == AllocFailed
    ensures ret.Ok? ==> y > 0 && Z.s == 1 && Val(Z.p) == x / y && X.Value() == x % y && |X.p| > 0
  {
    hide Val, Pow;
    var i := n;
    while i > t
      invariant t <= i <= n < |X.p| && n - t < |Z.p|
      invariant X.Valid() && Z.Valid() && T1.Valid() && T2.Valid() && |T1.p| >= 2 && |T2.p| >= 3
      invariant Z.s == 1
      invariant forall k :: 0 <= k < i - t ==> Z.p[k] == 0
      invariant 0 <= X.Value() < y * Pow(BASE, i - t)
      invariant x == Val(Z.p) * y + X.Value()
    {
      var m := i - t - 1;
      ghost var d, z, r := y * Pow(BASE, m), Val(Z.p), Val(X.p);
      PowStep(BASE, m);
      NextWeight(y, Pow(BASE, m), d, Pow(BASE, m + 1), BASE);
      var q;
      ret, q := DivStep(X, Y, T1, T2, i, t, d);
      if !ret.Ok? { return; }
      ValUpdate(Z.p, m, q);
      DigitStored(x, z, y, r, d, q, Pow(BASE, m), X.Value());
      Z.p := Z.p[m := q];
      i := i - 1;
    }
    PowZero(BASE);
    DivModUnique(x, y, Val(Z.p), X.Value());
    return Ok;
  }

  lemma TopScale(y: nat, n: nat, t: nat, yk: nat)
    requires t <= n && Pow(BASE, t) <= y && yk == y * Pow(BASE, n - t)
    ensures yk > 0 && yk >= Pow(BASE, n) && Pow(BASE, n + 1) <= BASE * yk
  {
    hide Pow;
    PowAdd(BASE, t, n - t);
    MulMonotone(Pow(BASE, t), y, Pow(BASE, n - t));
    PowStep(BASE, n);
    MulMonotone(Pow(BASE, n), yk, BASE);
  }

  lemma QuotientScale(x: nat, yk: nat, q: nat, w: nat, y: nat)
    requires yk == y * w && yk > 0 && q == x / yk
    ensures x == q * w * y + x % yk
  {
    DivModParts(x, yk);
    assert q * (y * w) == q * w * y;
  }

  lemma NextWeight(y: nat, w: nat, d: nat, w': nat, base: nat)
    requires d == y * w && w' == base * w
    ensures y * w' == d * base
  {
    assert y * (base * w) == (y * w) * base;
  }

  lemma DigitStored(x: nat, z: nat, y: nat, r: nat, d: nat, q: nat, w: nat, r': int)
    requires x == z * y + r && d == y * w && d > 0 && q == r / d && r' == r % d
    ensures x == (z + (q - 0) * w) * y + r' && 0 <= r' < y * w
  {
    DivModParts(r, d);
    assert (z + q * w) * y == z * y + q * (y * w);
  }

  // ---------------------------------------------------------------- signed division

  /** Division truncating toward zero. */
  function TruncQuot(a: int, b: int): int
    requires b != 0
  {
    Signed(if a < 0 <==> b < 0 then 1 else -1, Abs(a) / Abs(b))
  }

  /** The remainder of truncating division: it takes the sign of the dividend. */
  function TruncRem(a: int, b: int): int
    requires b != 0
  {
    Signed(a, Abs(a) % Abs(b))
  }

  /** q and r are a truncated quotient and remainder of a by b. */
  ghost predicate IsTruncated(a: int, b: int, q: int, r: int) {
    a == q * b + r && Abs(r) < Abs(b) && (r == 0 || (r < 0 <==> a < 0))
  }

  /** Truncating division is characterised by its defining equation, the size and the sign of the remainder. */
  lemma TruncatedDivision(a: int, b: int, q: int, r: int)
    requires b != 0
    ensures IsTruncated(a, b, q, r) <==> q == TruncQuot(a, b) && r == TruncRem(a, b)
  {
    TruncatedExists(a, b);
    if IsTruncated(a, b, q, r) { TruncatedUnique(a, b, q, r, TruncQuot(a, b), TruncRem(a, b)); }
  }

  lemma TruncatedExists(a: int, b: int)
    requires b != 0
    ensures IsTruncated(a, b, TruncQuot(a, b), TruncRem(a, b))
  {
    var q, r := Abs(a) / Abs(b), Abs(a) % Abs(b);
    DivModParts(Abs(a), Abs(b));
    SignedDivision(a, b, q, r);
  }

  lemma SignedDivision(a: int, b: int, q: int, r: int)
    requires r + q * Abs(b) == Abs(a)
    ensures a == Signed(if a < 0 <==> b < 0 then 1 else -1, q) * b + Signed(a, r)
  {
    assert q * -b == -(q * b) && (-q) * b == -(q * b);
  }

  lemma TruncatedUnique(a: int, b: int, q: int, r: int, q': int, r': int)
    requires b != 0 && IsTruncated(a, b, q, r) && IsTruncated(a, b, q', r')
    ensures q == q' && r == r'
  {
    assert (q - q') * b == q * b - q' * b;
    SmallMultiple(q - q', b, r' - r);
  }

  lemma SmallMultiple(k: int, b: int, e: int)
    requires k * b == e && Abs(e) < Abs(b)
    ensures k == 0 && e == 0
  {
    if k >= 1 { MulMonotone(1, k, Abs(b)); }
    if k <= -1 { MulMonotone(k, -1, Abs(b)); }
  }

  /** The frame of an optional output. */
  ghost function Output(X: Mpi?): set<Mpi> {
    if X == null then {} else {X}
  }

  /** mbedtls_mpi_div_mpi: A == Q * B + R. R may be the same object as A or B; Q may not. */
  method DivMpi(Q: Mpi?, R: Mpi?, A: Mpi, B: Mpi) returns (ret: Ret)
    requires A.Valid() && B.Valid() && (Q != null ==> Q.Valid() && Q != A && Q != B && Q != R) && (R != null ==> R.Valid())
    modifies Output(Q), Output(R)
    ensures (Q != null ==> Q.Valid()) && (R != null ==> R.Valid())
    ensures ret == Ok || ret == AllocFailed || ret == DivisionByZero
    ensures ret == DivisionByZero <==> old(B.Value()) == 0
    ensures ret.Ok? && Q != null ==> Q.Value() == TruncQuot(old(A.Value()), old(B.Value()))
    ensures ret.Ok? && R != null ==> R.Value() == TruncRem(old(A.Value()), old(B.Value()))
    ensures ret.Ok? && R != null && old(|A.p|) > 0 ==> |R.p| >= old(|R.p|) && |R.p| > 0
    ensures ret.Ok? && R != null && old(A.s) == 1 ==> R.s == 1
  {
    hide Val, Pow, TruncQuot, TruncRem;
    BaseBounds();
    var order := B.CmpInt(0);
    if order == 0 { return DivisionByZero; }
    order := A.CmpAbs(B);
    if order < 0 {
      DivModUnique(Val(A.p), Val(B.p), 0, Val(A.p));
      TruncatedSigns(A.s, Val(A.p), B.s, Val(B.p));
      if Q != null {
        ret := Q.Lset(0);
        if !ret.Ok? { return; }
      }
      if R != null {
        ret := R.Copy(A);
        if !ret.Ok? { return; }
      }
      return Ok;
    }
    var X, Z, k;
    ret, X, Z, k := DivAbs(A, B);
    if !ret.Ok? { return; }
    TruncatedSigns(A.s, Val(A.p), B.s, Val(B.p));
    if Q != null {
      ret := Q.Copy(Z);
      if !ret.Ok? { return; }
      Q.s := A.s * B.s;
    }
    if R != null {
      ret := StoreRemainder(R, X, k, A.s, Val(A.p) % Val(B.p));
      if !ret.Ok? { return; }
    }
    return Ok;
  }

  /** The end of mbedtls_mpi_div_mpi: undo the normalisation and give the remainder the sign of A. */
  method StoreRemainder(R: Mpi, X: Mpi, k: nat, sign: int, ghost rem: nat) returns (ret: Ret)
    requires R != X && R.Valid() && X.Valid() && (sign == 1 || sign == -1) && |X.p| > 0
    requires Val(X.p) == rem * Pow(2, k)
    modifies R, X
    ensures R.Valid()
    ensures ret == Ok || ret == AllocFailed
    ensures ret.Ok? ==> R.Value() == Signed(sign, rem) && |R.p| >= old(|R.p|) && |R.p| > 0 && (sign == 1 ==> R.s == 1)
  {
    hide Val, Pow;
    BaseBounds();
    ret := X.ShiftR(k);
    if !ret.Ok? { return; }
    DivModUnique(rem * Pow(2, k), Pow(2, k), rem, 0);
    X.s := sign;
    ret := R.Copy(X);
    if !ret.Ok? { return; }
    var zero := R.CmpInt(0);
    if zero == 0 { R.s := 1; }
  }

  /** Signs and magnitudes handled separately give the truncated quotient and remainder, also for a negative zero. */
  lemma TruncatedSigns(s: int, a: nat, t: int, b: nat)
    requires (s == 1 || s == -1) && (t == 1 || t == -1) && b > 0
    ensures s * t == 1 || s * t == -1
    ensures Signed(s * t, a / b) == TruncQuot(Signed(s, a), Signed(t, b))
    ensures Signed(s, a % b) == TruncRem(Signed(s, a), Signed(t, b))
  {
    if a == 0 { DivModUnique(0, b, 0, 0); }
  }

  /** Normalisation and the division of |A| by |B|: Z is the quotient, X the remainder shifted left by k. */
  method DivAbs(A: Mpi, B: Mpi) returns (ret: Ret, X: Mpi, Z: Mpi, k: nat)
    requires A.Valid() && B.Valid() && 0 < Val(B.p) <= Val(A.p)
    ensures fresh(X) && fresh(Z) && X != Z && X.Valid() && Z.Valid()
    ensures ret == Ok || ret == AllocFailed
    ensures ret.Ok? ==> Z.s == 1 && Val(Z.p) == Val(A.p) / Val(B.p) && |X.p| > 0
    ensures ret.Ok? ==> Val(X.p) == Val(A.p) % Val(B.p) * Pow(2, k)
  {
    hide Val, Pow;
    X := new Mpi();
    Z := new Mpi();
    k := 0;
    var Y, T1, T2;
    ret, Y, T1, T2 := DivTemporaries(X, Z, A, B);
    if !ret.Ok? { return; }
    ghost var bits;
    ret, k, bits := Normalise(X, Y);
    if !ret.Ok? { return; }
    ValBound(A.p);
    NormalSizes(Val(A.p), Val(B.p), k, |A.p|, |X.p|, Val(X.p), Val(Y.p));
    ret := DivLimbs(X, Y, Z, T1, T2);
    ScaledDivision(Val(A.p), Val(B.p), Pow(2, k));
  }

  /** Both numbers are shifted left until the divisor's length is one bit short of a whole number of limbs. */
  method Normalise(X: Mpi, Y: Mpi) returns (ret: Ret, k: nat, ghost bits: nat)
    requires X != Y && Val(Y.p) > 0
    modifies X, Y
    ensures X.s == old(X.s) && Y.s == old(Y.s) && |X.p| >= old(|X.p|) && |Y.p| >= old(|Y.p|)
    ensures ret == Ok || ret == AllocFailed
    ensures ret.Ok? ==> k < BITS && Val(X.p) == old(Val(X.p)) * Pow(2, k) && Val(Y.p) == old(Val(Y.p)) * Pow(2, k)
    ensures ret.Ok? ==> |X.p| == old(|X.p|) || Val(X.p) == 0 || Val(X.p) >= Pow(BASE, |X.p| - 1)
    ensures ret.Ok? ==> |Y.p| == old(|Y.p|) || Val(Y.p) >= Pow(BASE, |Y.p| - 1)
    ensures ret.Ok? ==> bits % BITS == BITS - 1 && bits > 0 && Pow(2, bits - 1) <= Val(Y.p) < Pow(2, bits)
  {
    hide Val, Pow;
    PowZero(2);
    ghost var y := Val(Y.p);
    var len := Y.Bitlen();
    k := len % BITS;
    if k < BITS - 1 {
      k := BITS - 1 - k;
      bits := len + k;
      NormalBits(y, len, k);
      ret := X.ShiftL(k);
      if !ret.Ok? { return; }
      ret := Y.ShiftL(k);
    } else {
      k := 0;
      bits := len;
      ret := Ok;
    }
  }

  lemma OneBitShort(len: nat, b: nat)
    requires b > 0
    ensures (len + (b - 1 - len % b)) % b == b - 1
  {
    DivModParts(len, b);
    DivModUnique(len + (b - 1 - len % b), b, len / b, b - 1);
  }

  lemma NormalBits(y: nat, len: nat, k: nat)
    requires y < Pow(2, len) && y > 0 && (len > 0 ==> Pow(2, len - 1) <= y)
    requires k == BITS - 1 - len % BITS
    ensures (len + k) % BITS == BITS - 1 && len > 0 && Pow(2, len + k - 1) <= y * Pow(2, k) < Pow(2, len + k)
  {
    hide Pow;
    if len == 0 { PowZero(2); }
    OneBitShort(len, BITS);
    PowAdd(2, len, k);
    PowAdd(2, len - 1, k);
    MulStrict(y, Pow(2, len), Pow(2, k));
    MulMonotone(Pow(2, len - 1), y, Pow(2, k));
  }

  /** The copies of the operands and the zeroed accumulators. */
  method DivTemporaries(X: Mpi, Z: Mpi, A: Mpi, B: Mpi) returns (ret: Ret, Y: Mpi, T1: Mpi, T2: Mpi)
    requires A.Valid() && B.Valid() && 0 < Val(B.p) <= Val(A.p)
    requires X != Z && X != A && X != B && Z != A && Z != B && X.Valid() && Z.Valid() && X.p == [] && Z.p == []
    modifies X, Z
    ensures fresh(Y) && fresh(T1) && fresh(T2) && Y != T1 && Y != T2 && T1 != T2
    ensures X.Valid() && Y.Valid() && Z.Valid() && T1.Valid() && T2.Valid()
    ensures ret == Ok || ret == AllocFailed
    ensures ret.Ok? ==> |T1.p| == 2 && |T2.p| == 3 && |Z.p| == |A.p| + 2 && Val(Z.p) == 0 && X.s == Y.s == Z.s == 1
    ensures ret.Ok? ==> Val(X.p) == Val(A.p) && Val(Y.p) == Val(B.p) && |X.p| <= |A.p|
    ensures ret.Ok? ==> |Y.p| > 0 && Pow(BASE, |Y.p| - 1) <= Val(Y.p)
  {
    hide Val, Pow;
    Y := new Mpi();
    T1 := new Mpi();
    T2 := new Mpi();
    BaseBounds();
    ValEmpty([]);
    PowZero(BASE);
    ret := X.Copy(A);
    if !ret.Ok? { return; }
    ret := Y.Copy(B);
    if !ret.Ok? { return; }
    X.s, Y.s := 1, 1;
    if |Y.p| > 1 { ValLarge(B.p, |Y.p| - 1); }
    ret := Z.Grow(|A.p| + 2);
    if !ret.Ok? { return; }
    ret := Z.Lset(0);
    if !ret.Ok? { return; }
    ret := T1.Grow(2);
    if !ret.Ok? { return; }
    ret := T2.Grow(3);
  }

  /** Normalising by less than a limb adds at most one limb to X. */
  lemma NormalSizes(a: nat, b: nat, k: nat, n: nat, nx: nat, x: nat, y: nat)
    requires k < BITS && 0 < b <= a < Pow(BASE, n) && x == a * Pow(2, k) && y == b * Pow(2, k)
    requires nx <= n || x >= Pow(BASE, nx - 1)
    ensures nx <= n + 1 && b <= y <= x
  {
    hide Pow;
    MulMonotone(b, a, Pow(2, k));
    MulMonotone(1, Pow(2, k), b);
    if nx > n + 1 {
      PowStep(BASE, n);
      PowMonotone(2, k, BITS);
      ProductBound(a, Pow(2, k), Pow(BASE, n), BASE + 1);
      PowMonotone(BASE, n + 1, nx - 1);
      MulStrict(a, Pow(BASE, n), Pow(2, k));
      MulMonotone(Pow(2, k), BASE, Pow(BASE, n));
    }
  }

  lemma ScaledDivision(a: nat, b: nat, k: nat)
    requires b > 0 && k > 0
    ensures b * k > 0 && a * k / (b * k) == a / b && a * k % (b * k) == a % b * k
  {
    DivModParts(a, b);
    MulStrict(a % b, b, k);
    MulMonotone(1, b, k);
    assert (a / b * b + a % b) * k == a / b * (b * k) + a % b * k by { assert a / b * b * k == a / b * (b * k); }
    DivModUnique(a * k, b * k, a / b, a % b * k);
  }

  /** mbedtls_mpi_mod_mpi: the least non-negative residue. */
  method ModMpi(R: Mpi, A: Mpi, B: Mpi) returns (ret: Ret)
    requires R.Valid() && A.Valid() && B.Valid() && R != B
    modifies R
    ensures R.Valid()
    ensures ret == Ok || ret == AllocFailed || ret == DivisionByZero || ret == NegativeValue
    ensures ret == NegativeValue <==> B.Value() < 0
    ensures ret == DivisionByZero <==> B.Value() == 0
    ensures ret.Ok? ==> R.Value() == old(A.Value()) % B.Value()
    ensures ret.Ok? && old(|A.p|) > 0 ==> |R.p| >= old(|R.p|) && |R.p| > 0
    ensures ret.Ok? && old(A.s) == 1 ==> R.s == 1
  {
    hide Val, Pow, TruncQuot, TruncRem;
    BaseBounds();
    var order := B.CmpInt(0);
    if order < 0 { return NegativeValue; }
    ret := DivMpi(null, R, A, B);
    if !ret.Ok? { return; }
    ghost var a, b, size := old(A.Value()), B.Value(), |R.p|;
    ghost var q := TruncQuot(a, b);
    TruncatedExists(a, b);
    order := R.CmpInt(0);
    while order < 0
      invariant R.Valid() && (size > 0 && |B.p| > 0 ==> |R.p| >= size)
      invariant a == q * b + R.Value() && (old(A.s) == 1 ==> R.s == 1)
      invariant order < 0 <==> R.Value() < 0
      decreases -R.Value()
    {
      ret := R.AddMpi(R, B);
      if !ret.Ok? { return; }
      MulStep(q, b);
      q := q - 1;
      order := R.CmpInt(0);
    }
    order := R.CmpMpi(B);
    while order >= 0
      invariant R.Valid() && (size > 0 && |B.p| > 0 ==> |R.p| >= size)
      invariant a == q * b + R.Value() && R.Value() >= 0 && (old(A.s) == 1 ==> R.s == 1)
      invariant order < 0 <==> R.Value() < b
      decreases R.Value()
    {
      ret := R.SubMpi(R, B);
      if !ret.Ok? { return; }
      MulStep(q + 1, b);
      q := q + 1;
      order := R.CmpMpi(B);
    }
    DivModUnique(a, b, q, R.Value());
    if |B.p| == 0 { ValEmpty(B.p); }
    return Ok;
  }

  lemma MulStep(q: int, b: int)
    ensures (q - 1) * b == q * b - b
  {
  }
}
