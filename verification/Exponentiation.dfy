/** Sliding-window modular exponentiation (HAC 14.85). */
module Exponentiation {
  import opened Arithmetic
  import opened Limbs
  import opened Bignum
  import opened Division
  import opened Montgomery

  /** MBEDTLS_MPI_WINDOW_SIZE; the proofs hold for every setting. */
  type WindowBits = n: nat | 1 <= n <= 6 witness 6

  const WINDOW_SIZE: WindowBits

  function WindowFor(bits: nat): (w: nat)
    ensures 1 <= w <= 6
  {
    var w := if bits > 671 then 6 else if bits > 239 then 5 else if bits > 79 then 4 else if bits > 23 then 3 else 1;
    if w > WINDOW_SIZE then WINDOW_SIZE else w
  }

  // ---------------------------------------------------------------- Montgomery powers

  /** x holds base^e in Montgomery form. */
  ghost predicate Holds(x: seq<limb>, base: nat, e: nat, n: nat, N: nat) {
    N > 0 && Val(x) == Mont(Pow(base, e), n, N)
  }

  /** The operands of every Montgomery multiplication in one call: an odd modulus, its negated inverse and scratch space. */
  ghost predicate Setting(N: Mpi, mm: limb, T: Mpi)
    reads N, T
  {
    N != T && |N.p| > 0 && Val(N.p) % 2 == 1 && |T.p| >= 2 * |N.p| + 2 && Divides(BASE, mm * Val(N.p) + 1)
  }

  /** X := X * Y on Montgomery powers; Y may be X. */
  method MulPower(X: Mpi, Y: Mpi, N: Mpi, mm: limb, T: Mpi, ghost base: nat, ghost e: nat, ghost f: nat)
    requires Setting(N, mm, T) && X != N && X != T && Y != T && |N.p| < |X.p| && |Y.p| > 0
    requires Holds(X.p, base, e, |N.p|, Val(N.p)) && Holds(Y.p, base, f, |N.p|, Val(N.p))
    modifies X, T
    ensures Setting(N, mm, T) && X.s == old(X.s) && |X.p| == old(|X.p|)
    ensures Holds(X.p, base, e + f, |N.p|, Val(N.p))
  {
    hide Val, Pow, Divides, Congruent;
    ValBound(N.p);
    MontMul(X, Y, N, mm, T);
    MontProduct(Val(X.p), Pow(base, e), Pow(base, f), |N.p|, Val(N.p));
    PowAdd(base, e, f);
  }

  /** Squaring X k times. */
  method SquareTimes(X: Mpi, k: nat, N: Mpi, mm: limb, T: Mpi, ghost base: nat, ghost e: nat)
    requires Setting(N, mm, T) && X != N && X != T && |N.p| < |X.p|
    requires Holds(X.p, base, e, |N.p|, Val(N.p))
    modifies X, T
    ensures Setting(N, mm, T) && X.s == old(X.s) && |X.p| == old(|X.p|)
    ensures Holds(X.p, base, e * Pow(2, k), |N.p|, Val(N.p))
  {
    hide Val, Pow, Holds, Divides;
    PowZero(2);
    var i := 0;
    while i < k
      invariant i <= k && Setting(N, mm, T) && X.s == old(X.s) && |X.p| == old(|X.p|)
      invariant Holds(X.p, base, e * Pow(2, i), |N.p|, Val(N.p))
    {
      MulPower(X, X, N, mm, T, base, e * Pow(2, i), e * Pow(2, i));
      PowStep(2, i);
      DoubleProduct(e, Pow(2, i), Pow(2, i + 1));
      i := i + 1;
    }
  }

  lemma DoubleProduct(e: nat, w: nat, w': nat)
    requires w' == 2 * w
    ensures e * w + e * w == e * w'
  {
  }

  // ---------------------------------------------------------------- the table of window values

  /** Every slot in use holds its own power. */
  ghost predicate Powers(W: map<nat, Mpi>, N: Mpi, base: nat)
    reads W.Values, N
  {
    forall k :: k in W ==> W[k].Valid() && |W[k].p| > |N.p| && Holds(W[k].p, base, k, |N.p|, Val(N.p))
  }

  /** A copy of Y with room for a Montgomery product. */
  method CopyPower(Y: Mpi, N: Mpi, ghost base: nat, ghost e: nat) returns (ret: Ret, V: Mpi)
    requires Y.Valid() && |Y.p| > 0 && Holds(Y.p, base, e, |N.p|, Val(N.p))
    ensures fresh(V) && V.Valid()
    ensures ret == Ok || ret == AllocFailed
    ensures ret.Ok? ==> |V.p| > |N.p| && Holds(V.p, base, e, |N.p|, Val(N.p))
  {
    hide Val, Pow;
    V := new Mpi();
    ret := V.Grow(|N.p| + 1);
    if !ret.Ok? { return; }
    ret := V.Copy(Y);
  }

  /** W[1], W[2^(w-1)], ..., W[2^w - 1] */
  method BuildTable(W1: Mpi, wsize: nat, N: Mpi, mm: limb, T: Mpi, ghost base: nat) returns (ret: Ret, W: map<nat, Mpi>)
    requires Setting(N, mm, T) && W1 != T && W1 != N && W1.Valid() && |W1.p| > |N.p| && wsize >= 1
    requires Holds(W1.p, base, 1, |N.p|, Val(N.p))
    modifies T
    ensures Setting(N, mm, T)
    ensures forall k :: k in W ==> W[k] == W1 || fresh(W[k])
    ensures ret == Ok || ret == AllocFailed
    ensures ret.Ok? ==> 1 in W && Powers(W, N, base)
    ensures ret.Ok? ==> forall k :: Pow(2, wsize - 1) <= k < Pow(2, wsize) ==> k in W
  {
    hide Val, Pow, Holds, Divides;
    W := map[1 := W1];
    PowZero(2);
    PowOne(2);
    if wsize == 1 { return Ok, W; }
    var j := Pow(2, wsize - 1);
    var V;
    ret, V := CopyPower(W1, N, base, 1);
    if !ret.Ok? { return; }
    SquareTimes(V, wsize - 1, N, mm, T, base, 1);
    PowMonotone(2, 1, wsize - 1);
    ret, W := FillTable(W[j := V], W1, j, Pow(2, wsize), N, mm, T, base);
  }

  /** W[i] = W[i - 1] * W[1] for the slots above j. */
  method FillTable(W0: map<nat, Mpi>, W1: Mpi, j: nat, end: nat, N: Mpi, mm: limb, T: Mpi, ghost base: nat)
    returns (ret: Ret, W: map<nat, Mpi>)
    requires Setting(N, mm, T) && 1 < j && 1 in W0 && W0[1] == W1 && j in W0 && Powers(W0, N, base)
    requires forall k :: k in W0 ==> W0[k] != T
    modifies T
    ensures Setting(N, mm, T)
    ensures forall k :: k in W ==> (k in W0 && W[k] == W0[k]) || fresh(W[k])
    ensures ret == Ok || ret == AllocFailed
    ensures ret.Ok? ==> 1 in W && Powers(W, N, base)
    ensures ret.Ok? ==> forall k :: j <= k < end ==> k in W
  {
    hide Val, Pow, Holds, Divides;
    W := W0;
    var i := j + 1;
    while i < end
      invariant 1 < j < i && 1 in W && W[1] == W1 && Setting(N, mm, T)
      invariant forall k :: k in W ==> (k in W0 && W[k] == W0[k]) || fresh(W[k])
      invariant forall k :: k in W ==> W[k] != T
      invariant forall k :: j <= k < i ==> k in W
      invariant Powers(W, N, base)
    {
      var V;
      ret, V := CopyPower(W[i - 1], N, base, i - 1);
      if !ret.Ok? { return; }
      MulPower(V, W1, N, mm, T, base, i - 1, 1);
      W := W[i := V];
      i := i + 1;
    }
    return Ok, W;
  }

  // ---------------------------------------------------------------- reading the exponent

  /** Reading one more bit of p: the prefix doubles and takes in bit buf of limb nb. */
  lemma NextBit(p: seq<limb>, nb: nat, buf: nat, pos: nat)
    requires nb < |p| && buf < BITS && pos == nb * BITS + buf
    ensures Val(p) / Pow(2, pos) == 2 * (Val(p) / Pow(2, pos + 1)) + p[nb] / Pow(2, buf) % 2
  {
    hide Val, Pow;
    ValSplit(p, nb);
    ValBound(p[..nb]);
    ValCons(p[nb..]);
    assert p[nb..][1..] == p[nb + 1..];
    DivModUnique(Val(p), Pow(BASE, nb), Val(p[nb..]), Val(p[..nb]));
    PowSplit(2, BITS, nb, buf, pos);
    DivDiv(Val(p), Pow(BASE, nb), Pow(2, buf), Pow(2, pos));
    PowStep(2, pos);
    DivDiv(Val(p), Pow(2, pos), 2, Pow(2, pos + 1));
    PowAdd(2, buf, BITS - buf);
    PowStep(2, BITS - buf - 1);
    BitOf(p[nb], Val(p[nb + 1..]), Pow(2, buf), Pow(2, BITS - buf - 1), BASE, Val(p[nb..]));
  }

  lemma BitOf(x: nat, hi: nat, T: nat, H: nat, base: nat, v: nat)
    requires T > 0 && base == T * (2 * H) && v == x + base * hi
    ensures v / T % 2 == x / T % 2
  {
    assert base * hi == (2 * (H * hi)) * T;
    DivModUnique(v, T, x / T + 2 * (H * hi), x % T);
  }

  /** The exponent read so far is hi with nbits pending bits pend behind it; wbits holds them left-aligned in a window. */
  ghost predicate Pending(pre: nat, hi: nat, nbits: nat, pend: nat, wbits: nat, wsize: nat) {
    nbits <= wsize && pre == hi * Pow(2, nbits) + pend && pend < Pow(2, nbits) && wbits == pend * Pow(2, wsize - nbits)
    && (nbits > 0 ==> Pow(2, nbits) <= 2 * pend)
  }

  lemma NothingPending(pre: nat, wsize: nat)
    ensures Pending(pre, pre, 0, 0, 0, wsize)
  {
  }

  lemma PushBit(pre: nat, hi: nat, nbits: nat, pend: nat, wbits: nat, wsize: nat, ei: nat)
    requires Pending(pre, hi, nbits, pend, wbits, wsize) && nbits < wsize && ei <= 1 && (nbits == 0 ==> ei == 1)
    ensures Pending(2 * pre + ei, hi, nbits + 1, 2 * pend + ei, wbits + ei * Pow(2, wsize - nbits - 1), wsize)
  {
    hide Pow;
    PowZero(2);
    PowStep(2, nbits);
    PowStep(2, wsize - nbits - 1);
    PushBitSums(pre, hi, pend, wbits, ei, Pow(2, nbits), Pow(2, wsize - nbits - 1));
  }

  lemma PushBitSums(pre: nat, hi: nat, pend: nat, wbits: nat, ei: nat, w: nat, v: nat)
    requires pre == hi * w + pend && wbits == pend * (2 * v)
    ensures 2 * pre + ei == hi * (2 * w) + (2 * pend + ei)
    ensures wbits + ei * v == (2 * pend + ei) * v
  {
  }

  lemma FullWindow(pre: nat, hi: nat, pend: nat, wbits: nat, wsize: nat)
    requires Pending(pre, hi, wsize, pend, wbits, wsize) && wsize > 0
    ensures wbits == pend && Pow(2, wsize - 1) <= wbits < Pow(2, wsize) && pre == hi * Pow(2, wsize) + wbits
  {
    hide Pow;
    PowZero(2);
    PowStep(2, wsize - 1);
  }

  /** The main loop: squares outside windows, and one table multiplication per full window. */
  method WindowLoop(X: Mpi, E: Mpi, N: Mpi, mm: limb, T: Mpi, W: map<nat, Mpi>, wsize: nat, ghost base: nat)
    returns (nbits: nat, wbits: nat, ghost hi: nat, ghost pend: nat)
    requires Setting(N, mm, T) && X != N && X != T && X != E && E != T && |N.p| < |X.p| && wsize >= 1
    requires forall k :: k in W ==> W[k] != X && W[k] != T
    requires Powers(W, N, base) && forall k :: Pow(2, wsize - 1) <= k < Pow(2, wsize) ==> k in W
    requires Holds(X.p, base, 0, |N.p|, Val(N.p))
    modifies X, T
    ensures Setting(N, mm, T) && X.s == old(X.s) && |X.p| == old(|X.p|)
    ensures nbits < wsize && Pending(Val(E.p), hi, nbits, pend, wbits, wsize)
    ensures Holds(X.p, base, hi, |N.p|, Val(N.p))
  {
    hide Val, Pow, Holds, Divides, Pending, Prefix;
    var nblimbs: nat, bufsize: nat, state := |E.p|, 0, 0;
    nbits, wbits, hi, pend := 0, 0, 0, 0;
    ghost var pre := 0;
    PrefixStart(E.p);
    NothingPending(0, wsize);
    while true
      invariant nblimbs <= |E.p| && bufsize < BITS && (nblimbs == |E.p| ==> bufsize == 0)
      invariant pre == Prefix(E.p, nblimbs, bufsize)
      invariant Setting(N, mm, T) && X.s == old(X.s) && |X.p| == old(|X.p|)
      invariant nbits < wsize && Pending(pre, hi, nbits, pend, wbits, wsize)
      invariant state == (if nbits > 0 then 2 else if pre == 0 then 0 else 1)
      invariant nbits == 0 ==> hi == pre && pend == 0 && wbits == 0
      invariant Holds(X.p, base, hi, |N.p|, Val(N.p))
      decreases nblimbs, bufsize
    {
      if bufsize == 0 && nblimbs == 0 { break; }
      var ei;
      nblimbs, bufsize, ei := ReadBit(E.p, nblimbs, bufsize);
      ghost var pre0 := pre;
      pre := 2 * pre + ei;
      if ei == 0 && state == 0 {
        continue;
      }
      if ei == 0 && state == 1 {
        MulPower(X, X, N, mm, T, base, hi, hi);
        hi := pre;
        NothingPending(pre, wsize);
        continue;
      }
      PushBit(pre0, hi, nbits, pend, wbits, wsize, ei);
      state := 2;
      nbits, pend := nbits + 1, 2 * pend + ei;
      wbits := wbits + ei * Pow(2, wsize - nbits);
      if nbits == wsize {
        FullWindow(pre, hi, pend, wbits, wsize);
        CloseWindow(X, W[wbits], N, mm, T, wsize, wbits, base, hi);
        state := state - 1;
        nbits, wbits, hi, pend := 0, 0, pre, 0;
        NothingPending(pre, wsize);
      }
    }
  }

  /** The part of the exponent above bit buf of limb nb. */
  ghost function Prefix(p: seq<limb>, nb: nat, buf: nat): nat {
    Val(p) / Pow(2, nb * BITS + buf)
  }

  lemma PrefixStart(p: seq<limb>)
    ensures Prefix(p, |p|, 0) == 0 && Prefix(p, 0, 0) == Val(p)
  {
    hide Val, Pow;
    PowZero(2);
    ValBound(p);
    BasePower(|p|);
    DivModUnique(Val(p), Pow(2, |p| * BITS), 0, Val(p));
  }

  /** Refill the bit buffer from the next lower limb when it is empty, then take its top bit. */
  method ReadBit(p: seq<limb>, nblimbs: nat, bufsize: nat) returns (nb: nat, buf: nat, ei: nat)
    requires nblimbs <= |p| && bufsize < BITS && (nblimbs > 0 || bufsize > 0) && (nblimbs == |p| ==> bufsize == 0)
    ensures nb < |p| && buf < BITS && ei <= 1
    ensures nb < nblimbs || (nb == nblimbs && buf < bufsize)
    ensures Prefix(p, nb, buf) == 2 * Prefix(p, nblimbs, bufsize) + ei
  {
    hide Val, Pow;
    nb, buf := nblimbs, bufsize;
    if buf == 0 {
      nb := nb - 1;
      buf := BITS;
    }
    buf := buf - 1;
    ei := p[nb] / Pow(2, buf) % 2;
    LimbDown(nblimbs * BITS + bufsize, nb, buf, BITS);
    NextBit(p, nb, buf, nb * BITS + buf);
  }

  /** X = X^(2^wsize) * W[wbits] */
  method CloseWindow(X: Mpi, Y: Mpi, N: Mpi, mm: limb, T: Mpi, wsize: nat, ghost wbits: nat, ghost base: nat, ghost hi: nat)
    requires Setting(N, mm, T) && X != N && X != T && Y != T && X != Y && |N.p| < |X.p| && |Y.p| > 0
    requires Holds(X.p, base, hi, |N.p|, Val(N.p)) && Holds(Y.p, base, wbits, |N.p|, Val(N.p))
    modifies X, T
    ensures Setting(N, mm, T) && X.s == old(X.s) && |X.p| == old(|X.p|)
    ensures Holds(X.p, base, hi * Pow(2, wsize) + wbits, |N.p|, Val(N.p))
  {
    hide Val, Pow, Holds, Divides;
    SquareTimes(X, wsize, N, mm, T, base, hi);
    MulPower(X, Y, N, mm, T, base, hi * Pow(2, wsize), wbits);
  }

  lemma LimbDown(pos: nat, nb: nat, buf: nat, bits: nat)
    requires pos == nb * bits + buf + 1 || (pos == (nb + 1) * bits && buf == bits - 1)
    ensures pos > 0 && pos - 1 == nb * bits + buf
  {
  }

  /** The bits left over when the exponent ends inside a window: square and multiply by W[1]. */
  method RemainingBits(X: Mpi, W1: Mpi, N: Mpi, mm: limb, T: Mpi, nbits: nat, wbits: nat, wsize: nat,
                       ghost base: nat, ghost e: nat, ghost hi: nat, ghost pend: nat)
    requires Setting(N, mm, T) && X != N && X != T && W1 != T && W1 != X && |N.p| < |X.p| && |W1.p| > 0
    requires nbits < wsize && Pending(e, hi, nbits, pend, wbits, wsize)
    requires Holds(X.p, base, hi, |N.p|, Val(N.p)) && Holds(W1.p, base, 1, |N.p|, Val(N.p))
    modifies X, T
    ensures Setting(N, mm, T) && X.s == old(X.s) && |X.p| == old(|X.p|)
    ensures Holds(X.p, base, e, |N.p|, Val(N.p))
  {
    hide Val, Pow, Holds, Divides, Partial, Pending, WindowBit;
    var i, w := 0, wbits;
    ghost var f := hi;
    PartialStart(e, hi, nbits, pend, wbits, wsize);
    while i < nbits
      invariant i <= nbits && Setting(N, mm, T) && X.s == old(X.s) && |X.p| == old(|X.p|)
      invariant Partial(f, hi, pend, nbits, i, w, wsize)
      invariant Holds(X.p, base, f, |N.p|, Val(N.p)) && Holds(W1.p, base, 1, |N.p|, Val(N.p))
    {
      MulPower(X, X, N, mm, T, base, f, f);
      var bit := WindowBit(w * 2, wsize);
      PartialStep(f, hi, pend, nbits, i, w, wsize, bit);
      f := f + f;
      w := w * 2;
      if bit != 0 {
        MulPower(X, W1, N, mm, T, base, f, 1);
        f := f + 1;
      }
      i := i + 1;
    }
    PartialEnd(f, e, hi, nbits, pend, wbits, w, wsize);
  }

  /** After i of the pending bits, f is the exponent so far and w the window shifted left by i. */
  ghost predicate Partial(f: nat, hi: nat, pend: nat, nbits: nat, i: nat, w: nat, wsize: nat) {
    i <= nbits < wsize && w == pend * Pow(2, wsize - nbits + i) && f == hi * Pow(2, i) + pend / Pow(2, nbits - i)
  }

  lemma PartialStart(e: nat, hi: nat, nbits: nat, pend: nat, wbits: nat, wsize: nat)
    requires nbits < wsize && Pending(e, hi, nbits, pend, wbits, wsize)
    ensures Partial(hi, hi, pend, nbits, 0, wbits, wsize)
  {
    hide Pow;
    PowZero(2);
    DivModUnique(pend, Pow(2, nbits), 0, pend);
  }

  lemma PartialEnd(f: nat, e: nat, hi: nat, nbits: nat, pend: nat, wbits: nat, w: nat, wsize: nat)
    requires Partial(f, hi, pend, nbits, nbits, w, wsize) && Pending(e, hi, nbits, pend, wbits, wsize)
    ensures f == e
  {
    hide Pow;
    PowZero(2);
  }

  /** The bit tested by wbits & (1 << wsize). */
  function WindowBit(w: nat, wsize: nat): (bit: nat)
    ensures bit <= 1
  {
    w / Pow(2, wsize) % 2
  }

  lemma PartialStep(f: nat, hi: nat, pend: nat, nbits: nat, i: nat, w: nat, wsize: nat, bit: nat)
    requires i < nbits && Partial(f, hi, pend, nbits, i, w, wsize) && bit == WindowBit(w * 2, wsize)
    ensures Partial(f + f + bit, hi, pend, nbits, i + 1, w * 2, wsize)
  {
    hide Pow;
    var a, b := wsize - nbits + i, nbits - i - 1;
    PowStep(2, a);
    PowStep(2, i);
    PowStep(2, b);
    PowAdd(2, a + 1, b);
    PartialSums(f, hi, pend, w, bit, Pow(2, i), Pow(2, a), Pow(2, b), Pow(2, wsize));
  }

  lemma PartialSums(f: nat, hi: nat, pend: nat, w: nat, bit: nat, p: nat, u: nat, v: nat, top: nat)
    requires u > 0 && v > 0 && w == pend * u && top == 2 * u * v && f == hi * p + pend / (2 * v)
    requires bit == w * 2 / top % 2
    ensures w * 2 == pend * (2 * u) && f + f + bit == hi * (2 * p) + pend / v
  {
    DoubledTerms(pend, u, v, hi, p);
    ScaledDivision(pend, v, 2 * u);
    DivDiv(pend, v, 2, 2 * v);
  }

  lemma DoubledTerms(pend: nat, u: nat, v: nat, hi: nat, p: nat)
    ensures pend * u * 2 == pend * (2 * u) && 2 * u * v == v * (2 * u) && hi * (2 * p) == 2 * (hi * p)
  {
  }

  // ---------------------------------------------------------------- the whole call

  /** R^2 mod N, where R = BASE^n; the value that a caller may keep in _RR between calls with the same N. */
  ghost predicate IsRR(RR: Mpi, N: Mpi)
    reads RR, N
  {
    RR.Valid() && RR.s == 1 && |RR.p| > 0 && Val(N.p) > 0 && Val(RR.p) == Pow(BASE, |N.p|) * Pow(BASE, |N.p|) % Val(N.p)
  }

  method ComputeRR(N: Mpi) returns (ret: Ret, RR: Mpi)
    requires N.Valid() && |N.p| > 0 && N.s == 1 && Val(N.p) > 0
    ensures fresh(RR) && RR.Valid()
    ensures ret == Ok || ret == AllocFailed
    ensures ret.Ok? ==> IsRR(RR, N)
  {
    hide Val, Pow;
    BaseBounds();
    RR := new Mpi();
    ret := RR.Lset(1);
    if !ret.Ok? { return; }
    ret := RR.ShiftL(|N.p| * 2 * BITS);
    if !ret.Ok? { return; }
    PowAdd(BASE, |N.p|, |N.p|);
    BasePower(|N.p| * 2);
    ret := ModMpi(RR, RR, N);
  }

  /** A Montgomery product with R^2 turns a into Montgomery form. */
  lemma IntoMont(z: nat, a: nat, x: nat, rr: nat, n: nat, N: nat)
    requires N % 2 == 1 && z < N && x == a % N && rr == Pow(BASE, n) * Pow(BASE, n) % N
    requires Congruent(Pow(BASE, n) * z, x * rr, N)
    ensures z == Mont(a, n, N)
  {
    hide Pow, Congruent;
    var w := Pow(BASE, n);
    CongruentMod(a, N);
    CongruentMod(w * w, N);
    CongruentMul(x, a, rr, w * w, N);
    CongruentTrans(w * z, x * rr, a * (w * w), N);
    assert a * (w * w) == w * (w * a);
    CongruentMod(w * a, N);
    CongruentSym(w * a % N, w * a, N);
    CongruentRefl(w, N);
    CongruentMul(w, w, w * a, Mont(a, n, N), N);
    CongruentTrans(w * z, w * (w * a), w * Mont(a, n, N), N);
    MontUnique(z, Mont(a, n, N), n, N);
  }

  /** W[1] = A * R mod N */
  method FirstPower(A: Mpi, N: Mpi, mm: limb, RR: Mpi, T: Mpi, W1: Mpi) returns (ret: Ret)
    requires Setting(N, mm, T) && N.Valid() && N.s == 1 && IsRR(RR, N) && A.Valid() && A.s == 1 && |A.p| > 0
    requires W1.Valid() && |W1.p| > |N.p| && W1 != A && W1 != N && W1 != T && W1 != RR && RR != T && A != T
    modifies W1, T
    ensures Setting(N, mm, T) && W1.Valid()
    ensures ret == Ok || ret == AllocFailed
    ensures ret.Ok? ==> |W1.p| > |N.p| && Holds(W1.p, Val(A.p), 1, |N.p|, Val(N.p))
  {
    hide Val, Pow, Congruent, Divides;
    var order := A.CmpMpi(N);
    if order >= 0 {
      ret := ModMpi(W1, A, N);
    } else {
      DivModUnique(Val(A.p), Val(N.p), 0, Val(A.p));
      ret := W1.Copy(A);
    }
    if !ret.Ok? { return; }
    ghost var x := Val(W1.p);
    ValBound(N.p);
    MontMul(W1, RR, N, mm, T);
    IntoMont(Val(W1.p), Val(A.p), x, Val(RR.p), |N.p|, Val(N.p));
    PowOne(Val(A.p));
  }

  /** X = R mod N, the Montgomery form of one. */
  method PowerZero(X: Mpi, N: Mpi, mm: limb, RR: Mpi, T: Mpi, ghost base: nat) returns (ret: Ret)
    requires Setting(N, mm, T) && IsRR(RR, N) && X.Valid() && |X.p| > |N.p| && X != N && X != T && X != RR && RR != T
    modifies X, T
    ensures Setting(N, mm, T) && X.Valid()
    ensures ret == Ok || ret == AllocFailed
    ensures ret.Ok? ==> X.s == 1 && |X.p| > |N.p| && Holds(X.p, base, 0, |N.p|, Val(N.p))
  {
    hide Val, Pow, Congruent, Divides;
    ret := X.Copy(RR);
    if !ret.Ok? { return; }
    ValBound(N.p);
    MontRed(X, N, mm, T);
    PowZero(base);
    OneInMont(Val(N.p), Val(X.p), Pow(BASE, |N.p|), Val(RR.p), |N.p|);
  }

  lemma OneInMont(N: nat, z: nat, w: nat, rr: nat, n: nat)
    requires N % 2 == 1 && z < N && w == Pow(BASE, n) && rr == w * w % N && Congruent(w * z, rr, N)
    ensures z == Mont(1, n, N)
  {
    hide Pow, Congruent;
    CongruentMod(w * w, N);
    CongruentTrans(w * z, rr, w * w, N);
    CongruentMod(w, N);
    CongruentSym(w % N, w, N);
    CongruentRefl(w, N);
    CongruentMul(w, w, w, w % N, N);
    CongruentTrans(w * z, w * w, w * (w % N), N);
    MontUnique(z, w % N, n, N);
  }

  lemma ParityOfLowLimb(p: seq<limb>)
    requires |p| > 0
    ensures Val(p) % 2 == p[0] % 2
  {
    hide Val, Pow;
    BaseBounds();
    ValCons(p);
    SameParity(Val(p), p[0], BASE, BASE / 2, Val(p[1..]));
  }

  lemma SameParity(v: nat, x: nat, base: nat, h: nat, k: nat)
    requires v == x + base * k && base == 2 * h
    ensures v % 2 == x % 2
  {
    var t := h * k;
    assert base * k == 2 * t;
  }

  /** From R mod N to A^E mod N: the table, the window loop, the remaining bits and the final reduction. */
  method PowerFrom(X: Mpi, E: Mpi, N: Mpi, mm: limb, T: Mpi, W1: Mpi, wsize: nat, ghost base: nat) returns (ret: Ret)
    requires Setting(N, mm, T) && X.Valid() && W1.Valid() && wsize >= 1 && |N.p| < |X.p| && |N.p| < |W1.p|
    requires X != N && X != T && X != E && E != T && W1 != T && W1 != N && W1 != X && X.s == 1
    requires Holds(X.p, base, 0, |N.p|, Val(N.p)) && Holds(W1.p, base, 1, |N.p|, Val(N.p))
    modifies X, T
    ensures X.Valid()
    ensures ret == Ok || ret == AllocFailed
    ensures ret.Ok? ==> X.s == 1 && Val(X.p) == Pow(base, Val(E.p)) % Val(N.p)
  {
    hide Val, Pow, Divides, Congruent, Pending;
    var W;
    ret, W := BuildTable(W1, wsize, N, mm, T, base);
    if !ret.Ok? { return; }
    var nbits, wbits;
    ghost var hi, pend;
    nbits, wbits, hi, pend := WindowLoop(X, E, N, mm, T, W, wsize, base);
    RemainingBits(X, W1, N, mm, T, nbits, wbits, wsize, base, Val(E.p), hi, pend);
    ValBound(N.p);
    MontRed(X, N, mm, T);
    MontOut(Val(X.p), Pow(base, Val(E.p)), |N.p|, Val(N.p));
  }

  /** mbedtls_mpi_exp_mod: X = A^E mod N. X may be the same object as A. */
  method ExpMod(X: Mpi, A: Mpi, E: Mpi, N: Mpi, cache: Mpi?) returns (ret: Ret)
    requires X.Valid() && A.Valid() && E.Valid() && N.Valid() && |A.p| > 0 && |N.p| > 0 && X != E && X != N
    requires cache != null ==> cache != X && cache != A && cache != E && cache != N
    requires cache != null && |cache.p| > 0 ==> IsRR(cache, N)
    modifies X, Output(cache)
    ensures X.Valid()
    ensures ret == Ok || ret == AllocFailed || ret == BadInput
    ensures ret == BadInput <==> N.Value() < 0 || Val(N.p) % 2 == 0 || E.Value() < 0
    ensures ret.Ok? && old(A.s) == 1 ==> X.Value() == Pow(old(Val(A.p)), Val(E.p)) % Val(N.p)
    ensures ret.Ok? && old(A.s) == -1 ==> X.Value() == Val(N.p) - Pow(old(Val(A.p)), Val(E.p)) % Val(N.p)
    ensures ret.Ok? && cache != null ==> IsRR(cache, N)
  {
    hide Val, Pow, Divides, Congruent;
    BaseBounds();
    ParityOfLowLimb(N.p);
    var orderN := N.CmpInt(0);
    if orderN < 0 || N.p[0] % 2 == 0 { return BadInput; }
    var orderE := E.CmpInt(0);
    if orderE < 0 { return BadInput; }
    var mm := MontgInit(N);
    var len := E.Bitlen();
    var wsize := WindowFor(len);
    ret := ExpModOdd(X, A, E, N, cache, mm, wsize);
  }

  /** The computation after the argument checks. */
  method ExpModOdd(X: Mpi, A: Mpi, E: Mpi, N: Mpi, cache: Mpi?, mm: limb, wsize: nat) returns (ret: Ret)
    requires X.Valid() && A.Valid() && N.Valid() && |A.p| > 0 && |N.p| > 0 && X != E && X != N && wsize >= 1
    requires cache != null ==> cache != X && cache != A && cache != E && cache != N
    requires cache != null && |cache.p| > 0 ==> IsRR(cache, N)
    requires N.s == 1 && Val(N.p) % 2 == 1 && Divides(BASE, mm * Val(N.p) + 1)
    modifies X, Output(cache)
    ensures X.Valid()
    ensures ret == Ok || ret == AllocFailed
    ensures ret.Ok? && old(A.s) == 1 ==> X.Value() == Pow(old(Val(A.p)), Val(E.p)) % Val(N.p)
    ensures ret.Ok? && old(A.s) == -1 ==> X.Value() == Val(N.p) - Pow(old(Val(A.p)), Val(E.p)) % Val(N.p)
    ensures ret.Ok? && cache != null ==> IsRR(cache, N)
  {
    hide Val, Pow, Divides, Congruent, Holds, IsRR;
    var W1, T;
    ret, W1, T := ScratchSpace(X, |N.p| + 1);
    if !ret.Ok? { return; }
    var neg, a;
    ret, neg, a := Positive(A);
    if !ret.Ok? { return; }
    var RR;
    ret, RR := ObtainRR(N, cache);
    if !ret.Ok? { return; }
    ret := PositivePower(X, a, E, N, mm, RR, T, W1, wsize);
    if !ret.Ok? { return; }
    if neg {
      X.s := -1;
      ret := X.AddMpi(N, X);
    }
  }

  /** Room for a Montgomery product in X and the first table slot, and for the accumulator T. */
  method ScratchSpace(X: Mpi, j: nat) returns (ret: Ret, W1: Mpi, T: Mpi)
    requires X.Valid() && j > 0
    modifies X
    ensures X.Valid() && W1.Valid() && T.Valid() && fresh(W1) && fresh(T) && W1 != T
    ensures ret == Ok || ret == AllocFailed
    ensures X.s == old(X.s) && Val(X.p) == old(Val(X.p)) && |X.p| >= old(|X.p|)
    ensures ret.Ok? ==> |X.p| >= j && |W1.p| == j && |T.p| == j * 2
  {
    hide Val, Pow;
    W1 := new Mpi();
    T := new Mpi();
    ret := X.Grow(j);
    if !ret.Ok? { return; }
    ret := W1.Grow(j);
    if !ret.Ok? { return; }
    ret := T.Grow(j * 2);
  }

  /** X = A^E mod N for a non-negative A, once the scratch numbers are allocated. */
  method PositivePower(X: Mpi, A: Mpi, E: Mpi, N: Mpi, mm: limb, RR: Mpi, T: Mpi, W1: Mpi, wsize: nat) returns (ret: Ret)
    requires Setting(N, mm, T) && N.Valid() && N.s == 1 && A.Valid() && A.s == 1 && |A.p| > 0 && wsize >= 1
    requires X.Valid() && W1.Valid() && |X.p| > |N.p| && |W1.p| > |N.p| && X != E && X != N && IsRR(RR, N)
    requires T != X && T != A && T != E && T != RR && W1 != X && W1 != A && W1 != N && W1 != RR && W1 != T && RR != X && W1 != E
    modifies X, W1, T
    ensures X.Valid()
    ensures ret == Ok || ret == AllocFailed
    ensures ret.Ok? ==> X.s == 1 && Val(X.p) == Pow(old(Val(A.p)), old(Val(E.p))) % Val(N.p)
  {
    hide Val, Pow, Divides, Congruent, Holds;
    ghost var base := Val(A.p);
    ret := FirstPower(A, N, mm, RR, T, W1);
    if !ret.Ok? { return; }
    ret := PowerZero(X, N, mm, RR, T, base);
    if !ret.Ok? { return; }
    ret := PowerFrom(X, E, N, mm, T, W1, wsize, base);
  }

  /** Compensate for negative A (and correct at the end). */
  method Positive(A: Mpi) returns (ret: Ret, neg: bool, a: Mpi)
    requires A.Valid() && |A.p| > 0
    ensures a == A || fresh(a)
    ensures ret == Ok || ret == AllocFailed
    ensures ret.Ok? ==> (neg <==> A.s == -1) && a.Valid() && a.s == 1 && |a.p| > 0 && Val(a.p) == Val(A.p)
  {
    hide Val, Pow;
    neg, a, ret := A.s == -1, A, Ok;
    if neg {
      a := new Mpi();
      ret := a.Copy(A);
      if !ret.Ok? { return; }
      a.s := 1;
    }
  }

  /** Take R^2 mod N from the caller, or compute it and hand it to the caller. */
  method ObtainRR(N: Mpi, cache: Mpi?) returns (ret: Ret, RR: Mpi)
    requires N.Valid() && |N.p| > 0 && N.s == 1 && Val(N.p) > 0
    requires cache != null ==> cache != N
    requires cache != null && |cache.p| > 0 ==> IsRR(cache, N)
    modifies Output(cache)
    ensures fresh(RR)
    ensures ret == Ok || ret == AllocFailed
    ensures ret.Ok? ==> IsRR(RR, N) && (cache != null ==> IsRR(cache, N))
  {
    hide Val, Pow;
    if cache == null || |cache.p| == 0 {
      ret, RR := ComputeRR(N);
      if !ret.Ok? { return; }
      if cache != null { cache.s, cache.p := RR.s, RR.p; }
    } else {
      RR := new Mpi();
      ret := Ok;
      RR.s, RR.p := cache.s, cache.p;
    }
  }

  // ---------------------------------------------------------------- negative bases

  function IntPow(a: int, e: nat): int {
    if e == 0 then 1 else a * IntPow(a, e - 1)
  }

  lemma {:induction false} PowerSign(m: int, e: nat)
    requires m >= 0
    ensures IntPow(m, e) == Pow(m, e)
    ensures IntPow(-m, e) == Signed(if e % 2 == 0 then 1 else -1, Pow(m, e))
  {
    hide Pow, IntPow;
    if e == 0 {
      PowZero(m);
      IntPowZero(m);
      IntPowZero(-m);
    } else {
      PowerSign(m, e - 1);
      PowStep(m, e - 1);
      IntPowStep(m, e - 1);
      IntPowStep(-m, e - 1);
      SignStep(m, Pow(m, e - 1));
    }
  }

  lemma IntPowZero(a: int)
    ensures IntPow(a, 0) == 1
  {
  }

  lemma IntPowStep(a: int, e: nat)
    ensures IntPow(a, e + 1) == a * IntPow(a, e)
  {
  }

  lemma SignStep(m: int, x: int)
    ensures (-m) * -x == m * x && (-m) * x == -(m * x)
  {
  }

  /** For a negative base the returned N - (|A|^E mod N) is A^E mod N exactly when E is odd and N does not divide |A|^E. */
  lemma NegativeBase(m: int, e: nat, N: nat)
    requires m >= 0 && N % 2 == 1
    ensures N - Pow(m, e) % N == IntPow(-m, e) % N <==> e % 2 == 1 && Pow(m, e) % N != 0
  {
    hide Pow, IntPow;
    PowerSign(m, e);
    var x, r := Pow(m, e), Pow(m, e) % N;
    DivModParts(x, N);
    if e % 2 == 1 {
      if r == 0 {
        NegatedMod(x, N, -(x / N), 0);
      } else {
        NegatedMod(x, N, -(x / N) - 1, N - r);
      }
    }
  }

  lemma NegatedMod(x: int, N: int, q: int, r: int)
    requires 0 <= r < N && -x == q * N + r
    ensures (-x) % N == r
  {
    DivModUnique(-x, N, q, r);
  }
}
