/** Little-endian limb sequences and the number each of them stands for. */
module Limbs {
  import opened Arithmetic

  /** Bits in a limb: sizeof(mbedtls_mpi_uint) is a power of two. The proofs hold for every one of these widths. */
  type LimbBits = n: nat | n == 8 || n == 16 || n == 32 || n == 64 witness 32

  const BITS: LimbBits

  /** The radix: limb arithmetic wraps modulo BASE. */
  const BASE: nat := Pow(2, BITS)

  type limb = x: nat | x < BASE

  lemma BaseBounds()
    ensures BASE >= 256 && BASE % 2 == 0
  {
    assert Pow(2, 8) == 256;
    BaseFrom(BITS);
  }

  lemma BaseFrom(bits: nat)
    requires bits >= 8
    ensures Pow(2, bits) >= Pow(2, 8) && Pow(2, bits) % 2 == 0
  {
    hide Pow;
    PowMonotone(2, 8, bits);
    PowStep(2, bits - 1);
  }

  /** The number denoted by p, least significant limb first. */
  ghost function Val(p: seq<nat>): (v: nat) {
    if |p| == 0 then 0 else Val(p[..|p| - 1]) + p[|p| - 1] * Pow(BASE, |p| - 1)
  }

  lemma ValEmpty(p: seq<nat>)
    requires p == []
    ensures Val(p) == 0
  {
  }

  lemma ValSnoc(p: seq<nat>, i: nat)
    requires i < |p|
    ensures Val(p[..i + 1]) == Val(p[..i]) + p[i] * Pow(BASE, i)
  {
    assert p[..i + 1][..i] == p[..i];
  }

  lemma TopDigit(low: nat, x: nat, base: nat, w: nat)
    requires low < w && x < base
    ensures low + x * w < base * w
  {
    MulMonotone(x + 1, base, w);
  }

  lemma {:induction false} ValBound(p: seq<limb>)
    ensures Val(p) < Pow(BASE, |p|)
  {
    if |p| > 0 {
      var n := |p| - 1;
      ValBound(p[..n]);
      TopDigit(Val(p[..n]), p[n], BASE, Pow(BASE, n));
    }
  }

  /** Splitting at limb i. */
  lemma {:induction false} ValSplit(p: seq<nat>, i: nat)
    requires i <= |p|
    ensures Val(p) == Val(p[..i]) + Pow(BASE, i) * Val(p[i..])
  {
    if i == |p| {
      assert p[..i] == p;
    } else {
      var n := |p| - 1;
      ValSplit(p[..n], i);
      assert p[..n][..i] == p[..i];
      assert p[..n][i..] == p[i..][..n - i];
      PowAdd(BASE, i, n - i);
      ScaleSum(Pow(BASE, i), Val(p[i..][..n - i]), p[n], Pow(BASE, n - i));
    }
  }

  lemma ValOne(x: nat)
    ensures Val([x]) == x
  {
    assert [x][..0] == [];
    assert Pow(BASE, 0) == 1;
  }

  lemma ValCons(p: seq<nat>)
    requires |p| > 0
    ensures Val(p) == p[0] + BASE * Val(p[1..])
  {
    ValSplit(p, 1);
    assert p[..1] == [p[0]];
    PowOne(BASE);
    ValOne(p[0]);
  }

  lemma {:induction false} ValUpdate(p: seq<nat>, i: nat, v: nat)
    requires i < |p|
    ensures Val(p[i := v]) == Val(p) + (v - p[i]) * Pow(BASE, i)
  {
    var n := |p| - 1;
    if i < n {
      ValUpdate(p[..n], i, v);
      assert p[i := v][..n] == p[..n][i := v];
    } else {
      assert p[i := v][..n] == p[..n];
      assert v * Pow(BASE, n) == p[n] * Pow(BASE, n) + (v - p[n]) * Pow(BASE, n);
    }
  }

  function Zeros(n: nat): (z: seq<limb>)
    ensures |z| == n && forall i :: 0 <= i < n ==> z[i] == 0
  {
    seq(n, _ => 0)
  }

  lemma {:induction false} ValZero(p: seq<nat>)
    requires forall i :: 0 <= i < |p| ==> p[i] == 0
    ensures Val(p) == 0
  {
    if |p| > 0 { ValZero(p[..|p| - 1]); }
  }

  /** Limbs above i that are zero do not contribute. */
  lemma ValHighZero(p: seq<nat>, i: nat)
    requires i <= |p| && forall k :: i <= k < |p| ==> p[k] == 0
    ensures Val(p) == Val(p[..i])
  {
    ValSplit(p, i);
    ValZero(p[i..]);
  }

  /** A value below BASE^i leaves the limbs from i on zero. */
  lemma {:induction false} ValSmall(p: seq<limb>, i: nat)
    requires i <= |p| && Val(p) < Pow(BASE, i)
    ensures forall k :: i <= k < |p| ==> p[k] == 0
  {
    if i < |p| {
      var n := |p| - 1;
      PowMonotone(BASE, i, n);
      if p[n] > 0 { MulMonotone(1, p[n], Pow(BASE, n)); }
      ValSmall(p[..n], i);
    }
  }

  /** A nonzero limb at i puts the value at BASE^i or above. */
  lemma ValLarge(p: seq<nat>, i: nat)
    requires i < |p| && p[i] > 0
    ensures Val(p) >= Pow(BASE, i)
  {
    ValSplit(p, i + 1);
    ValSnoc(p, i);
    MulMonotone(1, p[i], Pow(BASE, i));
    MulMonotone(0, Val(p[i + 1..]), Pow(BASE, i + 1));
  }

  /** A sequence of limbs is determined by its length and its value. */
  lemma {:induction false} ValInjective(p: seq<limb>, q: seq<limb>)
    requires |p| == |q| && Val(p) == Val(q)
    ensures p == q
  {
    if |p| > 0 {
      var n := |p| - 1;
      ValBound(p[..n]);
      ValBound(q[..n]);
      DivModUnique(Val(p), Pow(BASE, n), p[n], Val(p[..n]));
      DivModUnique(Val(q), Pow(BASE, n), q[n], Val(q[..n]));
      ValInjective(p[..n], q[..n]);
    }
  }
}
