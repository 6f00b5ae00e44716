/** Byte strings: exclusive or, big-endian numbers and the byte-wise counter increment of the cipher modes. */
module Bytes {
  import opened Arithmetic

  type Bytes = seq<bv8>

  function Xor(a: Bytes, b: Bytes): (r: Bytes)
    requires |a| <= |b|
    ensures |r| == |a| && forall i :: 0 <= i < |a| ==> r[i] == a[i] ^ b[i]
  {
    seq(|a|, i requires 0 <= i < |a| => a[i] ^ b[i])
  }

  function XorByte(x: bv8, y: bv8): (r: bv8) {
    x ^ y
  }

  lemma XorByteOff(x: bv8, k: bv8)
    ensures XorByte(XorByte(x, k), k) == x
  {
  }

  /** Masking twice with the same bytes gives the original back. */
  lemma XorTwice(a: Bytes, k: Bytes)
    requires |a| <= |k|
    ensures Xor(Xor(a, k), k) == a
  {
    var r := Xor(Xor(a, k), k);
    forall i | 0 <= i < |a| ensures r[i] == a[i] {
      XorByteOff(a[i], k[i]);
    }
  }

  /** The big-endian number a byte string denotes. */
  function Number(s: Bytes): (n: nat) {
    if |s| == 0 then 0 else Number(s[..|s| - 1]) * 256 + s[|s| - 1] as int
  }

  lemma {:induction false} NumberBound(s: Bytes)
    ensures Number(s) < Pow(256, |s|)
  {
    if |s| > 0 { NumberBound(s[..|s| - 1]); }
  }

  /** Equally long byte strings that denote the same number are equal. */
  lemma {:induction false} NumberInjective(s: Bytes, t: Bytes)
    requires |s| == |t| && Number(s) == Number(t)
    ensures s == t
  {
    if |s| > 0 {
      var n := |s| - 1;
      LastDigit(Number(s[..n]), s[n] as int, Number(t[..n]), t[n] as int);
      NumberInjective(s[..n], t[..n]);
      assert s == s[..n] + [s[n]] && t == t[..n] + [t[n]];
    }
  }

  lemma LastDigit(x: nat, d: nat, y: nat, e: nat)
    requires x * 256 + d == y * 256 + e && d < 256 && e < 256
    ensures x == y && d == e
  {
  }

  /** The loop that adds one from the last byte up to position lo, stopping at the first byte that does not become zero. */
  function Increment(s: Bytes, lo: nat, i: nat): (r: Bytes)
    requires lo <= i <= |s|
    ensures |r| == |s|
    decreases i
  {
    if i == lo then s
    else
      var t := s[i - 1 := s[i - 1] + 1];
      if t[i - 1] != 0 then t else Increment(t, lo, i - 1)
  }

  lemma NextByte(x: bv8)
    ensures (x + 1) as int == if x == 255 then 0 else x as int + 1
    ensures x + 1 == 0 <==> x == 255
  {
  }

  lemma NumberSlice(s: Bytes, lo: nat, i: nat)
    requires lo < i <= |s|
    ensures Number(s[lo..i]) == Number(s[lo..i - 1]) * 256 + s[i - 1] as int
  {
    assert s[lo..i][..i - 1 - lo] == s[lo..i - 1];
  }

  /** One more, modulo m, for numbers below m. */
  function Next(n: nat, m: nat): nat {
    if n + 1 == m then 0 else n + 1
  }

  /** The byte with a given value, reached by counting up from zero. */
  function ByteOf(d: nat): (b: bv8)
    requires d < 256
    ensures b as int == d
  {
    if d == 0 then 0 else
      NextByte(ByteOf(d - 1));
      ByteOf(d - 1) + 1
  }

  /** It adds one to the number in positions lo to i, modulo its range, and changes nothing else. */
  lemma {:induction false} IncrementAdds(s: Bytes, lo: nat, i: nat)
    requires lo <= i <= |s|
    ensures var r := Increment(s, lo, i);
            r[..lo] == s[..lo] && r[i..] == s[i..] && Number(r[lo..i]) == Next(Number(s[lo..i]), Pow(256, i - lo))
    decreases i
  {
    hide Number, Pow;
    if i == lo {
      PowZero(256);
      assert s[lo..lo] == [];
      NumberEmpty();
    } else {
      var r, t := Increment(s, lo, i), s[i - 1 := s[i - 1] + 1];
      NextByte(s[i - 1]);
      NumberSlice(s, lo, i);
      NumberSlice(r, lo, i);
      PowStep(256, i - 1 - lo);
      NumberBound(s[lo..i - 1]);
      Untouched(s, lo, i, t);
      if t[i - 1] == 0 {
        IncrementAdds(t, lo, i - 1);
        Tail(r, t, i);
      }
    }
  }

  lemma Untouched(s: Bytes, lo: nat, i: nat, t: Bytes)
    requires lo < i <= |s| && t == s[i - 1 := s[i - 1] + 1]
    ensures t[lo..i - 1] == s[lo..i - 1] && t[..lo] == s[..lo] && t[i..] == s[i..]
  {
  }

  lemma Tail(r: Bytes, t: Bytes, i: nat)
    requires 0 < i <= |r| == |t| && r[i - 1..] == t[i - 1..]
    ensures r[i - 1] == t[i - 1] && r[i..] == t[i..]
  {
    assert r[i - 1] == r[i - 1..][0] && t[i - 1] == t[i - 1..][0];
    assert r[i..] == r[i - 1..][1..] && t[i..] == t[i - 1..][1..];
  }

  lemma NumberEmpty()
    ensures Number([]) == 0
  {
  }

  /** The increment loop on a counter block. */
  method IncrementInPlace(a: array<bv8>, lo: nat)
    requires lo <= a.Length
    modifies a
    ensures a[..] == Increment(old(a[..]), lo, a.Length)
  {
    var i := a.Length;
    while i > lo
      invariant lo <= i <= a.Length && Increment(a[..], lo, i) == Increment(old(a[..]), lo, a.Length)
    {
      ghost var before := a[..];
      a[i - 1] := a[i - 1] + 1;
      assert a[..] == before[i - 1 := before[i - 1] + 1];
      if a[i - 1] != 0 { return; }
      i := i - 1;
    }
  }
}
