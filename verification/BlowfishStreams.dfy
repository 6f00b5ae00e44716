/** Blowfish as a stream cipher: CFB64 and CTR, byte by byte, resumable at any offset within a block. */
module BlowfishStreams {
  import opened Arithmetic
  import opened Bytes
  import opened Blowfish
  import opened BlowfishModes

  type Offset = n: nat | n < 8

  // ---------------------------------------------------------------- CFB64

  /** What is carried from call to call: the initialization vector and the offset into it. */
  datatype Cfb = Cfb(iv: Block, n: Offset)

  function CfbVector(c: Context, st: Cfb): Block {
    if st.n == 0 then EncBlock(c, st.iv) else st.iv
  }

  function CfbOut(c: Context, st: Cfb, x: bv8): bv8 {
    XorByte(x, CfbVector(c, st)[st.n])
  }

  /** The ciphertext byte, output or input, replaces the byte it was masked with. */
  function CfbNext(c: Context, encrypt: bool, st: Cfb, x: bv8): Cfb {
    Cfb(CfbVector(c, st)[st.n := if encrypt then CfbOut(c, st, x) else x], (st.n + 1) % 8)
  }

  function CfbAfter(c: Context, encrypt: bool, st: Cfb, s: Bytes): (r: Cfb) {
    if |s| == 0 then st else CfbNext(c, encrypt, CfbAfter(c, encrypt, st, s[..|s| - 1]), s[|s| - 1])
  }

  function CfbCrypt(c: Context, encrypt: bool, st: Cfb, s: Bytes): (r: Bytes)
    ensures |r| == |s|
  {
    if |s| == 0 then []
    else CfbCrypt(c, encrypt, st, s[..|s| - 1]) + [CfbOut(c, CfbAfter(c, encrypt, st, s[..|s| - 1]), s[|s| - 1])]
  }

  /** Output and state do not depend on how the buffer is split across calls. */
  lemma {:induction false} CfbSplit(c: Context, encrypt: bool, st: Cfb, a: Bytes, b: Bytes)
    ensures var mid := CfbAfter(c, encrypt, st, a);
            CfbAfter(c, encrypt, st, a + b) == CfbAfter(c, encrypt, mid, b)
            && CfbCrypt(c, encrypt, st, a + b) == CfbCrypt(c, encrypt, st, a) + CfbCrypt(c, encrypt, mid, b)
    decreases |b|
  {
    hide CfbNext, CfbOut;
    if |b| == 0 {
      assert a + b == a;
    } else {
      CfbSplit(c, encrypt, st, a, b[..|b| - 1]);
      assert (a + b)[..|a + b| - 1] == a + b[..|b| - 1];
    }
  }

  lemma CfbNone(c: Context, encrypt: bool, st: Cfb)
    ensures CfbAfter(c, encrypt, st, []) == st && CfbCrypt(c, encrypt, st, []) == []
  {
  }

  lemma CfbOneMore(c: Context, encrypt: bool, st: Cfb, s: Bytes, x: bv8)
    ensures var m := CfbAfter(c, encrypt, st, s);
            CfbAfter(c, encrypt, st, s + [x]) == CfbNext(c, encrypt, m, x)
            && CfbCrypt(c, encrypt, st, s + [x]) == CfbCrypt(c, encrypt, st, s) + [CfbOut(c, m, x)]
  {
    hide CfbNext, CfbOut;
    assert (s + [x])[..|s|] == s;
  }

  lemma CfbByteInverse(c: Context, st: Cfb, x: bv8)
    ensures var y := CfbOut(c, st, x);
            CfbOut(c, st, y) == x && CfbNext(c, false, st, y) == CfbNext(c, true, st, x)
  {
    hide CfbVector, XorByte;
    XorByteOff(x, CfbVector(c, st)[st.n]);
  }

  /** Decryption from the same state inverts encryption and ends in the same state. */
  lemma {:induction false} CfbInverse(c: Context, st: Cfb, s: Bytes)
    ensures var t := CfbCrypt(c, true, st, s);
            CfbCrypt(c, false, st, t) == s && CfbAfter(c, false, st, t) == CfbAfter(c, true, st, s)
  {
    hide CfbNext, CfbOut, CfbAfter, CfbCrypt;
    if |s| == 0 {
      CfbNone(c, true, st);
      CfbNone(c, false, st);
    } else {
      var p, x := s[..|s| - 1], s[|s| - 1];
      CfbInverse(c, st, p);
      var t, m := CfbCrypt(c, true, st, p), CfbAfter(c, true, st, p);
      assert s == p + [x];
      CfbOneMore(c, true, st, p, x);
      CfbOneMore(c, false, st, t, CfbOut(c, m, x));
      CfbByteInverse(c, m, x);
    }
  }

  /** The start of the block that the next byte belongs to. */
  function BlockStart(n: nat): (b: nat)
    ensures b <= n && b % 8 == 0 && n == b + n % 8
  {
    n - n % 8
  }

  /** The vector carried after a ciphertext: what there is of its last block, then the rest of the block it is masked with. */
  function Carried(c: Context, iv: Block, ct: Bytes): (v: Block) {
    var n, b := |ct| % 8, BlockStart(|ct|);
    if n == 0 then Previous(iv, ct, b) else ct[b..] + EncBlock(c, Previous(iv, ct, b))[n..]
  }

  lemma VectorIs(c: Context, iv: Block, ct: Bytes)
    ensures var n, b := |ct| % 8, BlockStart(|ct|);
            CfbVector(c, Cfb(Carried(c, iv, ct), n)) == ct[b..] + EncBlock(c, Previous(iv, ct, b))[n..]
  {
    hide EncBlock, Previous;
  }

  lemma ReplaceByte(x: Bytes, e: Block, z: bv8)
    requires |x| < 8
    ensures (x + e[|x|..])[|x|] == e[|x|] && (x + e[|x|..])[|x| := z] == x + [z] + e[|x| + 1..]
  {
  }

  lemma CarriedMore(c: Context, iv: Block, ct: Bytes, z: bv8)
    ensures var n, b := |ct| % 8, BlockStart(|ct|);
            Carried(c, iv, ct + [z]) == ct[b..] + [z] + EncBlock(c, Previous(iv, ct, b))[n + 1..] && (n + 1) % 8 == |ct + [z]| % 8
  {
    hide EncBlock, Previous;
    var n, b, ct' := |ct| % 8, BlockStart(|ct|), ct + [z];
    SamePrevious(iv, ct, ct', b);
    if n < 7 {
      assert BlockStart(|ct'|) == b;
      assert ct'[b..] == ct[b..] + [z];
    } else {
      assert BlockStart(|ct'|) == b + 8 == |ct'|;
      WholePrevious(iv, ct', b + 8);
      assert ct'[b..] == ct[b..] + [z];
    }
  }

  lemma WholePrevious(iv: Block, ct: Bytes, k: nat)
    requires k % 8 == 0 && 0 < k == |ct|
    ensures Previous(iv, ct, k) == ct[k - 8..]
  {
    assert ct[k - 8..k] == ct[k - 8..];
  }

  /** One more ciphertext byte. */
  lemma CarriedStep(c: Context, iv: Block, ct: Bytes, z: bv8)
    ensures var n, prev := |ct| % 8, Previous(iv, ct, BlockStart(|ct|));
            var v := CfbVector(c, Cfb(Carried(c, iv, ct), n));
            v[n] == EncBlock(c, prev)[n] && v[n := z] == Carried(c, iv, ct + [z]) && (n + 1) % 8 == |ct + [z]| % 8
  {
    hide EncBlock, Previous, Carried, CfbVector;
    VectorIs(c, iv, ct);
    CarriedMore(c, iv, ct, z);
    var b := BlockStart(|ct|);
    ReplaceByte(ct[b..], EncBlock(c, Previous(iv, ct, b)), z);
  }

  /** The ciphertext of a call, whichever direction it goes. */
  function Ciphertext(c: Context, encrypt: bool, iv: Block, s: Bytes): (t: Bytes)
    ensures |t| == |s|
  {
    if encrypt then CfbCrypt(c, true, Cfb(iv, 0), s) else s
  }

  lemma {:induction false} CfbState(c: Context, encrypt: bool, iv: Block, s: Bytes)
    ensures CfbAfter(c, encrypt, Cfb(iv, 0), s) == Cfb(Carried(c, iv, Ciphertext(c, encrypt, iv, s)), |s| % 8)
  {
    hide CfbOut, CfbVector, CfbAfter, CfbCrypt, Carried, Previous, EncBlock;
    if |s| == 0 {
      CfbNone(c, encrypt, Cfb(iv, 0));
      NothingCarried(c, iv);
    } else {
      var p, x := s[..|s| - 1], s[|s| - 1];
      assert s == p + [x];
      CfbState(c, encrypt, iv, p);
      CfbOneMore(c, encrypt, Cfb(iv, 0), p, x);
      var m := CfbAfter(c, encrypt, Cfb(iv, 0), p);
      CarriedStep(c, iv, Ciphertext(c, encrypt, iv, p), if encrypt then CfbOut(c, m, x) else x);
    }
  }

  lemma NothingCarried(c: Context, iv: Block)
    ensures Carried(c, iv, []) == iv
  {
  }

  /** Cipher feedback: every byte is masked with its byte of the encryption of the ciphertext block before its own. */
  lemma CfbAt(c: Context, encrypt: bool, iv: Block, s: Bytes, i: nat)
    requires i < |s|
    ensures CfbCrypt(c, encrypt, Cfb(iv, 0), s)[i]
            == XorByte(s[i], EncBlock(c, Previous(iv, Ciphertext(c, encrypt, iv, s), BlockStart(i)))[i % 8])
  {
    hide CfbVector, CfbAfter, CfbCrypt, Carried, EncBlock, XorByte, Previous;
    var st, p, rest := Cfb(iv, 0), s[..i], s[i + 1..];
    var t := CfbCrypt(c, encrypt, st, p);
    var ct, all := Ciphertext(c, encrypt, iv, p), Ciphertext(c, encrypt, iv, s);
    assert s == (p + [s[i]]) + rest;
    CfbSplit(c, encrypt, st, p + [s[i]], rest);
    CfbOneMore(c, encrypt, st, p, s[i]);
    CfbState(c, encrypt, iv, p);
    CarriedStep(c, iv, ct, 0);
    assert all[..i] == ct;
    SamePrevious(iv, ct, all, BlockStart(i));
  }

  lemma SamePrevious(iv: Block, a: Bytes, b: Bytes, k: nat)
    requires k % 8 == 0 && k <= |a| <= |b| && b[..|a|] == a
    ensures Previous(iv, a, k) == Previous(iv, b, k)
  {
    forall j | 0 <= j < |a| ensures a[j] == b[j] { assert b[..|a|][j] == b[j]; }
    if k > 0 {
      var x, y := a[k - 8..k], b[k - 8..k];
      forall j | 0 <= j < 8 ensures x[j] == y[j] { assert x[j] == a[k - 8 + j] && y[j] == b[k - 8 + j]; }
    }
  }

  /** mbedtls_blowfish_crypt_cfb64: returns the new offset. Output may be the input buffer. */
  method CryptCfb64(c: Context, encrypt: bool, length: nat, ivOff: Offset, iv: array<bv8>, input: array<bv8>, output: array<bv8>)
    returns (n: Offset)
    requires iv.Length == 8 && length <= input.Length && length <= output.Length && iv != input && iv != output
    modifies iv, output
    ensures Cfb(iv[..], n) == CfbAfter(c, encrypt, Cfb(old(iv[..]), ivOff), old(input[..length]))
    ensures output[..length] == CfbCrypt(c, encrypt, Cfb(old(iv[..]), ivOff), old(input[..length]))
    ensures output[length..] == old(output[length..])
  {
    hide CfbNext, CfbOut;
    ghost var s, st, tail := input[..length], Cfb(iv[..], ivOff), output[length..];
    n := ivOff;
    var k := 0;
    while k < length
      invariant 0 <= k <= length && input[k..length] == s[k..] && output[length..] == tail
      invariant Cfb(iv[..], n) == CfbAfter(c, encrypt, st, s[..k]) && output[..k] == CfbCrypt(c, encrypt, st, s[..k])
    {
      assert s[..k + 1][..k] == s[..k];
      assert input[k] == input[k..length][0] == s[k];
      n := CfbByte(c, encrypt, k, length, n, iv, input, output);
      k := k + 1;
    }
    assert s[..length] == s;
  }

  /** One pass of the loop, at position k. */
  method CfbByte(c: Context, encrypt: bool, k: nat, length: nat, n0: Offset, iv: array<bv8>, input: array<bv8>, output: array<bv8>)
    returns (n: Offset)
    requires iv.Length == 8 && k < length <= input.Length && length <= output.Length && iv != input && iv != output
    modifies iv, output
    ensures Cfb(iv[..], n) == CfbNext(c, encrypt, Cfb(old(iv[..]), n0), old(input[k]))
    ensures output[..k + 1] == old(output[..k]) + [CfbOut(c, Cfb(old(iv[..]), n0), old(input[k]))]
    ensures output[length..] == old(output[length..]) && input[k + 1..length] == old(input[k..length])[1..]
  {
    hide EncBlock, XorByte;
    ghost var st := Cfb(iv[..], n0);
    if n0 == 0 {
      var e := CryptEcb(c, true, iv[..]);
      WriteBlock(iv, 0, e);
      assert iv[..] == iv[0..8];
    }
    assert iv[..] == CfbVector(c, st);
    var x := input[k];
    var y := XorByte(x, iv[n0]);
    output[k] := y;
    iv[n0] := if encrypt then y else x;
    assert iv[..] == CfbVector(c, st)[n0 := if encrypt then y else x];
    n := (n0 + 1) % 8;
  }

  // ---------------------------------------------------------------- CTR

  datatype Ctr = Ctr(counter: Block, stream: Block, n: Offset)

  /** At a block boundary the counter is encrypted to the key stream and then incremented. */
  function CtrReady(c: Context, st: Ctr): Ctr {
    if st.n == 0 then Ctr(Increment(st.counter, 0, 8), EncBlock(c, st.counter), 0) else st
  }

  function CtrMask(c: Context, st: Ctr): bv8 {
    var r := CtrReady(c, st);
    r.stream[r.n]
  }

  function CtrNext(c: Context, st: Ctr): Ctr {
    var r := CtrReady(c, st);
    r.(n := (r.n + 1) % 8)
  }

  function CtrAfter(c: Context, st: Ctr, k: nat): (r: Ctr) {
    if k == 0 then st else CtrNext(c, CtrAfter(c, st, k - 1))
  }

  function CtrCrypt(c: Context, st: Ctr, s: Bytes): (r: Bytes)
    ensures |r| == |s|
  {
    if |s| == 0 then [] else CtrCrypt(c, st, s[..|s| - 1]) + [XorByte(s[|s| - 1], CtrMask(c, CtrAfter(c, st, |s| - 1)))]
  }

  /** The same operation from the same state gives the input back. */
  lemma {:induction false} CtrSelfInverse(c: Context, st: Ctr, s: Bytes)
    ensures CtrCrypt(c, st, CtrCrypt(c, st, s)) == s
  {
    hide XorByte, CtrMask, CtrAfter, CtrCrypt;
    if |s| == 0 {
      CtrNone(c, st);
    } else {
      var n := |s| - 1;
      var p, x := s[..n], s[n];
      CtrSelfInverse(c, st, p);
      var t := CtrCrypt(c, st, p);
      var mask := CtrMask(c, CtrAfter(c, st, n));
      CtrOneMore(c, st, s, n);
      var u := t + [XorByte(x, mask)];
      CtrOneMore(c, st, u, n);
      assert u[..n] == t && u[..n + 1] == u && s[..n + 1] == s;
      XorByteOff(x, mask);
    }
  }

  lemma {:induction false} CtrAfterSum(c: Context, st: Ctr, i: nat, j: nat)
    ensures CtrAfter(c, st, i + j) == CtrAfter(c, CtrAfter(c, st, i), j)
  {
    hide CtrNext;
    if j > 0 { CtrAfterSum(c, st, i, j - 1); }
  }

  lemma {:induction false} CtrSplit(c: Context, st: Ctr, a: Bytes, b: Bytes)
    ensures CtrCrypt(c, st, a + b) == CtrCrypt(c, st, a) + CtrCrypt(c, CtrAfter(c, st, |a|), b)
    decreases |b|
  {
    hide XorByte, CtrMask, CtrNext, CtrAfter;
    if |b| == 0 {
      assert a + b == a;
    } else {
      CtrSplit(c, st, a, b[..|b| - 1]);
      assert (a + b)[..|a + b| - 1] == a + b[..|b| - 1];
      CtrAfterSum(c, st, |a|, |b| - 1);
    }
  }

  /** From a block boundary, 8*m bytes use m counters: the counter has advanced by m modulo 2^64. */
  lemma {:induction false} CtrAdvances(c: Context, st: Ctr, m: nat)
    requires st.n == 0
    ensures var r := CtrAfter(c, st, 8 * m);
            r.n == 0 && Number(r.counter) == (Number(st.counter) + m) % 0x1_0000_0000_0000_0000
  {
    hide EncBlock, Number;
    if m == 0 {
      CounterBound(st.counter);
      AfterNone(c, st);
    } else {
      CtrAdvances(c, st, m - 1);
      var r := CtrAfter(c, st, 8 * (m - 1));
      CtrAfterSum(c, st, 8 * (m - 1), 8);
      EightBytes(c, r);
      CounterStep(r.counter);
      hide CtrAfter;
      AddOneModulo(Number(st.counter), m - 1);
    }
  }

  lemma AddOneModulo(x: nat, k: nat)
    ensures var m := 0x1_0000_0000_0000_0000;
            (x + k + 1) % m == (if (x + k) % m + 1 == m then 0 else (x + k) % m + 1)
  {
  }

  lemma AfterNone(c: Context, st: Ctr)
    ensures CtrAfter(c, st, 0) == st
  {
  }

  lemma {:induction false} InsideBlock(c: Context, r: Ctr, k: nat)
    requires r.n == 0 && 0 < k < 8
    ensures CtrAfter(c, r, k) == Ctr(Increment(r.counter, 0, 8), EncBlock(c, r.counter), k)
  {
    hide EncBlock, Increment;
    if k > 1 { InsideBlock(c, r, k - 1); }
  }

  lemma EightBytes(c: Context, r: Ctr)
    requires r.n == 0
    ensures CtrAfter(c, r, 8) == Ctr(Increment(r.counter, 0, 8), EncBlock(c, r.counter), 0)
  {
    hide EncBlock, Increment;
    InsideBlock(c, r, 7);
  }

  lemma MaskInside(c: Context, r: Ctr, k: nat)
    requires r.n == 0 && k < 8
    ensures CtrMask(c, CtrAfter(c, r, k)) == EncBlock(c, r.counter)[k]
  {
    hide EncBlock, Increment;
    if k > 0 { InsideBlock(c, r, k); }
  }

  lemma MaskAt(c: Context, st: Ctr, i: nat, b: Block)
    requires st.n == 0 && Number(b) == (Number(st.counter) + i / 8) % 0x1_0000_0000_0000_0000
    ensures CtrMask(c, CtrAfter(c, st, i)) == EncBlock(c, b)[i % 8]
  {
    hide EncBlock, Number, CtrAfter, CtrMask;
    var q, k := i / 8, i % 8;
    CtrAdvances(c, st, q);
    var r := CtrAfter(c, st, 8 * q);
    NumberInjective(r.counter, b);
    CtrAfterSum(c, st, 8 * q, k);
    MaskInside(c, r, k);
  }

  /** Counter mode: every byte is masked with its byte of the encryption of the counter plus the number of blocks before it. */
  lemma CtrAt(c: Context, st: Ctr, s: Bytes, i: nat, b: Block)
    requires st.n == 0 && i < |s| && Number(b) == (Number(st.counter) + i / 8) % 0x1_0000_0000_0000_0000
    ensures CtrCrypt(c, st, s)[i] == XorByte(s[i], EncBlock(c, b)[i % 8])
  {
    hide EncBlock, Number, CtrCrypt, CtrAfter, CtrMask, XorByte;
    MaskAt(c, st, i, b);
    CtrOneMore(c, st, s, i);
    var front, rest := s[..i + 1], s[i + 1..];
    assert s == front + rest;
    CtrSplit(c, st, front, rest);
  }

  lemma CounterRange()
    ensures Pow(256, 8) == 0x1_0000_0000_0000_0000
  {
    PowAdd(256, 4, 4);
    PowAdd(256, 2, 2);
    PowAdd(256, 1, 1);
    PowOne(256);
  }

  lemma CounterBound(b: Block)
    ensures Number(b) < 0x1_0000_0000_0000_0000
  {
    hide Number, Pow;
    CounterRange();
    NumberBound(b);
  }

  lemma CounterStep(b: Block)
    ensures Number(Increment(b, 0, 8)) == Next(Number(b), 0x1_0000_0000_0000_0000)
  {
    hide Number, Pow, Increment;
    CounterRange();
    IncrementAdds(b, 0, 8);
    var r := Increment(b, 0, 8);
    assert r[0..8] == r && b[0..8] == b;
  }

  /** mbedtls_blowfish_crypt_ctr: returns the new offset. Output may be the input buffer. */
  method CryptCtr(c: Context, length: nat, ncOff: Offset, counter: array<bv8>, stream: array<bv8>, input: array<bv8>, output: array<bv8>)
    returns (n: Offset)
    requires counter.Length == 8 && stream.Length == 8 && length <= input.Length && length <= output.Length
    requires counter != stream && counter !in {input, output} && stream !in {input, output}
    modifies counter, stream, output
    ensures Ctr(counter[..], stream[..], n) == CtrAfter(c, Ctr(old(counter[..]), old(stream[..]), ncOff), length)
    ensures output[..length] == CtrCrypt(c, Ctr(old(counter[..]), old(stream[..]), ncOff), old(input[..length]))
    ensures output[length..] == old(output[length..])
  {
    hide CtrReady, EncBlock, XorByte, CtrCrypt, CtrAfter;
    CtrNone(c, Ctr(counter[..], stream[..], ncOff));
    ghost var s, st, tail := input[..length], Ctr(counter[..], stream[..], ncOff), output[length..];
    n := ncOff;
    var k := 0;
    while k < length
      invariant 0 <= k <= length && input[k..length] == s[k..] && output[length..] == tail
      invariant Ctr(counter[..], stream[..], n) == CtrAfter(c, st, k) && output[..k] == CtrCrypt(c, st, s[..k])
    {
      ghost var at := Ctr(counter[..], stream[..], n);
      CtrOneMore(c, st, s, k);
      assert input[k] == input[k..length][0] == s[k];
      CtrPrepare(c, n, counter, stream);
      var x := input[k];
      assert XorByte(x, stream[n]) == XorByte(s[k], CtrMask(c, at));
      ghost var done, rest := output[..k], input[k..length];
      output[k] := XorByte(x, stream[n]);
      assert output[..k + 1] == done + [XorByte(x, CtrMask(c, at))];
      assert input[k + 1..length] == rest[1..];
      n := (n + 1) % 8;
      k := k + 1;
    }
    assert s[..length] == s;
  }

  lemma CtrNone(c: Context, st: Ctr)
    ensures CtrAfter(c, st, 0) == st && CtrCrypt(c, st, []) == []
  {
  }

  lemma CtrOneMore(c: Context, st: Ctr, s: Bytes, k: nat)
    requires k < |s|
    ensures CtrAfter(c, st, k + 1) == CtrNext(c, CtrAfter(c, st, k))
    ensures CtrCrypt(c, st, s[..k + 1]) == CtrCrypt(c, st, s[..k]) + [XorByte(s[k], CtrMask(c, CtrAfter(c, st, k)))]
  {
    hide CtrNext, CtrMask, XorByte;
    assert s[..k + 1][..k] == s[..k];
  }

  method CtrPrepare(c: Context, n: Offset, counter: array<bv8>, stream: array<bv8>)
    requires counter.Length == 8 && stream.Length == 8 && counter != stream
    modifies counter, stream
    ensures Ctr(counter[..], stream[..], n) == CtrReady(c, Ctr(old(counter[..]), old(stream[..]), n))
  {
    hide EncBlock, Increment;
    if n == 0 {
      var e := CryptEcb(c, true, counter[..]);
      WriteBlock(stream, 0, e);
      assert stream[..] == stream[0..8];
      IncrementInPlace(counter, 0);
    }
  }
}
