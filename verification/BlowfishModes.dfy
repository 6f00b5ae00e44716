/** Blowfish on bytes: ECB blocks, and CBC over buffers of whole blocks. */
module BlowfishModes {
  import opened Bytes
  import opened Blowfish

  type Block = b: Bytes | |b| == 8 witness seq(8, _ => 0)

  // ---------------------------------------------------------------- ECB

  /** GET_UINT32_BE */
  function Load(b0: bv8, b1: bv8, b2: bv8, b3: bv8): (n: bv32) {
    ((b0 as bv32) << 24) | ((b1 as bv32) << 16) | ((b2 as bv32) << 8) | (b3 as bv32)
  }

  /** PUT_UINT32_BE */
  function Store(n: bv32): (b: Bytes)
    ensures |b| == 4
  {
    [((n >> 24) & 0xFF) as bv8, ((n >> 16) & 0xFF) as bv8, ((n >> 8) & 0xFF) as bv8, (n & 0xFF) as bv8]
  }

  lemma LoadStored(n: bv32)
    ensures Load(Store(n)[0], Store(n)[1], Store(n)[2], Store(n)[3]) == n
  {
  }

  lemma StoreLoaded(b0: bv8, b1: bv8, b2: bv8, b3: bv8)
    ensures Store(Load(b0, b1, b2, b3)) == [b0, b1, b2, b3]
  {
  }

  lemma LoadedBytes(b0: bv8, b1: bv8, b2: bv8, b3: bv8)
    ensures var x := Load(b0, b1, b2, b3);
            Extract(x, 0) == Wide(b0) && Extract(x, 1) == Wide(b1) && Extract(x, 2) == Wide(b2) && Extract(x, 3) == Wide(b3)
  {
  }

  function Wide(b: bv8): bv32 {
    b as bv32
  }

  lemma WideIs(b: bv8)
    ensures Wide(b) as int == b as int
  {
  }

  /** The round function on the bytes of its argument, most significant first: each selects from its own box; sums are modulo 2^32. */
  lemma RoundFunction(S: Boxes, b0: bv8, b1: bv8, b2: bv8, b3: bv8)
    ensures F(S, Load(b0, b1, b2, b3)) == Sum(Mask(Sum(S[0][b0 as int], S[1][b1 as int]), S[2][b2 as int]), S[3][b3 as int])
  {
    hide Load, Extract, Wide, Sum, Mask;
    LoadedBytes(b0, b1, b2, b3);
    WideIs(b0);
    WideIs(b1);
    WideIs(b2);
    WideIs(b3);
  }

  function Split(b: Block): Halves {
    Halves(Load(b[0], b[1], b[2], b[3]), Load(b[4], b[5], b[6], b[7]))
  }

  function Join(x: Halves): Block {
    Store(x.l) + Store(x.r)
  }

  lemma SplitJoin(x: Halves)
    ensures Split(Join(x)) == x
  {
    hide Load, Store;
    LoadStored(x.l);
    LoadStored(x.r);
  }

  lemma JoinSplit(b: Block)
    ensures Join(Split(b)) == b
  {
    hide Load, Store;
    StoreLoaded(b[0], b[1], b[2], b[3]);
    StoreLoaded(b[4], b[5], b[6], b[7]);
  }

  function EncBlock(c: Context, b: Block): Block {
    Join(Enc(c, Split(b)))
  }

  function DecBlock(c: Context, b: Block): Block {
    Join(Dec(c, Split(b)))
  }

  /** Each direction of ECB inverts the other. */
  lemma EcbInverse(c: Context, b: Block)
    ensures DecBlock(c, EncBlock(c, b)) == b && EncBlock(c, DecBlock(c, b)) == b
  {
    hide Split, Join, Enc, Dec;
    SplitJoin(Enc(c, Split(b)));
    SplitJoin(Dec(c, Split(b)));
    DecInvertsEnc(c, Split(b));
    EncInvertsDec(c, Split(b));
    JoinSplit(b);
  }

  /** mbedtls_blowfish_crypt_ecb */
  method CryptEcb(c: Context, encrypt: bool, input: Block) returns (output: Block)
    ensures output == if encrypt then EncBlock(c, input) else DecBlock(c, input)
  {
    hide Load, Store, Enc, Dec;
    var x := Split(input);
    if encrypt { x := BlowfishEnc(c, x); } else { x := BlowfishDec(c, x); }
    output := Join(x);
  }

  // ---------------------------------------------------------------- CBC

  function CbcEnc(c: Context, iv: Block, s: Bytes): (r: Bytes)
    requires |s| % 8 == 0
    ensures |r| == |s|
    decreases |s|
  {
    if |s| == 0 then []
    else
      var y := EncBlock(c, Xor(s[..8], iv));
      y + CbcEnc(c, y, s[8..])
  }

  function CbcDec(c: Context, iv: Block, s: Bytes): (r: Bytes)
    requires |s| % 8 == 0
    ensures |r| == |s|
    decreases |s|
  {
    if |s| == 0 then [] else Xor(DecBlock(c, s[..8]), iv) + CbcDec(c, s[..8], s[8..])
  }

  /** The initialization vector left for the next call: the last ciphertext block. */
  function LastBlock(iv: Block, ciphertext: Bytes): Block
    requires |ciphertext| % 8 == 0
  {
    if |ciphertext| == 0 then iv else ciphertext[|ciphertext| - 8..]
  }

  /** CBC decryption inverts CBC encryption on every multiple of the block size. */
  lemma {:induction false} CbcInverse(c: Context, iv: Block, s: Bytes)
    requires |s| % 8 == 0
    ensures CbcDec(c, iv, CbcEnc(c, iv, s)) == s
    decreases |s|
  {
    hide EncBlock, DecBlock, Xor;
    if |s| > 0 {
      var b, rest := s[..8], s[8..];
      var y := EncBlock(c, Xor(b, iv));
      var t := CbcEnc(c, iv, s);
      assert t[..8] == y && t[8..] == CbcEnc(c, y, rest);
      EcbInverse(c, Xor(b, iv));
      XorTwice(b, iv);
      CbcInverse(c, y, rest);
      assert s == b + rest;
    }
  }

  /** The ciphertext block before position k, the initialization vector before the first. */
  function Previous(iv: Block, ciphertext: Bytes, k: nat): Block
    requires k % 8 == 0 && k <= |ciphertext|
  {
    if k == 0 then iv else ciphertext[k - 8..k]
  }

  /** Cipher block chaining: every block is masked with the ciphertext block before it and then encrypted. */
  lemma {:induction false} CbcBlock(c: Context, iv: Block, s: Bytes, k: nat)
    requires |s| % 8 == 0 && k % 8 == 0 && k + 8 <= |s|
    ensures var t := CbcEnc(c, iv, s);
            t[k..k + 8] == EncBlock(c, Xor(s[k..k + 8], Previous(iv, t, k)))
    decreases |s|
  {
    hide EncBlock, Xor, CbcEnc, Previous;
    var t, y := CbcEnc(c, iv, s), EncBlock(c, Xor(s[..8], iv));
    var u := CbcEnc(c, y, s[8..]);
    CbcFirst(c, iv, s);
    if k == 0 {
      FirstBlock(iv, s, y, u);
    } else {
      CbcBlock(c, y, s[8..], k - 8);
      LaterBlock(iv, s, y, u, k);
    }
  }

  lemma CbcFirst(c: Context, iv: Block, s: Bytes)
    requires |s| % 8 == 0 && |s| > 0
    ensures var y := EncBlock(c, Xor(s[..8], iv));
            CbcEnc(c, iv, s) == y + CbcEnc(c, y, s[8..])
  {
    hide EncBlock, Xor;
  }

  lemma FirstBlock(iv: Block, s: Bytes, y: Block, u: Bytes)
    requires |s| >= 8
    ensures (y + u)[0..8] == y && Previous(iv, y + u, 0) == iv && s[0..8] == s[..8]
  {
  }

  lemma LaterBlock(iv: Block, s: Bytes, y: Block, u: Bytes, k: nat)
    requires 8 <= k <= |u| && k % 8 == 0 && |s| == 8 + |u|
    ensures (y + u)[k..k + 8] == u[k - 8..k] && Previous(y, u, k - 8) == Previous(iv, y + u, k) && s[8..][k - 8..k] == s[k..k + 8]
  {
    hide Previous;
    SliceShifts(y, u, k);
    PreviousShifts(iv, y, u, k);
  }

  lemma SliceShifts(y: Block, u: Bytes, k: nat)
    requires 8 <= k <= |u|
    ensures (y + u)[k..k + 8] == u[k - 8..k]
  {
    var a, b := (y + u)[k..k + 8], u[k - 8..k];
    forall j | 0 <= j < 8 ensures a[j] == b[j] { }
  }

  lemma PreviousShifts(iv: Block, y: Block, u: Bytes, k: nat)
    requires 8 <= k <= |u| && k % 8 == 0
    ensures Previous(y, u, k - 8) == Previous(iv, y + u, k)
  {
    if k == 8 {
      assert (y + u)[0..8] == y;
    } else {
      SliceShifts(y, u, k - 8);
    }
  }

  method WriteBlock(a: array<bv8>, at: nat, b: Block)
    requires at + 8 <= a.Length
    modifies a
    ensures a[..at] == old(a[..at]) && a[at..at + 8] == b && a[at + 8..] == old(a[at + 8..])
  {
    forall j | 0 <= j < 8 { a[at + j] := b[j]; }
  }

  /** mbedtls_blowfish_crypt_cbc; 0 is success. Output may be the input buffer. */
  method CryptCbc(c: Context, encrypt: bool, length: nat, iv: array<bv8>, input: array<bv8>, output: array<bv8>) returns (rc: int)
    requires iv.Length == 8 && length <= input.Length && length <= output.Length && iv != input && iv != output
    modifies iv, output
    ensures rc == 0 <==> length % 8 == 0
    ensures rc != 0 ==> iv[..] == old(iv[..]) && output[..] == old(output[..])
    ensures rc == 0 ==> var s := old(input[..length]);
                        if encrypt then output[..length] == CbcEnc(c, old(iv[..]), s) && iv[..] == LastBlock(old(iv[..]), output[..length])
                        else output[..length] == CbcDec(c, old(iv[..]), s) && iv[..] == LastBlock(old(iv[..]), s)
    ensures output[length..] == old(output[length..])
  {
    if length % 8 != 0 { return -0x0018; }
    rc := 0;
    if encrypt { CbcEncLoop(c, length, iv, input, output); } else { CbcDecLoop(c, length, iv, input, output); }
  }

  lemma CbcUnfold(c: Context, iv: Block, s: Bytes, k: nat)
    requires |s| % 8 == 0 && k % 8 == 0 && k + 8 <= |s|
    ensures var x := s[k..k + 8];
            var y := EncBlock(c, Xor(x, iv));
            CbcEnc(c, iv, s[k..]) == y + CbcEnc(c, y, s[k + 8..])
            && CbcDec(c, iv, s[k..]) == Xor(DecBlock(c, x), iv) + CbcDec(c, x, s[k + 8..])
  {
    hide EncBlock, DecBlock, Xor;
    assert s[k..][..8] == s[k..k + 8] && s[k..][8..] == s[k + 8..];
  }

  lemma NoBlock(iv: Block)
    ensures LastBlock(iv, []) == iv
  {
  }

  lemma LastBlockIs(iv: Block, done: Bytes, y: Block)
    requires |done| % 8 == 0
    ensures |done + y| % 8 == 0 && LastBlock(iv, done + y) == y
  {
  }

  /** The next block of a buffer whose remaining input is s from k on. */
  method ReadBlock(input: array<bv8>, k: nat, length: nat, ghost s: Bytes) returns (x: Block)
    requires k + 8 <= length == |s| && length <= input.Length && input[k..length] == s[k..]
    ensures x == s[k..k + 8]
  {
    x := input[k..k + 8];
    assert x == input[k..length][..8];
  }

  /** One block written to the output, one to the initialization vector. */
  method Advance(k: nat, length: nat, iv: array<bv8>, input: array<bv8>, output: array<bv8>, out: Block, next: Block, ghost s: Bytes)
    requires iv.Length == 8 && k + 8 <= length == |s| && length <= input.Length && length <= output.Length && iv != input && iv != output
    requires input[k..length] == s[k..]
    modifies iv, output
    ensures output[..k + 8] == old(output[..k]) + out && output[length..] == old(output[length..])
    ensures iv[..] == next && input[k + 8..length] == s[k + 8..]
  {
    ghost var rest, back, tail := input[k + 8..], output[k + 8..], output[length..];
    assert rest[..length - k - 8] == input[k..length][8..] == s[k + 8..];
    assert back[length - k - 8..] == tail;
    WriteBlock(output, k, out);
    assert output[..k + 8] == output[..k] + output[k..k + 8];
    WriteBlock(iv, 0, next);
    assert iv[..] == iv[0..8];
    assert input[k + 8..] == rest && output[k + 8..] == back;
    assert input[k + 8..length] == input[k + 8..][..length - k - 8];
    assert output[length..] == output[k + 8..][length - k - 8..];
  }

  method CbcEncLoop(c: Context, length: nat, iv: array<bv8>, input: array<bv8>, output: array<bv8>)
    requires iv.Length == 8 && length % 8 == 0 && length <= input.Length && length <= output.Length && iv != input && iv != output
    modifies iv, output
    ensures output[..length] == CbcEnc(c, old(iv[..]), old(input[..length])) && iv[..] == LastBlock(old(iv[..]), output[..length])
    ensures output[length..] == old(output[length..])
  {
    hide EncBlock, DecBlock, Xor, CbcEnc, CbcDec, LastBlock;
    ghost var s, iv0, tail := input[..length], iv[..], output[length..];
    ghost var total := CbcEnc(c, iv0, s);
    assert s[0..] == s;
    NoBlock(iv0);
    var k := 0;
    while k < length
      invariant 0 <= k <= length && k % 8 == 0
      invariant input[k..length] == s[k..] && output[length..] == tail
      invariant output[..k] + CbcEnc(c, iv[..], s[k..]) == total
      invariant iv[..] == LastBlock(iv0, output[..k])
    {
      var x := ReadBlock(input, k, length, s);
      CbcUnfold(c, iv[..], s, k);
      var y := CryptEcb(c, true, Xor(x, iv[..]));
      LastBlockIs(iv0, output[..k], y);
      Advance(k, length, iv, input, output, y, y, s);
      k := k + 8;
    }
    assert output[..length] + CbcEnc(c, iv[..], s[length..]) == output[..length];
  }

  method CbcDecLoop(c: Context, length: nat, iv: array<bv8>, input: array<bv8>, output: array<bv8>)
    requires iv.Length == 8 && length % 8 == 0 && length <= input.Length && length <= output.Length && iv != input && iv != output
    modifies iv, output
    ensures output[..length] == CbcDec(c, old(iv[..]), old(input[..length])) && iv[..] == LastBlock(old(iv[..]), old(input[..length]))
    ensures output[length..] == old(output[length..])
  {
    hide EncBlock, DecBlock, Xor, CbcEnc, CbcDec, LastBlock;
    ghost var s, iv0, tail := input[..length], iv[..], output[length..];
    ghost var total := CbcDec(c, iv0, s);
    assert s[0..] == s;
    NoBlock(iv0);
    var k := 0;
    while k < length
      invariant 0 <= k <= length && k % 8 == 0
      invariant input[k..length] == s[k..] && output[length..] == tail
      invariant output[..k] + CbcDec(c, iv[..], s[k..]) == total
      invariant iv[..] == LastBlock(iv0, s[..k])
    {
      var temp := ReadBlock(input, k, length, s);
      CbcUnfold(c, iv[..], s, k);
      var x := CryptEcb(c, false, temp);
      Advance(k, length, iv, input, output, Xor(x, iv[..]), temp, s);
      LastBlockIs(iv0, s[..k], temp);
      assert s[..k + 8] == s[..k] + temp;
      k := k + 8;
    }
    assert s[..length] == s;
    assert output[..length] + CbcDec(c, iv[..], s[length..]) == output[..length];
  }
}
