/** CCM authenticated encryption (NIST SP 800-38C, sections 6.1 and 6.2) over an arbitrary fixed block function. */
module Ccm {
  import opened Arithmetic
  import opened Bytes

  type Block = b: Bytes | |b| == 16 witness seq(16, _ => 0)

  type Cipher = Block -> Block

  /** Nonce, additional data and tag length: what both sides share besides the key. */
  datatype Params = Params(iv: Bytes, add: Bytes, tagLen: nat)

  datatype Error = None | BadInput | AuthFailed

  // ---------------------------------------------------------------- formatting

  predicate ParamsFit(p: Params) {
    4 <= p.tagLen <= 16 && p.tagLen % 2 == 0 && 7 <= |p.iv| <= 13 && |p.add| <= 0xFF00
  }

  /** The width of the length and counter fields. */
  function Q(p: Params): (q: nat)
    requires ParamsFit(p)
    ensures 2 <= q <= 8 && 1 + |p.iv| + q == 16
  {
    15 - |p.iv|
  }

  ghost predicate Accepted(p: Params, length: nat) {
    ParamsFit(p) && length < Pow(256, Q(p))
  }

  /** n in q bytes, most significant first. */
  function Field(n: nat, q: nat): (r: Bytes)
    ensures |r| == q
  {
    if q == 0 then [] else Field(n / 256, q - 1) + [ByteOf(n % 256)]
  }

  lemma Below(n: nat, p: nat)
    requires n < 256 * p
    ensures n / 256 < p
  {
  }

  lemma {:induction false} FieldNumber(n: nat, q: nat)
    requires n < Pow(256, q)
    ensures Number(Field(n, q)) == n
  {
    hide Number, Pow;
    if q == 0 {
      PowZero(256);
      NumberEmpty();
    } else {
      var r := Field(n, q);
      PowStep(256, q - 1);
      assert r[0..q - 1] == Field(n / 256, q - 1) && r[0..q] == r;
      Below(n, Pow(256, q - 1));
      FieldNumber(n / 256, q - 1);
      NumberSlice(r, 0, q);
    }
  }

  /** Bit 6 for additional data, bits 5 to 3 for the tag length, bits 2 to 0 for the width of the length field. */
  function FirstFlags(p: Params): (f: nat)
    requires ParamsFit(p)
    ensures f < 256
  {
    (if |p.add| > 0 then 64 else 0) + (p.tagLen - 2) / 2 * 8 + (Q(p) - 1)
  }

  function FirstBlock(p: Params, length: nat): (b: Block)
    requires ParamsFit(p)
  {
    [ByteOf(FirstFlags(p))] + p.iv + Field(length, Q(p))
  }

  function CounterBlock(p: Params, n: nat): (b: Block)
    requires ParamsFit(p)
  {
    [ByteOf(Q(p) - 1)] + p.iv + Field(n, Q(p))
  }

  function Zeros(n: nat): (r: Bytes)
    ensures |r| == n
  {
    seq(n, _ => 0)
  }

  function Padded(s: Bytes): (b: Block)
    requires |s| <= 16
  {
    s + Zeros(16 - |s|)
  }

  function Chunk(s: Bytes): (n: nat)
    ensures n <= |s| && n <= 16 && (|s| > 0 ==> n > 0)
  {
    if |s| > 16 then 16 else |s|
  }

  // ---------------------------------------------------------------- what is computed

  function Mac(e: Cipher, y: Block, b: Block): Block {
    e(Xor(y, b))
  }

  /** CBC-MAC over a byte string, zero-padded to whole blocks. */
  function MacAll(e: Cipher, y: Block, s: Bytes): (r: Block)
    decreases |s|
  {
    if |s| == 0 then y else MacAll(e, Mac(e, y, Padded(s[..Chunk(s)])), s[Chunk(s)..])
  }

  function AddField(p: Params): (r: Bytes)
    requires ParamsFit(p)
  {
    if |p.add| == 0 then [] else Field(|p.add|, 2) + p.add
  }

  /** The message masked with the encrypted counter blocks from n on. */
  function Masked(e: Cipher, p: Params, n: nat, s: Bytes): (r: Bytes)
    requires ParamsFit(p)
    ensures |r| == |s|
    decreases |s|
  {
    if |s| == 0 then []
    else Xor(s[..Chunk(s)], e(CounterBlock(p, n))) + Masked(e, p, n + 1, s[Chunk(s)..])
  }

  function Tag(e: Cipher, p: Params, plain: Bytes): (t: Bytes)
    requires ParamsFit(p)
    ensures |t| == p.tagLen
  {
    var y := MacAll(e, Mac(e, Zeros(16), FirstBlock(p, |plain|)), AddField(p));
    Xor(MacAll(e, y, plain), e(CounterBlock(p, 0)))[..p.tagLen]
  }

  /** The counter blocks one call uses, in order: 1, 2, ... for the message, then 0 for the tag. */
  function Counters(p: Params, n: nat, s: Bytes): (r: seq<Block>)
    requires ParamsFit(p)
    decreases |s|
  {
    if |s| == 0 then [] else [CounterBlock(p, n)] + Counters(p, n + 1, s[Chunk(s)..])
  }

  // ---------------------------------------------------------------- the laws

  lemma {:induction false} MaskedTwice(e: Cipher, p: Params, n: nat, s: Bytes)
    requires ParamsFit(p)
    ensures Masked(e, p, n, Masked(e, p, n, s)) == s
    decreases |s|
  {
    hide CounterBlock, Xor;
    if |s| > 0 {
      var k := Chunk(s);
      var t := Masked(e, p, n, s);
      assert Chunk(t) == k;
      assert t[..k] == Xor(s[..k], e(CounterBlock(p, n))) && t[k..] == Masked(e, p, n + 1, s[k..]);
      XorTwice(s[..k], e(CounterBlock(p, n)));
      MaskedTwice(e, p, n + 1, s[k..]);
      assert s == s[..k] + s[k..];
    }
  }

  datatype Sealed = Sealed(text: Bytes, tag: Bytes)

  datatype Result<T> = Ok(value: T) | Err(error: Error)

  ghost function Seal(e: Cipher, p: Params, plain: Bytes): (r: Result<Sealed>) {
    if !Accepted(p, |plain|) then Err(BadInput) else Ok(Sealed(Masked(e, p, 1, plain), Tag(e, p, plain)))
  }

  ghost function Open(e: Cipher, p: Params, c: Sealed): (r: Result<Bytes>) {
    if !Accepted(p, |c.text|) then Err(BadInput)
    else
      var plain := Masked(e, p, 1, c.text);
      if Tag(e, p, plain) == c.tag then Ok(plain) else Err(AuthFailed)
  }

  /** Decryption succeeds exactly on what encryption with the same parameters produces, and returns that plaintext. */
  lemma AuthenticatedRoundTrip(e: Cipher, p: Params, c: Sealed, plain: Bytes)
    ensures Open(e, p, c) == Ok(plain) <==> Seal(e, p, plain) == Ok(c)
  {
    hide Masked, Tag, Accepted;
    if ParamsFit(p) {
      MaskedTwice(e, p, 1, plain);
      MaskedTwice(e, p, 1, c.text);
    }
    AcceptedFits(p, |plain|);
    AcceptedFits(p, |c.text|);
  }

  lemma AcceptedFits(p: Params, n: nat)
    ensures Accepted(p, n) ==> ParamsFit(p)
  {
  }

  lemma CounterBlocksDiffer(p: Params, i: nat, j: nat)
    requires ParamsFit(p) && i < Pow(256, Q(p)) && j < Pow(256, Q(p)) && CounterBlock(p, i) == CounterBlock(p, j)
    ensures i == j
  {
    hide Field, Pow, Number;
    var lo := 1 + |p.iv|;
    assert CounterBlock(p, i)[lo..] == Field(i, Q(p)) && CounterBlock(p, j)[lo..] == Field(j, Q(p));
    FieldNumber(i, Q(p));
    FieldNumber(j, Q(p));
  }

  lemma {:induction false} CountersAre(p: Params, n: nat, s: Bytes, i: nat)
    requires ParamsFit(p) && i < |Counters(p, n, s)|
    ensures Counters(p, n, s)[i] == CounterBlock(p, n + i) && i < |s|
    decreases |s|
  {
    hide CounterBlock;
    if i > 0 { CountersAre(p, n + 1, s[Chunk(s)..], i - 1); }
  }

  /** All counter blocks of one call, counter zero for the tag included, are pairwise distinct. */
  lemma CountersDistinct(p: Params, s: Bytes, i: nat, j: nat)
    requires Accepted(p, |s|) && i < j <= |Counters(p, 1, s)|
    ensures var used := Counters(p, 1, s) + [CounterBlock(p, 0)];
            used[i] != used[j]
  {
    hide CounterBlock, Pow, Counters;
    CountersAre(p, 1, s, i);
    if j < |Counters(p, 1, s)| { CountersAre(p, 1, s, j); }
    var a, b := 1 + i, if j < |Counters(p, 1, s)| then 1 + j else 0;
    if CounterBlock(p, a) == CounterBlock(p, b) { CounterBlocksDiffer(p, a, b); }
  }

  // ---------------------------------------------------------------- the code

  /** Writing the length into the last q bytes; it fits exactly when nothing is left over. */
  method FormatLength(length: nat, q: nat) returns (fits: bool, field: Bytes)
    ensures field == Field(length, q) && (fits <==> length < Pow(256, q))
  {
    hide Pow;
    var left: nat := length;
    field := [];
    for i := 0 to q
      invariant Field(left, q - i) + field == Field(length, q)
      invariant left < Pow(256, q - i) <==> length < Pow(256, q)
    {
      PowStep(256, q - i - 1);
      ghost var high := Field(left / 256, q - i - 1);
      assert high + [ByteOf(left % 256)] + field == high + ([ByteOf(left % 256)] + field);
      field := [ByteOf(left % 256)] + field;
      left := left / 256;
    }
    PowZero(256);
    fits := left == 0;
  }

  /** UPDATE_CBC_MAC over the rest of a byte string. */
  method MacLoop(e: Cipher, y0: Block, s: Bytes) returns (y: Block)
    ensures y == MacAll(e, y0, s)
  {
    hide Padded, Mac;
    y := y0;
    var k := 0;
    assert s[0..] == s;
    while k < |s|
      invariant k <= |s| && MacAll(e, y, s[k..]) == MacAll(e, y0, s)
    {
      var useLen := if |s| - k > 16 then 16 else |s| - k;
      assert s[k..][..useLen] == s[k..k + useLen] && s[k..][useLen..] == s[k + useLen..];
      y := Mac(e, y, Padded(s[k..k + useLen]));
      k := k + useLen;
    }
  }

  /** The first block and the additional data. */
  method MacHeader(e: Cipher, p: Params, length: nat, field: Bytes) returns (y: Block)
    requires ParamsFit(p) && field == Field(length, Q(p))
    ensures y == MacAll(e, Mac(e, Zeros(16), FirstBlock(p, length)), AddField(p))
  {
    hide Mac, MacAll, AddField, Field, Zeros, ByteOf;
    y := Mac(e, Zeros(16), [ByteOf(FirstFlags(p))] + p.iv + field);
    y := MacAdditional(e, p, y);
  }

  /** The additional data, with its length in front of the first 14 bytes. */
  method MacAdditional(e: Cipher, p: Params, y0: Block) returns (y: Block)
    requires ParamsFit(p)
    ensures y == MacAll(e, y0, AddField(p))
  {
    hide Mac, Padded, Field, ByteOf;
    y := y0;
    if |p.add| > 0 {
      var useLen := if |p.add| < 14 then |p.add| else 14;
      var first := Field(|p.add|, 2) + p.add[..useLen];
      FirstChunk(Field(|p.add|, 2), p.add, useLen);
      y := Mac(e, y, Padded(first));
      y := MacLoop(e, y, p.add[useLen..]);
    }
  }

  lemma FirstChunk(prefix: Bytes, add: Bytes, useLen: nat)
    requires |prefix| == 2 && useLen == (if |add| < 14 then |add| else 14)
    ensures var all := prefix + add;
            Chunk(all) == 2 + useLen && all[..2 + useLen] == prefix + add[..useLen] && all[2 + useLen..] == add[useLen..]
  {
  }

  /** The counter after one more increment, below the limit the length check guarantees. */
  lemma CounterNext(p: Params, n: nat)
    requires ParamsFit(p) && n + 1 < Pow(256, Q(p))
    ensures Increment(CounterBlock(p, n), 1 + |p.iv|, 16) == CounterBlock(p, n + 1)
  {
    hide Field, Number, Pow, Increment, CounterBlock, ByteOf;
    var lo, a, b := 1 + |p.iv|, CounterBlock(p, n), CounterBlock(p, n + 1);
    var r := Increment(a, lo, 16);
    IncrementAdds(a, lo, 16);
    FieldNumber(n, Q(p));
    FieldNumber(n + 1, Q(p));
    CounterParts(p, n);
    CounterParts(p, n + 1);
    NumberInjective(r[lo..16], b[lo..16]);
    Glue(r, b, lo);
  }

  lemma Glue(r: Bytes, b: Bytes, lo: nat)
    requires |r| == |b| == 16 && lo <= 16 && r[..lo] == b[..lo] && r[lo..16] == b[lo..16]
    ensures r == b
  {
    forall i | 0 <= i < 16 ensures r[i] == b[i] {
      if i < lo {
        assert r[..lo][i] == b[..lo][i];
      } else {
        assert r[lo..16][i - lo] == b[lo..16][i - lo];
      }
    }
  }

  lemma CounterParts(p: Params, n: nat)
    requires ParamsFit(p)
    ensures CounterBlock(p, n)[1 + |p.iv|..16] == Field(n, Q(p)) && CounterBlock(p, n)[..1 + |p.iv|] == [ByteOf(Q(p) - 1)] + p.iv
  {
    hide Field, ByteOf;
    SplitAt([ByteOf(Q(p) - 1)] + p.iv, Field(n, Q(p)));
  }

  lemma SplitAt(a: Bytes, b: Bytes)
    ensures (a + b)[..|a|] == a && (a + b)[|a|..|a| + |b|] == b
  {
  }

  /** One message chunk at position k: authenticated as plaintext, masked with the counter block. */
  method CryptChunk(e: Cipher, decrypt: bool, p: Params, ctr: Block, y0: Block, x: Bytes) returns (out: Bytes, y: Block)
    requires 0 < |x| <= 16
    ensures out == Xor(x, e(ctr)) && y == Mac(e, y0, Padded(if decrypt then out else x))
  {
    y := y0;
    if !decrypt { y := Mac(e, y, Padded(x)); }
    var b := e(ctr);
    out := Xor(x, b);
    if decrypt { y := Mac(e, y, Padded(out)); }
  }

  lemma Unfold(e: Cipher, p: Params, n: nat, s: Bytes, k: nat, m: nat)
    requires ParamsFit(p) && k < |s| && m == (if |s| - k > 16 then 16 else |s| - k)
    ensures Masked(e, p, n, s[k..]) == Xor(s[k..k + m], e(CounterBlock(p, n))) + Masked(e, p, n + 1, s[k + m..])
    ensures Counters(p, n, s[k..]) == [CounterBlock(p, n)] + Counters(p, n + 1, s[k + m..])
  {
    hide CounterBlock, Xor;
    assert s[k..][..m] == s[k..k + m] && s[k..][m..] == s[k + m..];
  }

  lemma UnfoldMac(e: Cipher, y: Block, s: Bytes, k: nat, m: nat)
    requires k < |s| && m == (if |s| - k > 16 then 16 else |s| - k)
    ensures MacAll(e, y, s[k..]) == MacAll(e, Mac(e, y, Padded(s[k..k + m])), s[k + m..])
  {
    hide Mac, Padded;
    assert s[k..][..m] == s[k..k + m] && s[k..][m..] == s[k + m..];
  }

  /** The next chunk of a buffer whose remaining input is s from k on. */
  method ReadChunk(input: array<bv8>, k: nat, m: nat, length: nat, ghost s: Bytes) returns (x: Bytes)
    requires k + m <= length == |s| && length <= input.Length && input[k..length] == s[k..]
    ensures x == s[k..k + m]
  {
    x := input[k..length][..m];
    assert x == s[k..][..m] == s[k..k + m];
  }

  method WriteChunk(input: array<bv8>, output: array<bv8>, k: nat, length: nat, out: Bytes, ghost s: Bytes)
    requires k + |out| <= length == |s| && length <= input.Length && length <= output.Length && input[k..length] == s[k..]
    modifies output
    ensures output[..k + |out|] == old(output[..k]) + out && output[length..] == old(output[length..])
    ensures input[k + |out|..length] == s[k + |out|..]
  {
    ghost var m := |out|;
    ghost var rest, back, tail := input[k + m..], output[k + m..], output[length..];
    assert rest[..length - k - m] == input[k..length][m..] == s[k + m..];
    assert back[length - k - m..] == tail;
    forall j | 0 <= j < |out| { output[k + j] := out[j]; }
    assert output[k + m..] == back && input[k + m..] == rest;
    assert input[k + m..length] == input[k + m..][..length - k - m];
    assert output[length..] == output[k + m..][length - k - m..];
  }

  method AdvanceCounter(p: Params, ctr: array<bv8>, ghost n: nat)
    requires ParamsFit(p) && ctr.Length == 16 && ctr[..] == CounterBlock(p, n)
    modifies ctr
    ensures ctr[..1 + |p.iv|] == old(ctr[..1 + |p.iv|])
    ensures n + 1 < Pow(256, Q(p)) ==> ctr[..] == CounterBlock(p, n + 1)
  {
    hide CounterBlock, Increment, Field, Pow;
    var lo := 1 + |p.iv|;
    IncrementAdds(ctr[..], lo, 16);
    if n + 1 < Pow(256, Q(p)) { CounterNext(p, n); }
    ghost var before := ctr[..];
    IncrementInPlace(ctr, lo);
    assert ctr[..][..lo] == ctr[..lo] && before[..lo] == old(ctr[..lo]);
  }

  /** The part of the loop's invariant that speaks of values only: what is left to do from position k with counter n. */
  ghost predicate Remaining(e: Cipher, p: Params, s: Bytes, plain: Bytes, y0: Block, k: nat, n: nat, y: Block, used: seq<Block>)
    requires ParamsFit(p) && k <= |s| == |plain|
  {
    Masked(e, p, 1, s)[k..] == Masked(e, p, n, s[k..]) && MacAll(e, y, plain[k..]) == MacAll(e, y0, plain)
    && used + Counters(p, n, s[k..]) == Counters(p, 1, s)
  }

  lemma RemainingStep(e: Cipher, p: Params, s: Bytes, plain: Bytes, y0: Block, k: nat, n: nat, y: Block, used: seq<Block>, m: nat, out: Bytes)
    requires ParamsFit(p) && k < |s| == |plain| && m == (if |s| - k > 16 then 16 else |s| - k)
    requires Remaining(e, p, s, plain, y0, k, n, y, used) && out == Xor(s[k..k + m], e(CounterBlock(p, n)))
    ensures Remaining(e, p, s, plain, y0, k + m, n + 1, Mac(e, y, Padded(plain[k..k + m])), used + [CounterBlock(p, n)])
    ensures var total := Masked(e, p, 1, s);
            total[k..k + m] == out && total[..k + m] == total[..k] + out
  {
    hide Masked, MacAll, Counters, CounterBlock, Mac, Padded, Xor;
    Unfold(e, p, n, s, k, m);
    UnfoldMac(e, y, plain, k, m);
    SplitOff(Masked(e, p, 1, s), k, m, out, Masked(e, p, n + 1, s[k + m..]));
  }

  lemma RemainingEnds(e: Cipher, p: Params, s: Bytes, plain: Bytes, y0: Block, n: nat, y: Block, used: seq<Block>)
    requires ParamsFit(p) && |s| == |plain| && Remaining(e, p, s, plain, y0, |s|, n, y, used)
    ensures y == MacAll(e, y0, plain) && used == Counters(p, 1, s)
  {
  }

  /** The message loop of ccm_auth_crypt. `used` collects the counter blocks in the order they are encrypted. */
  method MessageLoop(e: Cipher, decrypt: bool, p: Params, y0: Block, ctr: array<bv8>, length: nat, input: array<bv8>, output: array<bv8>)
    returns (y: Block, ghost used: seq<Block>)
    requires Accepted(p, length) && length <= input.Length && length <= output.Length
    requires ctr.Length == 16 && ctr[..] == CounterBlock(p, 1) && ctr != input && ctr != output
    modifies ctr, output
    ensures output[..length] == Masked(e, p, 1, old(input[..length])) && output[length..] == old(output[length..])
    ensures y == MacAll(e, y0, if decrypt then output[..length] else old(input[..length]))
    ensures used == Counters(p, 1, old(input[..length]))
    ensures ctr[..1 + |p.iv|] == CounterBlock(p, 1)[..1 + |p.iv|]
  {
    hide Masked, MacAll, Counters, CounterBlock, Mac, Padded, Xor, Pow, Remaining;
    ghost var s, tail, lo := input[..length], output[length..], 1 + |p.iv|;
    ghost var total := Masked(e, p, 1, s);
    ghost var plain := if decrypt then total else s;
    y, used := y0, [];
    var k: nat := 0;
    ghost var n: nat := 1;
    RemainingStarts(e, p, s, plain, y0);
    while k < length
      invariant k <= length && 1 <= n <= k + 1
      invariant input[k..length] == s[k..] && output[length..] == tail && output[..k] == total[..k]
      invariant Remaining(e, p, s, plain, y0, k, n, y, used)
      invariant ctr[..lo] == CounterBlock(p, 1)[..lo] && (k < length ==> ctr[..] == CounterBlock(p, n))
    {
      var m := if length - k > 16 then 16 else length - k;
      var x := ReadChunk(input, k, m, length, s);
      ghost var y1 := y;
      var out;
      out, y := CryptChunk(e, decrypt, p, ctr[..], y, x);
      RemainingStep(e, p, s, plain, y0, k, n, y1, used, m, out);
      assert n + 1 <= k + m + 1;
      WriteChunk(input, output, k, length, out, s);
      used := used + [CounterBlock(p, n)];
      AdvanceCounter(p, ctr, n);
      k := k + m;
      n := n + 1;
    }
    RemainingEnds(e, p, s, plain, y0, n, y, used);
    assert total[..length] == total;
  }

  lemma RemainingStarts(e: Cipher, p: Params, s: Bytes, plain: Bytes, y0: Block)
    requires ParamsFit(p) && |s| == |plain|
    ensures Remaining(e, p, s, plain, y0, 0, 1, y0, [])
  {
    assert s[0..] == s && plain[0..] == plain;
  }

  lemma SplitOff(total: Bytes, k: nat, m: nat, out: Bytes, rest: Bytes)
    requires k + m <= |total| && total[k..] == out + rest && |out| == m
    ensures total[k..k + m] == out && total[k + m..] == rest && total[..k + m] == total[..k] + out
  {
    assert total[k..][..m] == total[k..k + m] && total[k..][m..] == total[k + m..];
  }

  // ---------------------------------------------------------------- the two entry points

  /** ccm_auth_crypt. On success `used` are the counter blocks encrypted, pairwise distinct. */
  method AuthCrypt(e: Cipher, decrypt: bool, p: Params, length: nat, input: array<bv8>, output: array<bv8>)
    returns (rc: Error, tag: Bytes, ghost used: seq<Block>)
    requires length <= input.Length && length <= output.Length
    modifies output
    ensures rc == if Accepted(p, length) then None else BadInput
    ensures rc == BadInput ==> output[..] == old(output[..])
    ensures rc == None ==>
              var s := old(input[..length]);
              output[..length] == Masked(e, p, 1, s) && output[length..] == old(output[length..])
              && tag == Tag(e, p, if decrypt then output[..length] else s)
              && used == Counters(p, 1, s) + [CounterBlock(p, 0)] && (forall i, j :: 0 <= i < j < |used| ==> used[i] != used[j])
  {
    hide Masked, MacAll, Counters, CounterBlock, Mac, Padded, Xor, Pow, Field, AddField, FirstBlock;
    tag, used := [], [];
    if p.tagLen < 4 || p.tagLen > 16 || p.tagLen % 2 != 0 { return BadInput, [], []; }
    if |p.iv| < 7 || |p.iv| > 13 { return BadInput, [], []; }
    if |p.add| > 0xFF00 { return BadInput, [], []; }
    var fits, field := FormatLength(length, Q(p));
    if !fits { return BadInput, [], []; }
    ghost var s := input[..length];
    var y := MacHeader(e, p, length, field);
    var ctr := FirstCounter(p);
    y, used := MessageLoop(e, decrypt, p, y, ctr, length, input, output);
    var zero := ResetCounter(p, ctr);
    used := used + [CounterBlock(p, 0)];
    tag := Xor(y, e(zero))[..p.tagLen];
    forall i, j | 0 <= i < j < |used| ensures used[i] != used[j] { CountersDistinct(p, s, i, j); }
    rc := None;
  }

  /** Counter 1: the field is zeroed and its last byte set. */
  method FirstCounter(p: Params) returns (ctr: array<bv8>)
    requires ParamsFit(p)
    ensures fresh(ctr) && ctr.Length == 16 && ctr[..] == CounterBlock(p, 1)
  {
    hide ByteOf, Field;
    ctr := new bv8[16];
    var start := [ByteOf(Q(p) - 1)] + p.iv + Zeros(Q(p));
    forall j | 0 <= j < 16 { ctr[j] := start[j]; }
    ctr[15] := 1;
    SmallField(1, Q(p));
    assert ctr[..] == start[..15] + [1];
    assert start[..15] == [ByteOf(Q(p) - 1)] + p.iv + Zeros(Q(p) - 1);
  }

  /** Resetting the counter field to zero. */
  method ResetCounter(p: Params, ctr: array<bv8>) returns (zero: Block)
    requires ParamsFit(p) && ctr.Length == 16 && ctr[..1 + |p.iv|] == CounterBlock(p, 1)[..1 + |p.iv|]
    modifies ctr
    ensures zero == CounterBlock(p, 0)
  {
    hide Field, ByteOf;
    ghost var lo := 1 + |p.iv|;
    ghost var front := ctr[..lo];
    for i := 0 to Q(p)
      invariant ctr[..lo] == front && forall j :: 16 - i <= j < 16 ==> ctr[j] == 0
    {
      ctr[15 - i] := 0;
    }
    SmallField(0, Q(p));
    zero := ctr[..];
    assert zero == front + Zeros(Q(p));
    assert front == CounterBlock(p, 0)[..lo];
  }

  lemma {:induction false} SmallField(n: nat, q: nat)
    requires n < 2 && (n == 1 ==> q > 0)
    ensures Field(n, q) == if n == 0 then Zeros(q) else Zeros(q - 1) + [1]
  {
    hide ByteOf;
    SmallBytes();
    if q > 0 {
      SmallField(0, q - 1);
      assert Field(n, q) == Field(0, q - 1) + [ByteOf(n)];
      assert n == 0 ==> Zeros(q - 1) + [0] == Zeros(q);
    }
  }

  lemma SmallBytes()
    ensures ByteOf(0) == 0 && ByteOf(1) == 1
  {
  }

  /** mbedtls_ccm_encrypt_and_tag */
  method EncryptAndTag(e: Cipher, p: Params, length: nat, input: array<bv8>, output: array<bv8>) returns (rc: Error, tag: Bytes)
    requires length <= input.Length && length <= output.Length
    modifies output
    ensures var r := Seal(e, p, old(input[..length]));
            (rc == None <==> r.Ok?) && (r.Ok? ==> r.value == Sealed(output[..length], tag)) && (r.Err? ==> rc == r.error)
    ensures output[length..] == old(output[length..])
  {
    hide Masked, Tag, Accepted, Counters, CounterBlock;
    ghost var used;
    rc, tag, used := AuthCrypt(e, false, p, length, input, output);
  }

  lemma OrXor(d: bv8, x: bv8, y: bv8)
    ensures d | (x ^ y) == 0 <==> d == 0 && x == y
  {
  }

  /** The comparison that looks at every byte. */
  method TagsDiffer(tag: Bytes, check: Bytes) returns (diff: bv8)
    requires |tag| == |check|
    ensures diff == 0 <==> tag == check
  {
    diff := 0;
    for i := 0 to |tag|
      invariant diff == 0 <==> tag[..i] == check[..i]
    {
      OrXor(diff, tag[i], check[i]);
      assert tag[..i + 1] == tag[..i] + [tag[i]] && check[..i + 1] == check[..i] + [check[i]];
      diff := diff | (tag[i] ^ check[i]);
    }
    assert tag[..|tag|] == tag && check[..|tag|] == check;
  }

  /** mbedtls_ccm_auth_decrypt; without authentication the output is zeroed. */
  method AuthDecrypt(e: Cipher, p: Params, length: nat, input: array<bv8>, output: array<bv8>, tag: Bytes) returns (rc: Error)
    requires length <= input.Length && length <= output.Length && |tag| == p.tagLen
    modifies output
    ensures var r := Open(e, p, Sealed(old(input[..length]), tag));
            if r.Ok? then rc == None && output[..length] == r.value
            else rc == r.error && (rc == AuthFailed ==> output[..length] == Zeros(length))
    ensures output[length..] == old(output[length..])
  {
    hide Masked, Tag, Accepted, Counters, CounterBlock;
    var check;
    ghost var used;
    AcceptedFits(p, length);
    rc, check, used := AuthCrypt(e, true, p, length, input, output);
    if rc != None { return; }
    var diff := TagsDiffer(tag, check);
    if diff != 0 {
      ghost var tail := output[length..];
      forall j | 0 <= j < length { output[j] := 0; }
      assert output[length..] == tail;
      rc := AuthFailed;
    }
  }
}
