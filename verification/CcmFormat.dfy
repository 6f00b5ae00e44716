/** What the CCM tag authenticates: the CBC-MAC of one formatted string, from which a reader after appendix A.2 of NIST SP 800-38C
    recovers nonce, tag length, additional data and message. */
module CcmFormat {
  import opened Common
  import opened Arithmetic
  import opened Bytes
  import opened Ccm

  function Rounded(n: nat): (r: nat)
    ensures n <= r < n + 16 && r % 16 == 0
  {
    (n + 15) / 16 * 16
  }

  function Filled(s: Bytes): (r: Bytes)
    ensures |r| == Rounded(|s|)
  {
    s + Zeros(Rounded(|s|) - |s|)
  }

  /** CBC-MAC of whole blocks. */
  function CbcMac(e: Cipher, y: Block, s: Bytes): (r: Block)
    requires |s| % 16 == 0
    decreases |s|
  {
    if |s| == 0 then y else CbcMac(e, e(Xor(y, s[..16])), s[16..])
  }

  lemma {:induction false} CbcMacSplit(e: Cipher, y: Block, a: Bytes, b: Bytes)
    requires |a| % 16 == 0 && |b| % 16 == 0
    ensures |a + b| % 16 == 0 && CbcMac(e, y, a + b) == CbcMac(e, CbcMac(e, y, a), b)
    decreases |a|
  {
    hide Xor;
    if |a| == 0 {
      assert a + b == b;
    } else {
      assert (a + b)[..16] == a[..16] && (a + b)[16..] == a[16..] + b;
      CbcMacSplit(e, e(Xor(y, a[..16])), a[16..], b);
    }
  }

  lemma FilledStep(s: Bytes)
    requires |s| > 0
    ensures Padded(s[..Chunk(s)]) == Filled(s)[..16] && Filled(s[Chunk(s)..]) == Filled(s)[16..] && |Filled(s)| >= 16
  {
  }

  lemma {:induction false} MacOfFilled(e: Cipher, y: Block, s: Bytes)
    ensures MacAll(e, y, s) == CbcMac(e, y, Filled(s))
    decreases |s|
  {
    hide Xor, Padded, Filled;
    if |s| == 0 {
      assert |Filled(s)| == 0;
    } else {
      FilledStep(s);
      MacOfFilled(e, Mac(e, y, Padded(s[..Chunk(s)])), s[Chunk(s)..]);
    }
  }

  lemma WholeBlocks(m: nat, n: nat)
    ensures (16 + Rounded(m) + Rounded(n)) % 16 == 0
  {
    hide Rounded;
  }

  /** The string B of section 6.1: first block, additional data and message, each filled to whole blocks. */
  function Formatted(p: Params, plain: Bytes): (b: Bytes)
    requires ParamsFit(p)
    ensures |b| % 16 == 0
  {
    WholeBlocks(|AddField(p)|, |plain|);
    FirstBlock(p, |plain|) + Filled(AddField(p)) + Filled(plain)
  }

  /** The tag is the CBC-MAC of that string, masked with the encrypted counter block zero and cut to its length. */
  lemma TagOfFormatted(e: Cipher, p: Params, plain: Bytes)
    requires ParamsFit(p)
    ensures Tag(e, p, plain) == Xor(CbcMac(e, Zeros(16), Formatted(p, plain)), e(CounterBlock(p, 0)))[..p.tagLen]
  {
    hide Xor, Filled, FirstBlock, AddField, CounterBlock, CbcMac, MacAll, Zeros;
    var y0, first := Zeros(16), FirstBlock(p, |plain|);
    var y1 := Mac(e, y0, first);
    OneBlock(e, y0, first);
    MacOfFilled(e, y1, AddField(p));
    var y2 := MacAll(e, y1, AddField(p));
    MacOfFilled(e, y2, plain);
    CbcMacSplit(e, y0, first, Filled(AddField(p)));
    CbcMacSplit(e, y0, first + Filled(AddField(p)), Filled(plain));
  }

  lemma OneBlock(e: Cipher, y: Block, b: Block)
    ensures CbcMac(e, y, b) == Mac(e, y, b)
  {
    assert b[..16] == b && b[16..] == [];
  }

  // ---------------------------------------------------------------- the reader

  datatype Message = Message(iv: Bytes, tagLen: nat, add: Bytes, plain: Bytes)

  /** The additional data and what follows it; a two-byte length above maxAdd is not understood. */
  function ReadAdd(s: Bytes, maxAdd: nat): (r: Option<(Bytes, Bytes)>) {
    if |s| < 2 then Option.None
    else
      var a := Number(s[..2]);
      var end := Rounded(2 + a);
      if a == 0 || a > maxAdd || end > |s| || s[2 + a..end] != Zeros(end - 2 - a) then Option.None
      else Some((s[2..2 + a], s[end..]))
  }

  /** Flags: bit 6 for additional data, bits 5 to 3 half the tag length less one, bits 2 to 0 the width of the length field less one. */
  function ReadFormatted(b: Bytes, maxAdd: nat): (r: Option<Message>) {
    if |b| < 16 || b[0] as int >= 128 then Option.None
    else
      var f := b[0] as int;
      var n := 14 - f % 8;
      var length := Number(b[1 + n..16]);
      var rest := if f / 64 == 1 then ReadAdd(b[16..], maxAdd) else Some(([], b[16..]));
      if rest.None? then Option.None
      else
        var (add, tail) := rest.value;
        if |tail| != Rounded(length) || tail[length..] != Zeros(|tail| - length) then Option.None
        else Some(Message(b[1..1 + n], 2 * (f / 8 % 8) + 2, add, tail[..length]))
  }

  lemma FlagFields(a: nat, t: nat, q: nat)
    requires a < 2 && t < 8 && q < 8
    ensures var f := 64 * a + 8 * t + q;
            f < 128 && f / 64 == a && f / 8 % 8 == t && f % 8 == q
  {
    var f := 64 * a + 8 * t + q;
    assert f / 8 == 8 * a + t;
  }

  lemma FlagsShow(p: Params)
    requires ParamsFit(p)
    ensures var f := FirstFlags(p);
            f < 128 && (f / 64 == 1 <==> |p.add| > 0) && 2 * (f / 8 % 8) + 2 == p.tagLen && 14 - f % 8 == |p.iv|
  {
    FlagFields(if |p.add| > 0 then 1 else 0, (p.tagLen - 2) / 2, Q(p) - 1);
  }

  /** The fields of the first block. */
  lemma FirstBlockFields(p: Params, length: nat)
    requires Accepted(p, length)
    ensures var b := FirstBlock(p, length);
            var f := b[0] as int;
            f < 128 && (f / 64 == 1 <==> |p.add| > 0) && 2 * (f / 8 % 8) + 2 == p.tagLen && 14 - f % 8 == |p.iv|
            && b[1..1 + |p.iv|] == p.iv && Number(b[1 + |p.iv|..16]) == length
  {
    hide Field, Number, Pow, ByteOf, FirstFlags;
    FlagsShow(p);
    var front := [ByteOf(FirstFlags(p))] + p.iv;
    SplitAt(front, Field(length, Q(p)));
    assert FirstBlock(p, length)[1..1 + |p.iv|] == p.iv;
    FieldNumber(length, Q(p));
  }

  lemma FilledSplit(s: Bytes, rest: Bytes)
    ensures var t := Filled(s) + rest;
            t[..|s|] == s && t[|s|..Rounded(|s|)] == Zeros(Rounded(|s|) - |s|) && t[Rounded(|s|)..] == rest
  {
    hide Zeros;
    var z := Zeros(Rounded(|s|) - |s|);
    var t := Filled(s) + rest;
    assert t == s + z + rest;
    assert t[|s|..Rounded(|s|)] == z;
  }

  lemma TwoBytes()
    ensures Pow(256, 2) == 65536
  {
    PowOne(256);
    PowStep(256, 1);
  }

  lemma AddReadsBack(p: Params, rest: Bytes, maxAdd: nat)
    requires ParamsFit(p) && |p.add| > 0
    ensures ReadAdd(Filled(AddField(p)) + rest, maxAdd) == if |p.add| <= maxAdd then Some((p.add, rest)) else Option.None
  {
    hide Field, Number, Pow, Filled, Zeros, Rounded;
    var field := AddField(p);
    var s := Filled(field) + rest;
    FilledSplit(field, rest);
    TwoBytes();
    FieldNumber(|p.add|, 2);
    assert s[..2] == s[..|field|][..2] == Field(|p.add|, 2);
    assert s[2..2 + |p.add|] == s[..|field|][2..] == p.add;
  }

  /** Nonce, tag length, additional data and message are read back from the formatted string, whatever they are; only additional
      data longer than the reader's limit for two-byte lengths is not. */
  lemma FormatReadsBack(p: Params, plain: Bytes, maxAdd: nat)
    requires Accepted(p, |plain|)
    ensures ReadFormatted(Formatted(p, plain), maxAdd)
            == if |p.add| <= maxAdd then Some(Message(p.iv, p.tagLen, p.add, plain)) else Option.None
  {
    hide Pow, Number, Filled, AddField, FirstBlock, Zeros, ReadAdd, ReadFormatted, Rounded;
    var first, tail := FirstBlock(p, |plain|), Filled(plain);
    var rest := Filled(AddField(p)) + tail;
    FirstBlockFields(p, |plain|);
    HeaderSlices(first, rest, |p.iv|);
    FilledSplit(plain, []);
    assert tail + [] == tail;
    if |p.add| > 0 { AddReadsBack(p, tail, maxAdd); } else { NothingAdded(p, tail); }
    ReadBehind(first + rest, maxAdd, |p.iv|, |plain|, p.add, tail);
    assert first + rest == Formatted(p, plain);
  }

  lemma HeaderSlices(first: Block, rest: Bytes, n: nat)
    requires n <= 13
    ensures var b := first + rest;
            b[0] == first[0] && b[1..1 + n] == first[1..1 + n] && b[1 + n..16] == first[1 + n..16] && b[16..] == rest
  {
  }

  /** The reader on a string whose header and additional data it understands, or whose additional data it does not. */
  lemma ReadBehind(b: Bytes, maxAdd: nat, n: nat, length: nat, add: Bytes, tail: Bytes)
    requires |b| >= 16 && (b[0] as int) < 128 && 14 - b[0] as int % 8 == n && Number(b[1 + n..16]) == length
    requires b[0] as int / 64 == 1 ==> ReadAdd(b[16..], maxAdd) == if |add| <= maxAdd then Some((add, tail)) else Option.None
    requires b[0] as int / 64 != 1 ==> add == [] && b[16..] == tail
    requires |tail| == Rounded(length) && tail[length..] == Zeros(|tail| - length)
    ensures ReadFormatted(b, maxAdd)
            == if |add| <= maxAdd then Some(Message(b[1..1 + n], 2 * (b[0] as int / 8 % 8) + 2, add, tail[..length])) else Option.None
  {
    hide ReadAdd, Number, Zeros, Rounded;
  }

  lemma NothingAdded(p: Params, tail: Bytes)
    requires ParamsFit(p) && |p.add| == 0
    ensures Filled(AddField(p)) + tail == tail && p.add == []
  {
  }

  /** Two calls authenticate the same string only if they agree on everything. */
  lemma FormatInjective(p: Params, plain: Bytes, p': Params, plain': Bytes)
    requires Accepted(p, |plain|) && Accepted(p', |plain'|) && Formatted(p, plain) == Formatted(p', plain')
    ensures p == p' && plain == plain'
  {
    hide Formatted, ReadFormatted, Pow;
    FormatReadsBack(p, plain, 0xFF00);
    FormatReadsBack(p', plain', 0xFF00);
  }

  /** The standard writes lengths from 0xFF00 on in more than two bytes; the code accepts one length too many. */
  lemma StandardReadsBack(p: Params, plain: Bytes)
    requires Accepted(p, |plain|)
    ensures ReadFormatted(Formatted(p, plain), 0xFEFF) == Some(Message(p.iv, p.tagLen, p.add, plain)) <==> |p.add| != 0xFF00
  {
    hide Formatted, ReadFormatted, Pow;
    FormatReadsBack(p, plain, 0xFEFF);
  }

  /** The one length too many, concretely. */
  lemma OneTooMany()
    ensures var p := Params(Zeros(13), Zeros(0xFF00), 16);
            Accepted(p, 0) && ReadFormatted(Formatted(p, []), 0xFEFF) == Option.None
  {
    hide Pow, Formatted, ReadFormatted;
    var p := Params(Zeros(13), Zeros(0xFF00), 16);
    FormatReadsBack(p, [], 0xFEFF);
  }

  // ---------------------------------------------------------------- counter blocks and the key stream

  /** The counter block of appendix A.3: flags that hold only the width of the counter, nonce and counter. */
  lemma CounterBlockFields(p: Params, n: nat)
    requires Accepted(p, n)
    ensures var b := CounterBlock(p, n);
            b[0] as int == 14 - |p.iv| && b[1..1 + |p.iv|] == p.iv && Number(b[1 + |p.iv|..16]) == n
  {
    hide Field, Number, Pow, ByteOf;
    CounterParts(p, n);
    FieldNumber(n, Q(p));
    var b, front := CounterBlock(p, n), [ByteOf(Q(p) - 1)] + p.iv;
    assert b[0] == b[..1 + |p.iv|][0] == front[0];
    assert b[1..1 + |p.iv|] == b[..1 + |p.iv|][1..] == front[1..];
  }

  /** No counter block is ever the first block of an authenticated string, under any parameters. */
  lemma FirstBlockNoCounter(p: Params, length: nat, p': Params, n: nat)
    requires Accepted(p, length) && Accepted(p', n)
    ensures FirstBlock(p, length) != CounterBlock(p', n)
  {
    hide FirstBlock, CounterBlock, Number, Pow;
    FirstBlockFields(p, length);
    CounterBlockFields(p', n);
  }

  /** Every byte is masked with its byte of the encrypted counter block, sixteen bytes to a block. */
  lemma {:induction false} MaskedAt(e: Cipher, p: Params, n: nat, s: Bytes, i: nat)
    requires ParamsFit(p) && i < |s|
    ensures Masked(e, p, n, s)[i] == XorByte(s[i], e(CounterBlock(p, n + i / 16))[i % 16])
    decreases |s|
  {
    hide CounterBlock, Masked, Xor, XorByte;
    var k := Chunk(s);
    MaskedStep(e, p, n, s);
    if i < k {
      XorAt(s[..k], e(CounterBlock(p, n)), i);
    } else {
      MaskedAt(e, p, n + 1, s[k..], i - 16);
      LaterByte(i);
    }
  }

  lemma MaskedStep(e: Cipher, p: Params, n: nat, s: Bytes)
    requires ParamsFit(p) && |s| > 0
    ensures Masked(e, p, n, s) == Xor(s[..Chunk(s)], e(CounterBlock(p, n))) + Masked(e, p, n + 1, s[Chunk(s)..])
  {
    hide CounterBlock, Xor;
  }

  lemma XorAt(a: Bytes, b: Bytes, i: nat)
    requires i < |a| <= |b|
    ensures Xor(a, b)[i] == XorByte(a[i], b[i])
  {
  }

  lemma LaterByte(i: nat)
    requires i >= 16
    ensures (i - 16) / 16 + 1 == i / 16 && (i - 16) % 16 == i % 16
  {
  }
}
