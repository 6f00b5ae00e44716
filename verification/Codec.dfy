/** The MQTT 3.1.1 wire codec: fixed header, remaining length, strings, and the packets the client sends. */
module Codec {
  import opened Common
  import opened Arithmetic

  /** A byte string whose length fits the two-byte length field. */
  type Text = s: seq<byte> | |s| < 65536

  datatype Error = Success | Failure | NullValue | TxBufferTooShort | RxBufferTooShort | DecodeRemainingLength | UnacceptableVersion | WritesPastEnd

  // ---------------------------------------------------------------- remaining length (section 2.2.3)

  /** Seven bits per byte, least significant first, the top bit set on all but the last byte. */
  function EncodeLength(n: nat): (r: seq<byte>)
    ensures |r| >= 1
  {
    if n < 128 then [n] else [n % 128 + 128] + EncodeLength(n / 128)
  }

  /** The decoding loop with multiplier and byte count as in the source; at most four bytes are read. */
  function DecodeLengthFrom(s: seq<byte>, i: nat, multiplier: nat, acc: nat): (r: (Error, nat, nat))
    requires i <= 4
    decreases 4 - i
  {
    if i == 4 || i >= |s| then (DecodeRemainingLength, 0, 0)
    else
      var value := acc + s[i] % 128 * multiplier;
      if s[i] >= 128 then DecodeLengthFrom(s, i + 1, multiplier * 128, value)
      else (Success, value, i + 1)
  }

  function DecodeLength(s: seq<byte>): (r: (Error, nat, nat)) {
    DecodeLengthFrom(s, 0, 1, 0)
  }

  lemma DecodeStep(s: seq<byte>, i: nat, multiplier: nat, acc: nat)
    requires i < 4 && i < |s|
    ensures DecodeLengthFrom(s, i, multiplier, acc) == (
        if s[i] >= 128 then DecodeLengthFrom(s, i + 1, multiplier * 128, acc + s[i] % 128 * multiplier)
        else (Success, acc + s[i] % 128 * multiplier, i + 1))
  {
  }

  lemma DecodeStops(s: seq<byte>, i: nat, multiplier: nat, acc: nat)
    requires i == 4 || |s| <= i < 4
    ensures DecodeLengthFrom(s, i, multiplier, acc) == (DecodeRemainingLength, 0, 0)
  {
  }

  /** The loop of aws_iot_mqtt_internal_decode_remaining_length_from_buffer. */
  method DecodeRemainingLengthLoop(s: seq<byte>) returns (rc: Error, decoded: nat, len: nat)
    ensures (rc, decoded, len) == DecodeLength(s)
  {
    hide DecodeLengthFrom;
    var multiplier: nat := 1;
    len, decoded := 0, 0;
    while true
      invariant len <= 4 && DecodeLength(s) == DecodeLengthFrom(s, len, multiplier, decoded)
      decreases 4 - len
    {
      if len == 4 || len >= |s| {
        DecodeStops(s, len, multiplier, decoded);
        return DecodeRemainingLength, 0, 0;
      }
      DecodeStep(s, len, multiplier, decoded);
      var encoded: nat := s[len];
      decoded := decoded + encoded % 128 * multiplier;
      multiplier := multiplier * 128;
      len := len + 1;
      if encoded < 128 { return Success, decoded, len; }
    }
  }

  const LIMIT := 0x1000_0000

  /** The number of bytes of the length field, in the usual table form. */
  lemma EncodedSize(n: nat)
    ensures n < 128 ==> |EncodeLength(n)| == 1
    ensures 128 <= n < 16384 ==> |EncodeLength(n)| == 2
    ensures 16384 <= n < 2097152 ==> |EncodeLength(n)| == 3
    ensures 2097152 <= n < LIMIT ==> |EncodeLength(n)| == 4
    ensures n >= LIMIT ==> |EncodeLength(n)| > 4
    ensures LIMIT <= n < 0x8_0000_0000 ==> |EncodeLength(n)| == 5
  {
    var a := n / 128;
    var b := a / 128;
    var c := b / 128;
    if n >= 128 {
      assert |EncodeLength(n)| == 1 + |EncodeLength(a)|;
      if a >= 128 {
        assert |EncodeLength(a)| == 1 + |EncodeLength(b)|;
        if b >= 128 {
          assert |EncodeLength(b)| == 1 + |EncodeLength(c)|;
          if c >= 128 {
            assert |EncodeLength(c)| == 1 + |EncodeLength(c / 128)|;
          }
        }
      }
    }
  }

  lemma DivDiv(n: nat, p: nat)
    requires p > 0
    ensures n / 128 / p == n / (128 * p)
  {
    var m, d := n / 128, n % 128;
    var q, r := m / p, m % p;
    assert m == q * p + r;
    assert q * (128 * p) == 128 * (q * p);
    DivModUnique(n, 128 * p, q, 128 * r + d);
  }

  /** Byte i holds the digit of weight 128^i, and the top bit exactly when another byte follows (section 2.2.3). */
  lemma {:induction false} EncodedDigit(n: nat, i: nat)
    requires i < |EncodeLength(n)|
    ensures EncodeLength(n)[i] == n / Pow(128, i) % 128 + (if i + 1 < |EncodeLength(n)| then 128 else 0)
  {
    hide Pow, EncodeLength;
    EncodeStep(n);
    if i == 0 {
      PowZero(128);
    } else {
      EncodedDigit(n / 128, i - 1);
      PowStep(128, i - 1);
      DivDiv(n, Pow(128, i - 1));
    }
  }

  lemma Weight(n: nat, m: nat)
    ensures n / 128 * (m * 128) + n % 128 * m == n * m && n % 128 * m >= 0
    ensures (n % 128 + 128) % 128 == n % 128
  {
    WeightParts(n / 128, n % 128, m);
  }

  lemma WeightParts(q: nat, r: nat, m: nat)
    ensures q * (m * 128) + r * m == (128 * q + r) * m && r * m >= 0
  {
    assert q * (m * 128) == 128 * q * m;
  }

  /** Decoding the encoding of n from byte i on, with room for the remaining bytes. */
  lemma {:induction false} DecodeEncoded(pre: seq<byte>, n: nat, rest: seq<byte>, multiplier: nat, acc: nat)
    requires |pre| + |EncodeLength(n)| <= 4
    ensures DecodeLengthFrom(pre + EncodeLength(n) + rest, |pre|, multiplier, acc)
            == (Success, acc + n * multiplier, |pre| + |EncodeLength(n)|)
    decreases n
  {
    hide EncodeLength, DecodeLengthFrom;
    EncodeStep(n);
    var s := pre + EncodeLength(n) + rest;
    DecodeStep(s, |pre|, multiplier, acc);
    if n < 128 {
      assert s[|pre|] == n;
      MulEqual128(n, multiplier);
    } else {
      var b := n % 128 + 128;
      assert s[|pre|] == b;
      assert s == (pre + [b]) + EncodeLength(n / 128) + rest;
      Weight(n, multiplier);
      DecodeEncoded(pre + [b], n / 128, rest, multiplier * 128, acc + n % 128 * multiplier);
    }
  }

  lemma EncodeStep(n: nat)
    ensures EncodeLength(n) == if n < 128 then [n] else [n % 128 + 128] + EncodeLength(n / 128)
  {
  }

  lemma MulEqual128(n: nat, m: nat)
    requires n < 128
    ensures n % 128 * m == n * m
  {
  }

  /** More than four bytes are rejected. */
  lemma {:induction false} DecodeTooLong(pre: seq<byte>, n: nat, rest: seq<byte>, multiplier: nat, acc: nat)
    requires |pre| <= 4 && |pre| + |EncodeLength(n)| > 4
    ensures DecodeLengthFrom(pre + EncodeLength(n) + rest, |pre|, multiplier, acc) == (DecodeRemainingLength, 0, 0)
    decreases n
  {
    if |pre| < 4 {
      var s, b := pre + EncodeLength(n) + rest, n % 128 + 128;
      assert n >= 128;
      assert s[|pre|] == b;
      assert s == (pre + [b]) + EncodeLength(n / 128) + rest;
      DecodeTooLong(pre + [b], n / 128, rest, multiplier * 128, acc + n % 128 * multiplier);
    }
  }

  /** The variable-length integer round trip, with its exact domain. */
  lemma LengthRoundTrip(n: nat, rest: seq<byte>)
    ensures n < LIMIT <==> DecodeLength(EncodeLength(n) + rest) == (Success, n, |EncodeLength(n)|)
  {
    EncodedSize(n);
    assert [] + EncodeLength(n) + rest == EncodeLength(n) + rest;
    if n < LIMIT {
      DecodeEncoded([], n, rest, 1, 0);
    } else {
      DecodeTooLong([], n, rest, 1, 0);
    }
  }

  // ---------------------------------------------------------------- predicted packet length

  /** aws_iot_mqtt_internal_get_final_packet_length_from_remaining_length */
  function FinalLength(rem: nat): (n: nat) {
    var r := rem + 1;
    if r < 128 then r + 1 else if r < 16384 then r + 2 else if r < 2097152 then r + 3 else r + 4
  }

  /** The whole packet: header byte, length field and the bytes it announces. */
  function EmittedLength(rem: nat): (n: nat) {
    1 + |EncodeLength(rem)| + rem
  }

  /** Below 2^28 the prediction is the emitted length, except for three lengths where it is one more; from there on it is too short. */
  lemma PredictionExact(rem: nat)
    ensures rem < LIMIT <==> EmittedLength(rem) <= FinalLength(rem)
    ensures rem < LIMIT ==> FinalLength(rem) == EmittedLength(rem) + if rem in {127, 16383, 2097151} then 1 else 0
    ensures LIMIT <= rem < 0x8_0000_0000 ==> EmittedLength(rem) == FinalLength(rem) + 1
  {
    EncodedSize(rem);
  }

  /** 32-bit sizes whose prediction does not wrap. */
  const SIZE_LIMIT := 0x1_0000_0000 - 5

  /** What the size check of a serializer leads to: a buffer that passes it may still be one byte too short. */
  function SizeCheck(rem: nat, size: nat): (rc: Error)
    ensures rc == TxBufferTooShort || rc == WritesPastEnd || rc == Success
  {
    if FinalLength(rem) > size then TxBufferTooShort else if EmittedLength(rem) > size then WritesPastEnd else Success
  }

  /** A packet that passes the check and does not fit has 2^28 bytes or more behind its length field and a buffer of exactly
      the predicted size. */
  lemma PastEndExactly(rem: nat, size: nat)
    requires rem < SIZE_LIMIT
    ensures SizeCheck(rem, size) == WritesPastEnd <==> rem >= LIMIT && size == FinalLength(rem)
  {
    PredictionExact(rem);
  }

  // ---------------------------------------------------------------- fields

  function Uint16(x: nat): (r: seq<byte>)
    requires x < 65536
    ensures |r| == 2 && ReadUint16(r[0], r[1]) == x
  {
    [x / 256, x % 256]
  }

  function ReadUint16(hi: byte, lo: byte): (x: nat)
    ensures x < 65536
  {
    lo + 256 * hi
  }

  function Utf8String(s: Text): (r: seq<byte>)
    ensures |r| == 2 + |s|
  {
    Uint16(|s|) + s
  }

  datatype MessageType = CONNECT | PUBLISH | SUBSCRIBE | UNSUBSCRIBE

  function TypeNibble(t: MessageType): nat {
    match t case CONNECT => 1 case PUBLISH => 3 case SUBSCRIBE => 8 case UNSUBSCRIBE => 10
  }

  datatype QoS = QOS0 | QOS1

  function QosBits(q: QoS): nat {
    if q == QOS0 then 0 else 1
  }

  /** aws_iot_mqtt_internal_init_header: retain in bit 0, qos in bits 1-2, dup in bit 3, the type in bits 4-7. */
  function Header(t: MessageType, qos: QoS, dup: byte, retained: byte): (h: byte) {
    TypeNibble(t) * 16 + (if dup == 1 then 8 else 0) + QosBits(qos) * 2 + (if retained == 1 then 1 else 0)
  }

  /** Every field is read back from the header byte. */
  lemma HeaderFields(t: MessageType, qos: QoS, dup: byte, retained: byte)
    ensures var h := Header(t, qos, dup, retained);
            h / 16 == TypeNibble(t) && h / 8 % 2 == (if dup == 1 then 1 else 0) && h / 2 % 4 == QosBits(qos)
            && h % 2 == (if retained == 1 then 1 else 0)
  {
  }

  // ---------------------------------------------------------------- writers

  /** The buffer after writing `bytes` at `ptr`: everything else is as before. */
  function Splice(s: seq<byte>, ptr: nat, bytes: seq<byte>): (r: seq<byte>)
    requires ptr + |bytes| <= |s|
    ensures |r| == |s|
  {
    s[..ptr] + bytes + s[ptr + |bytes|..]
  }

  /** Writing twice in a row is writing the concatenation. */
  lemma SpliceThen(s: seq<byte>, ptr: nat, a: seq<byte>, b: seq<byte>)
    requires ptr + |a| + |b| <= |s|
    ensures Splice(Splice(s, ptr, a), ptr + |a|, b) == Splice(s, ptr, a + b)
  {
  }

  lemma SpliceNothing(s: seq<byte>, ptr: nat)
    requires ptr <= |s|
    ensures Splice(s, ptr, []) == s
  {
  }

  /** memcpy at the cursor */
  method WriteBytes(buf: array<byte>, ptr: nat, s: seq<byte>) returns (p: nat)
    requires ptr + |s| <= buf.Length
    modifies buf
    ensures p == ptr + |s| && buf[..] == Splice(old(buf[..]), ptr, s)
  {
    hide Splice;
    SpliceNothing(buf[..], ptr);
    var i := 0;
    while i < |s|
      invariant i <= |s| && buf[..] == Splice(old(buf[..]), ptr, s[..i])
    {
      SpliceThen(old(buf[..]), ptr, s[..i], [s[i]]);
      assert s[..i + 1] == s[..i] + [s[i]];
      var _ := WriteChar(buf, ptr + i, s[i]);
      i := i + 1;
    }
    assert s[..i] == s;
    p := ptr + |s|;
  }

  method WriteChar(buf: array<byte>, ptr: nat, c: byte) returns (p: nat)
    requires ptr < buf.Length
    modifies buf
    ensures p == ptr + 1 && buf[..] == Splice(old(buf[..]), ptr, [c])
  {
    buf[ptr] := c;
    p := ptr + 1;
  }

  method WriteUint16(buf: array<byte>, ptr: nat, x: nat) returns (p: nat)
    requires ptr + 1 < buf.Length && x < 65536
    modifies buf
    ensures p == ptr + 2 && buf[..] == Splice(old(buf[..]), ptr, Uint16(x))
  {
    buf[ptr] := x / 256;
    buf[ptr + 1] := x % 256;
    p := ptr + 2;
  }

  method WriteUtf8String(buf: array<byte>, ptr: nat, s: Text) returns (p: nat)
    requires ptr + 2 + |s| <= buf.Length
    modifies buf
    ensures p == ptr + 2 + |s| && buf[..] == Splice(old(buf[..]), ptr, Utf8String(s))
  {
    hide Splice, Uint16;
    SpliceThen(buf[..], ptr, Uint16(|s|), s);
    p := WriteUint16(buf, ptr, |s|);
    if |s| > 0 { p := WriteBytes(buf, p, s); }
    assert |s| == 0 ==> Uint16(|s|) + s == Uint16(|s|);
  }

  /** aws_iot_mqtt_internal_write_len_to_buffer */
  method WriteLength(buf: array<byte>, ptr: nat, length: nat) returns (p: nat)
    requires ptr + |EncodeLength(length)| <= buf.Length
    modifies buf
    ensures p == ptr + |EncodeLength(length)| && buf[..] == Splice(old(buf[..]), ptr, EncodeLength(length))
  {
    hide Splice;
    SpliceNothing(buf[..], ptr);
    var n := length;
    ghost var done: seq<byte> := [];
    p := ptr;
    while true
      invariant p == ptr + |done| && done + EncodeLength(n) == EncodeLength(length)
      invariant buf[..] == Splice(old(buf[..]), ptr, done)
      decreases n
    {
      ghost var m := n;
      var encoded: byte := n % 128;
      n := n / 128;
      if n > 0 { encoded := encoded + 128; }
      SpliceThen(old(buf[..]), ptr, done, [encoded]);
      p := WriteChar(buf, p, encoded);
      if n == 0 { break; }
      assert done + EncodeLength(m) == done + [encoded] + EncodeLength(n);
      done := done + [encoded];
    }
  }
}
