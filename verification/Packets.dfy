/** PUBLISH, SUBSCRIBE and UNSUBSCRIBE packets: serializers, readers and their round trips. */
module Packets {
  import opened Common
  import opened Codec

  // ---------------------------------------------------------------- framing

  /** A whole packet: header byte, remaining length, body. */
  function Frame(header: byte, body: seq<byte>): (r: seq<byte>) {
    [header] + EncodeLength(|body|) + body
  }

  /** Below 2^28 the remaining-length field decodes to exactly the bytes that follow it,
      and the predicted packet length is the emitted one or one more. */
  lemma FrameReadsBack(header: byte, body: seq<byte>, rest: seq<byte>)
    requires |body| < LIMIT
    ensures var f := Frame(header, body);
            var k := |EncodeLength(|body|)|;
            |f| == 1 + k + |body| && DecodeLength((f + rest)[1..]) == (Success, |body|, k)
            && (f + rest)[0] == header && (f + rest)[1 + k..1 + k + |body|] == body
            && |f| <= FinalLength(|body|) <= |f| + 1
  {
    var f, n := Frame(header, body), EncodeLength(|body|);
    assert (f + rest)[1..] == n + (body + rest);
    LengthRoundTrip(|body|, body + rest);
    PredictionExact(|body|);
    assert (f + rest)[1 + |n|..1 + |n| + |body|] == body;
  }

  /** The body of a whole packet that starts with the given byte; the length field must announce exactly the rest. */
  function ReadWhole(s: seq<byte>, first: byte): (r: Option<seq<byte>>) {
    if |s| < 2 || s[0] != first then None
    else
      var (rc, n, k) := DecodeLength(s[1..]);
      if rc != Success || 1 + k + n != |s| then None else Some(s[1 + k..])
  }

  lemma WholeReadsBack(header: byte, body: seq<byte>, first: byte)
    requires |body| < LIMIT
    ensures ReadWhole(Frame(header, body), first) == if header == first then Some(body) else None
  {
    hide DecodeLength, EncodeLength, FinalLength;
    FrameReadsBack(header, body, []);
    var f := Frame(header, body);
    assert f + [] == f;
  }

  /** The part every serializer starts with: the size check, the header byte and the length field. */
  method BeginPacket(buf: array<byte>, header: byte, rem: nat) returns (rc: Error, p: nat)
    requires rem < SIZE_LIMIT
    modifies buf
    ensures rc == SizeCheck(rem, buf.Length)
    ensures rc == TxBufferTooShort ==> buf[..] == old(buf[..])
    ensures rc == Success ==> p + rem <= buf.Length && p == 1 + |EncodeLength(rem)|
                              && buf[..] == Splice(old(buf[..]), 0, [header] + EncodeLength(rem))
  {
    if FinalLength(rem) > buf.Length { return TxBufferTooShort, 0; }
    if EmittedLength(rem) > buf.Length { return WritesPastEnd, 0; }
    SpliceThen(buf[..], 0, [header], EncodeLength(rem));
    p := WriteChar(buf, 0, header);
    p := WriteLength(buf, p, rem);
    rc := Success;
  }

  // ---------------------------------------------------------------- PUBLISH (section 3.3)

  /** What a PUBLISH carries; the packet identifier is present exactly for qos above 0. */
  datatype Publish = Publish(dup: nat, qos: nat, retained: nat, id: Option<nat>, topic: Text, payload: seq<byte>)

  function IdField(id: Option<nat>): (r: seq<byte>)
    requires id.Some? ==> id.value < 65536
  {
    if id.Some? then Uint16(id.value) else []
  }

  ghost predicate WellFormed(m: Publish) {
    m.dup < 2 && m.qos < 2 && m.retained < 2 && (m.id.Some? <==> m.qos > 0) && (m.id.Some? ==> m.id.value < 65536)
  }

  function PublishBody(topic: Text, id: Option<nat>, payload: seq<byte>): (r: seq<byte>)
    requires id.Some? ==> id.value < 65536
    ensures |r| == |topic| + |payload| + 2 + (if id.Some? then 2 else 0)
  {
    Utf8String(topic) + IdField(id) + payload
  }

  function QosOf(qos: nat): QoS {
    if qos == 1 then QOS1 else QOS0
  }

  function PublishBytes(m: Publish): (r: seq<byte>)
    requires m.dup < 256 && m.retained < 256 && (m.id.Some? ==> m.id.value < 65536)
  {
    Frame(Header(PUBLISH, QosOf(m.qos), m.dup, m.retained), PublishBody(m.topic, m.id, m.payload))
  }

  /** _aws_iot_mqtt_internal_serialize_publish; a payload of None is the NULL pointer. */
  method SerializePublish(buf: array<byte>, dup: byte, qos: QoS, retained: byte, packetId: nat, topic: Text, payload: Option<seq<byte>>)
    returns (rc: Error, len: nat)
    requires packetId < 65536
    requires payload.Some? ==> |topic| + |payload.value| + 4 < SIZE_LIMIT
    modifies buf
    ensures payload.None? <==> rc == NullValue
    ensures payload.Some? ==>
              var id := if qos == QOS0 then None else Some(packetId);
              var body := PublishBody(topic, id, payload.value);
              var packet := Frame(Header(PUBLISH, qos, dup, retained), body);
              rc == SizeCheck(|body|, buf.Length)
              && (rc == Success ==> len == |packet| <= buf.Length && buf[..] == Splice(old(buf[..]), 0, packet))
    ensures rc == NullValue || rc == TxBufferTooShort ==> buf[..] == old(buf[..])
  {
    hide Splice, Utf8String, Uint16, Header, SizeCheck, EncodeLength;
    if payload.None? { return NullValue, 0; }
    var rem := |topic| + |payload.value| + 2;
    if QosBits(qos) > 0 { rem := rem + 2; }
    ghost var start := buf[..];
    var header, p := Header(PUBLISH, qos, dup, retained), 0;
    rc, p := BeginPacket(buf, header, rem);
    if rc != Success { return rc, 0; }
    ghost var prefix, id := [header] + EncodeLength(rem), if qos == QOS0 then None else Some(packetId);
    SpliceThen(start, 0, prefix, Utf8String(topic));
    p := WriteUtf8String(buf, p, topic);
    SpliceThen(start, 0, prefix + Utf8String(topic), IdField(id));
    if QosBits(qos) > 0 { p := WriteUint16(buf, p, packetId); }
    assert id.None? ==> prefix + Utf8String(topic) + IdField(id) == prefix + Utf8String(topic);
    SpliceThen(start, 0, prefix + Utf8String(topic) + IdField(id), payload.value);
    p := WriteBytes(buf, p, payload.value);
    len := p;
    assert prefix + Utf8String(topic) + IdField(id) + payload.value == Frame(header, PublishBody(topic, id, payload.value));
  }

  /** The reader's outcome. Overrun: success is reported, but the packet identifier was read from beyond the packet,
      so the payload length, end minus cursor, is negative and wraps. Beyond: the length field or the packet it announces
      reaches past the receive buffer, and what is read there is not in it. */
  datatype Parsed = Rejected(error: Error) | Message(m: Publish) | Overrun(missing: nat) | Beyond

  /** The length field is not over at the end of the buffer and has fewer than four bytes. */
  predicate LengthCut(s: seq<byte>) {
    |s| == 4 && s[1] >= 128 && s[2] >= 128 && s[3] >= 128
  }

  /** Topic, packet identifier and payload from a body; the low four bits of the header `flags` are the flags. */
  function ReadBody(flags: nat, body: seq<byte>): (r: Parsed) {
    if |body| < 2 || ReadUint16(body[0], body[1]) + 2 > |body| then Rejected(Failure)
    else
      var t := 2 + ReadUint16(body[0], body[1]);
      var dup, qos, retained := flags / 8 % 2, flags / 2 % 4, flags % 2;
      if qos == 0 then Message(Publish(dup, qos, retained, None, body[2..t], body[t..]))
      else if t + 2 > |body| then Overrun(t + 2 - |body|)
      else Message(Publish(dup, qos, retained, Some(ReadUint16(body[t], body[t + 1])), body[2..t], body[t + 2..]))
  }

  function ReadPublish(s: seq<byte>): (r: Parsed) {
    if |s| < 4 then Rejected(RxBufferTooShort)
    else if s[0] / 16 != 3 then Rejected(Failure)
    else if LengthCut(s) then Beyond
    else
      var (rc, n, k) := DecodeLength(s[1..]);
      if rc != Success then Rejected(rc)
      else if 1 + k + n > |s| then Beyond
      else ReadBody(s[0], s[1 + k..1 + k + n])
  }

  /** aws_iot_mqtt_internal_deserialize_publish with its cursor. */
  method DeserializePublish(rx: array<byte>) returns (r: Parsed)
    ensures r == ReadPublish(rx[..])
  {
    hide DecodeLength, DecodeLengthFrom;
    if 4 > rx.Length { return Rejected(RxBufferTooShort); }
    var header: nat := rx[0];
    if header / 16 != 3 { return Rejected(Failure); }
    if LengthCut(rx[..]) { return Beyond; }
    assert rx[..][1..] == rx[1..];
    var rc, decoded, read := DecodeRemainingLengthLoop(rx[1..]);
    if rc != Success { return Rejected(rc); }
    if 1 + read + decoded > rx.Length { return Beyond; }
    assert rx[..][1 + read..1 + read + decoded] == rx[1 + read..1 + read + decoded];
    r := DeserializeBody(rx, header, 1 + read, 1 + read + decoded);
  }

  /** Of the lengths that _aws_iot_mqtt_internal_read_packet lets through, those below the buffer size, the packet lies in the
      buffer exactly when header byte and length field fit before it; the last few lengths do not. */
  lemma BeyondExactly(s: seq<byte>, rem: nat)
    requires |s| >= 5 && s[0] / 16 == 3 && rem < |s| && rem < LIMIT && EncodeLength(rem) <= s[1..]
    ensures ReadPublish(s) == Beyond <==> rem > |s| - 1 - |EncodeLength(rem)|
  {
    hide DecodeLength, DecodeLengthFrom, EncodeLength;
    var k := |EncodeLength(rem)|;
    assert s[1..] == EncodeLength(rem) + s[1 + k..];
    LengthRoundTrip(rem, s[1 + k..]);
    if 1 + k + rem <= |s| { NeverBeyond(s[0], s[1 + k..1 + k + rem]); }
  }

  lemma NeverBeyond(flags: nat, body: seq<byte>)
    ensures ReadBody(flags, body) != Beyond
  {
  }

  /** The cursor from the end of the length field on, with _aws_iot_mqtt_read_string_with_len. */
  method DeserializeBody(rx: array<byte>, flags: nat, start: nat, end: nat) returns (r: Parsed)
    requires start <= end <= rx.Length
    ensures r == ReadBody(flags, rx[start..end])
  {
    hide ReadUint16;
    ghost var body := rx[start..end];
    assert forall j :: 0 <= j < end - start ==> body[j] == rx[start + j];
    var cur := start;
    if end - cur <= 1 { return Rejected(Failure); }
    var topicLen := ReadUint16(rx[cur], rx[cur + 1]);
    cur := cur + 2;
    if cur + topicLen > end { return Rejected(Failure); }
    var topic: Text := rx[cur..cur + topicLen];
    assert topic == body[2..2 + topicLen];
    cur := cur + topicLen;
    var dup, qos, retained := flags / 8 % 2, flags / 2 % 4, flags % 2;
    var id := None;
    if qos != 0 {
      if cur + 2 > end { return Overrun(cur + 2 - end); }
      id := Some(ReadUint16(rx[cur], rx[cur + 1]));
      cur := cur + 2;
    }
    assert rx[cur..end] == body[cur - start..];
    r := Message(Publish(dup, qos, retained, id, topic, rx[cur..end]));
  }

  /** What was serialized is read back, whatever follows the packet in the receive buffer. */
  lemma PublishRoundTrip(m: Publish, rest: seq<byte>)
    requires WellFormed(m) && |PublishBody(m.topic, m.id, m.payload)| < LIMIT
    ensures ReadPublish(PublishBytes(m) + rest) == Message(m)
  {
    hide DecodeLength, DecodeLengthFrom, EncodeLength, Header, ReadBody, PublishBody, FinalLength;
    var header, body := Header(PUBLISH, QosOf(m.qos), m.dup, m.retained), PublishBody(m.topic, m.id, m.payload);
    FrameReadsBack(header, body, rest);
    FrameNotCut(header, body, rest);
    HeaderFields(PUBLISH, QosOf(m.qos), m.dup, m.retained);
    BodyRoundTrip(m, header);
  }

  /** A frame whose body has at least two bytes carries a complete length field. */
  lemma FrameNotCut(header: byte, body: seq<byte>, rest: seq<byte>)
    requires |body| >= 2
    ensures !LengthCut(Frame(header, body) + rest)
  {
    var f := Frame(header, body) + rest;
    var n := EncodeLength(|body|);
    if |f| == 4 {
      assert |body| < 128;
      assert f[1] == n[0];
    }
  }

  lemma BodyRoundTrip(m: Publish, flags: nat)
    requires WellFormed(m) && flags / 8 % 2 == m.dup && flags / 2 % 4 == m.qos && flags % 2 == m.retained
    ensures ReadBody(flags, PublishBody(m.topic, m.id, m.payload)) == Message(m)
  {
    PublishBodyFields(m.topic, m.id, m.payload);
  }

  lemma PublishBodyFields(topic: Text, id: Option<nat>, payload: seq<byte>)
    requires id.Some? ==> id.value < 65536
    ensures var b, t := PublishBody(topic, id, payload), 2 + |topic|;
            ReadUint16(b[0], b[1]) == |topic| && b[2..t] == topic
            && if id.Some? then ReadUint16(b[t], b[t + 1]) == id.value && b[t + 2..] == payload else b[t..] == payload
  {
    hide Uint16;
    var b, t := PublishBody(topic, id, payload), 2 + |topic|;
    assert b[2..t] == topic;
    assert id.None? ==> b[t..] == payload;
    assert id.Some? ==> b[t + 2..] == payload;
  }

  /** What is accepted lays out again as the body that was read; the only other outcomes are a topic that does not
      fit the body and, for qos above 0, a body without room for the packet identifier. */
  lemma ReadBodyExact(flags: nat, body: seq<byte>)
    ensures match ReadBody(flags, body)
      case Message(m) =>
        m.dup < 2 && m.qos < 4 && m.retained < 2 && flags % 16 == m.dup * 8 + m.qos * 2 + m.retained
        && (m.id.Some? <==> m.qos > 0) && (m.id.Some? ==> m.id.value < 65536)
        && body == PublishBody(m.topic, m.id, m.payload)
      case Overrun(missing) =>
        flags / 2 % 4 > 0 && exists topic: Text, tail :: body == Utf8String(topic) + tail && |tail| + missing == 2
      case Beyond => false
      case Rejected(e) =>
        e == Failure && !exists topic: Text, tail :: body == Utf8String(topic) + tail
  {
    hide Uint16, ReadUint16;
    FlagBits(flags);
    if |body| >= 2 {
      var n := ReadUint16(body[0], body[1]);
      TopicOf(body);
      if n + 2 <= |body| {
        var topic: Text, tail := body[2..2 + n], body[2 + n..];
        if flags / 2 % 4 != 0 && |tail| >= 2 {
          Uint16OfRead(tail[0], tail[1]);
          assert tail == [tail[0], tail[1]] + tail[2..];
          assert body[2 + n + 2..] == tail[2..];
        }
      }
    }
  }

  /** A body starts with a string exactly when its first two bytes announce no more than there is. */
  lemma TopicOf(body: seq<byte>)
    requires |body| >= 2
    ensures var n := ReadUint16(body[0], body[1]);
            if n + 2 <= |body| then body == Utf8String(body[2..2 + n]) + body[2 + n..]
            else !exists topic: Text, tail :: body == Utf8String(topic) + tail
  {
    hide Uint16, ReadUint16;
    var n := ReadUint16(body[0], body[1]);
    Uint16OfRead(body[0], body[1]);
    if n + 2 <= |body| {
      assert body == [body[0], body[1]] + body[2..2 + n] + body[2 + n..];
    } else {
      forall topic: Text, tail: seq<byte> ensures body != Utf8String(topic) + tail {
        if body == Utf8String(topic) + tail { LengthInFront(topic, tail); }
      }
    }
  }

  lemma LengthInFront(topic: Text, tail: seq<byte>)
    ensures var body := Utf8String(topic) + tail;
            |body| >= 2 + |topic| && ReadUint16(body[0], body[1]) == |topic|
  {
    hide Uint16, ReadUint16;
    var body := Utf8String(topic) + tail;
    assert body[0] == Uint16(|topic|)[0] && body[1] == Uint16(|topic|)[1];
  }

  lemma FlagBits(h: nat)
    ensures h % 16 == h / 8 % 2 * 8 + h / 2 % 4 * 2 + h % 2
  {
    var q, a, b, c := h / 16, h / 8 % 2, h / 2 % 4, h % 2;
    assert h / 8 == 2 * q + a;
    assert h / 2 == 8 * q + h % 16 / 2 && h % 16 / 2 == 4 * a + b;
  }

  lemma Uint16OfRead(hi: byte, lo: byte)
    ensures Uint16(ReadUint16(hi, lo)) == [hi, lo]
  {
  }

  // ---------------------------------------------------------------- SUBSCRIBE and UNSUBSCRIBE (sections 3.8 and 3.10)

  /** One topic filter of the payload; UNSUBSCRIBE carries no requested qos. */
  datatype Filter = Filter(topic: Text, qos: Option<byte>)

  function FilterBytes(f: Filter): (r: seq<byte>)
    ensures |r| == |f.topic| + 2 + (if f.qos.Some? then 1 else 0)
  {
    Utf8String(f.topic) + (if f.qos.Some? then [f.qos.value] else [])
  }

  function FiltersBytes(fs: seq<Filter>): (r: seq<byte>) {
    if |fs| == 0 then [] else FiltersBytes(fs[..|fs| - 1]) + FilterBytes(fs[|fs| - 1])
  }

  function FiltersBody(packetId: nat, fs: seq<Filter>): (r: seq<byte>)
    requires packetId < 65536
  {
    Uint16(packetId) + FiltersBytes(fs)
  }

  lemma FiltersPrefix(fs: seq<Filter>, i: nat)
    requires i < |fs|
    ensures FiltersBytes(fs[..i + 1]) == FiltersBytes(fs[..i]) + FilterBytes(fs[i])
  {
    assert fs[..i + 1][..i] == fs[..i];
  }

  lemma {:induction false} FiltersGrow(fs: seq<Filter>, i: nat)
    requires i <= |fs|
    ensures |FiltersBytes(fs[..i])| <= |FiltersBytes(fs)|
    decreases |fs| - i
  {
    if i == |fs| {
      assert fs[..i] == fs;
    } else {
      FiltersPrefix(fs, i);
      FiltersGrow(fs, i + 1);
    }
  }

  /** The serializers of both packets: first the length loop, then the writing loop. */
  method SerializeFilters(buf: array<byte>, header: byte, packetId: nat, fs: seq<Filter>) returns (rc: Error, len: nat)
    requires packetId < 65536 && |FiltersBody(packetId, fs)| < SIZE_LIMIT
    modifies buf
    ensures var body := FiltersBody(packetId, fs);
            rc == SizeCheck(|body|, buf.Length) && (rc == TxBufferTooShort ==> buf[..] == old(buf[..]))
            && (rc == Success ==> len == |Frame(header, body)| <= buf.Length
                                  && buf[..] == Splice(old(buf[..]), 0, Frame(header, body)))
  {
    hide Splice, Utf8String, Uint16, Header, SizeCheck, EncodeLength, FiltersBytes, FilterBytes;
    var rem := FiltersLength(fs);
    ghost var start := buf[..];
    var p := 0;
    rc, p := BeginPacket(buf, header, rem);
    if rc != Success { return rc, 0; }
    ghost var prefix := [header] + EncodeLength(rem);
    SpliceThen(start, 0, prefix, Uint16(packetId));
    p := WriteUint16(buf, p, packetId);
    ghost var done := prefix + Uint16(packetId);
    SpliceThen(start, 0, done, FiltersBytes(fs));
    p := WriteFilters(buf, p, fs);
    len := p;
    assert done + FiltersBytes(fs) == Frame(header, FiltersBody(packetId, fs));
  }

  method FiltersLength(fs: seq<Filter>) returns (rem: nat)
    ensures rem == 2 + |FiltersBytes(fs)|
  {
    rem := 2;
    var i := 0;
    while i < |fs|
      invariant i <= |fs| && rem == 2 + |FiltersBytes(fs[..i])|
    {
      FiltersPrefix(fs, i);
      rem := rem + |fs[i].topic| + 2;
      if fs[i].qos.Some? { rem := rem + 1; }
      i := i + 1;
    }
    assert fs[..i] == fs;
  }

  method WriteFilters(buf: array<byte>, ptr: nat, fs: seq<Filter>) returns (p: nat)
    requires ptr + |FiltersBytes(fs)| <= buf.Length
    modifies buf
    ensures p == ptr + |FiltersBytes(fs)| && buf[..] == Splice(old(buf[..]), ptr, FiltersBytes(fs))
  {
    hide Splice, Utf8String;
    ghost var start := buf[..];
    SpliceNothing(start, ptr);
    p := ptr;
    var i := 0;
    while i < |fs|
      invariant i <= |fs| && p == ptr + |FiltersBytes(fs[..i])| && |FiltersBytes(fs[..i])| <= |FiltersBytes(fs)|
      invariant buf[..] == Splice(start, ptr, FiltersBytes(fs[..i]))
    {
      FiltersPrefix(fs, i);
      FiltersGrow(fs, i + 1);
      SpliceThen(start, ptr, FiltersBytes(fs[..i]), FilterBytes(fs[i]));
      p := WriteFilter(buf, p, fs[i]);
      i := i + 1;
    }
    assert fs[..i] == fs;
  }

  method WriteFilter(buf: array<byte>, ptr: nat, f: Filter) returns (p: nat)
    requires ptr + |FilterBytes(f)| <= buf.Length
    modifies buf
    ensures p == ptr + |FilterBytes(f)| && buf[..] == Splice(old(buf[..]), ptr, FilterBytes(f))
  {
    hide Splice, Utf8String;
    ghost var start := buf[..];
    p := WriteUtf8String(buf, ptr, f.topic);
    if f.qos.Some? {
      SpliceThen(start, ptr, Utf8String(f.topic), [f.qos.value]);
      p := WriteChar(buf, p, f.qos.value);
    } else {
      assert FilterBytes(f) == Utf8String(f.topic);
    }
  }

  method SerializeSubscribe(buf: array<byte>, dup: byte, packetId: nat, fs: seq<Filter>) returns (rc: Error, len: nat)
    requires forall f <- fs :: f.qos.Some?
    requires packetId < 65536 && |FiltersBody(packetId, fs)| < SIZE_LIMIT
    modifies buf
    ensures var packet := Frame(Header(SUBSCRIBE, QOS1, dup, 0), FiltersBody(packetId, fs));
            rc == SizeCheck(|FiltersBody(packetId, fs)|, buf.Length) && (rc == TxBufferTooShort ==> buf[..] == old(buf[..]))
            && (rc == Success ==> len == |packet| <= buf.Length && buf[..] == Splice(old(buf[..]), 0, packet))
  {
    rc, len := SerializeFilters(buf, Header(SUBSCRIBE, QOS1, dup, 0), packetId, fs);
  }

  method SerializeUnsubscribe(buf: array<byte>, dup: byte, packetId: nat, fs: seq<Filter>) returns (rc: Error, len: nat)
    requires forall f <- fs :: f.qos.None?
    requires packetId < 65536 && |FiltersBody(packetId, fs)| < SIZE_LIMIT
    modifies buf
    ensures var packet := Frame(Header(UNSUBSCRIBE, QOS1, dup, 0), FiltersBody(packetId, fs));
            rc == SizeCheck(|FiltersBody(packetId, fs)|, buf.Length) && (rc == TxBufferTooShort ==> buf[..] == old(buf[..]))
            && (rc == Success ==> len == |packet| <= buf.Length && buf[..] == Splice(old(buf[..]), 0, packet))
  {
    rc, len := SerializeFilters(buf, Header(UNSUBSCRIBE, QOS1, dup, 0), packetId, fs);
  }

  // ---- a reader after the standard's payload format, to show that nothing is lost

  /** A length-prefixed string at a cursor. */
  function ReadText(b: seq<byte>, at: nat): (r: Option<Text>) {
    if at + 2 > |b| || at + 2 + ReadUint16(b[at], b[at + 1]) > |b| then None
    else Some(b[at + 2..at + 2 + ReadUint16(b[at], b[at + 1])])
  }

  lemma TextReadsBack(pre: seq<byte>, s: Text, rest: seq<byte>)
    ensures ReadText(pre + Utf8String(s) + rest, |pre|) == Some(s)
  {
    hide Uint16;
    var b := pre + Utf8String(s) + rest;
    assert b[|pre|] == Uint16(|s|)[0] && b[|pre| + 1] == Uint16(|s|)[1];
    assert b[|pre| + 2..|pre| + 2 + |s|] == s;
  }

  /** The filters of a payload from a cursor on; `qos` says whether each carries a requested qos byte. */
  function ReadFilters(b: seq<byte>, at: nat, qos: bool): (r: Option<seq<Filter>>)
    requires at <= |b|
    decreases |b| - at
  {
    if at == |b| then Some([])
    else
      var t := ReadText(b, at);
      if t.None? then None
      else
        var next := at + 2 + |t.value|;
        if !qos then Cons(Filter(t.value, None), ReadFilters(b, next, qos))
        else if next == |b| then None
        else Cons(Filter(t.value, Some(b[next])), ReadFilters(b, next + 1, qos))
  }

  function Cons(f: Filter, r: Option<seq<Filter>>): Option<seq<Filter>> {
    if r.None? then None else Some([f] + r.value)
  }

  lemma {:induction false} FiltersSplit(a: seq<Filter>, b: seq<Filter>)
    ensures FiltersBytes(a + b) == FiltersBytes(a) + FiltersBytes(b)
    decreases |b|
  {
    hide FilterBytes;
    if |b| == 0 {
      assert a + b == a;
    } else {
      FiltersSplit(a, b[..|b| - 1]);
      assert (a + b)[..|a + b| - 1] == a + b[..|b| - 1];
    }
  }

  lemma FiltersFront(fs: seq<Filter>)
    requires |fs| > 0
    ensures FiltersBytes(fs) == FilterBytes(fs[0]) + FiltersBytes(fs[1..])
  {
    hide FilterBytes;
    var first := [fs[0]];
    FiltersSplit(first, fs[1..]);
    assert first + fs[1..] == fs;
    FiltersPrefix(first, 0);
    assert first[..1] == first && first[..0] == [];
    assert FiltersBytes([]) == [];
    assert [] + FilterBytes(fs[0]) == FilterBytes(fs[0]);
  }

  lemma ReadStep(b: seq<byte>, at: nat, f: Filter)
    requires at + |FilterBytes(f)| <= |b| && ReadText(b, at) == Some(f.topic)
    requires f.qos.Some? ==> b[at + 2 + |f.topic|] == f.qos.value
    ensures ReadFilters(b, at, f.qos.Some?) == Cons(f, ReadFilters(b, at + |FilterBytes(f)|, f.qos.Some?))
  {
    hide FilterBytes, ReadText;
  }

  lemma ReadFirstFilter(pre: seq<byte>, f: Filter, rest: seq<byte>)
    ensures var b := pre + FilterBytes(f) + rest;
            ReadFilters(b, |pre|, f.qos.Some?) == Cons(f, ReadFilters(b, |pre| + |FilterBytes(f)|, f.qos.Some?))
  {
    hide Utf8String, ReadText, ReadFilters;
    var b := pre + FilterBytes(f) + rest;
    var tail := (if f.qos.Some? then [f.qos.value] else []) + rest;
    assert b == pre + Utf8String(f.topic) + tail;
    TextReadsBack(pre, f.topic, tail);
    ReadStep(b, |pre|, f);
  }

  lemma {:induction false} FiltersReadBack(pre: seq<byte>, fs: seq<Filter>, qos: bool)
    requires forall f <- fs :: f.qos.Some? == qos
    ensures ReadFilters(pre + FiltersBytes(fs), |pre|, qos) == Some(fs)
    decreases |fs|
  {
    hide Utf8String, ReadText, FilterBytes;
    if |fs| == 0 {
      assert pre + FiltersBytes(fs) == pre;
    } else {
      hide FiltersBytes, ReadFilters;
      var f, rest := fs[0], fs[1..];
      FiltersFront(fs);
      assert pre + FiltersBytes(fs) == pre + FilterBytes(f) + FiltersBytes(rest);
      ReadFirstFilter(pre, f, FiltersBytes(rest));
      FiltersReadBack(pre + FilterBytes(f), rest, qos);
      assert [f] + rest == fs;
    }
  }

  /** Packet identifier and every filter, in order, are read back from the body of SUBSCRIBE and UNSUBSCRIBE. */
  lemma FiltersRoundTrip(packetId: nat, fs: seq<Filter>, qos: bool)
    requires packetId < 65536
    requires forall f <- fs :: f.qos.Some? == qos
    ensures var b := FiltersBody(packetId, fs);
            ReadUint16(b[0], b[1]) == packetId && ReadFilters(b, 2, qos) == Some(fs)
  {
    hide Uint16;
    FiltersReadBack(Uint16(packetId), fs, qos);
  }

  /** SUBSCRIBE as a server reads it (section 3.8): first byte 0x82, packet identifier, filters with their qos. */
  function ReadSubscribe(s: seq<byte>): (r: Option<(nat, seq<Filter>)>) {
    ReadRequest(ReadWhole(s, 0x82), true)
  }

  /** UNSUBSCRIBE (section 3.10): first byte 0xA2, packet identifier, filters. */
  function ReadUnsubscribe(s: seq<byte>): (r: Option<(nat, seq<Filter>)>) {
    ReadRequest(ReadWhole(s, 0xA2), false)
  }

  function ReadRequest(body: Option<seq<byte>>, qos: bool): (r: Option<(nat, seq<Filter>)>) {
    if body.None? || |body.value| < 2 then None
    else
      var fs := ReadFilters(body.value, 2, qos);
      if fs.None? then None else Some((ReadUint16(body.value[0], body.value[1]), fs.value))
  }

  lemma RequestReadsBack(packetId: nat, fs: seq<Filter>, qos: bool)
    requires packetId < 65536
    requires forall f <- fs :: f.qos.Some? == qos
    ensures ReadRequest(Some(FiltersBody(packetId, fs)), qos) == Some((packetId, fs))
  {
    hide ReadFilters, FiltersBytes, Uint16, ReadUint16;
    FiltersRoundTrip(packetId, fs, qos);
  }

  /** A serialized SUBSCRIBE is a SUBSCRIBE to the server exactly when it is not flagged as a duplicate. */
  lemma SubscribeRoundTrip(dup: byte, packetId: nat, fs: seq<Filter>)
    requires packetId < 65536 && |FiltersBody(packetId, fs)| < LIMIT
    requires forall f <- fs :: f.qos.Some?
    ensures var s := Frame(Header(SUBSCRIBE, QOS1, dup, 0), FiltersBody(packetId, fs));
            ReadSubscribe(s) == (if dup != 1 then Some((packetId, fs)) else None) && ReadUnsubscribe(s) == None
  {
    hide ReadWhole, Frame, FiltersBody, ReadFilters;
    var header, body := Header(SUBSCRIBE, QOS1, dup, 0), FiltersBody(packetId, fs);
    WholeReadsBack(header, body, 0x82);
    WholeReadsBack(header, body, 0xA2);
    RequestReadsBack(packetId, fs, true);
  }

  lemma UnsubscribeRoundTrip(dup: byte, packetId: nat, fs: seq<Filter>)
    requires packetId < 65536 && |FiltersBody(packetId, fs)| < LIMIT
    requires forall f <- fs :: f.qos.None?
    ensures var s := Frame(Header(UNSUBSCRIBE, QOS1, dup, 0), FiltersBody(packetId, fs));
            ReadUnsubscribe(s) == (if dup != 1 then Some((packetId, fs)) else None) && ReadSubscribe(s) == None
  {
    hide ReadWhole, Frame, FiltersBody, ReadFilters;
    var header, body := Header(UNSUBSCRIBE, QOS1, dup, 0), FiltersBody(packetId, fs);
    WholeReadsBack(header, body, 0x82);
    WholeReadsBack(header, body, 0xA2);
    RequestReadsBack(packetId, fs, false);
  }
}
