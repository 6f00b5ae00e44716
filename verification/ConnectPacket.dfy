/** The CONNECT packet (section 3.1 of MQTT 3.1.1): predicted length, serializer, and a reader that recovers the parameters. */
module ConnectPacket {
  import opened Common
  import opened Codec
  import opened Packets

  datatype Will = Will(topic: Text, message: Text, qos: QoS, retained: bool)

  /** Absent strings are NULL pointers; the client identifier carries its length separately, as callers pass it. */
  datatype Params = Params(version: byte, clientId: Option<Text>, clientIdLen: nat, cleanSession: bool, keepAlive: nat,
                           will: Option<Will>, username: Option<Text>, password: Option<Text>)

  ghost predicate Given(p: Params) {
    p.keepAlive < 65536 && (p.clientId.Some? ==> |p.clientId.value| == p.clientIdLen)
  }

  const MQTT_NAME: Text := [77, 81, 84, 84]

  function Bit(b: bool): nat {
    if b then 1 else 0
  }

  function Flags(clean: bool, will: bool, willQos: QoS, willRetain: bool, password: bool, username: bool): (f: byte) {
    2 * Bit(clean) + 4 * Bit(will) + 8 * QosBits(willQos) + 32 * Bit(willRetain) + 64 * Bit(password) + 128 * Bit(username)
  }

  function ParamFlags(p: Params): (f: byte) {
    if p.will.Some? then Flags(p.cleanSession, true, p.will.value.qos, p.will.value.retained, p.password.Some?, p.username.Some?)
    else Flags(p.cleanSession, false, QOS0, false, p.password.Some?, p.username.Some?)
  }

  function OptText(t: Option<Text>): (r: seq<byte>)
    ensures |r| == if t.Some? then 2 + |t.value| else 0
  {
    if t.Some? then Utf8String(t.value) else []
  }

  function ClientId(p: Params): Text {
    if p.clientId.Some? then p.clientId.value else []
  }

  function WillTopic(p: Params): Option<Text> {
    if p.will.Some? then Some(p.will.value.topic) else None
  }

  function WillMessage(p: Params): Option<Text> {
    if p.will.Some? then Some(p.will.value.message) else None
  }

  /** The ten bytes of the variable header. */
  function VariableHeader(p: Params): (r: seq<byte>)
    requires p.keepAlive < 65536
    ensures |r| == 10
  {
    Utf8String(MQTT_NAME) + [p.version] + [ParamFlags(p)] + Uint16(p.keepAlive)
  }

  function ConnectBody(p: Params): (r: seq<byte>)
    requires p.keepAlive < 65536
  {
    VariableHeader(p) + Utf8String(ClientId(p)) + OptText(WillTopic(p)) + OptText(WillMessage(p))
    + OptText(p.username) + OptText(p.password)
  }

  /** _aws_iot_get_connect_packet_length */
  function ConnectLength(p: Params): (n: nat)
    ensures Given(p) && (p.clientId.None? ==> p.clientIdLen == 0) ==> n == |ConnectBody(p)|
    ensures Given(p) && (p.clientId.None? ==> p.clientIdLen == 0) ==> n < LIMIT
  {
    10 + p.clientIdLen + 2
    + (if p.will.Some? then |p.will.value.topic| + 2 + |p.will.value.message| + 2 else 0)
    + (if p.username.Some? then |p.username.value| + 2 else 0)
    + (if p.password.Some? then |p.password.value| + 2 else 0)
  }

  function ConnectPacketBytes(p: Params): (r: seq<byte>)
    requires p.keepAlive < 65536
  {
    Frame(Header(CONNECT, QOS0, 0, 0), ConnectBody(p))
  }

  /** _aws_iot_mqtt_serialize_connect */
  method SerializeConnect(buf: array<byte>, p: Params) returns (rc: Error, len: nat)
    requires Given(p)
    modifies buf
    ensures rc == (if p.clientId.None? != (p.clientIdLen == 0) then NullValue
                   else if p.version != 4 then UnacceptableVersion
                   else if FinalLength(|ConnectBody(p)|) > buf.Length then TxBufferTooShort
                   else Success)
    ensures rc != Success ==> buf[..] == old(buf[..])
    ensures rc == Success ==> len == |ConnectPacketBytes(p)| <= buf.Length
                              && buf[..] == Splice(old(buf[..]), 0, ConnectPacketBytes(p))
  {
    hide Splice, Utf8String, Uint16, Header, FinalLength, EmittedLength, EncodeLength, Flags, OptText, ConnectBody;
    if (p.clientId.None? && p.clientIdLen != 0) || (p.clientId.Some? && p.clientIdLen == 0) { return NullValue, 0; }
    if p.version != 4 { return UnacceptableVersion, 0; }
    var n := ConnectLength(p);
    PredictionExact(n);
    ghost var start := buf[..];
    var ptr := 0;
    rc, ptr := BeginPacket(buf, Header(CONNECT, QOS0, 0, 0), n);
    if rc != Success { return rc, 0; }
    ghost var prefix := [Header(CONNECT, QOS0, 0, 0)] + EncodeLength(n);
    SpliceThen(start, 0, prefix, ConnectBody(p));
    ptr := WriteBody(buf, ptr, p);
    len := ptr;
    assert prefix + ConnectBody(p) == ConnectPacketBytes(p);
  }

  method WriteBody(buf: array<byte>, at: nat, p: Params) returns (ptr: nat)
    requires Given(p) && (p.clientId.None? ==> p.clientIdLen == 0) && at + |ConnectBody(p)| <= buf.Length
    modifies buf
    ensures ptr == at + |ConnectBody(p)| && buf[..] == Splice(old(buf[..]), at, ConnectBody(p))
  {
    hide Splice, Utf8String, Uint16, Flags, OptText, VariableHeader;
    ghost var start := buf[..];
    ghost var done := VariableHeader(p);
    ptr := WriteVariableHeader(buf, at, p);
    SpliceThen(start, at, done, Utf8String(ClientId(p)));
    // an absent client identifier is written as the length 0 alone
    ptr := WriteUtf8String(buf, ptr, ClientId(p));
    done := done + Utf8String(ClientId(p));
    SpliceThen(start, at, done, OptText(WillTopic(p)));
    ptr := WriteOptText(buf, ptr, WillTopic(p));
    done := done + OptText(WillTopic(p));
    SpliceThen(start, at, done, OptText(WillMessage(p)));
    ptr := WriteOptText(buf, ptr, WillMessage(p));
    done := done + OptText(WillMessage(p));
    SpliceThen(start, at, done, OptText(p.username));
    ptr := WriteOptText(buf, ptr, p.username);
    done := done + OptText(p.username);
    SpliceThen(start, at, done, OptText(p.password));
    ptr := WriteOptText(buf, ptr, p.password);
  }

  method WriteVariableHeader(buf: array<byte>, at: nat, p: Params) returns (ptr: nat)
    requires p.keepAlive < 65536 && at + 10 <= buf.Length
    modifies buf
    ensures ptr == at + 10 && buf[..] == Splice(old(buf[..]), at, VariableHeader(p))
  {
    hide Splice, Utf8String, Uint16, Flags;
    ghost var start := buf[..];
    ghost var done := Utf8String(MQTT_NAME);
    ptr := WriteUtf8String(buf, at, MQTT_NAME);
    SpliceThen(start, at, done, [p.version]);
    ptr := WriteChar(buf, ptr, p.version);
    done := done + [p.version];
    SpliceThen(start, at, done, [ParamFlags(p)]);
    ptr := WriteChar(buf, ptr, ParamFlags(p));
    done := done + [ParamFlags(p)];
    SpliceThen(start, at, done, Uint16(p.keepAlive));
    ptr := WriteUint16(buf, ptr, p.keepAlive);
  }

  method WriteOptText(buf: array<byte>, at: nat, t: Option<Text>) returns (ptr: nat)
    requires at + |OptText(t)| <= buf.Length
    modifies buf
    ensures ptr == at + |OptText(t)| && buf[..] == Splice(old(buf[..]), at, OptText(t))
  {
    ptr := at;
    if t.Some? { ptr := WriteUtf8String(buf, at, t.value); }
  }

  // ---------------------------------------------------------------- nothing is lost

  /** What a server learns from a CONNECT. */
  datatype Request = Request(version: byte, cleanSession: bool, keepAlive: nat, clientId: Text, will: Option<Will>,
                             username: Option<Text>, password: Option<Text>)

  function ReadOpt(b: seq<byte>, at: nat, present: bool): (r: Option<Text>) {
    if present then ReadText(b, at) else None
  }

  function Width(t: Option<Text>): nat {
    if t.Some? then 2 + |t.value| else 0
  }

  /** A reader after section 3.1: the name MQTT and its length, then the version; the flag byte says which strings follow the client identifier. */
  function ReadConnect(b: seq<byte>): (r: Option<Request>) {
    if |b| < 10 || b[..6] != [0, 4, 77, 81, 84, 84] then None
    else
      var f: nat := b[7];
      var id := ReadText(b, 10);
      if id.None? then None
      else
        var topicAt := 12 + |id.value|;
        var topic := ReadOpt(b, topicAt, f / 4 % 2 == 1);
        var messageAt := topicAt + Width(topic);
        var message := ReadOpt(b, messageAt, f / 4 % 2 == 1);
        var usernameAt := messageAt + Width(message);
        var username := ReadOpt(b, usernameAt, f / 128 % 2 == 1);
        var passwordAt := usernameAt + Width(username);
        var password := ReadOpt(b, passwordAt, f / 64 % 2 == 1);
        var will := if topic.Some? && message.Some?
                    then Some(Will(topic.value, message.value, if f / 8 % 4 == 0 then QOS0 else QOS1, f / 32 % 2 == 1)) else None;
        if passwordAt + Width(password) != |b| then None
        else Some(Request(b[6], f / 2 % 2 == 1, ReadUint16(b[8], b[9]), id.value, will, username, password))
  }

  lemma FlagFields(clean: bool, will: bool, willQos: QoS, willRetain: bool, password: bool, username: bool)
    ensures var f := Flags(clean, will, willQos, willRetain, password, username);
            (f / 2 % 2 == 1 <==> clean) && (f / 4 % 2 == 1 <==> will) && f / 8 % 4 == QosBits(willQos)
            && (f / 32 % 2 == 1 <==> willRetain) && (f / 64 % 2 == 1 <==> password) && (f / 128 % 2 == 1 <==> username)
  {
    var f: nat := Flags(clean, will, willQos, willRetain, password, username);
    SumFields(Bit(clean), Bit(will), QosBits(willQos), Bit(willRetain), Bit(password), Bit(username), f);
  }

  lemma SumFields(a: nat, b: nat, c: nat, d: nat, e: nat, g: nat, f: nat)
    requires a < 2 && b < 2 && c < 4 && d < 2 && e < 2 && g < 2
    requires f == 2 * a + 4 * b + 8 * c + 32 * d + 64 * e + 128 * g
    ensures f / 2 % 2 == a && f / 4 % 2 == b && f / 8 % 4 == c && f / 32 % 2 == d && f / 64 % 2 == e && f / 128 % 2 == g
  {
    assert f / 128 == g;
    assert f / 64 == e + 2 * g;
    assert f / 32 == d + 2 * (e + 2 * g);
    assert f / 8 == c + 4 * (d + 2 * (e + 2 * g));
    assert f / 4 == b + 2 * (c + 4 * (d + 2 * (e + 2 * g)));
    assert f / 2 == a + 2 * (b + 2 * (c + 4 * (d + 2 * (e + 2 * g))));
  }

  lemma OptReadsBack(pre: seq<byte>, t: Option<Text>, rest: seq<byte>)
    ensures ReadOpt(pre + OptText(t) + rest, |pre|, t.Some?) == t
    ensures Width(t) == |OptText(t)|
  {
    hide Utf8String, ReadText;
    if t.Some? { TextReadsBack(pre, t.value, rest); }
  }

  /** Every parameter is read back from the body the serializer emits. */
  lemma ConnectRoundTrip(p: Params)
    requires p.keepAlive < 65536
    ensures ReadConnect(ConnectBody(p))
            == Some(Request(p.version, p.cleanSession, p.keepAlive, ClientId(p), p.will, p.username, p.password))
  {
    hide Utf8String, Uint16, Flags, OptText, ReadText, ReadOpt, VariableHeader, Width, ConnectBody;
    VariableHeaderFields(p);
    StringsReadBack(p);
    var b, h := ConnectBody(p), VariableHeader(p);
    assert b[..6] == b[..10][..6] && b[6] == h[6] && b[7] == h[7] && b[8] == h[8] && b[9] == h[9];
  }

  /** The strings of the body, each at the cursor the reader reaches it with. */
  lemma StringsReadBack(p: Params)
    requires p.keepAlive < 65536
    ensures var b := ConnectBody(p);
            var i := 12 + |ClientId(p)|;
            var j := i + Width(WillTopic(p));
            var k := j + Width(WillMessage(p));
            var l := k + Width(p.username);
            |b| == l + Width(p.password) && b[..10] == VariableHeader(p) && ReadText(b, 10) == Some(ClientId(p))
            && ReadOpt(b, i, p.will.Some?) == WillTopic(p) && ReadOpt(b, j, p.will.Some?) == WillMessage(p)
            && ReadOpt(b, k, p.username.Some?) == p.username && ReadOpt(b, l, p.password.Some?) == p.password
  {
    hide Utf8String, Uint16, Flags, OptText, ReadText, ReadOpt, VariableHeader, Width;
    var h, c, wt, wm, u, w := VariableHeader(p), Utf8String(ClientId(p)), OptText(WillTopic(p)), OptText(WillMessage(p)),
                              OptText(p.username), OptText(p.password);
    Regroup(h, c, wt, wm, u, w);
    TextReadsBack(h, ClientId(p), wt + wm + u + w);
    OptReadsBack(h + c, WillTopic(p), wm + u + w);
    OptReadsBack(h + c + wt, WillMessage(p), u + w);
    OptReadsBack(h + c + wt + wm, p.username, w);
    OptReadsBack(h + c + wt + wm + u, p.password, []);
  }

  /** The body around each of its strings. */
  lemma Regroup(h: seq<byte>, c: seq<byte>, wt: seq<byte>, wm: seq<byte>, u: seq<byte>, w: seq<byte>)
    ensures var b := h + c + wt + wm + u + w;
            b[..|h|] == h && b == h + c + (wt + wm + u + w) && b == (h + c) + wt + (wm + u + w)
            && b == (h + c + wt) + wm + (u + w) && b == (h + c + wt + wm + u) + w + []
  {
  }

  lemma VariableHeaderFields(p: Params)
    requires p.keepAlive < 65536
    ensures var h := VariableHeader(p);
            var f: nat := h[7];
            h[..6] == [0, 4, 77, 81, 84, 84] && h[6] == p.version && ReadUint16(h[8], h[9]) == p.keepAlive
            && (f / 2 % 2 == 1 <==> p.cleanSession) && (f / 4 % 2 == 1 <==> p.will.Some?)
            && (p.will.Some? ==> f / 8 % 4 == QosBits(p.will.value.qos) && (f / 32 % 2 == 1 <==> p.will.value.retained))
            && (f / 64 % 2 == 1 <==> p.password.Some?) && (f / 128 % 2 == 1 <==> p.username.Some?)
  {
    hide Utf8String, Uint16, Flags;
    if p.will.Some? {
      FlagFields(p.cleanSession, true, p.will.value.qos, p.will.value.retained, p.password.Some?, p.username.Some?);
    } else {
      FlagFields(p.cleanSession, false, QOS0, false, p.password.Some?, p.username.Some?);
    }
    assert VariableHeader(p)[..6] == Utf8String(MQTT_NAME);
    ProtocolName();
  }

  lemma ProtocolName()
    ensures Utf8String(MQTT_NAME) == [0, 4, 77, 81, 84, 84]
  {
  }

  /** The whole packet: first byte 0x10. */
  function ReadConnectPacket(s: seq<byte>): (r: Option<Request>) {
    var body := ReadWhole(s, 0x10);
    if body.None? then None else ReadConnect(body.value)
  }

  lemma ConnectPacketRoundTrip(p: Params)
    requires p.keepAlive < 65536
    ensures ReadConnectPacket(ConnectPacketBytes(p))
            == Some(Request(p.version, p.cleanSession, p.keepAlive, ClientId(p), p.will, p.username, p.password))
  {
    hide ReadWhole, Frame, ReadConnect, ConnectBody;
    BodySize(p);
    WholeReadsBack(Header(CONNECT, QOS0, 0, 0), ConnectBody(p), 0x10);
    ConnectRoundTrip(p);
  }

  lemma BodySize(p: Params)
    requires p.keepAlive < 65536
    ensures |ConnectBody(p)| < LIMIT
  {
  }
}
