/** The MQTT client's state machine: compare-and-set states, re-entrant callbacks, keep-alive and reconnect back-off.
    The network, the timers and the application are inputs: finite scripts that say how each foreign call turns out. */
module Client {
  import opened Arithmetic

  datatype ClientState =
    | INVALID | INITIALIZED | CONNECTING | IDLE | YIELDING | PUBLISHING | SUBSCRIBING | UNSUBSCRIBING | RESUBSCRIBING
    | WAIT_FOR_CB_RETURN | DISCONNECTING | DISCONNECTED_ERROR | DISCONNECTED_MANUALLY | PENDING_RECONNECT

  datatype Code =
    | SUCCESS | FAILURE | NULL_VALUE_ERROR | NETWORK_DISCONNECTED_ERROR | NETWORK_ATTEMPTING_RECONNECT
    | NETWORK_RECONNECTED | NETWORK_RECONNECT_TIMED_OUT_ERROR | NETWORK_MANUALLY_DISCONNECTED
    | NETWORK_PHYSICAL_LAYER_CONNECTED | NETWORK_ALREADY_CONNECTED_ERROR | NETWORK_SSL_READ_ERROR
    | NETWORK_SSL_READ_TIMEOUT_ERROR | NETWORK_SSL_WRITE_ERROR | NETWORK_SSL_WRITE_TIMEOUT_ERROR
    | MQTT_CLIENT_NOT_IDLE_ERROR | MQTT_UNEXPECTED_CLIENT_STATE_ERROR | MQTT_REQUEST_TIMEOUT_ERROR
    | MQTT_RX_MESSAGE_PACKET_TYPE_INVALID_ERROR | Other(number: int)

  /** Results of the client's own serializers, parsers and send loop. */
  type LocalCode = c: Code | c != NETWORK_DISCONNECTED_ERROR && c != NETWORK_ATTEMPTING_RECONNECT && c != NETWORK_RECONNECTED
    witness SUCCESS

  predicate Misleading(c: Code) {
    c == NETWORK_DISCONNECTED_ERROR || c == NETWORK_ATTEMPTING_RECONNECT
  }

  datatype AckKind = CONNACK | PUBACK | SUBACK | UNSUBACK | PUBREC | PUBCOMP

  /** How one cycle of reading turns out. `calls` are the client calls made by all callbacks of one delivery, in order. */
  datatype Read =
    | Nothing
    | ReadFails(rc: Code)
    | Ack(kind: AckKind)
    | PingResponse
    | UnknownType
    | Incoming(parsed: LocalCode, calls: seq<Call>, qos0: bool, ackPrepared: LocalCode, ackSent: LocalCode)

  /** How a blocking request turns out: `cycles` are the reads before its timer expires. */
  datatype Op = Op(arguments: bool, prepared: LocalCode, sent: LocalCode, cycles: seq<Read>, ack: LocalCode)

  /** A callback may publish (with or without waiting for the ack), subscribe, unsubscribe, disconnect and yield. */
  datatype Call =
    | PublishCall(op: Op, qos1: bool)
    | SubscribeCall(op: Op)
    | UnsubscribeCall(op: Op)
    | DisconnectCall(result: Code)
    | YieldCall

  /** How a connection attempt and the resubscriptions after it turn out. */
  datatype Attempt = Attempt(transport: Code, op: Op, resubscriptions: seq<Op>)

  /** One iteration of the yield loop: the timers that have expired and the results of what it may call. */
  datatype Step = Step(delayExpired: bool, physical: Code, attempt: Attempt, read: Read,
                       pingExpired: bool, pingPrepared: LocalCode, pingSent: LocalCode, disconnected: Code)

  type Busy = s: ClientState | s in {PUBLISHING, SUBSCRIBING, UNSUBSCRIBING} witness PUBLISHING

  /** A call the application makes from outside any callback. */
  datatype Event =
    | RequestEvent(op: Op, busy: Busy, wanted: AckKind, waits: bool)
    | ConnectEvent(attempt: Attempt)
    | DisconnectEvent(result: Code)
    | YieldEvent(config: Config, steps: seq<Step>)

  /** Settings that may differ from call to call. */
  datatype Config = Config(autoReconnect: bool, keepAliveInterval: nat)

  type Interval = x: nat | 1 <= x < 0x8000_0000 witness 1000

  /** Configured bounds of the reconnect wait interval; doubling stays within 32 bits. */
  const MIN_WAIT: Interval
  const MAX_WAIT: Interval

  predicate IsConnected(s: ClientState) {
    s in {IDLE, YIELDING, PUBLISHING, SUBSCRIBING, UNSUBSCRIBING, RESUBSCRIBING, WAIT_FOR_CB_RETURN}
  }

  predicate ValidForConnect(s: ClientState) {
    s in {INITIALIZED, DISCONNECTED_ERROR, DISCONNECTED_MANUALLY, PENDING_RECONNECT}
  }

  /** Where a yield may leave the client. */
  predicate Settled(s: ClientState) {
    s in {IDLE, PENDING_RECONNECT, DISCONNECTED_ERROR, DISCONNECTED_MANUALLY}
  }

  predicate TransportBroken(c: Code) {
    c in {NETWORK_SSL_READ_ERROR, NETWORK_SSL_READ_TIMEOUT_ERROR, NETWORK_SSL_WRITE_ERROR, NETWORK_SSL_WRITE_TIMEOUT_ERROR}
  }

  // ---------------------------------------------------------------- reading and requesting

  /** What reads and requests may change. `disconnects` counts successful disconnect calls; `misled` records that some read
      returned a code that the client uses for itself. */
  datatype Status = Status(state: ClientState, pingOutstanding: bool, disconnects: nat, misled: bool)

  datatype Outcome = Outcome(s: Status, rc: Code)

  /** aws_iot_mqtt_set_client_state */
  function Set(s: Status, expected: ClientState, next: ClientState): (o: Outcome) {
    if s.state == expected then Outcome(s.(state := next), SUCCESS) else Outcome(s, MQTT_UNEXPECTED_CLIENT_STATE_ERROR)
  }

  /** The end of an operation: its busy state gives way to the entry state, and a failure to do so is reported unless the operation
      itself failed. */
  function Leave(o: Outcome, busy: ClientState, entry: ClientState): (r: Outcome) {
    var b := Set(o.s, busy, entry);
    Outcome(b.s, if o.rc == SUCCESS then b.rc else o.rc)
  }

  /** aws_iot_mqtt_disconnect; `result` is what sending the packet and closing the network returns. */
  function Disconnected(result: Code, s: Status): (o: Outcome) {
    if !IsConnected(s.state) then Outcome(s, NETWORK_DISCONNECTED_ERROR)
    else if result != SUCCESS then Outcome(s, result)
    else Outcome(s.(state := DISCONNECTED_MANUALLY, disconnects := s.disconnects + 1), SUCCESS)
  }

  /** aws_iot_mqtt_internal_cycle_read */
  function Cycled(r: Read, s: Status): (o: Outcome)
    decreases r, 1
  {
    match r
    case Nothing => Outcome(s, SUCCESS)
    case ReadFails(rc) => Outcome(s.(misled := s.misled || Misleading(rc)), rc)
    case Ack(kind) => Outcome(s, SUCCESS)
    case PingResponse => Outcome(s.(pingOutstanding := false), SUCCESS)
    case UnknownType => Outcome(s, MQTT_RX_MESSAGE_PACKET_TYPE_INVALID_ERROR)
    case Incoming(parsed, calls, qos0, ackPrepared, ackSent) =>
      if parsed != SUCCESS then Outcome(s, parsed)
      else
        var d := Set(Called(r, |calls|, s.(state := WAIT_FOR_CB_RETURN)), WAIT_FOR_CB_RETURN, s.state);
        Outcome(d.s, if d.rc != SUCCESS || qos0 then d.rc else if ackPrepared != SUCCESS then ackPrepared else ackSent)
  }

  /** After the first n calls that the callbacks of a delivery make. */
  function Called(r: Read, n: nat, s: Status): (t: Status)
    requires r.Incoming? && n <= |r.calls|
    decreases r, 0, n
  {
    if n == 0 then s else CalledOnce(r.calls[n - 1], Called(r, n - 1, s))
  }

  /** One call from a callback; a yield is refused there. */
  function CalledOnce(c: Call, s: Status): (t: Status)
    decreases c
  {
    match c
    case PublishCall(op, qos1) => Requested(op, PUBLISHING, PUBACK, qos1, s).s
    case SubscribeCall(op) => Requested(op, SUBSCRIBING, SUBACK, true, s).s
    case UnsubscribeCall(op) => Requested(op, UNSUBSCRIBING, UNSUBACK, true, s).s
    case DisconnectCall(result) => Disconnected(result, s).s
    case YieldCall => s
  }

  /** aws_iot_mqtt_internal_wait_for_read from cycle i on: the timer expires after the last cycle. */
  function Awaited(op: Op, wanted: AckKind, i: nat, s: Status): (o: Outcome)
    requires i <= |op.cycles|
    decreases op, 0, |op.cycles| - i
  {
    if i == |op.cycles| then Outcome(s, MQTT_REQUEST_TIMEOUT_ERROR)
    else
      var o := Cycled(op.cycles[i], s);
      if o.rc == NETWORK_DISCONNECTED_ERROR || op.cycles[i] == Ack(wanted) then o else Awaited(op, wanted, i + 1, o.s)
  }

  /** Serialize, send and, if it is to be acknowledged, wait. */
  function Sent(op: Op, wanted: AckKind, waits: bool, s: Status): (o: Outcome)
    decreases op, 1
  {
    if op.prepared != SUCCESS then Outcome(s, op.prepared)
    else if op.sent != SUCCESS then Outcome(s, op.sent)
    else if !waits then Outcome(s, SUCCESS)
    else
      var o := Awaited(op, wanted, 0, s);
      if o.rc == SUCCESS then Outcome(o.s, op.ack) else o
  }

  /** aws_iot_mqtt_publish, aws_iot_mqtt_subscribe and aws_iot_mqtt_unsubscribe. */
  function Requested(op: Op, busy: Busy, wanted: AckKind, waits: bool, s: Status): (o: Outcome)
    decreases op, 2
  {
    if !op.arguments then Outcome(s, NULL_VALUE_ERROR)
    else if !IsConnected(s.state) then Outcome(s, NETWORK_DISCONNECTED_ERROR)
    else if s.state != IDLE && s.state != WAIT_FOR_CB_RETURN then Outcome(s, MQTT_CLIENT_NOT_IDLE_ERROR)
    else Leave(Sent(op, wanted, waits, s.(state := busy)), busy, s.state)
  }

  // ---------------------------------------------------------------- requests restore their entry state

  /** The state is the one before, unless there was a successful disconnect: then it is DISCONNECTED_MANUALLY. */
  ghost predicate Keeps(s: Status, t: Status) {
    t.disconnects >= s.disconnects && (s.misled ==> t.misled) && (t.pingOutstanding ==> s.pingOutstanding)
    && t.state == if t.disconnects > s.disconnects then DISCONNECTED_MANUALLY else s.state
  }

  lemma {:induction false} CycledKeeps(r: Read, s: Status)
    ensures Keeps(s, Cycled(r, s).s) && (Misleading(Cycled(r, s).rc) ==> Cycled(r, s).s.misled)
    decreases r, 1
  {
    if r.Incoming? && r.parsed == SUCCESS {
      CalledKeeps(r, |r.calls|, s.(state := WAIT_FOR_CB_RETURN));
    }
  }

  lemma {:induction false} CalledKeeps(r: Read, n: nat, s: Status)
    requires r.Incoming? && n <= |r.calls|
    ensures Keeps(s, Called(r, n, s))
    decreases r, 0, n
  {
    if n > 0 {
      CalledKeeps(r, n - 1, s);
      CalledOnceKeeps(r.calls[n - 1], Called(r, n - 1, s));
    }
  }

  lemma {:induction false} CalledOnceKeeps(c: Call, s: Status)
    ensures Keeps(s, CalledOnce(c, s))
    decreases c
  {
    match c {
      case PublishCall(op, qos1) => RequestedKeeps(op, PUBLISHING, PUBACK, qos1, s);
      case SubscribeCall(op) => RequestedKeeps(op, SUBSCRIBING, SUBACK, true, s);
      case UnsubscribeCall(op) => RequestedKeeps(op, UNSUBSCRIBING, UNSUBACK, true, s);
      case DisconnectCall(result) =>
      case YieldCall =>
    }
  }

  /** The awaited acknowledgement arrived before the request's timer expired. */
  ghost predicate Answered(op: Op, wanted: AckKind) {
    exists i :: 0 <= i < |op.cycles| && op.cycles[i] == Ack(wanted)
  }

  lemma {:induction false} AwaitedKeeps(op: Op, wanted: AckKind, i: nat, s: Status)
    requires i <= |op.cycles|
    ensures var o := Awaited(op, wanted, i, s);
            Keeps(s, o.s) && (Misleading(o.rc) ==> o.s.misled) && (o.rc == SUCCESS ==> Answered(op, wanted))
    decreases op, 0, |op.cycles| - i
  {
    if i < |op.cycles| {
      CycledKeeps(op.cycles[i], s);
      AwaitedKeeps(op, wanted, i + 1, Cycled(op.cycles[i], s).s);
    }
  }

  lemma {:induction false} SentKeeps(op: Op, wanted: AckKind, waits: bool, s: Status)
    ensures var o := Sent(op, wanted, waits, s);
            Keeps(s, o.s) && (o.rc == SUCCESS ==> op.prepared == op.sent == SUCCESS && (waits ==> Answered(op, wanted) && op.ack == SUCCESS))
    decreases op, 1
  {
    AwaitedKeeps(op, wanted, 0, s);
  }

  /** A request ends in its entry state or, exactly after a successful disconnect in a callback, in DISCONNECTED_MANUALLY.
      Success implies that it was allowed, sent and, if it was to be, acknowledged, and that no callback disconnected. */
  lemma {:induction false} RequestedKeeps(op: Op, busy: Busy, wanted: AckKind, waits: bool, s: Status)
    ensures var o := Requested(op, busy, wanted, waits, s);
            Keeps(s, o.s) && (s.state !in {IDLE, WAIT_FOR_CB_RETURN} ==> o.s == s)
            && (o.rc == SUCCESS ==> s.state in {IDLE, WAIT_FOR_CB_RETURN} && o.s.state == s.state && op.prepared == op.sent == SUCCESS
                                    && (waits ==> Answered(op, wanted) && op.ack == SUCCESS))
    decreases op, 2
  {
    SentKeeps(op, wanted, waits, s.(state := busy));
  }

  // ---------------------------------------------------------------- connecting

  function ResubscribedFrom(ops: seq<Op>, i: nat, s: Status): (o: Outcome)
    requires i <= |ops|
    decreases |ops| - i
  {
    if i == |ops| then Outcome(s, SUCCESS)
    else
      var o := Sent(ops[i], SUBACK, true, s);
      if o.rc != SUCCESS then o else ResubscribedFrom(ops, i + 1, o.s)
  }

  /** aws_iot_mqtt_resubscribe */
  function Resubscribed(ops: seq<Op>, s: Status): (o: Outcome) {
    if !IsConnected(s.state) then Outcome(s, NETWORK_DISCONNECTED_ERROR)
    else if s.state != IDLE then Outcome(s, MQTT_CLIENT_NOT_IDLE_ERROR)
    else Leave(ResubscribedFrom(ops, 0, s.(state := RESUBSCRIBING)), RESUBSCRIBING, IDLE)
  }

  /** aws_iot_mqtt_connect */
  function Connected(a: Attempt, s: Status): (o: Outcome) {
    if !ValidForConnect(s.state) then Outcome(s, NETWORK_ALREADY_CONNECTED_ERROR)
    else
      var s1 := s.(state := CONNECTING);
      var o := if a.transport != SUCCESS then Outcome(s1, a.transport) else Sent(a.op, CONNACK, true, s1);
      if o.rc == SUCCESS then Outcome(Set(o.s.(pingOutstanding := false), CONNECTING, IDLE).s, SUCCESS)
      else Outcome(Set(o.s, CONNECTING, DISCONNECTED_ERROR).s, o.rc)
  }

  /** aws_iot_mqtt_attempt_reconnect */
  function Reattempted(a: Attempt, s: Status): (o: Outcome) {
    if IsConnected(s.state) then Outcome(s, NETWORK_ALREADY_CONNECTED_ERROR)
    else
      var o := Connected(a, s);
      if o.s.state != IDLE then Outcome(Set(o.s, DISCONNECTED_ERROR, PENDING_RECONNECT).s, NETWORK_ATTEMPTING_RECONNECT)
      else
        var r := Resubscribed(a.resubscriptions, o.s);
        if r.rc != SUCCESS then r else Outcome(r.s, NETWORK_RECONNECTED)
  }

  lemma {:induction false} ResubscribedFromKeeps(ops: seq<Op>, i: nat, s: Status)
    requires i <= |ops|
    ensures var o := ResubscribedFrom(ops, i, s);
            Keeps(s, o.s) && (o.rc == SUCCESS ==> forall j :: i <= j < |ops| ==> Answered(ops[j], SUBACK))
    decreases |ops| - i
  {
    hide Sent, Answered;
    if i < |ops| {
      SentKeeps(ops[i], SUBACK, true, s);
      var o := Sent(ops[i], SUBACK, true, s);
      if o.rc == SUCCESS { ResubscribedFromKeeps(ops, i + 1, o.s); }
    }
  }

  lemma ResubscribedKeeps(ops: seq<Op>, s: Status)
    ensures var o := Resubscribed(ops, s);
            Keeps(s, o.s) && (o.rc == SUCCESS ==> s.state == IDLE == o.s.state && forall op <- ops :: Answered(op, SUBACK))
  {
    hide Answered, ResubscribedFrom;
    ResubscribedFromKeeps(ops, 0, s.(state := RESUBSCRIBING));
  }

  /** A connect that is allowed ends idle on success, in DISCONNECTED_ERROR on failure, and in DISCONNECTED_MANUALLY when a callback
      disconnected while the CONNACK was awaited. */
  lemma ConnectedEnds(a: Attempt, s: Status)
    ensures var o := Connected(a, s);
            if !ValidForConnect(s.state) then o == Outcome(s, NETWORK_ALREADY_CONNECTED_ERROR)
            else
              o.s.state == (if o.s.disconnects > s.disconnects then DISCONNECTED_MANUALLY else if o.rc == SUCCESS then IDLE else DISCONNECTED_ERROR)
              && o.s.disconnects >= s.disconnects && (s.misled ==> o.s.misled)
              && (o.rc == SUCCESS ==> !o.s.pingOutstanding && a.transport == SUCCESS && a.op.ack == SUCCESS && Answered(a.op, CONNACK))
  {
    hide Sent, Answered;
    SentKeeps(a.op, CONNACK, true, s.(state := CONNECTING));
  }

  lemma ReattemptedEnds(a: Attempt, s: Status)
    requires ValidForConnect(s.state)
    ensures var o := Reattempted(a, s);
            o.s.state in {IDLE, PENDING_RECONNECT, DISCONNECTED_MANUALLY} && (s.misled ==> o.s.misled)
            && (o.s.state == IDLE ==> a.transport == SUCCESS && Answered(a.op, CONNACK))
            && (o.s.state == PENDING_RECONNECT ==> o.rc == NETWORK_ATTEMPTING_RECONNECT)
  {
    hide Connected, Resubscribed, Answered;
    ConnectedEnds(a, s);
    ResubscribedKeeps(a.resubscriptions, Connected(a, s).s);
  }

  // ---------------------------------------------------------------- yield

  /** _aws_iot_mqtt_handle_disconnect, with a disconnect handler that leaves the client alone. */
  function Lost(result: Code, s: Status): (o: Outcome) {
    Outcome(Disconnected(result, s).s.(state := DISCONNECTED_ERROR), NETWORK_DISCONNECTED_ERROR)
  }

  /** _aws_iot_mqtt_keep_alive */
  function KeptAlive(config: Config, step: Step, s: Status): (o: Outcome) {
    if config.keepAliveInterval == 0 || !step.pingExpired then Outcome(s, SUCCESS)
    else if s.pingOutstanding then Lost(step.disconnected, s)
    else if step.pingPrepared != SUCCESS then Outcome(s, step.pingPrepared)
    else if step.pingSent != SUCCESS then Lost(step.disconnected, s)
    else Outcome(s.(pingOutstanding := true), SUCCESS)
  }

  /** The status together with the back-off: the wait interval, what the delay timer was last started with, the number of losses
      and the delays after which the failed tries since the last loss were made. */
  datatype Link = Link(s: Status, interval: nat, delay: nat, losses: nat, tries: seq<nat>)

  datatype LinkOutcome = LinkOutcome(l: Link, rc: Code, stop: bool)

  /** _aws_iot_mqtt_handle_reconnect */
  function Retried(step: Step, l: Link): (o: LinkOutcome) {
    if !step.delayExpired then LinkOutcome(l, NETWORK_ATTEMPTING_RECONNECT, false)
    else
      var up := step.physical == NETWORK_PHYSICAL_LAYER_CONNECTED;
      var o := if up then Reattempted(step.attempt, l.s) else Outcome(l.s, step.physical);
      if up && o.rc == NETWORK_RECONNECTED then
        var b := Set(o.s, IDLE, YIELDING);
        LinkOutcome(l.(s := b.s), if b.rc == SUCCESS then NETWORK_RECONNECTED else b.rc, false)
      else
        var w := l.interval * 2 % 0x1_0000_0000;
        var l1 := l.(s := o.s, interval := w, tries := l.tries + [l.delay]);
        if w > MAX_WAIT then LinkOutcome(l1, NETWORK_RECONNECT_TIMED_OUT_ERROR, false) else LinkOutcome(l1.(delay := w), o.rc, false)
  }

  /** The part of an iteration that reads a packet and keeps the connection alive. */
  function ReadAndKept(config: Config, step: Step, s: Status): (o: Outcome) {
    var o := Cycled(step.read, s);
    if o.rc == SUCCESS then KeptAlive(config, step, o.s)
    else if TransportBroken(o.rc) then Lost(step.disconnected, o.s)
    else o
  }

  /** What follows: a lost connection starts the back-off if automatic reconnection is on, any other error ends the loop. */
  function Noticed(config: Config, l: Link, rc: Code): (o: LinkOutcome) {
    if rc != NETWORK_DISCONNECTED_ERROR then LinkOutcome(l, rc, rc != SUCCESS)
    else
      var l1 := l.(losses := l.losses + 1);
      var b := Set(l.s, DISCONNECTED_ERROR, PENDING_RECONNECT);
      if !config.autoReconnect then LinkOutcome(l1, rc, true)
      else if b.rc != SUCCESS then LinkOutcome(l1, b.rc, true)
      else LinkOutcome(Link(b.s, MIN_WAIT, MIN_WAIT, l1.losses, []), NETWORK_ATTEMPTING_RECONNECT, false)
  }

  function Iterated(config: Config, step: Step, l: Link): (o: LinkOutcome) {
    if l.s.state == PENDING_RECONNECT then
      if l.interval > MAX_WAIT then LinkOutcome(l, NETWORK_RECONNECT_TIMED_OUT_ERROR, true) else Retried(step, l)
    else
      var o := ReadAndKept(config, step, l.s);
      Noticed(config, l.(s := o.s), o.rc)
  }

  /** _aws_iot_mqtt_internal_yield from step i on, the yield timer expiring after the last step. */
  function Looped(config: Config, steps: seq<Step>, i: nat, l: Link): (o: LinkOutcome)
    requires i < |steps|
    decreases |steps| - i
  {
    var o := Iterated(config, steps[i], l);
    if o.stop || i + 1 == |steps| then o else Looped(config, steps, i + 1, o.l)
  }

  /** The checks of yield; SUCCESS means that it goes on. */
  function Admitted(state: ClientState): (rc: Code) {
    if state == DISCONNECTED_MANUALLY then NETWORK_MANUALLY_DISCONNECTED
    else if state == PENDING_RECONNECT then SUCCESS
    else if !IsConnected(state) then NETWORK_DISCONNECTED_ERROR
    else if state != IDLE then MQTT_CLIENT_NOT_IDLE_ERROR
    else SUCCESS
  }

  /** aws_iot_mqtt_yield; no steps stands for the timeout 0. */
  function Yielded(config: Config, steps: seq<Step>, l: Link): (o: LinkOutcome) {
    if |steps| == 0 then LinkOutcome(l, NULL_VALUE_ERROR, true)
    else if Admitted(l.s.state) != SUCCESS then LinkOutcome(l, Admitted(l.s.state), true)
    else
      var o := Looped(config, steps, 0, l.(s := Set(l.s, IDLE, YIELDING).s));
      if Misleading(o.rc) then o
      else
        var b := Leave(Outcome(o.l.s, o.rc), YIELDING, IDLE);
        LinkOutcome(o.l.(s := b.s), b.rc, true)
  }

  /** The waits of the failed tries since the last loss: MIN, 2*MIN, 4*MIN, and none above MAX. */
  ghost predicate Doubling(waits: seq<nat>) {
    forall k :: 0 <= k < |waits| ==> waits[k] == MIN_WAIT * Pow(2, k) && waits[k] <= MAX_WAIT
  }

  lemma NextWait(waits: seq<nat>, w: nat)
    requires Doubling(waits) && w == MIN_WAIT * Pow(2, |waits|) && w <= MAX_WAIT
    ensures Doubling(waits + [w]) && w * 2 % 0x1_0000_0000 == MIN_WAIT * Pow(2, |waits + [w]|) == w * 2
  {
    PowStep(2, |waits|);
    MulTwice(MIN_WAIT, Pow(2, |waits|));
  }

  lemma MulTwice(m: nat, p: nat)
    ensures m * (2 * p) == m * p * 2
  {
  }

  /** The floor of the base-2 logarithm. */
  function Log2(n: nat): (l: nat)
    requires n >= 1
    ensures Pow(2, l) <= n < Pow(2, l + 1)
  {
    if n == 1 then 0 else 1 + Log2(n / 2)
  }

  /** At most floor(log2(MAX/MIN)) + 1 tries fail, and the interval has passed the maximum exactly when that many have. */
  lemma TriesBounded(waits: seq<nat>)
    requires Doubling(waits)
    ensures MIN_WAIT > MAX_WAIT ==> |waits| == 0
    ensures MIN_WAIT <= MAX_WAIT ==>
              var limit := Log2(MAX_WAIT / MIN_WAIT) + 1;
              |waits| <= limit && (MIN_WAIT * Pow(2, |waits|) > MAX_WAIT <==> |waits| == limit)
  {
    hide Pow, Log2;
    if |waits| > 0 { LastWait(waits); }
    hide Doubling;
    if MIN_WAIT <= MAX_WAIT {
      if |waits| > 0 { WithinLog(MIN_WAIT, MAX_WAIT, |waits| - 1); }
      WithinLog(MIN_WAIT, MAX_WAIT, |waits|);
    }
  }

  lemma LastWait(waits: seq<nat>)
    requires Doubling(waits) && |waits| > 0
    ensures MIN_WAIT * Pow(2, |waits| - 1) <= MAX_WAIT && MIN_WAIT <= MAX_WAIT
  {
    hide Pow;
    PowZero(2);
    assert waits[|waits| - 1] <= MAX_WAIT;
    assert waits[0] == MIN_WAIT * 1;
  }

  lemma WithinLog(m: nat, x: nat, n: nat)
    requires 1 <= m <= x
    ensures m * Pow(2, n) <= x <==> n <= Log2(x / m)
  {
    hide Pow, Log2;
    var l := Log2(x / m);
    QuotientBound(m, Pow(2, n), x);
    if n <= l { PowMonotone(2, n, l); } else { PowMonotone(2, l + 1, n); }
  }

  lemma QuotientBound(m: nat, p: nat, x: nat)
    requires m > 0
    ensures m * p <= x <==> p <= x / m
  {
    var q, r := x / m, x % m;
    assert x == m * q + r;
    if p <= q {
      assert m * p <= m * q by { MulMonotone(p, q, m); }
    } else {
      assert m * (q + 1) <= m * p by { MulMonotone(q + 1, p, m); }
      assert m * (q + 1) == m * q + m;
    }
  }

  /** In PENDING_RECONNECT the interval and the delay are those that follow the failed tries. */
  ghost predicate BackingOff(l: Link) {
    l.s.state == PENDING_RECONNECT ==>
      Doubling(l.tries) && l.interval == MIN_WAIT * Pow(2, |l.tries|) && (l.interval <= MAX_WAIT ==> l.delay == l.interval)
  }

  predicate Exhausted(l: Link) {
    l.s.state == PENDING_RECONNECT && l.interval > MAX_WAIT
  }

  /** A try is made exactly when the delay has passed; a failed one is recorded with its delay and doubles the interval. */
  lemma RetriedKeeps(step: Step, l: Link)
    requires l.s.state == PENDING_RECONNECT && BackingOff(l) && l.interval <= MAX_WAIT
    ensures var o := Retried(step, l);
            o.l.s.state in {YIELDING, IDLE, PENDING_RECONNECT, DISCONNECTED_MANUALLY} && BackingOff(o.l) && (l.s.misled ==> o.l.s.misled)
            && (!step.delayExpired ==> o.l == l)
            && (step.delayExpired && o.l.s.state == PENDING_RECONNECT ==> o.l.tries == l.tries + [l.interval] && o.l.interval == 2 * l.interval)
            && (o.l.s.state in {YIELDING, IDLE} ==> step.attempt.transport == SUCCESS && Answered(step.attempt.op, CONNACK))
            && (o.l.s.state == YIELDING ==> o.rc == NETWORK_RECONNECTED && o.l.tries == l.tries)
            && (Exhausted(o.l) ==> o.rc == NETWORK_RECONNECT_TIMED_OUT_ERROR)
  {
    hide Pow, Doubling, Reattempted, Answered;
    ReattemptedEnds(step.attempt, l.s);
    NextWait(l.tries, l.interval);
  }

  /** Without the delay having passed nothing happens; after a failed try the timer is started with the new interval, if that is
      still allowed, and else the time-out is reported. */
  lemma RetriedDelay(step: Step, l: Link)
    ensures var o := Retried(step, l);
            (!step.delayExpired ==> o.l == l && o.rc == NETWORK_ATTEMPTING_RECONNECT)
            && (o.l.tries != l.tries ==> if o.l.interval > MAX_WAIT then o.rc == NETWORK_RECONNECT_TIMED_OUT_ERROR
                                         else o.l.delay == o.l.interval)
  {
    hide Reattempted;
  }

  /** A broken transport and an unanswered ping are always noticed, and nothing else ends in DISCONNECTED_ERROR. */
  lemma LossNoticed(config: Config, step: Step, s: Status)
    requires s.state in {YIELDING, IDLE, DISCONNECTED_MANUALLY}
    ensures var o := ReadAndKept(config, step, s);
            o.s.state in {s.state, DISCONNECTED_MANUALLY, DISCONNECTED_ERROR} && (s.misled ==> o.s.misled)
            && (o.s.state == DISCONNECTED_ERROR ==> o.rc == NETWORK_DISCONNECTED_ERROR)
            && (o.s.state != DISCONNECTED_ERROR && Misleading(o.rc) ==> o.s.misled)
            && (o.s.state == DISCONNECTED_ERROR <==>
                  TransportBroken(Cycled(step.read, s).rc)
                  || (Cycled(step.read, s).rc == SUCCESS && config.keepAliveInterval != 0 && step.pingExpired
                      && (Cycled(step.read, s).s.pingOutstanding || (step.pingPrepared == SUCCESS && step.pingSent != SUCCESS))))
  {
    hide Cycled;
    CycledKeeps(step.read, s);
  }

  /** Where one iteration may lead. */
  lemma IteratedKeeps(config: Config, step: Step, l: Link)
    requires l.s.state in {YIELDING, IDLE, DISCONNECTED_MANUALLY, PENDING_RECONNECT} && BackingOff(l)
    ensures var o := Iterated(config, step, l);
            BackingOff(o.l) && (l.s.misled ==> o.l.s.misled)
            && o.l.s.state in {YIELDING, IDLE, DISCONNECTED_MANUALLY, PENDING_RECONNECT, DISCONNECTED_ERROR}
            && (o.l.s.state == DISCONNECTED_ERROR ==> o.stop && !config.autoReconnect && o.rc == NETWORK_DISCONNECTED_ERROR)
            && (l.s.state != PENDING_RECONNECT && o.l.s.state == PENDING_RECONNECT ==>
                  config.autoReconnect && o.l.tries == [] && o.l.losses == l.losses + 1 && o.rc == NETWORK_ATTEMPTING_RECONNECT)
            && (o.l.s.state == YIELDING && Misleading(o.rc) ==> o.l.s.misled && (o.rc == NETWORK_DISCONNECTED_ERROR ==> !config.autoReconnect))
            && (Exhausted(l) ==> o.stop && o.l == l && o.rc == NETWORK_RECONNECT_TIMED_OUT_ERROR)
            && (Exhausted(o.l) && MIN_WAIT <= MAX_WAIT ==> o.rc == NETWORK_RECONNECT_TIMED_OUT_ERROR)
  {
    hide Pow, Retried, ReadAndKept;
    PowZero(2);
    if l.s.state == PENDING_RECONNECT {
      if l.interval <= MAX_WAIT { RetriedKeeps(step, l); }
    } else {
      LossNoticed(config, step, l.s);
    }
  }

  lemma {:induction false} LoopedKeeps(config: Config, steps: seq<Step>, i: nat, l: Link)
    requires i < |steps| && l.s.state in {YIELDING, IDLE, DISCONNECTED_MANUALLY, PENDING_RECONNECT} && BackingOff(l)
    ensures var o := Looped(config, steps, i, l);
            BackingOff(o.l) && (l.s.misled ==> o.l.s.misled) && (o.l.s.state == YIELDING || Settled(o.l.s.state))
            && (o.l.s.state == DISCONNECTED_ERROR ==> !config.autoReconnect && o.rc == NETWORK_DISCONNECTED_ERROR)
            && (l.s.state != PENDING_RECONNECT && o.l.s.state == PENDING_RECONNECT ==> config.autoReconnect)
            && (o.l.s.state == YIELDING && Misleading(o.rc) ==> o.l.s.misled && (o.rc == NETWORK_DISCONNECTED_ERROR ==> !config.autoReconnect))
            && (Exhausted(l) ==> o.l == l && o.rc == NETWORK_RECONNECT_TIMED_OUT_ERROR)
            && (Exhausted(o.l) && MIN_WAIT <= MAX_WAIT ==> o.rc == NETWORK_RECONNECT_TIMED_OUT_ERROR)
    decreases |steps| - i
  {
    hide Iterated, BackingOff;
    IteratedKeeps(config, steps[i], l);
    var o := Iterated(config, steps[i], l);
    if !o.stop && i + 1 < |steps| { LoopedKeeps(config, steps, i + 1, o.l); }
  }

  /** Between calls from outside any callback. */
  ghost predicate Between(l: Link) {
    (Settled(l.s.state) || l.s.state == INITIALIZED || (l.s.state == YIELDING && l.s.misled)) && BackingOff(l)
  }

  /** A yield that passes its checks ends idle, pending, in error or manually disconnected, unless a read returned one of the codes
      that the client uses for itself. Once the interval has passed the maximum it changes nothing and reports the time-out. */
  lemma YieldedEnds(config: Config, steps: seq<Step>, l: Link)
    requires Between(l)
    ensures var o := Yielded(config, steps, l);
            Between(o.l) && (l.s.misled ==> o.l.s.misled)
            && (|steps| == 0 || l.s.state !in {IDLE, PENDING_RECONNECT} ==> o.l == l)
            && (|steps| > 0 && l.s.state in {IDLE, PENDING_RECONNECT} ==>
                  Settled(o.l.s.state) || (o.l.s.state == YIELDING && o.l.s.misled && Misleading(o.rc)))
            && (l.s.state == IDLE && o.l.s.state == PENDING_RECONNECT ==> config.autoReconnect)
            && (l.s.state != DISCONNECTED_ERROR == o.l.s.state ==> !config.autoReconnect && o.rc == NETWORK_DISCONNECTED_ERROR)
            && (Exhausted(l) && |steps| > 0 ==> o.l == l && o.rc == NETWORK_RECONNECT_TIMED_OUT_ERROR)
            && (Exhausted(o.l) && |steps| > 0 && MIN_WAIT <= MAX_WAIT ==> o.rc == NETWORK_RECONNECT_TIMED_OUT_ERROR)
  {
    hide Looped, Pow, Doubling;
    if |steps| > 0 && l.s.state in {IDLE, PENDING_RECONNECT} {
      LoopedKeeps(config, steps, 0, l.(s := Set(l.s, IDLE, YIELDING).s));
    }
  }

  /** The last step that a yield executes, and the client before it. */
  function LastIteration(config: Config, steps: seq<Step>, i: nat, l: Link): (r: (Step, Link))
    requires i < |steps|
    decreases |steps| - i
  {
    var o := Iterated(config, steps[i], l);
    if o.stop || i + 1 == |steps| then (steps[i], l) else LastIteration(config, steps, i + 1, o.l)
  }

  lemma {:induction false} LoopedLast(config: Config, steps: seq<Step>, i: nat, l: Link)
    requires i < |steps| && l.s.state in {YIELDING, IDLE, DISCONNECTED_MANUALLY, PENDING_RECONNECT} && BackingOff(l)
    ensures var (step, m) := LastIteration(config, steps, i, l);
            Looped(config, steps, i, l) == Iterated(config, step, m)
            && m.s.state in {YIELDING, IDLE, DISCONNECTED_MANUALLY, PENDING_RECONNECT}
    decreases |steps| - i
  {
    hide Iterated, BackingOff;
    IteratedKeeps(config, steps[i], l);
    var o := Iterated(config, steps[i], l);
    if !o.stop && i + 1 < |steps| { LoopedLast(config, steps, i + 1, o.l); }
  }

  /** The read returns a code on which the yield gives up without putting the client back to idle. */
  predicate Misleads(config: Config, step: Step) {
    step.read == ReadFails(NETWORK_ATTEMPTING_RECONNECT)
    || (step.read == ReadFails(NETWORK_DISCONNECTED_ERROR) && !config.autoReconnect)
  }

  lemma IteratedStuck(config: Config, step: Step, m: Link)
    requires m.s.state in {YIELDING, IDLE, DISCONNECTED_MANUALLY, PENDING_RECONNECT}
    ensures var o := Iterated(config, step, m);
            o.l.s.state == YIELDING && Misleading(o.rc) <==> m.s.state == YIELDING && Misleads(config, step)
  {
    if m.s.state == PENDING_RECONNECT {
      hide Reattempted;
      ReattemptedEnds(step.attempt, m.s);
    } else {
      ReadStuck(config, step, m.s);
      hide ReadAndKept;
    }
  }

  /** What reading and keeping alive leave of a yield in progress. */
  lemma ReadStuck(config: Config, step: Step, s: Status)
    requires s.state in {YIELDING, IDLE, DISCONNECTED_MANUALLY}
    ensures var o := ReadAndKept(config, step, s);
            (o.s.state == YIELDING ==> s.state == YIELDING)
            && (o.s.state == YIELDING && Misleading(o.rc) <==> s.state == YIELDING && step.read.ReadFails? && Misleading(step.read.rc))
            && (step.read.ReadFails? && Misleading(step.read.rc) ==> o.rc == step.read.rc)
            && (o.s.state == YIELDING && Misleading(o.rc) ==> o.rc == step.read.rc)
  {
    CycledKeeps(step.read, s);
    OwnCodes(step.read, s);
    if step.read.ReadFails? { FailedRead(step.read, s); }
    hide Cycled;
  }

  lemma FailedRead(r: Read, s: Status)
    requires r.ReadFails?
    ensures Cycled(r, s).rc == r.rc && Cycled(r, s).s.state == s.state
  {
  }

  /** A yield of any length is left in progress exactly when the last step it executes finds it in progress and reads
      NETWORK_ATTEMPTING_RECONNECT, or NETWORK_DISCONNECTED_ERROR without automatic reconnection. */
  lemma StuckExactly(config: Config, steps: seq<Step>, l: Link)
    requires Between(l) && |steps| > 0 && l.s.state in {IDLE, PENDING_RECONNECT}
    ensures var (step, m) := LastIteration(config, steps, 0, l.(s := Set(l.s, IDLE, YIELDING).s));
            Yielded(config, steps, l).l.s.state == YIELDING <==> m.s.state == YIELDING && Misleads(config, step)
  {
    hide Looped, LastIteration, Misleads, Iterated, Doubling, Pow;
    var l1 := l.(s := Set(l.s, IDLE, YIELDING).s);
    LoopedLast(config, steps, 0, l1);
    var (step, m) := LastIteration(config, steps, 0, l1);
    IteratedStuck(config, step, m);
  }

  /** Only a failing read can make a cycle return one of the two codes. */
  lemma OwnCodes(r: Read, s: Status)
    ensures Misleading(Cycled(r, s).rc) ==> r.ReadFails?
  {
  }

  // ---------------------------------------------------------------- runs

  function Happened(e: Event, l: Link): (l': Link) {
    match e
    case RequestEvent(op, busy, wanted, waits) => l.(s := Requested(op, busy, wanted, waits, l.s).s)
    case ConnectEvent(attempt) => l.(s := Connected(attempt, l.s).s)
    case DisconnectEvent(result) => l.(s := Disconnected(result, l.s).s)
    case YieldEvent(config, steps) => Yielded(config, steps, l).l
  }

  lemma HappenedKeeps(e: Event, l: Link)
    requires Between(l)
    ensures var l' := Happened(e, l);
            Between(l') && (l.s.misled ==> l'.s.misled) && (e.YieldEvent? && Exhausted(l) ==> l' == l)
  {
    hide Requested, Connected, Yielded, Pow, Doubling;
    match e {
      case RequestEvent(op, busy, wanted, waits) => RequestedKeeps(op, busy, wanted, waits, l.s);
      case ConnectEvent(attempt) => ConnectedEnds(attempt, l.s);
      case DisconnectEvent(result) =>
      case YieldEvent(config, steps) => YieldedEnds(config, steps, l);
    }
  }

  /** A single-threaded run from initialization. */
  ghost predicate Execution(ls: seq<Link>, es: seq<Event>) {
    |ls| == |es| + 1 && ls[0].s.state == INITIALIZED && forall n :: 0 <= n < |es| ==> ls[n + 1] == Happened(es[n], ls[n])
  }

  lemma {:induction false} RunKeeps(ls: seq<Link>, es: seq<Event>, n: nat)
    requires Execution(ls, es) && n < |ls|
    ensures Between(ls[n])
  {
    hide Between, Happened;
    if n == 0 {
      StartsBetween(ls[0]);
    } else {
      RunKeeps(ls, es, n - 1);
      HappenedKeeps(es[n - 1], ls[n - 1]);
    }
  }

  lemma StartsBetween(l: Link)
    requires l.s.state == INITIALIZED
    ensures Between(l)
  {
  }

  /** Over every run: without misleading transport codes the client is always initialized or settled between calls. */
  lemma RunSettled(ls: seq<Link>, es: seq<Event>, n: nat)
    requires Execution(ls, es) && n < |ls| && !ls[n].s.misled
    ensures Settled(ls[n].s.state) || ls[n].s.state == INITIALIZED
  {
    RunKeeps(ls, es, n);
  }

  /** Over every run: while reconnection is pending, the failed tries since the loss were made after delays of MIN, 2*MIN, 4*MIN, ...
      none above MAX, there are at most floor(log2(MAX/MIN)) + 1 of them, and the client has given up exactly when there are that many. */
  lemma RunBacksOff(ls: seq<Link>, es: seq<Event>, n: nat)
    requires Execution(ls, es) && n < |ls| && ls[n].s.state == PENDING_RECONNECT && MIN_WAIT <= MAX_WAIT
    ensures var limit := Log2(MAX_WAIT / MIN_WAIT) + 1;
            Doubling(ls[n].tries) && |ls[n].tries| <= limit && (Exhausted(ls[n]) <==> |ls[n].tries| == limit)
  {
    hide Execution, Log2;
    RunKeeps(ls, es, n);
    TriesBounded(ls[n].tries);
  }

  /** Having given up, the client makes no further try in any number of yields. */
  lemma {:induction false} GivenUp(ls: seq<Link>, es: seq<Event>, m: nat, n: nat)
    requires Execution(ls, es) && m <= n < |ls| && Exhausted(ls[m]) && forall k :: m <= k < n ==> es[k].YieldEvent?
    ensures ls[n] == ls[m]
    decreases n
  {
    hide Happened, Exhausted;
    if m < n {
      GivenUp(ls, es, m, n - 1);
      RunKeeps(ls, es, n - 1);
      HappenedKeeps(es[n - 1], ls[n - 1]);
    }
  }
}
