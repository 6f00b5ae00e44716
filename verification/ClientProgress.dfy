/** What the client is sure to do: exactly when requests, connects and reconnects succeed, and exactly when keep-alive declares a loss. */
module ClientProgress {
  import opened Client

  // ---------------------------------------------------------------- the result of one read

  /** The code of a read, given whether a callback disconnected during its delivery. */
  function ReadCode(r: Read, disconnected: bool): Code {
    match r
    case Nothing => SUCCESS
    case Ack(_) => SUCCESS
    case PingResponse => SUCCESS
    case ReadFails(rc) => rc
    case UnknownType => MQTT_RX_MESSAGE_PACKET_TYPE_INVALID_ERROR
    case Incoming(parsed, _, qos0, ackPrepared, ackSent) =>
      if parsed != SUCCESS then parsed
      else if disconnected then MQTT_UNEXPECTED_CLIENT_STATE_ERROR
      else if qos0 then SUCCESS
      else if ackPrepared != SUCCESS then ackPrepared
      else ackSent
  }

  /** After a delivery the state is found changed exactly when a callback disconnected, however deeply callbacks were nested. */
  lemma CycledCode(r: Read, s: Status)
    ensures Cycled(r, s).rc == ReadCode(r, Cycled(r, s).s.disconnects > s.disconnects)
  {
    if r.Incoming? && r.parsed == SUCCESS {
      CalledKeeps(r, |r.calls|, s.(state := WAIT_FOR_CB_RETURN));
      hide Called;
    }
  }

  // ---------------------------------------------------------------- requests

  predicate Cut(r: Read) {
    r == ReadFails(NETWORK_DISCONNECTED_ERROR)
  }

  /** The acknowledgement comes at some cycle, and no cycle before it reports the connection as lost. */
  ghost predicate Arrives(op: Op, wanted: AckKind, from: nat) {
    exists k :: from <= k < |op.cycles| && ArrivesAt(op, wanted, from, k)
  }

  predicate ArrivesAt(op: Op, wanted: AckKind, from: nat, k: nat)
    requires k < |op.cycles|
  {
    op.cycles[k] == Ack(wanted) && forall j :: from <= j < k ==> !Cut(op.cycles[j])
  }

  ghost predicate CutFrom(op: Op, from: nat) {
    exists k :: from <= k < |op.cycles| && Cut(op.cycles[k])
  }

  lemma ArrivesStep(op: Op, wanted: AckKind, i: nat)
    requires i < |op.cycles|
    ensures Arrives(op, wanted, i) <==> op.cycles[i] == Ack(wanted) || (!Cut(op.cycles[i]) && Arrives(op, wanted, i + 1))
  {
    if op.cycles[i] == Ack(wanted) {
      assert ArrivesAt(op, wanted, i, i);
    } else {
      var i1 := i + 1;
      forall k | i1 <= k < |op.cycles|
        ensures ArrivesAt(op, wanted, i, k) <==> !Cut(op.cycles[i]) && ArrivesAt(op, wanted, i1, k) {
      }
    }
  }

  /** Waiting succeeds exactly when the acknowledgement arrives; otherwise it reports a lost connection exactly when some cycle does,
      and the time-out in all other cases. */
  lemma {:induction false} AwaitedExactly(op: Op, wanted: AckKind, i: nat, s: Status)
    requires i <= |op.cycles|
    ensures Awaited(op, wanted, i, s).rc
            == if Arrives(op, wanted, i) then SUCCESS else if CutFrom(op, i) then NETWORK_DISCONNECTED_ERROR else MQTT_REQUEST_TIMEOUT_ERROR
    decreases |op.cycles| - i
  {
    hide Cycled;
    if i < |op.cycles| {
      hide Arrives;
      ArrivesStep(op, wanted, i);
      CycledCode(op.cycles[i], s);
      AwaitedExactly(op, wanted, i + 1, Cycled(op.cycles[i], s).s);
    }
  }

  /** The request is made up, sent and, if it is to be, acknowledged in time. */
  ghost predicate GoesThrough(op: Op, wanted: AckKind, waits: bool) {
    op.prepared == op.sent == SUCCESS && (waits ==> Arrives(op, wanted, 0) && op.ack == SUCCESS)
  }

  lemma SentExactly(op: Op, wanted: AckKind, waits: bool, s: Status)
    ensures Sent(op, wanted, waits, s).rc == SUCCESS <==> GoesThrough(op, wanted, waits)
  {
    hide Awaited;
    AwaitedExactly(op, wanted, 0, s);
  }

  /** A publish, subscribe or unsubscribe succeeds exactly when it has its arguments, is made while the client is idle or from a
      callback, goes through, and no callback disconnects meanwhile. */
  lemma RequestedExactly(op: Op, busy: Busy, wanted: AckKind, waits: bool, s: Status)
    ensures var o := Requested(op, busy, wanted, waits, s);
            o.rc == SUCCESS <==> op.arguments && s.state in {IDLE, WAIT_FOR_CB_RETURN} && GoesThrough(op, wanted, waits)
                                 && o.s.disconnects == s.disconnects
  {
    hide Sent, GoesThrough;
    SentExactly(op, wanted, waits, s.(state := busy));
    SentKeeps(op, wanted, waits, s.(state := busy));
  }

  /** Why a request is refused. */
  lemma RequestRefused(op: Op, busy: Busy, wanted: AckKind, waits: bool, s: Status)
    ensures var rc := Requested(op, busy, wanted, waits, s).rc;
            (!op.arguments ==> rc == NULL_VALUE_ERROR)
            && (op.arguments && !IsConnected(s.state) ==> rc == NETWORK_DISCONNECTED_ERROR)
            && (op.arguments && IsConnected(s.state) && s.state !in {IDLE, WAIT_FOR_CB_RETURN} ==> rc == MQTT_CLIENT_NOT_IDLE_ERROR)
  {
    hide Sent;
  }

  /** Once a callback has disconnected, the calls that follow in the same delivery change nothing. */
  lemma {:induction false} DisconnectSilences(r: Read, i: nat, n: nat, s: Status)
    requires r.Incoming? && i < n <= |r.calls| && r.calls[i] == DisconnectCall(SUCCESS) && s.state in {WAIT_FOR_CB_RETURN, DISCONNECTED_MANUALLY}
    ensures Called(r, n, s) == Called(r, i + 1, s) && Called(r, n, s).state == DISCONNECTED_MANUALLY
    decreases n
  {
    if n == i + 1 {
      CalledKeeps(r, i, s);
      assert Called(r, n, s) == CalledOnce(r.calls[i], Called(r, i, s));
    } else {
      DisconnectSilences(r, i, n - 1, s);
      RefusedAfter(r.calls[n - 1], Called(r, n - 1, s));
      assert Called(r, n, s) == CalledOnce(r.calls[n - 1], Called(r, n - 1, s));
    }
  }

  lemma RefusedAfter(c: Call, s: Status)
    requires s.state == DISCONNECTED_MANUALLY
    ensures CalledOnce(c, s) == s
  {
  }

  /** Why a yield is refused between calls. */
  lemma YieldRefused(config: Config, steps: seq<Step>, l: Link)
    ensures var rc := Yielded(config, steps, l).rc;
            |steps| > 0 ==>
              (l.s.state == DISCONNECTED_MANUALLY ==> rc == NETWORK_MANUALLY_DISCONNECTED)
              && (l.s.state in {INITIALIZED, DISCONNECTED_ERROR} ==> rc == NETWORK_DISCONNECTED_ERROR)
              && (l.s.state == YIELDING ==> rc == MQTT_CLIENT_NOT_IDLE_ERROR)
  {
    hide Looped;
  }

  // ---------------------------------------------------------------- connecting

  lemma ConnectedExactly(a: Attempt, s: Status)
    requires ValidForConnect(s.state)
    ensures var o := Connected(a, s);
            (o.rc == SUCCESS <==> a.transport == SUCCESS && GoesThrough(a.op, CONNACK, true))
            && (o.s.state == IDLE <==> o.rc == SUCCESS && o.s.disconnects == s.disconnects)
  {
    hide Sent, GoesThrough;
    SentExactly(a.op, CONNACK, true, s.(state := CONNECTING));
    SentKeeps(a.op, CONNACK, true, s.(state := CONNECTING));
  }

  ghost predicate AllGoThrough(ops: seq<Op>, i: nat) {
    forall j :: i <= j < |ops| ==> GoesThrough(ops[j], SUBACK, true)
  }

  lemma {:induction false} ResubscribedFromExactly(ops: seq<Op>, i: nat, s: Status)
    requires i <= |ops|
    ensures ResubscribedFrom(ops, i, s).rc == SUCCESS <==> AllGoThrough(ops, i)
    decreases |ops| - i
  {
    hide Sent, GoesThrough;
    if i < |ops| {
      SentExactly(ops[i], SUBACK, true, s);
      ResubscribedFromExactly(ops, i + 1, Sent(ops[i], SUBACK, true, s).s);
    }
  }

  /** Codes that only the client itself gives. */
  lemma SentCodes(op: Op, wanted: AckKind, waits: bool, s: Status)
    ensures Sent(op, wanted, waits, s).rc != NETWORK_RECONNECTED
  {
    hide Awaited;
    AwaitedCodes(op, wanted, 0, s);
  }

  lemma {:induction false} AwaitedCodes(op: Op, wanted: AckKind, i: nat, s: Status)
    requires i <= |op.cycles|
    ensures Awaited(op, wanted, i, s).rc in {SUCCESS, NETWORK_DISCONNECTED_ERROR, MQTT_REQUEST_TIMEOUT_ERROR}
    decreases |op.cycles| - i
  {
    if i < |op.cycles| {
      CycledCode(op.cycles[i], s);
      hide Cycled;
      AwaitedCodes(op, wanted, i + 1, Cycled(op.cycles[i], s).s);
    }
  }

  lemma {:induction false} ResubscribedCodes(ops: seq<Op>, i: nat, s: Status)
    requires i <= |ops|
    ensures ResubscribedFrom(ops, i, s).rc != NETWORK_RECONNECTED
    decreases |ops| - i
  {
    hide Sent;
    if i < |ops| {
      SentCodes(ops[i], SUBACK, true, s);
      ResubscribedCodes(ops, i + 1, Sent(ops[i], SUBACK, true, s).s);
    }
  }

  /** The transport comes up, CONNECT is acknowledged and every subscription is renewed. */
  ghost predicate Restores(a: Attempt) {
    a.transport == SUCCESS && GoesThrough(a.op, CONNACK, true) && AllGoThrough(a.resubscriptions, 0)
  }

  /** A reconnect succeeds exactly when the attempt restores the connection and no callback disconnects meanwhile. */
  lemma ReattemptedExactly(a: Attempt, s: Status)
    requires ValidForConnect(s.state)
    ensures var o := Reattempted(a, s);
            (o.rc == NETWORK_RECONNECTED <==> Restores(a) && o.s.disconnects == s.disconnects)
            && (o.rc == NETWORK_RECONNECTED ==> o.s.state == IDLE)
  {
    hide Connected, ResubscribedFrom, GoesThrough, AllGoThrough;
    ConnectedExactly(a, s);
    ConnectedEnds(a, s);
    var s1 := Connected(a, s).s;
    ResubscribedFromExactly(a.resubscriptions, 0, s1.(state := RESUBSCRIBING));
    ResubscribedFromKeeps(a.resubscriptions, 0, s1.(state := RESUBSCRIBING));
    ResubscribedCodes(a.resubscriptions, 0, s1.(state := RESUBSCRIBING));
  }

  /** The client yields again exactly when the delay has passed, the physical layer is up, the attempt restores the connection and
      no callback disconnects meanwhile; it then reports NETWORK_RECONNECTED and leaves the back-off as it was. */
  lemma RetriedExactly(step: Step, l: Link)
    requires l.s.state == PENDING_RECONNECT
    ensures var o := Retried(step, l);
            (o.l.s.state == YIELDING <==>
               step.delayExpired && step.physical == NETWORK_PHYSICAL_LAYER_CONNECTED && Restores(step.attempt)
               && o.l.s.disconnects == l.s.disconnects)
            && (o.l.s.state == YIELDING ==> o.rc == NETWORK_RECONNECTED && o.l == l.(s := o.l.s))
  {
    hide Reattempted, Restores, Answered;
    ReattemptedExactly(step.attempt, l.s);
    ReattemptedEnds(step.attempt, l.s);
  }

  // ---------------------------------------------------------------- runs without disconnects

  /** No callback of the delivery, at any depth, disconnects successfully. */
  predicate Peaceful(r: Read) {
    r.Incoming? ==> forall c <- r.calls :: PeacefulCall(c)
  }

  predicate PeacefulCall(c: Call) {
    match c
    case PublishCall(op, _) => PeacefulOp(op)
    case SubscribeCall(op) => PeacefulOp(op)
    case UnsubscribeCall(op) => PeacefulOp(op)
    case DisconnectCall(result) => result != SUCCESS
    case YieldCall => true
  }

  predicate PeacefulOp(op: Op) {
    forall r <- op.cycles :: Peaceful(r)
  }

  lemma {:induction false} PeacefulCycled(r: Read, s: Status)
    requires Peaceful(r)
    ensures Cycled(r, s).s.disconnects == s.disconnects
    decreases r, 1
  {
    if r.Incoming? { PeacefulCalled(r, |r.calls|, s.(state := WAIT_FOR_CB_RETURN)); }
  }

  lemma {:induction false} PeacefulCalled(r: Read, n: nat, s: Status)
    requires r.Incoming? && n <= |r.calls| && Peaceful(r)
    ensures Called(r, n, s).disconnects == s.disconnects
    decreases r, 0, n
  {
    if n > 0 {
      PeacefulCalled(r, n - 1, s);
      var c, t := r.calls[n - 1], Called(r, n - 1, s);
      assert PeacefulCall(c);
      match c {
        case PublishCall(op, qos1) => PeacefulRequested(op, PUBLISHING, PUBACK, qos1, t);
        case SubscribeCall(op) => PeacefulRequested(op, SUBSCRIBING, SUBACK, true, t);
        case UnsubscribeCall(op) => PeacefulRequested(op, UNSUBSCRIBING, UNSUBACK, true, t);
        case DisconnectCall(result) =>
        case YieldCall =>
      }
    }
  }

  lemma {:induction false} PeacefulRequested(op: Op, busy: Busy, wanted: AckKind, waits: bool, s: Status)
    requires PeacefulOp(op)
    ensures Requested(op, busy, wanted, waits, s).s.disconnects == s.disconnects
    decreases op, 2
  {
    PeacefulSent(op, wanted, waits, s.(state := busy));
  }

  lemma {:induction false} PeacefulSent(op: Op, wanted: AckKind, waits: bool, s: Status)
    requires PeacefulOp(op)
    ensures Sent(op, wanted, waits, s).s.disconnects == s.disconnects
    decreases op, 1
  {
    PeacefulAwaited(op, wanted, 0, s);
  }

  lemma {:induction false} PeacefulAwaited(op: Op, wanted: AckKind, i: nat, s: Status)
    requires i <= |op.cycles| && PeacefulOp(op)
    ensures Awaited(op, wanted, i, s).s.disconnects == s.disconnects
    decreases op, 0, |op.cycles| - i
  {
    if i < |op.cycles| {
      assert Peaceful(op.cycles[i]);
      PeacefulCycled(op.cycles[i], s);
      PeacefulAwaited(op, wanted, i + 1, Cycled(op.cycles[i], s).s);
    }
  }

  lemma {:induction false} PeacefulResubscribed(ops: seq<Op>, i: nat, s: Status)
    requires i <= |ops| && forall op <- ops :: PeacefulOp(op)
    ensures ResubscribedFrom(ops, i, s).s.disconnects == s.disconnects
    decreases |ops| - i
  {
    hide Sent, PeacefulOp;
    if i < |ops| {
      assert PeacefulOp(ops[i]);
      PeacefulSent(ops[i], SUBACK, true, s);
      PeacefulResubscribed(ops, i + 1, Sent(ops[i], SUBACK, true, s).s);
    }
  }

  ghost predicate PeacefulAttempt(a: Attempt) {
    PeacefulOp(a.op) && forall op <- a.resubscriptions :: PeacefulOp(op)
  }

  /** With the physical layer up, an attempt that restores the connection is not missed: the first step whose delay has passed
      brings the client back to yielding. */
  lemma Reconnects(step: Step, l: Link)
    requires l.s.state == PENDING_RECONNECT && PeacefulAttempt(step.attempt)
    ensures var o := Retried(step, l);
            o.l.s.state == YIELDING <==>
              step.delayExpired && step.physical == NETWORK_PHYSICAL_LAYER_CONNECTED && Restores(step.attempt)
  {
    hide Restores, PeacefulAttempt, Reattempted;
    RetriedExactly(step, l);
    PeacefulReattempted(step.attempt, l.s);
  }

  lemma PeacefulReattempted(a: Attempt, s: Status)
    requires ValidForConnect(s.state) && PeacefulAttempt(a)
    ensures Reattempted(a, s).s.disconnects == s.disconnects
  {
    hide PeacefulOp, ResubscribedFrom, IsConnected, Connected;
    var s1 := Connected(a, s).s;
    assert s1.disconnects == s.disconnects by { PeacefulConnected(a, s); }
    PeacefulResubscribed(a.resubscriptions, 0, s1.(state := RESUBSCRIBING));
  }

  lemma PeacefulConnected(a: Attempt, s: Status)
    requires PeacefulOp(a.op)
    ensures Connected(a, s).s.disconnects == s.disconnects
  {
    hide PeacefulOp, Sent;
    PeacefulSent(a.op, CONNACK, true, s.(state := CONNECTING));
  }

  // ---------------------------------------------------------------- keep-alive

  /** Without disconnects by callbacks, a read that fails with the transport broken is a loss, and so is, after a read that delivers
      nothing, a ping timer that expires with a ping unanswered or a new ping that cannot be sent; nothing else is. */
  lemma LossExactly(config: Config, step: Step, s: Status)
    requires s.state in {YIELDING, IDLE, DISCONNECTED_MANUALLY} && Peaceful(step.read)
    ensures var lost, code := ReadAndKept(config, step, s).s.state == DISCONNECTED_ERROR, ReadCode(step.read, false);
            (TransportBroken(code) ==> lost) && (code != SUCCESS && !TransportBroken(code) ==> !lost)
            && (!step.read.Incoming? && code == SUCCESS ==>
                  (lost <==> config.keepAliveInterval != 0 && step.pingExpired
                             && ((s.pingOutstanding && !step.read.PingResponse?) || (step.pingPrepared == SUCCESS && step.pingSent != SUCCESS))))
  {
    LossNoticed(config, step, s);
    CycledCode(step.read, s);
    PeacefulCycled(step.read, s);
    if !step.read.Incoming? { PlainRead(step.read, s); }
    hide Cycled;
  }

  lemma PlainRead(r: Read, s: Status)
    requires !r.Incoming?
    ensures Cycled(r, s).s.pingOutstanding <==> s.pingOutstanding && !r.PingResponse?
  {
  }

  /** A step in which nothing but keep-alive can go wrong. */
  predicate Quiet(step: Step) {
    (step.read.Nothing? || step.read.Ack? || step.read.PingResponse?) && step.pingPrepared == step.pingSent == SUCCESS
  }

  ghost predicate AllQuiet(steps: seq<Step>) {
    forall step <- steps :: Quiet(step)
  }

  /** None of the steps from i to j reads a ping response. */
  ghost predicate Unanswered(steps: seq<Step>, i: nat, j: nat) {
    forall k :: i <= k <= j && k < |steps| ==> !steps[k].read.PingResponse?
  }

  /** At step j the ping timer expires while a ping sent at an earlier step, from i on, or before i, is unanswered. */
  ghost predicate LossAt(steps: seq<Step>, i: nat, outstanding: bool, j: nat) {
    j < |steps| && steps[j].pingExpired
    && ((outstanding && Unanswered(steps, i, j)) || exists a: nat :: i <= a < j && PingLost(steps, a, j))
  }

  ghost predicate PingLost(steps: seq<Step>, a: nat, j: nat) {
    a < |steps| && steps[a].pingExpired && Unanswered(steps, a + 1, j)
  }

  ghost predicate LossFrom(steps: seq<Step>, i: nat, outstanding: bool) {
    exists j: nat :: i <= j && LossAt(steps, i, outstanding, j)
  }

  /** What a quiet step does to a yield in progress. */
  lemma QuietStep(config: Config, step: Step, l: Link)
    requires Quiet(step) && config.keepAliveInterval != 0 && l.s.state == YIELDING
    ensures var o, before := Iterated(config, step, l), l.s.pingOutstanding && !step.read.PingResponse?;
            if step.pingExpired && before then
              o.l.losses == l.losses + 1 && o.l.s.state == if config.autoReconnect then PENDING_RECONNECT else DISCONNECTED_ERROR
            else o == LinkOutcome(l.(s := l.s.(pingOutstanding := before || step.pingExpired)), SUCCESS, false)
  {
  }

  lemma {:induction false} LossesGrow(config: Config, steps: seq<Step>, i: nat, l: Link)
    requires i < |steps|
    ensures Looped(config, steps, i, l).l.losses >= l.losses
    decreases |steps| - i
  {
    var o := Iterated(config, steps[i], l);
    LossesKept(config, steps[i], l);
    hide Iterated;
    if !o.stop && i + 1 < |steps| { LossesGrow(config, steps, i + 1, o.l); }
  }

  lemma LossesKept(config: Config, step: Step, l: Link)
    ensures Iterated(config, step, l).l.losses >= l.losses
  {
    hide Reattempted, ReadAndKept;
  }

  /** The loss at or after step i, in terms of the loss after it. */
  lemma LossStep(steps: seq<Step>, i: nat, outstanding: bool)
    requires i < |steps|
    ensures var before := outstanding && !steps[i].read.PingResponse?;
            LossFrom(steps, i, outstanding) <==>
              (steps[i].pingExpired && before) || LossFrom(steps, i + 1, before || steps[i].pingExpired)
  {
    var before := outstanding && !steps[i].read.PingResponse?;
    var after := before || steps[i].pingExpired;
    if LossFrom(steps, i, outstanding) {
      var j: nat :| i <= j && LossAt(steps, i, outstanding, j);
      if j > i { LossLater(steps, i, outstanding, j); }
    }
    if steps[i].pingExpired && before { assert LossAt(steps, i, outstanding, i); }
    if LossFrom(steps, i + 1, after) {
      var j: nat :| i + 1 <= j && LossAt(steps, i + 1, after, j);
      if !(steps[i].pingExpired && before) { LossEarlier(steps, i, outstanding, j); }
    }
  }

  lemma LossLater(steps: seq<Step>, i: nat, outstanding: bool, j: nat)
    requires i < j && LossAt(steps, i, outstanding, j)
    ensures var before := outstanding && !steps[i].read.PingResponse?;
            LossAt(steps, i + 1, before || steps[i].pingExpired, j)
  {
    if !(outstanding && Unanswered(steps, i, j)) {
      var a: nat :| i <= a < j && PingLost(steps, a, j);
    }
  }

  lemma LossEarlier(steps: seq<Step>, i: nat, outstanding: bool, j: nat)
    requires i < j && i < |steps|
    requires var before := outstanding && !steps[i].read.PingResponse?;
             LossAt(steps, i + 1, before || steps[i].pingExpired, j)
    ensures LossAt(steps, i, outstanding, j)
  {
    var before := outstanding && !steps[i].read.PingResponse?;
    if (before || steps[i].pingExpired) && Unanswered(steps, i + 1, j) {
      if steps[i].pingExpired { assert PingLost(steps, i, j); }
    }
  }

  /** A ping is still outstanding at the end. */
  ghost predicate Pending(steps: seq<Step>, i: nat, outstanding: bool) {
    (outstanding && Unanswered(steps, i, |steps|)) || exists a: nat :: i <= a && PingLost(steps, a, |steps|)
  }

  lemma PendingStep(steps: seq<Step>, i: nat, outstanding: bool)
    requires i < |steps|
    ensures var before := outstanding && !steps[i].read.PingResponse?;
            Pending(steps, i, outstanding) <==> Pending(steps, i + 1, before || steps[i].pingExpired)
  {
    assert steps[i].pingExpired && Unanswered(steps, i + 1, |steps|) ==> PingLost(steps, i, |steps|);
  }

  lemma {:induction false} KeepAliveFrom(config: Config, steps: seq<Step>, i: nat, l: Link)
    requires i < |steps| && AllQuiet(steps) && config.keepAliveInterval != 0 && l.s.state == YIELDING
    ensures var o := Looped(config, steps, i, l);
            (o.l.losses > l.losses <==> LossFrom(steps, i, l.s.pingOutstanding))
            && (o.l.losses == l.losses ==>
                  o.rc == SUCCESS && !o.stop && o.l == l.(s := l.s.(pingOutstanding := Pending(steps, i, l.s.pingOutstanding))))
    decreases |steps| - i
  {
    hide Iterated, LossFrom, Pending;
    assert Quiet(steps[i]);
    QuietStep(config, steps[i], l);
    LossStep(steps, i, l.s.pingOutstanding);
    PendingStep(steps, i, l.s.pingOutstanding);
    var o := Iterated(config, steps[i], l);
    if i + 1 == |steps| {
      NothingLeft(steps, o.l.s.pingOutstanding);
    } else if !o.stop {
      if o.l.s.state == YIELDING {
        KeepAliveFrom(config, steps, i + 1, o.l);
      } else {
        LossesGrow(config, steps, i + 1, o.l);
      }
    }
  }

  lemma NothingLeft(steps: seq<Step>, outstanding: bool)
    ensures !LossFrom(steps, |steps|, outstanding) && (Pending(steps, |steps|, outstanding) <==> outstanding)
  {
  }

  /** Two ping timers expire, and no step after the first, up to and including the second, reads a ping response. */
  ghost predicate PingUnanswered(steps: seq<Step>) {
    exists a: nat, b: nat :: a < b < |steps| && steps[b].pingExpired && PingLost(steps, a, b)
  }

  /** While reads and pings go well, a yield that starts without an outstanding ping declares a loss exactly when a ping stays
      unanswered until the timer expires again; otherwise it succeeds and only the ping flag can change. */
  lemma KeepAliveExactly(config: Config, steps: seq<Step>, l: Link)
    requires |steps| > 0 && AllQuiet(steps) && config.keepAliveInterval != 0 && l.s.state == YIELDING && !l.s.pingOutstanding
    ensures var o := Looped(config, steps, 0, l);
            (o.l.losses > l.losses <==> PingUnanswered(steps))
            && (!PingUnanswered(steps) ==> o.rc == SUCCESS && !o.stop && o.l.(s := o.l.s.(pingOutstanding := false)) == l)
  {
    hide Looped, PingLost;
    KeepAliveFrom(config, steps, 0, l);
    LossesGrow(config, steps, 0, l);
    if LossFrom(steps, 0, false) {
      var b: nat :| 0 <= b && LossAt(steps, 0, false, b);
      var a: nat :| 0 <= a < b && PingLost(steps, a, b);
    }
    if PingUnanswered(steps) {
      var a: nat, b: nat :| a < b < |steps| && steps[b].pingExpired && PingLost(steps, a, b);
      assert LossAt(steps, 0, false, b);
    }
  }

  /** When the last step is the first at which a ping has stayed unanswered, the yield ends with that one loss. */
  lemma LossDeclared(config: Config, steps: seq<Step>, l: Link)
    requires |steps| > 0 && AllQuiet(steps) && config.keepAliveInterval != 0 && l.s.state == YIELDING && !l.s.pingOutstanding
    requires PingUnanswered(steps) && !PingUnanswered(steps[..|steps| - 1])
    ensures var o := Looped(config, steps, 0, l);
            o.l.losses == l.losses + 1 && o.l.s.state == if config.autoReconnect then PENDING_RECONNECT else DISCONNECTED_ERROR
  {
    hide Looped, Iterated, PingUnanswered, Quiet;
    var n := |steps| - 1;
    AtLeastTwo(steps);
    var front := steps[..n];
    forall step | step in front ensures step in steps { }
    KeepAliveExactly(config, front, l);
    KeepAliveExactly(config, steps, l);
    assert Quiet(steps[n]);
    LoopedPrefix(config, steps, n, 0, l);
    assert steps[..n + 1] == steps;
    QuietStep(config, steps[n], Looped(config, front, 0, l).l);
  }

  lemma AtLeastTwo(steps: seq<Step>)
    requires PingUnanswered(steps)
    ensures |steps| >= 2
  {
  }

  /** A loop that is not stopped goes on with the next step. */
  lemma {:induction false} LoopedPrefix(config: Config, steps: seq<Step>, n: nat, i: nat, l: Link)
    requires i < n < |steps| && !Looped(config, steps[..n], i, l).stop
    ensures Looped(config, steps[..n + 1], i, l) == Iterated(config, steps[n], Looped(config, steps[..n], i, l).l)
    decreases n - i
  {
    hide Iterated;
    assert steps[..n][i] == steps[i] == steps[..n + 1][i] && steps[..n + 1][n] == steps[n];
    var o := Iterated(config, steps[i], l);
    if i + 1 < n { LoopedPrefix(config, steps, n, i + 1, o.l); }
  }
}
