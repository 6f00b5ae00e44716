/** The client object: state, ping flag and back-off updated in place, method by method as module Client specifies. */
module ClientMachine {
  import opened Arithmetic
  import opened Client
  import opened ClientProgress

  class Machine {
    var state: ClientState
    var pingOutstanding: bool
    var autoReconnect: bool
    var keepAliveInterval: nat
    var currentReconnectWaitInterval: nat
    var reconnectDelay: nat // what reconnectDelayTimer was last started with
    var counterNetworkDisconnected: nat
    ghost var disconnects: nat
    ghost var misled: bool
    ghost var failedTries: seq<nat>

    ghost function Now(): Status
      reads this`state, this`pingOutstanding, this`disconnects, this`misled
    {
      Status(state, pingOutstanding, disconnects, misled)
    }

    ghost function Whole(): Link
      reads this
    {
      Link(Now(), currentReconnectWaitInterval, reconnectDelay, counterNetworkDisconnected, failedTries)
    }

    ghost function Settings(): Config
      reads this`autoReconnect, this`keepAliveInterval
    {
      Config(autoReconnect, keepAliveInterval)
    }

    /** aws_iot_mqtt_init */
    constructor (autoReconnect: bool)
      ensures state == INITIALIZED && Between(Whole()) && this.autoReconnect == autoReconnect && !misled
    {
      state, pingOutstanding, this.autoReconnect := INITIALIZED, false, autoReconnect;
      keepAliveInterval, counterNetworkDisconnected := 0, 0;
      disconnects, misled, failedTries := 0, false, [];
    }

    /** aws_iot_mqtt_set_client_state */
    method SetState(expected: ClientState, next: ClientState) returns (rc: Code)
      modifies this`state
      ensures Outcome(Now(), rc) == Set(old(Now()), expected, next)
    {
      if state == expected {
        state := next;
        rc := SUCCESS;
      } else {
        rc := MQTT_UNEXPECTED_CLIENT_STATE_ERROR;
      }
    }

    /** aws_iot_mqtt_internal_cycle_read, with handle_publish. */
    method CycleRead(r: Read) returns (rc: Code)
      modifies this`state, this`pingOutstanding, this`disconnects, this`misled
      ensures Outcome(Now(), rc) == Cycled(r, old(Now()))
      ensures rc == ReadCode(r, disconnects > old(disconnects))
      ensures state == if disconnects > old(disconnects) then DISCONNECTED_MANUALLY else old(state)
      ensures !r.Incoming? ==> pingOutstanding == (old(pingOutstanding) && !r.PingResponse?)
      decreases r, 2
    {
      CycledCode(r, Now());
      CycledKeeps(r, Now());
      if !r.Incoming? { PlainRead(r, Now()); }
      rc := ReadPacket(r);
    }

    method ReadPacket(r: Read) returns (rc: Code)
      modifies this`state, this`pingOutstanding, this`disconnects, this`misled
      ensures Outcome(Now(), rc) == Cycled(r, old(Now()))
      decreases r, 1
    {
      match r {
        case Nothing => rc := SUCCESS;
        case ReadFails(code) =>
          rc := code;
          misled := misled || Misleading(code);
        case Ack(k) => rc := SUCCESS;
        case PingResponse =>
          pingOutstanding := false;
          rc := SUCCESS;
        case UnknownType => rc := MQTT_RX_MESSAGE_PACKET_TYPE_INVALID_ERROR;
        case Incoming(parsed, calls, qos0, ackPrepared, ackSent) =>
          if parsed != SUCCESS { return parsed; }
          rc := Deliver(r);
          if rc != SUCCESS || qos0 { return; }
          if ackPrepared != SUCCESS { return ackPrepared; }
          rc := ackSent;
      }
    }

    /** _aws_iot_mqtt_internal_deliver_message */
    method Deliver(r: Read) returns (rc: Code)
      requires r.Incoming?
      modifies this`state, this`pingOutstanding, this`disconnects, this`misled
      ensures Outcome(Now(), rc) == Set(Called(r, |r.calls|, old(Now()).(state := WAIT_FOR_CB_RETURN)), WAIT_FOR_CB_RETURN, old(state))
      decreases r, 0
    {
      var entry := state;
      var _ := SetState(entry, WAIT_FOR_CB_RETURN);
      ghost var start := Now();
      for i := 0 to |r.calls|
        invariant Now() == Called(r, i, start)
      {
        CalledKeeps(r, i, start);
        Callback(r.calls[i]);
      }
      rc := SetState(WAIT_FOR_CB_RETURN, entry);
    }

    /** One call made by an application callback. */
    method Callback(c: Call)
      requires state == WAIT_FOR_CB_RETURN || state == DISCONNECTED_MANUALLY
      modifies this`state, this`pingOutstanding, this`disconnects, this`misled
      ensures Now() == CalledOnce(c, old(Now()))
      decreases c
    {
      match c {
        case PublishCall(op, qos1) => var _ := Request(op, PUBLISHING, PUBACK, qos1);
        case SubscribeCall(op) => var _ := Request(op, SUBSCRIBING, SUBACK, true);
        case UnsubscribeCall(op) => var _ := Request(op, UNSUBSCRIBING, UNSUBACK, true);
        case DisconnectCall(result) => var _ := Disconnect(result);
        case YieldCall =>
          var refused := CheckYield();
          assert refused != SUCCESS;
      }
    }

    /** aws_iot_mqtt_internal_wait_for_read */
    method WaitForRead(op: Op, wanted: AckKind) returns (rc: Code)
      modifies this`state, this`pingOutstanding, this`disconnects, this`misled
      ensures Outcome(Now(), rc) == Awaited(op, wanted, 0, old(Now()))
      decreases op, 0
    {
      var i := 0;
      while true
        invariant i <= |op.cycles| && Awaited(op, wanted, i, Now()) == Awaited(op, wanted, 0, old(Now()))
        decreases |op.cycles| - i
      {
        if i == |op.cycles| { return MQTT_REQUEST_TIMEOUT_ERROR; }
        rc := CycleRead(op.cycles[i]);
        if rc == NETWORK_DISCONNECTED_ERROR || op.cycles[i] == Ack(wanted) { return; }
        i := i + 1;
      }
    }

    /** The body of publish, subscribe, unsubscribe and connect: send the packet, wait for its acknowledgement. */
    method SendAndWait(op: Op, wanted: AckKind, waits: bool) returns (rc: Code)
      modifies this`state, this`pingOutstanding, this`disconnects, this`misled
      ensures Outcome(Now(), rc) == Sent(op, wanted, waits, old(Now()))
      decreases op, 1
    {
      if op.prepared != SUCCESS { return op.prepared; }
      if op.sent != SUCCESS { return op.sent; }
      if !waits { return SUCCESS; }
      rc := WaitForRead(op, wanted);
      if rc == SUCCESS { rc := op.ack; }
    }

    /** aws_iot_mqtt_publish (PUBLISHING, PUBACK, waiting only for qos 1), aws_iot_mqtt_subscribe (SUBSCRIBING, SUBACK) and
        aws_iot_mqtt_unsubscribe (UNSUBSCRIBING, UNSUBACK). */
    method Request(op: Op, busy: Busy, wanted: AckKind, waits: bool) returns (rc: Code)
      modifies this`state, this`pingOutstanding, this`disconnects, this`misled
      ensures Outcome(Now(), rc) == Requested(op, busy, wanted, waits, old(Now()))
      ensures state == old(state) || (state == DISCONNECTED_MANUALLY && disconnects > old(disconnects))
      ensures rc == SUCCESS ==> state == old(state) && old(state) in {IDLE, WAIT_FOR_CB_RETURN} && disconnects == old(disconnects)
      ensures rc == SUCCESS ==> op.prepared == op.sent == SUCCESS && (waits ==> Answered(op, wanted) && op.ack == SUCCESS)
      ensures old(state) !in {IDLE, WAIT_FOR_CB_RETURN} ==> Now() == old(Now())
      ensures !op.arguments ==> rc == NULL_VALUE_ERROR
      ensures op.arguments && !IsConnected(old(state)) ==> rc == NETWORK_DISCONNECTED_ERROR
      ensures op.arguments && IsConnected(old(state)) && old(state) !in {IDLE, WAIT_FOR_CB_RETURN} ==> rc == MQTT_CLIENT_NOT_IDLE_ERROR
      ensures op.arguments && old(state) in {IDLE, WAIT_FOR_CB_RETURN} && GoesThrough(op, wanted, waits) && disconnects == old(disconnects) ==>
                rc == SUCCESS
      ensures old(Between(Whole())) ==> Between(Whole())
      decreases op, 3
    {
      hide Requested, Between, Answered, GoesThrough;
      RequestedExactly(op, busy, wanted, waits, Now());
      ghost var l0 := Whole();
      rc := RequestSteps(op, busy, wanted, waits);
      RequestedKeeps(op, busy, wanted, waits, l0.s);
      RequestRefused(op, busy, wanted, waits, l0.s);
      if Between(l0) { HappenedKeeps(RequestEvent(op, busy, wanted, waits), l0); }
      assert Whole() == l0.(s := Now());
    }

    method RequestSteps(op: Op, busy: Busy, wanted: AckKind, waits: bool) returns (rc: Code)
      modifies this`state, this`pingOutstanding, this`disconnects, this`misled
      ensures Outcome(Now(), rc) == Requested(op, busy, wanted, waits, old(Now()))
      decreases op, 2
    {
      hide Sent;
      if !op.arguments { return NULL_VALUE_ERROR; }
      if !IsConnected(state) { return NETWORK_DISCONNECTED_ERROR; }
      var entry := state;
      if entry != IDLE && entry != WAIT_FOR_CB_RETURN { return MQTT_CLIENT_NOT_IDLE_ERROR; }
      rc := SetState(entry, busy);
      rc := SendAndWait(op, wanted, waits);
      var back := SetState(busy, entry);
      if rc == SUCCESS && back != SUCCESS { rc := back; }
    }

    /** aws_iot_mqtt_resubscribe: one subscribe after another, stopping at the first that fails. */
    method Resubscribe(ops: seq<Op>) returns (rc: Code)
      modifies this`state, this`pingOutstanding, this`disconnects, this`misled
      ensures Outcome(Now(), rc) == Resubscribed(ops, old(Now()))
    {
      if !IsConnected(state) { return NETWORK_DISCONNECTED_ERROR; }
      if state != IDLE { return MQTT_CLIENT_NOT_IDLE_ERROR; }
      var _ := SetState(IDLE, RESUBSCRIBING);
      rc := ResubscribeLoop(ops);
      var back := SetState(RESUBSCRIBING, IDLE);
      if rc == SUCCESS && back != SUCCESS { rc := back; }
    }

    method ResubscribeLoop(ops: seq<Op>) returns (rc: Code)
      modifies this`state, this`pingOutstanding, this`disconnects, this`misled
      ensures Outcome(Now(), rc) == ResubscribedFrom(ops, 0, old(Now()))
    {
      for i := 0 to |ops|
        invariant ResubscribedFrom(ops, i, Now()) == ResubscribedFrom(ops, 0, old(Now()))
      {
        rc := SendAndWait(ops[i], SUBACK, true);
        if rc != SUCCESS { return; }
      }
      rc := SUCCESS;
    }

    /** aws_iot_mqtt_connect */
    method Connect(a: Attempt) returns (rc: Code)
      modifies this`state, this`pingOutstanding, this`disconnects, this`misled
      ensures Outcome(Now(), rc) == Connected(a, old(Now()))
      ensures !ValidForConnect(old(state)) ==> rc == NETWORK_ALREADY_CONNECTED_ERROR && Now() == old(Now())
      ensures ValidForConnect(old(state)) ==> state in {IDLE, DISCONNECTED_ERROR, DISCONNECTED_MANUALLY}
      ensures ValidForConnect(old(state)) ==> (state == DISCONNECTED_MANUALLY <==> disconnects > old(disconnects))
      ensures ValidForConnect(old(state)) ==> (state == IDLE <==> rc == SUCCESS && disconnects == old(disconnects))
      ensures ValidForConnect(old(state)) && rc == SUCCESS ==>
                !pingOutstanding && a.transport == SUCCESS && a.op.ack == SUCCESS && Answered(a.op, CONNACK)
      ensures ValidForConnect(old(state)) ==> (rc == SUCCESS <==> a.transport == SUCCESS && GoesThrough(a.op, CONNACK, true))
      ensures old(Between(Whole())) ==> Between(Whole())
    {
      hide Connected, Between, Answered, GoesThrough;
      if ValidForConnect(state) { ConnectedExactly(a, Now()); }
      ghost var l0 := Whole();
      rc := ConnectSteps(a);
      ConnectedEnds(a, l0.s);
      if Between(l0) { HappenedKeeps(ConnectEvent(a), l0); }
      assert Whole() == l0.(s := Now());
    }

    method ConnectSteps(a: Attempt) returns (rc: Code)
      modifies this`state, this`pingOutstanding, this`disconnects, this`misled
      ensures Outcome(Now(), rc) == Connected(a, old(Now()))
    {
      hide Sent;
      if !ValidForConnect(state) { return NETWORK_ALREADY_CONNECTED_ERROR; }
      var _ := SetState(state, CONNECTING);
      rc := a.transport;
      if rc == SUCCESS { rc := SendAndWait(a.op, CONNACK, true); }
      if rc == SUCCESS {
        pingOutstanding := false;
        var _ := SetState(CONNECTING, IDLE);
      } else {
        var _ := SetState(CONNECTING, DISCONNECTED_ERROR);
      }
    }

    /** aws_iot_mqtt_disconnect */
    method Disconnect(result: Code) returns (rc: Code)
      modifies this`state, this`disconnects
      ensures Outcome(Now(), rc) == Disconnected(result, old(Now()))
      ensures rc == SUCCESS <==> IsConnected(old(state)) && result == SUCCESS
      ensures rc == SUCCESS <==> disconnects == old(disconnects) + 1
      ensures if rc == SUCCESS then state == DISCONNECTED_MANUALLY else Now() == old(Now())
      ensures old(Between(Whole())) ==> Between(Whole())
    {
      hide Between;
      if Between(Whole()) { HappenedKeeps(DisconnectEvent(result), Whole()); }
      if !IsConnected(state) { return NETWORK_DISCONNECTED_ERROR; }
      var entry := state;
      var _ := SetState(entry, DISCONNECTING);
      rc := result;
      if rc != SUCCESS {
        state := entry;
      } else {
        state := DISCONNECTED_MANUALLY;
        disconnects := disconnects + 1;
      }
    }

    /** aws_iot_mqtt_attempt_reconnect */
    method AttemptReconnect(a: Attempt) returns (rc: Code)
      modifies this`state, this`pingOutstanding, this`disconnects, this`misled
      ensures Outcome(Now(), rc) == Reattempted(a, old(Now()))
      ensures IsConnected(old(state)) ==> rc == NETWORK_ALREADY_CONNECTED_ERROR && Now() == old(Now())
      ensures ValidForConnect(old(state)) ==> state in {IDLE, PENDING_RECONNECT, DISCONNECTED_MANUALLY}
      ensures ValidForConnect(old(state)) && state == IDLE ==> a.transport == SUCCESS && Answered(a.op, CONNACK)
      ensures ValidForConnect(old(state)) && state == PENDING_RECONNECT ==> rc == NETWORK_ATTEMPTING_RECONNECT
      ensures ValidForConnect(old(state)) && rc == NETWORK_RECONNECTED && !misled ==> state in {IDLE, DISCONNECTED_MANUALLY}
    {
      hide Connected, Resubscribed;
      if ValidForConnect(state) { ReattemptedEnds(a, Now()); }
      if IsConnected(state) { return NETWORK_ALREADY_CONNECTED_ERROR; }
      rc := Connect(a);
      if state != IDLE {
        var _ := SetState(DISCONNECTED_ERROR, PENDING_RECONNECT);
        return NETWORK_ATTEMPTING_RECONNECT;
      }
      rc := Resubscribe(a.resubscriptions);
      if rc == SUCCESS { rc := NETWORK_RECONNECTED; }
    }

    /** _aws_iot_mqtt_handle_disconnect and _aws_iot_mqtt_force_client_disconnect */
    method HandleDisconnect(result: Code) returns (rc: Code)
      modifies this`state, this`disconnects
      ensures Outcome(Now(), rc) == Lost(result, old(Now()))
      ensures state == DISCONNECTED_ERROR && rc == NETWORK_DISCONNECTED_ERROR
      ensures pingOutstanding == old(pingOutstanding) && misled == old(misled)
      ensures disconnects == old(disconnects) + if IsConnected(old(state)) && result == SUCCESS then 1 else 0
    {
      rc := Disconnect(result);
      if rc != SUCCESS { state := DISCONNECTED_ERROR; }
      state := DISCONNECTED_ERROR;
      rc := NETWORK_DISCONNECTED_ERROR;
    }

    /** _aws_iot_mqtt_keep_alive */
    method KeepAlive(s: Step) returns (rc: Code)
      modifies this`state, this`pingOutstanding, this`disconnects
      ensures Outcome(Now(), rc) == KeptAlive(Settings(), s, old(Now()))
      ensures rc == NETWORK_DISCONNECTED_ERROR <==>
              keepAliveInterval != 0 && s.pingExpired && (old(pingOutstanding) || (s.pingPrepared == SUCCESS && s.pingSent != SUCCESS))
      ensures state == if rc == NETWORK_DISCONNECTED_ERROR then DISCONNECTED_ERROR else old(state)
      ensures rc == SUCCESS ==> (pingOutstanding <==> old(pingOutstanding) || (keepAliveInterval != 0 && s.pingExpired))
      ensures rc != SUCCESS ==> pingOutstanding == old(pingOutstanding)
    {
      if keepAliveInterval == 0 || !s.pingExpired { return SUCCESS; }
      if pingOutstanding {
        rc := HandleDisconnect(s.disconnected);
        return;
      }
      if s.pingPrepared != SUCCESS { return s.pingPrepared; }
      if s.pingSent != SUCCESS {
        rc := HandleDisconnect(s.disconnected);
        return;
      }
      pingOutstanding := true;
      rc := SUCCESS;
    }

    /** Reconnection is pending and has not been given up. */
    ghost predicate Waiting()
      reads this
    {
      state == PENDING_RECONNECT && BackingOff(Whole()) && currentReconnectWaitInterval <= MAX_WAIT
    }

    /** _aws_iot_mqtt_handle_reconnect */
    method HandleReconnect(s: Step) returns (rc: Code)
      modifies this`state, this`pingOutstanding, this`disconnects, this`misled, this`currentReconnectWaitInterval,
               this`reconnectDelay, this`failedTries
      ensures LinkOutcome(Whole(), rc, false) == Retried(s, old(Whole()))
      ensures !s.delayExpired ==> Whole() == old(Whole()) && rc == NETWORK_ATTEMPTING_RECONNECT
      ensures old(Waiting()) ==> state in {YIELDING, IDLE, PENDING_RECONNECT, DISCONNECTED_MANUALLY} && BackingOff(Whole())
      ensures old(Waiting()) && s.delayExpired && state == PENDING_RECONNECT ==>
                failedTries == old(failedTries) + [old(currentReconnectWaitInterval)]
                && currentReconnectWaitInterval == 2 * old(currentReconnectWaitInterval)
                && if currentReconnectWaitInterval > MAX_WAIT then rc == NETWORK_RECONNECT_TIMED_OUT_ERROR
                   else reconnectDelay == currentReconnectWaitInterval
      ensures old(Waiting()) && state == YIELDING ==> rc == NETWORK_RECONNECTED && failedTries == old(failedTries)
      ensures old(Waiting()) && state in {YIELDING, IDLE} ==> s.attempt.transport == SUCCESS && Answered(s.attempt.op, CONNACK)
      ensures old(state) == PENDING_RECONNECT ==>
                (state == YIELDING <==> s.delayExpired && s.physical == NETWORK_PHYSICAL_LAYER_CONNECTED && Restores(s.attempt)
                                        && disconnects == old(disconnects))
    {
      hide Retried, Answered, Pow, Doubling, Restores;
      if state == PENDING_RECONNECT { RetriedExactly(s, Whole()); }
      ghost var l0 := Whole();
      if Waiting() { RetriedKeeps(s, l0); }
      rc := ReconnectSteps(s);
      RetriedDelay(s, l0);
    }

    method ReconnectSteps(s: Step) returns (rc: Code)
      modifies this`state, this`pingOutstanding, this`disconnects, this`misled, this`currentReconnectWaitInterval,
               this`reconnectDelay, this`failedTries
      ensures LinkOutcome(Whole(), rc, false) == Retried(s, old(Whole()))
    {
      hide Reattempted;
      if !s.delayExpired { return NETWORK_ATTEMPTING_RECONNECT; }
      rc := s.physical;
      if rc == NETWORK_PHYSICAL_LAYER_CONNECTED {
        rc := AttemptReconnect(s.attempt);
        if rc == NETWORK_RECONNECTED {
          rc := SetState(IDLE, YIELDING);
          if rc == SUCCESS { rc := NETWORK_RECONNECTED; }
          return;
        }
      }
      failedTries := failedTries + [reconnectDelay];
      currentReconnectWaitInterval := currentReconnectWaitInterval * 2 % 0x1_0000_0000;
      if currentReconnectWaitInterval > MAX_WAIT { return NETWORK_RECONNECT_TIMED_OUT_ERROR; }
      reconnectDelay := currentReconnectWaitInterval;
    }

    /** The checks at the start of aws_iot_mqtt_yield. */
    method CheckYield() returns (rc: Code)
      ensures rc == Admitted(state)
    {
      if state == DISCONNECTED_MANUALLY { return NETWORK_MANUALLY_DISCONNECTED; }
      if state != PENDING_RECONNECT {
        if !IsConnected(state) { return NETWORK_DISCONNECTED_ERROR; }
        if state != IDLE { return MQTT_CLIENT_NOT_IDLE_ERROR; }
      }
      rc := SUCCESS;
    }

    /** One iteration of _aws_iot_mqtt_internal_yield; `stop` is its break or return. */
    method Iterate(s: Step) returns (rc: Code, stop: bool)
      modifies this
      ensures Settings() == old(Settings())
      ensures LinkOutcome(Whole(), rc, stop) == Iterated(Settings(), s, old(Whole()))
    {
      hide ReadAndKept, Noticed, Retried;
      if state == PENDING_RECONNECT {
        if currentReconnectWaitInterval > MAX_WAIT { return NETWORK_RECONNECT_TIMED_OUT_ERROR, true; }
        rc := HandleReconnect(s);
        return rc, false;
      }
      rc := ReadAndKeepAlive(s);
      rc, stop := NoticeLoss(rc);
    }

    method ReadAndKeepAlive(s: Step) returns (rc: Code)
      modifies this`state, this`pingOutstanding, this`disconnects, this`misled
      ensures Outcome(Now(), rc) == ReadAndKept(Settings(), s, old(Now()))
      ensures old(state) in {YIELDING, IDLE, DISCONNECTED_MANUALLY} ==>
                state in {old(state), DISCONNECTED_MANUALLY, DISCONNECTED_ERROR}
                && (state == DISCONNECTED_ERROR ==> rc == NETWORK_DISCONNECTED_ERROR)
      ensures old(state) in {YIELDING, IDLE, DISCONNECTED_MANUALLY} && s.read.ReadFails? && TransportBroken(s.read.rc) ==>
                state == DISCONNECTED_ERROR
    {
      if state in {YIELDING, IDLE, DISCONNECTED_MANUALLY} { LossNoticed(Settings(), s, Now()); }
      hide Cycled, KeptAlive, Lost;
      rc := CycleRead(s.read);
      if rc == SUCCESS {
        rc := KeepAlive(s);
      } else if TransportBroken(rc) {
        rc := HandleDisconnect(s.disconnected);
      }
    }

    method NoticeLoss(rc0: Code) returns (rc: Code, stop: bool)
      modifies this`state, this`currentReconnectWaitInterval, this`reconnectDelay, this`counterNetworkDisconnected, this`failedTries
      ensures LinkOutcome(Whole(), rc, stop) == Noticed(Settings(), old(Whole()), rc0)
      ensures rc0 == SUCCESS ==> !stop && rc == SUCCESS && Whole() == old(Whole())
      ensures counterNetworkDisconnected == old(counterNetworkDisconnected) + if rc0 == NETWORK_DISCONNECTED_ERROR then 1 else 0
      ensures state == if rc0 == NETWORK_DISCONNECTED_ERROR && autoReconnect && old(state) == DISCONNECTED_ERROR then PENDING_RECONNECT
                       else old(state)
      ensures old(state) == DISCONNECTED_ERROR && state == PENDING_RECONNECT ==>
                failedTries == [] && currentReconnectWaitInterval == reconnectDelay == MIN_WAIT && BackingOff(Whole())
                && rc == NETWORK_ATTEMPTING_RECONNECT && !stop
    {
      PowZero(2);
      rc := rc0;
      if rc != NETWORK_DISCONNECTED_ERROR { return rc, rc != SUCCESS; }
      counterNetworkDisconnected := counterNetworkDisconnected + 1;
      if !autoReconnect { return rc, true; }
      rc := SetState(DISCONNECTED_ERROR, PENDING_RECONNECT);
      if rc != SUCCESS { return rc, true; }
      currentReconnectWaitInterval := MIN_WAIT;
      reconnectDelay := MIN_WAIT;
      failedTries := [];
      return NETWORK_ATTEMPTING_RECONNECT, false;
    }

    /** _aws_iot_mqtt_internal_yield */
    method InternalYield(steps: seq<Step>) returns (rc: Code)
      requires |steps| > 0
      modifies this
      ensures Settings() == old(Settings())
      ensures var o := Looped(Settings(), steps, 0, old(Whole()));
              Whole() == o.l && rc == o.rc
      ensures AllQuiet(steps) && keepAliveInterval != 0 && old(state) == YIELDING && !old(pingOutstanding) ==>
                (counterNetworkDisconnected > old(counterNetworkDisconnected) <==> PingUnanswered(steps))
                && (!PingUnanswered(steps) ==> rc == SUCCESS && state == YIELDING && counterNetworkDisconnected == old(counterNetworkDisconnected))
    {
      hide Iterated, AllQuiet, PingUnanswered;
      if AllQuiet(steps) && keepAliveInterval != 0 && state == YIELDING && !pingOutstanding {
        KeepAliveExactly(Settings(), steps, Whole());
      }
      var i := 0;
      while true
        invariant i < |steps| && Settings() == old(Settings())
        invariant Looped(Settings(), steps, i, Whole()) == Looped(Settings(), steps, 0, old(Whole()))
        decreases |steps| - i
      {
        var stop;
        rc, stop := Iterate(steps[i]);
        i := i + 1;
        if stop || i == |steps| { return; }
      }
    }

    /** aws_iot_mqtt_yield: between calls the client is left settled as YieldedEnds says. */
    method Yield(steps: seq<Step>) returns (rc: Code)
      requires Between(Whole())
      modifies this
      ensures Settings() == old(Settings())
      ensures var o := Yielded(Settings(), steps, old(Whole()));
              Whole() == o.l && rc == o.rc
      ensures |steps| > 0 && old(state) == DISCONNECTED_MANUALLY ==> rc == NETWORK_MANUALLY_DISCONNECTED
      ensures |steps| > 0 && old(state) in {INITIALIZED, DISCONNECTED_ERROR} ==> rc == NETWORK_DISCONNECTED_ERROR
      ensures |steps| > 0 && old(state) == YIELDING ==> rc == MQTT_CLIENT_NOT_IDLE_ERROR
      ensures Between(Whole()) && (|steps| > 0 && old(state) in {IDLE, PENDING_RECONNECT} && !misled ==> Settled(state))
    {
      hide Yielded, Between;
      ghost var l0 := Whole();
      rc := YieldSteps(steps);
      YieldedEnds(Settings(), steps, l0);
      YieldRefused(Settings(), steps, l0);
    }

    method YieldSteps(steps: seq<Step>) returns (rc: Code)
      modifies this
      ensures Settings() == old(Settings())
      ensures var o := Yielded(Settings(), steps, old(Whole()));
              Whole() == o.l && rc == o.rc
    {
      hide Looped;
      if |steps| == 0 { return NULL_VALUE_ERROR; }
      rc := CheckYield();
      if rc != SUCCESS { return; }
      if state != PENDING_RECONNECT {
        var _ := SetState(IDLE, YIELDING);
      }
      rc := InternalYield(steps);
      if rc != NETWORK_DISCONNECTED_ERROR && rc != NETWORK_ATTEMPTING_RECONNECT {
        var back := SetState(YIELDING, IDLE);
        if rc == SUCCESS && back != SUCCESS { rc := back; }
      }
    }

    /** Any sequence of application calls on the object: it follows the run of the specification, so between calls it is settled
        unless misled, and its reconnect tries are within their bound. */
    method Run(events: seq<Event>)
      requires Between(Whole())
      modifies this
      ensures Between(Whole()) && (!misled ==> Settled(state) || state == INITIALIZED)
      ensures state == PENDING_RECONNECT && MIN_WAIT <= MAX_WAIT ==>
                Doubling(failedTries) && |failedTries| <= Log2(MAX_WAIT / MIN_WAIT) + 1
                && (|failedTries| == Log2(MAX_WAIT / MIN_WAIT) + 1 <==> currentReconnectWaitInterval > MAX_WAIT)
    {
      for i := 0 to |events|
        invariant Between(Whole())
      {
        hide Between;
        match events[i] {
          case RequestEvent(op, busy, wanted, waits) => var _ := Request(op, busy, wanted, waits);
          case ConnectEvent(attempt) => var _ := Connect(attempt);
          case DisconnectEvent(result) => var _ := Disconnect(result);
          case YieldEvent(config, steps) =>
            autoReconnect, keepAliveInterval := config.autoReconnect, config.keepAliveInterval;
            var _ := Yield(steps);
        }
      }
      hide Pow, Log2;
      if state == PENDING_RECONNECT { TriesBounded(failedTries); }
    }
  }
}
