/** The shadow tables updated in place, loop by loop, refining the steps of module Shadow. */
module ShadowRecords {
  import opened Common
  import opened Shadow
  import opened ShadowReplies

  class Records {
    var acks: seq<Ack>
    var subs: seq<Sub>
    var topics: set<string>
    var log: seq<Reply>
    var next: nat

    ghost function Now(): State
      reads this
    {
      State(acks, subs, topics, log, next)
    }

    /** initializeRecords */
    constructor (maxAcks: nat, maxTopics: nat)
      requires maxAcks < 255
      ensures Initial(Now()) && Inv(Now()) && |acks| == maxAcks && |subs| == maxTopics
    {
      acks := seq(maxAcks, _ => Ack(true, "", "", GET, 0));
      subs := seq(maxTopics, _ => Sub(true, "", 0, false));
      topics, log, next := {}, [], 0;
      new;
      InitialInv(Now());
    }

    /** getNextFreeIndexOfSubscriptionList; the table's length stands for -1. */
    method NextFreeSub() returns (i: nat)
      modifies this`subs
      ensures i == FreeSub(old(subs), 0)
      ensures subs == if i < |old(subs)| then old(subs)[i := old(subs)[i].(free := false)] else old(subs)
    {
      i := 0;
      while i < |subs|
        invariant i <= |subs| && FreeSub(subs, 0) == FreeSub(subs, i) && subs == old(subs)
      {
        if subs[i].free {
          subs := subs[i := subs[i].(free := false)];
          return;
        }
        i := i + 1;
      }
    }

    method FindIndex(topic: string) returns (i: nat)
      ensures i == Find(subs, topic)
    {
      i := 0;
      while i < |subs|
        invariant i <= |subs| && forall j :: 0 <= j < i ==> !Live(subs[j], topic)
      {
        if !subs[i].free && subs[i].topic == topic { return; }
        i := i + 1;
      }
    }

    method IsSubscriptionPresent(thing: string, action: Action) returns (present: bool)
      ensures present == Present(subs, thing, action)
    {
      hide TopicName;
      var ta, tr := TopicName(thing, action, ACCEPTED), TopicName(thing, action, REJECTED);
      if ta == tr { TopicNameInjective(thing, action, ACCEPTED, thing, action, REJECTED); }
      var accepted, rejected := false, false;
      for i := 0 to |subs|
        invariant accepted <==> exists j :: 0 <= j < i && Live(subs[j], ta)
        invariant rejected <==> exists j :: 0 <= j < i && Live(subs[j], tr)
      {
        if !subs[i].free {
          if subs[i].topic == ta { accepted := true; } else if subs[i].topic == tr { rejected := true; }
        }
      }
      present := accepted && rejected;
    }

    method IncrementSubscriptionCnt(thing: string, action: Action, sticky: bool)
      modifies this`subs
      ensures subs == Increment(old(subs), TopicName(thing, action, ACCEPTED), TopicName(thing, action, REJECTED), sticky)
    {
      hide TopicName;
      var ta, tr := TopicName(thing, action, ACCEPTED), TopicName(thing, action, REJECTED);
      for i := 0 to |subs|
        invariant |subs| == |old(subs)|
        invariant forall j :: 0 <= j < i ==> subs[j] == Bumped(old(subs)[j], ta, tr, sticky)
        invariant forall j :: i <= j < |subs| ==> subs[j] == old(subs)[j]
      {
        if !subs[i].free && (subs[i].topic == ta || subs[i].topic == tr) {
          subs := subs[i := subs[i].(count := (subs[i].count + 1) % 256, sticky := sticky)];
        }
      }
    }

    method SubscribeToShadowActionAcks(thing: string, action: Action, sticky: bool, stray: set<string>)
      modifies this`subs, this`topics
      ensures Now() == Subscribe(old(Now()), thing, action, sticky, stray)
    {
      hide TopicName, FreeSub;
      var ta, tr := TopicName(thing, action, ACCEPTED), TopicName(thing, action, REJECTED);
      var i := NextFreeSub();
      var j := NextFreeSub();
      if i < |subs| { SecondFree(old(subs), i); }
      if i < |subs| && j < |subs| {
        WriteTwo(old(subs), i, j, Sub(false, ta, 1, sticky), Sub(false, tr, 1, sticky));
        topics := topics + {ta};
        subs := subs[i := Sub(false, ta, 1, sticky)];
        topics := topics + {tr};
        subs := subs[j := Sub(false, tr, 1, sticky)];
      } else if i < |subs| {
        subs := subs[i := subs[i].(free := true)];
        assert subs == old(subs);
        if subs[i].count == 1 { topics := topics - {subs[i].topic}; }
      } else {
        topics := topics - stray;
      }
    }

    /** unsubscribeFromAcceptedAndRejected for one of the two topics. */
    method UnsubscribeOne(topic: string)
      modifies this`subs, this`topics
      ensures subs == ReleaseTopic(old(subs), topic) && topics == old(topics) - Dropped(old(subs), topic)
    {
      var i := FindIndex(topic);
      if i < |subs| {
        if !subs[i].sticky && subs[i].count == 1 {
          topics := topics - {topic};
          subs := subs[i := subs[i].(free := true)];
        } else if subs[i].count > 1 {
          subs := subs[i := subs[i].(count := subs[i].count - 1)];
        }
      }
    }

    /** The callback for slot i, its unsubscriptions and freeing the slot. */
    method CompleteAck(i: nat, status: Status)
      requires i < |acks|
      modifies this`acks, this`subs, this`topics, this`log
      ensures Now() == Complete(old(Now()), i, status)
    {
      hide TopicName, ReleaseTopic, Dropped;
      log := log + [Reply(acks[i].id, status)];
      UnsubscribeOne(TopicName(acks[i].thing, acks[i].action, ACCEPTED));
      UnsubscribeOne(TopicName(acks[i].thing, acks[i].action, REJECTED));
      acks := acks[i := acks[i].(free := true)];
    }

    /** AckStatusCallback for a message on one of the acknowledgement topics, once its client token has been extracted. */
    method AckStatusCallback(token: string, thing: string, action: Action, kind: AckType) returns (accepted: bool)
      requires Inv(Now())
      modifies this`acks, this`subs, this`topics, this`log
      ensures accepted <==> kind == ACCEPTED || Contains(thing, "accepted")
      ensures Now() == Respond(old(Now()), token, accepted) && Inv(Now())
      ensures (forall i :: 0 <= i < |old(acks)| ==> !Awaits(old(acks)[i], token)) ==> Now() == old(Now())
      ensures forall i :: 0 <= i < |old(acks)| && Awaits(old(acks)[i], token) && (forall j :: 0 <= j < i ==> !Awaits(old(acks)[j], token)) ==>
                log == old(log) + [Reply(old(acks)[i].id, if accepted then ACK_ACCEPTED else ACK_REJECTED)]
                && acks == old(acks)[i := old(acks)[i].(free := true)]
    {
      hide Complete, Inv, Contains, TopicName;
      AcceptedTopics(thing, action, kind);
      accepted := Contains(TopicName(thing, action, kind), "accepted");
      StepKeepsInv(Now(), Response(token, accepted));
      FirstAnswered(Now(), token, accepted);
      var i := 0;
      while i < |acks|
        invariant i <= |acks| && Now() == old(Now())
        invariant forall j :: 0 <= j < i ==> acks[j].free || acks[j].token != token
      {
        if !acks[i].free && acks[i].token == token {
          assert FindAck(acks, token) == i;
          CompleteAck(i, if accepted then ACK_ACCEPTED else ACK_REJECTED);
          return;
        }
        i := i + 1;
      }
      assert FindAck(acks, token) == |acks|;
    }

    method HandleExpiredResponseCallbacks(expired: seq<bool>)
      requires Inv(Now()) && |expired| == |acks|
      modifies this`acks, this`subs, this`topics, this`log
      ensures Now() == Expire(old(Now()), 0, expired) && Inv(Now())
      ensures |acks| == |old(acks)| && forall i :: 0 <= i < |acks| ==>
                acks[i] == if !old(acks)[i].free && expired[i] then old(acks)[i].(free := true) else old(acks)[i]
      ensures forall r :: r in log <==> r in old(log) || AnyTimesOut(old(Now()), 0, expired, r)
    {
      hide Complete, Inv;
      StepKeepsInv(Now(), Expiry(expired));
      ExpireSlots(Now(), 0, expired);
      forall r ensures r in Expire(Now(), 0, expired).log <==> r in log || AnyTimesOut(Now(), 0, expired, r) {
        ExpireReplies(Now(), 0, expired, r);
      }
      var i := 0;
      while i < |acks|
        invariant i <= |acks| == |expired| == |old(acks)| && Expire(Now(), i, expired) == Expire(old(Now()), 0, expired)
      {
        if !acks[i].free && expired[i] {
          CompleteFrame(Now(), i, ACK_TIMEOUT);
          CompleteAck(i, ACK_TIMEOUT);
        }
        i := i + 1;
      }
    }

    /** aws_iot_shadow_internal_action; false is FAILURE, for a full ack table. */
    method InternalAction(thing: string, action: Action, token: Option<string>, callback: bool, sticky: bool, stray: set<string>) returns (ok: bool)
      requires Inv(Now())
      modifies this
      ensures Now() == Step(old(Now()), Request(thing, action, token, callback, sticky, stray))
      ensures ok <==> token.None? || !callback || (exists a <- old(acks) :: a.free)
      ensures Inv(Now()) <==> old(Roomy(Now(), Request(thing, action, token, callback, sticky, stray)))
    {
      hide Inv, Roomy, Subscribe, TopicName, Present;
      StepKeepsInv(Now(), Request(thing, action, token, callback, sticky, stray));
      if token.None? || !callback { return true; }
      var i := NextFreeAck();
      ok := i < |acks|;
      assert ok <==> exists a <- acks :: a.free by { if ok { assert acks[i] in acks; } }
      if !ok { return; }
      var present := IsSubscriptionPresent(thing, action);
      if !present {
        SubscribeToShadowActionAcks(thing, action, sticky, stray);
      } else {
        IncrementSubscriptionCnt(thing, action, sticky);
      }
      acks := acks[i := Ack(false, token.value, thing, action, next)];
      next := next + 1;
    }

    /** getNextFreeIndexOfAckWaitList */
    method NextFreeAck() returns (i: nat)
      ensures i == FreeAck(acks)
    {
      i := 0;
      while i < |acks|
        invariant i <= |acks| && forall j :: 0 <= j < i ==> !acks[j].free
      {
        if acks[i].free { return; }
        i := i + 1;
      }
    }
  }

  /** With the first free slot taken, the next search finds the first free one behind it. */
  lemma SecondFree(subs: seq<Sub>, i: nat)
    requires i == FreeSub(subs, 0) < |subs|
    ensures FreeSub(subs[i := subs[i].(free := false)], 0) == FreeSub(subs, i + 1)
  {
    var taken := subs[i := subs[i].(free := false)];
    assert forall j :: 0 <= j < |subs| && j != i ==> taken[j] == subs[j];
    assert !taken[i].free;
  }

  lemma WriteTwo(subs: seq<Sub>, i: nat, j: nat, a: Sub, r: Sub)
    requires i < j < |subs|
    ensures var taken := subs[i := subs[i].(free := false)];
            taken[j := taken[j].(free := false)][i := a][j := r] == subs[i := a][j := r]
  {
  }
}
