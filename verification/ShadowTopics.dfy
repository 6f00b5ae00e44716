/** How long the acknowledgement topics of a thing stay subscribed, over every run of module Shadow. */
module ShadowTopics {
  import opened Common
  import opened Shadow

  // ---------------------------------------------------------------- without sticky requests

  /** A topic is subscribed exactly while acks are outstanding, and its count is their number. */
  ghost predicate CountedTopic(st: State, topic: string, k: nat) {
    if k == 0 then Record(st.subs, topic).None? && topic !in st.topics
    else k < 256 && Record(st.subs, topic) == Some(Sub(false, topic, k, false)) && topic in st.topics
  }

  ghost predicate Counted(st: State, thing: string, action: Action) {
    var k := Outstanding(st.acks, thing, action);
    CountedTopic(st, TopicName(thing, action, ACCEPTED), k) && CountedTopic(st, TopicName(thing, action, REJECTED), k)
  }

  /** A request for this thing and action that asks for a lasting subscription. */
  predicate Sticks(e: Event, thing: string, action: Action) {
    e.Request? && e.thing == thing && e.action == action && e.sticky
  }

  lemma TrackCounts(st: State, e: Event, thing: string, action: Action)
    requires e.Request? && Tracked(st, e) && Inv(st) && Roomy(st, e) && Counted(st, thing, action) && !Sticks(e, thing, action)
    ensures Counted(Step(st, e), thing, action)
  {
    hide TopicName, Outstanding, FreeAck, Find, Record, Subscribe, Increment, Present, TwoFree, Matched, Unique;
    OutstandingWritten(st.acks, FreeAck(st.acks), Ack(false, e.token.value, e.thing, e.action, st.next), thing, action);
    if (e.thing, e.action) != (thing, action) { OtherTopics(e.thing, e.action, thing, action); }
    TrackTopic(st, e, thing, action, ACCEPTED);
    TrackTopic(st, e, thing, action, REJECTED);
  }

  /** What a tracked request does to the record of a topic. */
  lemma TrackTopic(st: State, e: Event, thing: string, action: Action, kind: AckType)
    requires e.Request? && Tracked(st, e) && Inv(st) && Roomy(st, e) && !Sticks(e, thing, action)
    requires CountedTopic(st, TopicName(thing, action, kind), Outstanding(st.acks, thing, action))
    ensures var k := Outstanding(st.acks, thing, action);
            CountedTopic(Step(st, e), TopicName(thing, action, kind), if (e.thing, e.action) == (thing, action) then k + 1 else k)
  {
    hide TopicName, Outstanding, FreeAck, Find, Subscribe, Increment, TwoFree;
    var ta, tr := TopicName(e.thing, e.action, ACCEPTED), TopicName(e.thing, e.action, REJECTED);
    var topic := TopicName(thing, action, kind);
    assert Matched(st, e.thing, e.action);
    if (e.thing, e.action) != (thing, action) { OtherTopics(e.thing, e.action, thing, action); }
    if Present(st.subs, e.thing, e.action) {
      IncrementEffect(st.subs, ta, tr, e.sticky, topic);
    } else {
      SubscribeEffect(st, e.thing, e.action, e.sticky, e.stray, topic);
    }
  }

  lemma CompleteCounts(st: State, i: nat, status: Status, thing: string, action: Action)
    requires Inv(st) && i < |st.acks| && !st.acks[i].free && Counted(st, thing, action)
    ensures Counted(Complete(st, i, status), thing, action)
  {
    hide TopicName, Outstanding, Record, Matched, Unique, Complete, CountedTopic;
    CompleteFrame(st, i, status);
    OutstandingWritten(st.acks, i, st.acks[i].(free := true), thing, action);
    CompleteTopic(st, i, status, thing, action, ACCEPTED);
    CompleteTopic(st, i, status, thing, action, REJECTED);
  }

  lemma CompleteTopic(st: State, i: nat, status: Status, thing: string, action: Action, kind: AckType)
    requires Inv(st) && i < |st.acks| && !st.acks[i].free
    requires CountedTopic(st, TopicName(thing, action, kind), Outstanding(st.acks, thing, action))
    requires Tracks(st.acks[i], thing, action) ==> Outstanding(st.acks, thing, action) > 0
    ensures var k := Outstanding(st.acks, thing, action);
            CountedTopic(Complete(st, i, status), TopicName(thing, action, kind), if Tracks(st.acks[i], thing, action) then k - 1 else k)
  {
    hide TopicName, Outstanding, Record, Matched, Complete;
    var a, topic := st.acks[i], TopicName(thing, action, kind);
    CompleteRecords(st, i, status, topic);
    if (a.thing, a.action) != (thing, action) { OtherTopics(a.thing, a.action, thing, action); }
  }

  lemma {:induction false} ExpireCounts(st: State, k: nat, expired: seq<bool>, thing: string, action: Action)
    requires Inv(st) && k <= |st.acks| == |expired| && Counted(st, thing, action)
    ensures Counted(Expire(st, k, expired), thing, action)
    decreases |st.acks| - k
  {
    hide Inv, Complete, Counted;
    if k < |st.acks| {
      if !st.acks[k].free && expired[k] {
        CompleteKeepsInv(st, k, ACK_TIMEOUT);
        CompleteCounts(st, k, ACK_TIMEOUT, thing, action);
        CompleteFrame(st, k, ACK_TIMEOUT);
        ExpireCounts(Complete(st, k, ACK_TIMEOUT), k + 1, expired, thing, action);
      } else {
        ExpireCounts(st, k + 1, expired, thing, action);
      }
    }
  }

  lemma StepCounts(st: State, e: Event, thing: string, action: Action)
    requires Inv(st) && Roomy(st, e) && (e.Expiry? ==> |e.expired| == |st.acks|) && Counted(st, thing, action) && !Sticks(e, thing, action)
    ensures Counted(Step(st, e), thing, action)
  {
    hide Inv, Complete, Track, Expire, Counted, Roomy;
    match e {
      case Request(_, _, _, _, _, _) =>
        if Tracked(st, e) { TrackCounts(st, e, thing, action); }
      case Response(token, accepted) =>
        var i := FindAck(st.acks, token);
        if i < |st.acks| { CompleteCounts(st, i, if accepted then ACK_ACCEPTED else ACK_REJECTED, thing, action); }
      case Expiry(expired) => ExpireCounts(st, 0, expired, thing, action);
    }
  }

  /** Over every run in which no request for a thing and an action asked for a lasting subscription: both of its topics are subscribed
      exactly while acks are outstanding, counting them, and are unsubscribed with the last one. */
  lemma {:induction false} RunCounts(sts: seq<State>, es: seq<Event>, n: nat, thing: string, action: Action)
    requires Execution(sts, es) && n <= |es| && (forall m :: 0 <= m < n ==> !Sticks(es[m], thing, action))
    requires forall kind :: TopicName(thing, action, kind) !in sts[0].topics
    ensures Counted(sts[n], thing, action)
    decreases n
  {
    hide Inv, Step, Roomy, TopicName;
    if n == 0 {
      NothingWaiting(sts[0].acks);
      NoRecord(sts[0], TopicName(thing, action, ACCEPTED));
      NoRecord(sts[0], TopicName(thing, action, REJECTED));
    } else {
      hide Initial, Counted;
      RunCounts(sts, es, n - 1, thing, action);
      RunKeepsInv(sts, es, n - 1);
      StepCounts(sts[n - 1], es[n - 1], thing, action);
    }
  }

  lemma NoRecord(st: State, topic: string)
    requires Initial(st)
    ensures Record(st.subs, topic).None?
  {
  }

  // ---------------------------------------------------------------- after a sticky request

  ghost predicate LastingTopic(st: State, topic: string) {
    Record(st.subs, topic).Some? && Record(st.subs, topic).value.sticky
  }

  /** A request for this thing and action that does not ask for a lasting subscription. */
  predicate Loosens(e: Event, thing: string, action: Action) {
    e.Request? && e.thing == thing && e.action == action && !e.sticky
  }

  lemma TrackLasts(st: State, e: Event, thing: string, action: Action, kind: AckType)
    requires e.Request? && Tracked(st, e) && Inv(st) && Roomy(st, e) && !Loosens(e, thing, action)
    requires Sticks(e, thing, action) || LastingTopic(st, TopicName(thing, action, kind))
    ensures LastingTopic(Step(st, e), TopicName(thing, action, kind))
  {
    hide TopicName, Outstanding, FreeAck, Find, Subscribe, Increment, TwoFree;
    var ta, tr := TopicName(e.thing, e.action, ACCEPTED), TopicName(e.thing, e.action, REJECTED);
    var topic := TopicName(thing, action, kind);
    assert Matched(st, e.thing, e.action);
    if (e.thing, e.action) != (thing, action) { OtherTopics(e.thing, e.action, thing, action); }
    if Present(st.subs, e.thing, e.action) {
      IncrementEffect(st.subs, ta, tr, e.sticky, topic);
    } else {
      SubscribeEffect(st, e.thing, e.action, e.sticky, e.stray, topic);
    }
  }

  lemma CompleteLasts(st: State, i: nat, status: Status, topic: string)
    requires i < |st.acks| && Unique(st.subs) && LastingTopic(st, topic)
    ensures LastingTopic(Complete(st, i, status), topic)
  {
    hide TopicName, Record, Complete;
    CompleteRecords(st, i, status, topic);
  }

  lemma {:induction false} ExpireLasts(st: State, k: nat, expired: seq<bool>, topic: string)
    requires Inv(st) && k <= |st.acks| == |expired| && LastingTopic(st, topic)
    ensures LastingTopic(Expire(st, k, expired), topic)
    decreases |st.acks| - k
  {
    hide Matched, Once, Complete, LastingTopic, Unique;
    if k < |st.acks| {
      if !st.acks[k].free && expired[k] {
        CompleteKeepsInv(st, k, ACK_TIMEOUT);
        CompleteLasts(st, k, ACK_TIMEOUT, topic);
        CompleteFrame(st, k, ACK_TIMEOUT);
        ExpireLasts(Complete(st, k, ACK_TIMEOUT), k + 1, expired, topic);
      } else {
        ExpireLasts(st, k + 1, expired, topic);
      }
    }
  }

  lemma StepLasts(st: State, e: Event, thing: string, action: Action, kind: AckType)
    requires Inv(st) && Roomy(st, e) && (e.Expiry? ==> |e.expired| == |st.acks|) && !Loosens(e, thing, action)
    requires LastingTopic(st, TopicName(thing, action, kind))
    ensures LastingTopic(Step(st, e), TopicName(thing, action, kind))
  {
    hide Matched, Once, Unique, Complete, Track, Expire, LastingTopic, Roomy, TopicName;
    match e {
      case Request(_, _, _, _, _, _) =>
        if Tracked(st, e) { TrackLasts(st, e, thing, action, kind); }
      case Response(token, accepted) =>
        var i := FindAck(st.acks, token);
        if i < |st.acks| { CompleteLasts(st, i, if accepted then ACK_ACCEPTED else ACK_REJECTED, TopicName(thing, action, kind)); }
      case Expiry(expired) => ExpireLasts(st, 0, expired, TopicName(thing, action, kind));
    }
  }

  /** Over every run: from a tracked request that asks for a lasting subscription on, both topics are delivered, whatever is answered
      or expires, until a request for the same thing and action no longer asks for it. */
  lemma {:induction false} RunLasts(sts: seq<State>, es: seq<Event>, m: nat, n: nat, thing: string, action: Action, kind: AckType)
    requires Execution(sts, es) && m < n <= |es| && Sticks(es[m], thing, action) && Tracked(sts[m], es[m])
    requires forall l :: m < l < n ==> !Loosens(es[l], thing, action)
    ensures var topic := TopicName(thing, action, kind);
            LastingTopic(sts[n], topic) && topic in sts[n].topics
    decreases n
  {
    hide Initial, TopicName, Step, Roomy, LastingTopic;
    RunKeepsInv(sts, es, n - 1);
    RunKeepsInv(sts, es, n);
    if n == m + 1 {
      TrackLasts(sts[m], es[m], thing, action, kind);
    } else {
      RunLasts(sts, es, m, n - 1, thing, action, kind);
      StepLasts(sts[n - 1], es[n - 1], thing, action, kind);
    }
    LastingDelivered(sts[n], thing, action, kind);
  }

  lemma LastingDelivered(st: State, thing: string, action: Action, kind: AckType)
    requires Inv(st) && LastingTopic(st, TopicName(thing, action, kind))
    ensures TopicName(thing, action, kind) in st.topics
  {
    hide TopicName, Record, Outstanding;
    assert Matched(st, thing, action);
  }
}
