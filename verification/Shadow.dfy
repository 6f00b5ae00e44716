/** Shadow bookkeeping: reference-counted subscriptions to acknowledgement topics, kept against the table of outstanding acks.
    Each request, response and expiry is one atomic step; subscribe, publish and unsubscribe succeed. */
module Shadow {
  import opened Common

  datatype Action = GET | UPDATE | DELETE

  datatype AckType = ACCEPTED | REJECTED

  datatype Status = ACK_ACCEPTED | ACK_REJECTED | ACK_TIMEOUT

  /** A slot of AckWaitList; `id` numbers the tracked request and stands for its callback and context. */
  datatype Ack = Ack(free: bool, token: string, thing: string, action: Action, id: nat)

  type Counter = x: nat | x < 256

  /** A slot of SubscriptionList; a free slot keeps what was last written to it. */
  datatype Sub = Sub(free: bool, topic: string, count: Counter, sticky: bool)

  /** One application callback. */
  datatype Reply = Reply(id: nat, status: Status)

  /** Both tables, the topics the broker delivers, the callbacks made so far and the number of tracked requests. */
  datatype State = State(acks: seq<Ack>, subs: seq<Sub>, topics: set<string>, log: seq<Reply>, next: nat)

  // ---------------------------------------------------------------- topic names

  function ActionName(a: Action): string {
    match a case GET => "get" case UPDATE => "update" case DELETE => "delete"
  }

  function AckName(k: AckType): string {
    match k case ACCEPTED => "accepted" case REJECTED => "rejected"
  }

  /** topicNameFromThingAndAction */
  function TopicName(thing: string, a: Action, k: AckType): (t: string) {
    "$aws/things/" + thing + "/shadow/" + ActionName(a) + "/" + AckName(k)
  }

  lemma SplitSuffix(x: string, y: string, x': string, y': string)
    requires x + y == x' + y' && |y| == |y'|
    ensures x == x' && y == y'
  {
    var t := x + y;
    assert t[..|x|] == x && t[|x|..] == y;
    assert t[..|x|] == (x' + y')[..|x|] == x';
    assert t[|x|..] == (x' + y')[|x|..] == y';
  }

  /** The third character from the end tells the actions apart. */
  lemma ActionMark(x: string, a: Action)
    ensures var t := x + ActionName(a);
            |t| >= 3 && t[|t| - 3] == match a case GET => 'g' case UPDATE => 'a' case DELETE => 'e'
  {
  }

  /** Different things, actions or acknowledgement kinds have different topics. */
  lemma TopicNameInjective(thing: string, a: Action, k: AckType, thing': string, a': Action, k': AckType)
    requires TopicName(thing, a, k) == TopicName(thing', a', k')
    ensures thing == thing' && a == a' && k == k'
  {
    var x, x' := "$aws/things/" + thing + "/shadow/", "$aws/things/" + thing' + "/shadow/";
    var y, y' := x + ActionName(a), x' + ActionName(a');
    SplitSuffix(y + "/", AckName(k), y' + "/", AckName(k'));
    assert AckName(ACCEPTED)[0] != AckName(REJECTED)[0];
    SplitSuffix(y, "/", y', "/");
    ActionMark(x, a);
    ActionMark(x', a');
    SplitSuffix(x, ActionName(a), x', ActionName(a'));
    SplitSuffix("$aws/things/" + thing, "/shadow/", "$aws/things/" + thing', "/shadow/");
    SplitSuffix("$aws/things/", thing, "$aws/things/", thing');
  }

  // ---------------------------------------------------------------- the tables

  predicate Live(s: Sub, topic: string) {
    !s.free && s.topic == topic
  }

  /** findIndexOfSubscriptionList, with the table's length for "none". */
  function Find(subs: seq<Sub>, topic: string): (i: nat)
    ensures i <= |subs|
    ensures i < |subs| ==> Live(subs[i], topic)
    ensures forall j :: 0 <= j < i ==> !Live(subs[j], topic)
  {
    if |subs| == 0 || Live(subs[0], topic) then 0 else 1 + Find(subs[1..], topic)
  }

  /** The live record of a topic. */
  function Record(subs: seq<Sub>, topic: string): (r: Option<Sub>)
    ensures r.Some? ==> Live(r.value, topic)
  {
    var i := Find(subs, topic);
    if i < |subs| then Some(subs[i]) else None
  }

  ghost predicate Unique(subs: seq<Sub>) {
    forall i, j :: 0 <= i < |subs| && 0 <= j < |subs| && !subs[i].free && !subs[j].free && subs[i].topic == subs[j].topic ==> i == j
  }

  /** Overwriting the live record of a topic, or a free slot for a topic without one, changes that topic's record and no other. */
  lemma RecordWritten(subs: seq<Sub>, i: nat, s: Sub, topic: string)
    requires i < |subs| && Unique(subs)
    requires subs[i].free || subs[i].topic == s.topic
    requires subs[i].free ==> !s.free && Record(subs, s.topic).None?
    ensures Unique(subs[i := s])
    ensures Record(subs[i := s], topic) == (if topic != s.topic then Record(subs, topic) else if s.free then None else Some(s))
  {
    var subs' := subs[i := s];
    if topic != s.topic {
      assert forall j :: 0 <= j < |subs| ==> (Live(subs'[j], topic) <==> Live(subs[j], topic));
      assert Find(subs, topic) == Find(subs', topic);
    } else {
      assert forall j :: 0 <= j < |subs| && j != i ==> !Live(subs'[j], topic);
      assert Live(subs'[i], topic) == !s.free;
    }
  }

  function Tracks(a: Ack, thing: string, action: Action): bool {
    !a.free && a.thing == thing && a.action == action
  }

  /** How many acks are outstanding for a thing and an action. */
  function Outstanding(acks: seq<Ack>, thing: string, action: Action): (k: nat)
    ensures k <= |acks|
  {
    if |acks| == 0 then 0 else Outstanding(acks[1..], thing, action) + (if Tracks(acks[0], thing, action) then 1 else 0)
  }

  lemma {:induction false} OutstandingWritten(acks: seq<Ack>, i: nat, a: Ack, thing: string, action: Action)
    requires i < |acks|
    ensures Outstanding(acks[i := a], thing, action) + (if Tracks(acks[i], thing, action) then 1 else 0)
            == Outstanding(acks, thing, action) + (if Tracks(a, thing, action) then 1 else 0)
  {
    if i == 0 {
      assert acks[i := a][1..] == acks[1..];
    } else {
      assert acks[i := a][1..] == acks[1..][i - 1 := a];
      OutstandingWritten(acks[1..], i - 1, a, thing, action);
    }
  }

  /** Pending occurrences of a request, and callbacks made for it. */
  function Waiting(acks: seq<Ack>, id: nat): (n: nat) {
    if |acks| == 0 then 0 else Waiting(acks[1..], id) + (if !acks[0].free && acks[0].id == id then 1 else 0)
  }

  function Answered(log: seq<Reply>, id: nat): (n: nat) {
    if |log| == 0 then 0 else Answered(log[..|log| - 1], id) + (if log[|log| - 1].id == id then 1 else 0)
  }

  lemma {:induction false} WaitingWritten(acks: seq<Ack>, i: nat, a: Ack, id: nat)
    requires i < |acks|
    ensures Waiting(acks[i := a], id) + (if !acks[i].free && acks[i].id == id then 1 else 0)
            == Waiting(acks, id) + (if !a.free && a.id == id then 1 else 0)
  {
    if i == 0 {
      assert acks[i := a][1..] == acks[1..];
    } else {
      assert acks[i := a][1..] == acks[1..][i - 1 := a];
      WaitingWritten(acks[1..], i - 1, a, id);
    }
  }

  // ---------------------------------------------------------------- the invariant

  /** The records of one thing and action against the number k of outstanding acks: either there are none and k is 0, or both
      topics have a record with the same count, k or k+1, and the broker delivers both. */
  ghost predicate Matched(st: State, thing: string, action: Action) {
    var k := Outstanding(st.acks, thing, action);
    var ta, tr := TopicName(thing, action, ACCEPTED), TopicName(thing, action, REJECTED);
    var a, r := Record(st.subs, ta), Record(st.subs, tr);
    (a.None? && r.None? && k == 0)
    || (a.Some? && r.Some? && a.value.count == r.value.count && a.value.sticky == r.value.sticky
        && (a.value.count == k || a.value.count == k + 1) && a.value.count >= 1 && ta in st.topics && tr in st.topics)
  }

  /** Every tracked request is either waiting or has been answered, once. */
  ghost predicate Once(st: State) {
    forall id: nat :: Waiting(st.acks, id) + Answered(st.log, id) == (if id < st.next then 1 else 0)
  }

  ghost predicate Inv(st: State) {
    |st.acks| < 255 && Unique(st.subs) && (forall thing, action :: Matched(st, thing, action)) && Once(st)
  }

  // ---------------------------------------------------------------- releasing

  /** What giving up one reference makes of a record: dropped at count 1 unless sticky, else decremented above 1. */
  function Released(s: Sub): (r: Sub) {
    if !s.sticky && s.count == 1 then s.(free := true)
    else if s.count > 1 then s.(count := s.count - 1)
    else s
  }

  function ReleaseTopic(subs: seq<Sub>, topic: string): (r: seq<Sub>)
    ensures |r| == |subs|
  {
    var i := Find(subs, topic);
    if i < |subs| then subs[i := Released(subs[i])] else subs
  }

  /** The topics unsubscribed by giving up one reference. */
  function Dropped(subs: seq<Sub>, topic: string): (r: set<string>) {
    var r := Record(subs, topic);
    if r.Some? && Released(r.value).free then {topic} else {}
  }

  function ReleasedRecord(r: Option<Sub>): Option<Sub> {
    if r.None? || Released(r.value).free then None else Some(Released(r.value))
  }

  lemma ReleaseEffect(subs: seq<Sub>, topic: string, other: string)
    requires Unique(subs)
    ensures Unique(ReleaseTopic(subs, topic))
    ensures Record(ReleaseTopic(subs, topic), other)
            == if other != topic then Record(subs, other) else ReleasedRecord(Record(subs, other))
  {
    hide Find;
    var i := Find(subs, topic);
    if i < |subs| { RecordWritten(subs, i, Released(subs[i]), other); }
  }

  /** unsubscribeFromAcceptedAndRejected for slot i, its callback and freeing the slot. */
  function Complete(st: State, i: nat, status: Status): (st': State)
    requires i < |st.acks|
  {
    var a := st.acks[i];
    var ta, tr := TopicName(a.thing, a.action, ACCEPTED), TopicName(a.thing, a.action, REJECTED);
    var subs1 := ReleaseTopic(st.subs, ta);
    State(st.acks[i := a.(free := true)], ReleaseTopic(subs1, tr), st.topics - Dropped(st.subs, ta) - Dropped(subs1, tr),
          st.log + [Reply(a.id, status)], st.next)
  }

  /** Completing releases both topics' records and touches no other record. */
  lemma CompleteRecords(st: State, i: nat, status: Status, topic: string)
    requires i < |st.acks| && Unique(st.subs)
    ensures var st', a := Complete(st, i, status), st.acks[i];
            var ta, tr := TopicName(a.thing, a.action, ACCEPTED), TopicName(a.thing, a.action, REJECTED);
            ta != tr && Unique(st'.subs)
            && Record(st'.subs, topic) == (if topic == ta || topic == tr then ReleasedRecord(Record(st.subs, topic)) else Record(st.subs, topic))
            && st'.topics == st.topics - Dropped(st.subs, ta) - Dropped(st.subs, tr)
  {
    hide TopicName, Record, Released, ReleaseTopic;
    var a := st.acks[i];
    var ta, tr := TopicName(a.thing, a.action, ACCEPTED), TopicName(a.thing, a.action, REJECTED);
    if ta == tr { TopicNameInjective(a.thing, a.action, ACCEPTED, a.thing, a.action, REJECTED); }
    ReleaseEffect(st.subs, ta, topic);
    ReleaseEffect(st.subs, ta, tr);
    ReleaseEffect(ReleaseTopic(st.subs, ta), tr, topic);
  }

  lemma CompleteOwn(st: State, i: nat, status: Status)
    requires i < |st.acks| && !st.acks[i].free && Unique(st.subs) && Matched(st, st.acks[i].thing, st.acks[i].action)
    ensures Matched(Complete(st, i, status), st.acks[i].thing, st.acks[i].action)
  {
    hide TopicName, Record, Outstanding, ReleaseTopic;
    var a := st.acks[i];
    OutstandingWritten(st.acks, i, a.(free := true), a.thing, a.action);
    CompleteRecords(st, i, status, TopicName(a.thing, a.action, ACCEPTED));
    CompleteRecords(st, i, status, TopicName(a.thing, a.action, REJECTED));
  }

  lemma CompleteOther(st: State, i: nat, status: Status, thing: string, action: Action)
    requires i < |st.acks| && !st.acks[i].free && Unique(st.subs) && Matched(st, thing, action)
    requires (thing, action) != (st.acks[i].thing, st.acks[i].action)
    ensures Matched(Complete(st, i, status), thing, action)
  {
    hide TopicName, Record, Outstanding, ReleaseTopic, ReleasedRecord;
    var a := st.acks[i];
    OtherTopics(a.thing, a.action, thing, action);
    OutstandingWritten(st.acks, i, a.(free := true), thing, action);
    CompleteRecords(st, i, status, TopicName(thing, action, ACCEPTED));
    CompleteRecords(st, i, status, TopicName(thing, action, REJECTED));
  }

  lemma OtherTopics(thing: string, action: Action, thing': string, action': Action)
    requires (thing, action) != (thing', action')
    ensures forall k, k' :: TopicName(thing, action, k) != TopicName(thing', action', k')
  {
    forall k, k' ensures TopicName(thing, action, k) != TopicName(thing', action', k') {
      if TopicName(thing, action, k) == TopicName(thing', action', k') {
        TopicNameInjective(thing, action, k, thing', action', k');
      }
    }
  }

  /** A response or an expiry keeps the invariant. */
  lemma CompleteKeepsInv(st: State, i: nat, status: Status)
    requires Inv(st) && i < |st.acks| && !st.acks[i].free
    ensures Inv(Complete(st, i, status))
  {
    hide Matched, Complete, Waiting, Answered;
    var st', a := Complete(st, i, status), st.acks[i];
    CompleteFrame(st, i, status);
    CompleteRecords(st, i, status, "");
    forall thing, action ensures Matched(st', thing, action) {
      assert Matched(st, thing, action) && Matched(st, a.thing, a.action);
      if (thing, action) == (a.thing, a.action) { CompleteOwn(st, i, status); } else { CompleteOther(st, i, status, thing, action); }
    }
    forall id: nat ensures Waiting(st'.acks, id) + Answered(st'.log, id) == (if id < st'.next then 1 else 0) {
      WaitingWritten(st.acks, i, a.(free := true), id);
      AnsweredMore(st.log, Reply(a.id, status), id);
      assert Waiting(st.acks, id) + Answered(st.log, id) == if id < st.next then 1 else 0;
    }
  }

  lemma CompleteFrame(st: State, i: nat, status: Status)
    requires i < |st.acks|
    ensures var st', a := Complete(st, i, status), st.acks[i];
            st'.acks == st.acks[i := a.(free := true)] && st'.log == st.log + [Reply(a.id, status)] && st'.next == st.next
  {
  }

  lemma AnsweredMore(log: seq<Reply>, r: Reply, id: nat)
    ensures Answered(log + [r], id) == Answered(log, id) + if r.id == id then 1 else 0
  {
    assert (log + [r])[..|log|] == log;
  }

  // ---------------------------------------------------------------- requests

  /** isSubscriptionPresent */
  function Present(subs: seq<Sub>, thing: string, action: Action): (p: bool) {
    Find(subs, TopicName(thing, action, ACCEPTED)) < |subs| && Find(subs, TopicName(thing, action, REJECTED)) < |subs|
  }

  function Bumped(s: Sub, ta: string, tr: string, sticky: bool): (r: Sub) {
    if Live(s, ta) || Live(s, tr) then s.(count := (s.count + 1) % 256, sticky := sticky) else s
  }

  /** incrementSubscriptionCnt */
  function Increment(subs: seq<Sub>, ta: string, tr: string, sticky: bool): (r: seq<Sub>)
    ensures |r| == |subs| && forall i :: 0 <= i < |subs| ==> r[i] == Bumped(subs[i], ta, tr, sticky)
  {
    seq(|subs|, i requires 0 <= i < |subs| => Bumped(subs[i], ta, tr, sticky))
  }

  lemma IncrementEffect(subs: seq<Sub>, ta: string, tr: string, sticky: bool, topic: string)
    requires Unique(subs)
    ensures var subs' := Increment(subs, ta, tr, sticky);
            var r := Record(subs, topic);
            Unique(subs') && Record(subs', topic) == if r.None? then None else Some(Bumped(r.value, ta, tr, sticky))
  {
    hide Find;
    var subs' := Increment(subs, ta, tr, sticky);
    assert forall j :: 0 <= j < |subs| ==> (Live(subs'[j], topic) <==> Live(subs[j], topic));
    assert Find(subs', topic) == Find(subs, topic);
  }

  /** The first free slot from `from` on, or the table's length. */
  function FreeSub(subs: seq<Sub>, from: nat): (i: nat)
    requires from <= |subs|
    ensures from <= i <= |subs| && (i < |subs| ==> subs[i].free) && forall j :: from <= j < i ==> !subs[j].free
    decreases |subs| - from
  {
    if from == |subs| || subs[from].free then from else FreeSub(subs, from + 1)
  }

  ghost predicate TwoFree(subs: seq<Sub>) {
    exists i, j :: 0 <= i < j < |subs| && subs[i].free && subs[j].free
  }

  /** subscribeToShadowActionAcks: two free slots are taken if there are two. Otherwise it still reports success; the slot it
      then inspects, the single free one or the one before the table, may make it unsubscribe a topic. `stray` is what the
      read before the table leads to. */
  function Subscribe(st: State, thing: string, action: Action, sticky: bool, stray: set<string>): (st': State)
    ensures st'.acks == st.acks && st'.log == st.log && st'.next == st.next
  {
    var subs := st.subs;
    var ta, tr := TopicName(thing, action, ACCEPTED), TopicName(thing, action, REJECTED);
    var i := FreeSub(subs, 0);
    var j := if i < |subs| then FreeSub(subs, i + 1) else i;
    if j < |subs| then
      st.(subs := subs[i := Sub(false, ta, 1, sticky)][j := Sub(false, tr, 1, sticky)], topics := st.topics + {ta, tr})
    else if i < |subs| then st.(topics := st.topics - if subs[i].count == 1 then {subs[i].topic} else {})
    else st.(topics := st.topics - stray)
  }

  lemma SubscribeEffect(st: State, thing: string, action: Action, sticky: bool, stray: set<string>, topic: string)
    requires Unique(st.subs) && TwoFree(st.subs)
    requires Record(st.subs, TopicName(thing, action, ACCEPTED)).None? && Record(st.subs, TopicName(thing, action, REJECTED)).None?
    ensures var st' := Subscribe(st, thing, action, sticky, stray);
            var ta, tr := TopicName(thing, action, ACCEPTED), TopicName(thing, action, REJECTED);
            Unique(st'.subs) && st'.topics == st.topics + {ta, tr}
            && Record(st'.subs, topic) == if topic == ta || topic == tr then Some(Sub(false, topic, 1, sticky)) else Record(st.subs, topic)
  {
    hide TopicName, Find, FreeSub, Record;
    var subs := st.subs;
    var ta, tr := TopicName(thing, action, ACCEPTED), TopicName(thing, action, REJECTED);
    if ta == tr { TopicNameInjective(thing, action, ACCEPTED, thing, action, REJECTED); }
    var x, y :| 0 <= x < y < |subs| && subs[x].free && subs[y].free;
    var i := FreeSub(subs, 0);
    assert i <= x;
    var j := FreeSub(subs, i + 1);
    assert j <= y;
    var a, r := Sub(false, ta, 1, sticky), Sub(false, tr, 1, sticky);
    RecordWritten(subs, i, a, tr);
    RecordWritten(subs, i, a, topic);
    RecordWritten(subs[i := a], j, r, topic);
  }

  function FreeAck(acks: seq<Ack>): (i: nat)
    ensures i <= |acks| && (i < |acks| ==> acks[i].free) && forall j :: 0 <= j < i ==> !acks[j].free
  {
    if |acks| == 0 || acks[0].free then 0 else 1 + FreeAck(acks[1..])
  }

  /** aws_iot_shadow_internal_action for a request with a client token and a callback, when a slot is free for its ack. */
  function Track(st: State, thing: string, action: Action, token: string, sticky: bool, stray: set<string>): (st': State)
    requires FreeAck(st.acks) < |st.acks|
  {
    var ta, tr := TopicName(thing, action, ACCEPTED), TopicName(thing, action, REJECTED);
    var st1 := if Present(st.subs, thing, action) then st.(subs := Increment(st.subs, ta, tr, sticky))
               else Subscribe(st, thing, action, sticky, stray);
    st1.(acks := st.acks[FreeAck(st.acks) := Ack(false, token, thing, action, st.next)], next := st.next + 1)
  }

  lemma TrackOther(st: State, thing: string, action: Action, token: string, sticky: bool, stray: set<string>, thing': string, action': Action)
    requires FreeAck(st.acks) < |st.acks| && Unique(st.subs) && (Present(st.subs, thing, action) || TwoFree(st.subs))
    requires Matched(st, thing, action) && Matched(st, thing', action') && (thing, action) != (thing', action')
    ensures Matched(Track(st, thing, action, token, sticky, stray), thing', action')
  {
    hide TopicName, Outstanding, FreeAck, Find, Subscribe, Increment;
    var ta, tr := TopicName(thing, action, ACCEPTED), TopicName(thing, action, REJECTED);
    OtherTopics(thing, action, thing', action');
    OutstandingWritten(st.acks, FreeAck(st.acks), Ack(false, token, thing, action, st.next), thing', action');
    if Present(st.subs, thing, action) {
      IncrementEffect(st.subs, ta, tr, sticky, TopicName(thing', action', ACCEPTED));
      IncrementEffect(st.subs, ta, tr, sticky, TopicName(thing', action', REJECTED));
    } else {
      SubscribeEffect(st, thing, action, sticky, stray, TopicName(thing', action', ACCEPTED));
      SubscribeEffect(st, thing, action, sticky, stray, TopicName(thing', action', REJECTED));
    }
  }

  lemma TrackOwn(st: State, thing: string, action: Action, token: string, sticky: bool, stray: set<string>)
    requires FreeAck(st.acks) < |st.acks| < 255 && Unique(st.subs) && Matched(st, thing, action)
    requires Present(st.subs, thing, action) || TwoFree(st.subs)
    ensures Matched(Track(st, thing, action, token, sticky, stray), thing, action)
    ensures Unique(Track(st, thing, action, token, sticky, stray).subs)
  {
    hide TopicName, Outstanding, FreeAck, Find, Subscribe, Increment;
    var ta, tr := TopicName(thing, action, ACCEPTED), TopicName(thing, action, REJECTED);
    OutstandingWritten(st.acks, FreeAck(st.acks), Ack(false, token, thing, action, st.next), thing, action);
    if Present(st.subs, thing, action) {
      IncrementEffect(st.subs, ta, tr, sticky, ta);
      IncrementEffect(st.subs, ta, tr, sticky, tr);
    } else {
      SubscribeEffect(st, thing, action, sticky, stray, ta);
      SubscribeEffect(st, thing, action, sticky, stray, tr);
    }
  }

  /** Without two free slots a first request is tracked although nothing was subscribed. */
  lemma TrackWithoutRoom(st: State, thing: string, action: Action, token: string, sticky: bool, stray: set<string>)
    requires FreeAck(st.acks) < |st.acks| && !Present(st.subs, thing, action) && !TwoFree(st.subs)
    ensures !Matched(Track(st, thing, action, token, sticky, stray), thing, action)
  {
    hide TopicName, Outstanding, FreeAck, Find;
    OutstandingWritten(st.acks, FreeAck(st.acks), Ack(false, token, thing, action, st.next), thing, action);
    assert Track(st, thing, action, token, sticky, stray).subs == st.subs;
  }

  /** A tracked request keeps the invariant exactly when its topics are already subscribed or two slots are free. */
  lemma TrackKeepsInv(st: State, thing: string, action: Action, token: string, sticky: bool, stray: set<string>)
    requires Inv(st) && FreeAck(st.acks) < |st.acks|
    ensures Inv(Track(st, thing, action, token, sticky, stray)) <==> Present(st.subs, thing, action) || TwoFree(st.subs)
  {
    hide Matched, Waiting, Present, TwoFree, TopicName, Subscribe, Unique;
    var st' := Track(st, thing, action, token, sticky, stray);
    if Present(st.subs, thing, action) || TwoFree(st.subs) {
      assert Matched(st, thing, action);
      TrackOwn(st, thing, action, token, sticky, stray);
      forall thing', action' ensures Matched(st', thing', action') {
        assert Matched(st, thing', action');
        if (thing, action) != (thing', action') { TrackOther(st, thing, action, token, sticky, stray, thing', action'); }
      }
      forall id: nat ensures Waiting(st'.acks, id) + Answered(st'.log, id) == (if id < st'.next then 1 else 0) {
        WaitingWritten(st.acks, FreeAck(st.acks), Ack(false, token, thing, action, st.next), id);
        assert Waiting(st.acks, id) + Answered(st.log, id) == if id < st.next then 1 else 0;
      }
    } else {
      TrackWithoutRoom(st, thing, action, token, sticky, stray);
    }
  }

  // ---------------------------------------------------------------- runs

  function FindAck(acks: seq<Ack>, token: string): (i: nat)
    ensures i <= |acks| && (i < |acks| ==> !acks[i].free && acks[i].token == token)
    ensures forall j :: 0 <= j < i ==> acks[j].free || acks[j].token != token
  {
    if |acks| == 0 || (!acks[0].free && acks[0].token == token) then 0 else 1 + FindAck(acks[1..], token)
  }

  /** AckStatusCallback for a message carrying a client token: the first waiting request with that token is answered. */
  function Respond(st: State, token: string, accepted: bool): (st': State) {
    var i := FindAck(st.acks, token);
    if i == |st.acks| then st else Complete(st, i, if accepted then ACK_ACCEPTED else ACK_REJECTED)
  }

  /** HandleExpiredResponseCallbacks from slot i on; `expired` tells which timers have run out. */
  function Expire(st: State, i: nat, expired: seq<bool>): (st': State)
    requires i <= |st.acks| == |expired|
    ensures |st'.acks| == |st.acks|
    decreases |st.acks| - i
  {
    if i == |st.acks| then st
    else if !st.acks[i].free && expired[i] then Expire(Complete(st, i, ACK_TIMEOUT), i + 1, expired)
    else Expire(st, i + 1, expired)
  }

  datatype Event =
    | Request(thing: string, action: Action, token: Option<string>, callback: bool, sticky: bool, stray: set<string>)
    | Response(clientToken: string, accepted: bool)
    | Expiry(expired: seq<bool>)

  predicate Tracked(st: State, e: Event)
    requires e.Request?
  {
    e.token.Some? && e.callback && FreeAck(st.acks) < |st.acks|
  }

  function Step(st: State, e: Event): (st': State)
    requires e.Expiry? ==> |e.expired| == |st.acks|
  {
    match e
    case Request(thing, action, token, callback, sticky, stray) =>
      if Tracked(st, e) then Track(st, thing, action, token.value, sticky, stray) else st
    case Response(token, accepted) => Respond(st, token, accepted)
    case Expiry(expired) => Expire(st, 0, expired)
  }

  /** What a caller can check before a step: a tracked request for an unsubscribed topic pair finds two free slots. */
  ghost predicate Roomy(st: State, e: Event) {
    e.Request? && Tracked(st, e) ==> Present(st.subs, e.thing, e.action) || TwoFree(st.subs)
  }

  lemma {:induction false} ExpireKeepsInv(st: State, i: nat, expired: seq<bool>)
    requires Inv(st) && i <= |st.acks| == |expired|
    ensures Inv(Expire(st, i, expired))
    decreases |st.acks| - i
  {
    hide Inv, Complete;
    if i < |st.acks| {
      if !st.acks[i].free && expired[i] {
        CompleteKeepsInv(st, i, ACK_TIMEOUT);
        CompleteFrame(st, i, ACK_TIMEOUT);
        ExpireKeepsInv(Complete(st, i, ACK_TIMEOUT), i + 1, expired);
      } else {
        ExpireKeepsInv(st, i + 1, expired);
      }
    }
  }

  /** A step keeps the invariant exactly when it is roomy. */
  lemma StepKeepsInv(st: State, e: Event)
    requires Inv(st) && (e.Expiry? ==> |e.expired| == |st.acks|)
    ensures Inv(Step(st, e)) <==> Roomy(st, e)
  {
    hide Inv, Complete, Track, Expire;
    match e {
      case Request(thing, action, token, callback, sticky, stray) =>
        if Tracked(st, e) { TrackKeepsInv(st, thing, action, token.value, sticky, stray); }
      case Response(token, accepted) =>
        var i := FindAck(st.acks, token);
        if i < |st.acks| { CompleteKeepsInv(st, i, if accepted then ACK_ACCEPTED else ACK_REJECTED); }
      case Expiry(expired) => ExpireKeepsInv(st, 0, expired);
    }
  }

  /** The states of a run from the freshly initialized tables, every step finding room. */
  ghost predicate Execution(sts: seq<State>, es: seq<Event>) {
    |sts| == |es| + 1 && Initial(sts[0])
    && forall n :: 0 <= n < |es| ==>
         (es[n].Expiry? ==> |es[n].expired| == |sts[n].acks|) && Roomy(sts[n], es[n]) && sts[n + 1] == Step(sts[n], es[n])
  }

  /** initializeRecords */
  ghost predicate Initial(st: State) {
    |st.acks| < 255 && (forall a <- st.acks :: a.free) && (forall s <- st.subs :: s.free) && st.log == [] && st.next == 0
  }

  lemma {:induction false} NothingWaiting(acks: seq<Ack>)
    requires forall a <- acks :: a.free
    ensures forall thing, action :: Outstanding(acks, thing, action) == 0
    ensures forall id :: Waiting(acks, id) == 0
  {
    if |acks| > 0 {
      assert acks[0] in acks;
      NothingWaiting(acks[1..]);
    }
  }

  lemma InitialInv(st: State)
    requires Initial(st)
    ensures Inv(st)
  {
    hide TopicName;
    NothingWaiting(st.acks);
  }

  /** In every state of every run: a live accepted or rejected record is unique and counts k or k+1 for k outstanding acks, both
      topics of an outstanding ack are delivered, and each tracked request is waiting or has had exactly one callback. */
  lemma {:induction false} RunKeepsInv(sts: seq<State>, es: seq<Event>, n: nat)
    requires Execution(sts, es) && n <= |es|
    ensures Inv(sts[n])
  {
    hide Inv, Initial, Step, Roomy;
    if n == 0 {
      InitialInv(sts[0]);
    } else {
      RunKeepsInv(sts, es, n - 1);
      StepKeepsInv(sts[n - 1], es[n - 1]);
    }
  }

  /** What the invariant says of an outstanding ack. */
  lemma OutstandingIsServed(st: State, i: nat, k: AckType)
    requires Inv(st) && i < |st.acks| && !st.acks[i].free
    ensures var topic := TopicName(st.acks[i].thing, st.acks[i].action, k);
            var n := Outstanding(st.acks, st.acks[i].thing, st.acks[i].action);
            n >= 1 && topic in st.topics && (exists j :: 0 <= j < |st.subs| && Live(st.subs[j], topic) && st.subs[j].count >= n)
    ensures Waiting(st.acks, st.acks[i].id) == 1 && Answered(st.log, st.acks[i].id) == 0
  {
    hide TopicName;
    var a := st.acks[i];
    var topic := TopicName(a.thing, a.action, k);
    OutstandingWritten(st.acks, i, a.(free := true), a.thing, a.action);
    WaitingWritten(st.acks, i, a.(free := true), a.id);
    assert Matched(st, a.thing, a.action);
    assert Live(st.subs[Find(st.subs, topic)], topic);
  }

  /** The failing case made concrete: one thing's topics fill the table, and a request for a second thing is tracked
      although neither of its topics is delivered. */
  lemma NoRoomExample()
    ensures exists st, token: string ::
              Inv(st) && FreeAck(st.acks) < |st.acks|
              && var st' := Track(st, "b", GET, token, false, {});
                 Outstanding(st'.acks, "b", GET) == 1 && TopicName("b", GET, ACCEPTED) !in st'.topics
  {
    hide TopicName, Track, Complete;
    var ta, tr := TopicName("a", GET, ACCEPTED), TopicName("a", GET, REJECTED);
    var none := Ack(true, "", "", GET, 0);
    var empty := State([none, none], [Sub(true, "", 0, false), Sub(true, "", 0, false)], {}, [], 0);
    InitialInv(empty);
    assert empty.subs[0].free && empty.subs[1].free;
    TrackKeepsInv(empty, "a", GET, "t", false, {});
    var st := Track(empty, "a", GET, "t", false, {});
    FullTable(empty, st, ta, tr);
    OtherTopics("a", GET, "b", GET);
    var st' := Track(st, "b", GET, "u", false, {});
    SecondTracked(st, st');
  }

  lemma FullTable(empty: State, st: State, ta: string, tr: string)
    requires var none := Ack(true, "", "", GET, 0);
             empty == State([none, none], [Sub(true, "", 0, false), Sub(true, "", 0, false)], {}, [], 0)
    requires st == Track(empty, "a", GET, "t", false, {}) && ta == TopicName("a", GET, ACCEPTED) && tr == TopicName("a", GET, REJECTED)
    ensures st.acks == [Ack(false, "t", "a", GET, 0), Ack(true, "", "", GET, 0)]
    ensures st.subs == [Sub(false, ta, 1, false), Sub(false, tr, 1, false)] && st.topics == {ta, tr}
  {
    hide TopicName;
    assert FreeSub(empty.subs, 0) == 0 && FreeSub(empty.subs, 1) == 1 && FreeAck(empty.acks) == 0;
    assert !Present(empty.subs, "a", GET);
  }

  lemma SecondTracked(st: State, st': State)
    requires |st.subs| == 2 && !st.subs[0].free && !st.subs[1].free && st.topics == {st.subs[0].topic, st.subs[1].topic}
    requires forall k :: TopicName("b", GET, k) !in st.topics
    requires st.acks == [Ack(false, "t", "a", GET, 0), Ack(true, "", "", GET, 0)] && st' == Track(st, "b", GET, "u", false, {})
    ensures FreeAck(st.acks) == 1 && Outstanding(st'.acks, "b", GET) == 1 && TopicName("b", GET, ACCEPTED) !in st'.topics
  {
    hide TopicName;
    assert st.acks[1..][0].free;
    assert FreeAck(st.acks) == 1;
    assert FreeSub(st.subs, 0) == 2;
    assert !Present(st.subs, "b", GET);
    assert st'.acks == [Ack(false, "t", "a", GET, 0), Ack(false, "u", "b", GET, st.next)];
    assert st'.acks[1..] == [st'.acks[1]];
    assert Outstanding([st'.acks[1]], "b", GET) == 1;
  }
}
