/** What the application learns, over every run of module Shadow: which step answers a request, and with which status. */
module ShadowReplies {
  import opened Common
  import opened Shadow

  // ---------------------------------------------------------------- one step

  predicate Awaits(a: Ack, token: string) {
    !a.free && a.token == token
  }

  /** The step answers the request in slot i: the first one that awaits the token of a response, or one whose timer has run out. */
  ghost predicate Answers(st: State, e: Event, i: nat)
    requires i < |st.acks|
  {
    match e
    case Request(_, _, _, _, _, _) => false
    case Response(token, _) => Awaits(st.acks[i], token) && forall j :: 0 <= j < i ==> !Awaits(st.acks[j], token)
    case Expiry(expired) => !st.acks[i].free && i < |expired| && expired[i]
  }

  /** The status that an event reports to a request with this token in slot i. */
  ghost predicate Reports(e: Event, token: string, i: nat, status: Status) {
    match status
    case ACK_ACCEPTED => e == Response(token, true)
    case ACK_REJECTED => e == Response(token, false)
    case ACK_TIMEOUT => e.Expiry? && i < |e.expired| && e.expired[i]
  }

  /** A reply is due to this request in the step. */
  ghost predicate Due(st: State, e: Event, i: nat, r: Reply) {
    i < |st.acks| && Answers(st, e, i) && st.acks[i].id == r.id && Reports(e, st.acks[i].token, i, r.status)
  }

  /** What becomes of a slot in a step. */
  ghost predicate SlotMoves(st: State, e: Event, i: nat, a: Ack)
    requires i < |st.acks|
  {
    if Answers(st, e, i) then a == st.acks[i].(free := true)
    else a == st.acks[i] || (st.acks[i].free && e.Request? && Tracked(st, e) && a == Ack(false, e.token.value, e.thing, e.action, st.next))
  }

  lemma StepSlots(st: State, e: Event)
    requires e.Expiry? ==> |e.expired| == |st.acks|
    ensures var st' := Step(st, e);
            |st'.acks| == |st.acks| && forall i :: 0 <= i < |st.acks| ==> SlotMoves(st, e, i, st'.acks[i])
  {
    hide Complete, Subscribe, Increment, Present, TopicName, FreeAck, FindAck;
    match e {
      case Request(_, _, _, _, _, _) =>
      case Response(token, accepted) =>
        var k := FindAck(st.acks, token);
        if k < |st.acks| { CompleteFrame(st, k, if accepted then ACK_ACCEPTED else ACK_REJECTED); }
      case Expiry(expired) => ExpireSlots(st, 0, expired);
    }
  }

  lemma {:induction false} ExpireSlots(st: State, k: nat, expired: seq<bool>)
    requires k <= |st.acks| == |expired|
    ensures var st' := Expire(st, k, expired);
            st'.next == st.next && |st'.acks| == |st.acks|
            && forall i :: 0 <= i < |st.acks| ==>
                 st'.acks[i] == if i >= k && !st.acks[i].free && expired[i] then st.acks[i].(free := true) else st.acks[i]
    decreases |st.acks| - k
  {
    hide Complete;
    if k < |st.acks| {
      if !st.acks[k].free && expired[k] {
        CompleteFrame(st, k, ACK_TIMEOUT);
        ExpireSlots(Complete(st, k, ACK_TIMEOUT), k + 1, expired);
      } else {
        ExpireSlots(st, k + 1, expired);
      }
    }
  }

  /** A step adds exactly the replies that are due. */
  lemma StepReplies(st: State, e: Event, r: Reply)
    requires e.Expiry? ==> |e.expired| == |st.acks|
    ensures st.log <= Step(st, e).log
    ensures r in Step(st, e).log <==> r in st.log || exists i: nat :: Due(st, e, i, r)
  {
    hide Complete, Subscribe, Increment, Present, TopicName, FreeAck, FindAck;
    match e {
      case Request(_, _, _, _, _, _) =>
      case Response(token, accepted) =>
        var k := FindAck(st.acks, token);
        if k < |st.acks| {
          CompleteFrame(st, k, if accepted then ACK_ACCEPTED else ACK_REJECTED);
          assert Answers(st, e, k);
          assert Due(st, e, k, Reply(st.acks[k].id, if accepted then ACK_ACCEPTED else ACK_REJECTED));
        }
      case Expiry(expired) =>
        ExpireReplies(st, 0, expired, r);
        if AnyTimesOut(st, 0, expired, r) {
          var i: nat :| TimesOut(st, 0, expired, i, r);
          assert Due(st, e, i, r);
        }
        if exists i: nat :: Due(st, e, i, r) {
          var i: nat :| Due(st, e, i, r);
          assert TimesOut(st, 0, expired, i, r);
        }
    }
  }

  ghost predicate TimesOut(st: State, k: nat, expired: seq<bool>, i: nat, r: Reply)
    requires |st.acks| == |expired|
  {
    k <= i < |st.acks| && !st.acks[i].free && expired[i] && r == Reply(st.acks[i].id, ACK_TIMEOUT)
  }

  ghost predicate AnyTimesOut(st: State, k: nat, expired: seq<bool>, r: Reply)
    requires |st.acks| == |expired|
  {
    exists i: nat :: TimesOut(st, k, expired, i, r)
  }

  lemma {:induction false} ExpireReplies(st: State, k: nat, expired: seq<bool>, r: Reply)
    requires k <= |st.acks| == |expired|
    ensures st.log <= Expire(st, k, expired).log
    ensures r in Expire(st, k, expired).log <==> r in st.log || AnyTimesOut(st, k, expired, r)
    decreases |st.acks| - k
  {
    hide Complete;
    if k < |st.acks| {
      var st1 := if !st.acks[k].free && expired[k] then Complete(st, k, ACK_TIMEOUT) else st;
      if !st.acks[k].free && expired[k] { CompleteFrame(st, k, ACK_TIMEOUT); }
      ExpireReplies(st1, k + 1, expired, r);
      var k1 := k + 1;
      if AnyTimesOut(st, k, expired, r) {
        var i: nat :| TimesOut(st, k, expired, i, r);
        assert i == k || TimesOut(st1, k1, expired, i, r);
      }
      if AnyTimesOut(st1, k1, expired, r) {
        var i: nat :| TimesOut(st1, k1, expired, i, r);
        assert TimesOut(st, k, expired, i, r);
      }
      assert !st.acks[k].free && expired[k] && r == Reply(st.acks[k].id, ACK_TIMEOUT) ==> TimesOut(st, k, expired, k, r);
    }
  }

  /** A response that nobody awaits changes nothing. */
  lemma UnknownToken(st: State, token: string, accepted: bool)
    requires forall i :: 0 <= i < |st.acks| ==> !Awaits(st.acks[i], token)
    ensures Step(st, Response(token, accepted)) == st
  {
    assert FindAck(st.acks, token) == |st.acks|;
  }

  /** The first request that awaits the token gets the one reply, with the status of the response. */
  lemma FirstAnswered(st: State, token: string, accepted: bool)
    ensures var st' := Respond(st, token, accepted);
            ((forall i :: 0 <= i < |st.acks| ==> !Awaits(st.acks[i], token)) ==> st' == st)
            && forall i :: 0 <= i < |st.acks| && Awaits(st.acks[i], token) && (forall j :: 0 <= j < i ==> !Awaits(st.acks[j], token)) ==>
                 st'.log == st.log + [Reply(st.acks[i].id, if accepted then ACK_ACCEPTED else ACK_REJECTED)]
                 && st'.acks == st.acks[i := st.acks[i].(free := true)]
  {
    hide Complete, FindAck;
    var k := FindAck(st.acks, token);
    if k < |st.acks| {
      CompleteFrame(st, k, if accepted then ACK_ACCEPTED else ACK_REJECTED);
      assert Awaits(st.acks[k], token);
    }
  }

  // ---------------------------------------------------------------- the status a topic stands for

  predicate StandsAt(s: string, i: nat, w: string) {
    i + |w| <= |s| && s[i..i + |w|] == w
  }

  /** strstr(s, w) != NULL */
  predicate Contains(s: string, w: string) {
    exists i: nat :: i <= |s| && StandsAt(s, i, w)
  }

  /** A word without slashes lies between two slashes. */
  lemma SlashSplits(a: string, b: string, w: string)
    requires '/' !in w && |w| > 0
    ensures Contains(a + "/" + b, w) <==> Contains(a, w) || Contains(b, w)
  {
    var s := a + "/" + b;
    if Contains(s, w) {
      var i: nat :| i <= |s| && StandsAt(s, i, w);
      WordLies(a, b, w, i);
    }
    assert s == a + ("/" + b);
    forall i: nat | StandsAt(a, i, w) ensures StandsAt(s, i, w) { WordStays(a, "/" + b, w, i); }
    forall i: nat | StandsAt(b, i, w) ensures StandsAt(s, |a| + 1 + i, w) { WordMoves(a + "/", b, w, i); }
    if Contains(b, w) {
      var i: nat :| i <= |b| && StandsAt(b, i, w);
      assert StandsAt(s, |a| + 1 + i, w);
    }
  }

  lemma WordStays(a: string, b: string, w: string, i: nat)
    requires StandsAt(a, i, w)
    ensures StandsAt(a + b, i, w)
  {
  }

  lemma WordMoves(a: string, b: string, w: string, i: nat)
    requires StandsAt(b, i, w)
    ensures StandsAt(a + b, |a| + i, w)
  {
  }

  lemma WordLies(a: string, b: string, w: string, i: nat)
    requires '/' !in w && |w| > 0 && StandsAt(a + "/" + b, i, w)
    ensures StandsAt(a, i, w) || (i > |a| && StandsAt(b, i - |a| - 1, w))
  {
    var s := a + "/" + b;
    if i + |w| <= |a| {
      assert a[i..i + |w|] == s[i..i + |w|];
    } else if i > |a| {
      assert b[i - |a| - 1..i - |a| - 1 + |w|] == s[i..i + |w|];
    } else {
      SlashInside(a, b, w, i);
    }
  }

  lemma SlashInside(a: string, b: string, w: string, i: nat)
    requires StandsAt(a + "/" + b, i, w) && i <= |a| < i + |w|
    ensures '/' in w
  {
    var s := a + "/" + b;
    assert w[|a| - i] == s[i..i + |w|][|a| - i] == s[|a|];
  }

  /** A message passes for an acceptance exactly when it came on an accepted topic or the name of the thing has that word in it:
      a rejection for such a thing is reported as its acceptance. */
  lemma AcceptedTopics(thing: string, action: Action, kind: AckType)
    ensures Contains(TopicName(thing, action, kind), "accepted") <==> kind == ACCEPTED || Contains(thing, "accepted")
  {
    hide Contains;
    var w, ack := "accepted", AckName(kind);
    var a := "$aws" + "/" + "things";
    var b := a + "/" + thing;
    var c := b + "/" + "shadow";
    var d := c + "/" + ActionName(action);
    assert TopicName(thing, action, kind) == d + "/" + ack;
    SlashSplits("$aws", "things", w);
    SlashSplits(a, thing, w);
    SlashSplits(b, "shadow", w);
    SlashSplits(c, ActionName(action), w);
    SlashSplits(d, ack, w);
    TooShort("$aws", w);
    TooShort("things", w);
    TooShort("shadow", w);
    TooShort(ActionName(action), w);
    LastWord(kind);
  }

  /** A thing of that very name: its rejected updates pass for accepted ones. */
  lemma RejectionAccepted()
    ensures Contains(TopicName("accepted", UPDATE, REJECTED), "accepted")
  {
    AcceptedTopics("accepted", UPDATE, REJECTED);
    hide TopicName;
    LastWord(ACCEPTED);
  }

  lemma TooShort(s: string, w: string)
    requires |s| < |w|
    ensures !Contains(s, w)
  {
  }

  lemma LastWord(kind: AckType)
    ensures Contains(AckName(kind), "accepted") <==> kind == ACCEPTED
  {
    var s := AckName(kind);
    assert |s| == 8 && |"accepted"| == 8 && s[0..8] == s;
    assert kind == ACCEPTED ==> StandsAt(s, 0, "accepted");
    assert kind == REJECTED ==> s[0] != "accepted"[0];
  }

  // ---------------------------------------------------------------- whole runs

  /** Step m is the tracked request with this number. */
  ghost predicate Asked(sts: seq<State>, es: seq<Event>, m: nat, id: nat) {
    m < |es| && m < |sts| && es[m].Request? && Tracked(sts[m], es[m]) && sts[m].next == id
  }

  /** The request is waiting in slot i before step k and no longer after it. */
  ghost predicate Freed(sts: seq<State>, k: nat, i: nat, id: nat) {
    k + 1 < |sts| && i < |sts[k].acks| && i < |sts[k + 1].acks|
    && !sts[k].acks[i].free && sts[k].acks[i].id == id && sts[k + 1].acks[i].free
  }

  lemma RunStep(sts: seq<State>, es: seq<Event>, n: nat)
    requires Execution(sts, es) && n < |es|
    ensures |sts| == |es| + 1 && sts[n + 1] == Step(sts[n], es[n]) && (es[n].Expiry? ==> |es[n].expired| == |sts[n].acks|)
  {
  }

  lemma StepNext(st: State, e: Event)
    requires e.Expiry? ==> |e.expired| == |st.acks|
    ensures Step(st, e).next == st.next + if e.Request? && Tracked(st, e) then 1 else 0
  {
    hide Complete, Subscribe, Increment, Present, TopicName, FreeAck, FindAck;
    match e {
      case Request(_, _, _, _, _, _) =>
      case Response(token, accepted) =>
        var k := FindAck(st.acks, token);
        if k < |st.acks| { CompleteFrame(st, k, if accepted then ACK_ACCEPTED else ACK_REJECTED); }
      case Expiry(expired) => ExpireSlots(st, 0, expired);
    }
  }

  /** Numbers are given out once. */
  lemma {:induction false} NumbersGrow(sts: seq<State>, es: seq<Event>, m: nat, n: nat)
    requires Execution(sts, es) && m <= n <= |es|
    ensures sts[m].next <= sts[n].next
    decreases n
  {
    hide Execution, Step;
    if m < n {
      RunStep(sts, es, n - 1);
      StepNext(sts[n - 1], es[n - 1]);
      NumbersGrow(sts, es, m, n - 1);
    }
  }

  lemma AskedOnce(sts: seq<State>, es: seq<Event>, m: nat, n: nat, id: nat)
    requires Execution(sts, es) && Asked(sts, es, m, id) && Asked(sts, es, n, id)
    ensures m == n
  {
    hide Execution, Step;
    var a, b := if m < n then m else n, if m < n then n else m;
    if a < b {
      RunStep(sts, es, a);
      StepNext(sts[a], es[a]);
      NumbersGrow(sts, es, a + 1, b);
    }
  }

  lemma NothingAsked(st: State, i: nat)
    requires Initial(st) && i < |st.acks|
    ensures st.acks[i].free
  {
    assert st.acks[i] in st.acks;
  }

  /** A waiting slot holds the thing, the action and the token of the request with its number. */
  lemma {:induction false} WaitingWasAsked(sts: seq<State>, es: seq<Event>, n: nat, i: nat) returns (m: nat)
    requires Execution(sts, es) && n <= |es| && i < |sts[n].acks| && !sts[n].acks[i].free
    ensures m < n && Asked(sts, es, m, sts[n].acks[i].id)
    ensures var a, e := sts[n].acks[i], es[m];
            e.token == Some(a.token) && e.thing == a.thing && e.action == a.action
    decreases n
  {
    if n == 0 {
      NothingAsked(sts[0], i);
      assert false;
    } else {
      hide Step, Execution;
      RunStep(sts, es, n - 1);
      StepSlots(sts[n - 1], es[n - 1]);
      assert SlotMoves(sts[n - 1], es[n - 1], i, sts[n].acks[i]);
      if sts[n].acks[i] == sts[n - 1].acks[i] {
        m := WaitingWasAsked(sts, es, n - 1, i);
      } else {
        m := n - 1;
      }
    }
  }

  /** Step k frees the slot of a request with a status, the token being that of the request's own step. */
  ghost predicate Cause(sts: seq<State>, es: seq<Event>, m: nat, k: nat, i: nat, r: Reply) {
    m < k < |es| && Asked(sts, es, m, r.id) && Freed(sts, k, i, r.id) && Reports(es[k], es[m].token.value, i, r.status)
  }

  ghost predicate Caused(sts: seq<State>, es: seq<Event>, n: nat, r: Reply) {
    exists m: nat, k: nat, i: nat :: k < n && Cause(sts, es, m, k, i, r)
  }

  /** Over every run: a request has been answered with a status exactly when a step freed its slot that was, for ACK_ACCEPTED, a
      response of acceptance with the request's own token, for ACK_REJECTED one of rejection, and for ACK_TIMEOUT an expiry with its
      timer run out. */
  lemma {:induction false} RunReplies(sts: seq<State>, es: seq<Event>, n: nat, r: Reply)
    requires Execution(sts, es) && n <= |es|
    ensures r in sts[n].log <==> Caused(sts, es, n, r)
  {
    if n == 0 {
      assert sts[0].log == [];
    } else {
      var p: nat := n - 1;
      RunReplies(sts, es, p, r);
      RunStep(sts, es, p);
      hide Execution, Step, Cause, Due;
      StepReplies(sts[p], es[p], r);
      CausedNow(sts, es, p, r);
    }
  }

  lemma CausedNow(sts: seq<State>, es: seq<Event>, p: nat, r: Reply)
    requires Execution(sts, es) && p < |es|
    ensures |sts| == |es| + 1 && (Caused(sts, es, p + 1, r) <==> Caused(sts, es, p, r) || exists i: nat :: Due(sts[p], es[p], i, r))
  {
    RunStep(sts, es, p);
    hide Execution, Cause, Due;
    if Caused(sts, es, p + 1, r) {
      var m: nat, k: nat, i: nat :| k < p + 1 && Cause(sts, es, m, k, i, r);
      if k == p { CauseIsDue(sts, es, m, p, i, r); }
    }
    var st, e := sts[p], es[p];
    if exists i: nat :: Due(st, e, i, r) {
      var i: nat :| Due(st, e, i, r);
      var m := DueHasCause(sts, es, p, i, r);
    }
  }

  lemma DueHasCause(sts: seq<State>, es: seq<Event>, k: nat, i: nat, r: Reply) returns (m: nat)
    requires Execution(sts, es) && k < |es| && Due(sts[k], es[k], i, r)
    ensures m < k && Cause(sts, es, m, k, i, r)
  {
    hide Execution, Step;
    RunStep(sts, es, k);
    StepSlots(sts[k], es[k]);
    assert SlotMoves(sts[k], es[k], i, sts[k + 1].acks[i]);
    m := WaitingWasAsked(sts, es, k, i);
  }

  lemma CauseIsDue(sts: seq<State>, es: seq<Event>, m: nat, k: nat, i: nat, r: Reply)
    requires Execution(sts, es) && k < |es| && Cause(sts, es, m, k, i, r)
    ensures Due(sts[k], es[k], i, r)
  {
    hide Execution, Step;
    RunStep(sts, es, k);
    StepSlots(sts[k], es[k]);
    assert SlotMoves(sts[k], es[k], i, sts[k + 1].acks[i]);
    var m' := WaitingWasAsked(sts, es, k, i);
    AskedOnce(sts, es, m, m', r.id);
  }
}
