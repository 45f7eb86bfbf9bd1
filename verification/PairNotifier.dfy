/** The notifier's operations on its state file: the poll tick, and the service that runs it and the
    commands (extensions/device-pair/notify.ts). */
module PairNotifier {
  import opened JsText
  import opened PairNotify
  import opened PairNotifyCommands

  // ---- the poll tick -------------------------------------------------------------------------

  datatype Request = Request(id: Text, ts: Raw)

  function RequestTimestamp(r: Request): Option<int> {
    if r.ts.Number? && Trunc(r.ts.value) > 0 then Some(Trunc(r.ts.value)) else None
  }

  /** A one-shot subscription only wants requests stamped at or after its arming. */
  predicate ShouldNotify(s: Subscriber, r: Request) {
    s.mode.Persistent? || (RequestTimestamp(r).Some? && RequestTimestamp(r).value >= s.addedAtMs)
  }

  /** So a one-shot subscription wants exactly the requests with a finite time that is at least 1 and
      not before its arming. */
  lemma WantedExactly(s: Subscriber, r: Request)
    ensures ShouldNotify(s, r)
       <==> s.mode == Persistent || (r.ts.Number? && r.ts.value >= 1.0 && r.ts.value >= s.addedAtMs as real)
  {
  }

  /** One poll: its clock, the pending requests, and which (request, subscriber) sends the channel
      would accept. */
  datatype Poll = Poll(now: Instant, pending: seq<Request>, accepted: set<(nat, nat)>)

  function PendingIds(p: Poll): set<Text> { set r | r in p.pending :: r.id }

  /** The entries that stay: still pending and at most a day old. */
  function Pruned(notified: map<Text, int>, p: Poll): map<Text, int> {
    map id | id in notified && id in PendingIds(p) && p.now - notified[id] <= NOTIFY_MAX_SEEN_AGE_MS :: notified[id]
  }

  /** Request `i` would reach subscriber `j`. */
  predicate Reaches(subs: seq<Subscriber>, p: Poll, i: nat, j: nat)
    requires i < |p.pending|
  {
    j < |subs| && ShouldNotify(subs[j], p.pending[i]) && (i, j) in p.accepted
  }

  ghost predicate ReachesSome(subs: seq<Subscriber>, p: Poll, i: nat)
    requires i < |p.pending|
  {
    exists j: nat :: Reaches(subs, p, i, j)
  }

  /** Request `i` has not been notified: no live entry, and no earlier request of this poll with the
      same id was delivered. */
  ghost predicate Unseen(s: State, p: Poll, i: nat)
    requires i < |p.pending|
  {
    && (p.pending[i].id in Pruned(s.notified, p) ==> s.notified[p.pending[i].id] == 0)
    && forall k: nat :: k < i && p.pending[k].id == p.pending[i].id ==> !ReachesSome(s.subscribers, p, k)
  }

  /** The sends of a poll that succeed: request `i` is delivered to subscriber `j`. */
  ghost predicate Sent(s: State, p: Poll, i: nat, j: nat) {
    i < |p.pending| && Unseen(s, p, i) && Reaches(s.subscribers, p, i, j)
  }

  ghost predicate DeliveredBefore(s: State, p: Poll, n: nat, id: Text) {
    exists i: nat, j: nat :: i < n && Sent(s, p, i, j) && p.pending[i].id == id
  }

  ghost predicate Delivered(s: State, p: Poll, id: Text) { DeliveredBefore(s, p, |p.pending|, id) }

  /** The keys of the one-shot subscriptions that the first `n` requests are delivered to. */
  ghost predicate SpentBefore(s: State, p: Poll, n: nat, key: Text) {
    exists i: nat, j: nat :: i < n && Sent(s, p, i, j) && s.subscribers[j].mode.Once? && Key(s.subscribers[j]) == key
  }

  ghost predicate Spent(s: State, p: Poll, key: Text) { SpentBefore(s, p, |p.pending|, key) }

  function DropKeys(subs: seq<Subscriber>, keys: set<Text>): (r: seq<Subscriber>)
    ensures forall s :: s in r <==> s in subs && Key(s) !in keys
  {
    if subs == [] then []
    else
      var rest, last := DropKeys(subs[..|subs| - 1], keys), subs[|subs| - 1];
      assert subs == subs[..|subs| - 1] + [last];
      if Key(last) in keys then rest else rest + [last]
  }

  ghost function DeliveredIds(s: State, p: Poll): set<Text> {
    set r | r in p.pending && Delivered(s, p, r.id) :: r.id
  }

  ghost function SpentKeys(s: State, p: Poll): set<Text> {
    set sub | sub in s.subscribers && Spent(s, p, Key(sub)) :: Key(sub)
  }

  /** The outcome of a poll, stated without its loops. */
  ghost function AfterPoll(s: State, p: Poll): State {
    State(DropKeys(s.subscribers, SpentKeys(s, p)),
          Pruned(s.notified, p) + map id | id in DeliveredIds(s, p) :: p.now)
  }

  // ---- the loops of the tick -------------------------------------------------------------------

  /** If some request up to `n` with id `id` reaches a subscriber, the first such one is sent. */
  lemma {:induction false} FirstReachingIsSent(s: State, p: Poll, n: nat, id: Text)
    requires n <= |p.pending| && (id in Pruned(s.notified, p) ==> s.notified[id] == 0)
    requires exists k: nat :: k < n && p.pending[k].id == id && ReachesSome(s.subscribers, p, k)
    ensures DeliveredBefore(s, p, n, id)
  {
    hide Pruned;
    if exists k: nat :: k < n - 1 && p.pending[k].id == id && ReachesSome(s.subscribers, p, k) {
      FirstReachingIsSent(s, p, n - 1, id);
    } else {
      var j: nat :| Reaches(s.subscribers, p, n - 1, j);
      assert Sent(s, p, n - 1, j);
    }
  }

  /** What the loop over the requests has recorded before request `n`. */
  ghost predicate Recorded(s: State, p: Poll, n: nat, notified: map<Text, int>, sent: set<(nat, nat)>,
                           spent: set<Text>) {
    && (forall i: nat, j: nat :: (i, j) in sent <==> i < n && Sent(s, p, i, j))
    && (forall id :: id in notified <==> id in Pruned(s.notified, p) || DeliveredBefore(s, p, n, id))
    && (forall id :: id in notified ==> notified[id] == if DeliveredBefore(s, p, n, id) then p.now else s.notified[id])
    && (forall key :: key in spent <==> SpentBefore(s, p, n, key))
  }

  /** The recorded entries tell exactly whether a request was seen. */
  lemma RecordedSeen(s: State, p: Poll, n: nat, notified: map<Text, int>, sent: set<(nat, nat)>, spent: set<Text>)
    requires Recorded(s, p, n, notified, sent, spent) && n < |p.pending|
    ensures var id := p.pending[n].id; Unseen(s, p, n) <==> !(id in notified && notified[id] != 0)
  {
    var id := p.pending[n].id;
    hide Pruned;
    if DeliveredBefore(s, p, n, id) {
      var i: nat, j: nat :| i < n && Sent(s, p, i, j) && p.pending[i].id == id;
      assert ReachesSome(s.subscribers, p, i);
    } else if !Unseen(s, p, n) && !(id in Pruned(s.notified, p) && s.notified[id] != 0) {
      FirstReachingIsSent(s, p, n, id);
    }
  }

  /** A request that was seen, or reaches nobody, changes nothing. */
  lemma RecordedSkip(s: State, p: Poll, n: nat, notified: map<Text, int>, sent: set<(nat, nat)>, spent: set<Text>)
    requires Recorded(s, p, n, notified, sent, spent) && n < |p.pending|
    requires !Unseen(s, p, n) || !ReachesSome(s.subscribers, p, n)
    ensures Recorded(s, p, n + 1, notified, sent, spent)
  {
    hide Unseen, Reaches, Pruned;
    assert forall j: nat :: !Sent(s, p, n, j);
    assert forall id :: DeliveredBefore(s, p, n + 1, id) <==> DeliveredBefore(s, p, n, id);
    assert forall key :: SpentBefore(s, p, n + 1, key) <==> SpentBefore(s, p, n, key);
  }

  /** The sends of one request. */
  ghost predicate RequestSent(s: State, p: Poll, n: nat, m: nat, reached: set<nat>, spent: set<Text>)
    requires n < |p.pending|
  {
    && (forall j: nat :: j in reached <==> j < m && Reaches(s.subscribers, p, n, j))
    && forall key :: key in spent <==> exists j: nat :: j < m && j < |s.subscribers| && Reaches(s.subscribers, p, n, j)
                                         && s.subscribers[j].mode.Once? && Key(s.subscribers[j]) == key
  }

  function Pairs(n: nat, reached: set<nat>): set<(nat, nat)> { set j | j in reached :: (n, j) }

  lemma PairsNonEmpty(n: nat, reached: set<nat>)
    requires reached != {}
    ensures Pairs(n, reached) != {}
  {
    var j :| j in reached;
    assert (n, j) in Pairs(n, reached);
  }

  lemma RecordedDeliver(s: State, p: Poll, n: nat, notified: map<Text, int>, sent: set<(nat, nat)>, spent: set<Text>,
                        reached: set<nat>, newlySpent: set<Text>)
    requires Recorded(s, p, n, notified, sent, spent) && n < |p.pending| && Unseen(s, p, n)
    requires RequestSent(s, p, n, |s.subscribers|, reached, newlySpent) && reached != {}
    ensures Recorded(s, p, n + 1, notified[p.pending[n].id := p.now], sent + Pairs(n, reached), spent + newlySpent)
  {
    hide Unseen, Pruned, Key;
    assert forall j: nat :: Sent(s, p, n, j) <==> j in reached;
    var j0 :| j0 in reached;
    assert Sent(s, p, n, j0);
    forall id ensures DeliveredBefore(s, p, n + 1, id) <==> DeliveredBefore(s, p, n, id) || id == p.pending[n].id {
    }
    forall key ensures SpentBefore(s, p, n + 1, key) <==> SpentBefore(s, p, n, key) || key in newlySpent {
    }
  }

  /** The loop over the subscribers for request `n`: who is reached, and which one-shot
      subscriptions that spends. */
  method NotifySubscribers(ghost s: State, subscribers: seq<Subscriber>, p: Poll, n: nat)
    returns (reached: set<nat>, spent: set<Text>)
    requires n < |p.pending| && subscribers == s.subscribers
    ensures RequestSent(s, p, n, |subscribers|, reached, spent)
  {
    hide Key, ShouldNotify;
    reached, spent := {}, {};
    var request := p.pending[n];
    for j := 0 to |subscribers|
      invariant RequestSent(s, p, n, j, reached, spent)
    {
      var subscriber := subscribers[j];
      if ShouldNotify(subscriber, request) {
        var sent := (n, j) in p.accepted;
        if sent {
          assert Reaches(s.subscribers, p, n, j);
          reached := reached + {j};
          if subscriber.mode.Once? {
            spent := spent + {Key(subscriber)};
          }
        }
      }
    }
  }

  lemma NobodyReached(s: State, p: Poll, n: nat, spent: set<Text>)
    requires n < |p.pending| && RequestSent(s, p, n, |s.subscribers|, {}, spent)
    ensures !ReachesSome(s.subscribers, p, n)
  {
    hide ShouldNotify;
    var reached: set<nat> := {};
    assert forall j: nat :: Reaches(s.subscribers, p, n, j) ==> j in reached;
  }

  lemma NothingRecordedYet(s: State, p: Poll)
    ensures Recorded(s, p, 0, Pruned(s.notified, p), {}, {})
  {
    hide Pruned, PendingIds;
    PrunedIsPart(s.notified, p);
  }

  lemma PrunedIsPart(notified: map<Text, int>, p: Poll)
    ensures forall id :: id in Pruned(notified, p) ==> id in notified && Pruned(notified, p)[id] == notified[id]
  {
  }

  lemma NobodyRecorded(s: State, p: Poll)
    requires s.subscribers == []
    ensures Recorded(s, p, |p.pending|, Pruned(s.notified, p), {}, {})
  {
    hide Pruned, PendingIds;
    PrunedIsPart(s.notified, p);
    assert forall i: nat, j: nat :: !Sent(s, p, i, j);
  }

  /** Once every request is recorded, dropping the spent keys gives the outcome of the poll. */
  lemma RecordedIsOutcome(s: State, p: Poll, notified: map<Text, int>, sent: set<(nat, nat)>, spent: set<Text>)
    requires Recorded(s, p, |p.pending|, notified, sent, spent)
    ensures AfterPoll(s, p) == State(DropKeys(s.subscribers, spent), notified)
    ensures sent == {} ==> spent == {}
    ensures forall i: nat, j: nat :: (i, j) in sent <==> Sent(s, p, i, j)
  {
    hide Pruned, DropKeys, Unseen, ShouldNotify, Key;
    PrunedIsPart(s.notified, p);
    forall key | key in spent ensures key in SpentKeys(s, p) {
      var i: nat, j: nat :| i < |p.pending| && Sent(s, p, i, j) && s.subscribers[j].mode.Once?
          && Key(s.subscribers[j]) == key;
      assert s.subscribers[j] in s.subscribers;
    }
    assert SpentKeys(s, p) == spent;
    forall id | Delivered(s, p, id) ensures id in DeliveredIds(s, p) {
      var i: nat, j: nat :| i < |p.pending| && Sent(s, p, i, j) && p.pending[i].id == id;
      assert p.pending[i] in p.pending;
    }
    assert AfterPoll(s, p).notified == notified;
  }

  lemma {:induction false} DropNothing(subs: seq<Subscriber>)
    ensures DropKeys(subs, {}) == subs
  {
    hide Key;
    if subs != [] {
      DropNothing(subs[..|subs| - 1]);
      assert subs == subs[..|subs| - 1] + [subs[|subs| - 1]];
    }
  }

  /** The plug-in's persisted notifier state. */
  class NotifierService {
    var file: State

    constructor ()
      ensures file == State([], map[])
    {
      file := State([], map[]);
    }

    /** What the next operation reads. */
    ghost function View(): State
      reads this
    {
      Reload(file)
    }

    method PruneNotified(notified: map<Text, int>, p: Poll) returns (pruned: map<Text, int>, changed: bool)
      ensures pruned == Pruned(notified, p)
      ensures !changed ==> pruned == notified
    {
      hide PendingIds;
      pruned, changed := notified, false;
      var todo := notified.Keys;
      var pendingIds := PendingIds(p);
      while todo != {}
        invariant todo <= notified.Keys
        invariant forall id :: id in pruned <==> id in notified && (id in todo || id in Pruned(notified, p))
        invariant forall id :: id in pruned ==> pruned[id] == notified[id]
        invariant !changed ==> pruned == notified
        decreases todo
      {
        var requestId :| requestId in todo;
        if requestId !in pendingIds || p.now - notified[requestId] > NOTIFY_MAX_SEEN_AGE_MS {
          pruned := pruned - {requestId};
          changed := true;
        }
        todo := todo - {requestId};
      }
      assert pruned == Pruned(notified, p);
    }

    /** The loop over the pending requests. */
    method DeliverPending(s: State, p: Poll) returns (notified: map<Text, int>, sent: set<(nat, nat)>, spent: set<Text>)
      ensures Recorded(s, p, |p.pending|, notified, sent, spent)
      ensures sent == {} ==> notified == Pruned(s.notified, p)
    {
      hide Key;
      NothingRecordedYet(s, p);
      notified, sent, spent := Pruned(s.notified, p), {}, {};
      for i := 0 to |p.pending|
        invariant Recorded(s, p, i, notified, sent, spent)
        invariant sent == {} ==> notified == Pruned(s.notified, p)
      {
        RecordedSeen(s, p, i, notified, sent, spent);
        hide Recorded, Unseen, Pruned, Pairs, RequestSent;
        var request := p.pending[i];
        if request.id in notified && notified[request.id] != 0 {
          RecordedSkip(s, p, i, notified, sent, spent);
        } else {
          var reached, newlySpent := NotifySubscribers(s, s.subscribers, p, i);
          if reached != {} {
            RecordedDeliver(s, p, i, notified, sent, spent, reached, newlySpent);
            PairsNonEmpty(i, reached);
            notified := notified[request.id := p.now];
            sent := sent + Pairs(i, reached);
            spent := spent + newlySpent;
          } else {
            NobodyReached(s, p, i, newlySpent);
            RecordedSkip(s, p, i, notified, sent, spent);
          }
        }
      }
    }

    /** One poll tick: the successful sends, and the state they leave. */
    method Tick(p: Poll) returns (sent: set<(nat, nat)>)
      modifies this
      ensures View() == Reload(AfterPoll(old(View()), p))
      ensures forall i: nat, j: nat :: (i, j) in sent <==> Sent(old(View()), p, i, j)
    {
      ReloadFixpoint(file);
      var s := Reload(file);
      var changed: bool;
      var state: State;
      var oneShotDelivered: set<Text> := {};
      sent := {};
      state, changed := PruneState(s, p);
      hide Pruned, Reload, DropKeys, Key, Sent;
      if |state.subscribers| > 0 {
        var notified;
        notified, sent, oneShotDelivered := DeliverPending(s, p);
        changed := changed || sent != {};
        state := state.(notified := notified);
      } else {
        NobodyRecorded(s, p);
      }
      RecordedIsOutcome(s, p, state.notified, sent, oneShotDelivered);
      DropNothing(s.subscribers);
      hide Recorded;
      if oneShotDelivered != {} {
        var initialCount := |state.subscribers|;
        state := state.(subscribers := DropKeys(state.subscribers, oneShotDelivered));
        if |state.subscribers| != initialCount {
          changed := true;
        }
      }
      if changed {
        file := state;
      }
    }

    method PruneState(state: State, p: Poll) returns (pruned: State, changed: bool)
      ensures pruned == state.(notified := Pruned(state.notified, p))
      ensures !changed ==> pruned == state
    {
      var notified;
      notified, changed := PruneNotified(state.notified, p);
      pruned := state.(notified := notified);
    }

    method UpsertNotifySubscriber(subscribers: seq<Subscriber>, target: Target, mode: Mode, now: Instant)
      returns (updated: seq<Subscriber>, changed: bool)
      ensures updated == Upsert(subscribers, target, mode, now)
      ensures changed <==> NewOrOtherMode(subscribers, target, mode)
      ensures !changed ==> updated == subscribers
    {
      var index := FindKey(subscribers, TargetKey(target));
      var next := Subscribe(target, mode, now);
      if index == -1 {
        return subscribers + [next], true;
      }
      if subscribers[index].mode == mode {
        return subscribers, false;
      }
      return subscribers[index := next], true;
    }

    /** `armPairNotifyOnce`: whether a subscription is armed. */
    method Arm(ctx: Context, now: Instant) returns (armed: bool)
      modifies this
      ensures View() == Reload(AfterCommand(old(View()), ctx, SubscribeAs(Once), now))
      ensures armed <==> ctx.telegram && ResolveNotifyTarget(ctx).Some?
      ensures !armed ==> View() == old(View())
      ensures armed && TrimmedIds(ctx) ==> SwitchedTo(old(View()), View(), ChatKey(ctx), Once)
    {
      ReloadFixpoint(file);
      if Addressed(ctx) && TrimmedIds(ctx) {
        SubscribingSwitches(View(), ctx, Once, now);
      }
      hide Reload, Upsert;
      if !ctx.telegram {
        return false;
      }
      var target := ResolveNotifyTarget(ctx);
      if target.None? {
        return false;
      }
      var state := Reload(file);
      var subscribers, changed := UpsertNotifySubscriber(state.subscribers, target.value, Once, now);
      if changed {
        file := state.(subscribers := subscribers);
      }
      return true;
    }

    method HandleNotifyCommand(ctx: Context, action: string, now: Instant) returns (reply: Reply)
      modifies this
      ensures View() == Reload(AfterCommand(old(View()), ctx, ParseAction(action), now))
      ensures reply == ReplyTo(old(View()), ctx, ParseAction(action))
      ensures Answers(old(View()), ctx, action, View(), reply)
    {
      ReloadFixpoint(file);
      CommandAnswers(View(), ctx, action, now);
      CommandCases(View(), ctx, ParseAction(action), now);
      CommandCases(View(), ctx, SubscribeAs(Once), now);
      hide Reload, Upsert, TargetKey, ParseAction, ResolveNotifyTarget, FindKey, Remove, Clean, NewOrOtherMode,
           Answers, AfterCommand, ReplyTo, SwitchedTo, TrimmedIds;
      if !ctx.telegram {
        return NotTelegram;
      }
      var target := ResolveNotifyTarget(ctx);
      if target.None? {
        return NoTarget;
      }
      var state := Reload(file);
      var targetKey := TargetKey(target.value);
      var current := FindKey(state.subscribers, targetKey);
      match ParseAction(action)
      case SubscribeAs(Persistent) =>
        var subscribers, changed := UpsertNotifySubscriber(state.subscribers, target.value, Persistent, now);
        if changed {
          file := state.(subscribers := subscribers);
        }
        return Enabled;
      case Unsubscribe =>
        RemoveIs(state.subscribers, targetKey);
        if current != -1 {
          file := state.(subscribers := state.subscribers[..current] + state.subscribers[current + 1..]);
        }
        return Disabled;
      case SubscribeAs(Once) =>
        var _ := Arm(ctx, now);
        return Armed;
      case ShowStatus =>
        return Status(if current == -1 then None else Some(state.subscribers[current].mode), |state.subscribers|);
      case Unknown =>
        return Usage;
    }
  }
}
