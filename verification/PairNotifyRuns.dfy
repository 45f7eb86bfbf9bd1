/** What the notifier guarantees over whole runs of commands and poll ticks, each taken as one step
    (extensions/device-pair/notify.ts). */
module PairNotifyRuns {
  import opened JsText
  import opened PairNotify
  import opened PairNotifyCommands
  import opened PairNotifier

  datatype Event =
    | Tick(poll: Poll)
    | Command(ctx: Context, action: Action, now: Instant)

  function Time(e: Event): Instant { match e case Tick(p) => p.now case Command(_, _, now) => now }

  /** The state the next operation reads after `e`. */
  ghost function Next(s: State, e: Event): State {
    match e
    case Tick(p) => Reload(AfterPoll(s, p))
    case Command(ctx, action, now) => Reload(AfterCommand(s, ctx, action, now))
  }

  /** The state before event `n` of a run that starts in `s`. */
  ghost function At(s: State, run: seq<Event>, n: nat): State
    requires n <= |run|
  {
    if n == 0 then s else Next(At(s, run, n - 1), run[n - 1])
  }

  ghost predicate Nondecreasing(run: seq<Event>) {
    forall i, j :: 0 <= i < j < |run| ==> Time(run[i]) <= Time(run[j])
  }

  lemma {:induction false} AtIsClean(s: State, run: seq<Event>, n: nat)
    requires n <= |run| && Clean(s)
    ensures Clean(At(s, run, n))
  {
    hide Clean, Reload, AfterPoll, AfterCommand;
    if n > 0 {
      match run[n - 1]
      case Tick(p) => ReloadFixpoint(AfterPoll(At(s, run, n - 1), p));
      case Command(ctx, action, now) => ReloadFixpoint(AfterCommand(At(s, run, n - 1), ctx, action, now));
    }
  }

  // ---- no request is delivered twice -----------------------------------------------------------

  /** Event `n` is a tick that delivers request `id`. */
  ghost predicate Delivers(s: State, run: seq<Event>, n: nat, id: Text)
    requires n < |run|
  {
    run[n].Tick? && Delivered(At(s, run, n), run[n].poll, id)
  }

  /** Event `n` is a tick that forgets an entry for `id` made at `since`. */
  predicate Forgets(run: seq<Event>, n: nat, id: Text, since: int)
    requires n < |run|
  {
    run[n].Tick? && (id !in PendingIds(run[n].poll) || run[n].poll.now - since > 86_400_000)
  }

  lemma TickKeepsEntry(s: State, p: Poll, id: Text, since: int)
    requires CleanNotified(s.notified) && id in s.notified && s.notified[id] == since
    requires id in PendingIds(p) && p.now - since <= 86_400_000
    ensures !Delivered(s, p, id)
    ensures id in Next(s, Tick(p)).notified && Next(s, Tick(p)).notified[id] == since
  {
    hide PendingIds, Trim, DropKeys, ReloadSubscribers;
    assert id in Pruned(s.notified, p) && since != 0;
    hide Pruned;
    assert forall i: nat :: i < |p.pending| && p.pending[i].id == id ==> !Unseen(s, p, i);
    assert id !in DeliveredIds(s, p);
    assert AfterPoll(s, p).notified[id] == Pruned(s.notified, p)[id];
    PrunedIsPart(s.notified, p);
  }

  lemma CommandKeepsEntries(s: State, ctx: Context, action: Action, now: Instant)
    requires CleanNotified(s.notified)
    ensures Next(s, Command(ctx, action, now)).notified == s.notified
  {
    hide Trim, ReloadSubscribers, Upsert, Remove, ResolveNotifyTarget, ReloadNotified;
    ReloadNotifiedFixpoint(s.notified);
  }

  lemma DeliveryMakesEntry(s: State, p: Poll, id: Text)
    requires Delivered(s, p, id) && Trim(id) != []
    ensures id in Next(s, Tick(p)).notified && Next(s, Tick(p)).notified[id] == p.now
  {
    hide Trim, DropKeys, ReloadSubscribers, Pruned;
    var i: nat, j: nat :| i < |p.pending| && Sent(s, p, i, j) && p.pending[i].id == id;
    assert p.pending[i] in p.pending;
    assert id in DeliveredIds(s, p);
  }

  ghost predicate HasEntry(s: State, id: Text, since: int) {
    id in s.notified && s.notified[id] == since
  }

  /** Every event but a forgetting tick keeps an entry, and no kept entry is delivered. */
  lemma StepKeepsEntry(s: State, run: seq<Event>, n: nat, id: Text, since: int)
    requires n < |run| && Clean(At(s, run, n)) && HasEntry(At(s, run, n), id, since) && !Forgets(run, n, id, since)
    ensures HasEntry(At(s, run, n + 1), id, since) && !Delivers(s, run, n, id)
  {
    hide Next, Delivered, CleanSubscribers, CleanNotified, PendingIds;
    match run[n]
    case Tick(p) => TickKeepsEntry(At(s, run, n), p, id, since);
    case Command(ctx, action, now) => CommandKeepsEntries(At(s, run, n), ctx, action, now);
  }

  lemma DeliveryStep(s: State, run: seq<Event>, n: nat, id: Text)
    requires n < |run| && Delivers(s, run, n, id) && Trim(id) != []
    ensures HasEntry(At(s, run, n + 1), id, Time(run[n]))
  {
    hide Trim, Delivered, Next;
    DeliveryMakesEntry(At(s, run, n), run[n].poll, id);
  }

  lemma {:induction false} EntryStays(s: State, run: seq<Event>, i: nat, n: nat, id: Text)
    requires Clean(s) && i < n <= |run| && Delivers(s, run, i, id) && Trim(id) != []
    requires forall k :: i < k < n ==> !Forgets(run, k, id, Time(run[i]))
    ensures HasEntry(At(s, run, n), id, Time(run[i]))
    decreases n
  {
    hide *;
    if n == i + 1 {
      DeliveryStep(s, run, i, id);
    } else {
      EntryStays(s, run, i, n - 1, id);
      AtIsClean(s, run, n - 1);
      StepKeepsEntry(s, run, n - 1, id, Time(run[i]));
    }
  }

  lemma DeliveredIsPending(s: State, p: Poll, id: Text)
    requires Delivered(s, p, id)
    ensures id in PendingIds(p)
  {
    var i: nat, j: nat :| i < |p.pending| && Sent(s, p, i, j) && p.pending[i].id == id;
    assert p.pending[i] in p.pending;
  }

  /** Between two deliveries of a request, or at the second one, some tick forgot it. */
  lemma RedeliveryNeedsForgetting(s: State, run: seq<Event>, i: nat, j: nat, id: Text) returns (k: nat)
    requires Clean(s) && i < j < |run| && Trim(id) != []
    requires Delivers(s, run, i, id) && Delivers(s, run, j, id)
    ensures i < k <= j && Forgets(run, k, id, Time(run[i]))
  {
    hide *;
    if k :| i < k < j && Forgets(run, k, id, Time(run[i])) {
      return k;
    }
    EntryStays(s, run, i, j, id);
    AtIsClean(s, run, j);
    if !Forgets(run, j, id, Time(run[i])) {
      StepKeepsEntry(s, run, j, id, Time(run[i]));
    }
    return j;
  }

  /** Some tick strictly between `i` and `j` saw the request no longer pending. */
  ghost predicate VanishedBetween(run: seq<Event>, i: nat, j: nat, id: Text) {
    exists k: nat :: VanishedAt(run, i, k, j, id)
  }

  predicate VanishedAt(run: seq<Event>, i: nat, k: nat, j: nat, id: Text) {
    i < k < j && k < |run| && run[k].Tick? && id !in PendingIds(run[k].poll)
  }

  /** On a clock that never runs backwards: two ticks that deliver the same request lie more than a
      day apart, or some tick strictly between them saw the request no longer pending. */
  lemma NoDuplicateDelivery(s: State, run: seq<Event>, i: nat, j: nat, id: Text)
    requires Clean(s) && Nondecreasing(run) && i < j < |run| && Trim(id) != []
    requires Delivers(s, run, i, id) && Delivers(s, run, j, id)
    ensures Time(run[j]) - Time(run[i]) > 86_400_000 || VanishedBetween(run, i, j, id)
  {
    hide *;
    var k := RedeliveryNeedsForgetting(s, run, i, j, id);
    DeliveringIsPending(s, run, j, id);
    ForgettingTick(run, k, id, Time(run[i]));
    if k < j {
      ClockAt(run, k, j);
      if id !in PendingIds(run[k].poll) {
        VanishedFrom(run, i, k, j, id);
      }
    }
  }

  lemma VanishedFrom(run: seq<Event>, i: nat, k: nat, j: nat, id: Text)
    requires i < k < j && k < |run| && run[k].Tick? && id !in PendingIds(run[k].poll)
    ensures VanishedBetween(run, i, j, id)
  {
    assert VanishedAt(run, i, k, j, id);
  }

  lemma DeliveringIsPending(s: State, run: seq<Event>, n: nat, id: Text)
    requires n < |run| && Delivers(s, run, n, id)
    ensures run[n].Tick? && id in PendingIds(run[n].poll)
  {
    hide At, Delivered, PendingIds;
    DeliveredIsPending(At(s, run, n), run[n].poll, id);
  }

  lemma ForgettingTick(run: seq<Event>, n: nat, id: Text, since: int)
    requires n < |run| && Forgets(run, n, id, since)
    ensures run[n].Tick? && (id !in PendingIds(run[n].poll) || Time(run[n]) - since > 86_400_000)
  {
  }

  lemma ClockAt(run: seq<Event>, k: nat, j: nat)
    requires Nondecreasing(run) && k < j < |run|
    ensures Time(run[k]) <= Time(run[j])
  {
  }

  // ---- what a tick leaves ----------------------------------------------------------------------

  /** After a tick every entry belongs to a pending request and is at most a day old. */
  lemma EntriesAreLiveAfterTick(s: State, p: Poll, id: Text)
    requires id in Next(s, Tick(p)).notified
    ensures id in PendingIds(p) && p.now - Next(s, Tick(p)).notified[id] <= 86_400_000
  {
    hide Trim, DropKeys, ReloadSubscribers;
    if id in DeliveredIds(s, p) {
      DeliveredIsPending(s, p, id);
    }
  }

  /** Every subscriber that wants an unseen request gets it, if the channel takes the message: when
      request ids are distinct, a send succeeds exactly when the request has no live entry, the
      subscriber wants it and the channel accepts it. */
  lemma SentExactly(s: State, p: Poll, i: nat, j: nat)
    requires i < |p.pending| && j < |s.subscribers| && CleanNotified(s.notified)
    requires forall a, b :: 0 <= a < b < |p.pending| ==> p.pending[a].id != p.pending[b].id
    ensures Sent(s, p, i, j) <==>
              && p.pending[i].id !in Pruned(s.notified, p)
              && ShouldNotify(s.subscribers[j], p.pending[i])
              && (i, j) in p.accepted
  {
    PrunedIsPart(s.notified, p);
    hide Pruned, ShouldNotify, Trim;
  }

  /** A blank request id is not remembered: the entry is dropped by the next read, so every later
      tick starts from the same entries and delivers the request again. */
  lemma BlankIdIsForgotten(s: State, p: Poll, id: Text)
    requires Trim(id) == []
    ensures id !in Next(s, Tick(p)).notified
  {
    hide Trim, AfterPoll, ReloadSubscribers;
  }

  /** The 24-hour promise broken: two deliveries of a request at most a day apart, at no tick between
      which it was not pending. */
  ghost predicate Duplicated(s: State, run: seq<Event>, i: nat, j: nat, id: Text) {
    && Clean(s) && Nondecreasing(run) && i < j < |run|
    && Delivers(s, run, i, id) && Delivers(s, run, j, id)
    && Time(run[j]) - Time(run[i]) <= 86_400_000 && !VanishedBetween(run, i, j, id)
  }

  lemma BlankIdIsDeliveredTwice(p1: Poll, p2: Poll, subscriber: Subscriber, id: Text)
    requires Trim(id) == [] && CleanSubscriber(subscriber) && subscriber.mode.Persistent?
    requires p1.pending == p2.pending == [Request(id, Absent)] && (0, 0) in p1.accepted && (0, 0) in p2.accepted
    ensures var s, run := State([subscriber], map[]), [Tick(p1), Tick(p2)];
            Delivers(s, run, 0, id) && Delivers(s, run, 1, id)
  {
    var s, run := State([subscriber], map[]), [Tick(p1), Tick(p2)];
    var s1 := Next(s, Tick(p1));
    assert At(s, run, 0) == s && At(s, run, 1) == s1;
    PersistentStays(s, p1, subscriber);
    BlankIdIsForgotten(s, p1, id);
    hide Next, Trim, CleanSubscriber;
    UnknownIdIsDelivered(s, p1, id);
    UnknownIdIsDelivered(s1, p2, id);
  }

  lemma TwoTicks(p1: Poll, p2: Poll, id: Text)
    ensures var run := [Tick(p1), Tick(p2)];
            && Time(run[0]) == p1.now && Time(run[1]) == p2.now && !VanishedBetween(run, 0, 1, id)
            && (p1.now <= p2.now ==> Nondecreasing(run))
  {
  }

  lemma OneSubscriberIsClean(subscriber: Subscriber)
    requires CleanSubscriber(subscriber)
    ensures Clean(State([subscriber], map[]))
  {
    hide Trimmed;
  }

  lemma DuplicatedWhen(s: State, run: seq<Event>, i: nat, j: nat, id: Text)
    requires Clean(s) && Nondecreasing(run) && i < j < |run|
    requires Delivers(s, run, i, id) && Delivers(s, run, j, id)
    requires Time(run[j]) - Time(run[i]) <= 86_400_000 && !VanishedBetween(run, i, j, id)
    ensures Duplicated(s, run, i, j, id)
  {
    hide Clean, Nondecreasing, Delivers, VanishedBetween, Time;
  }

  /** With a blank id the promise is broken by any two ticks at most a day apart that see it pending and
      whose sends to a persistent subscriber succeed. */
  lemma BlankIdIsRedelivered(p1: Poll, p2: Poll, subscriber: Subscriber, id: Text)
    requires Trim(id) == [] && CleanSubscriber(subscriber) && subscriber.mode.Persistent?
    requires p1.pending == p2.pending == [Request(id, Absent)] && (0, 0) in p1.accepted && (0, 0) in p2.accepted
    requires p1.now <= p2.now <= p1.now + 86_400_000
    ensures Duplicated(State([subscriber], map[]), [Tick(p1), Tick(p2)], 0, 1, id)
  {
    hide *;
    BlankIdIsDeliveredTwice(p1, p2, subscriber, id);
    TwoTicks(p1, p2, id);
    OneSubscriberIsClean(subscriber);
    DuplicatedWhen(State([subscriber], map[]), [Tick(p1), Tick(p2)], 0, 1, id);
  }

  lemma BlankIdBreaks(id: Text) returns (s: State, run: seq<Event>)
    requires Trim(id) == []
    ensures Duplicated(s, run, 0, 1, id)
  {
    hide Trim, Duplicated;
    var subscriber := Subscriber([0x31], None, NoThread, Persistent, 1);
    var p := Poll(1, [Request(id, Absent)], {(0, 0)});
    BlankIdIsRedelivered(p, p, subscriber, id);
    s, run := State([subscriber], map[]), [Tick(p), Tick(p)];
  }

  lemma OtherIdsAreNotDuplicated(s: State, run: seq<Event>, i: nat, j: nat, id: Text)
    requires Trim(id) != []
    ensures !Duplicated(s, run, i, j, id)
  {
    hide Clean, At, Trim, Delivers, VanishedBetween, Nondecreasing;
    if Duplicated(s, run, i, j, id) {
      NoDuplicateDelivery(s, run, i, j, id);
    }
  }

  /** The promise can be broken for a request id exactly when it is blank. */
  lemma BrokenExactlyForBlankIds(id: Text)
    ensures (exists s, run, i: nat, j: nat :: Duplicated(s, run, i, j, id)) <==> Trim(id) == []
  {
    hide *;
    if Trim(id) == [] {
      var s, run := BlankIdBreaks(id);
    } else {
      forall s, run, i: nat, j: nat ensures !Duplicated(s, run, i, j, id) {
        OtherIdsAreNotDuplicated(s, run, i, j, id);
      }
    }
  }

  lemma UnknownIdIsDelivered(s: State, p: Poll, id: Text)
    requires id !in s.notified && |s.subscribers| > 0 && s.subscribers[0].mode.Persistent?
    requires p.pending == [Request(id, Absent)] && (0, 0) in p.accepted
    ensures Delivered(s, p, id)
  {
    PrunedIsPart(s.notified, p);
    hide Pruned;
    assert Sent(s, p, 0, 0);
  }

  lemma PersistentStays(s: State, p: Poll, subscriber: Subscriber)
    requires s.subscribers == [subscriber] && CleanSubscriber(subscriber) && subscriber.mode.Persistent?
    ensures Next(s, Tick(p)).subscribers == s.subscribers
  {
    hide Pruned, DeliveredIds, CleanSubscriber, Key, Trim, Unseen;
    assert SpentKeys(s, p) == {};
    DropNothing(s.subscribers);
    CleanSubscribersReload(s.subscribers);
  }
}
