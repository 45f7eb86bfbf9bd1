/** What runs of the notifier guarantee about its subscriptions (extensions/device-pair/notify.ts). */
module PairNotifySubscriptions {
  import opened JsText
  import opened PairNotify
  import opened PairNotifyCommands
  import opened PairNotifier
  import opened PairNotifyRuns

  // ---- subscriber keys stay distinct -----------------------------------------------------------

  lemma AppendDistinct(subs: seq<Subscriber>, n: Subscriber)
    requires DistinctKeys(subs)
    ensures DistinctKeys(subs + [n]) <==> FindKey(subs, Key(n)) < 0
  {
    hide Key, FindKey;
    var all := subs + [n];
    var i := FindKey(subs, Key(n));
    if i >= 0 {
      assert all[i] == subs[i] && all[|subs|] == n;
    }
  }

  lemma ReplaceDistinct(subs: seq<Subscriber>, i: nat, n: Subscriber)
    requires DistinctKeys(subs) && i < |subs|
    ensures DistinctKeys(subs[i := n]) <==> Key(n) == Key(subs[i]) || FindKey(subs, Key(n)) < 0
  {
    hide Key, FindKey;
    var all := subs[i := n];
    var k := FindKey(subs, Key(n));
    if k >= 0 && k != i {
      assert all[k] == subs[k] && all[i] == n;
      assert Key(subs[k]) != Key(subs[i]) by {
        if k < i { assert Key(subs[k]) != Key(subs[i]); } else { assert Key(subs[i]) != Key(subs[k]); }
      }
    }
  }

  /** Subscribing keeps the keys distinct exactly when nothing changes, or the stored key is the one
      that was looked up, or no subscriber has the stored key yet. */
  lemma UpsertDistinctExactly(subs: seq<Subscriber>, t: Target, mode: Mode, now: Instant)
    requires CleanSubscribers(subs) && Trim(t.to) != [] && DistinctKeys(subs)
    ensures DistinctKeys(ReloadSubscribers(Upsert(subs, t, mode, now)))
       <==> || (FindKey(subs, TargetKey(t)) >= 0 && subs[FindKey(subs, TargetKey(t))].mode == mode)
            || StoredKey(t) == TargetKey(t)
            || FindKey(subs, StoredKey(t)) < 0
  {
    hide Trim, CleanSubscribers, ReloadSubscriber, ReloadSubscribers, FindKey, TargetKey, Key, DistinctKeys, Stored,
         StoredKey, Upsert;
    UpsertStores(subs, t, mode, now);
    StoredKeyOfAny(t, mode, now);
    var i, n := FindKey(subs, TargetKey(t)), Stored(t, mode, now);
    if i < 0 {
      AppendDistinct(subs, n);
    } else if subs[i].mode != mode {
      ReplaceDistinct(subs, i, n);
    }
  }

  /** An id with outer white space breaks it: the same command given twice subscribes twice. */
  lemma UntrimmedTargetSubscribesTwice(t: Target, mode: Mode, now1: Instant, now2: Instant)
    requires Trim(t.to) != [] && StoredKey(t) != TargetKey(t)
    ensures var once := ReloadSubscribers(Upsert([], t, mode, now1));
            var twice := ReloadSubscribers(Upsert(once, t, mode, now2));
            |twice| == 2 && Key(twice[0]) == Key(twice[1])
  {
    hide Trim, ReloadSubscriber, ReloadSubscribers, TargetKey, Key, Stored, StoredKey;
    var none: seq<Subscriber> := [];
    UpsertStores(none, t, mode, now1);
    var n1, n2 := Stored(t, mode, now1), Stored(t, mode, now2);
    var once := ReloadSubscribers(Upsert(none, t, mode, now1));
    assert once == [n1];
    StoredIsClean(t, mode, now1);
    StoredKeyOfAny(t, mode, now1);
    StoredKeyOfAny(t, mode, now2);
    UpsertStores(once, t, mode, now2);
  }

  lemma StoredIsClean(t: Target, mode: Mode, now: Instant)
    requires Trim(t.to) != []
    ensures CleanSubscriber(Stored(t, mode, now))
  {
    hide Trim, CleanSubscriber, ReloadSubscriber;
    CleanSubscriberReloads(Subscribe(t, mode, now));
  }

  lemma {:induction false} DropKeysDistinct(subs: seq<Subscriber>, keys: set<Text>)
    requires DistinctKeys(subs) && CleanSubscribers(subs)
    ensures DistinctKeys(DropKeys(subs, keys)) && CleanSubscribers(DropKeys(subs, keys))
  {
    hide Key, CleanSubscriber;
    if subs != [] {
      var n := |subs| - 1;
      DropKeysDistinct(subs[..n], keys);
      var rest := DropKeys(subs[..n], keys);
      forall i | 0 <= i < |rest| ensures Key(rest[i]) != Key(subs[n]) {
        assert rest[i] in subs[..n];
      }
    }
  }

  /** A subscribing command whose target is stored under another key than it was looked up with, while a
      subscriber with that other key is there. */
  ghost predicate Collides(s: State, e: Event) {
    && e.Command? && e.ctx.telegram && ResolveNotifyTarget(e.ctx).Some? && e.action.SubscribeAs?
    && var t := ResolveNotifyTarget(e.ctx).value;
       && NewOrOtherMode(s.subscribers, t, e.action.mode)
       && StoredKey(t) != TargetKey(t) && FindKey(s.subscribers, StoredKey(t)) >= 0
  }

  /** One event keeps the keys distinct exactly when it does not collide. */
  lemma NextDistinctExactly(s: State, e: Event)
    requires Clean(s) && DistinctKeys(s.subscribers)
    ensures DistinctKeys(Next(s, e).subscribers) <==> !Collides(s, e)
  {
    hide Trim, Key, ReloadSubscribers, ReloadSubscriber, FindKey, Upsert, Remove, DistinctKeys, CleanSubscriber,
         DropKeys, SpentKeys, Pruned, DeliveredIds, CleanNotified, TargetKey, Stored, StoredKey, ReloadNotified;
    match e
    case Tick(p) =>
      DropKeysDistinct(s.subscribers, SpentKeys(s, p));
      CleanSubscribersReload(DropKeys(s.subscribers, SpentKeys(s, p)));
    case Command(ctx, action, now) =>
      CleanSubscribersReload(s.subscribers);
      var target := ResolveNotifyTarget(ctx);
      if ctx.telegram && target.Some? {
        var t := target.value;
        ResolvedIsTrimmed(ctx);
        match action
        case SubscribeAs(mode) =>
          UpsertDistinctExactly(s.subscribers, t, mode, now);
        case Unsubscribe =>
          RemoveDistinct(s.subscribers, TargetKey(t));
          CleanSubscribersReload(Remove(s.subscribers, TargetKey(t)));
        case _ =>
      }
  }

  /** Over whole runs, keys stop being distinct at some moment exactly when some command collides. */
  lemma {:induction false} KeysDistinctExactly(s: State, run: seq<Event>, n: nat)
    requires Clean(s) && DistinctKeys(s.subscribers) && n <= |run|
    ensures (forall m :: 0 <= m <= n ==> DistinctKeys(At(s, run, m).subscribers))
       <==> forall m :: 0 <= m < n ==> !Collides(At(s, run, m), run[m])
    decreases n
  {
    hide *;
    AtZero(s, run);
    if n > 0 {
      KeysDistinctExactly(s, run, n - 1);
      AtIsClean(s, run, n - 1);
      AtNext(s, run, n - 1);
      if DistinctKeys(At(s, run, n - 1).subscribers) {
        NextDistinctExactly(At(s, run, n - 1), run[n - 1]);
      }
    }
  }

  lemma AtZero(s: State, run: seq<Event>)
    ensures At(s, run, 0) == s
  {
  }

  lemma AtNext(s: State, run: seq<Event>, n: nat)
    requires n < |run|
    ensures At(s, run, n + 1) == Next(At(s, run, n), run[n])
  {
    hide Next;
  }

  lemma TrimmedNeverCollides(s: State, e: Event)
    requires e.Command? ==> TrimmedIds(e.ctx)
    ensures !Collides(s, e)
  {
    hide Trimmed, TrimmedIds, StoredKey, TargetKey, FindKey, ResolveNotifyTarget, NewOrOtherMode;
    if e.Command? && ResolveNotifyTarget(e.ctx).Some? {
      ResolvedIsTrimmed(e.ctx);
      TrimmedTargetKeepsKey(ResolveNotifyTarget(e.ctx).value);
    }
  }

  /** With trimmed ids, subscriber keys stay pairwise distinct over every run. */
  lemma KeysStayDistinct(s: State, run: seq<Event>, n: nat)
    requires Clean(s) && DistinctKeys(s.subscribers) && n <= |run|
    requires forall k :: 0 <= k < n && run[k].Command? ==> TrimmedIds(run[k].ctx)
    ensures DistinctKeys(At(s, run, n).subscribers)
  {
    hide Clean, At, DistinctKeys, TrimmedIds, Collides;
    forall m | 0 <= m < n ensures !Collides(At(s, run, m), run[m]) {
      TrimmedNeverCollides(At(s, run, m), run[m]);
    }
    KeysDistinctExactly(s, run, n);
  }

  // ---- one-shot subscriptions ------------------------------------------------------------------

  /** Event `n` is a command that subscribes its target, stored as `sub`. */
  ghost predicate Subscribes(e: Event, sub: Subscriber) {
    && e.Command? && e.ctx.telegram && ResolveNotifyTarget(e.ctx).Some? && e.action.SubscribeAs?
    && sub == Stored(ResolveNotifyTarget(e.ctx).value, e.action.mode, e.now)
  }

  /** Event `n` is a tick that delivers to a one-shot subscription with this key. */
  ghost predicate SpendsAt(s: State, run: seq<Event>, n: nat, key: Text)
    requires n < |run|
  {
    run[n].Tick? && Spent(At(s, run, n), run[n].poll, key)
  }

  /** A subscriber found after an event was there before, and not spent by it, or was subscribed by
      it. */
  lemma SubscriberOrigin(s: State, e: Event, sub: Subscriber)
    requires Clean(s) && sub in Next(s, e).subscribers
    ensures Subscribes(e, sub) || (sub in s.subscribers && (e.Tick? ==> !Spent(s, e.poll, Key(sub))))
  {
    hide Trim, Key, ReloadSubscribers, ReloadSubscriber, FindKey, Upsert, CleanSubscriber, DropKeys, Spent,
      Pruned, DeliveredIds, CleanNotified, TargetKey, Stored, ReloadNotified, Remove;
    match e
    case Tick(p) =>
      DropKeysClean(s.subscribers, SpentKeys(s, p));
      CleanSubscribersReload(DropKeys(s.subscribers, SpentKeys(s, p)));
    case Command(ctx, action, now) =>
      CleanSubscribersReload(s.subscribers);
      var target := ResolveNotifyTarget(ctx);
      if ctx.telegram && target.Some? {
        var t := target.value;
        ResolvedIsTrimmed(ctx);
        match action
        case SubscribeAs(mode) =>
          UpsertStores(s.subscribers, t, mode, now);
        case Unsubscribe =>
          RemovedIsPart(s.subscribers, TargetKey(t));
          CleanSubscribersReload(Remove(s.subscribers, TargetKey(t)));
        case _ =>
      }
  }

  lemma DropKeysClean(subs: seq<Subscriber>, keys: set<Text>)
    requires CleanSubscribers(subs)
    ensures CleanSubscribers(DropKeys(subs, keys))
  {
    hide DropKeys, Key, CleanSubscriber;
    forall i | 0 <= i < |DropKeys(subs, keys)| ensures CleanSubscriber(DropKeys(subs, keys)[i]) {
      assert DropKeys(subs, keys)[i] in subs;
    }
  }

  /** The state before event `n` of a run from the empty state. */
  ghost function Reached(run: seq<Event>, n: nat): State
    requires n <= |run|
  {
    At(State([], map[]), run, n)
  }

  /** Command `m` stored `sub`, and no tick after it and before event `n` has spent its key. */
  ghost predicate ArmedSince(run: seq<Event>, m: nat, n: nat, sub: Subscriber) {
    && m < n <= |run| && Subscribes(run[m], sub)
    && forall k :: m < k < n ==> !SpendsAt(State([], map[]), run, k, Key(sub))
  }

  lemma StepOrigin(run: seq<Event>, n: nat, sub: Subscriber)
    requires n < |run| && sub in Reached(run, n + 1).subscribers
    ensures Subscribes(run[n], sub)
         || (sub in Reached(run, n).subscribers && !SpendsAt(State([], map[]), run, n, Key(sub)))
  {
    EmptyIsClean();
    AtIsClean(State([], map[]), run, n);
    hide Clean, Next, Subscribes, Spent, Key;
    SubscriberOrigin(Reached(run, n), run[n], sub);
  }

  lemma NobodyAtStart(run: seq<Event>)
    ensures Reached(run, 0).subscribers == []
  {
  }

  lemma ArmedLonger(run: seq<Event>, m: nat, n: nat, sub: Subscriber)
    requires ArmedSince(run, m, n, sub) && n < |run| && !SpendsAt(State([], map[]), run, n, Key(sub))
    ensures ArmedSince(run, m, n + 1, sub)
  {
    hide SpendsAt, Subscribes, Key;
  }

  lemma ArmedNow(run: seq<Event>, n: nat, sub: Subscriber)
    requires n < |run| && Subscribes(run[n], sub)
    ensures ArmedSince(run, n, n + 1, sub)
  {
    hide SpendsAt, Subscribes, Key;
  }

  /** Every subscriber goes back to the command that stored it, and has been there since. */
  lemma {:induction false} SubscribedBy(run: seq<Event>, n: nat, sub: Subscriber) returns (m: nat)
    requires n <= |run| && sub in Reached(run, n).subscribers
    ensures ArmedSince(run, m, n, sub)
    ensures forall k :: m < k <= n ==> sub in Reached(run, k).subscribers
  {
    NobodyAtStart(run);
    hide *;
    StepOrigin(run, n - 1, sub);
    if Subscribes(run[n - 1], sub) {
      m := n - 1;
      ArmedNow(run, m, sub);
    } else {
      m := SubscribedBy(run, n - 1, sub);
      ArmedLonger(run, m, n - 1, sub);
    }
  }

  lemma EmptyIsClean()
    ensures Clean(State([], map[]))
  {
  }

  /** Tick `n` successfully sends request `i` to the one-shot subscriber `j`. */
  ghost predicate OneShotSend(run: seq<Event>, n: nat, i: nat, j: nat, sub: Subscriber) {
    && n < |run| && run[n].Tick? && Sent(Reached(run, n), run[n].poll, i, j)
    && sub == Reached(run, n).subscribers[j] && sub.mode.Once?
  }

  /** A successful one-shot delivery answers the arming that stored the subscription: the request is
      stamped at or after that arming, no tick in between has delivered to the key, and after the tick no
      subscription with the key is left. */
  lemma OneShotDeliversOnce(run: seq<Event>, n: nat, i: nat, j: nat, sub: Subscriber) returns (m: nat)
    requires OneShotSend(run, n, i, j, sub)
    ensures ArmedSince(run, m, n, sub) && run[m].action == SubscribeAs(Once)
    ensures forall k :: m < k <= n ==> sub in Reached(run, k).subscribers
    ensures var stamp := RequestTimestamp(run[n].poll.pending[i]); stamp.Some? && stamp.value >= Time(run[m])
    ensures SpendsAt(State([], map[]), run, n, Key(sub))
    ensures forall other :: other in Reached(run, n + 1).subscribers ==> Key(other) != Key(sub)
  {
    OneShotSendMeans(run, n, i, j, sub);
    m := SubscribedBy(run, n, sub);
    StoredMode(run[m], sub);
    forall other | other in Reached(run, n + 1).subscribers ensures Key(other) != Key(sub) {
      StepOrigin(run, n, other);
      TickSubscribesNobody(run[n], other);
    }
  }

  lemma OneShotSendMeans(run: seq<Event>, n: nat, i: nat, j: nat, sub: Subscriber)
    requires OneShotSend(run, n, i, j, sub)
    ensures i < |run[n].poll.pending| && sub in Reached(run, n).subscribers && sub.mode.Once?
    ensures SpendsAt(State([], map[]), run, n, Key(sub))
    ensures var stamp := RequestTimestamp(run[n].poll.pending[i]); stamp.Some? && stamp.value >= sub.addedAtMs
  {
    hide At, Key, Unseen;
    assert Spent(Reached(run, n), run[n].poll, Key(sub));
  }

  lemma TickSubscribesNobody(e: Event, sub: Subscriber)
    ensures e.Tick? ==> !Subscribes(e, sub)
  {
  }

  lemma StoredMode(e: Event, sub: Subscriber)
    requires Subscribes(e, sub)
    ensures e.Command? && e.action == SubscribeAs(sub.mode) && Time(e) == sub.addedAtMs
  {
  }

  /** So two one-shot deliveries to a key in different ticks have an arming of that key between
      them. */
  lemma RearmedBetween(run: seq<Event>, k: nat, n: nat, i: nat, j: nat, sub: Subscriber) returns (m: nat)
    requires k < n && OneShotSend(run, n, i, j, sub)
    requires n < |run| && SpendsAt(State([], map[]), run, k, Key(sub))
    ensures k < m < n && Subscribes(run[m], sub) && run[m].action == SubscribeAs(Once)
  {
    hide OneShotSend, Spent, Key, At, Reached;
    m := OneShotDeliversOnce(run, n, i, j, sub);
    StoredMode(run[m], sub);
    hide Subscribes;
    assert k != m;
  }

  // ---- arming an armed key ---------------------------------------------------------------------

  /** The subscription a command is about: the one its target's key finds, or the one it appends. */
  function IndexFor(subs: seq<Subscriber>, t: Target): nat {
    var i := FindKey(subs, TargetKey(t)); if i < 0 then |subs| else i
  }

  /** After a one-shot command the subscription is one-shot, and it is stamped with the time of the command
      exactly when the key was not subscribed or was in the other mode; otherwise it keeps its stamp. */
  lemma ArmingStampsExactly(subs: seq<Subscriber>, t: Target, now: Instant)
    requires CleanSubscribers(subs) && Trim(t.to) != []
    ensures var after, k := ReloadSubscribers(Upsert(subs, t, Once, now)), IndexFor(subs, t);
            && k < |after| && after[k].mode == Once
            && (NewOrOtherMode(subs, t, Once) ==> after[k].addedAtMs == now)
            && (!NewOrOtherMode(subs, t, Once) ==> after == subs)
            && (after[k].addedAtMs == now
                <==> NewOrOtherMode(subs, t, Once) || (k < |subs| && subs[k].addedAtMs == now))
  {
    hide Trim, CleanSubscribers, ReloadSubscribers, FindKey, TargetKey, Upsert, Key;
    UpsertStores(subs, t, Once, now);
  }

  /** A one-shot command of a chat that has a target. */
  predicate IsArming(e: Event) {
    e.Command? && e.ctx.telegram && ResolveNotifyTarget(e.ctx).Some? && e.action == SubscribeAs(Once)
  }

  predicate Arms(e: Event, key: Text) { IsArming(e) && TargetKey(ResolveNotifyTarget(e.ctx).value) == key }

  /** A one-shot command that finds its key armed already. */
  ghost predicate Rearms(run: seq<Event>, k: nat) {
    && k < |run| && IsArming(run[k])
    && !NewOrOtherMode(Reached(run, k).subscribers, ResolveNotifyTarget(run[k].ctx).value, Once)
  }

  predicate AllTrimmed(run: seq<Event>, n: nat)
    requires n <= |run|
  {
    forall k :: 0 <= k < n && run[k].Command? ==> TrimmedIds(run[k].ctx)
  }

  lemma FoundBySelf(subs: seq<Subscriber>, sub: Subscriber)
    requires DistinctKeys(subs) && sub in subs
    ensures FindKey(subs, Key(sub)) >= 0 && subs[FindKey(subs, Key(sub))] == sub
  {
    hide Key;
    var i, k := FindKey(subs, Key(sub)), 0;
    k :| 0 <= k < |subs| && subs[k] == sub;
  }

  /** A one-shot command for a key that is armed changes nothing. */
  lemma RearmingChangesNothing(run: seq<Event>, k: nat, sub: Subscriber)
    requires k < |run| && sub in Reached(run, k).subscribers && sub.mode.Once? && Arms(run[k], Key(sub))
    requires DistinctKeys(Reached(run, k).subscribers)
    ensures Rearms(run, k) && Reached(run, k + 1).subscribers == Reached(run, k).subscribers
  {
    EmptyIsClean();
    AtIsClean(State([], map[]), run, k);
    var subs := Reached(run, k).subscribers;
    FoundBySelf(subs, sub);
    var t := ResolveNotifyTarget(run[k].ctx).value;
    ResolvedIsTrimmed(run[k].ctx);
    hide Trim, FindKey, TargetKey, Upsert, Key, DistinctKeys, ResolveNotifyTarget, ReloadSubscribers, ReloadNotified,
         CleanSubscriber, CleanNotified, Trimmed, TrimmedIds;
    ArmingStampsExactly(subs, t, run[k].now);
    assert Reached(run, k + 1) == Next(Reached(run, k), run[k]);
  }

  lemma TrimmedRunIsDistinct(run: seq<Event>, n: nat)
    requires n <= |run| && AllTrimmed(run, n)
    ensures DistinctKeys(Reached(run, n).subscribers)
  {
    EmptyIsClean();
    KeysStayDistinct(State([], map[]), run, n);
  }

  lemma StoringArms(e: Event, sub: Subscriber)
    requires Subscribes(e, sub) && sub.mode.Once? && TrimmedIds(e.ctx)
    ensures Arms(e, Key(sub))
  {
    var t := ResolveNotifyTarget(e.ctx).value;
    ResolvedIsTrimmed(e.ctx);
    TrimmedTargetKeepsKey(t);
    StoredKeyOfAny(t, e.action.mode, e.now);
    hide Trimmed, Key, TargetKey, StoredKey, ResolveNotifyTarget;
  }

  /** With trimmed ids, the arming a one-shot delivery answers is the latest one that found its key not
      armed: every later arming of the key changed nothing, and so left the old stamp. */
  lemma OneShotAnswersLastEffectiveArming(run: seq<Event>, n: nat, i: nat, j: nat, sub: Subscriber) returns (m: nat)
    requires OneShotSend(run, n, i, j, sub) && AllTrimmed(run, n)
    ensures m < n && Arms(run[m], Key(sub)) && Time(run[m]) == sub.addedAtMs
    ensures var stamp := RequestTimestamp(run[n].poll.pending[i]); stamp.Some? && stamp.value >= Time(run[m])
    ensures forall k :: m < k < n && Arms(run[k], Key(sub)) ==>
              Rearms(run, k) && Reached(run, k + 1).subscribers == Reached(run, k).subscribers
  {
    OneShotIsOnce(run, n, i, j, sub);
    hide *;
    m := OneShotDeliversOnce(run, n, i, j, sub);
    StoredBy(run, m, n, sub);
    TrimmedEarlier(run, m, n);
    StoredMode(run[m], sub);
    StoringArms(run[m], sub);
    forall k | m < k < n && Arms(run[k], Key(sub))
      ensures Rearms(run, k) && Reached(run, k + 1).subscribers == Reached(run, k).subscribers
    {
      TrimmedEarlier(run, k, n);
      TrimmedRunIsDistinct(run, k);
      RearmingChangesNothing(run, k, sub);
    }
  }

  lemma OneShotIsOnce(run: seq<Event>, n: nat, i: nat, j: nat, sub: Subscriber)
    requires OneShotSend(run, n, i, j, sub)
    ensures sub.mode.Once? && n < |run|
  {
  }

  lemma StoredBy(run: seq<Event>, m: nat, n: nat, sub: Subscriber)
    requires ArmedSince(run, m, n, sub)
    ensures m < n <= |run| && Subscribes(run[m], sub)
  {
  }

  lemma TrimmedEarlier(run: seq<Event>, k: nat, n: nat)
    requires k < n <= |run| && AllTrimmed(run, n)
    ensures AllTrimmed(run, k) && (run[k].Command? ==> TrimmedIds(run[k].ctx))
  {
    hide TrimmedIds;
  }

  /** So when no command arms an armed key, a delivered request is stamped at or after every arming of its
      key before the delivery, the latest one included. */
  lemma StampedAfterLatestArming(run: seq<Event>, n: nat, i: nat, j: nat, sub: Subscriber, k: nat)
    requires OneShotSend(run, n, i, j, sub) && AllTrimmed(run, n) && Nondecreasing(run)
    requires k < n && Arms(run[k], Key(sub)) && forall q :: 0 <= q < n ==> !Rearms(run, q)
    ensures var stamp := RequestTimestamp(run[n].poll.pending[i]); stamp.Some? && stamp.value >= Time(run[k])
  {
    hide *;
    OneShotIsOnce(run, n, i, j, sub);
    var m := OneShotAnswersLastEffectiveArming(run, n, i, j, sub);
    if k < m {
      ClockAt(run, k, m);
    }
  }

  lemma ArmingStores(s: State, ctx: Context, now: Instant)
    requires s.subscribers == [] && ctx.telegram && ResolveNotifyTarget(ctx).Some?
    ensures Next(s, Command(ctx, SubscribeAs(Once), now)).subscribers
         == [Stored(ResolveNotifyTarget(ctx).value, Once, now)]
  {
    hide Trim, Trimmed, TrimmedIds, Upsert, ReloadSubscribers, ReloadNotified, Stored, TargetKey, FindKey, Key,
         ResolveNotifyTarget;
    var t := ResolveNotifyTarget(ctx).value;
    ResolvedIsTrimmed(ctx);
    UpsertStores(s.subscribers, t, Once, now);
  }

  lemma TickSends(s: State, p: Poll, sub: Subscriber, id: Text, ts: int)
    requires s == State([sub], map[]) && sub.mode.Once? && p.pending == [Request(id, Number(ts as real))]
    requires (0, 0) in p.accepted && ts > 0 && sub.addedAtMs <= ts
    ensures Sent(s, p, 0, 0) && RequestTimestamp(p.pending[0]) == Some(ts)
  {
    TruncOfInteger(ts);
  }

  lemma CommandKeepsNothing(e: Event, s: State)
    requires e.Command? && s.notified == map[]
    ensures Next(s, e).notified == map[]
  {
    hide Upsert, Remove, ResolveNotifyTarget, ReloadSubscribers;
  }

  lemma ReachedStep(run: seq<Event>, k: nat)
    requires k < |run|
    ensures Reached(run, 0) == State([], map[]) && Reached(run, k + 1) == Next(Reached(run, k), run[k])
  {
    hide Next;
  }

  /** The run starts with two one-shot commands of one chat. */
  predicate ArmsTwice(run: seq<Event>, ctx: Context, t1: Instant, t2: Instant) {
    && |run| >= 2 && run[0] == Command(ctx, SubscribeAs(Once), t1) && run[1] == Command(ctx, SubscribeAs(Once), t2)
    && ctx.telegram && ResolveNotifyTarget(ctx).Some? && TrimmedIds(ctx)
  }

  lemma SecondArmingChangesNothing(run: seq<Event>, ctx: Context, t1: Instant, t2: Instant)
    requires ArmsTwice(run, ctx, t1, t2)
    ensures ctx.telegram && ResolveNotifyTarget(ctx).Some? && |run| >= 2 && AllTrimmed(run, 2)
    ensures var sub := Stored(ResolveNotifyTarget(ctx).value, Once, t1);
            && Reached(run, 1) == State([sub], map[]) && Reached(run, 2) == State([sub], map[])
            && Arms(run[1], Key(sub)) && Rearms(run, 1)
  {
    hide Next, Reached, Stored, TargetKey, Key, TrimmedIds, Trim, ResolveNotifyTarget, DistinctKeys, Rearms;
    var sub := Stored(ResolveNotifyTarget(ctx).value, Once, t1);
    ReachedStep(run, 0);
    ReachedStep(run, 1);
    ArmingStores(Reached(run, 0), ctx, t1);
    CommandKeepsNothing(run[0], Reached(run, 0));
    CommandKeepsNothing(run[1], Reached(run, 1));
    StoredOnce(run[0], sub);
    StoringArms(run[0], sub);
    TrimmedRunIsDistinct(run, 1);
    assert [sub][0] == sub;
    RearmingChangesNothing(run, 1, sub);
  }

  lemma StoredOnce(e: Event, sub: Subscriber)
    requires IsArming(e) && sub == Stored(ResolveNotifyTarget(e.ctx).value, Once, e.now)
    ensures Subscribes(e, sub) && sub.mode.Once? && sub.addedAtMs == e.now
  {
    hide Trim, ResolveNotifyTarget;
  }

  /** A chat that arms at `t1` and again at `t2` is told both times that it is armed, and still gets a
      request stamped before `t2`. */
  lemma RearmedKeepsOldStamp(run: seq<Event>, ctx: Context, t1: Instant, t2: Instant, p: Poll, id: Text, ts: int)
    requires ArmsTwice(run, ctx, t1, t2) && |run| == 3 && run[2] == Tick(p) && t1 <= ts < t2
    requires p.pending == [Request(id, Number(ts as real))] && (0, 0) in p.accepted
    ensures ctx.telegram && ResolveNotifyTarget(ctx).Some? && |p.pending| == 1
    ensures var sub := Stored(ResolveNotifyTarget(ctx).value, Once, t1);
            && Arms(run[1], Key(sub)) && ReplyTo(Reached(run, 1), ctx, SubscribeAs(Once)) == Armed
            && OneShotSend(run, 2, 0, 0, sub)
            && RequestTimestamp(p.pending[0]) == Some(ts) && ts < Time(run[1])
  {
    SecondArmingChangesNothing(run, ctx, t1, t2);
    var sub := Stored(ResolveNotifyTarget(ctx).value, Once, t1);
    StoredOnce(run[0], sub);
    hide Reached, Stored, Key, Trim, Sent, ResolveNotifyTarget, RequestTimestamp, Arms, TrimmedIds;
    TickSends(Reached(run, 2), p, sub, id, ts);
  }
}
