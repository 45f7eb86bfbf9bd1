/** The notifier's commands: what each does to the state file and what it answers
    (extensions/device-pair/notify.ts). */
module PairNotifyCommands {
  import opened JsText
  import opened Numerals
  import opened PairNotify

  const BAR: CodeUnit := 0x7C

  function KeyOf(to: Text, account: Option<Text>, thread: Thread): Text {
    to + [BAR] + (if account.Some? then account.value else []) + [BAR]
    + (match thread case NoThread => [] case ThreadText(t) => t case ThreadNumber(n) => Decimal(n))
  }

  function Key(s: Subscriber): Text { KeyOf(s.to, s.account, s.thread) }

  // ---- the commands ------------------------------------------------------------------------------

  datatype Context = Context(telegram: bool, senderId: Option<Text>, from: Option<Text>, to: Option<Text>,
                             accountId: Option<Text>, messageThreadId: Thread)

  datatype Target = Target(to: Text, account: Option<Text>, thread: Thread)

  function TargetKey(t: Target): Text { KeyOf(t.to, t.account, t.thread) }

  function TrimmedOrEmpty(t: Option<Text>): Text { if t.Some? then Trim(t.value) else [] }

  function ResolveNotifyTarget(ctx: Context): (r: Option<Target>)
    ensures r.Some? ==> r.value.to != [] && Trimmed(r.value.to)
  {
    var sender, from, dest := TrimmedOrEmpty(ctx.senderId), TrimmedOrEmpty(ctx.from), TrimmedOrEmpty(ctx.to);
    var to := if sender != [] then sender else if from != [] then from else dest;
    if to == [] then None
    else Some(Target(to, if ctx.accountId == Some([]) then None else ctx.accountId, ctx.messageThreadId))
  }

  /** The first subscriber with the given key, or -1. */
  function FindKey(subs: seq<Subscriber>, key: Text): (i: int)
    ensures -1 <= i < |subs|
    ensures i >= 0 ==> Key(subs[i]) == key
    ensures forall k :: 0 <= k < (if i < 0 then |subs| else i) ==> Key(subs[k]) != key
  {
    if subs == [] then -1
    else if Key(subs[0]) == key then 0
    else
      var i := FindKey(subs[1..], key);
      assert forall k {:trigger subs[k]} :: 1 <= k < |subs| ==> subs[k] == subs[1..][k - 1];
      if i < 0 then -1 else i + 1
  }

  function Subscribe(t: Target, mode: Mode, now: Instant): Subscriber {
    Subscriber(t.to, t.account, t.thread, mode, now)
  }

  /** The target is not subscribed yet, or in the other mode. */
  predicate NewOrOtherMode(subs: seq<Subscriber>, t: Target, mode: Mode) {
    FindKey(subs, TargetKey(t)) < 0 || subs[FindKey(subs, TargetKey(t))].mode != mode
  }

  /** What `upsertNotifySubscriber` makes of the list; it reports a change unless the target is
      already subscribed in the same mode. */
  function Upsert(subs: seq<Subscriber>, t: Target, mode: Mode, now: Instant): seq<Subscriber> {
    var i := FindKey(subs, TargetKey(t));
    if i < 0 then subs + [Subscribe(t, mode, now)]
    else if subs[i].mode == mode then subs
    else subs[i := Subscribe(t, mode, now)]
  }

  function Remove(subs: seq<Subscriber>, key: Text): seq<Subscriber> {
    var i := FindKey(subs, key);
    if i < 0 then subs else subs[..i] + subs[i + 1..]
  }

  lemma RemoveIs(subs: seq<Subscriber>, key: Text)
    ensures var i := FindKey(subs, key); Remove(subs, key) == if i == -1 then subs else subs[..i] + subs[i + 1..]
  {
    hide FindKey;
  }

  /** What a command answers. */
  datatype Reply =
    | NotTelegram | NoTarget | Enabled | Disabled | Armed | Usage
    | Status(mode: Option<Mode>, subscribers: nat)

  datatype Action = SubscribeAs(mode: Mode) | Unsubscribe | ShowStatus | Unknown

  function ParseAction(action: string): Action {
    if action == "on" || action == "enable" then SubscribeAs(Persistent)
    else if action == "off" || action == "disable" then Unsubscribe
    else if action == "once" || action == "arm" then SubscribeAs(Once)
    else if action == "status" || action == "" then ShowStatus
    else Unknown
  }

  function AfterAction(s: State, target: Target, action: Action, now: Instant): State {
    match action
    case SubscribeAs(mode) => s.(subscribers := Upsert(s.subscribers, target, mode, now))
    case Unsubscribe => s.(subscribers := Remove(s.subscribers, TargetKey(target)))
    case _ => s
  }

  function AfterCommand(s: State, ctx: Context, action: Action, now: Instant): State {
    var target := ResolveNotifyTarget(ctx);
    if !ctx.telegram || target.None? then s else AfterAction(s, target.value, action, now)
  }

  function ReplyTo(s: State, ctx: Context, action: Action): Reply {
    var target := ResolveNotifyTarget(ctx);
    if !ctx.telegram then NotTelegram
    else if target.None? then NoTarget
    else
      match action
      case SubscribeAs(Persistent) => Enabled
      case SubscribeAs(Once) => Armed
      case Unsubscribe => Disabled
      case ShowStatus =>
        var i := FindKey(s.subscribers, TargetKey(target.value));
        Status(if i < 0 then None else Some(s.subscribers[i].mode), |s.subscribers|)
      case Unknown => Usage
  }

  /** Both, action by action. */
  lemma CommandCases(s: State, ctx: Context, action: Action, now: Instant)
    ensures !ctx.telegram ==> AfterCommand(s, ctx, action, now) == s && ReplyTo(s, ctx, action) == NotTelegram
    ensures ctx.telegram && ResolveNotifyTarget(ctx).None? ==>
              AfterCommand(s, ctx, action, now) == s && ReplyTo(s, ctx, action) == NoTarget
    ensures ctx.telegram && ResolveNotifyTarget(ctx).Some? ==>
              var t := ResolveNotifyTarget(ctx).value;
              var i := FindKey(s.subscribers, TargetKey(t));
              var s', reply := AfterCommand(s, ctx, action, now), ReplyTo(s, ctx, action);
              match action
              case SubscribeAs(mode) =>
                && s' == s.(subscribers := Upsert(s.subscribers, t, mode, now))
                && reply == if mode.Once? then Armed else Enabled
              case Unsubscribe =>
                s' == s.(subscribers := Remove(s.subscribers, TargetKey(t))) && reply == Disabled
              case ShowStatus =>
                && s' == s
                && reply == Status(if i < 0 then None else Some(s.subscribers[i].mode), |s.subscribers|)
              case Unknown => s' == s && reply == Usage
  {
    hide ResolveNotifyTarget, FindKey, Upsert, Remove, TargetKey;
  }

  // ---- what the next read finds ----------------------------------------------------------------

  ghost predicate DistinctKeys(subs: seq<Subscriber>) {
    forall i, j :: 0 <= i < j < |subs| ==> Key(subs[i]) != Key(subs[j])
  }

  /** The subscriber that the next read finds for a target. */
  function Stored(t: Target, mode: Mode, now: Instant): Subscriber {
    ReloadSubscriber(Subscribe(t, mode, now))
  }

  /** The key a target has once it was stored; storing trims its account and thread. */
  function StoredKey(t: Target): Text { Key(Stored(t, Persistent, 1)) }

  lemma StoredKeyOfAny(t: Target, mode: Mode, now: Instant)
    ensures Key(Stored(t, mode, now)) == StoredKey(t)
  {
    hide Trim;
  }

  /** Trimmed ids are stored under the key they are looked up with. */
  lemma TrimmedTargetKeepsKey(t: Target)
    requires Trimmed(t.to)
    requires t.account.Some? ==> Trimmed(t.account.value)
    requires t.thread.ThreadText? ==> Trimmed(t.thread.text)
    ensures StoredKey(t) == TargetKey(t)
  {
    TrimFixpoint(t.to);
    if t.account.Some? { TrimFixpoint(t.account.value); }
    if t.thread.ThreadText? { TrimFixpoint(t.thread.text); }
    hide Trim, Trimmed;
  }

  lemma {:induction false} ReloadAppend(subs: seq<Subscriber>, s: Subscriber)
    requires CleanSubscribers(subs) && Trim(s.to) != []
    ensures ReloadSubscribers(subs + [s]) == subs + [ReloadSubscriber(s)]
  {
    hide Trim, CleanSubscriber, ReloadSubscriber;
    CleanSubscribersReload(subs);
    assert (subs + [s])[..|subs|] == subs;
  }

  lemma {:induction false} ReloadConcat(a: seq<Subscriber>, b: seq<Subscriber>)
    ensures ReloadSubscribers(a + b) == ReloadSubscribers(a) + ReloadSubscribers(b)
  {
    hide Trim, ReloadSubscriber;
    if b == [] {
      assert a + b == a;
    } else {
      assert (a + b)[..|a + b| - 1] == a + b[..|b| - 1];
      ReloadConcat(a, b[..|b| - 1]);
    }
  }

  lemma ReloadReplace(subs: seq<Subscriber>, i: nat, s: Subscriber)
    requires CleanSubscribers(subs) && i < |subs| && Trim(s.to) != []
    ensures ReloadSubscribers(subs[i := s]) == subs[i := ReloadSubscriber(s)]
  {
    hide Trim, CleanSubscriber, ReloadSubscriber, ReloadSubscribers;
    var a, b := subs[..i], subs[i + 1..];
    CleanSubscribersReload(b);
    ReloadAppend(a, s);
    ReloadConcat(a + [s], b);
    assert subs[i := s] == a + [s] + b;
    assert subs[i := ReloadSubscriber(s)] == a + [ReloadSubscriber(s)] + b;
  }

  /** What the next read finds after an upsert. */
  lemma UpsertStores(subs: seq<Subscriber>, t: Target, mode: Mode, now: Instant)
    requires CleanSubscribers(subs) && Trim(t.to) != []
    ensures var i, n := FindKey(subs, TargetKey(t)), Stored(t, mode, now);
            ReloadSubscribers(Upsert(subs, t, mode, now))
            == if i < 0 then subs + [n] else if subs[i].mode == mode then subs else subs[i := n]
  {
    hide Trim, CleanSubscribers, ReloadSubscriber, ReloadSubscribers, FindKey, TargetKey;
    var i := FindKey(subs, TargetKey(t));
    if i < 0 {
      ReloadAppend(subs, Subscribe(t, mode, now));
    } else if subs[i].mode != mode {
      ReloadReplace(subs, i, Subscribe(t, mode, now));
    } else {
      CleanSubscribersReload(subs);
    }
  }

  lemma RemovedIsPart(subs: seq<Subscriber>, key: Text)
    requires CleanSubscribers(subs)
    ensures CleanSubscribers(Remove(subs, key))
    ensures forall s :: s in Remove(subs, key) ==> s in subs
  {
    hide Key, CleanSubscriber, FindKey;
    var i := FindKey(subs, key);
    if i >= 0 {
      var r := Remove(subs, key);
      assert forall k {:trigger r[k]} :: 0 <= k < |r| ==> r[k] == if k < i then subs[k] else subs[k + 1];
    }
  }

  lemma RemoveDistinct(subs: seq<Subscriber>, key: Text)
    requires DistinctKeys(subs) && CleanSubscribers(subs)
    ensures DistinctKeys(Remove(subs, key)) && CleanSubscribers(Remove(subs, key))
  {
    hide Key, CleanSubscriber, FindKey;
    var i := FindKey(subs, key);
    if i >= 0 {
      var r := Remove(subs, key);
      assert forall k {:trigger r[k]} :: 0 <= k < |r| ==> r[k] == if k < i then subs[k] else subs[k + 1];
    }
  }

  /** The command's ids carry no outer white space. */
  predicate TrimmedIds(ctx: Context) {
    && (ctx.accountId.Some? ==> Trimmed(ctx.accountId.value))
    && (ctx.messageThreadId.ThreadText? ==> Trimmed(ctx.messageThreadId.text))
  }

  lemma ResolvedIsTrimmed(ctx: Context)
    requires ResolveNotifyTarget(ctx).Some?
    ensures var t := ResolveNotifyTarget(ctx).value;
            Trimmed(t.to) && Trim(t.to) != []
            && (TrimmedIds(ctx) && t.account.Some? ==> Trimmed(t.account.value))
            && (TrimmedIds(ctx) && t.thread.ThreadText? ==> Trimmed(t.thread.text))
  {
    hide Trimmed;
    TrimFixpoint(ResolveNotifyTarget(ctx).value.to);
  }

  // ---- what the commands mean ------------------------------------------------------------------

  /** The recipient is the first of sender, origin and destination that is more than white space,
      trimmed; an empty account is none, and account and thread are passed on as they are. */
  lemma TargetIsFirstNonBlank(ctx: Context, sender: Text, from: Text, to: Text)
    requires ctx.senderId == Some(sender) || (ctx.senderId.None? && sender == [])
    requires ctx.from == Some(from) || (ctx.from.None? && from == [])
    requires ctx.to == Some(to) || (ctx.to.None? && to == [])
    ensures var r := ResolveNotifyTarget(ctx);
            && (r.None? <==> AllWhitespace(sender) && AllWhitespace(from) && AllWhitespace(to))
            && (r.Some? ==>
                  && r.value.to == Trim(if !AllWhitespace(sender) then sender
                                        else if !AllWhitespace(from) then from else to)
                  && (r.value.account.None? <==> ctx.accountId.None? || ctx.accountId.value == [])
                  && (r.value.account.Some? ==> r.value.account == ctx.accountId)
                  && r.value.thread == ctx.messageThreadId)
  {
    var blank: Text := [];
    assert AllWhitespace(blank);
    hide AllWhitespace;
  }

  ghost predicate Holds(subs: seq<Subscriber>, key: Text, mode: Mode) {
    exists i :: 0 <= i < |subs| && Key(subs[i]) == key && subs[i].mode == mode
  }

  ghost predicate Lacks(subs: seq<Subscriber>, key: Text) {
    forall i :: 0 <= i < |subs| ==> Key(subs[i]) != key
  }

  /** The subscribers with other keys, and what was notified, are the same. */
  ghost predicate OthersAlike(s: State, s': State, key: Text) {
    s'.notified == s.notified && forall sub :: Key(sub) != key ==> (sub in s.subscribers <==> sub in s'.subscribers)
  }

  /** The chat is subscribed in the given mode, and nothing else changed. */
  ghost predicate SwitchedTo(s: State, s': State, key: Text, mode: Mode) {
    Holds(s'.subscribers, key, mode) && OthersAlike(s, s', key)
  }

  /** The chat is not subscribed any more, and nothing else changed. */
  ghost predicate SwitchedOff(s: State, s': State, key: Text) {
    (DistinctKeys(s.subscribers) ==> Lacks(s'.subscribers, key)) && OthersAlike(s, s', key)
  }

  /** The command comes from Telegram and names a chat. */
  predicate Addressed(ctx: Context) { ctx.telegram && ResolveNotifyTarget(ctx).Some? }

  function ChatKey(ctx: Context): Text
    requires Addressed(ctx)
  {
    TargetKey(ResolveNotifyTarget(ctx).value)
  }

  lemma AppendedMember(subs: seq<Subscriber>, n: Subscriber)
    ensures Holds(subs + [n], Key(n), n.mode)
    ensures forall sub :: Key(sub) != Key(n) ==> (sub in subs <==> sub in subs + [n])
  {
    hide Key;
    assert (subs + [n])[|subs|] == n;
  }

  lemma ReplacedMember(subs: seq<Subscriber>, i: nat, n: Subscriber)
    requires i < |subs| && Key(subs[i]) == Key(n)
    ensures Holds(subs[i := n], Key(n), n.mode)
    ensures forall sub :: Key(sub) != Key(n) ==> (sub in subs <==> sub in subs[i := n])
  {
    hide Key;
    var subs' := subs[i := n];
    assert subs'[i] == n;
    assert forall k {:trigger subs[k]} :: 0 <= k < |subs| && k != i ==> subs'[k] == subs[k];
  }

  /** With trimmed ids the chat is stored under the key it is looked up with. */
  lemma StoredUnderChatKey(ctx: Context, mode: Mode, now: Instant)
    requires Addressed(ctx) && TrimmedIds(ctx)
    ensures var t := ResolveNotifyTarget(ctx).value;
            Trim(t.to) != [] && Key(Stored(t, mode, now)) == ChatKey(ctx) && Stored(t, mode, now).mode == mode
  {
    var t := ResolveNotifyTarget(ctx).value;
    ResolvedIsTrimmed(ctx);
    TrimmedTargetKeepsKey(t);
    StoredKeyOfAny(t, mode, now);
    hide TargetKey, Key, StoredKey, ResolveNotifyTarget, Trimmed, Trim, NonBlank, ReloadThread;
  }

  lemma SubscribingSwitches(s: State, ctx: Context, mode: Mode, now: Instant)
    requires Clean(s) && Addressed(ctx) && TrimmedIds(ctx)
    ensures var t := ResolveNotifyTarget(ctx).value;
            SwitchedTo(s, Reload(s.(subscribers := Upsert(s.subscribers, t, mode, now))), ChatKey(ctx), mode)
  {
    hide *;
    StoredUnderChatKey(ctx, mode, now);
    AddressedHasTarget(ctx);
    CleanParts(s);
    var t := ResolveNotifyTarget(ctx).value;
    UpsertSwitches(s.subscribers, t, mode, now);
    ReloadNotifiedFixpoint(s.notified);
    SwitchedFrom(s, Upsert(s.subscribers, t, mode, now), ChatKey(ctx), mode);
  }

  lemma AddressedHasTarget(ctx: Context)
    requires Addressed(ctx)
    ensures ResolveNotifyTarget(ctx).Some? && ChatKey(ctx) == TargetKey(ResolveNotifyTarget(ctx).value)
  {
  }

  lemma CleanParts(s: State)
    requires Clean(s)
    ensures CleanSubscribers(s.subscribers) && CleanNotified(s.notified)
  {
  }

  lemma SwitchedFrom(s: State, subs: seq<Subscriber>, key: Text, mode: Mode)
    requires ReloadNotified(s.notified) == s.notified && Holds(ReloadSubscribers(subs), key, mode)
    requires forall sub :: Key(sub) != key ==> (sub in s.subscribers <==> sub in ReloadSubscribers(subs))
    ensures SwitchedTo(s, Reload(s.(subscribers := subs)), key, mode)
  {
    hide Key, Holds, ReloadNotified, ReloadSubscribers;
  }

  lemma UpsertSwitches(subs: seq<Subscriber>, t: Target, mode: Mode, now: Instant)
    requires CleanSubscribers(subs) && Trim(t.to) != []
    requires Key(Stored(t, mode, now)) == TargetKey(t) && Stored(t, mode, now).mode == mode
    ensures var subs' := ReloadSubscribers(Upsert(subs, t, mode, now));
            && Holds(subs', TargetKey(t), mode)
            && forall sub :: Key(sub) != TargetKey(t) ==> (sub in subs <==> sub in subs')
  {
    UpsertStores(subs, t, mode, now);
    var i, n := FindKey(subs, TargetKey(t)), Stored(t, mode, now);
    hide TargetKey, Key, FindKey, Stored, ReloadSubscribers, Upsert, CleanSubscribers, Trim;
    if i < 0 {
      AppendedMember(subs, n);
    } else if subs[i].mode != mode {
      ReplacedMember(subs, i, n);
    }
  }

  lemma UnsubscribingSwitches(s: State, key: Text)
    requires Clean(s)
    ensures SwitchedOff(s, Reload(s.(subscribers := Remove(s.subscribers, key))), key)
  {
    var subs := s.subscribers;
    RemovedIsPart(subs, key);
    CleanSubscribersReload(Remove(subs, key));
    ReloadNotifiedFixpoint(s.notified);
    RemovedOthers(subs, key);
    hide Key, Remove, DistinctKeys, ReloadSubscribers, ReloadNotified, CleanSubscribers, CleanNotified;
  }

  lemma RemovedOthers(subs: seq<Subscriber>, key: Text)
    ensures forall sub :: Key(sub) != key ==> (sub in subs <==> sub in Remove(subs, key))
    ensures DistinctKeys(subs) ==> Lacks(Remove(subs, key), key)
  {
    hide Key, FindKey;
    var i := FindKey(subs, key);
    if i >= 0 {
      var r := Remove(subs, key);
      assert forall k {:trigger r[k]} :: 0 <= k < |r| ==> r[k] == if k < i then subs[k] else subs[k + 1];
      forall sub | Key(sub) != key && sub in subs ensures sub in r {
        var k :| 0 <= k < |subs| && subs[k] == sub;
        assert k != i && sub == r[if k < i then k else k - 1];
      }
    }
  }

  /** What a command answers and what the next read finds, word by word. */
  ghost predicate Answers(s: State, ctx: Context, action: string, s': State, reply: Reply) {
    if !ctx.telegram then reply == NotTelegram && s' == s
    else if !Addressed(ctx) then reply == NoTarget && s' == s
    else if action == "on" || action == "enable" then
      reply == Enabled && (TrimmedIds(ctx) ==> SwitchedTo(s, s', ChatKey(ctx), Persistent))
    else if action == "off" || action == "disable" then reply == Disabled && SwitchedOff(s, s', ChatKey(ctx))
    else if action == "once" || action == "arm" then
      reply == Armed && (TrimmedIds(ctx) ==> SwitchedTo(s, s', ChatKey(ctx), Once))
    else if action == "status" || action == "" then s' == s && Reports(s.subscribers, ChatKey(ctx), reply)
    else reply == Usage && s' == s
  }

  /** The status of the chat and the number of subscribers. */
  ghost predicate Reports(subs: seq<Subscriber>, key: Text, reply: Reply) {
    && reply.Status? && reply.subscribers == |subs|
    && if reply.mode.Some? then Holds(subs, key, reply.mode.value) else Lacks(subs, key)
  }

  ghost predicate AnswersAs(s: State, ctx: Context, action: Action, s': State, reply: Reply)
    requires Addressed(ctx)
  {
    match action
    case SubscribeAs(Persistent) =>
      reply == Enabled && (TrimmedIds(ctx) ==> SwitchedTo(s, s', ChatKey(ctx), Persistent))
    case SubscribeAs(Once) => reply == Armed && (TrimmedIds(ctx) ==> SwitchedTo(s, s', ChatKey(ctx), Once))
    case Unsubscribe => reply == Disabled && SwitchedOff(s, s', ChatKey(ctx))
    case ShowStatus => s' == s && Reports(s.subscribers, ChatKey(ctx), reply)
    case Unknown => reply == Usage && s' == s
  }

  lemma ByWord(s: State, ctx: Context, action: string, s': State, reply: Reply)
    requires Addressed(ctx) && AnswersAs(s, ctx, ParseAction(action), s', reply)
    ensures Answers(s, ctx, action, s', reply)
  {
    assert ctx.telegram;
    hide Addressed, SwitchedTo, SwitchedOff, Reports, TrimmedIds, ChatKey;
  }

  lemma CommandAnswersAs(s: State, ctx: Context, action: Action, now: Instant)
    requires Clean(s) && Addressed(ctx)
    ensures AnswersAs(s, ctx, action, Reload(AfterCommand(s, ctx, action, now)), ReplyTo(s, ctx, action))
  {
    ReloadFixpoint(s);
    match action
    case SubscribeAs(mode) =>
      if TrimmedIds(ctx) {
        SubscribingSwitches(s, ctx, mode, now);
      }
      hide Reload, Clean, ChatKey, SwitchedTo, TrimmedIds, ResolveNotifyTarget, FindKey, Upsert;
    case Unsubscribe =>
      UnsubscribingSwitches(s, ChatKey(ctx));
      hide Reload, Clean, TargetKey, SwitchedOff, ResolveNotifyTarget, FindKey, Remove;
    case _ =>
      hide Reload, TargetKey, Key, ResolveNotifyTarget, FindKey;
  }

  lemma CommandAnswers(s: State, ctx: Context, action: string, now: Instant)
    requires Clean(s)
    ensures Answers(s, ctx, action, Reload(AfterCommand(s, ctx, ParseAction(action), now)),
                    ReplyTo(s, ctx, ParseAction(action)))
  {
    ReloadFixpoint(s);
    if Addressed(ctx) {
      CommandAnswersAs(s, ctx, ParseAction(action), now);
      ByWord(s, ctx, action, Reload(AfterCommand(s, ctx, ParseAction(action), now)),
             ReplyTo(s, ctx, ParseAction(action)));
      hide *;
    } else {
      hide Reload, Clean, ParseAction, ResolveNotifyTarget;
    }
  }
}
