/** The device-pair notifier: its persisted state, its commands and its poll tick
    (extensions/device-pair/notify.ts). */
module PairNotify {
  import opened JsText

  const NOTIFY_MAX_SEEN_AGE_MS := 24 * 60 * 60 * 1000

  /** What `Date.now()` returns. */
  type Instant = t: int | t > 0 witness 1

  datatype Mode = Persistent | Once

  datatype Thread = NoThread | ThreadText(text: Text) | ThreadNumber(number: int)

  datatype Subscriber = Subscriber(to: Text, account: Option<Text>, thread: Thread, mode: Mode, addedAtMs: int)

  datatype State = State(subscribers: seq<Subscriber>, notified: map<Text, int>)

  // ---- reading the state file ----------------------------------------------------------------

  /** A JSON value, as far as the reader tells values apart. */
  datatype Raw = Absent | Number(value: real) | NonFinite | Str(text: Text) | OtherValue

  datatype RawItem =
    | NotAnObject
    | Item(to: Raw, accountId: Raw, messageThreadId: Raw, mode: Raw, addedAtMs: Raw)

  /** The parsed file; a root or a field of the wrong shape reads as empty. */
  datatype RawState = RawState(subscribers: seq<RawItem>, notified: seq<(Text, Raw)>)

  /** "once" */
  const ONCE: Text := [0x6F, 0x6E, 0x63, 0x65]

  function Trunc(r: real): int { if r < 0.0 then -((-r).Floor) else r.Floor }

  function NonBlank(t: Text): Option<Text> { if Trim(t) == [] then None else Some(Trim(t)) }

  function NormalizeThread(raw: Raw): Thread {
    match raw
    case Str(t) => if Trim(t) == [] then NoThread else ThreadText(Trim(t))
    case Number(r) => ThreadNumber(Trunc(r))
    case _ => NoThread
  }

  function NormalizeItem(item: RawItem, now: Instant): Option<Subscriber> {
    if item.NotAnObject? || !item.to.Str? || Trim(item.to.text) == [] then None
    else Some(Subscriber(Trim(item.to.text),
                         if item.accountId.Str? then NonBlank(item.accountId.text) else None,
                         NormalizeThread(item.messageThreadId),
                         if item.mode == Str(ONCE) then Once else Persistent,
                         if item.addedAtMs.Number? then Trunc(item.addedAtMs.value) else now))
  }

  function NormalizeItems(items: seq<RawItem>, now: Instant): seq<Subscriber> {
    if items == [] then []
    else
      var rest, last := NormalizeItems(items[..|items| - 1], now), NormalizeItem(items[|items| - 1], now);
      if last.None? then rest else rest + [last.value]
  }

  predicate KeepsEntry(id: Text, raw: Raw) {
    Trim(id) != [] && raw.Number? && raw.value > 0.0
  }

  function NormalizeEntries(entries: seq<(Text, Raw)>): map<Text, int> {
    if entries == [] then map[]
    else
      var rest, (id, raw) := NormalizeEntries(entries[..|entries| - 1]), entries[|entries| - 1];
      if KeepsEntry(id, raw) then rest[id := Trunc(raw.value)] else rest
  }

  function Normalize(raw: RawState, now: Instant): State {
    State(NormalizeItems(raw.subscribers, now), NormalizeEntries(raw.notified))
  }

  method NormalizeNotifyState(raw: RawState, now: Instant) returns (state: State)
    ensures state == Normalize(raw, now)
  {
    hide Trim;
    var subscribers: seq<Subscriber> := [];
    for i := 0 to |raw.subscribers|
      invariant subscribers == NormalizeItems(raw.subscribers[..i], now)
    {
      var item := raw.subscribers[i];
      assert raw.subscribers[..i + 1][..i] == raw.subscribers[..i];
      if item.NotAnObject? {
        continue;
      }
      var to := if item.to.Str? then Trim(item.to.text) else [];
      if to == [] {
        continue;
      }
      var accountId :=
        if item.accountId.Str? && Trim(item.accountId.text) != [] then Some(Trim(item.accountId.text)) else None;
      var mode := if item.mode == Str(ONCE) then Once else Persistent;
      var addedAtMs: int := if item.addedAtMs.Number? then Trunc(item.addedAtMs.value) else now;
      subscribers := subscribers + [Subscriber(to, accountId, NormalizeThread(item.messageThreadId), mode, addedAtMs)];
    }
    var notified: map<Text, int> := map[];
    for i := 0 to |raw.notified|
      invariant notified == NormalizeEntries(raw.notified[..i])
    {
      assert raw.notified[..i + 1][..i] == raw.notified[..i];
      var (requestId, ts) := raw.notified[i];
      if Trim(requestId) == [] {
        continue;
      }
      if !ts.Number? || ts.value <= 0.0 {
        continue;
      }
      notified := notified[requestId := Trunc(ts.value)];
    }
    assert raw.subscribers[..|raw.subscribers|] == raw.subscribers;
    assert raw.notified[..|raw.notified|] == raw.notified;
    state := State(subscribers, notified);
  }

  // ---- writing it and reading it back ----------------------------------------------------------

  function WriteThread(thread: Thread): Raw {
    match thread
    case NoThread => Absent
    case ThreadText(t) => Str(t)
    case ThreadNumber(n) => Number(n as real)
  }

  /** "persistent" */
  const PERSISTENT: Text := [0x70, 0x65, 0x72, 0x73, 0x69, 0x73, 0x74, 0x65, 0x6E, 0x74]

  function WriteItem(s: Subscriber): RawItem {
    Item(Str(s.to), if s.account.Some? then Str(s.account.value) else Absent, WriteThread(s.thread),
         Str(if s.mode.Once? then ONCE else PERSISTENT), Number(s.addedAtMs as real))
  }

  function WriteItems(subs: seq<Subscriber>): seq<RawItem> {
    if subs == [] then [] else WriteItems(subs[..|subs| - 1]) + [WriteItem(subs[|subs| - 1])]
  }

  /** `entries` lists the object `m` in some order. */
  ghost predicate Lists(entries: seq<(Text, Raw)>, m: map<Text, int>) {
    && (forall i, j :: 0 <= i < j < |entries| ==> entries[i].0 != entries[j].0)
    && (forall i :: 0 <= i < |entries| ==> entries[i].0 in m && entries[i].1 == Number(m[entries[i].0] as real))
    && forall id :: id in m ==> exists i :: 0 <= i < |entries| && entries[i].0 == id
  }

  function ReloadThread(thread: Thread): Thread {
    if thread.ThreadText? then (if Trim(thread.text) == [] then NoThread else ThreadText(Trim(thread.text))) else thread
  }

  function ReloadSubscriber(s: Subscriber): Subscriber {
    Subscriber(Trim(s.to), if s.account.Some? then NonBlank(s.account.value) else None,
               ReloadThread(s.thread), s.mode, s.addedAtMs)
  }

  function ReloadSubscribers(subs: seq<Subscriber>): seq<Subscriber> {
    if subs == [] then []
    else
      var rest, last := ReloadSubscribers(subs[..|subs| - 1]), subs[|subs| - 1];
      if Trim(last.to) == [] then rest else rest + [ReloadSubscriber(last)]
  }

  function ReloadNotified(m: map<Text, int>): map<Text, int> {
    map id | id in m && Trim(id) != [] && m[id] > 0 :: m[id]
  }

  /** What the next operation reads after `s` was written. */
  function Reload(s: State): State {
    State(ReloadSubscribers(s.subscribers), ReloadNotified(s.notified))
  }

  lemma TruncOfInteger(n: int)
    ensures Trunc(n as real) == n
    ensures (n as real > 0.0) <==> n > 0
  {
  }

  lemma WrittenItemReads(s: Subscriber, now: Instant)
    ensures NormalizeItem(WriteItem(s), now) == if Trim(s.to) == [] then None else Some(ReloadSubscriber(s))
  {
    hide Trim;
    TruncOfInteger(s.addedAtMs);
    if s.thread.ThreadNumber? { TruncOfInteger(s.thread.number); }
    assert ONCE[0] != PERSISTENT[0];
  }

  lemma {:induction false} WrittenItemsRead(subs: seq<Subscriber>, now: Instant)
    ensures NormalizeItems(WriteItems(subs), now) == ReloadSubscribers(subs)
  {
    if subs != [] {
      var rest, last := subs[..|subs| - 1], subs[|subs| - 1];
      WrittenItemsRead(rest, now);
      WrittenItemReads(last, now);
      hide Trim, WriteItem, NormalizeItem, ReloadSubscriber;
      var items := WriteItems(subs);
      assert items == WriteItems(rest) + [WriteItem(last)];
      assert items[..|items| - 1] == WriteItems(rest);
    }
  }

  lemma {:induction false} ListedEntriesRead(entries: seq<(Text, Raw)>, m: map<Text, int>)
    requires forall i, j :: 0 <= i < j < |entries| ==> entries[i].0 != entries[j].0
    requires forall i :: 0 <= i < |entries| ==> entries[i].0 in m && entries[i].1 == Number(m[entries[i].0] as real)
    ensures forall id :: id in NormalizeEntries(entries) <==>
              (exists i :: 0 <= i < |entries| && entries[i].0 == id) && id in m && Trim(id) != [] && m[id] > 0
    ensures forall id :: id in NormalizeEntries(entries) ==> id in m && NormalizeEntries(entries)[id] == m[id]
  {
    hide Trim;
    if entries != [] {
      var n := |entries| - 1;
      var rest, id := entries[..n], entries[n].0;
      ListedEntriesRead(rest, m);
      TruncOfInteger(m[id]);
      assert forall i {:trigger entries[i]} :: 0 <= i < n ==> rest[i] == entries[i];
    }
  }

  /** Writing a state and reading the file back is `Reload`, whatever the order of the object's
      properties and whatever the time of the read. */
  lemma WriteThenRead(s: State, entries: seq<(Text, Raw)>, now: Instant)
    requires Lists(entries, s.notified)
    ensures Normalize(RawState(WriteItems(s.subscribers), entries), now) == Reload(s)
  {
    hide Trim, NormalizeEntries, NormalizeItems, WriteItems, ReloadSubscribers, ReloadNotified, Lists;
    WrittenItemsRead(s.subscribers, now);
    WrittenEntriesRead(entries, s.notified);
  }

  lemma WrittenEntriesRead(entries: seq<(Text, Raw)>, m: map<Text, int>)
    requires Lists(entries, m)
    ensures NormalizeEntries(entries) == ReloadNotified(m)
  {
    hide Trim, NormalizeEntries;
    ListedEntriesRead(entries, m);
  }

  predicate CleanSubscriber(s: Subscriber) {
    && s.to != [] && Trimmed(s.to)
    && (s.account.Some? ==> s.account.value != [] && Trimmed(s.account.value))
    && (s.thread.ThreadText? ==> s.thread.text != [] && Trimmed(s.thread.text))
  }

  ghost predicate CleanNotified(m: map<Text, int>) {
    forall id :: id in m ==> Trim(id) != [] && m[id] > 0
  }

  ghost predicate Clean(s: State) {
    CleanSubscribers(s.subscribers) && CleanNotified(s.notified)
  }

  lemma CleanSubscriberReloads(s: Subscriber)
    ensures CleanSubscriber(s) <==> Trim(s.to) != [] && ReloadSubscriber(s) == s
    ensures Trim(s.to) != [] ==> CleanSubscriber(ReloadSubscriber(s))
  {
    TrimFixpoint(s.to);
    if s.account.Some? { TrimFixpoint(s.account.value); }
    if s.thread.ThreadText? { TrimFixpoint(s.thread.text); }
    hide Trim, Trimmed, IsWhitespace;
  }

  ghost predicate CleanSubscribers(subs: seq<Subscriber>) {
    forall i :: 0 <= i < |subs| ==> CleanSubscriber(subs[i])
  }

  lemma {:induction false} ReloadedAreClean(subs: seq<Subscriber>)
    ensures |ReloadSubscribers(subs)| <= |subs| && CleanSubscribers(ReloadSubscribers(subs))
  {
    if subs != [] {
      ReloadedAreClean(subs[..|subs| - 1]);
      CleanSubscriberReloads(subs[|subs| - 1]);
      hide Trim, CleanSubscriber, ReloadSubscriber;
    }
  }

  lemma {:induction false} CleanSubscribersReload(subs: seq<Subscriber>)
    requires CleanSubscribers(subs)
    ensures ReloadSubscribers(subs) == subs
  {
    if subs != [] {
      var rest, last := subs[..|subs| - 1], subs[|subs| - 1];
      CleanSubscribersReload(rest);
      CleanSubscriberReloads(last);
      hide Trim, CleanSubscriber, ReloadSubscriber;
      assert subs == rest + [last];
    }
  }

  lemma ReloadSubscribersFixpoint(subs: seq<Subscriber>)
    ensures ReloadSubscribers(subs) == subs <==> CleanSubscribers(subs)
  {
    ReloadedAreClean(subs);
    if CleanSubscribers(subs) {
      CleanSubscribersReload(subs);
    }
  }

  lemma ReloadNotifiedFixpoint(m: map<Text, int>)
    ensures ReloadNotified(m) == m <==> CleanNotified(m)
    ensures CleanNotified(ReloadNotified(m))
  {
    hide Trim;
    if ReloadNotified(m) == m {
      forall id | id in m ensures Trim(id) != [] && m[id] > 0 {
        assert id in ReloadNotified(m);
      }
    }
  }

  /** A state survives a save and a load exactly when it is clean; what was read back is clean. */
  lemma ReloadFixpoint(s: State)
    ensures Reload(s) == s <==> Clean(s)
    ensures Clean(Reload(s)) && Reload(Reload(s)) == Reload(s)
  {
    hide ReloadSubscribers, ReloadNotified, CleanSubscribers, CleanNotified;
    ReloadSubscribersFixpoint(s.subscribers);
    ReloadedAreClean(s.subscribers);
    CleanSubscribersReload(ReloadSubscribers(s.subscribers));
    ReloadNotifiedFixpoint(s.notified);
    ReloadNotifiedFixpoint(ReloadNotified(s.notified));
  }

  // ---- what a single item loads as --------------------------------------------------------------

  /** Cutting `r` towards zero leaves `n`. */
  predicate CutsTo(r: real, n: int) {
    if r >= 0.0 then 0 <= n && n as real <= r < n as real + 1.0 else n <= 0 && n as real - 1.0 < r <= n as real
  }

  lemma TruncTowardsZero(r: real)
    ensures CutsTo(r, Trunc(r))
  {
  }

  /** An item is dropped exactly when its target is missing, blank or no string. Otherwise an account or
      a textual thread that is blank or of the wrong type loads as none, every mode but "once" as
      persistent, and a missing or non-finite stamp as the time of the read. */
  lemma ItemLoadsAs(item: RawItem, now: Instant)
    ensures NormalizeItem(item, now).None?
       <==> item.NotAnObject? || !item.to.Str? || AllWhitespace(item.to.text)
    ensures NormalizeItem(item, now).Some? ==>
              var s := NormalizeItem(item, now).value;
              && s.to == Trim(item.to.text)
              && (s.account.Some? <==> item.accountId.Str? && !AllWhitespace(item.accountId.text))
              && (s.account.Some? ==> s.account.value == Trim(item.accountId.text))
              && (s.thread.ThreadText? <==> item.messageThreadId.Str? && !AllWhitespace(item.messageThreadId.text))
              && (s.thread.ThreadText? ==> s.thread.text == Trim(item.messageThreadId.text))
              && (s.thread.ThreadNumber? <==> item.messageThreadId.Number?)
              && (s.thread.ThreadNumber? ==> CutsTo(item.messageThreadId.value, s.thread.number))
              && (s.mode == (if item.mode == Str([0x6F, 0x6E, 0x63, 0x65]) then Once else Persistent))
              && if item.addedAtMs.Number? then CutsTo(item.addedAtMs.value, s.addedAtMs) else s.addedAtMs == now
  {
    if item.Item? && item.messageThreadId.Number? { TruncTowardsZero(item.messageThreadId.value); }
    if item.Item? && item.addedAtMs.Number? { TruncTowardsZero(item.addedAtMs.value); }
    hide AllWhitespace, Trunc, CutsTo;
  }

  // ---- reading any file ---------------------------------------------------------------------------

  lemma NormalizedItemIsClean(item: RawItem, now: Instant)
    ensures NormalizeItem(item, now).Some? ==> CleanSubscriber(NormalizeItem(item, now).value)
  {
    if item.Item? {
      if item.to.Str? { TrimFixpoint(item.to.text); }
      if item.accountId.Str? { TrimFixpoint(item.accountId.text); }
      if item.messageThreadId.Str? { TrimFixpoint(item.messageThreadId.text); }
    }
    hide Trim, Trimmed, Trunc;
  }

  lemma {:induction false} NormalizedItemsAreClean(items: seq<RawItem>, now: Instant)
    ensures CleanSubscribers(NormalizeItems(items, now))
  {
    hide NormalizeItem, CleanSubscriber;
    if items != [] {
      NormalizedItemsAreClean(items[..|items| - 1], now);
      NormalizedItemIsClean(items[|items| - 1], now);
    }
  }

  /** A JSON object has each property once. */
  ghost predicate OncePerId(entries: seq<(Text, Raw)>) {
    forall i, j :: 0 <= i < j < |entries| ==> entries[i].0 != entries[j].0
  }

  lemma {:induction false} EntriesRead(entries: seq<(Text, Raw)>)
    requires OncePerId(entries)
    ensures forall i :: 0 <= i < |entries| && KeepsEntry(entries[i].0, entries[i].1) ==>
              entries[i].0 in NormalizeEntries(entries)
              && NormalizeEntries(entries)[entries[i].0] == Trunc(entries[i].1.value)
    ensures forall id :: id in NormalizeEntries(entries) ==>
              exists i :: 0 <= i < |entries| && entries[i].0 == id && KeepsEntry(id, entries[i].1)
  {
    hide KeepsEntry, Trunc;
    if entries != [] {
      var n := |entries| - 1;
      var rest := entries[..n];
      EntriesRead(rest);
      assert forall i {:trigger entries[i]} :: 0 <= i < n ==> rest[i] == entries[i];
      KeptIsNumber(entries[n].0, entries[n].1);
      forall id | id in NormalizeEntries(entries)
        ensures exists i :: 0 <= i < |entries| && entries[i].0 == id && KeepsEntry(id, entries[i].1)
      {
        if id in NormalizeEntries(rest) {
          var i :| 0 <= i < n && rest[i].0 == id && KeepsEntry(id, rest[i].1);
          assert entries[i] == rest[i];
        }
      }
    }
  }

  lemma KeptIsNumber(id: Text, raw: Raw)
    ensures KeepsEntry(id, raw) ==> raw.Number? && Trim(id) != [] && (Trunc(raw.value) > 0 <==> raw.value >= 1.0)
  {
    hide Trim;
  }

  /** The entry is kept although its time, between 0 and 1, is cut to 0. */
  predicate CutToZero(entry: (Text, Raw)) { KeepsEntry(entry.0, entry.1) && entry.1.value < 1.0 }

  /** What any file loads as has clean subscribers, and is clean as a whole exactly when no kept entry's
      time is cut to 0. */
  lemma LoadedIsCleanExactly(raw: RawState, now: Instant)
    requires OncePerId(raw.notified)
    ensures CleanSubscribers(Normalize(raw, now).subscribers)
    ensures Clean(Normalize(raw, now)) <==> forall i :: 0 <= i < |raw.notified| ==> !CutToZero(raw.notified[i])
  {
    NormalizedItemsAreClean(raw.subscribers, now);
    EntriesRead(raw.notified);
    hide NormalizeEntries, NormalizeItems, CleanSubscribers, KeepsEntry, Trim, Trunc;
    var entries, m := raw.notified, NormalizeEntries(raw.notified);
    forall i | 0 <= i < |entries|
      ensures KeepsEntry(entries[i].0, entries[i].1) ==>
                entries[i].1.Number? && Trim(entries[i].0) != []
                && (Trunc(entries[i].1.value) > 0 <==> entries[i].1.value >= 1.0)
    {
      KeptIsNumber(entries[i].0, entries[i].1);
    }
    forall id | id in m
      ensures exists i :: 0 <= i < |entries| && entries[i].0 == id && KeepsEntry(entries[i].0, entries[i].1)
    {
    }
  }

  /** An entry with the time 0.5 under a non-blank id loads as a state that does not survive a save. */
  lemma FractionalEntryLoadsUnclean(id: Text, now: Instant)
    requires Trim(id) != []
    ensures var s := Normalize(RawState([], [(id, Number(0.5))]), now); !Clean(s) && Reload(s) != s
  {
    var raw := RawState([], [(id, Number(0.5))]);
    assert CutToZero(raw.notified[0]);
    hide Trim, Normalize, Reload, Clean, CutToZero;
    LoadedIsCleanExactly(raw, now);
    ReloadFixpoint(Normalize(raw, now));
  }
}
