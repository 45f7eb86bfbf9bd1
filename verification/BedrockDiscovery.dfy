/** The Bedrock discovery cache: expiry and single flight over interleaved calls and completions
    (extensions/amazon-bedrock/discovery.ts). */
module BedrockDiscovery {
  import opened JsText
  import opened BedrockListing

  /** A fetch in flight: its key and the time of the call that started it. */
  datatype Flight = Flight(key: Key, startedAt: int)

  datatype Entry = Entry(expiresAt: int, value: Option<seq<Model>>, inFlight: Option<nat>)

  /** The cache and the fetches whose completion is outstanding, numbered from 0. */
  datatype State = State(cache: map<Key, Entry>, flights: map<nat, Flight>, next: nat)

  /** What a call does: return a cached value, wait for a running fetch, or start one. */
  datatype Outcome = Served(value: seq<Model>) | Joined(flight: nat) | Started(flight: nat)

  const EMPTY := State(map[], map[], 0)

  function ExpiresAt(key: Key, startedAt: int): int { startedAt + key.refreshIntervalSeconds * 1000 }

  function CallOutcome(s: State, key: Key, now: int): Outcome {
    if key.refreshIntervalSeconds > 0 && key in s.cache then
      var cached := s.cache[key];
      if cached.value.Some? && cached.expiresAt > now then Served(cached.value.value)
      else if cached.inFlight.Some? then Joined(cached.inFlight.value)
      else Started(s.next)
    else Started(s.next)
  }

  function AfterCall(s: State, key: Key, now: int): State {
    if CallOutcome(s, key, now).Started? then
      State(if key.refreshIntervalSeconds > 0 then s.cache[key := Entry(ExpiresAt(key, now), None, Some(s.next))]
            else s.cache,
            s.flights[s.next := Flight(key, now)], s.next + 1)
    else s
  }

  /** The response arrives: the fetch lists its models, and the starting call files the list. */
  function AfterSuccess(l: Locale, s: State, flight: nat, summaries: seq<Summary>): State {
    if flight !in s.flights then s
    else
      var f := s.flights[flight];
      var entry := Entry(ExpiresAt(f.key, f.startedAt), Some(Listing(l, f.key, summaries)), None);
      State(if f.key.refreshIntervalSeconds > 0 then s.cache[f.key := entry] else s.cache, s.flights - {flight}, s.next)
  }

  /** The starting call resumes with the rejection. */
  function AfterFailure(s: State, flight: nat): State {
    if flight !in s.flights then s
    else
      var f := s.flights[flight];
      State(if f.key.refreshIntervalSeconds > 0 then s.cache - {f.key} else s.cache, s.flights - {flight}, s.next)
  }

  /** The reset meant for tests clears the cache; running fetches go on. */
  function AfterReset(s: State): State { State(map[], s.flights, s.next) }

  /** The module's mutable state and its operations. */
  class Discovery {
    const locale: Locale
    var cache: map<Key, Entry>
    var flights: map<nat, Flight>
    var next: nat

    constructor (locale: Locale)
      ensures this.locale == locale && Current() == EMPTY
    {
      this.locale := locale;
      cache, flights, next := map[], map[], 0;
    }

    function Current(): State
      reads this
    {
      State(cache, flights, next)
    }

    /** The synchronous part of `discoverBedrockModels`, up to its first suspension. */
    method Discover(key: Key, now: int) returns (o: Outcome)
      modifies this
      ensures o == CallOutcome(old(Current()), key, now)
      ensures Current() == AfterCall(old(Current()), key, now)
    {
      if key.refreshIntervalSeconds > 0 {
        if key in cache {
          var cached := cache[key];
          if cached.value.Some? && cached.expiresAt > now {
            return Served(cached.value.value);
          }
          if cached.inFlight.Some? {
            return Joined(cached.inFlight.value);
          }
        }
      }
      o := Started(next);
      flights := flights[next := Flight(key, now)];
      if key.refreshIntervalSeconds > 0 {
        cache := cache[key := Entry(now + key.refreshIntervalSeconds * 1000, None, Some(next))];
      }
      next := next + 1;
    }

    /** The value every caller that waits for the fetch gets. */
    method Succeed(flight: nat, summaries: seq<Summary>) returns (value: seq<Model>)
      requires flight in flights
      modifies this
      ensures value == Listing(locale, old(flights)[flight].key, summaries)
      ensures Current() == AfterSuccess(locale, old(Current()), flight, summaries)
    {
      hide Listing;
      var f := flights[flight];
      value := ListModels(locale, f.key, summaries);
      flights := flights - {flight};
      if f.key.refreshIntervalSeconds > 0 {
        cache := cache[f.key := Entry(f.startedAt + f.key.refreshIntervalSeconds * 1000, Some(value), None)];
      }
    }

    method Fail(flight: nat)
      requires flight in flights
      modifies this
      ensures Current() == AfterFailure(old(Current()), flight)
    {
      var f := flights[flight];
      flights := flights - {flight};
      if f.key.refreshIntervalSeconds > 0 {
        cache := cache - {f.key};
      }
    }
  }

  // ---- runs ----------------------------------------------------------------------------------

  datatype Event =
    | Call(key: Key, now: int)
    | Success(flight: nat, summaries: seq<Summary>)
    | Failure(flight: nat)
    | Reset

  function Next(l: Locale, s: State, e: Event): State {
    match e
    case Call(key, now) => AfterCall(s, key, now)
    case Success(flight, summaries) => AfterSuccess(l, s, flight, summaries)
    case Failure(flight) => AfterFailure(s, flight)
    case Reset => AfterReset(s)
  }

  /** The state before event `n` of a run from the empty cache. */
  function At(l: Locale, run: seq<Event>, n: nat): State
    requires n <= |run|
  {
    if n == 0 then EMPTY else Next(l, At(l, run, n - 1), run[n - 1])
  }

  lemma AtStart(l: Locale, run: seq<Event>)
    ensures At(l, run, 0) == EMPTY
  {
  }

  lemma AtStep(l: Locale, run: seq<Event>, n: nat)
    requires n < |run|
    ensures At(l, run, n + 1) == Next(l, At(l, run, n), run[n])
  {
  }

  /** Flights are numbered below `next`; a cached in-flight fetch is running and was started for its
      key, and its entry holds no value. */
  ghost predicate Sound(s: State) {
    && (forall f :: f in s.flights ==> f < s.next)
    && (forall k :: k in s.cache && s.cache[k].inFlight.Some? ==>
          && s.cache[k].inFlight.value in s.flights && s.flights[s.cache[k].inFlight.value].key == k
          && s.cache[k].value.None?)
    && (forall k :: k in s.cache ==>
          k.refreshIntervalSeconds > 0 && (s.cache[k].inFlight.Some? || s.cache[k].value.Some?))
  }

  lemma CallSound(s: State, key: Key, now: int)
    requires Sound(s)
    ensures Sound(AfterCall(s, key, now))
  {
    hide ExpiresAt;
  }

  lemma SuccessSound(l: Locale, s: State, f: nat, summaries: seq<Summary>)
    requires Sound(s)
    ensures Sound(AfterSuccess(l, s, f, summaries))
  {
    hide ExpiresAt, Listing;
  }

  lemma FailureSound(s: State, f: nat)
    requires Sound(s)
    ensures Sound(AfterFailure(s, f))
  {
  }

  lemma ResetSound(s: State)
    requires Sound(s)
    ensures Sound(AfterReset(s))
  {
  }

  lemma StepSound(l: Locale, s: State, e: Event)
    requires Sound(s)
    ensures Sound(Next(l, s, e))
  {
    hide Sound, AfterCall, AfterSuccess, AfterFailure, AfterReset;
    match e
    case Call(key, now) => CallSound(s, key, now);
    case Success(f, summaries) => SuccessSound(l, s, f, summaries);
    case Failure(f) => FailureSound(s, f);
    case Reset => ResetSound(s);
  }

  lemma {:induction false} AlwaysSound(l: Locale, run: seq<Event>, n: nat)
    requires n <= |run|
    ensures Sound(At(l, run, n))
    decreases n
  {
    hide Sound, Next, At;
    if n == 0 {
      AtStart(l, run);
      EmptyIsSound();
    } else {
      AlwaysSound(l, run, n - 1);
      AtStep(l, run, n - 1);
      StepSound(l, At(l, run, n - 1), run[n - 1]);
    }
  }

  lemma EmptyIsSound()
    ensures Sound(EMPTY)
  {
  }

  /** Whatever happened, resets included, a call that joins waits for a running fetch that was started
      for its own key. */
  lemma JoinedFlightIsForKey(l: Locale, run: seq<Event>, n: nat, key: Key, now: int, f: nat)
    requires n <= |run| && CallOutcome(At(l, run, n), key, now) == Joined(f)
    ensures f in At(l, run, n).flights && At(l, run, n).flights[f].key == key
  {
    AlwaysSound(l, run, n);
    hide At;
  }

  // ---- single flight --------------------------------------------------------------------------

  ghost predicate InFlight(s: State, key: Key, f: nat) { f in s.flights && s.flights[f].key == key }

  ghost predicate TwoInFlight(s: State, key: Key) {
    exists f, g :: f != g && InFlight(s, key, f) && InFlight(s, key, g)
  }

  /** The one fetch of a key, if any, is the one its cache entry names; or the key has no entry. */
  ghost predicate Tracked(s: State, key: Key, f: nat) {
    key in s.cache && s.cache[key].inFlight == Some(f)
  }

  /** A reset at event `i` left fetch `f` of the key running, and it was still running when the key was
      called at event `j`. */
  ghost predicate ForgottenAt(l: Locale, run: seq<Event>, key: Key, i: nat, j: nat, f: nat)
    requires j < |run|
  {
    && i < j && run[i].Reset? && InFlight(At(l, run, i), key, f)
    && run[j].Call? && run[j].key == key && InFlight(At(l, run, j), key, f)
  }

  ghost predicate ForgottenBefore(l: Locale, run: seq<Event>, key: Key, n: nat)
    requires n <= |run|
  {
    exists i: nat, j: nat, f: nat :: j < n && ForgottenAt(l, run, key, i, j, f)
  }

  /** Before event `n` the key has at most one fetch running; its entry names it, or a reset cleared
      the entry and the key has none. */
  ghost predicate Single(l: Locale, run: seq<Event>, key: Key, n: nat)
    requires n <= |run|
  {
    var s := At(l, run, n);
    && !TwoInFlight(s, key)
    && forall f :: InFlight(s, key, f) ==> Tracked(s, key, f) || (key !in s.cache && ResetDuring(l, run, key, n, f))
  }

  ghost predicate ResetDuring(l: Locale, run: seq<Event>, key: Key, n: nat, f: nat)
    requires n <= |run|
  {
    exists i: nat :: i < n && run[i].Reset? && InFlight(At(l, run, i), key, f)
  }

  /** The event is a call for the key that starts a fetch. */
  ghost predicate Starts(s: State, e: Event, key: Key) {
    e.Call? && e.key == key && CallOutcome(s, key, e.now).Started?
  }

  /** The event completes a fetch for the key. */
  ghost predicate Ends(s: State, e: Event, key: Key) {
    (e.Success? || e.Failure?) && InFlight(s, key, e.flight)
  }

  /** How one event changes what runs for a key and what its entry is. */
  lemma KeyStep(l: Locale, s: State, e: Event, key: Key)
    requires Sound(s) && key.refreshIntervalSeconds > 0
    ensures var s' := Next(l, s, e);
            && (forall f :: InFlight(s', key, f) ==>
                  InFlight(s, key, f) || (Starts(s, e, key) && f == s.next))
            && (forall f :: InFlight(s, key, f) && !InFlight(s', key, f) ==>
                  (e.Success? || e.Failure?) && e.flight == f)
            && (Starts(s, e, key) ==>
                  InFlight(s', key, s.next) && Tracked(s', key, s.next) && !InFlight(s, key, s.next))
            && (e.Reset? ==> key !in s'.cache)
            && (!e.Reset? && !(e.Call? && e.key == key) && !Ends(s, e, key) ==>
                  (key in s'.cache <==> key in s.cache) && (key in s.cache ==> s'.cache[key] == s.cache[key]))
            && (e.Call? && e.key == key && !CallOutcome(s, key, e.now).Started? ==> s' == s)
  {
    hide ExpiresAt, Listing;
  }

  lemma ResetDuringLonger(l: Locale, run: seq<Event>, key: Key, n: nat, f: nat)
    requires n < |run|
    requires ResetDuring(l, run, key, n, f) || (run[n].Reset? && InFlight(At(l, run, n), key, f))
    ensures ResetDuring(l, run, key, n + 1, f)
  {
    hide At, InFlight;
  }

  lemma TrackedJoins(s: State, key: Key, now: int, f: nat)
    requires Sound(s) && Tracked(s, key, f) && key.refreshIntervalSeconds > 0
    ensures !CallOutcome(s, key, now).Started?
  {
  }

  lemma SingleStep(l: Locale, run: seq<Event>, key: Key, n: nat)
    requires n < |run| && key.refreshIntervalSeconds > 0 && Sound(At(l, run, n)) && Single(l, run, key, n)
    requires forall i: nat, f: nat :: !ForgottenAt(l, run, key, i, n, f)
    ensures Single(l, run, key, n + 1)
  {
    var s, e := At(l, run, n), run[n];
    AtStep(l, run, n);
    KeyStep(l, s, e, key);
    hide At, Next, Sound, CallOutcome, InFlight, Tracked;
    var s' := At(l, run, n + 1);
    if Starts(s, e, key) {
      forall f ensures !InFlight(s, key, f) {
        if InFlight(s, key, f) { StartForgets(l, run, key, n, f); }
      }
    }
    forall f | InFlight(s', key, f)
      ensures Tracked(s', key, f) || (key !in s'.cache && ResetDuring(l, run, key, n + 1, f))
    {
      if InFlight(s, key, f) {
        if ResetDuring(l, run, key, n, f) || e.Reset? {
          ResetDuringLonger(l, run, key, n, f);
        }
        TrackedStays(s, s', key, f);
      }
    }
  }

  /** A fetch that still runs when a call starts another one was forgotten by a reset. */
  lemma StartForgets(l: Locale, run: seq<Event>, key: Key, n: nat, f: nat)
    requires n < |run| && key.refreshIntervalSeconds > 0 && Sound(At(l, run, n)) && Single(l, run, key, n)
    requires run[n].Call? && run[n].key == key && CallOutcome(At(l, run, n), key, run[n].now).Started?
    requires InFlight(At(l, run, n), key, f)
    ensures exists i: nat :: ForgottenAt(l, run, key, i, n, f)
  {
    var s := At(l, run, n);
    hide At, Sound, CallOutcome, InFlight, Tracked;
    if Tracked(s, key, f) {
      TrackedJoins(s, key, run[n].now, f);
    } else {
      var i: nat :| i < n && run[i].Reset? && InFlight(At(l, run, i), key, f);
      assert ForgottenAt(l, run, key, i, n, f);
    }
  }

  lemma TrackedStays(s: State, s': State, key: Key, f: nat)
    ensures (key in s'.cache <==> key in s.cache) && (key in s.cache ==> s'.cache[key] == s.cache[key])
        ==> (Tracked(s', key, f) <==> Tracked(s, key, f))
  {
  }

  lemma {:induction false} StaysSingle(l: Locale, run: seq<Event>, key: Key, n: nat)
    requires n <= |run| && key.refreshIntervalSeconds > 0 && !ForgottenBefore(l, run, key, n)
    ensures Single(l, run, key, n)
    decreases n
  {
    hide Single, At, ForgottenAt;
    if n == 0 {
      SingleAtStart(l, run, key);
    } else {
      StaysSingle(l, run, key, n - 1);
      AlwaysSound(l, run, n - 1);
      SingleStep(l, run, key, n - 1);
    }
  }

  lemma SingleAtStart(l: Locale, run: seq<Event>, key: Key)
    ensures Single(l, run, key, 0)
  {
  }

  /** While fetch `f` of the key runs on after a reset, the key has no entry until it is called. */
  lemma {:induction false} ForgottenUntilCalled(l: Locale, run: seq<Event>, key: Key, i: nat, n: nat, f: nat)
    requires i < n <= |run| && key.refreshIntervalSeconds > 0 && run[i].Reset? && InFlight(At(l, run, i), key, f)
    requires InFlight(At(l, run, n), key, f)
    requires forall m :: i < m <= n ==> !TwoInFlight(At(l, run, m), key)
    ensures key !in At(l, run, n).cache
    decreases n
  {
    hide At, Next, Sound, InFlight, TwoInFlight, Tracked, CallOutcome;
    AlwaysSound(l, run, n - 1);
    AtStep(l, run, n - 1);
    KeyStep(l, At(l, run, n - 1), run[n - 1], key);
    if n - 1 > i {
      RanBefore(l, run, key, i, n - 1, n, f);
      ForgottenUntilCalled(l, run, key, i, n - 1, f);
      NoEntryStarts(At(l, run, n - 1), key);
      var s, e := At(l, run, n - 1), run[n - 1];
      TwoMeans(At(l, run, n), key, s.next, f);
      if !(e.Call? && e.key == key) && (e.Success? || e.Failure?) && InFlight(s, key, e.flight) {
        CompletionEnds(l, s, e, key);
        TwoMeans(s, key, e.flight, f);
      }
    }
  }

  lemma TwoMeans(s: State, key: Key, f: nat, g: nat)
    ensures InFlight(s, key, f) && InFlight(s, key, g) && f != g ==> TwoInFlight(s, key)
  {
  }

  lemma CompletionEnds(l: Locale, s: State, e: Event, key: Key)
    requires (e.Success? || e.Failure?) && InFlight(s, key, e.flight)
    ensures !InFlight(Next(l, s, e), key, e.flight)
  {
    hide Listing;
  }

  lemma NoEntryStarts(s: State, key: Key)
    ensures key !in s.cache ==> forall now :: CallOutcome(s, key, now).Started?
  {
  }

  lemma NumberNeverReturns(l: Locale, s: State, e: Event, f: nat)
    requires Sound(s) && f < s.next && f in Next(l, s, e).flights
    ensures f in s.flights && Next(l, s, e).flights[f] == s.flights[f]
  {
    hide Listing;
  }

  lemma NextGrows(l: Locale, s: State, e: Event)
    ensures s.next <= Next(l, s, e).next
  {
    hide Listing;
  }

  lemma {:induction false} NextGrowsOver(l: Locale, run: seq<Event>, i: nat, n: nat)
    requires i <= n <= |run|
    ensures At(l, run, i).next <= At(l, run, n).next
    decreases n
  {
    hide Next, At;
    if i < n {
      NextGrowsOver(l, run, i, n - 1);
      AtStep(l, run, n - 1);
      NextGrows(l, At(l, run, n - 1), run[n - 1]);
    }
  }

  lemma FlightNumbered(l: Locale, run: seq<Event>, n: nat, f: nat)
    requires n <= |run| && f in At(l, run, n).flights
    ensures f < At(l, run, n).next
  {
    AlwaysSound(l, run, n);
    hide At;
  }

  lemma {:induction false} KeptFlight(l: Locale, run: seq<Event>, i: nat, n: nat, f: nat)
    requires i <= n <= |run| && f < At(l, run, i).next && f in At(l, run, n).flights
    ensures f in At(l, run, i).flights && At(l, run, n).flights[f] == At(l, run, i).flights[f]
    decreases n
  {
    hide At, Next, Sound;
    if i < n {
      AlwaysSound(l, run, n - 1);
      NextGrowsOver(l, run, i, n - 1);
      AtStep(l, run, n - 1);
      NumberNeverReturns(l, At(l, run, n - 1), run[n - 1], f);
      KeptFlight(l, run, i, n - 1, f);
    }
  }

  /** A fetch that runs at two moments runs in between. */
  lemma RanBefore(l: Locale, run: seq<Event>, key: Key, i: nat, m: nat, n: nat, f: nat)
    requires i <= m <= n <= |run| && InFlight(At(l, run, i), key, f) && InFlight(At(l, run, n), key, f)
    ensures InFlight(At(l, run, m), key, f)
  {
    hide At;
    FlightNumbered(l, run, i, f);
    NextGrowsOver(l, run, i, m);
    KeptFlight(l, run, m, n, f);
  }

  /** A key with a positive interval has two fetches in flight at some moment of a run exactly when a
      reset left one of its fetches running and the key was called before that fetch completed. */
  lemma SingleFlightExactly(l: Locale, run: seq<Event>, key: Key, n: nat)
    requires n <= |run| && key.refreshIntervalSeconds > 0
    ensures (exists m :: 0 <= m <= n && TwoInFlight(At(l, run, m), key)) <==> ForgottenBefore(l, run, key, n)
  {
    hide At, TwoInFlight;
    if !ForgottenBefore(l, run, key, n) {
      forall m | 0 <= m <= n ensures !TwoInFlight(At(l, run, m), key) {
        NotForgottenEarlier(l, run, key, m, n);
        StaysSingle(l, run, key, m);
      }
    } else {
      var i: nat, j: nat, f: nat :| j < n && ForgottenAt(l, run, key, i, j, f);
      ForgottenMeansTwo(l, run, key, i, j, f);
    }
  }

  lemma NotForgottenEarlier(l: Locale, run: seq<Event>, key: Key, m: nat, n: nat)
    requires m <= n <= |run| && !ForgottenBefore(l, run, key, n)
    ensures !ForgottenBefore(l, run, key, m)
  {
    hide ForgottenAt;
  }

  lemma ForgottenMeansTwo(l: Locale, run: seq<Event>, key: Key, i: nat, j: nat, f: nat)
    requires j < |run| && key.refreshIntervalSeconds > 0 && ForgottenAt(l, run, key, i, j, f)
    ensures exists m :: 0 <= m <= j + 1 && TwoInFlight(At(l, run, m), key)
  {
    AlwaysSound(l, run, j);
    AtStep(l, run, j);
    KeyStep(l, At(l, run, j), run[j], key);
    NoEntryStarts(At(l, run, j), key);
    hide At, Next, Sound, InFlight, Tracked, CallOutcome;
    if forall m :: i < m <= j ==> !TwoInFlight(At(l, run, m), key) {
      ForgottenUntilCalled(l, run, key, i, j, f);
      assert InFlight(At(l, run, j + 1), key, At(l, run, j).next) && InFlight(At(l, run, j + 1), key, f);
      assert TwoInFlight(At(l, run, j + 1), key);
    }
  }

  /** So without such a reset a key with a positive interval never has two fetches in flight. */
  lemma SingleFlight(l: Locale, run: seq<Event>, key: Key, n: nat, f: nat, g: nat)
    requires n <= |run| && key.refreshIntervalSeconds > 0 && !ForgottenBefore(l, run, key, n)
    requires InFlight(At(l, run, n), key, f) && InFlight(At(l, run, n), key, g)
    ensures f == g
  {
    StaysSingle(l, run, key, n);
    hide At, InFlight, Tracked, ResetDuring;
  }

  /** One reset followed by a call of the key leaves two fetches of the key in flight exactly when one
      was in flight. */
  lemma ResetThenCallExactly(s: State, key: Key, now: int)
    requires Sound(s)
    ensures TwoInFlight(AfterCall(AfterReset(s), key, now), key) <==> exists f :: InFlight(s, key, f)
  {
    var s' := AfterCall(AfterReset(s), key, now);
    assert InFlight(s', key, s.next);
    assert forall f :: InFlight(s', key, f) <==> InFlight(s, key, f) || f == s.next;
    hide AfterCall, AfterReset;
    if f :| InFlight(s, key, f) {
      assert f != s.next;
    }
  }

  /** A failure removes the entry of its own fetch and touches no other; the next call for the key
      starts a new fetch. */
  lemma FailureIsLocal(l: Locale, run: seq<Event>, n: nat, f: nat, now: int)
    requires n <= |run| && f in At(l, run, n).flights
    requires !ForgottenBefore(l, run, At(l, run, n).flights[f].key, n)
    ensures var s, key := At(l, run, n), At(l, run, n).flights[f].key;
            var s' := AfterFailure(s, f);
            && (key in s.cache ==> s.cache[key].inFlight == Some(f) && s.cache[key].value.None?)
            && (forall k :: k in s'.cache <==> k in s.cache && k != key)
            && (forall k :: k in s'.cache ==> s'.cache[k] == s.cache[k])
            && CallOutcome(s', key, now) == Started(s.next)
  {
    AlwaysSound(l, run, n);
    var key := At(l, run, n).flights[f].key;
    if key.refreshIntervalSeconds > 0 {
      StaysSingle(l, run, key, n);
      assert InFlight(At(l, run, n), key, f);
    }
    hide At, ResetDuring;
  }

  // ---- where a served value comes from -----------------------------------------------------------

  /** Event `i` is the call that started fetch `f` for `key`. */
  predicate StartedBy(l: Locale, run: seq<Event>, i: nat, f: nat, key: Key, startedAt: int) {
    && i < |run| && run[i] == Call(key, startedAt)
    && CallOutcome(At(l, run, i), key, startedAt) == Started(f)
  }

  lemma {:induction false} FlightOrigin(l: Locale, run: seq<Event>, n: nat, f: nat) returns (i: nat)
    requires n <= |run| && f in At(l, run, n).flights
    ensures i < n && StartedBy(l, run, i, f, At(l, run, n).flights[f].key, At(l, run, n).flights[f].startedAt)
    decreases n
  {
    AtStart(l, run);
    AtStep(l, run, n - 1);
    var s := At(l, run, n - 1);
    hide At, Listing;
    if f in s.flights && !(run[n - 1].Call? && CallOutcome(s, run[n - 1].key, run[n - 1].now) == Started(f)) {
      assert s.flights[f] == At(l, run, n).flights[f];
      i := FlightOrigin(l, run, n - 1, f);
    } else {
      i := n - 1;
    }
  }

  /** Event `m` is the success of fetch `f`, which event `i` started for `key` at `startedAt`. */
  predicate FetchedBy(l: Locale, run: seq<Event>, i: nat, m: nat, f: nat, key: Key, startedAt: int) {
    i < m < |run| && StartedBy(l, run, i, f, key, startedAt) && run[m].Success? && run[m].flight == f
  }

  lemma {:induction false} ValueOrigin(l: Locale, run: seq<Event>, n: nat, key: Key)
    returns (i: nat, m: nat, f: nat, startedAt: int)
    requires n <= |run| && key in At(l, run, n).cache && At(l, run, n).cache[key].value.Some?
    ensures m < n && FetchedBy(l, run, i, m, f, key, startedAt)
    ensures At(l, run, n).cache[key].value.value == Listing(l, key, run[m].summaries)
    ensures At(l, run, n).cache[key].expiresAt == ExpiresAt(key, startedAt)
    decreases n
  {
    AtStart(l, run);
    AtStep(l, run, n - 1);
    var s, e := At(l, run, n - 1), run[n - 1];
    hide At, StartedBy, Listing;
    if e.Success? && e.flight in s.flights && s.flights[e.flight].key == key && key.refreshIntervalSeconds > 0 {
      f, m, startedAt := e.flight, n - 1, s.flights[e.flight].startedAt;
      i := FlightOrigin(l, run, n - 1, f);
    } else {
      assert key in s.cache && s.cache[key] == At(l, run, n).cache[key];
      i, m, f, startedAt := ValueOrigin(l, run, n - 1, key);
    }
  }

  /** A cached answer is the listing that an uncached call with the same key makes of the response to a
      fetch for that key, and the fetch was started less than a refresh interval ago. */
  lemma ServedAgreesWithUncached(l: Locale, run: seq<Event>, n: nat, v: seq<Model>)
    returns (i: nat, m: nat, f: nat, startedAt: int)
    requires n < |run| && run[n].Call? && CallOutcome(At(l, run, n), run[n].key, run[n].now) == Served(v)
    ensures m < n && FetchedBy(l, run, i, m, f, run[n].key, startedAt)
    ensures v == Listing(l, run[n].key, run[m].summaries)
    ensures run[n].now < startedAt + run[n].key.refreshIntervalSeconds * 1000
  {
    hide At, StartedBy, Listing;
    i, m, f, startedAt := ValueOrigin(l, run, n, run[n].key);
  }

  // ---- a fetched list is served ------------------------------------------------------------------

  /** Event `k` is no reset, completes no fetch for the key, and calls the key only before `until`. */
  ghost predicate LeavesValue(l: Locale, run: seq<Event>, k: nat, key: Key, until: int)
    requires k < |run|
  {
    match run[k]
    case Call(key', now) => key' == key ==> now < until
    case Success(f, _) => f in At(l, run, k).flights ==> At(l, run, k).flights[f].key != key
    case Failure(f) => f in At(l, run, k).flights ==> At(l, run, k).flights[f].key != key
    case Reset => false
  }

  ghost predicate HoldsValue(s: State, key: Key, value: seq<Model>, until: int) {
    key in s.cache && s.cache[key].value == Some(value) && s.cache[key].expiresAt == until
  }

  lemma SuccessFiles(l: Locale, run: seq<Event>, m: nat)
    requires m < |run| && run[m].Success? && run[m].flight in At(l, run, m).flights
    ensures var f := At(l, run, m).flights[run[m].flight];
            f.key.refreshIntervalSeconds > 0 ==>
              HoldsValue(At(l, run, m + 1), f.key, Listing(l, f.key, run[m].summaries),
                         f.startedAt + f.key.refreshIntervalSeconds * 1000)
  {
    AtStep(l, run, m);
    hide At, Listing;
  }

  lemma ValueStays(l: Locale, run: seq<Event>, k: nat, key: Key, value: seq<Model>, until: int)
    requires k < |run| && LeavesValue(l, run, k, key, until) && HoldsValue(At(l, run, k), key, value, until)
    ensures HoldsValue(At(l, run, k + 1), key, value, until)
  {
    AtStep(l, run, k);
    hide At, Listing, ExpiresAt;
  }

  lemma {:induction false} ValueStaysUntil(l: Locale, run: seq<Event>, m: nat, n: nat, key: Key, value: seq<Model>,
                                           until: int)
    requires m <= n <= |run| && HoldsValue(At(l, run, m), key, value, until)
    requires forall k :: m <= k < n ==> LeavesValue(l, run, k, key, until)
    ensures HoldsValue(At(l, run, n), key, value, until)
    decreases n
  {
    hide At, LeavesValue, HoldsValue;
    if m < n {
      ValueStaysUntil(l, run, m, n - 1, key, value, until);
      ValueStays(l, run, n - 1, key, value, until);
    }
  }

  /** The converse of `ServedAgreesWithUncached`: once a fetch for the key succeeds, its listing is what
      calls for the key are served if and only if they come within the refresh interval from its start,
      as long as no reset and no other completion for the key intervenes. */
  lemma FetchedIsServedExactly(l: Locale, run: seq<Event>, m: nat, n: nat, key: Key, startedAt: int, until: int)
    requires m < n < |run| && run[m].Success? && run[m].flight in At(l, run, m).flights
    requires At(l, run, m).flights[run[m].flight] == Flight(key, startedAt) && key.refreshIntervalSeconds > 0
    requires run[n].Call? && run[n].key == key && until == startedAt + key.refreshIntervalSeconds * 1000
    requires forall k :: m < k < n ==> LeavesValue(l, run, k, key, until)
    ensures var o := CallOutcome(At(l, run, n), key, run[n].now);
            if run[n].now < until then o == Served(Listing(l, key, run[m].summaries)) else !o.Served?
  {
    SuccessFiles(l, run, m);
    hide At, LeavesValue, Listing;
    ValueStaysUntil(l, run, m + 1, n, key, Listing(l, key, run[m].summaries), until);
  }

  /** With a refresh interval of 0 every call fetches on its own. */
  lemma NothingSharedWithoutInterval(s: State, key: Key, now: int)
    requires key.refreshIntervalSeconds == 0
    ensures CallOutcome(s, key, now) == Started(s.next) && AfterCall(s, key, now).cache == s.cache
  {
  }

  // ---- what the waiting callers see --------------------------------------------------------------

  datatype Answer = Models(value: seq<Model>) | EmptyList | Rejection

  /** Event `m` completes fetch `f`, which is running. */
  predicate Completes(l: Locale, run: seq<Event>, m: nat, f: nat) {
    && m < |run| && f in At(l, run, m).flights
    && (run[m].Success? || run[m].Failure?) && run[m].flight == f
  }

  /** What a call that started or joined the fetch answers when event `m` completes it: a joined call
      holds the fetch's own promise, and only the starting one catches its rejection. */
  function AnswerAt(l: Locale, run: seq<Event>, o: Outcome, m: nat): Answer
    requires o.Started? || o.Joined?
    requires Completes(l, run, m, o.flight)
  {
    if run[m].Success? then Models(Listing(l, At(l, run, m).flights[o.flight].key, run[m].summaries))
    else if o.Started? then EmptyList
    else Rejection
  }

  /** Call `i` waits for fetch `f`, as its starter or not. */
  predicate WaitsFor(l: Locale, run: seq<Event>, i: nat, f: nat) {
    i < |run| && run[i].Call? && CallOutcome(At(l, run, i), run[i].key, run[i].now) in {Started(f), Joined(f)}
  }

  function OutcomeAt(l: Locale, run: seq<Event>, i: nat): Outcome
    requires i < |run| && run[i].Call?
  {
    CallOutcome(At(l, run, i), run[i].key, run[i].now)
  }

  lemma StartTakesNumber(l: Locale, run: seq<Event>, i: nat)
    requires i < |run| && run[i].Call? && OutcomeAt(l, run, i).Started?
    ensures OutcomeAt(l, run, i).flight == At(l, run, i).next && At(l, run, i + 1).next == At(l, run, i).next + 1
  {
    AtStep(l, run, i);
    hide At;
  }

  lemma OneStarter(l: Locale, run: seq<Event>, i: nat, j: nat)
    requires i < |run| && j < |run| && run[i].Call? && run[j].Call?
    requires OutcomeAt(l, run, i).Started? && OutcomeAt(l, run, j) == OutcomeAt(l, run, i)
    ensures i == j
  {
    StartTakesNumber(l, run, i);
    StartTakesNumber(l, run, j);
    hide At, OutcomeAt;
    if i < j {
      NextGrowsOver(l, run, i + 1, j);
    } else if j < i {
      NextGrowsOver(l, run, j + 1, i);
    }
  }

  /** When a running fetch fails, exactly one of the calls that wait for it gets the empty list: the one
      that started it, before the failure. All others see the rejection. */
  lemma OneCallerGetsEmptyList(l: Locale, run: seq<Event>, m: nat, f: nat) returns (i: nat)
    requires Completes(l, run, m, f) && run[m].Failure?
    ensures i < m && WaitsFor(l, run, i, f)
    ensures forall j: nat :: WaitsFor(l, run, j, f) ==>
              AnswerAt(l, run, OutcomeAt(l, run, j), m) == if j == i then EmptyList else Rejection
  {
    i := FlightOrigin(l, run, m, f);
    hide At, Listing, CallOutcome;
    assert OutcomeAt(l, run, i) == Started(f);
    forall j: nat | WaitsFor(l, run, j, f)
      ensures AnswerAt(l, run, OutcomeAt(l, run, j), m) == if j == i then EmptyList else Rejection
    {
      if OutcomeAt(l, run, j) == Started(f) {
        OneStarter(l, run, i, j);
      }
    }
  }

  /** When it succeeds, every call that waits for it gets the listing of the response under its own
      key: what the call would have listed by itself. */
  lemma WaitersAgreeWithUncached(l: Locale, run: seq<Event>, m: nat, f: nat, j: nat)
    requires Completes(l, run, m, f) && run[m].Success? && WaitsFor(l, run, j, f) && j < m
    ensures AnswerAt(l, run, OutcomeAt(l, run, j), m) == Models(Listing(l, run[j].key, run[m].summaries))
  {
    hide At, Listing, CallOutcome;
    FlightKey(l, run, j, f);
    FlightNumbered(l, run, j + 1, f);
    KeptFlight(l, run, j + 1, m, f);
  }

  lemma FlightKey(l: Locale, run: seq<Event>, j: nat, f: nat)
    requires WaitsFor(l, run, j, f)
    ensures InFlight(At(l, run, j + 1), run[j].key, f)
  {
    AlwaysSound(l, run, j);
    AtStep(l, run, j);
    hide At, ExpiresAt;
  }

  // ---- the reset that breaks it -------------------------------------------------------------------

  /** A reset forgets the running fetch: the next call starts a second one for the key, and when the
      first one fails it removes the second one's entry, so a third can start. */
  lemma ResetBreaksSingleFlight(l: Locale, key: Key)
    requires key.refreshIntervalSeconds > 0
    ensures var run := [Call(key, 1), Reset, Call(key, 2), Failure(0), Call(key, 3)];
            && InFlight(At(l, run, 3), key, 0) && InFlight(At(l, run, 3), key, 1)
            && key !in At(l, run, 4).cache
            && CallOutcome(At(l, run, 4), key, 3) == Started(2)
  {
    var run := [Call(key, 1), Reset, Call(key, 2), Failure(0), Call(key, 3)];
    assert At(l, run, 1) == Next(l, At(l, run, 0), Call(key, 1));
    assert At(l, run, 2) == Next(l, At(l, run, 1), Reset);
    assert At(l, run, 3) == Next(l, At(l, run, 2), Call(key, 2));
    assert At(l, run, 4) == Next(l, At(l, run, 3), Failure(0));
  }

  /** Two calls for a key share a fetch; when it fails, the first gets the empty list and the second the
      rejection. */
  lemma JoinerIsRejected(l: Locale, key: Key)
    requires key.refreshIntervalSeconds > 0
    ensures var run := [Call(key, 1), Call(key, 2), Failure(0)];
            && Completes(l, run, 2, 0) && OutcomeAt(l, run, 0) == Started(0) && OutcomeAt(l, run, 1) == Joined(0)
            && AnswerAt(l, run, OutcomeAt(l, run, 0), 2) == EmptyList
            && AnswerAt(l, run, OutcomeAt(l, run, 1), 2) == Rejection
  {
    var run := [Call(key, 1), Call(key, 2), Failure(0)];
    assert At(l, run, 1) == Next(l, At(l, run, 0), Call(key, 1));
    assert At(l, run, 2) == Next(l, At(l, run, 1), Call(key, 2));
  }
}
