/** The Entra token cache of the Foundry provider over interleaved calls and refresh completions
    (extensions/microsoft-foundry/runtime.ts). */
module FoundryAuth {
  import opened JsText
  import opened Sequences

  const TOKEN_REFRESH_MARGIN_MS := 5 * 60 * 1000
  const DEFAULT_LIFETIME_MS := 55 * 60 * 1000
  const COLON: CodeUnit := 0x3A

  /** The account a token is for; absent ids count as empty. */
  datatype Account = Account(subscriptionId: Text, tenantId: Text)

  function TokenCacheKey(a: Account): Text { a.subscriptionId + [COLON] + a.tenantId }

  datatype Token = Token(token: Text, expiresAt: int)

  /** A refresh that has not been cleared yet: its `finally` handler is still to run. It is settled
      once the token arrived or the attempt failed. */
  datatype Refresh = Refresh(account: Account, settled: bool)

  datatype State = State(cachedTokens: map<Text, Token>, refreshPromises: map<Text, nat>,
                         refreshes: map<nat, Refresh>, next: nat)

  datatype Outcome = Cached(token: Token) | Joined(refresh: nat) | Started(refresh: nat)

  function PrepareOutcome(s: State, a: Account, now: int): Outcome {
    var key := TokenCacheKey(a);
    if key in s.cachedTokens && s.cachedTokens[key].expiresAt > now + TOKEN_REFRESH_MARGIN_MS then
      Cached(s.cachedTokens[key])
    else if key in s.refreshPromises then Joined(s.refreshPromises[key])
    else Started(s.next)
  }

  function AfterPrepare(s: State, a: Account, now: int): State {
    if PrepareOutcome(s, a, now).Started? then
      State(s.cachedTokens, s.refreshPromises[TokenCacheKey(a) := s.next],
            s.refreshes[s.next := Refresh(a, false)], s.next + 1)
    else s
  }

  predicate Running(s: State, r: nat) { r in s.refreshes && !s.refreshes[r].settled }

  /** The expiry the CLI reported, or a default lifetime from now. */
  function ExpiryOf(reported: Option<int>, now: int): int {
    if reported.Some? then reported.value else now + DEFAULT_LIFETIME_MS
  }

  function AfterToken(s: State, r: nat, token: Text, reported: Option<int>, now: int): State {
    if !Running(s, r) then s
    else
      var a := s.refreshes[r].account;
      s.(cachedTokens := s.cachedTokens[TokenCacheKey(a) := Token(token, ExpiryOf(reported, now))],
         refreshes := s.refreshes[r := Refresh(a, true)])
  }

  function AfterFailure(s: State, r: nat): State {
    if !Running(s, r) then s else s.(refreshes := s.refreshes[r := Refresh(s.refreshes[r].account, true)])
  }

  /** The `finally` handler of a settled refresh. */
  function AfterFinally(s: State, r: nat): State {
    if r !in s.refreshes || !s.refreshes[r].settled then s
    else s.(refreshPromises := s.refreshPromises - {TokenCacheKey(s.refreshes[r].account)},
        refreshes := s.refreshes - {r})
  }

  /** The module's mutable maps and its operations. */
  class RuntimeAuth {
    var cachedTokens: map<Text, Token>
    var refreshPromises: map<Text, nat>
    var refreshes: map<nat, Refresh>
    var next: nat

    constructor ()
      ensures Current() == State(map[], map[], map[], 0)
    {
      cachedTokens, refreshPromises, refreshes, next := map[], map[], map[], 0;
    }

    function Current(): State
      reads this
    {
      State(cachedTokens, refreshPromises, refreshes, next)
    }

    method Prepare(a: Account, now: int) returns (o: Outcome)
      modifies this
      ensures o == PrepareOutcome(old(Current()), a, now) && Current() == AfterPrepare(old(Current()), a, now)
    {
      var cacheKey := TokenCacheKey(a);
      if cacheKey in cachedTokens && cachedTokens[cacheKey].expiresAt > now + TOKEN_REFRESH_MARGIN_MS {
        return Cached(cachedTokens[cacheKey]);
      }
      if cacheKey in refreshPromises {
        return Joined(refreshPromises[cacheKey]);
      }
      o := Started(next);
      refreshes := refreshes[next := Refresh(a, false)];
      refreshPromises := refreshPromises[cacheKey := next];
      next := next + 1;
    }

    method TokenArrives(r: nat, token: Text, reported: Option<int>, now: int)
      requires Running(Current(), r)
      modifies this
      ensures Current() == AfterToken(old(Current()), r, token, reported, now)
      ensures cachedTokens == old(cachedTokens)[TokenCacheKey(old(refreshes)[r].account) :=
                Token(token, if reported.Some? then reported.value else now + 3_300_000)]
    {
      var a := refreshes[r].account;
      var expiresAt := if reported.Some? then reported.value else now + DEFAULT_LIFETIME_MS;
      cachedTokens := cachedTokens[TokenCacheKey(a) := Token(token, expiresAt)];
      refreshes := refreshes[r := Refresh(a, true)];
    }

    method RefreshFails(r: nat)
      requires Running(Current(), r)
      modifies this
      ensures Current() == AfterFailure(old(Current()), r)
    {
      refreshes := refreshes[r := Refresh(refreshes[r].account, true)];
    }

    method Finally(r: nat)
      requires r in refreshes && refreshes[r].settled
      modifies this
      ensures Current() == AfterFinally(old(Current()), r)
    {
      refreshPromises := refreshPromises - {TokenCacheKey(refreshes[r].account)};
      refreshes := refreshes - {r};
    }
  }

  // ---- runs ----------------------------------------------------------------------------------

  datatype Event =
    | Prepare(account: Account, now: int)
    | TokenArrives(refresh: nat, token: Text, reported: Option<int>, arrivedAt: int)
    | RefreshFails(refresh: nat)
    | Finally(refresh: nat)
    | Reset

  const EMPTY := State(map[], map[], map[], 0)

  /** The reset meant for tests clears both maps; running refreshes go on. */
  function AfterReset(s: State): State { State(map[], map[], s.refreshes, s.next) }

  function Next(s: State, e: Event): State {
    match e
    case Prepare(a, now) => AfterPrepare(s, a, now)
    case TokenArrives(r, token, reported, at) => AfterToken(s, r, token, reported, at)
    case RefreshFails(r) => AfterFailure(s, r)
    case Finally(r) => AfterFinally(s, r)
    case Reset => AfterReset(s)
  }

  function At(run: seq<Event>, n: nat): State
    requires n <= |run|
  {
    if n == 0 then EMPTY else Next(At(run, n - 1), run[n - 1])
  }

  lemma AtStart(run: seq<Event>)
    ensures At(run, 0) == EMPTY
  {
  }

  lemma AtStep(run: seq<Event>, n: nat)
    requires n < |run|
    ensures At(run, n + 1) == Next(At(run, n), run[n])
  {
  }

  /** Refreshes are numbered below `next`, and a cached promise is that of an outstanding refresh for its
      key. */
  ghost predicate Sound(s: State) {
    && (forall r :: r in s.refreshes ==> r < s.next)
    && (forall k :: k in s.refreshPromises ==>
          && s.refreshPromises[k] in s.refreshes
          && TokenCacheKey(s.refreshes[s.refreshPromises[k]].account) == k)
  }

  lemma StepSound(s: State, e: Event)
    requires Sound(s)
    ensures Sound(Next(s, e))
  {
    hide TokenCacheKey, ExpiryOf;
  }

  lemma {:induction false} AlwaysSound(run: seq<Event>, n: nat)
    requires n <= |run|
    ensures Sound(At(run, n))
    decreases n
  {
    hide Sound, Next, At;
    if n == 0 {
      AtStart(run);
      EmptyIsSound();
    } else {
      AlwaysSound(run, n - 1);
      AtStep(run, n - 1);
      StepSound(At(run, n - 1), run[n - 1]);
    }
  }

  lemma EmptyIsSound()
    ensures Sound(EMPTY)
  {
  }

  lemma NumberNeverReturns(s: State, e: Event, r: nat)
    requires r < s.next && r in Next(s, e).refreshes
    ensures r in s.refreshes && Next(s, e).refreshes[r].account == s.refreshes[r].account
    ensures s.refreshes[r].settled ==> Next(s, e).refreshes[r].settled
  {
    hide TokenCacheKey, ExpiryOf;
  }

  lemma NextGrows(s: State, e: Event)
    ensures s.next <= Next(s, e).next
  {
    hide TokenCacheKey, ExpiryOf;
  }

  lemma {:induction false} NextGrowsOver(run: seq<Event>, i: nat, n: nat)
    requires i <= n <= |run|
    ensures At(run, i).next <= At(run, n).next
    decreases n
  {
    hide Next, At;
    if i < n {
      NextGrowsOver(run, i, n - 1);
      AtStep(run, n - 1);
      NextGrows(At(run, n - 1), run[n - 1]);
    }
  }

  lemma RefreshNumbered(run: seq<Event>, n: nat, r: nat)
    requires n <= |run| && r in At(run, n).refreshes
    ensures r < At(run, n).next
  {
    AlwaysSound(run, n);
    hide At;
  }

  /** A refresh that is outstanding was so ever since it was started, and settles once and for all. */
  lemma {:induction false} KeptRefresh(run: seq<Event>, i: nat, n: nat, r: nat)
    requires i <= n <= |run| && r < At(run, i).next && r in At(run, n).refreshes
    ensures r in At(run, i).refreshes && At(run, n).refreshes[r].account == At(run, i).refreshes[r].account
    ensures At(run, i).refreshes[r].settled ==> At(run, n).refreshes[r].settled
    decreases n
  {
    hide At, Next;
    if i < n {
      NextGrowsOver(run, i, n - 1);
      AtStep(run, n - 1);
      NumberNeverReturns(At(run, n - 1), run[n - 1], r);
      KeptRefresh(run, i, n - 1, r);
    }
  }

  // ---- one refresh per key -------------------------------------------------------------------------

  /** Refresh `r` is for the key, and its `finally` handler is still to run. */
  ghost predicate Outstanding(s: State, key: Text, r: nat) {
    r in s.refreshes && TokenCacheKey(s.refreshes[r].account) == key
  }

  ghost predicate TwoOutstanding(s: State, key: Text) {
    exists r, r' :: r != r' && Outstanding(s, key, r) && Outstanding(s, key, r')
  }

  ghost predicate Tracked(s: State, key: Text, r: nat) {
    key in s.refreshPromises && s.refreshPromises[key] == r
  }

  predicate Prepares(e: Event, key: Text) { e.Prepare? && TokenCacheKey(e.account) == key }

  function OutcomeAt(run: seq<Event>, i: nat): Outcome
    requires i < |run| && run[i].Prepare?
  {
    PrepareOutcome(At(run, i), run[i].account, run[i].now)
  }

  /** A reset at event `i` left refresh `r` of the key outstanding, and it still was when the key was
      prepared at event `j` and not served from the cache. */
  ghost predicate ForgottenAt(run: seq<Event>, key: Text, i: nat, j: nat, r: nat)
    requires j < |run|
  {
    && i < j && run[i].Reset? && Outstanding(At(run, i), key, r)
    && Prepares(run[j], key) && !OutcomeAt(run, j).Cached? && Outstanding(At(run, j), key, r)
  }

  ghost predicate ForgottenBefore(run: seq<Event>, key: Text, n: nat)
    requires n <= |run|
  {
    exists i: nat, j: nat, r: nat :: j < n && ForgottenAt(run, key, i, j, r)
  }

  ghost predicate ResetDuring(run: seq<Event>, key: Text, n: nat, r: nat)
    requires n <= |run|
  {
    exists i: nat :: i < n && run[i].Reset? && Outstanding(At(run, i), key, r)
  }

  /** Before event `n` the key has at most one refresh outstanding; its promise is that refresh's, or a
      reset cleared the promise and there is none. */
  ghost predicate Single(run: seq<Event>, key: Text, n: nat)
    requires n <= |run|
  {
    var s := At(run, n);
    && !TwoOutstanding(s, key)
    && forall r :: Outstanding(s, key, r) ==>
         Tracked(s, key, r) || (key !in s.refreshPromises && ResetDuring(run, key, n, r))
  }

  ghost predicate SamePromise(s: State, s': State, key: Text) {
    && (key in s'.refreshPromises <==> key in s.refreshPromises)
    && (key in s.refreshPromises ==> s'.refreshPromises[key] == s.refreshPromises[key])
  }

  ghost predicate Starts(s: State, e: Event, key: Text) {
    Prepares(e, key) && PrepareOutcome(s, e.account, e.now).Started?
  }

  /** How one event changes what is outstanding for a key and what its promise is. */
  lemma KeyStep(s: State, e: Event, key: Text)
    requires Sound(s)
    ensures var s' := Next(s, e);
            && (forall r :: Outstanding(s', key, r) ==> Outstanding(s, key, r) || (Starts(s, e, key) && r == s.next))
            && (forall r :: Outstanding(s, key, r) && !Outstanding(s', key, r) ==> e == Finally(r))
            && (Starts(s, e, key) ==>
                  Outstanding(s', key, s.next) && Tracked(s', key, s.next) && !Outstanding(s, key, s.next))
            && (e.Reset? ==> key !in s'.refreshPromises)
            && (!e.Reset? && !Starts(s, e, key) && !(e.Finally? && Outstanding(s, key, e.refresh)) ==>
                  SamePromise(s, s', key))
            && (e.Finally? && Outstanding(s', key, e.refresh) ==> s' == s)
  {
    hide TokenCacheKey, ExpiryOf;
  }

  lemma TrackedStays(s: State, s': State, key: Text, r: nat)
    ensures SamePromise(s, s', key) ==> (Tracked(s', key, r) <==> Tracked(s, key, r))
  {
  }

  lemma TrackedIsNotStarted(s: State, e: Event, key: Text, r: nat)
    requires Tracked(s, key, r)
    ensures !Starts(s, e, key)
  {
    hide TokenCacheKey;
  }

  lemma StartIsNotCached(run: seq<Event>, n: nat, key: Text)
    requires n < |run| && Starts(At(run, n), run[n], key)
    ensures Prepares(run[n], key) && !OutcomeAt(run, n).Cached?
  {
    hide At;
  }

  /** A refresh that is still outstanding when another one starts was forgotten by a reset. */
  lemma StartForgets(run: seq<Event>, key: Text, n: nat, r: nat)
    requires n < |run| && Single(run, key, n) && Starts(At(run, n), run[n], key) && Outstanding(At(run, n), key, r)
    ensures exists i: nat :: ForgottenAt(run, key, i, n, r)
  {
    StartIsNotCached(run, n, key);
    var s := At(run, n);
    hide At, Starts, Outstanding, Tracked, Prepares, OutcomeAt;
    if Tracked(s, key, r) {
      TrackedIsNotStarted(s, run[n], key, r);
    } else {
      var i: nat :| i < n && run[i].Reset? && Outstanding(At(run, i), key, r);
      assert ForgottenAt(run, key, i, n, r);
    }
  }

  lemma ResetDuringLonger(run: seq<Event>, key: Text, n: nat, r: nat)
    requires n < |run|
    requires ResetDuring(run, key, n, r) || (run[n].Reset? && Outstanding(At(run, n), key, r))
    ensures ResetDuring(run, key, n + 1, r)
  {
    hide At, Outstanding;
  }

  lemma SingleStep(run: seq<Event>, key: Text, n: nat)
    requires n < |run| && Single(run, key, n)
    requires forall i: nat, r: nat :: !ForgottenAt(run, key, i, n, r)
    ensures Single(run, key, n + 1)
  {
    AlwaysSound(run, n);
    var s, e := At(run, n), run[n];
    AtStep(run, n);
    KeyStep(s, e, key);
    hide At, Next, Sound, Outstanding, Tracked, Starts, SamePromise, ForgottenAt;
    var s' := At(run, n + 1);
    if Starts(s, e, key) {
      forall r ensures !Outstanding(s, key, r) {
        if Outstanding(s, key, r) { StartForgets(run, key, n, r); }
      }
    }
    forall r | Outstanding(s', key, r)
      ensures Tracked(s', key, r) || (key !in s'.refreshPromises && ResetDuring(run, key, n + 1, r))
    {
      if Outstanding(s, key, r) {
        if ResetDuring(run, key, n, r) || e.Reset? {
          ResetDuringLonger(run, key, n, r);
        }
        TrackedStays(s, s', key, r);
        NoPromiseStays(s, s', key);
      }
    }
  }

  lemma NoPromiseStays(s: State, s': State, key: Text)
    ensures SamePromise(s, s', key) ==> (key in s'.refreshPromises <==> key in s.refreshPromises)
  {
  }

  lemma SingleAtStart(run: seq<Event>, key: Text)
    ensures Single(run, key, 0)
  {
  }

  lemma {:induction false} StaysSingle(run: seq<Event>, key: Text, n: nat)
    requires n <= |run| && !ForgottenBefore(run, key, n)
    ensures Single(run, key, n)
    decreases n
  {
    hide Single, At, ForgottenAt;
    if n == 0 {
      SingleAtStart(run, key);
    } else {
      StaysSingle(run, key, n - 1);
      SingleStep(run, key, n - 1);
    }
  }

  /** A refresh that is outstanding at two moments is so in between. */
  lemma OutstandingBetween(run: seq<Event>, key: Text, i: nat, m: nat, n: nat, r: nat)
    requires i <= m <= n <= |run| && Outstanding(At(run, i), key, r) && Outstanding(At(run, n), key, r)
    ensures Outstanding(At(run, m), key, r)
  {
    hide At, TokenCacheKey;
    RefreshNumbered(run, i, r);
    NextGrowsOver(run, i, m);
    KeptRefresh(run, m, n, r);
  }

  lemma TwoMeans(s: State, key: Text, r: nat, r': nat)
    ensures Outstanding(s, key, r) && Outstanding(s, key, r') && r != r' ==> TwoOutstanding(s, key)
  {
  }

  lemma NoPromiseStarts(s: State, e: Event, key: Text)
    ensures key !in s.refreshPromises && Prepares(e, key) ==>
              Starts(s, e, key) || PrepareOutcome(s, e.account, e.now).Cached?
  {
    hide TokenCacheKey;
  }

  /** While refresh `r` is outstanding after a reset, the key has no promise until a second refresh
      starts. */
  lemma {:induction false} ForgottenUntilPrepared(run: seq<Event>, key: Text, i: nat, n: nat, r: nat)
    requires i < n <= |run| && run[i].Reset? && Outstanding(At(run, i), key, r) && Outstanding(At(run, n), key, r)
    requires forall m :: i < m <= n ==> !TwoOutstanding(At(run, m), key)
    ensures key !in At(run, n).refreshPromises
    decreases n
  {
    hide At, Next, Sound, Outstanding, TwoOutstanding, Tracked, Starts, SamePromise;
    var s, e := At(run, n - 1), run[n - 1];
    AlwaysSound(run, n - 1);
    AtStep(run, n - 1);
    KeyStep(s, e, key);
    if n - 1 > i {
      OutstandingBetween(run, key, i, n - 1, n, r);
      ForgottenUntilPrepared(run, key, i, n - 1, r);
      TwoMeans(At(run, n), key, s.next, r);
      NoPromiseStays(s, At(run, n), key);
      if e.Finally? {
        TwoMeans(s, key, e.refresh, r);
      }
    }
  }

  lemma ForgottenMeansTwo(run: seq<Event>, key: Text, i: nat, j: nat, r: nat)
    requires j < |run| && ForgottenAt(run, key, i, j, r)
    ensures exists m :: 0 <= m <= j + 1 && TwoOutstanding(At(run, m), key)
  {
    hide At, Next, Sound, Outstanding, TwoOutstanding, Tracked, Starts, SamePromise, Prepares, PrepareOutcome;
    AlwaysSound(run, j);
    AtStep(run, j);
    KeyStep(At(run, j), run[j], key);
    NoPromiseStarts(At(run, j), run[j], key);
    TwoMeans(At(run, j + 1), key, At(run, j).next, r);
    if forall m :: i < m <= j ==> !TwoOutstanding(At(run, m), key) {
      ForgottenUntilPrepared(run, key, i, j, r);
      PreparesIsPrepare(run[j], key);
      assert TwoOutstanding(At(run, j + 1), key);
    }
  }

  lemma PreparesIsPrepare(e: Event, key: Text)
    requires Prepares(e, key)
    ensures e.Prepare?
  {
  }

  lemma NotForgottenEarlier(run: seq<Event>, key: Text, m: nat, n: nat)
    requires m <= n <= |run| && !ForgottenBefore(run, key, n)
    ensures !ForgottenBefore(run, key, m)
  {
    hide ForgottenAt;
  }

  /** A key has two refreshes outstanding at some moment of a run exactly when a reset left one of its
      refreshes outstanding and the key was prepared, and not served from the cache, before that
      refresh's `finally` handler ran. */
  lemma OneRefreshPerKeyExactly(run: seq<Event>, key: Text, n: nat)
    requires n <= |run|
    ensures (exists m :: 0 <= m <= n && TwoOutstanding(At(run, m), key)) <==> ForgottenBefore(run, key, n)
  {
    hide At, TwoOutstanding, ForgottenAt;
    if !ForgottenBefore(run, key, n) {
      forall m | 0 <= m <= n ensures !TwoOutstanding(At(run, m), key) {
        NotForgottenEarlier(run, key, m, n);
        StaysSingle(run, key, m);
      }
    } else {
      var i: nat, j: nat, r: nat :| j < n && ForgottenAt(run, key, i, j, r);
      ForgottenMeansTwo(run, key, i, j, r);
    }
  }

  /** So without such a reset a key never has two refreshes outstanding, from the start of the one to its
      `finally`. */
  lemma OneRefreshPerKey(run: seq<Event>, key: Text, n: nat, r: nat, r': nat)
    requires n <= |run| && !ForgottenBefore(run, key, n)
    requires Outstanding(At(run, n), key, r) && Outstanding(At(run, n), key, r')
    ensures r == r'
  {
    StaysSingle(run, key, n);
    hide At, Outstanding, Tracked, ResetDuring;
  }

  /** One reset followed by a call for the key leaves two refreshes of the key outstanding exactly when
      one was outstanding. */
  lemma ResetThenPrepareExactly(s: State, a: Account, now: int)
    requires Sound(s)
    ensures TwoOutstanding(AfterPrepare(AfterReset(s), a, now), TokenCacheKey(a))
       <==> exists r :: Outstanding(s, TokenCacheKey(a), r)
  {
    var s', key := AfterPrepare(AfterReset(s), a, now), TokenCacheKey(a);
    assert Outstanding(s', key, s.next);
    assert forall r :: Outstanding(s', key, r) <==> Outstanding(s, key, r) || r == s.next;
    hide AfterPrepare, AfterReset, TokenCacheKey;
    if r :| Outstanding(s, key, r) {
      assert r != s.next;
    }
  }

  // ---- where a cached token and a joined refresh come from ------------------------------------------

  predicate StartedBy(run: seq<Event>, i: nat, r: nat, a: Account) {
    i < |run| && run[i].Prepare? && run[i].account == a && OutcomeAt(run, i) == Started(r)
  }

  /** Event `m` is the arrival of token `t` for refresh `r`. */
  predicate Brings(run: seq<Event>, m: nat, r: nat, t: Token) {
    && m < |run| && run[m].TokenArrives? && run[m].refresh == r && Running(At(run, m), r)
    && t == Token(run[m].token, ExpiryOf(run[m].reported, run[m].arrivedAt))
  }

  /** Refresh `r`, started for `a` by event `i`, brought `t` at event `m`. */
  predicate RefreshedBy(run: seq<Event>, i: nat, m: nat, r: nat, a: Account, t: Token) {
    i < m && StartedBy(run, i, r, a) && Brings(run, m, r, t)
  }

  lemma {:induction false} RefreshOrigin(run: seq<Event>, n: nat, r: nat) returns (i: nat)
    requires n <= |run| && r in At(run, n).refreshes
    ensures i < n && StartedBy(run, i, r, At(run, n).refreshes[r].account)
    decreases n
  {
    AtStart(run);
    AtStep(run, n - 1);
    var s := At(run, n - 1);
    hide At, TokenCacheKey;
    if r in s.refreshes && !(run[n - 1].Prepare? && OutcomeAt(run, n - 1) == Started(r)) {
      assert s.refreshes[r].account == At(run, n).refreshes[r].account;
      i := RefreshOrigin(run, n - 1, r);
    } else {
      i := n - 1;
    }
  }

  /** What a key holds at `n` it held at `i`, or a refresh for the key brought it in between. */
  ghost predicate HeldOrBrought(run: seq<Event>, i: nat, n: nat, key: Text, t: Token)
    requires i <= n <= |run|
  {
    || (key in At(run, i).cachedTokens && At(run, i).cachedTokens[key] == t)
    || exists m: nat, r: nat :: i <= m < n && Outstanding(At(run, m), key, r) && Brings(run, m, r, t)
  }

  lemma TokenStep(run: seq<Event>, n: nat, key: Text)
    requires n < |run| && key in At(run, n + 1).cachedTokens
    ensures HeldOrBrought(run, n, n + 1, key, At(run, n + 1).cachedTokens[key])
  {
    AtStep(run, n);
    hide At, TokenCacheKey, ExpiryOf;
    var s, e := At(run, n), run[n];
    if e.TokenArrives? && Running(s, e.refresh) && TokenCacheKey(s.refreshes[e.refresh].account) == key {
      assert Outstanding(s, key, e.refresh) && Brings(run, n, e.refresh, At(run, n + 1).cachedTokens[key]);
    }
  }

  lemma {:induction false} TokenChangesByArrival(run: seq<Event>, i: nat, n: nat, key: Text)
    requires i <= n <= |run| && key in At(run, n).cachedTokens
    ensures HeldOrBrought(run, i, n, key, At(run, n).cachedTokens[key])
    decreases n
  {
    if i < n {
      TokenStep(run, n - 1, key);
      hide At, Brings, Outstanding;
      if key in At(run, n - 1).cachedTokens && At(run, n - 1).cachedTokens[key] == At(run, n).cachedTokens[key] {
        TokenChangesByArrival(run, i, n - 1, key);
      }
    }
  }

  /** A cached token came from a completed refresh for its key. */
  lemma TokenOrigin(run: seq<Event>, n: nat, key: Text) returns (i: nat, m: nat, r: nat, a: Account)
    requires n <= |run| && key in At(run, n).cachedTokens
    ensures m < n && TokenCacheKey(a) == key && RefreshedBy(run, i, m, r, a, At(run, n).cachedTokens[key])
  {
    TokenChangesByArrival(run, 0, n, key);
    AtStart(run);
    hide At, Brings, StartedBy, TokenCacheKey;
    var t := At(run, n).cachedTokens[key];
    m, r :| 0 <= m < n && Outstanding(At(run, m), key, r) && Brings(run, m, r, t);
    a := At(run, m).refreshes[r].account;
    i := RefreshOrigin(run, m, r);
  }

  lemma {:induction false} PromiseOrigin(run: seq<Event>, j: nat, n: nat, key: Text) returns (i: nat)
    requires j <= n <= |run| && key !in At(run, j).refreshPromises && key in At(run, n).refreshPromises
    ensures j <= i < n && Prepares(run[i], key) && OutcomeAt(run, i) == Started(At(run, n).refreshPromises[key])
    decreases n
  {
    AtStep(run, n - 1);
    hide At, TokenCacheKey, ExpiryOf;
    var s := At(run, n - 1);
    if key in s.refreshPromises && s.refreshPromises[key] == At(run, n).refreshPromises[key] {
      i := PromiseOrigin(run, j, n - 1, key);
    } else {
      i := n - 1;
    }
  }

  /** Whatever happened, resets included, a call that joins waits for an outstanding refresh of its own
      key. */
  lemma JoinedRefreshIsForKey(run: seq<Event>, n: nat)
    requires n < |run| && run[n].Prepare? && OutcomeAt(run, n).Joined?
    ensures Outstanding(At(run, n), TokenCacheKey(run[n].account), OutcomeAt(run, n).refresh)
  {
    AlwaysSound(run, n);
    hide At;
  }

  /** After a failure at `i` and the refresh's `finally` handler at `j`, with anything in between and
      after, a later call for the key is never made to wait for that refresh: it is served a token that
      was there before the failure or arrived since, starts a refresh, or joins one started after the
      handler ran. */
  lemma FailureLetsNextCallRetry(run: seq<Event>, i: nat, j: nat, n: nat, r: nat)
    requires i < j < n < |run| && run[i] == RefreshFails(r) && Running(At(run, i), r)
    requires run[j] == Finally(r) && r in At(run, j).refreshes
    requires Prepares(run[n], TokenCacheKey(At(run, i).refreshes[r].account))
    ensures At(run, i + 1).cachedTokens == At(run, i).cachedTokens
    ensures match OutcomeAt(run, n)
            case Started(_) => true
            case Joined(r') => exists k :: j < k < n && run[k].Prepare? && OutcomeAt(run, k) == Started(r')
                                           && TokenCacheKey(run[k].account) == TokenCacheKey(run[n].account)
            case Cached(t) => HeldOrBrought(run, i, n, TokenCacheKey(run[n].account), t)
  {
    hide At, Next, Running, TokenCacheKey, PrepareOutcome, OutcomeAt, HeldOrBrought;
    var key := TokenCacheKey(run[n].account);
    FailureKeepsTokens(run, i, r);
    FailedIsSettled(run, i, j, r);
    FinallyClears(run, j, r, run[n].now);
    OutcomeMeans(run, n);
    match OutcomeAt(run, n)
    case Started(_) =>
    case Joined(r') =>
      var k := PromiseOrigin(run, j + 1, n, key);
      assert OutcomeAt(run, k) == Started(r');
    case Cached(t) =>
      TokenChangesByArrival(run, i, n, key);
  }

  lemma FailureKeepsTokens(run: seq<Event>, i: nat, r: nat)
    requires i < |run| && run[i] == RefreshFails(r)
    ensures At(run, i + 1).cachedTokens == At(run, i).cachedTokens
  {
    AtStep(run, i);
    hide At;
  }

  lemma OutcomeMeans(run: seq<Event>, n: nat)
    requires n < |run| && run[n].Prepare?
    ensures var s, key := At(run, n), TokenCacheKey(run[n].account);
            && (OutcomeAt(run, n).Cached? ==> key in s.cachedTokens && s.cachedTokens[key] == OutcomeAt(run, n).token)
            && (OutcomeAt(run, n).Joined? ==>
                  key in s.refreshPromises && s.refreshPromises[key] == OutcomeAt(run, n).refresh)
  {
    hide At, TokenCacheKey;
  }

  /** Once the `finally` handler of a settled refresh has run, its key has no promise, and the next call
      joins nothing. */
  lemma FinallyClears(run: seq<Event>, j: nat, r: nat, now: int)
    requires j < |run| && run[j] == Finally(r) && r in At(run, j).refreshes && At(run, j).refreshes[r].settled
    ensures var a := At(run, j).refreshes[r].account;
            && TokenCacheKey(a) !in At(run, j + 1).refreshPromises
            && !PrepareOutcome(At(run, j + 1), a, now).Joined?
  {
    AtStep(run, j);
    hide At, TokenCacheKey;
  }

  /** A failed refresh is settled for as long as it is outstanding. */
  lemma FailedIsSettled(run: seq<Event>, i: nat, j: nat, r: nat)
    requires i < j <= |run| && run[i] == RefreshFails(r) && Running(At(run, i), r) && r in At(run, j).refreshes
    ensures At(run, j).refreshes[r].settled && At(run, j).refreshes[r].account == At(run, i).refreshes[r].account
  {
    AtStep(run, i);
    RefreshNumbered(run, i, r);
    hide At, TokenCacheKey;
    NextGrows(At(run, i), run[i]);
    KeptRefresh(run, i + 1, j, r);
  }

  predicate ColonFree(t: Text) { COLON !in t }

  /** Keys tell accounts apart when subscription ids hold no colon. */
  lemma KeyDeterminesAccount(a: Account, b: Account)
    requires ColonFree(a.subscriptionId) && ColonFree(b.subscriptionId)
    ensures TokenCacheKey(a) == TokenCacheKey(b) <==> a == b
  {
    JoinedAlikeWithoutSeparator(a.subscriptionId, a.tenantId, b.subscriptionId, b.tenantId, COLON);
  }

  /** The subscription id of `a` runs over that of `b`, a colon and part of the tenant id of `b`. */
  predicate Overlaps(a: Account, b: Account) {
    Overhangs(a.subscriptionId, a.tenantId, b.subscriptionId, b.tenantId, COLON)
  }

  /** Two accounts share a key exactly when they are the same or one overlaps the other. */
  lemma KeysCollideExactly(a: Account, b: Account)
    ensures TokenCacheKey(a) == TokenCacheKey(b) <==> a == b || Overlaps(a, b) || Overlaps(b, a)
  {
    JoinedAlikeExactly(a.subscriptionId, a.tenantId, b.subscriptionId, b.tenantId, COLON);
    hide Overhangs;
  }

  /** With a colon they may not: "s:" with tenant "t", and "s" with tenant ":t", share a key. */
  lemma ColonsCollide(s: Text, t: Text)
    ensures var a, b := Account(s + [COLON], t), Account(s, [COLON] + t);
            a != b && TokenCacheKey(a) == TokenCacheKey(b)
  {
    var a, b := Account(s + [COLON], t), Account(s, [COLON] + t);
    assert |a.subscriptionId| != |b.subscriptionId|;
    assert TokenCacheKey(a) == s + [COLON] + [COLON] + t;
    assert TokenCacheKey(b) == s + [COLON] + [COLON] + t;
  }

  /** No call before event `n` names a subscription id with a colon. */
  predicate ColonFreeUpTo(run: seq<Event>, n: nat) {
    forall k :: 0 <= k <= n && k < |run| && run[k].Prepare? ==> ColonFree(run[k].account.subscriptionId)
  }

  lemma StarterAccount(run: seq<Event>, i: nat, r: nat, a: Account)
    requires StartedBy(run, i, r, a)
    ensures i < |run| && run[i].Prepare? && run[i].account == a
  {
  }

  /** A token returned on the cache path stays valid for more than the margin, and a completed refresh
      for the very same account brought it, provided subscription ids hold no colon. */
  lemma CachedTokenIsFreshAndOwn(run: seq<Event>, n: nat, t: Token) returns (i: nat, m: nat, r: nat)
    requires n < |run| && run[n].Prepare? && OutcomeAt(run, n) == Cached(t) && ColonFreeUpTo(run, n)
    ensures t.expiresAt > run[n].now + 300_000
    ensures m < n && RefreshedBy(run, i, m, r, run[n].account, t)
  {
    hide At, StartedBy, Brings, ColonFree, TokenCacheKey;
    var a;
    i, m, r, a := TokenOrigin(run, n, TokenCacheKey(run[n].account));
    StarterAccount(run, i, r, a);
    KeyDeterminesAccount(a, run[n].account);
  }

  // ---- a token that arrived is served ---------------------------------------------------------------

  /** Event `m` brings a token to a running refresh of the key. */
  predicate Arrives(run: seq<Event>, m: nat, key: Text) {
    && m < |run| && run[m].TokenArrives? && Running(At(run, m), run[m].refresh)
    && TokenCacheKey(At(run, m).refreshes[run[m].refresh].account) == key
  }

  /** The token of event `m`, with the expiry that was reported, or else 55 minutes after it arrived. */
  function Arrived(run: seq<Event>, m: nat): Token
    requires m < |run| && run[m].TokenArrives?
  {
    Token(run[m].token, if run[m].reported.Some? then run[m].reported.value else run[m].arrivedAt + 3_300_000)
  }

  ghost predicate HoldsToken(s: State, key: Text, t: Token) { key in s.cachedTokens && s.cachedTokens[key] == t }

  lemma ArrivalCaches(run: seq<Event>, m: nat, key: Text)
    requires Arrives(run, m, key)
    ensures HoldsToken(At(run, m + 1), key, Arrived(run, m))
  {
    AtStep(run, m);
    hide At, TokenCacheKey;
  }

  lemma TokenStays(run: seq<Event>, k: nat, key: Text, t: Token)
    requires k < |run| && HoldsToken(At(run, k), key, t) && !run[k].Reset? && !Arrives(run, k, key)
    ensures HoldsToken(At(run, k + 1), key, t)
  {
    AtStep(run, k);
    hide At, TokenCacheKey, ExpiryOf;
  }

  lemma {:induction false} TokenStaysUntil(run: seq<Event>, m: nat, n: nat, key: Text, t: Token)
    requires m <= n <= |run| && HoldsToken(At(run, m), key, t)
    requires forall k :: m <= k < n ==> !run[k].Reset? && !Arrives(run, k, key)
    ensures HoldsToken(At(run, n), key, t)
    decreases n
  {
    hide At, Arrives, HoldsToken;
    if m < n {
      TokenStaysUntil(run, m, n - 1, key, t);
      TokenStays(run, n - 1, key, t);
    }
  }

  /** Until a reset or the next token for its key, a token that arrived is what a call for the key is given
      if and only if it is valid for more than another 5 minutes. */
  lemma ArrivedTokenIsServedExactly(run: seq<Event>, m: nat, n: nat, key: Text)
    requires Arrives(run, m, key) && m < n < |run| && Prepares(run[n], key)
    requires forall k :: m < k < n ==> !run[k].Reset? && !Arrives(run, k, key)
    ensures OutcomeAt(run, n) == Cached(Arrived(run, m)) <==> Arrived(run, m).expiresAt > run[n].now + 300_000
    ensures OutcomeAt(run, n).Cached? ==> OutcomeAt(run, n) == Cached(Arrived(run, m))
  {
    ArrivalCaches(run, m, key);
    hide At, Arrives, Arrived, TokenCacheKey;
    TokenStaysUntil(run, m + 1, n, key, Arrived(run, m));
  }

  /** With colon-free subscription ids, a call that joins waits for a refresh of its own account. */
  lemma JoinedRefreshIsForAccount(run: seq<Event>, n: nat) returns (i: nat)
    requires n < |run| && run[n].Prepare? && OutcomeAt(run, n).Joined? && ColonFreeUpTo(run, n)
    ensures i < n && StartedBy(run, i, OutcomeAt(run, n).refresh, run[n].account)
  {
    JoinedRefreshIsForKey(run, n);
    var r := OutcomeAt(run, n).refresh;
    i := RefreshOrigin(run, n, r);
    hide At, ColonFree, TokenCacheKey, OutcomeAt;
    StarterAccount(run, i, r, At(run, n).refreshes[r].account);
    KeyDeterminesAccount(run[i].account, run[n].account);
  }

  /** Clearing both maps during a refresh lets a second one start for the same key. */
  lemma ResetBreaksSingleRefresh(a: Account)
    ensures var run := [Prepare(a, 1), Reset, Prepare(a, 2)];
            TwoOutstanding(At(run, 3), TokenCacheKey(a))
  {
    hide TokenCacheKey;
    var run := [Prepare(a, 1), Reset, Prepare(a, 2)];
    assert At(run, 1) == Next(At(run, 0), Prepare(a, 1));
    assert At(run, 2) == Next(At(run, 1), Reset);
    assert At(run, 3) == Next(At(run, 2), Prepare(a, 2));
    assert Outstanding(At(run, 3), TokenCacheKey(a), 0) && Outstanding(At(run, 3), TokenCacheKey(a), 1);
  }
}
