/** Chutes model discovery and its cache over interleaved calls and replies
    (extensions/chutes/models.ts). */
module ChutesModels {
  import opened JsText

  const CACHE_TTL := 5 * 60 * 1000
  const CACHE_MAX_ENTRIES := 100

  /** A model; `attributes` stands for everything but its id. */
  datatype Model = Model(id: Text, attributes: nat)

  /** An entry of the API's list; the id is None when it is not a string. */
  datatype ApiEntry = ApiEntry(id: Option<Text>, attributes: nat)

  datatype CacheEntry = CacheEntry(key: Text, models: seq<Model>, time: int)

  /** A JavaScript Map keeps insertion order; setting a key it has keeps the key's place. */
  type Cache = seq<CacheEntry>

  // ---- the list of models ----------------------------------------------------------------------

  function IdOf(e: ApiEntry): Text { if e.id.Some? then Trim(e.id.value) else [] }

  /** Entry `i` is listed: it has an id and is the first with that id. */
  predicate Listed(data: seq<ApiEntry>, i: nat)
    requires i < |data|
  {
    IdOf(data[i]) != [] && forall k :: 0 <= k < i ==> IdOf(data[k]) != IdOf(data[i])
  }

  /** The listed entries, in order. */
  function ModelsOf(data: seq<ApiEntry>): seq<Model> {
    ModelsUpTo(data, |data|)
  }

  function ModelsUpTo(data: seq<ApiEntry>, n: nat): seq<Model>
    requires n <= |data|
  {
    if n == 0 then []
    else if Listed(data, n - 1) then ModelsUpTo(data, n - 1) + [Model(IdOf(data[n - 1]), data[n - 1].attributes)]
    else ModelsUpTo(data, n - 1)
  }

  ghost predicate DistinctIds(models: seq<Model>) {
    forall i, j :: 0 <= i < j < |models| ==> models[i].id != models[j].id
  }

  lemma {:induction false} ListedIds(data: seq<ApiEntry>, n: nat)
    requires n <= |data|
    ensures forall m :: m in ModelsUpTo(data, n) <==>
              exists i :: 0 <= i < n && Listed(data, i) && m == Model(IdOf(data[i]), data[i].attributes)
    ensures DistinctIds(ModelsUpTo(data, n))
  {
    hide IdOf;
    if n > 0 {
      ListedIds(data, n - 1);
      if Listed(data, n - 1) {
        var rest := ModelsUpTo(data, n - 1);
        forall k | 0 <= k < |rest| ensures rest[k].id != IdOf(data[n - 1]) {
          assert rest[k] in rest;
        }
      }
    }
  }

  /** A non-blank id is among the discovered ones exactly when some entry carries it. */
  lemma IdDiscovered(data: seq<ApiEntry>, id: Text)
    requires id != []
    ensures (exists m :: m in ModelsOf(data) && m.id == id) <==> exists i :: 0 <= i < |data| && IdOf(data[i]) == id
  {
    hide IdOf;
    ListedIds(data, |data|);
    if i :| 0 <= i < |data| && IdOf(data[i]) == id {
      FirstWithId(data, i);
      var k :| 0 <= k <= i && IdOf(data[k]) == IdOf(data[i]) && Listed(data, k);
      assert Model(IdOf(data[k]), data[k].attributes) in ModelsUpTo(data, |data|);
    }
  }

  lemma {:induction false} FirstWithId(data: seq<ApiEntry>, i: nat)
    requires i < |data| && IdOf(data[i]) != []
    ensures exists k :: 0 <= k <= i && IdOf(data[k]) == IdOf(data[i]) && Listed(data, k)
    decreases i
  {
    hide IdOf;
    if k :| 0 <= k < i && IdOf(data[k]) == IdOf(data[i]) {
      FirstWithId(data, k);
    } else {
      assert Listed(data, i);
    }
  }

  method DiscoverModels(data: seq<ApiEntry>) returns (models: seq<Model>)
    ensures models == ModelsOf(data)
  {
    hide IdOf;
    models := [];
    var seen: set<Text> := {};
    for i := 0 to |data|
      invariant models == ModelsUpTo(data, i)
      invariant forall id :: id in seen <==> id != [] && exists k :: 0 <= k < i && IdOf(data[k]) == id
    {
      var id := IdOf(data[i]);
      assert Listed(data, i) <==> id != [] && id !in seen;
      if id == [] || id in seen {
        continue;
      }
      seen := seen + {id};
      models := models + [Model(id, data[i].attributes)];
    }
  }

  /** The entry's id is a string that trims to `id`, which is not empty. */
  predicate Names(e: ApiEntry, id: Text) { e.id.Some? && !AllWhitespace(e.id.value) && Trim(e.id.value) == id }

  ghost predicate SomeNames(data: seq<ApiEntry>, id: Text) {
    exists i :: 0 <= i < |data| && Names(data[i], id)
  }

  /** The first entry with the model's id has the model's attributes. */
  ghost predicate FirstNames(data: seq<ApiEntry>, i: nat, m: Model)
    requires i < |data|
  {
    && Names(data[i], m.id) && m.attributes == data[i].attributes
    && forall k :: 0 <= k < i ==> !Names(data[k], m.id)
  }

  /** An id occurs exactly when it is the trimmed, non-blank id of some entry, it occurs once, and its
      attributes are those of the first such entry. */
  ghost predicate Lists(data: seq<ApiEntry>, models: seq<Model>) {
    && DistinctIds(models)
    && (forall id :: (exists m :: m in models && m.id == id) <==> SomeNames(data, id))
    && forall m :: m in models ==> exists i :: 0 <= i < |data| && FirstNames(data, i, m)
  }

  lemma NamesIs(e: ApiEntry, id: Text)
    ensures Names(e, id) <==> id != [] && IdOf(e) == id
  {
    hide AllWhitespace;
  }

  lemma ListedMeans(data: seq<ApiEntry>, i: nat)
    requires i < |data| && Listed(data, i)
    ensures FirstNames(data, i, Model(IdOf(data[i]), data[i].attributes))
  {
    forall e: ApiEntry, id ensures Names(e, id) <==> id != [] && IdOf(e) == id {
      NamesIs(e, id);
    }
    hide IdOf, Names;
  }

  lemma SomeNamesIs(data: seq<ApiEntry>, id: Text)
    ensures SomeNames(data, id) <==> exists m :: m in ModelsOf(data) && m.id == id
  {
    forall e: ApiEntry ensures Names(e, id) <==> id != [] && IdOf(e) == id {
      NamesIs(e, id);
    }
    hide IdOf, Names, ModelsOf;
    if id != [] {
      IdDiscovered(data, id);
    } else if m :| m in ModelsOf(data) && m.id == id {
      DiscoveredIsListed(data, m);
    }
  }

  lemma DiscoveredIsListed(data: seq<ApiEntry>, m: Model)
    requires m in ModelsOf(data)
    ensures m.id != [] && exists i :: 0 <= i < |data| && FirstNames(data, i, m)
  {
    hide IdOf, FirstNames;
    ListedIds(data, |data|);
    var i :| 0 <= i < |data| && Listed(data, i) && m == Model(IdOf(data[i]), data[i].attributes);
    ListedMeans(data, i);
  }

  lemma ModelsOfLists(data: seq<ApiEntry>)
    ensures Lists(data, ModelsOf(data))
  {
    ListedIds(data, |data|);
    forall id ensures SomeNames(data, id) <==> exists m :: m in ModelsOf(data) && m.id == id {
      SomeNamesIs(data, id);
    }
    forall m | m in ModelsOf(data) ensures exists i :: 0 <= i < |data| && FirstNames(data, i, m) {
      DiscoveredIsListed(data, m);
    }
    hide ModelsUpTo, SomeNames, FirstNames;
  }

  // ---- the cache -------------------------------------------------------------------------------

  function Find(cache: Cache, key: Text): (i: int)
    ensures -1 <= i < |cache|
    ensures i >= 0 ==> cache[i].key == key
    ensures i < 0 ==> forall k :: 0 <= k < |cache| ==> cache[k].key != key
  {
    if cache == [] then -1
    else if cache[|cache| - 1].key == key then |cache| - 1
    else
      assert forall k {:trigger cache[k]} :: 0 <= k < |cache| - 1 ==> cache[k] == cache[..|cache| - 1][k];
      Find(cache[..|cache| - 1], key)
  }

  predicate Alive(e: CacheEntry, now: int) { now - e.time < CACHE_TTL }

  function Prune(cache: Cache, now: int): Cache {
    if cache == [] then []
    else
      var rest, last := Prune(cache[..|cache| - 1], now), cache[|cache| - 1];
      if Alive(last, now) then rest + [last] else rest
  }

  function Evict(cache: Cache, key: Text): Cache {
    if Find(cache, key) < 0 && |cache| >= CACHE_MAX_ENTRIES then cache[1..] else cache
  }

  function Set(cache: Cache, e: CacheEntry): Cache {
    var i := Find(cache, e.key);
    if i < 0 then cache + [e] else cache[i := e]
  }

  /** `cacheAndReturn` at time `now`. */
  function Store(cache: Cache, key: Text, models: seq<Model>, now: int): Cache {
    Set(Evict(Prune(cache, now), key), CacheEntry(key, models, now))
  }

  ghost predicate DistinctKeys(cache: Cache) {
    forall i, j :: 0 <= i < j < |cache| ==> cache[i].key != cache[j].key
  }

  ghost predicate Bounded(cache: Cache) { |cache| <= CACHE_MAX_ENTRIES && DistinctKeys(cache) }

  lemma {:induction false} PruneKeeps(cache: Cache, now: int)
    ensures |Prune(cache, now)| <= |cache|
    ensures forall e :: e in Prune(cache, now) <==> e in cache && Alive(e, now)
    ensures DistinctKeys(cache) ==> DistinctKeys(Prune(cache, now))
  {
    if cache != [] {
      var n := |cache| - 1;
      var rest, last := cache[..n], cache[n];
      PruneKeeps(rest, now);
      hide Alive;
      assert cache == rest + [last];
      assert forall e :: e in cache <==> e in rest || e == last;
      if DistinctKeys(cache) {
        var r := Prune(rest, now);
        forall k | 0 <= k < |r| ensures r[k].key != last.key {
          assert r[k] in rest;
          var i :| 0 <= i < n && rest[i] == r[k];
          assert cache[i].key != cache[n].key;
        }
      }
    }
  }

  /** Storing keeps the cache bounded with distinct keys, holds the new entry, and otherwise only
      entries it held before that have not expired. */
  lemma StoreKeeps(cache: Cache, key: Text, models: seq<Model>, now: int)
    requires Bounded(cache)
    ensures Bounded(Store(cache, key, models, now))
    ensures CacheEntry(key, models, now) in Store(cache, key, models, now)
    ensures forall e :: e in Store(cache, key, models, now) ==>
              e == CacheEntry(key, models, now) || (e in cache && e.key != key && Alive(e, now))
  {
    PruneKeeps(cache, now);
    var pruned := Prune(cache, now);
    var room, e := Evict(pruned, key), CacheEntry(key, models, now);
    hide Prune, Alive, Find;
    assert DistinctKeys(room) && forall x :: x in room ==> x in pruned;
    var i := Find(room, key);
    var stored := Set(room, e);
    assert stored[if i < 0 then |room| else i] == e;
    forall x | x in stored ensures x == e || (x in room && x.key != key) {
      var k :| 0 <= k < |stored| && stored[k] == x;
      if i >= 0 && k != i {
        assert room[k] == x && room[i].key == key;
      }
    }
  }

  lemma StoreHolds(cache: Cache, key: Text, models: seq<Model>, now: int)
    ensures CacheEntry(key, models, now) in Store(cache, key, models, now)
  {
    hide Prune, Find;
    var room, e := Evict(Prune(cache, now), key), CacheEntry(key, models, now);
    var i := Find(room, key);
    assert Set(room, e)[if i < 0 then |room| else i] == e;
  }

  lemma SetKeepsOthers(cache: Cache, e: CacheEntry, x: CacheEntry)
    requires x in cache && x.key != e.key
    ensures x in Set(cache, e)
  {
    hide Find;
    var k :| 0 <= k < |cache| && cache[k] == x;
    var i := Find(cache, e.key);
    assert i != k && Set(cache, e)[k] == x;
  }

  lemma {:induction false} PruneAllAlive(cache: Cache, now: int)
    requires |Prune(cache, now)| == |cache|
    ensures Prune(cache, now) == cache && forall e :: e in cache ==> Alive(e, now)
  {
    if cache != [] {
      var n := |cache| - 1;
      PruneKeeps(cache[..n], now);
      hide Alive;
      assert cache == cache[..n] + [cache[n]];
      PruneAllAlive(cache[..n], now);
    }
  }

  /** The only entry with another key and less than 5 minutes old that storing drops is the first of 100
      such entries, when the key is new. */
  lemma StoreDropsOnlyFirst(cache: Cache, key: Text, models: seq<Model>, now: int, e: CacheEntry)
    requires Bounded(cache) && e in cache && e.key != key && now - e.time < 300_000
    ensures e in Store(cache, key, models, now)
         || (|cache| == 100 && e == cache[0] && forall k :: 0 <= k < |cache| ==> cache[k].key != key)
  {
    PruneKeeps(cache, now);
    var pruned := Prune(cache, now);
    assert e in pruned;
    hide Find;
    if |pruned| == |cache| {
      PruneAllAlive(cache, now);
    }
    hide Prune, Alive, Set;
    var k :| 0 <= k < |pruned| && pruned[k] == e;
    if e in Evict(pruned, key) {
      SetKeepsOthers(Evict(pruned, key), CacheEntry(key, models, now), e);
    }
  }

  // ---- calls and replies -----------------------------------------------------------------------

  /** A running call: its trimmed token, and whether it retried without it. Its outstanding request
      carries the token, or nothing after the retry. */
  datatype Running = Running(token: Text, retried: bool)

  function EffectiveKey(c: Running): Text { if c.retried then [] else c.token }

  datatype State = State(cache: Cache, calls: map<nat, Running>, next: nat)

  datatype Begun = Hit(models: seq<Model>) | TestCatalog(models: seq<Model>) | Requested(call: nat)

  /** What a request brings: an error status, the `data` of an ok response (None when it is no
      array), or an exception. */
  datatype Response = HttpError(status: int) | Data(data: Option<seq<ApiEntry>>) | Threw

  datatype Finished = RetriedWithoutToken | Returned(models: seq<Model>)

  function BeginOutcome(s: State, catalog: seq<Model>, token: Text, now: int, testEnv: bool): Begun {
    var cache := Prune(s.cache, now);
    var i := Find(cache, Trim(token));
    if i >= 0 then Hit(cache[i].models)
    else if testEnv then TestCatalog(catalog)
    else Requested(s.next)
  }

  function AfterBegin(s: State, catalog: seq<Model>, token: Text, now: int, testEnv: bool): State {
    var pruned := s.(cache := Prune(s.cache, now));
    if BeginOutcome(s, catalog, token, now, testEnv).Requested? then
      pruned.(calls := s.calls[s.next := Running(Trim(token), false)], next := s.next + 1)
    else pruned
  }

  /** A 401 to a request with a token is answered by a second request without it. */
  predicate Retries(c: Running, r: Response) { r == HttpError(401) && c.token != [] && !c.retried }

  function ResponseModels(catalog: seq<Model>, r: Response): seq<Model> {
    if r.Data? && r.data.Some? && ModelsOf(r.data.value) != [] then ModelsOf(r.data.value) else catalog
  }

  /** A response's list: what it lists, if it names any model, and otherwise the static catalog. */
  ghost predicate Answers(catalog: seq<Model>, r: Response, models: seq<Model>) {
    if r.Data? && r.data.Some? && exists id :: SomeNames(r.data.value, id) then Lists(r.data.value, models)
    else models == catalog
  }

  lemma ResponseAnswers(catalog: seq<Model>, r: Response)
    ensures Answers(catalog, r, ResponseModels(catalog, r))
  {
    if r.Data? && r.data.Some? {
      var data := r.data.value;
      ModelsOfLists(data);
      hide ModelsOf, SomeNames, DistinctIds;
      if ModelsOf(data) != [] {
        var m := ModelsOf(data)[0];
        assert m in ModelsOf(data);
        assert SomeNames(data, m.id);
      }
    }
  }

  function FinishOutcome(c: Running, catalog: seq<Model>, r: Response): Finished {
    if Retries(c, r) then RetriedWithoutToken else Returned(ResponseModels(catalog, r))
  }

  function AfterResponse(s: State, catalog: seq<Model>, call: nat, r: Response, now: int): State {
    if call !in s.calls then s
    else
      var c := s.calls[call];
      if Retries(c, r) then s.(calls := s.calls[call := c.(retried := true)])
      else s.(cache := Store(s.cache, EffectiveKey(c), ResponseModels(catalog, r), now), calls := s.calls - {call})
  }

  /** The module's mutable cache and the calls that wait for a response. */
  class Discovery {
    const catalog: seq<Model>
    var cache: Cache
    var calls: map<nat, Running>
    var next: nat

    constructor (catalog: seq<Model>)
      ensures this.catalog == catalog && Current() == State([], map[], 0)
    {
      this.catalog := catalog;
      cache, calls, next := [], map[], 0;
    }

    function Current(): State
      reads this
    {
      State(cache, calls, next)
    }

    method PruneExpiredCacheEntries(now: int)
      modifies this`cache
      ensures cache == Prune(old(cache), now)
    {
      var all := cache;
      cache := [];
      for i := 0 to |all|
        invariant cache == Prune(all[..i], now)
      {
        assert all[..i + 1][..i] == all[..i];
        if now - all[i].time < CACHE_TTL {
          cache := cache + [all[i]];
        }
      }
      assert all[..|all|] == all;
    }

    method CacheAndReturn(tokenKey: Text, models: seq<Model>, now: int) returns (r: seq<Model>)
      modifies this`cache
      ensures cache == Store(old(cache), tokenKey, models, now) && r == models
    {
      PruneExpiredCacheEntries(now);
      if Find(cache, tokenKey) == -1 && |cache| >= CACHE_MAX_ENTRIES {
        cache := cache[1..];
      }
      var i := Find(cache, tokenKey);
      if i == -1 {
        cache := cache + [CacheEntry(tokenKey, models, now)];
      } else {
        cache := cache[i := CacheEntry(tokenKey, models, now)];
      }
      r := models;
    }

    /** `discoverChutesModels` up to its first request. */
    method Begin(accessToken: Text, now: int, testEnv: bool) returns (o: Begun)
      modifies this
      ensures o == BeginOutcome(old(Current()), catalog, accessToken, now, testEnv)
      ensures Current() == AfterBegin(old(Current()), catalog, accessToken, now, testEnv)
    {
      hide Prune, Trim, Find;
      var trimmedKey := Trim(accessToken);
      PruneExpiredCacheEntries(now);
      var i := Find(cache, trimmedKey);
      if i != -1 {
        return Hit(cache[i].models);
      }
      if testEnv {
        return TestCatalog(catalog);
      }
      o := Requested(next);
      calls := calls[next := Running(trimmedKey, false)];
      next := next + 1;
    }

    /** One response, up to the second request or the end of the call. */
    method Respond(call: nat, response: Response, now: int) returns (o: Finished)
      requires call in calls
      modifies this
      ensures o == FinishOutcome(old(calls)[call], catalog, response)
      ensures Current() == AfterResponse(old(Current()), catalog, call, response, now)
      ensures var c := old(calls)[call];
              if response == HttpError(401) && c.token != [] && !c.retried then
                o == RetriedWithoutToken && calls == old(calls)[call := Running(c.token, true)] && cache == old(cache)
              else
                && o.Returned? && Answers(catalog, response, o.models) && calls == old(calls) - {call}
                && CacheEntry(if c.retried then [] else c.token, o.models, now) in cache
    {
      ResponseAnswers(catalog, response);
      hide Store, Answers, SomeNames;
      var c := calls[call];
      if response == HttpError(401) && c.token != [] && !c.retried {
        calls := calls[call := c.(retried := true)];
        return RetriedWithoutToken;
      }
      var models := catalog;
      if response.Data? && response.data.Some? {
        var discovered := DiscoverModels(response.data.value);
        if |discovered| > 0 {
          models := discovered;
        }
      }
      calls := calls - {call};
      StoreHolds(cache, EffectiveKey(c), models, now);
      var returned := CacheAndReturn(EffectiveKey(c), models, now);
      return Returned(returned);
    }
  }

  // ---- runs ----------------------------------------------------------------------------------

  datatype Event =
    | Begin(token: Text, begunAt: int, testEnv: bool)
    | Respond(call: nat, response: Response, respondedAt: int)

  function Next(s: State, catalog: seq<Model>, e: Event): State {
    match e
    case Begin(token, now, testEnv) => AfterBegin(s, catalog, token, now, testEnv)
    case Respond(call, r, now) => AfterResponse(s, catalog, call, r, now)
  }

  function At(catalog: seq<Model>, run: seq<Event>, n: nat): State
    requires n <= |run|
  {
    if n == 0 then State([], map[], 0) else Next(At(catalog, run, n - 1), catalog, run[n - 1])
  }

  lemma StepBounded(s: State, catalog: seq<Model>, e: Event)
    requires Bounded(s.cache)
    ensures Bounded(Next(s, catalog, e).cache)
  {
    hide Prune, Store, Trim, Find, Bounded, ResponseModels;
    match e
    case Begin(token, now, testEnv) => PruneBounded(s.cache, now);
    case Respond(call, r, now) =>
      if call in s.calls && !Retries(s.calls[call], r) {
        StoreKeeps(s.cache, EffectiveKey(s.calls[call]), ResponseModels(catalog, r), now);
      }
  }

  lemma PruneBounded(cache: Cache, now: int)
    requires Bounded(cache)
    ensures Bounded(Prune(cache, now))
  {
    PruneKeeps(cache, now);
  }

  /** Over every interleaving the cache holds at most 100 entries, with distinct keys. */
  lemma {:induction false} CacheStaysBounded(catalog: seq<Model>, run: seq<Event>, n: nat)
    requires n <= |run|
    ensures Bounded(At(catalog, run, n).cache)
  {
    if n > 0 {
      hide Bounded, Next;
      CacheStaysBounded(catalog, run, n - 1);
      StepBounded(At(catalog, run, n - 1), catalog, run[n - 1]);
    }
  }

  // ---- where a cached list comes from ------------------------------------------------------------

  /** Event `m` is a response to a request that carried `key` (the empty key: a request without a
      token), and it filed `models` under that key. */
  predicate FiledBy(catalog: seq<Model>, run: seq<Event>, m: nat, key: Text, models: seq<Model>, time: int) {
    && m < |run| && run[m].Respond? && run[m].call in At(catalog, run, m).calls
    && var c := At(catalog, run, m).calls[run[m].call];
       && EffectiveKey(c) == key && !Retries(c, run[m].response)
       && models == ResponseModels(catalog, run[m].response) && time == run[m].respondedAt
  }

  lemma NothingAtStart(catalog: seq<Model>, run: seq<Event>)
    ensures At(catalog, run, 0) == State([], map[], 0)
  {
  }

  lemma StepOrigin(catalog: seq<Model>, run: seq<Event>, n: nat, e: CacheEntry)
    requires n < |run| && e in At(catalog, run, n + 1).cache
    ensures e in At(catalog, run, n).cache || FiledBy(catalog, run, n, e.key, e.models, e.time)
  {
    CacheStaysBounded(catalog, run, n);
    hide Prune, Store, Trim, Find, Bounded, ResponseModels;
    var s := At(catalog, run, n);
    match run[n]
    case Begin(token, now, testEnv) => PruneKeeps(s.cache, now);
    case Respond(call, r, now) =>
      if call in s.calls && !Retries(s.calls[call], r) {
        StoreKeeps(s.cache, EffectiveKey(s.calls[call]), ResponseModels(catalog, r), now);
      }
  }

  lemma {:induction false} EntryOrigin(catalog: seq<Model>, run: seq<Event>, n: nat, e: CacheEntry) returns (m: nat)
    requires n <= |run| && e in At(catalog, run, n).cache
    ensures m < n && FiledBy(catalog, run, m, e.key, e.models, e.time)
  {
    NothingAtStart(catalog, run);
    hide At, FiledBy;
    StepOrigin(catalog, run, n - 1, e);
    if e in At(catalog, run, n - 1).cache {
      m := EntryOrigin(catalog, run, n - 1, e);
    } else {
      m := n - 1;
    }
  }

  /** A hit returns what a response to a request carrying the caller's own token filed, less than the
      lifetime ago. */
  lemma HitIsOwnAndYoung(catalog: seq<Model>, run: seq<Event>, n: nat, models: seq<Model>) returns (m: nat, time: int)
    requires n < |run| && run[n].Begin?
    requires BeginOutcome(At(catalog, run, n), catalog, run[n].token, run[n].begunAt, run[n].testEnv) == Hit(models)
    ensures m < n && FiledBy(catalog, run, m, Trim(run[n].token), models, time)
    ensures run[n].begunAt - time < CACHE_TTL
  {
    hide At, FiledBy, Trim, Prune, Find;
    var cache := Prune(At(catalog, run, n).cache, run[n].begunAt);
    PruneKeeps(At(catalog, run, n).cache, run[n].begunAt);
    var e := cache[Find(cache, Trim(run[n].token))];
    assert e in cache;
    m := EntryOrigin(catalog, run, n, e);
    time := e.time;
  }

  /** Event `i` began call `call` with this token. */
  predicate CallsOwn(catalog: seq<Model>, run: seq<Event>, i: nat, call: nat, token: Text) {
    && i < |run| && run[i].Begin? && Trim(run[i].token) == token
    && BeginOutcome(At(catalog, run, i), catalog, run[i].token, run[i].begunAt, run[i].testEnv) == Requested(call)
  }

  lemma {:induction false} CallOrigin(catalog: seq<Model>, run: seq<Event>, n: nat, call: nat) returns (i: nat)
    requires n <= |run| && call in At(catalog, run, n).calls
    ensures i < n && CallsOwn(catalog, run, i, call, At(catalog, run, n).calls[call].token)
  {
    NothingAtStart(catalog, run);
    var s, e := At(catalog, run, n - 1), run[n - 1];
    assert At(catalog, run, n) == Next(s, catalog, e);
    hide At, Prune, Store, Trim, Find, ResponseModels;
    if call in s.calls && !(e.Begin? && BeginOutcome(s, catalog, e.token, e.begunAt, e.testEnv) == Requested(call)) {
      assert s.calls[call].token == At(catalog, run, n).calls[call].token;
      i := CallOrigin(catalog, run, n - 1, call);
    } else {
      i := n - 1;
    }
  }

  /** No list is shared across tokens: what a response makes a call return and file is the static
      catalog or what that response lists, filed under the token the call was made with, or, after
      a 401 to that token, under the empty key. */
  lemma FiledUnderOwnToken(catalog: seq<Model>, run: seq<Event>, m: nat, key: Text, models: seq<Model>, time: int)
    returns (i: nat)
    requires FiledBy(catalog, run, m, key, models, time)
    ensures var c := At(catalog, run, m).calls[run[m].call];
            && i < m && CallsOwn(catalog, run, i, run[m].call, c.token)
            && key == (if c.retried then [] else c.token)
            && FinishOutcome(c, catalog, run[m].response) == Returned(models)
            && Answers(catalog, run[m].response, models)
  {
    ResponseAnswers(catalog, run[m].response);
    hide At, CallsOwn, Answers, ResponseModels;
    i := CallOrigin(catalog, run, m, run[m].call);
  }

  /** Every list that is filed, and so every list a call returns, is non-empty with distinct ids, given
      that the static catalog is. */
  lemma FiledIsSound(catalog: seq<Model>, run: seq<Event>, m: nat, key: Text, models: seq<Model>, time: int)
    requires FiledBy(catalog, run, m, key, models, time) && catalog != [] && DistinctIds(catalog)
    ensures models != [] && DistinctIds(models)
  {
    hide At;
    var r := run[m].response;
    if r.Data? && r.data.Some? {
      ListedIds(r.data.value, |r.data.value|);
    }
  }

  lemma HitIsSound(catalog: seq<Model>, run: seq<Event>, n: nat, models: seq<Model>)
    requires n < |run| && run[n].Begin? && catalog != [] && DistinctIds(catalog)
    requires BeginOutcome(At(catalog, run, n), catalog, run[n].token, run[n].begunAt, run[n].testEnv) == Hit(models)
    ensures models != [] && DistinctIds(models)
  {
    hide At, FiledBy, BeginOutcome, DistinctIds;
    var m, time := HitIsOwnAndYoung(catalog, run, n, models);
    FiledIsSound(catalog, run, m, Trim(run[n].token), models, time);
  }

  // ---- what a later call is served ---------------------------------------------------------------

  lemma FoundByKey(cache: Cache, e: CacheEntry)
    requires DistinctKeys(cache) && e in cache
    ensures Find(cache, e.key) >= 0 && cache[Find(cache, e.key)] == e
  {
    var k :| 0 <= k < |cache| && cache[k] == e;
    hide Find;
    assert Find(cache, e.key) == k;
  }

  /** A call finds a list exactly when the cache holds one under its trimmed token that is less than 5
      minutes old, and then that one; otherwise it asks the API, except in a test environment. */
  lemma ServedExactly(s: State, catalog: seq<Model>, token: Text, now: int, testEnv: bool)
    requires Bounded(s.cache)
    ensures var o := BeginOutcome(s, catalog, token, now, testEnv);
            && (o.Hit? <==> exists e :: e in s.cache && e.key == Trim(token) && now - e.time < 300_000)
            && (forall e :: e in s.cache && e.key == Trim(token) && now - e.time < 300_000 ==> o == Hit(e.models))
            && (!o.Hit? ==> o == if testEnv then TestCatalog(catalog) else Requested(s.next))
  {
    var cache := Prune(s.cache, now);
    PruneKeeps(s.cache, now);
    hide Prune, Find, DistinctKeys, Trim;
    var i := Find(cache, Trim(token));
    if i >= 0 {
      assert cache[i] in cache;
    }
    forall e | e in s.cache && e.key == Trim(token) && now - e.time < 300_000
      ensures i >= 0 && cache[i] == e
    {
      assert e in cache;
      FoundByKey(cache, e);
    }
  }

  /** Event `k` neither files a list under the key nor comes 5 minutes after `time` or later, and finds
      fewer than 100 lists. */
  predicate Spares(catalog: seq<Model>, run: seq<Event>, k: nat, key: Text, time: int)
    requires k < |run|
  {
    && |At(catalog, run, k).cache| < 100
    && match run[k]
       case Begin(_, now, _) => now - time < 300_000
       case Respond(call, r, now) =>
         && now - time < 300_000
         && (call in At(catalog, run, k).calls ==>
               Retries(At(catalog, run, k).calls[call], r) || EffectiveKey(At(catalog, run, k).calls[call]) != key)
  }

  lemma SparedStep(catalog: seq<Model>, run: seq<Event>, k: nat, e: CacheEntry)
    requires k < |run| && e in At(catalog, run, k).cache && Spares(catalog, run, k, e.key, e.time)
    ensures e in At(catalog, run, k + 1).cache
  {
    CacheStaysBounded(catalog, run, k);
    var s := At(catalog, run, k);
    assert At(catalog, run, k + 1) == Next(s, catalog, run[k]);
    hide At, Prune, Store, Trim, Find, Bounded, ResponseModels;
    match run[k]
    case Begin(token, now, testEnv) =>
      PruneKeeps(s.cache, now);
    case Respond(call, r, now) =>
      if call in s.calls && !Retries(s.calls[call], r) {
        StoreDropsOnlyFirst(s.cache, EffectiveKey(s.calls[call]), ResponseModels(catalog, r), now, e);
      }
  }

  lemma {:induction false} SparedStays(catalog: seq<Model>, run: seq<Event>, m: nat, n: nat, e: CacheEntry)
    requires m <= n <= |run| && e in At(catalog, run, m).cache
    requires forall k :: m <= k < n ==> Spares(catalog, run, k, e.key, e.time)
    ensures e in At(catalog, run, n).cache
  {
    hide At, Spares;
    if m < n {
      SparedStays(catalog, run, m, n - 1, e);
      SparedStep(catalog, run, n - 1, e);
    }
  }

  lemma FiledIsInCache(catalog: seq<Model>, run: seq<Event>, m: nat, key: Text, models: seq<Model>, time: int)
    requires FiledBy(catalog, run, m, key, models, time)
    ensures CacheEntry(key, models, time) in At(catalog, run, m + 1).cache
  {
    var s := At(catalog, run, m);
    assert At(catalog, run, m + 1) == Next(s, catalog, run[m]);
    hide At, Store, ResponseModels;
    StoreHolds(s.cache, key, models, time);
  }

  /** The converse of `HitIsOwnAndYoung`: a filed list is what the next calls with that token return for 5
      minutes, as long as the cache is not full and nothing else is filed under the token. */
  lemma FiledIsServed(catalog: seq<Model>, run: seq<Event>, m: nat, n: nat, key: Text, models: seq<Model>, time: int)
    requires FiledBy(catalog, run, m, key, models, time) && m < n < |run|
    requires forall k :: m < k < n ==> Spares(catalog, run, k, key, time)
    requires run[n].Begin? && Trim(run[n].token) == key && run[n].begunAt - time < 300_000
    ensures BeginOutcome(At(catalog, run, n), catalog, run[n].token, run[n].begunAt, run[n].testEnv) == Hit(models)
  {
    hide At, FiledBy, Spares, BeginOutcome, Bounded, Trim;
    var e := CacheEntry(key, models, time);
    FiledIsInCache(catalog, run, m, key, models, time);
    SparedStays(catalog, run, m + 1, n, e);
    CacheStaysBounded(catalog, run, n);
    ServedExactly(At(catalog, run, n), catalog, run[n].token, run[n].begunAt, run[n].testEnv);
  }
}
