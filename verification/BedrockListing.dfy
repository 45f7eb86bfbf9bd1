/** Which models a Bedrock discovery lists, and in what order (extensions/amazon-bedrock/discovery.ts). */
module BedrockListing {
  import opened JsText
  import opened ProviderFilter

  /** The record the cache key is made of. */
  datatype Key = Key(region: Text, providerFilter: seq<Text>, refreshIntervalSeconds: nat,
                     defaultContextWindow: nat, defaultMaxTokens: nat)

  /** One model summary of the service. */
  datatype Summary = Summary(
    modelId: Option<Text>, modelName: Option<Text>, providerName: Option<Text>, streaming: bool,
    outputModalities: seq<Text>, status: Option<Text>, inputModalities: seq<Text>)

  /** A listed model; its reasoning flag and input kinds depend on the summary alone. */
  datatype Model = Model(id: Text, name: Text, summary: Summary, contextWindow: nat, maxTokens: nat)

  /** `toLowerCase`, `toUpperCase`, and whether `localeCompare` puts the first name no later. */
  datatype Locale = Locale(lower: Text -> Text, upper: Text -> Text, notAfter: (Text, Text) -> bool)

  ghost predicate TotalPreorder(l: Locale) {
    && (forall a, b :: l.notAfter(a, b) || l.notAfter(b, a))
    && (forall a, b, c :: l.notAfter(a, b) && l.notAfter(b, c) ==> l.notAfter(a, c))
  }

  /** "text" */
  const TEXT_KIND: Text := [0x74, 0x65, 0x78, 0x74]
  /** "ACTIVE" */
  const ACTIVE: Text := [0x41, 0x43, 0x54, 0x49, 0x56, 0x45]
  const DOT: CodeUnit := 0x2E

  // ---- shouldIncludeSummary ----------------------------------------------------------------------

  /** The part of an id before its first dot. */
  function Vendor(id: Text): (v: Text)
    ensures v <= id && DOT !in v
    ensures |v| < |id| ==> id[|v|] == DOT
  {
    if id == [] || id[0] == DOT then [] else [id[0]] + Vendor(id[1..])
  }

  /** The provider a summary names, or the vendor part of its id. */
  function ProviderOf(l: Locale, s: Summary): Text {
    var name := if s.providerName.Some? then s.providerName.value
                else if s.modelId.Some? then Vendor(s.modelId.value) else [];
    if name == [] then [] else Canonical(l.lower, name)
  }

  predicate MatchesProviderFilter(l: Locale, s: Summary, filter: seq<Text>) {
    filter == [] || (ProviderOf(l, s) != [] && ProviderOf(l, s) in filter)
  }

  predicate Usable(l: Locale, s: Summary) {
    && s.modelId.Some? && Trim(s.modelId.value) != []
    && s.streaming
    && (exists k :: 0 <= k < |s.outputModalities| && l.lower(s.outputModalities[k]) == TEXT_KIND)
    && s.status.Some? && l.upper(s.status.value) == ACTIVE
  }

  predicate ShouldIncludeSummary(l: Locale, s: Summary, filter: seq<Text>) {
    Usable(l, s) && MatchesProviderFilter(l, s, filter)
  }

  function ToModelDefinition(s: Summary, key: Key): Model {
    var id := if s.modelId.Some? then Trim(s.modelId.value) else [];
    var name := if s.modelName.Some? then Trim(s.modelName.value) else [];
    Model(id, if name == [] then id else name, s, key.defaultContextWindow, key.defaultMaxTokens)
  }

  // ---- the listing -----------------------------------------------------------------------------------

  function Included(l: Locale, key: Key, summaries: seq<Summary>): seq<Model> {
    if summaries == [] then []
    else
      var rest, s := Included(l, key, summaries[..|summaries| - 1]), summaries[|summaries| - 1];
      if ShouldIncludeSummary(l, s, key.providerFilter) then rest + [ToModelDefinition(s, key)] else rest
  }

  /** Puts a model after every one whose name is no later than its own. */
  function Place(l: Locale, sorted: seq<Model>, m: Model): seq<Model> {
    if sorted == [] || l.notAfter(sorted[|sorted| - 1].name, m.name) then sorted + [m]
    else Place(l, sorted[..|sorted| - 1], m) + [sorted[|sorted| - 1]]
  }

  /** The stable sort by name. */
  function Sorted(l: Locale, models: seq<Model>): seq<Model> {
    if models == [] then [] else Place(l, Sorted(l, models[..|models| - 1]), models[|models| - 1])
  }

  function Listing(l: Locale, key: Key, summaries: seq<Summary>): seq<Model> {
    Sorted(l, Included(l, key, summaries))
  }

  ghost predicate InOrder(l: Locale, models: seq<Model>) {
    forall i, j :: 0 <= i < j < |models| ==> l.notAfter(models[i].name, models[j].name)
  }

  lemma {:induction false} PlaceKeeps(l: Locale, sorted: seq<Model>, m: Model)
    requires TotalPreorder(l) && InOrder(l, sorted)
    ensures InOrder(l, Place(l, sorted, m)) && multiset(Place(l, sorted, m)) == multiset(sorted) + multiset{m}
    decreases |sorted|
  {
    if sorted != [] {
      var rest, last := sorted[..|sorted| - 1], sorted[|sorted| - 1];
      assert sorted == rest + [last];
      if l.notAfter(last.name, m.name) {
        forall i | 0 <= i < |sorted| ensures l.notAfter(sorted[i].name, m.name) {
          assert i < |sorted| - 1 ==> l.notAfter(sorted[i].name, last.name);
        }
      } else {
        PlaceKeeps(l, rest, m);
        PlacedBefore(l, rest, m, last);
      }
    }
  }

  lemma PlacedBefore(l: Locale, rest: seq<Model>, m: Model, last: Model)
    requires TotalPreorder(l) && InOrder(l, rest + [last]) && InOrder(l, Place(l, rest, m))
    requires multiset(Place(l, rest, m)) == multiset(rest) + multiset{m} && !l.notAfter(last.name, m.name)
    ensures InOrder(l, Place(l, rest, m) + [last])
  {
    hide Place;
    var placed := Place(l, rest, m);
    assert l.notAfter(last.name, m.name) || l.notAfter(m.name, last.name);
    assert (rest + [last])[|rest|] == last;
    forall i | 0 <= i < |placed| ensures l.notAfter(placed[i].name, last.name) {
      assert placed[i] in multiset(placed);
      if placed[i] != m {
        assert placed[i] in multiset(rest);
        var k :| 0 <= k < |rest| && rest[k] == placed[i];
        assert (rest + [last])[k] == rest[k];
      }
    }
  }

  lemma SortedStep(l: Locale, rest: seq<Model>, last: Model)
    ensures Sorted(l, rest + [last]) == Place(l, Sorted(l, rest), last)
  {
    hide Place;
    assert (rest + [last])[..|rest|] == rest;
  }

  /** The listing is in name order and holds the included models, each as often as it was included. */
  lemma {:induction false} SortedKeeps(l: Locale, models: seq<Model>)
    requires TotalPreorder(l)
    ensures InOrder(l, Sorted(l, models)) && multiset(Sorted(l, models)) == multiset(models)
    decreases |models|
  {
    if models != [] {
      hide *;
      var rest, last := models[..|models| - 1], models[|models| - 1];
      assert models == rest + [last];
      SortedStep(l, rest, last);
      SortedKeeps(l, rest);
      PlaceKeeps(l, Sorted(l, rest), last);
    } else {
      assert InOrder(l, []);
    }
  }

  method ListModels(l: Locale, key: Key, summaries: seq<Summary>) returns (models: seq<Model>)
    ensures models == Listing(l, key, summaries)
  {
    hide ShouldIncludeSummary, ToModelDefinition, Sorted;
    var discovered: seq<Model> := [];
    for i := 0 to |summaries|
      invariant discovered == Included(l, key, summaries[..i])
    {
      assert summaries[..i + 1][..i] == summaries[..i];
      if !ShouldIncludeSummary(l, summaries[i], key.providerFilter) {
        continue;
      }
      discovered := discovered + [ToModelDefinition(summaries[i], key)];
    }
    assert summaries[..|summaries|] == summaries;
    models := Sorted(l, discovered);
  }

  lemma {:induction false} IncludedAre(l: Locale, key: Key, summaries: seq<Summary>, m: Model)
    ensures m in Included(l, key, summaries)
       <==> exists i :: 0 <= i < |summaries| && ShouldIncludeSummary(l, summaries[i], key.providerFilter)
                        && m == ToModelDefinition(summaries[i], key)
    decreases |summaries|
  {
    hide ShouldIncludeSummary, ToModelDefinition;
    if summaries != [] {
      IncludedAre(l, key, summaries[..|summaries| - 1], m);
      var rest := summaries[..|summaries| - 1];
      assert forall i {:trigger summaries[i]} :: 0 <= i < |rest| ==> summaries[i] == rest[i];
    }
  }

  /** Under a configured filter a summary is listed exactly when it is usable and the filter names no
      provider or names its provider: order, repetition, case and white space do not matter. */
  lemma ListedExactly(l: Locale, key: Key, filter: seq<Text>, summaries: seq<Summary>, m: Model)
    requires TotalPreorder(l) && key.providerFilter == NormalizeProviderFilter(l.lower, filter)
    ensures InOrder(l, Listing(l, key, summaries))
    ensures m in Listing(l, key, summaries)
       <==> exists i :: 0 <= i < |summaries| && Usable(l, summaries[i])
                        && (Named(l.lower, filter) == {} || ProviderOf(l, summaries[i]) in Named(l.lower, filter))
                        && m == ToModelDefinition(summaries[i], key)
  {
    SortedKeeps(l, Included(l, key, summaries));
    InMultiset(Included(l, key, summaries), m);
    InMultiset(Listing(l, key, summaries), m);
    IncludedAre(l, key, summaries, m);
    forall s ensures MatchesProviderFilter(l, s, key.providerFilter)
                <==> Named(l.lower, filter) == {} || ProviderOf(l, s) in Named(l.lower, filter) {
      MatchesNamed(l, s, filter);
    }
    hide Usable, MatchesProviderFilter, ToModelDefinition, Included, Sorted, Named, NormalizeProviderFilter,
        ProviderOf, InOrder;
  }

  lemma InMultiset(models: seq<Model>, m: Model)
    ensures m in multiset(models) <==> m in models
  {
  }

  lemma MatchesNamed(l: Locale, s: Summary, filter: seq<Text>)
    ensures MatchesProviderFilter(l, s, NormalizeProviderFilter(l.lower, filter))
       <==> Named(l.lower, filter) == {} || ProviderOf(l, s) in Named(l.lower, filter)
  {
    NormalizedIsSorted(l.lower, filter);
    NoBlankNames(l.lower, filter);
    hide ProviderOf, Named, NormalizeProviderFilter, StrictlySorted;
    var normalized := NormalizeProviderFilter(l.lower, filter);
    if normalized != [] {
      assert normalized[0] in normalized;
    }
  }

  lemma NoBlankNames(lower: Text -> Text, filter: seq<Text>)
    ensures [] !in Named(lower, filter)
  {
  }

  // ---- the listing in full -----------------------------------------------------------------------

  /** The summary has an id, streams, puts out text and is active, and the model carries its trimmed id
      and name, or the id where the name is blank, with the configured limits. */
  ghost predicate IsModelOf(l: Locale, key: Key, s: Summary, m: Model) {
    && s.modelId.Some? && !AllWhitespace(s.modelId.value)
    && s.streaming
    && (exists k :: 0 <= k < |s.outputModalities| && l.lower(s.outputModalities[k]) == [0x74, 0x65, 0x78, 0x74])
    && s.status.Some? && l.upper(s.status.value) == [0x41, 0x43, 0x54, 0x49, 0x56, 0x45]
    && m.id == Trim(s.modelId.value)
    && m.name == (if s.modelName.Some? && !AllWhitespace(s.modelName.value) then Trim(s.modelName.value) else m.id)
    && m.summary == s && m.contextWindow == key.defaultContextWindow && m.maxTokens == key.defaultMaxTokens
  }

  /** The filter entry is not blank and names the summary's provider, or, when it has none, the part of its
      id before the first dot, up to case and outer white space. */
  ghost predicate NamesProvider(l: Locale, entry: Text, s: Summary) {
    && l.lower(Trim(entry)) != []
    && if s.providerName.Some? then l.lower(Trim(entry)) == l.lower(Trim(s.providerName.value))
       else s.modelId.Some? && exists v :: IsVendor(v, s.modelId.value) && l.lower(Trim(entry)) == l.lower(Trim(v))
  }

  predicate IsVendor(v: Text, id: Text) { v <= id && DOT !in v && (v == id || id[|v|] == 0x2E) }

  lemma VendorIs(id: Text, v: Text)
    ensures IsVendor(v, id) <==> v == Vendor(id)
  {
    var w := Vendor(id);
    assert w == id[..|w|];
    if IsVendor(v, id) {
      assert v == id[..|v|];
      assert forall k :: 0 <= k < |v| ==> id[k] == v[k];
      assert forall k :: 0 <= k < |w| ==> id[k] == w[k];
      assert |v| == |w|;
    }
  }

  ghost predicate NamesNobody(l: Locale, filter: seq<Text>) {
    forall entry :: entry in filter ==> l.lower(Trim(entry)) == []
  }

  ghost predicate NamesProviderOf(l: Locale, filter: seq<Text>, s: Summary) {
    exists entry :: entry in filter && NamesProvider(l, entry, s)
  }

  lemma UsableModel(l: Locale, key: Key, s: Summary, m: Model)
    ensures IsModelOf(l, key, s, m) <==> Usable(l, s) && m == ToModelDefinition(s, key)
  {
    assert forall t: Text :: Trim(t) == [] <==> AllWhitespace(t);
    hide AllWhitespace, Trim;
  }

  lemma EntryNames(l: Locale, entry: Text, s: Summary)
    requires l.lower([]) == []
    ensures NamesProvider(l, entry, s)
       <==> Canonical(l.lower, entry) != [] && Canonical(l.lower, entry) == ProviderOf(l, s)
  {
    if s.modelId.Some? {
      var id := s.modelId.value;
      forall v ensures IsVendor(v, id) <==> v == Vendor(id) {
        VendorIs(id, v);
      }
    }
    TrimNothing();
    hide IsVendor, Vendor, Trim;
  }

  lemma TrimNothing()
    ensures Trim([]) == []
  {
  }

  lemma FilterNames(l: Locale, filter: seq<Text>, s: Summary)
    requires l.lower([]) == []
    ensures ProviderOf(l, s) in Named(l.lower, filter) <==> NamesProviderOf(l, filter, s)
    ensures Named(l.lower, filter) == {} <==> NamesNobody(l, filter)
  {
    forall entry
      ensures NamesProvider(l, entry, s)
         <==> Canonical(l.lower, entry) != [] && Canonical(l.lower, entry) == ProviderOf(l, s)
    {
      EntryNames(l, entry, s);
    }
    if entry :| entry in filter && l.lower(Trim(entry)) != [] {
      assert Canonical(l.lower, entry) in Named(l.lower, filter);
    }
    hide NamesProvider, ProviderOf, Trim;
  }

  /** The listing holds exactly the models of the usable summaries whose provider the filter names, or of
      all usable ones when the filter names none, and holds them in name order. */
  lemma ListedInFull(l: Locale, key: Key, filter: seq<Text>, summaries: seq<Summary>, m: Model)
    requires TotalPreorder(l) && l.lower([]) == [] && key.providerFilter == NormalizeProviderFilter(l.lower, filter)
    ensures InOrder(l, Listing(l, key, summaries))
    ensures m in Listing(l, key, summaries)
       <==> exists i :: 0 <= i < |summaries| && IsModelOf(l, key, summaries[i], m)
              && (NamesNobody(l, filter) || NamesProviderOf(l, filter, summaries[i]))
  {
    hide *;
    ListedExactly(l, key, filter, summaries, m);
    forall i | 0 <= i < |summaries|
      ensures IsModelOf(l, key, summaries[i], m)
         <==> Usable(l, summaries[i]) && m == ToModelDefinition(summaries[i], key)
      ensures ProviderOf(l, summaries[i]) in Named(l.lower, filter) <==> NamesProviderOf(l, filter, summaries[i])
      ensures Named(l.lower, filter) == {} <==> NamesNobody(l, filter)
    {
      UsableModel(l, key, summaries[i], m);
      FilterNames(l, filter, summaries[i]);
    }
  }

  // ---- equal names keep their order ---------------------------------------------------------------

  /** The models whose name is neither before nor after `name`. */
  function Alike(l: Locale, models: seq<Model>, name: Text): seq<Model> {
    if models == [] then []
    else
      Alike(l, models[..|models| - 1], name)
      + if l.notAfter(models[|models| - 1].name, name) && l.notAfter(name, models[|models| - 1].name)
        then [models[|models| - 1]] else []
  }

  lemma AlikeSnoc(l: Locale, models: seq<Model>, m: Model, name: Text)
    ensures Alike(l, models + [m], name)
         == Alike(l, models, name) + if l.notAfter(m.name, name) && l.notAfter(name, m.name) then [m] else []
  {
    assert (models + [m])[..|models|] == models;
  }

  lemma PlaceStep(l: Locale, rest: seq<Model>, last: Model, m: Model)
    ensures Place(l, rest + [last], m)
         == if l.notAfter(last.name, m.name) then rest + [last] + [m] else Place(l, rest, m) + [last]
  {
    assert (rest + [last])[..|rest|] == rest;
  }

  lemma PlaceNothing(l: Locale, sorted: seq<Model>, m: Model)
    requires sorted == []
    ensures Place(l, sorted, m) == sorted + [m]
  {
  }

  /** A model that comes after another is not alike with what that one is alike with. */
  lemma NotBothAlike(l: Locale, last: Model, m: Model, name: Text)
    requires TotalPreorder(l) && !l.notAfter(last.name, m.name)
    ensures !(l.notAfter(last.name, name) && l.notAfter(name, last.name)
              && l.notAfter(m.name, name) && l.notAfter(name, m.name))
  {
  }

  lemma SwapAlike(l: Locale, models: seq<Model>, a: Model, b: Model, name: Text)
    requires TotalPreorder(l) && !l.notAfter(a.name, b.name)
    ensures Alike(l, models + [a] + [b], name) == Alike(l, models + [b] + [a], name)
  {
    NotBothAlike(l, a, b, name);
    hide Alike, TotalPreorder;
    AlikeSnoc(l, models, a, name);
    AlikeSnoc(l, models, b, name);
    AlikeSnoc(l, models + [a], b, name);
    AlikeSnoc(l, models + [b], a, name);
  }

  lemma AlikeWithLast(l: Locale, a: seq<Model>, b: seq<Model>, last: Model, name: Text)
    requires Alike(l, a, name) == Alike(l, b, name)
    ensures Alike(l, a + [last], name) == Alike(l, b + [last], name)
  {
    hide Alike;
    AlikeSnoc(l, a, last, name);
    AlikeSnoc(l, b, last, name);
  }

  lemma {:induction false} PlacedAlike(l: Locale, sorted: seq<Model>, m: Model, name: Text)
    requires TotalPreorder(l)
    ensures Alike(l, Place(l, sorted, m), name) == Alike(l, sorted + [m], name)
    decreases |sorted|
  {
    hide *;
    if sorted == [] {
      PlaceNothing(l, sorted, m);
    } else {
      var rest, last := sorted[..|sorted| - 1], sorted[|sorted| - 1];
      assert sorted == rest + [last];
      PlaceStep(l, rest, last, m);
      if !l.notAfter(last.name, m.name) {
        PlacedAlike(l, rest, m, name);
        AlikeWithLast(l, Place(l, rest, m), rest + [m], last, name);
        SwapAlike(l, rest, last, m, name);
      }
    }
  }

  lemma SortedNothing(l: Locale, models: seq<Model>)
    requires models == []
    ensures Sorted(l, models) == models
  {
  }

  /** The sort is stable: models with equal names stay in the order of their summaries. */
  lemma {:induction false} SortedIsStable(l: Locale, models: seq<Model>, name: Text)
    requires TotalPreorder(l)
    ensures Alike(l, Sorted(l, models), name) == Alike(l, models, name)
    decreases |models|
  {
    hide *;
    if models == [] {
      SortedNothing(l, models);
    } else {
      var rest, last := models[..|models| - 1], models[|models| - 1];
      assert models == rest + [last];
      SortedStep(l, rest, last);
      SortedIsStable(l, rest, name);
      PlacedAlike(l, Sorted(l, rest), last, name);
      AlikeWithLast(l, Sorted(l, rest), rest, last, name);
    }
  }
}
