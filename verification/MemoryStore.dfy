/** The duplicate check, forgetting and auto-capture of the memory plugin
    (extensions/memory-lancedb/index.ts), over an exact vector search. */
module MemoryStore {
  import opened JsText
  import opened Sequences
  import opened VectorSearch

  const DUPLICATE_SCORE := 0.95
  const MATCH_SCORE := 0.7
  const FORGET_SCORE := 0.9
  const CAPTURES_PER_RUN := 3

  datatype Entry = Entry(id: Text, text: Text, vector: Vector, importance: real, category: Text, createdAt: real)

  datatype Found = Found(entry: Entry, score: real)

  ghost predicate IsMetric(d: (Vector, Vector) -> real) {
    forall a, b :: d(a, b) >= 0.0 && d(a, b) == d(b, a)
  }

  type Metric = d: (Vector, Vector) -> real | IsMetric(d) witness (a: Vector, b: Vector) => 0.0

  type Index = (seq<Entry>, Vector, nat) -> seq<nat>

  function Distances(d: Metric, table: seq<Entry>, v: Vector): (ds: seq<real>)
    ensures |ds| == |table| && NonNegative(ds)
  {
    assert forall i :: 0 <= i < |table| ==> d(table[i].vector, v) >= 0.0;
    seq(|table|, i requires 0 <= i < |table| => d(table[i].vector, v))
  }

  /** The search returns the nearest rows of every table. */
  ghost predicate ExactSearch(d: Metric, index: Index) {
    forall table: seq<Entry>, v: Vector, limit: nat :: Nearest(Distances(d, table, v), limit, index(table, v, limit))
  }

  /** Such an index exists for every metric. */
  lemma ScanningIsExact(d: Metric)
    ensures ExactSearch(d, (table: seq<Entry>, v: Vector, limit: nat) => Scan(Distances(d, table, v), limit))
  {
    hide Scan, Nearest, Distances;
    forall table: seq<Entry>, v: Vector, limit: nat
      ensures Nearest(Distances(d, table, v), limit, Scan(Distances(d, table, v), limit))
    {
      ScanIsNearest(Distances(d, table, v), limit);
    }
  }

  function Similarity(d: Metric, e: Entry, v: Vector): real { Score(d(e.vector, v)) }

  // ---- what the operations mean ------------------------------------------------------------------------

  /** Some entry is at least that similar to the vector. */
  ghost predicate Known(d: Metric, table: seq<Entry>, v: Vector, minScore: real) {
    exists i :: 0 <= i < |table| && Similarity(d, table[i], v) >= minScore
  }

  /** The table after `memory_store` has checked for a duplicate. */
  ghost function Stored(d: Metric, table: seq<Entry>, e: Entry): seq<Entry> {
    if Known(d, table, e.vector, DUPLICATE_SCORE) then table else table + [e]
  }

  function Without(table: seq<Entry>, id: Text): seq<Entry> {
    if table == [] then []
    else Without(table[..|table| - 1], id) + if table[|table| - 1].id == id then [] else [table[|table| - 1]]
  }

  /** A text to capture, with the entry it would become, unless embedding it fails. */
  datatype Capture = Embedded(entry: Entry) | EmbeddingFailed

  function FirstCaptures(toCapture: seq<Capture>): seq<Capture> {
    if |toCapture| <= CAPTURES_PER_RUN then toCapture else toCapture[..CAPTURES_PER_RUN]
  }

  /** The captures stored one after the other, up to the first failure. */
  ghost function Captured(d: Metric, table: seq<Entry>, captures: seq<Capture>): seq<Entry>
    decreases |captures|
  {
    if captures == [] || captures[0].EmbeddingFailed? then table
    else Captured(d, Stored(d, table, captures[0].entry), captures[1..])
  }

  /** Entry `i` matches the query strongly and no other entry matches it at all. */
  ghost predicate OnlyMatch(d: Metric, table: seq<Entry>, v: Vector, i: nat) {
    && i < |table| && Similarity(d, table[i], v) > FORGET_SCORE
    && forall j :: 0 <= j < |table| && j != i ==> Similarity(d, table[j], v) < MATCH_SCORE
  }

  ghost function Forgotten(d: Metric, table: seq<Entry>, v: Vector): seq<Entry> {
    if exists i: nat :: OnlyMatch(d, table, v, i) then
      var i: nat :| OnlyMatch(d, table, v, i);
      Without(table, table[i].id)
    else table
  }

  // ---- the same in distances ----------------------------------------------------------------------------------

  /** Close enough to count as a duplicate: a score of at least 0.95. */
  predicate Duplicates(d: Metric, e: Entry, v: Vector) { 19.0 * d(e.vector, v) <= 1.0 }

  /** Close enough to be found by a query: a score of at least 0.7. */
  predicate Matches(d: Metric, e: Entry, v: Vector) { 7.0 * d(e.vector, v) <= 3.0 }

  /** Close enough to be deleted unasked: a score above 0.9. */
  predicate MatchesStrongly(d: Metric, e: Entry, v: Vector) { 9.0 * d(e.vector, v) < 1.0 }

  lemma Closeness(d: Metric, e: Entry, v: Vector)
    ensures Similarity(d, e, v) >= DUPLICATE_SCORE <==> Duplicates(d, e, v)
    ensures Similarity(d, e, v) >= MATCH_SCORE <==> Matches(d, e, v)
    ensures Similarity(d, e, v) > FORGET_SCORE <==> MatchesStrongly(d, e, v)
  {
    ScoreThresholds(d(e.vector, v));
    hide Score;
  }

  ghost predicate SomeDuplicates(d: Metric, table: seq<Entry>, v: Vector) {
    exists e :: e in table && Duplicates(d, e, v)
  }

  ghost predicate SomeMatches(d: Metric, table: seq<Entry>, v: Vector) {
    exists e :: e in table && Matches(d, e, v)
  }

  /** Entry `i` matches strongly and is the only one that matches. */
  ghost predicate OnlyMatches(d: Metric, table: seq<Entry>, v: Vector, i: nat) {
    && i < |table| && MatchesStrongly(d, table[i], v)
    && forall j :: 0 <= j < |table| && j != i ==> !Matches(d, table[j], v)
  }

  lemma KnownByDistance(d: Metric, table: seq<Entry>, v: Vector)
    ensures Known(d, table, v, DUPLICATE_SCORE) <==> SomeDuplicates(d, table, v)
    ensures Known(d, table, v, MATCH_SCORE) <==> SomeMatches(d, table, v)
    ensures forall i: nat :: OnlyMatch(d, table, v, i) <==> OnlyMatches(d, table, v, i)
  {
    forall e: Entry
      ensures Similarity(d, e, v) >= DUPLICATE_SCORE <==> Duplicates(d, e, v)
      ensures Similarity(d, e, v) >= MATCH_SCORE <==> Matches(d, e, v)
      ensures Similarity(d, e, v) > FORGET_SCORE <==> MatchesStrongly(d, e, v)
    {
      Closeness(d, e, v);
    }
    hide Similarity, Duplicates, Matches, MatchesStrongly;
  }

  // ---- identifiers -----------------------------------------------------------------------------------------

  predicate IsHex(c: CodeUnit) { 0x30 <= c <= 0x39 || 0x61 <= c <= 0x66 || 0x41 <= c <= 0x46 }

  /** Groups of 8, 4, 4, 4 and 12 hexadecimal digits with hyphens between them. */
  predicate IsUuid(id: Text) {
    && |id| == 36
    && forall i :: 0 <= i < 36 ==>
         if i == 8 || i == 13 || i == 18 || i == 23 then id[i] == 0x2D else IsHex(id[i])
  }

  predicate IsGroup(t: Text, n: nat) { |t| == n && forall i :: 0 <= i < n ==> IsHex(t[i]) }

  /** An identifier is accepted exactly when it is five such groups joined by hyphens. */
  lemma UuidIsGroups(id: Text)
    ensures IsUuid(id)
       <==> exists a, b, c, d, e ::
              && IsGroup(a, 8) && IsGroup(b, 4) && IsGroup(c, 4) && IsGroup(d, 4) && IsGroup(e, 12)
              && id == a + [0x2D] + b + [0x2D] + c + [0x2D] + d + [0x2D] + e
  {
    if IsUuid(id) {
      GroupsOf(id);
      var a, b, c, d, e := id[..8], id[9..13], id[14..18], id[19..23], id[24..];
      hide IsGroup, IsUuid, IsHex;
      SplitAtHyphens(id);
      assert id == a + [0x2D] + b + [0x2D] + c + [0x2D] + d + [0x2D] + e;
    }
    if a, b, c, d, e :|
        && IsGroup(a, 8) && IsGroup(b, 4) && IsGroup(c, 4) && IsGroup(d, 4) && IsGroup(e, 12)
        && id == a + [0x2D] + b + [0x2D] + c + [0x2D] + d + [0x2D] + e
    {
      hide IsHex;
      JoinedGroups(a, b, c, d, e);
    }
  }

  lemma GroupsOf(id: Text)
    requires IsUuid(id)
    ensures |id| == 36 && IsGroup(id[..8], 8) && IsGroup(id[9..13], 4) && IsGroup(id[14..18], 4)
    ensures IsGroup(id[19..23], 4) && IsGroup(id[24..], 12)
    ensures id[8] == 0x2D && id[13] == 0x2D && id[18] == 0x2D && id[23] == 0x2D
  {
    hide IsHex;
  }

  lemma SplitAtHyphens(id: Text)
    requires |id| == 36 && id[8] == 0x2D && id[13] == 0x2D && id[18] == 0x2D && id[23] == 0x2D
    ensures id == id[..8] + [0x2D] + id[9..13] + [0x2D] + id[14..18] + [0x2D] + id[19..23] + [0x2D] + id[24..]
  {
    HyphenAt(id, 8);
    HyphenAt(id[9..], 4);
    HyphenAt(id[14..], 4);
    HyphenAt(id[19..], 4);
    assert id[9..][..4] == id[9..13] && id[9..][5..] == id[14..];
    assert id[14..][..4] == id[14..18] && id[14..][5..] == id[19..];
    assert id[19..][..4] == id[19..23] && id[19..][5..] == id[24..];
    Flatten(id[..8], id[9..13], id[14..18], id[19..23], id[24..], [0x2D]);
  }

  lemma Flatten(a: Text, b: Text, c: Text, d: Text, e: Text, h: Text)
    ensures a + h + (b + h + (c + h + (d + h + e))) == a + h + b + h + c + h + d + h + e
  {
    FlattenOne(c + h, d + h, e);
    FlattenOne(b + h, c + h + d + h, e);
    FlattenOne(a + h, b + h + c + h + d + h, e);
    assert c + h + (d + h) == c + h + d + h && b + h + (c + h + d + h) == b + h + c + h + d + h;
    assert a + h + (b + h + c + h + d + h) == a + h + b + h + c + h + d + h;
  }

  lemma FlattenOne(x: Text, y: Text, z: Text)
    ensures x + (y + z) == (x + y) + z
  {
  }

  lemma HyphenAt(t: Text, k: nat)
    requires k < |t| && t[k] == 0x2D
    ensures t == t[..k] + [0x2D] + t[k + 1..]
  {
  }

  lemma Peel(x: Text, rest: Text)
    ensures var t := x + [0x2D] + rest; t[..|x|] == x && t[|x|] == 0x2D && t[|x| + 1..] == rest
  {
  }

  lemma SlicesOf(a: Text, b: Text, c: Text, d: Text, e: Text)
    requires |a| == 8 && |b| == |c| == |d| == 4 && |e| == 12
    ensures var id := a + [0x2D] + b + [0x2D] + c + [0x2D] + d + [0x2D] + e;
            && |id| == 36 && id[..8] == a && id[9..13] == b && id[14..18] == c && id[19..23] == d && id[24..] == e
            && id[8] == 0x2D && id[13] == 0x2D && id[18] == 0x2D && id[23] == 0x2D
  {
    Flatten(a, b, c, d, e, [0x2D]);
    var t3 := d + [0x2D] + e;
    var t2 := c + [0x2D] + t3;
    var t1 := b + [0x2D] + t2;
    var id := a + [0x2D] + t1;
    Peel(a, t1);
    Peel(b, t2);
    Peel(c, t3);
    Peel(d, e);
    assert id[9..] == t1 && id[14..] == t1[5..] && id[19..] == t2[5..] && id[24..] == t3[5..];
    assert id[9..13] == t1[..4] && id[14..18] == t2[..4] && id[19..23] == t3[..4];
    assert id[13] == t1[4] && id[18] == t2[4] && id[23] == t3[4];
  }

  lemma JoinedGroups(a: Text, b: Text, c: Text, d: Text, e: Text)
    requires IsGroup(a, 8) && IsGroup(b, 4) && IsGroup(c, 4) && IsGroup(d, 4) && IsGroup(e, 12)
    ensures IsUuid(a + [0x2D] + b + [0x2D] + c + [0x2D] + d + [0x2D] + e)
  {
    SlicesOf(a, b, c, d, e);
    GroupsAre(a + [0x2D] + b + [0x2D] + c + [0x2D] + d + [0x2D] + e);
  }

  lemma GroupsAre(id: Text)
    requires |id| == 36 && IsGroup(id[..8], 8) && IsGroup(id[9..13], 4) && IsGroup(id[14..18], 4)
    requires IsGroup(id[19..23], 4) && IsGroup(id[24..], 12)
    requires id[8] == 0x2D && id[13] == 0x2D && id[18] == 0x2D && id[23] == 0x2D
    ensures IsUuid(id)
  {
    hide IsHex;
    forall i | 0 <= i < 36 && i != 8 && i != 13 && i != 18 && i != 23 ensures IsHex(id[i]) {
      if i < 8 { assert id[i] == id[..8][i]; }
      else if i < 13 { assert id[i] == id[9..13][i - 9]; }
      else if i < 18 { assert id[i] == id[14..18][i - 14]; }
      else if i < 23 { assert id[i] == id[19..23][i - 19]; }
      else { assert id[i] == id[24..][i - 24]; }
    }
  }

  ghost predicate AllUuids(table: seq<Entry>) { forall i :: 0 <= i < |table| ==> IsUuid(table[i].id) }

  lemma {:induction false} WithoutKeepsUuids(table: seq<Entry>, id: Text)
    requires AllUuids(table)
    ensures AllUuids(Without(table, id))
  {
    hide IsUuid;
    if table != [] { WithoutKeepsUuids(table[..|table| - 1], id); }
  }

  // ---- the plugin --------------------------------------------------------------------------------------------

  datatype StoreOutcome = Created(id: Text) | Duplicate(existing: Entry)

  datatype ForgetOutcome =
    | Deleted(id: Text)
    | InvalidId(id: Text)
    | NothingFound
    | Candidates(found: seq<Found>)
    | MissingParam

  /** A filtered search lists rows as entries with their scores. */
  ghost predicate Lists(d: Metric, table: seq<Entry>, v: Vector, rows: seq<nat>, results: seq<Found>) {
    && |results| == |rows|
    && forall k :: 0 <= k < |rows| ==>
         rows[k] < |table| && results[k] == Found(table[rows[k]], Similarity(d, table[rows[k]], v))
  }

  /** What a filtered search with a positive limit returns: entries that reach the score; all of them
      when fewer than the limit come back; and a most similar entry first. */
  ghost predicate Answers(d: Metric, table: seq<Entry>, v: Vector, limit: nat, minScore: real, rows: seq<nat>) {
    && |rows| <= limit && Distinct(rows)
    && (forall k :: 0 <= k < |rows| ==> rows[k] < |table| && Similarity(d, table[rows[k]], v) >= minScore)
    && (|rows| < limit ==> forall i :: 0 <= i < |table| && Similarity(d, table[i], v) >= minScore ==> i in rows)
    && (rows != [] ==> forall i :: 0 <= i < |table| ==> Similarity(d, table[i], v) <= Similarity(d, table[rows[0]], v))
  }

  /** The results of a filtered search over the table. */
  ghost predicate IsAnswer(d: Metric, table: seq<Entry>, v: Vector, limit: nat, minScore: real, results: seq<Found>) {
    exists rows :: Lists(d, table, v, rows, results) && Answers(d, table, v, limit, minScore, rows)
  }

  lemma SearchAnswers(d: Metric, index: Index, table: seq<Entry>, v: Vector, limit: nat, minScore: real)
    requires ExactSearch(d, index) && limit > 0
    ensures var ds := Distances(d, table, v);
            && InRange(ds, index(table, v, limit))
            && Answers(d, table, v, limit, minScore, Kept(ds, index(table, v, limit), minScore))
  {
    var ds, rows := Distances(d, table, v), index(table, v, limit);
    assert Nearest(ds, limit, rows);
    SearchIsExact(ds, limit, rows, minScore);
    var kept := Kept(ds, rows, minScore);
    hide Kept, Nearest, ExactSearch;
    assert forall k :: 0 <= k < |kept| ==> kept[k] in kept;
    if kept != [] {
      forall i | 0 <= i < |table| ensures Similarity(d, table[i], v) <= Similarity(d, table[kept[0]], v) {
        CloserScoresHigher(ds[kept[0]], ds[i]);
      }
    }
    hide Score;
    assert forall i :: 0 <= i < |table| ==> Similarity(d, table[i], v) == Score(ds[i]);
  }

  lemma ListsNothing(d: Metric, table: seq<Entry>, v: Vector)
    ensures Lists(d, table, v, [], [])
  {
  }

  lemma ListsOneMore(d: Metric, table: seq<Entry>, v: Vector, rows: seq<nat>, k: nat, results: seq<Found>)
    requires k < |rows| && rows[k] < |table| && Lists(d, table, v, rows[..k], results)
    ensures Lists(d, table, v, rows[..k + 1], results + [Found(table[rows[k]], Score(Distances(d, table, v)[rows[k]]))])
  {
    hide Score;
    assert forall i :: 0 <= i < k ==> rows[..k + 1][i] == rows[..k][i];
  }

  class MemoryDB {
    const distance: Metric
    const vectorSearch: Index
    var table: seq<Entry>

    ghost predicate Valid() reads this`table { ExactSearch(distance, vectorSearch) && AllUuids(table) }

    constructor (distance: Metric, vectorSearch: Index)
      requires ExactSearch(distance, vectorSearch)
      ensures Valid() && table == [] && this.distance == distance && this.vectorSearch == vectorSearch
    {
      this.distance := distance;
      this.vectorSearch := vectorSearch;
      table := [];
    }

    method Search(v: Vector, limit: nat, minScore: real) returns (results: seq<Found>)
      requires Valid() && limit > 0
      ensures IsAnswer(distance, table, v, limit, minScore, results)
    {
      SearchAnswers(distance, vectorSearch, table, v, limit, minScore);
      var ds := Distances(distance, table, v);
      var kept := Kept(ds, vectorSearch(table, v, limit), minScore);
      hide Kept, Valid, Lists, Answers, Similarity, Distances;
      results := [];
      ListsNothing(distance, table, v);
      for k := 0 to |kept|
        invariant Lists(distance, table, v, kept[..k], results)
      {
        ListsOneMore(distance, table, v, kept, k, results);
        results := results + [Found(table[kept[k]], Score(ds[kept[k]]))];
      }
      assert kept[..|kept|] == kept;
    }

    method Store(entry: Entry)
      requires Valid() && IsUuid(entry.id)
      modifies this`table
      ensures Valid() && table == old(table) + [entry]
    {
      table := table + [entry];
    }

    method Delete(id: Text) returns (deleted: bool)
      requires Valid()
      modifies this`table
      ensures Valid() && deleted == IsUuid(id)
      ensures table == if deleted then Without(old(table), id) else old(table)
    {
      deleted := IsUuid(id);
      if deleted {
        WithoutKeepsUuids(table, id);
        table := Without(table, id);
      }
    }

    /** The `memory_store` tool: the entry is stored unless one at least 0.95 similar is there, and then
        a most similar one is named. */
    method MemoryStore(entry: Entry) returns (outcome: StoreOutcome)
      requires Valid() && IsUuid(entry.id)
      modifies this`table
      ensures Valid() && table == Stored(distance, old(table), entry)
      ensures outcome.Created? <==> !SomeDuplicates(distance, old(table), entry.vector)
      ensures outcome.Created? ==> outcome.id == entry.id && table == old(table) + [entry]
      ensures outcome.Duplicate? ==>
                && table == old(table)
                && outcome.existing in table && Duplicates(distance, outcome.existing, entry.vector)
                && forall e :: e in table ==>
                     Similarity(distance, e, entry.vector) <= Similarity(distance, outcome.existing, entry.vector)
    {
      KnownByDistance(distance, table, entry.vector);
      hide Similarity, Valid, IsUuid, SomeDuplicates, SomeMatches, OnlyMatches, Duplicates;
      var existing := Search(entry.vector, 1, DUPLICATE_SCORE);
      ghost var rows :| Lists(distance, table, entry.vector, rows, existing)
        && Answers(distance, table, entry.vector, 1, DUPLICATE_SCORE, rows);
      if |existing| > 0 {
        assert Similarity(distance, table[rows[0]], entry.vector) >= DUPLICATE_SCORE;
        Closeness(distance, existing[0].entry, entry.vector);
        return Duplicate(existing[0].entry);
      }
      Store(entry);
      outcome := Created(entry.id);
    }

    /** The `memory_forget` tool. */
    method MemoryForget(query: Option<Vector>, memoryId: Text) returns (outcome: ForgetOutcome)
      requires Valid()
      modifies this`table
      ensures Valid()
      ensures memoryId != [] ==>
                && outcome == (if IsUuid(memoryId) then Deleted(memoryId) else InvalidId(memoryId))
                && table == if IsUuid(memoryId) then Without(old(table), memoryId) else old(table)
      ensures memoryId == [] && query.Some? ==>
                && table == Forgotten(distance, old(table), query.value)
                && (outcome.Deleted? <==> exists i: nat :: OnlyMatches(distance, old(table), query.value, i))
                && (outcome.Deleted? ==>
                      && table == Without(old(table), outcome.id)
                      && exists i: nat ::
                           OnlyMatches(distance, old(table), query.value, i) && outcome.id == old(table)[i].id)
                && (!outcome.Deleted? ==> table == old(table))
                && (outcome.Candidates? ==> IsAnswer(distance, table, query.value, 5, 0.7, outcome.found))
                && (outcome == NothingFound <==> !SomeMatches(distance, old(table), query.value))
                && !outcome.InvalidId? && outcome != MissingParam
      ensures memoryId == [] && query == None ==> outcome == MissingParam && table == old(table)
    {
      if query.Some? {
        KnownByDistance(distance, table, query.value);
      }
      hide Valid, IsUuid, Similarity, Without, SomeDuplicates, SomeMatches, OnlyMatches;
      if memoryId != [] {
        var deleted := Delete(memoryId);
        return if deleted then Deleted(memoryId) else InvalidId(memoryId);
      }
      if query.Some? {
        var results := Search(query.value, 5, MATCH_SCORE);
        ghost var rows :| Lists(distance, table, query.value, rows, results)
          && Answers(distance, table, query.value, 5, MATCH_SCORE, rows);
        SingleMatch(distance, table, query.value, rows);
        if |results| == 0 {
          return NothingFound;
        }
        if |results| == 1 && results[0].score > FORGET_SCORE {
          StoredIdIsUuid(rows[0]);
          var deleted := Delete(results[0].entry.id);
          return Deleted(results[0].entry.id);
        }
        return Candidates(results);
      }
      outcome := MissingParam;
    }

    lemma StoredIdIsUuid(i: nat)
      requires Valid() && i < |table|
      ensures IsUuid(table[i].id)
    {
    }

    /** The capture loop at the end of an agent run; a failed embedding abandons the rest. */
    method AgentEnd(toCapture: seq<Capture>) returns (stored: nat)
      requires Valid() && forall i :: 0 <= i < |toCapture| && toCapture[i].Embedded? ==> IsUuid(toCapture[i].entry.id)
      modifies this`table
      ensures Valid() && table == Captured(distance, old(table), FirstCaptures(toCapture))
      ensures |table| == |old(table)| + stored && stored <= 3
    {
      hide Similarity, Valid, IsUuid, Known;
      stored := 0;
      var captures := FirstCaptures(toCapture);
      assert captures[0..] == captures;
      for i := 0 to |captures|
        invariant Valid()
        invariant Captured(distance, table, captures[i..]) == Captured(distance, old(table), captures)
        invariant |table| == |old(table)| + stored && stored <= i
      {
        assert captures[i..][0] == captures[i] && captures[i..][1..] == captures[i + 1..];
        if captures[i].EmbeddingFailed? {
          return;
        }
        var entry := captures[i].entry;
        var existing := Search(entry.vector, 1, DUPLICATE_SCORE);
        ghost var rows :| Lists(distance, table, entry.vector, rows, existing)
          && Answers(distance, table, entry.vector, 1, DUPLICATE_SCORE, rows);
        FoundIsKnown(distance, table, entry.vector, 1, DUPLICATE_SCORE, rows);
        if |existing| > 0 {
          continue;
        }
        Store(entry);
        stored := stored + 1;
      }
    }
  }

  /** A filtered search that finds nothing decides whether the vector is known. */
  lemma FoundIsKnown(d: Metric, table: seq<Entry>, v: Vector, limit: nat, minScore: real, rows: seq<nat>)
    requires Answers(d, table, v, limit, minScore, rows) && limit > 0
    ensures |rows| > 0 <==> Known(d, table, v, minScore)
  {
    hide Similarity;
    if |rows| > 0 {
      assert Similarity(d, table[rows[0]], v) >= minScore;
    }
  }

  /** A search for five rows decides whether exactly one entry matches. */
  lemma SingleMatch(d: Metric, table: seq<Entry>, v: Vector, rows: seq<nat>)
    requires Answers(d, table, v, 5, MATCH_SCORE, rows)
    ensures |rows| == 0 <==> !Known(d, table, v, MATCH_SCORE)
    ensures |rows| == 1 && Similarity(d, table[rows[0]], v) > FORGET_SCORE
       <==> exists i: nat :: OnlyMatch(d, table, v, i)
    ensures |rows| == 1 && Similarity(d, table[rows[0]], v) > FORGET_SCORE
        ==> Forgotten(d, table, v) == Without(table, table[rows[0]].id)
  {
    hide Similarity, Without;
    FoundIsKnown(d, table, v, 5, MATCH_SCORE, rows);
    if |rows| == 1 && Similarity(d, table[rows[0]], v) > FORGET_SCORE {
      assert OnlyMatch(d, table, v, rows[0]);
      OnlyOneMatch(d, table, v, rows[0]);
    }
    assert |rows| > 1 ==> rows[0] != rows[1];
    if i: nat :| OnlyMatch(d, table, v, i) {
      assert |rows| > 0 by { assert Similarity(d, table[i], v) >= MATCH_SCORE; }
      assert forall k :: 0 <= k < |rows| ==> rows[k] == i;
      assert |rows| == 1 && rows[0] == i;
    }
  }

  lemma OnlyOneMatch(d: Metric, table: seq<Entry>, v: Vector, i: nat)
    requires OnlyMatch(d, table, v, i)
    ensures Forgotten(d, table, v) == Without(table, table[i].id)
  {
    hide Similarity, Without;
    assert forall j: nat :: OnlyMatch(d, table, v, j) ==> j == i;
  }

  // ---- separation over whole runs --------------------------------------------------------------------------

  ghost predicate Apart(d: Metric, a: Entry, b: Entry) { Similarity(d, a, b.vector) < DUPLICATE_SCORE }

  /** No two stored entries are duplicates of each other. */
  ghost predicate Separated(d: Metric, table: seq<Entry>) {
    forall i, j :: 0 <= i < |table| && 0 <= j < |table| && i != j ==> Apart(d, table[i], table[j])
  }

  lemma ApartIsSymmetric(d: Metric, a: Entry, b: Entry)
    ensures Apart(d, a, b) <==> Apart(d, b, a)
  {
    assert d(a.vector, b.vector) == d(b.vector, a.vector);
  }

  lemma SeparatedSnoc(d: Metric, table: seq<Entry>, e: Entry)
    ensures Separated(d, table + [e])
       <==> Separated(d, table) && forall i :: 0 <= i < |table| ==> Apart(d, table[i], e)
  {
    hide Apart;
    var all := table + [e];
    assert all[|table|] == e && forall i :: 0 <= i < |table| ==> all[i] == table[i];
    forall i | 0 <= i < |table| ensures Apart(d, table[i], e) <==> Apart(d, e, table[i]) {
      ApartIsSymmetric(d, table[i], e);
    }
  }

  lemma StoredIsSeparated(d: Metric, table: seq<Entry>, e: Entry)
    requires Separated(d, table)
    ensures Separated(d, Stored(d, table, e))
  {
    SeparatedSnoc(d, table, e);
    hide Separated, Similarity;
  }

  lemma {:induction false} CapturedIsSeparated(d: Metric, table: seq<Entry>, captures: seq<Capture>)
    requires Separated(d, table)
    ensures Separated(d, Captured(d, table, captures))
    decreases |captures|
  {
    hide Separated, Stored;
    if captures != [] && captures[0].Embedded? {
      StoredIsSeparated(d, table, captures[0].entry);
      CapturedIsSeparated(d, Stored(d, table, captures[0].entry), captures[1..]);
    }
  }

  /** Deleting an identifier removes the entries that carry it and no others. */
  lemma {:induction false} WithoutExactly(table: seq<Entry>, id: Text)
    ensures forall e :: e in Without(table, id) <==> e in table && e.id != id
    decreases |table|
  {
    if table != [] {
      var rest, last := table[..|table| - 1], table[|table| - 1];
      WithoutExactly(rest, id);
      assert table == rest + [last];
    }
  }

  lemma {:induction false} WithoutIsSeparated(d: Metric, table: seq<Entry>, id: Text)
    requires Separated(d, table)
    ensures Separated(d, Without(table, id))
    decreases |table|
  {
    if table != [] {
      var rest, e := table[..|table| - 1], table[|table| - 1];
      assert table == rest + [e];
      SeparatedSnoc(d, rest, e);
      WithoutIsSeparated(d, rest, id);
      WithoutExactly(rest, id);
      SeparatedSnoc(d, Without(rest, id), e);
      hide Separated, Apart;
      forall i | 0 <= i < |Without(rest, id)| ensures Apart(d, Without(rest, id)[i], e) {
        assert Without(rest, id)[i] in Without(rest, id);
      }
      assert Without(rest, id) + [] == Without(rest, id);
    }
  }

  /** One completed operation of the plugin. */
  datatype Operation =
    | StoreMemory(entry: Entry)
    | ForgetById(id: Text)
    | ForgetByQuery(query: Vector)
    | CaptureRun(toCapture: seq<Capture>)

  ghost function After(d: Metric, table: seq<Entry>, op: Operation): seq<Entry> {
    match op
    case StoreMemory(entry) => Stored(d, table, entry)
    case ForgetById(id) => if IsUuid(id) then Without(table, id) else table
    case ForgetByQuery(query) => Forgotten(d, table, query)
    case CaptureRun(toCapture) => Captured(d, table, FirstCaptures(toCapture))
  }

  ghost function AfterAll(d: Metric, ops: seq<Operation>): seq<Entry> {
    if ops == [] then [] else After(d, AfterAll(d, ops[..|ops| - 1]), ops[|ops| - 1])
  }

  lemma AfterIsSeparated(d: Metric, table: seq<Entry>, op: Operation)
    requires Separated(d, table)
    ensures Separated(d, After(d, table, op))
  {
    hide Separated, Stored, Without, Captured, OnlyMatch, IsUuid;
    match op
    case StoreMemory(entry) => StoredIsSeparated(d, table, entry);
    case ForgetById(id) => WithoutIsSeparated(d, table, id);
    case ForgetByQuery(query) =>
      if i: nat :| i < |table| && Forgotten(d, table, query) == Without(table, table[i].id) {
        WithoutIsSeparated(d, table, table[i].id);
      } else {
        ForgottenIsWithout(d, table, query);
      }
    case CaptureRun(toCapture) => CapturedIsSeparated(d, table, FirstCaptures(toCapture));
  }

  lemma ForgottenIsWithout(d: Metric, table: seq<Entry>, v: Vector)
    ensures Forgotten(d, table, v) == table
         || exists i: nat :: i < |table| && Forgotten(d, table, v) == Without(table, table[i].id)
  {
    hide Without, Similarity;
    if i: nat :| OnlyMatch(d, table, v, i) {
      OnlyOneMatch(d, table, v, i);
    }
  }

  /** After any run of completed operations, every two stored entries score below 0.95. */
  lemma {:induction false} RunsKeepSeparation(d: Metric, ops: seq<Operation>)
    ensures Separated(d, AfterAll(d, ops))
    decreases |ops|
  {
    hide After;
    if ops != [] {
      RunsKeepSeparation(d, ops[..|ops| - 1]);
      AfterIsSeparated(d, AfterAll(d, ops[..|ops| - 1]), ops[|ops| - 1]);
    }
  }

  /** In distances: every two of them are more than 1/19 apart. */
  lemma RunsKeepDistance(d: Metric, ops: seq<Operation>)
    ensures var table := AfterAll(d, ops);
            forall i, j :: 0 <= i < |table| && 0 <= j < |table| && i != j ==>
              19.0 * d(table[i].vector, table[j].vector) > 1.0
  {
    RunsKeepSeparation(d, ops);
    var table := AfterAll(d, ops);
    hide AfterAll, Similarity;
    forall i, j | 0 <= i < |table| && 0 <= j < |table| && i != j
      ensures 19.0 * d(table[i].vector, table[j].vector) > 1.0
    {
      assert Apart(d, table[i], table[j]);
      Closeness(d, table[i], table[j].vector);
    }
  }

  /** Two stores that both check before either adds keep the table separated exactly when they are not
      duplicates of each other. */
  lemma InterleavedStoresExactly(d: Metric, table: seq<Entry>, a: Entry, b: Entry)
    requires Separated(d, table)
    requires Stored(d, table, a) == table + [a] && Stored(d, table, b) == table + [b]
    ensures Separated(d, table + [a] + [b]) <==> Apart(d, a, b)
  {
    StoredIsSeparated(d, table, a);
    StoredIsSeparated(d, table, b);
    SeparatedSnoc(d, table, b);
    SeparatedSnoc(d, table + [a], b);
    hide Separated, Apart, Stored;
    assert (table + [a])[|table|] == a;
    assert forall i :: 0 <= i < |table| ==> (table + [a])[i] == table[i];
  }

  // ---- capturing and forgetting for good ----------------------------------------------------------------------

  ghost predicate Reflexive(d: Metric) { forall v :: d(v, v) == 0.0 }

  lemma KnownStays(d: Metric, table: seq<Entry>, more: seq<Entry>, v: Vector)
    requires table <= more && Known(d, table, v, DUPLICATE_SCORE)
    ensures Known(d, more, v, DUPLICATE_SCORE)
  {
    hide Similarity;
    var i :| 0 <= i < |table| && Similarity(d, table[i], v) >= DUPLICATE_SCORE;
    assert more[i] == table[i];
  }

  lemma StoredIsKnown(d: Metric, table: seq<Entry>, e: Entry)
    requires Reflexive(d)
    ensures Known(d, Stored(d, table, e), e.vector, DUPLICATE_SCORE) && table <= Stored(d, table, e)
  {
    if !Known(d, table, e.vector, DUPLICATE_SCORE) {
      assert d(e.vector, e.vector) == 0.0;
      assert (table + [e])[|table|] == e;
      assert Similarity(d, (table + [e])[|table|], e.vector) >= DUPLICATE_SCORE;
    }
  }

  /** A capture run only adds, at most one entry for each capture. */
  lemma {:induction false} CaptureOnlyAdds(d: Metric, table: seq<Entry>, captures: seq<Capture>)
    ensures table <= Captured(d, table, captures) && |Captured(d, table, captures)| <= |table| + |captures|
    decreases |captures|
  {
    hide Known;
    if captures != [] && captures[0].Embedded? {
      CaptureOnlyAdds(d, Stored(d, table, captures[0].entry), captures[1..]);
    }
  }

  /** The same texts, embedded the same way. */
  ghost predicate SameTexts(a: seq<Capture>, b: seq<Capture>) {
    |a| == |b| && forall i :: 0 <= i < |a| ==>
      (a[i].Embedded? <==> b[i].Embedded?) && (a[i].Embedded? ==> a[i].entry.vector == b[i].entry.vector)
  }

  lemma {:induction false} NothingNew(d: Metric, table: seq<Entry>, before: seq<Entry>, captures: seq<Capture>,
                                      again: seq<Capture>)
    requires Reflexive(d) && SameTexts(captures, again) && Captured(d, before, captures) <= table
    ensures Captured(d, table, again) == table
    decreases |captures|
  {
    hide Known, Reflexive;
    if captures != [] && captures[0].Embedded? {
      var next := Stored(d, before, captures[0].entry);
      StoredIsKnown(d, before, captures[0].entry);
      CaptureOnlyAdds(d, next, captures[1..]);
      KnownStays(d, next, table, captures[0].entry.vector);
      assert SameTexts(captures[1..], again[1..]);
      NothingNew(d, table, next, captures[1..], again[1..]);
    }
  }

  /** Capturing the same texts once more adds nothing. */
  lemma CaptureIsIdempotent(d: Metric, table: seq<Entry>, toCapture: seq<Capture>, again: seq<Capture>)
    requires Reflexive(d) && SameTexts(toCapture, again)
    ensures var once := Captured(d, table, FirstCaptures(toCapture));
            && table <= once && |once| <= |table| + 3
            && Captured(d, once, FirstCaptures(again)) == once
  {
    CaptureOnlyAdds(d, table, FirstCaptures(toCapture));
    assert SameTexts(FirstCaptures(toCapture), FirstCaptures(again));
    NothingNew(d, Captured(d, table, FirstCaptures(toCapture)), table, FirstCaptures(toCapture), FirstCaptures(again));
  }

  /** Embedding text `k`, and every text before it, succeeds. */
  ghost predicate EmbeddedUpTo(toCapture: seq<Capture>, k: nat) {
    k < |toCapture| && forall j :: 0 <= j <= k ==> toCapture[j].Embedded?
  }

  /** Entry `e` is that of text `k`. */
  ghost predicate IsFrom(toCapture: seq<Capture>, k: nat, e: Entry) {
    k < |toCapture| && toCapture[k] == Embedded(e)
  }

  lemma {:induction false} CapturedCovers(d: Metric, table: seq<Entry>, captures: seq<Capture>, k: nat)
    requires Reflexive(d) && EmbeddedUpTo(captures, k)
    ensures Known(d, Captured(d, table, captures), captures[k].entry.vector, DUPLICATE_SCORE)
    decreases k
  {
    hide Known, Stored, Reflexive;
    var next := Stored(d, table, captures[0].entry);
    if k == 0 {
      StoredIsKnown(d, table, captures[0].entry);
      CaptureOnlyAdds(d, next, captures[1..]);
      KnownStays(d, next, Captured(d, table, captures), captures[0].entry.vector);
    } else {
      assert EmbeddedUpTo(captures[1..], k - 1);
      CapturedCovers(d, next, captures[1..], k - 1);
    }
  }

  lemma {:induction false} CapturedIsFrom(d: Metric, table: seq<Entry>, captures: seq<Capture>, e: Entry)
    requires e in Captured(d, table, captures)
    ensures e in table || exists k: nat :: IsFrom(captures, k, e)
    decreases |captures|
  {
    hide Known;
    if captures != [] && captures[0].Embedded? {
      var next := Stored(d, table, captures[0].entry);
      CapturedIsFrom(d, next, captures[1..], e);
      if k: nat :| IsFrom(captures[1..], k, e) {
        assert IsFrom(captures, k + 1, e);
      } else if e == captures[0].entry {
        assert IsFrom(captures, 0, e);
      }
    }
  }

  /** After a capture run each of the first three texts has a duplicate in the table, up to the first that
      cannot be embedded, and nothing else was added. */
  lemma CaptureCoversFirstThree(d: Metric, table: seq<Entry>, toCapture: seq<Capture>)
    requires Reflexive(d)
    ensures var after := Captured(d, table, FirstCaptures(toCapture));
            && table <= after
            && (forall k: nat :: k < 3 && EmbeddedUpTo(toCapture, k) ==>
                  SomeDuplicates(d, after, toCapture[k].entry.vector))
            && (forall e :: e in after ==> e in table || exists k: nat :: k < 3 && IsFrom(toCapture, k, e))
  {
    var first := FirstCaptures(toCapture);
    var after := Captured(d, table, first);
    CaptureOnlyAdds(d, table, first);
    assert |first| <= 3 && forall k: nat :: k < |first| ==> first[k] == toCapture[k];
    hide Captured, FirstCaptures, Reflexive, SomeDuplicates;
    forall k: nat | k < 3 && EmbeddedUpTo(toCapture, k)
      ensures SomeDuplicates(d, after, toCapture[k].entry.vector)
    {
      assert EmbeddedUpTo(first, k) by {
        assert k < |first|;
      }
      CapturedCovers(d, table, first, k);
      KnownByDistance(d, after, toCapture[k].entry.vector);
    }
    forall e | e in after ensures e in table || exists k: nat :: k < 3 && IsFrom(toCapture, k, e) {
      CapturedIsFrom(d, table, first, e);
      if k: nat :| IsFrom(first, k, e) {
        assert IsFrom(toCapture, k, e);
      }
    }
  }

  /** Once a query has deleted its match, no stored entry matches it. */
  lemma ForgottenForGood(d: Metric, table: seq<Entry>, v: Vector, i: nat)
    requires OnlyMatch(d, table, v, i)
    ensures !Known(d, Forgotten(d, table, v), v, MATCH_SCORE)
  {
    OnlyOneMatch(d, table, v, i);
    WithoutExactly(table, table[i].id);
    hide Without, Forgotten, Similarity;
    var left := Without(table, table[i].id);
    forall k | 0 <= k < |left| ensures Similarity(d, left[k], v) < MATCH_SCORE {
      assert left[k] in left;
    }
  }

  // ---- a metric -------------------------------------------------------------------------------------------------

  /** The squared Euclidean distance. */
  function SquaredDistance(a: Vector, b: Vector): (d: real)
    ensures d >= 0.0
  {
    if a == [] || b == [] then 0.0
    else (a[0] - b[0]) * (a[0] - b[0]) + SquaredDistance(a[1..], b[1..])
  }

  lemma {:induction false} SquaredDistanceIsSymmetric(a: Vector, b: Vector)
    ensures SquaredDistance(a, b) == SquaredDistance(b, a) && SquaredDistance(a, a) == 0.0
  {
    if a != [] {
      SquaredDistanceIsSymmetric(a[1..], if b == [] then [] else b[1..]);
    }
  }

  lemma SquaredDistanceIsMetric()
    ensures IsMetric(SquaredDistance)
  {
    forall a, b ensures SquaredDistance(a, b) == SquaredDistance(b, a) {
      SquaredDistanceIsSymmetric(a, b);
    }
  }

  // ---- two stores that both check first ---------------------------------------------------------------------------

  lemma SquaredDistanceIsReflexive()
    ensures IsMetric(SquaredDistance) && Reflexive(SquaredDistance)
  {
    SquaredDistanceIsMetric();
    forall v ensures SquaredDistance(v, v) == 0.0 {
      SquaredDistanceIsSymmetric(v, v);
    }
  }

  /** Two entries with one vector are both stored when both checks come first, and are duplicates. */
  lemma InterleavedStoresDuplicate(d: Metric, a: Entry, b: Entry)
    requires Reflexive(d) && a.vector == b.vector
    ensures Stored(d, [], a) == [] + [a] && Stored(d, [], b) == [] + [b]
    ensures !Separated(d, [] + [a] + [b])
  {
    SameVectorIsDuplicate(d, a, b);
    NothingKnown(d, a.vector);
    hide Apart, Known, Reflexive;
    SeparatedSnoc(d, [] + [a], b);
    assert ([] + [a])[0] == a;
  }

  lemma NothingKnown(d: Metric, v: Vector)
    ensures !Known(d, [], v, DUPLICATE_SCORE)
  {
  }

  lemma SameVectorIsDuplicate(d: Metric, a: Entry, b: Entry)
    requires Reflexive(d) && a.vector == b.vector
    ensures !Apart(d, a, b)
  {
    assert d(a.vector, a.vector) == 0.0;
  }
}
