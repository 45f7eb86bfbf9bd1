/** Stores of the memory plugin whose checks and additions interleave, with deletions in between
    (extensions/memory-lancedb/index.ts). */
module MemoryInterleaving {
  import opened JsText
  import opened VectorSearch
  import opened MemoryStore

  /** The table, and the stores that found no duplicate and are still to add their entry. */
  datatype State = State(table: seq<Entry>, pending: map<nat, Entry>, next: nat)

  /** A store first searches for a duplicate, and adds its entry in a later step; a deletion removes the
      entries with an identifier. */
  datatype Event =
    | Check(entry: Entry)
    | Add(store: nat)
    | Delete(id: Text)

  ghost function Next(d: Metric, s: State, e: Event): State {
    match e
    case Check(entry) =>
      if Known(d, s.table, entry.vector, DUPLICATE_SCORE) then s
      else s.(pending := s.pending[s.next := entry], next := s.next + 1)
    case Add(store) =>
      if store !in s.pending then s
      else s.(table := s.table + [s.pending[store]], pending := s.pending - {store})
    case Delete(id) => s.(table := Without(s.table, id))
  }

  ghost function At(d: Metric, run: seq<Event>, n: nat): State
    requires n <= |run|
  {
    if n == 0 then State([], map[], 0) else Next(d, At(d, run, n - 1), run[n - 1])
  }

  lemma AtStart(d: Metric, run: seq<Event>)
    ensures At(d, run, 0) == State([], map[], 0)
  {
  }

  lemma AtStep(d: Metric, run: seq<Event>, n: nat)
    requires n < |run|
    ensures At(d, run, n + 1) == Next(d, At(d, run, n), run[n])
  {
    hide Next;
  }

  /** Event `n` adds the entry of a pending store. */
  ghost predicate Adds(d: Metric, run: seq<Event>, n: nat, e: Entry) {
    && n < |run| && run[n].Add? && run[n].store in At(d, run, n).pending
    && At(d, run, n).pending[run[n].store] == e
  }

  /** Event `c` is the check, passed, of the store that event `j` completes with entry `b`. */
  ghost predicate CheckedBy(d: Metric, run: seq<Event>, c: nat, j: nat, b: Entry) {
    && c < j && Adds(d, run, j, b)
    && run[c] == Check(b) && run[j].store == At(d, run, c).next
    && !Known(d, At(d, run, c).table, b.vector, DUPLICATE_SCORE)
  }

  /** Between the check and the addition of `b`, event `i` added a duplicate of it that is still there. */
  ghost predicate Raced(d: Metric, run: seq<Event>, c: nat, i: nat, j: nat, a: Entry, b: Entry) {
    && c < i < j && CheckedBy(d, run, c, j, b) && Adds(d, run, i, a)
    && a in At(d, run, j).table && !Apart(d, a, b)
  }

  ghost predicate RacedBefore(d: Metric, run: seq<Event>, n: nat) {
    exists c: nat, i: nat, j: nat, a, b :: j < n && Raced(d, run, c, i, j, a, b)
  }

  /** What one event does to the table. */
  lemma TableStep(d: Metric, run: seq<Event>, n: nat)
    requires n < |run|
    ensures var s, s' := At(d, run, n), At(d, run, n + 1);
            || s'.table == s.table
            || (run[n].Delete? && s'.table == Without(s.table, run[n].id))
            || (run[n].Add? && run[n].store in s.pending && s'.table == s.table + [s.pending[run[n].store]])
  {
    AtStep(d, run, n);
    hide At, Known, Without;
  }

  lemma AddsStep(d: Metric, run: seq<Event>, n: nat, e: Entry)
    requires Adds(d, run, n, e)
    ensures At(d, run, n + 1).table == At(d, run, n).table + [e]
  {
    AtStep(d, run, n);
    hide At, Known, Without;
  }

  lemma PendingStep(d: Metric, s: State, e: Event, store: nat)
    requires store in Next(d, s, e).pending
    ensures || (store in s.pending && Next(d, s, e).pending[store] == s.pending[store])
            || (&& store == s.next && e.Check? && Next(d, s, e).pending[store] == e.entry
                && !Known(d, s.table, e.entry.vector, DUPLICATE_SCORE))
  {
    hide Known, Without;
  }

  /** A pending store goes back to its check. */
  lemma {:induction false} PendingOrigin(d: Metric, run: seq<Event>, n: nat, store: nat) returns (c: nat)
    requires n <= |run| && store in At(d, run, n).pending
    ensures c < n && run[c] == Check(At(d, run, n).pending[store]) && store == At(d, run, c).next
    ensures !Known(d, At(d, run, c).table, At(d, run, n).pending[store].vector, DUPLICATE_SCORE)
    decreases n
  {
    hide At, Next, Known;
    AtStart(d, run);
    AtStep(d, run, n - 1);
    PendingStep(d, At(d, run, n - 1), run[n - 1], store);
    if store in At(d, run, n - 1).pending && At(d, run, n - 1).pending[store] == At(d, run, n).pending[store] {
      c := PendingOrigin(d, run, n - 1, store);
    } else {
      c := n - 1;
    }
  }

  /** An entry that was not there at one moment and is at a later one was added in between. */
  lemma {:induction false} EntryOrigin(d: Metric, run: seq<Event>, c: nat, n: nat, e: Entry) returns (i: nat)
    requires c <= n <= |run| && e !in At(d, run, c).table && e in At(d, run, n).table
    ensures c <= i < n && Adds(d, run, i, e)
    decreases n
  {
    TableStep(d, run, n - 1);
    if run[n - 1].Delete? { WithoutExactly(At(d, run, n - 1).table, run[n - 1].id); }
    hide At, Without;
    if e in At(d, run, n - 1).table {
      i := EntryOrigin(d, run, c, n - 1, e);
    } else {
      i := n - 1;
    }
  }

  lemma DuplicateIsKnown(d: Metric, table: seq<Entry>, a: Entry, b: Entry)
    requires a in table && !Apart(d, a, b)
    ensures Known(d, table, b.vector, DUPLICATE_SCORE)
  {
    hide Similarity;
    var i :| 0 <= i < |table| && table[i] == a;
    assert Similarity(d, table[i], b.vector) >= DUPLICATE_SCORE;
  }

  /** An addition that ends separation completes a race. */
  lemma LostRace(d: Metric, run: seq<Event>, j: nat, b: Entry)
    requires Adds(d, run, j, b) && Separated(d, At(d, run, j).table) && !Separated(d, At(d, run, j).table + [b])
    ensures exists c: nat, i: nat, a :: Raced(d, run, c, i, j, a, b)
  {
    var table := At(d, run, j).table;
    SeparatedSnoc(d, table, b);
    var k :| 0 <= k < |table| && !Apart(d, table[k], b);
    hide At, Apart, Separated, Known, Without;
    var a := table[k];
    var c := PendingOrigin(d, run, j, run[j].store);
    assert CheckedBy(d, run, c, j, b);
    NotThereAtCheck(d, run, c, a, b);
    var i := EntryOrigin(d, run, c, j, a);
    assert c != i;
    assert Raced(d, run, c, i, j, a, b);
  }

  lemma NotThereAtCheck(d: Metric, run: seq<Event>, c: nat, a: Entry, b: Entry)
    requires c <= |run| && !Apart(d, a, b) && !Known(d, At(d, run, c).table, b.vector, DUPLICATE_SCORE)
    ensures a !in At(d, run, c).table
  {
    hide At, Known, Apart;
    if a in At(d, run, c).table {
      DuplicateIsKnown(d, At(d, run, c).table, a, b);
    }
  }

  lemma StaysSeparatedStep(d: Metric, run: seq<Event>, n: nat)
    requires n < |run| && Separated(d, At(d, run, n).table)
    requires forall c: nat, i: nat, a, b :: !Raced(d, run, c, i, n, a, b)
    ensures Separated(d, At(d, run, n + 1).table)
  {
    TableStep(d, run, n);
    var s := At(d, run, n);
    if run[n].Delete? {
      WithoutIsSeparated(d, s.table, run[n].id);
    }
    hide At, Separated, Raced, Without;
    if run[n].Add? && run[n].store in s.pending && !Separated(d, s.table + [s.pending[run[n].store]]) {
      LostRace(d, run, n, s.pending[run[n].store]);
    }
  }

  lemma {:induction false} StaysSeparated(d: Metric, run: seq<Event>, n: nat)
    requires n <= |run| && !RacedBefore(d, run, n)
    ensures Separated(d, At(d, run, n).table)
    decreases n
  {
    hide At, Separated, Raced;
    AtStart(d, run);
    if n == 0 {
      NothingIsSeparated(d);
    } else {
      StaysSeparated(d, run, n - 1);
      StaysSeparatedStep(d, run, n - 1);
    }
  }

  lemma NothingIsSeparated(d: Metric)
    ensures Separated(d, [])
  {
  }

  lemma RaceEndsSeparation(d: Metric, run: seq<Event>, c: nat, i: nat, j: nat, a: Entry, b: Entry)
    requires Raced(d, run, c, i, j, a, b)
    ensures j < |run| && !Separated(d, At(d, run, j + 1).table)
  {
    hide At, Apart, Known, Without;
    AddsStep(d, run, j, b);
    var table := At(d, run, j).table;
    SeparatedSnoc(d, table, b);
    var k :| 0 <= k < |table| && table[k] == a;
    assert !Apart(d, table[k], b);
  }

  /** Over every interleaving of checks, additions and deletions, two stored entries are duplicates at some
      moment exactly when some store adds its entry although, since its check, another store added a
      duplicate that is still there. */
  lemma SeparationExactly(d: Metric, run: seq<Event>, n: nat)
    requires n <= |run|
    ensures (forall m :: 0 <= m <= n ==> Separated(d, At(d, run, m).table)) <==> !RacedBefore(d, run, n)
  {
    hide At, Separated, Raced;
    if RacedBefore(d, run, n) {
      var c: nat, i: nat, j: nat, a, b :| j < n && Raced(d, run, c, i, j, a, b);
      RaceEndsSeparation(d, run, c, i, j, a, b);
    } else {
      forall m | 0 <= m <= n ensures Separated(d, At(d, run, m).table) {
        StaysSeparated(d, run, m);
      }
    }
  }

  /** Two entries with one vector, both checked before either is added, lose the race. */
  lemma BothCheckedFirst(d: Metric, a: Entry, b: Entry)
    requires Reflexive(d) && a.vector == b.vector
    ensures !Separated(d, At(d, [Check(a), Check(b), Add(0), Add(1)], 4).table)
  {
    var run := [Check(a), Check(b), Add(0), Add(1)];
    NothingKnown(d, a.vector);
    hide Known, Separated, Reflexive;
    AtStart(d, run);
    AtStep(d, run, 0);
    AtStep(d, run, 1);
    AtStep(d, run, 2);
    AtStep(d, run, 3);
    InterleavedStoresDuplicate(d, a, b);
  }
}
