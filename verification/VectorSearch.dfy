/** The interface the memory plugin relies on: exact nearest-neighbour search and the score it derives
    from a distance (extensions/memory-lancedb/index.ts). */
module VectorSearch {
  import opened Sequences

  type Vector = seq<real>

  /** `1 / (1 + distance)` */
  function Score(d: real): real
    requires d >= 0.0
  {
    1.0 / (1.0 + d)
  }

  ghost predicate NonNegative(ds: seq<real>) { forall i :: 0 <= i < |ds| ==> ds[i] >= 0.0 }

  /** The rows a search over distances `ds` may return: the `limit` nearest ones, nearest first. */
  ghost predicate Nearest(ds: seq<real>, limit: nat, rows: seq<nat>) {
    && |rows| == (if limit <= |ds| then limit else |ds|)
    && (forall k :: 0 <= k < |rows| ==> rows[k] < |ds|)
    && (forall j, k :: 0 <= j < k < |rows| ==> rows[j] != rows[k] && ds[rows[j]] <= ds[rows[k]])
    && (forall i, k :: 0 <= i < |ds| && 0 <= k < |rows| && i !in rows ==> ds[rows[k]] <= ds[i])
  }

  lemma CloserScoresHigher(a: real, b: real)
    requires 0.0 <= a <= b
    ensures 0.0 < Score(b) <= Score(a) <= 1.0
  {
    assert Score(b) * (1.0 + b) == 1.0 && Score(a) * (1.0 + a) == 1.0;
    assert Score(a) * (1.0 + b) >= Score(a) * (1.0 + a);
    assert (Score(a) - Score(b)) * (1.0 + b) >= 0.0;
    CancelPositive(Score(a) - Score(b), 1.0 + b);
    assert Score(a) == 1.0 - a * Score(a);
  }

  /** A score reaches a positive minimum exactly up to the distance at which the two are equal. */
  lemma ScoreReaches(d: real, minimum: real)
    requires d >= 0.0 && minimum > 0.0
    ensures Score(d) >= minimum <==> minimum * (1.0 + d) <= 1.0
    ensures Score(d) > minimum <==> minimum * (1.0 + d) < 1.0
  {
    InverseReaches(Score(d), 1.0 + d, minimum);
  }

  lemma InverseReaches(s: real, y: real, minimum: real)
    requires y > 0.0 && s * y == 1.0
    ensures s >= minimum <==> minimum * y <= 1.0
    ensures s > minimum <==> minimum * y < 1.0
  {
    if s > minimum {
      MultiplyPositive(s - minimum, y);
      assert (s - minimum) * y == s * y - minimum * y;
    } else if s < minimum {
      MultiplyPositive(minimum - s, y);
      assert (minimum - s) * y == minimum * y - s * y;
    } else {
      assert minimum == s;
      assert minimum * y == 1.0;
    }
  }

  lemma MultiplyPositive(x: real, y: real)
    requires x > 0.0 && y > 0.0
    ensures x * y > 0.0
  {
  }

  /** In distances, 0.95 is reached up to 1/19 and 0.7 up to 3/7, and 0.9 is exceeded below 1/9. */
  lemma ScoreThresholds(d: real)
    requires d >= 0.0
    ensures Score(d) >= 0.95 <==> 19.0 * d <= 1.0
    ensures Score(d) >= 0.7 <==> 7.0 * d <= 3.0
    ensures Score(d) > 0.9 <==> 9.0 * d < 1.0
  {
    ScoreReaches(d, 0.95);
    ScoreReaches(d, 0.7);
    ScoreReaches(d, 0.9);
    hide Score;
  }

  lemma CancelPositive(x: real, y: real)
    requires y > 0.0 && x * y >= 0.0
    ensures x >= 0.0
  {
  }

  ghost predicate InRange(ds: seq<real>, rows: seq<nat>) { forall k :: 0 <= k < |rows| ==> rows[k] < |ds| }

  /** The rows whose score reaches a minimum, in their order. */
  function Kept(ds: seq<real>, rows: seq<nat>, minScore: real): (kept: seq<nat>)
    requires NonNegative(ds) && InRange(ds, rows)
    ensures |kept| <= |rows|
    ensures forall r :: r in kept <==> r in rows && Score(ds[r]) >= minScore
    ensures rows != [] && Score(ds[rows[0]]) >= minScore ==> kept != [] && kept[0] == rows[0]
  {
    if rows == [] then []
    else
      var first, rest := rows[0], Kept(ds, rows[1..], minScore);
      assert rows == [first] + rows[1..];
      if Score(ds[first]) >= minScore then [first] + rest else rest
  }

  lemma {:induction false} AllKept(ds: seq<real>, rows: seq<nat>, minScore: real)
    requires NonNegative(ds) && InRange(ds, rows)
    requires forall k :: 0 <= k < |rows| ==> Score(ds[rows[k]]) >= minScore
    ensures Kept(ds, rows, minScore) == rows
  {
    hide Score;
    if rows != [] {
      assert forall k :: 0 <= k < |rows[1..]| ==> rows[1..][k] == rows[k + 1];
      AllKept(ds, rows[1..], minScore);
      assert rows == [rows[0]] + rows[1..];
    }
  }

  lemma {:induction false} KeptIsDistinct(ds: seq<real>, rows: seq<nat>, minScore: real)
    requires NonNegative(ds) && InRange(ds, rows) && Distinct(rows)
    ensures Distinct(Kept(ds, rows, minScore))
  {
    hide Score;
    if rows != [] {
      assert forall k :: 0 <= k < |rows[1..]| ==> rows[1..][k] == rows[k + 1];
      KeptIsDistinct(ds, rows[1..], minScore);
      assert rows[0] !in rows[1..];
    }
  }

  function Rows(n: nat): (rows: set<nat>)
    ensures |rows| == n && forall k: nat :: k in rows <==> k < n
  {
    if n == 0 then {} else Rows(n - 1) + {n - 1}
  }

  lemma {:induction false} DistinctFits(rows: seq<nat>, within: set<nat>)
    requires Distinct(rows) && forall k :: 0 <= k < |rows| ==> rows[k] in within
    ensures |rows| <= |within|
  {
    if rows != [] {
      DistinctFits(rows[..|rows| - 1], within - {rows[|rows| - 1]});
    }
  }

  /** Distinct rows, as many as there are, are all of them. */
  lemma DistinctRowsCover(rows: seq<nat>, n: nat, i: nat)
    requires Distinct(rows) && |rows| == n && (forall k :: 0 <= k < n ==> rows[k] < n) && i < n
    ensures i in rows
  {
    if i !in rows {
      assert forall k :: 0 <= k < n ==> rows[k] in Rows(n) - {i};
      DistinctFits(rows, Rows(n) - {i});
    }
  }

  /** A row that a nearest search leaves out is no closer than any it returns, and is only left out when
      the limit is reached. */
  lemma LeftOut(ds: seq<real>, limit: nat, rows: seq<nat>, i: nat)
    requires Nearest(ds, limit, rows) && i < |ds| && i !in rows
    ensures |rows| == limit && forall k :: 0 <= k < |rows| ==> ds[rows[k]] <= ds[i]
  {
    if |rows| == |ds| {
      DistinctRowsCover(rows, |ds|, i);
    }
  }

  /** What a filtered search knows: every kept row reaches the score; when fewer rows than the limit are
      kept they are all the rows of the table that reach it; and the first is a nearest row. */
  lemma SearchIsExact(ds: seq<real>, limit: nat, rows: seq<nat>, minScore: real)
    requires NonNegative(ds) && limit > 0 && Nearest(ds, limit, rows) && InRange(ds, rows)
    ensures var kept := Kept(ds, rows, minScore);
            && |kept| <= limit && Distinct(kept) && InRange(ds, kept)
            && (forall r :: r in kept ==> Score(ds[r]) >= minScore)
            && (|kept| < limit ==> forall i :: 0 <= i < |ds| && Score(ds[i]) >= minScore ==> i in kept)
            && (kept != [] ==> forall i :: 0 <= i < |ds| ==> ds[kept[0]] <= ds[i])
  {
    var kept := Kept(ds, rows, minScore);
    KeptIsDistinct(ds, rows, minScore);
    forall k | 0 <= k < |kept| ensures kept[k] < |ds| {
      assert kept[k] in kept;
    }
    forall i | 0 <= i < |ds| && Score(ds[i]) >= minScore && i !in kept ensures |kept| >= limit {
      LeftOut(ds, limit, rows, i);
      FartherRowsKept(ds, rows, minScore, i);
    }
    if kept != [] {
      FirstIsNearest(ds, limit, rows, minScore);
    }
  }

  lemma FartherRowsKept(ds: seq<real>, rows: seq<nat>, minScore: real, i: nat)
    requires NonNegative(ds) && InRange(ds, rows) && i < |ds| && Score(ds[i]) >= minScore
    requires forall k :: 0 <= k < |rows| ==> ds[rows[k]] <= ds[i]
    ensures Kept(ds, rows, minScore) == rows
  {
    forall k | 0 <= k < |rows| ensures Score(ds[rows[k]]) >= minScore {
      CloserScoresHigher(ds[rows[k]], ds[i]);
    }
    AllKept(ds, rows, minScore);
  }

  lemma FirstIsNearest(ds: seq<real>, limit: nat, rows: seq<nat>, minScore: real)
    requires NonNegative(ds) && Nearest(ds, limit, rows) && InRange(ds, rows) && Kept(ds, rows, minScore) != []
    ensures Kept(ds, rows, minScore)[0] == rows[0]
    ensures forall i :: 0 <= i < |ds| ==> ds[rows[0]] <= ds[i]
  {
    var kept := Kept(ds, rows, minScore);
    assert kept[0] in kept;
    var k :| 0 <= k < |rows| && rows[k] == kept[0];
    CloserScoresHigher(ds[rows[0]], ds[kept[0]]);
    hide Kept, Score;
    forall i | 0 <= i < |ds| ensures ds[rows[0]] <= ds[i] {
      if i in rows {
        var j :| 0 <= j < |rows| && rows[j] == i;
      }
    }
  }

  // ---- an exact search ---------------------------------------------------------------------------

  ghost predicate Ordered(ds: seq<real>, rows: seq<nat>) {
    && InRange(ds, rows) && Distinct(rows)
    && forall j, k :: 0 <= j < k < |rows| ==> ds[rows[j]] <= ds[rows[k]]
  }

  function PlaceRow(ds: seq<real>, rows: seq<nat>, r: nat): seq<nat> {
    if rows == [] || (rows[|rows| - 1] < |ds| && r < |ds| && ds[rows[|rows| - 1]] <= ds[r]) then rows + [r]
    else PlaceRow(ds, rows[..|rows| - 1], r) + [rows[|rows| - 1]]
  }

  /** The first `n` rows, nearest first. */
  function Ranked(ds: seq<real>, n: nat): seq<nat> {
    if n == 0 then [] else PlaceRow(ds, Ranked(ds, n - 1), n - 1)
  }

  function Scan(ds: seq<real>, limit: nat): seq<nat> {
    var rows := Ranked(ds, |ds|);
    if limit <= |rows| then rows[..limit] else rows
  }

  lemma {:induction false} PlaceRowKeeps(ds: seq<real>, rows: seq<nat>, r: nat)
    requires Ordered(ds, rows) && r < |ds| && r !in rows
    ensures Ordered(ds, PlaceRow(ds, rows, r)) && |PlaceRow(ds, rows, r)| == |rows| + 1
    ensures forall x :: x in PlaceRow(ds, rows, r) <==> x in rows || x == r
  {
    hide PlaceRow, Ordered;
    PlaceRowStep(ds, rows, r);
    if rows == [] || ds[rows[|rows| - 1]] <= ds[r] {
      AppendRow(ds, rows, r);
    } else {
      var rest, last := rows[..|rows| - 1], rows[|rows| - 1];
      assert rows == rest + [last];
      OrderedPrefix(ds, rest, last);
      PlaceRowKeeps(ds, rest, r);
      StaysLast(ds, rest, last, PlaceRow(ds, rest, r), r);
    }
  }

  lemma PlaceRowStep(ds: seq<real>, rows: seq<nat>, r: nat)
    requires Ordered(ds, rows) && r < |ds|
    ensures rows != [] ==> rows[|rows| - 1] < |ds|
    ensures PlaceRow(ds, rows, r)
         == if rows == [] || ds[rows[|rows| - 1]] <= ds[r] then rows + [r]
            else PlaceRow(ds, rows[..|rows| - 1], r) + [rows[|rows| - 1]]
  {
  }

  lemma AppendRow(ds: seq<real>, rows: seq<nat>, r: nat)
    requires Ordered(ds, rows) && r < |ds| && r !in rows
    requires rows != [] ==> rows[|rows| - 1] < |ds| && ds[rows[|rows| - 1]] <= ds[r]
    ensures Ordered(ds, rows + [r])
  {
  }

  lemma OrderedPrefix(ds: seq<real>, rest: seq<nat>, last: nat)
    requires Ordered(ds, rest + [last])
    ensures Ordered(ds, rest) && last < |ds| && last !in rest
  {
    var rows := rest + [last];
    assert rows[|rest|] == last && forall k :: 0 <= k < |rest| ==> rows[k] == rest[k];
  }

  lemma StaysLast(ds: seq<real>, rest: seq<nat>, last: nat, placed: seq<nat>, r: nat)
    requires Ordered(ds, rest + [last]) && Ordered(ds, placed) && r < |ds| && last != r && last < |ds|
             && ds[last] > ds[r]
    requires forall x :: x in placed <==> x in rest || x == r
    ensures Ordered(ds, placed + [last])
  {
    assert (rest + [last])[|rest|] == last;
    forall k | 0 <= k < |placed| ensures ds[placed[k]] <= ds[last] && placed[k] != last {
      assert placed[k] in placed;
      if placed[k] != r {
        var j :| 0 <= j < |rest| && rest[j] == placed[k];
        assert (rest + [last])[j] == rest[j];
      }
    }
  }

  lemma {:induction false} RankedKeeps(ds: seq<real>, n: nat)
    requires n <= |ds|
    ensures Ordered(ds, Ranked(ds, n)) && |Ranked(ds, n)| == n && forall x: nat :: x in Ranked(ds, n) <==> x < n
  {
    if n > 0 {
      hide PlaceRow;
      RankedKeeps(ds, n - 1);
      PlaceRowKeeps(ds, Ranked(ds, n - 1), n - 1);
    }
  }

  /** Ranking every row by its distance and cutting at the limit is an exact search. */
  lemma ScanIsNearest(ds: seq<real>, limit: nat)
    ensures Nearest(ds, limit, Scan(ds, limit))
  {
    RankedKeeps(ds, |ds|);
    hide Ranked;
    var rows, found := Ranked(ds, |ds|), Scan(ds, limit);
    assert forall j :: 0 <= j < |found| ==> found[j] == rows[j];
    forall i, k | 0 <= i < |ds| && 0 <= k < |found| && i !in found ensures ds[found[k]] <= ds[i] {
      assert i in rows;
      var j :| 0 <= j < |rows| && rows[j] == i;
      assert j >= |found|;
    }
  }
}
