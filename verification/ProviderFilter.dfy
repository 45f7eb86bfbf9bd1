/** The provider filter of Bedrock discovery and the cache key it goes into
    (extensions/amazon-bedrock/discovery.ts). */
module ProviderFilter {
  import opened JsText

  // ---- the order of toSorted -----------------------------------------------------------------

  /** Strings compare by code units; a proper prefix comes first. */
  predicate Less(a: Text, b: Text)
    decreases |a|
  {
    if b == [] then false
    else if a == [] then true
    else a[0] < b[0] || (a[0] == b[0] && Less(a[1..], b[1..]))
  }

  lemma {:induction false} LessTotal(a: Text, b: Text)
    ensures Less(a, b) || a == b || Less(b, a)
    decreases |a|
  {
    if a != [] && b != [] && a[0] == b[0] {
      LessTotal(a[1..], b[1..]);
      assert a == [a[0]] + a[1..] && b == [b[0]] + b[1..];
    }
  }

  lemma {:induction false} LessIrreflexive(a: Text)
    ensures !Less(a, a)
    decreases |a|
  {
    if a != [] { LessIrreflexive(a[1..]); }
  }

  lemma {:induction false} LessTransitive(a: Text, b: Text, c: Text)
    requires Less(a, b) && Less(b, c)
    ensures Less(a, c)
    decreases |a|
  {
    if a != [] && a[0] == b[0] && b[0] == c[0] {
      LessTransitive(a[1..], b[1..], c[1..]);
    }
  }

  ghost predicate StrictlySorted(s: seq<Text>) {
    forall i, j :: 0 <= i < j < |s| ==> Less(s[i], s[j])
  }

  /** A strictly sorted list is determined by its elements. */
  lemma {:induction false} SortedIsUnique(a: seq<Text>, b: seq<Text>)
    requires StrictlySorted(a) && StrictlySorted(b)
    requires forall x :: x in a <==> x in b
    ensures a == b
    decreases |a|
  {
    assert b != [] ==> b[0] in b;
    if a != [] {
      assert a[0] in b && b != [];
      SameHead(a, b);
      forall x ensures x in a[1..] <==> x in b[1..] {
        InTail(a, x);
        InTail(b, x);
      }
      assert StrictlySorted(a[1..]) && StrictlySorted(b[1..]);
      SortedIsUnique(a[1..], b[1..]);
      assert a == [a[0]] + a[1..] && b == [b[0]] + b[1..];
    }
  }

  lemma SameHead(a: seq<Text>, b: seq<Text>)
    requires StrictlySorted(a) && StrictlySorted(b) && a != [] && b != []
    requires a[0] in b && b[0] in a
    ensures a[0] == b[0]
  {
    hide Less;
    var i :| 0 <= i < |b| && b[i] == a[0];
    var j :| 0 <= j < |a| && a[j] == b[0];
    if i > 0 && j > 0 {
      assert Less(b[0], b[i]) && Less(a[0], a[j]);
      LessTransitive(a[0], b[0], a[0]);
      LessIrreflexive(a[0]);
    }
  }

  lemma InTail(s: seq<Text>, x: Text)
    requires StrictlySorted(s) && s != []
    ensures x in s[1..] <==> x in s && x != s[0]
  {
    hide Less;
    LessIrreflexive(s[0]);
    assert s == [s[0]] + s[1..];
    forall k | 0 <= k < |s[1..]| ensures s[1..][k] != s[0] {
      assert Less(s[0], s[k + 1]);
    }
  }

  /** Adds `x` to a sorted list unless it is there. */
  function Insert(s: seq<Text>, x: Text): seq<Text>
    decreases |s|
  {
    if s == [] || Less(x, s[0]) then [x] + s
    else if x == s[0] then s
    else [s[0]] + Insert(s[1..], x)
  }

  lemma {:induction false} InsertSorted(s: seq<Text>, x: Text)
    requires StrictlySorted(s)
    ensures StrictlySorted(Insert(s, x))
    ensures forall y :: y in Insert(s, x) <==> y == x || y in s
    decreases |s|
  {
    if s == [] {
    } else if Less(x, s[0]) {
      forall j | 0 <= j < |s| ensures Less(x, s[j]) {
        if j > 0 { LessTransitive(x, s[0], s[j]); }
      }
    } else if x != s[0] {
      InsertSorted(s[1..], x);
      LessTotal(x, s[0]);
      var r := Insert(s[1..], x);
      hide Less, Insert;
      assert s == [s[0]] + s[1..];
      forall j | 0 <= j < |r| ensures Less(s[0], r[j]) {
        assert r[j] in r;
        if r[j] != x {
          var k :| 0 <= k < |s[1..]| && s[1..][k] == r[j];
          assert Less(s[0], s[k + 1]);
        }
      }
    }
  }

  // ---- normalizeProviderFilter -----------------------------------------------------------------

  /** `entry.trim().toLowerCase()`, with the case mapping as a parameter. */
  function Canonical(lower: Text -> Text, entry: Text): Text { lower(Trim(entry)) }

  /** The providers a filter names. */
  function Named(lower: Text -> Text, filter: seq<Text>): set<Text> {
    set entry | entry in filter && Canonical(lower, entry) != [] :: Canonical(lower, entry)
  }

  function NormalizeProviderFilter(lower: Text -> Text, filter: seq<Text>): seq<Text> {
    if filter == [] then []
    else
      var rest, c := NormalizeProviderFilter(lower, filter[..|filter| - 1]), Canonical(lower, filter[|filter| - 1]);
      if c == [] then rest else Insert(rest, c)
  }

  lemma {:induction false} NormalizedIsSorted(lower: Text -> Text, filter: seq<Text>)
    ensures StrictlySorted(NormalizeProviderFilter(lower, filter))
    ensures forall x :: x in NormalizeProviderFilter(lower, filter) <==> x in Named(lower, filter)
  {
    hide Canonical, Insert, Less;
    if filter != [] {
      var rest, last := filter[..|filter| - 1], filter[|filter| - 1];
      NormalizedIsSorted(lower, rest);
      if Canonical(lower, last) != [] {
        InsertSorted(NormalizeProviderFilter(lower, rest), Canonical(lower, last));
      }
      assert filter == rest + [last];
      assert forall e :: e in filter <==> e in rest || e == last;
    }
  }

  /** Two filters normalise to the same list exactly when they name the same providers, whatever
      their order, repetitions, case and white space. */
  lemma SameProvidersSameFilter(lower: Text -> Text, f: seq<Text>, g: seq<Text>)
    ensures NormalizeProviderFilter(lower, f) == NormalizeProviderFilter(lower, g)
       <==> Named(lower, f) == Named(lower, g)
  {
    NormalizedIsSorted(lower, f);
    NormalizedIsSorted(lower, g);
    hide NormalizeProviderFilter, Named, StrictlySorted;
    if Named(lower, f) == Named(lower, g) {
      SortedIsUnique(NormalizeProviderFilter(lower, f), NormalizeProviderFilter(lower, g));
    }
  }
}
