/** The appcast version check (scripts/release-check.ts). */
module Appcast {
  import opened JsText
  import opened Numerals
  import opened SparkleBuild

  const LANE_FLOOR_ADOPTION_DATE_KEY := 20260227

  /** The parsed short version of an item: absent, not a calendar version, or one. */
  datatype ShortVersion = Absent | NotCalver | Calver(version: Version)

  datatype Item = Item(title: Text, shortVersion: ShortVersion, sparkleVersion: Option<Text>)

  datatype Entry = Entry(title: Text, sparkleBuild: nat, floors: Floors)

  datatype Error =
    | NoItems
    | MissingVersion(title: Text)
    | NonNumericVersion(title: Text, sparkleVersion: Text)
    | BelowFloor(title: Text, sparkleBuild: nat, laneFloor: bool, floor: nat)

  // ---- the two loops -----------------------------------------------------------------------------------

  predicate HasVersion(item: Item) { item.sparkleVersion.Some? && item.sparkleVersion.value != [] }

  function ShapeError(item: Item): Option<Error> {
    if !HasVersion(item) then Some(MissingVersion(item.title))
    else if !IsNumeral(item.sparkleVersion.value) then Some(NonNumericVersion(item.title, item.sparkleVersion.value))
    else None
  }

  /** The entry of an item with a numeric version and a calendar date. */
  function EntryOf(item: Item): Option<Entry> {
    if ShapeError(item).Some? || !item.shortVersion.Calver? then None
    else if SparkleBuildFloors(item.shortVersion.version) == None then None
    else Some(Entry(item.title, Number(item.sparkleVersion.value), SparkleBuildFloors(item.shortVersion.version).value))
  }

  function Listed<T>(x: Option<T>): seq<T> { if x.Some? then [x.value] else [] }

  function ShapeErrors(items: seq<Item>): seq<Error> {
    if items == [] then [] else ShapeErrors(items[..|items| - 1]) + Listed(ShapeError(items[|items| - 1]))
  }

  function Entries(items: seq<Item>): seq<Entry> {
    if items == [] then [] else Entries(items[..|items| - 1]) + Listed(EntryOf(items[|items| - 1]))
  }

  /** The least date with a lane build, or the fixed adoption date if that is earlier. */
  function AdoptionDateKey(entries: seq<Entry>): nat {
    if entries == [] then LANE_FLOOR_ADOPTION_DATE_KEY
    else
      var rest, e := AdoptionDateKey(entries[..|entries| - 1]), entries[|entries| - 1];
      if e.sparkleBuild >= LANE_BUILD_MIN && e.floors.dateKey < rest then e.floors.dateKey else rest
  }

  function FloorError(e: Entry, adoption: nat): Option<Error> {
    var expectLaneFloor := e.sparkleBuild >= LANE_BUILD_MIN || e.floors.dateKey >= adoption;
    var floor := if expectLaneFloor then e.floors.laneFloor else e.floors.legacyFloor;
    if e.sparkleBuild < floor then Some(BelowFloor(e.title, e.sparkleBuild, expectLaneFloor, floor)) else None
  }

  function FloorErrors(entries: seq<Entry>, adoption: nat): seq<Error> {
    if entries == [] then []
    else FloorErrors(entries[..|entries| - 1], adoption) + Listed(FloorError(entries[|entries| - 1], adoption))
  }

  function Errors(items: seq<Item>): seq<Error> {
    (if items == [] then [NoItems] else []) + ShapeErrors(items)
    + FloorErrors(Entries(items), AdoptionDateKey(Entries(items)))
  }

  lemma ShapeSnoc(items: seq<Item>, i: nat)
    requires i < |items|
    ensures ShapeErrors(items[..i + 1]) == ShapeErrors(items[..i]) + Listed(ShapeError(items[i]))
    ensures Entries(items[..i + 1]) == Entries(items[..i]) + Listed(EntryOf(items[i]))
  {
    hide ShapeError, EntryOf, Listed;
    assert items[..i + 1][..i] == items[..i];
  }

  lemma FloorSnoc(entries: seq<Entry>, adoption: nat, i: nat)
    requires i < |entries|
    ensures FloorErrors(entries[..i + 1], adoption)
         == FloorErrors(entries[..i], adoption) + Listed(FloorError(entries[i], adoption))
  {
    hide FloorError, Listed;
    assert entries[..i + 1][..i] == entries[..i];
  }

  /** What the first loop adds for an item. */
  lemma ItemAdds(item: Item)
    ensures var errors, entries := Listed(ShapeError(item)), Listed(EntryOf(item));
            && (!HasVersion(item) ==> errors == [MissingVersion(item.title)] && entries == [])
            && (HasVersion(item) && !IsNumeral(item.sparkleVersion.value) ==>
                  errors == [NonNumericVersion(item.title, item.sparkleVersion.value)] && entries == [])
            && (HasVersion(item) && IsNumeral(item.sparkleVersion.value) ==>
                  && errors == []
                  && entries == if !item.shortVersion.Calver? then []
                                else
                                  var floors := SparkleBuildFloors(item.shortVersion.version);
                                  if floors == None then []
                                  else [Entry(item.title, Number(item.sparkleVersion.value), floors.value)])
  {
    hide IsNumeral, SparkleBuildFloors, Number;
  }

  method CollectAppcastSparkleVersionErrors(items: seq<Item>) returns (errors: seq<Error>)
    ensures errors == Errors(items)
  {
    hide ShapeErrors, Entries, AdoptionDateKey, FloorErrors, IsNumeral, SparkleBuildFloors, Number, ShapeError, EntryOf;
    errors := [];
    var calverItems: seq<Entry> := [];
    if items == [] {
      errors := errors + [NoItems];
    }
    ghost var start := errors;
    NothingCollected(AdoptionDateKey(Entries(items)));
    for i := 0 to |items|
      invariant errors == start + ShapeErrors(items[..i])
      invariant calverItems == Entries(items[..i])
    {
      ShapeSnoc(items, i);
      var item := items[i];
      ItemAdds(item);
      if !HasVersion(item) {
        errors := errors + [MissingVersion(item.title)];
        continue;
      }
      var sparkleVersion := item.sparkleVersion.value;
      if !IsNumeral(sparkleVersion) {
        errors := errors + [NonNumericVersion(item.title, sparkleVersion)];
        continue;
      }
      if !item.shortVersion.Calver? {
        continue;
      }
      var floors := SparkleBuildFloors(item.shortVersion.version);
      if floors == None {
        continue;
      }
      calverItems := calverItems + [Entry(item.title, Number(sparkleVersion), floors.value)];
    }
    assert items[..|items|] == items;
    ghost var shaped := errors;
    var adoption := AdoptionDateKey(calverItems);
    for i := 0 to |calverItems|
      invariant errors == shaped + FloorErrors(calverItems[..i], adoption)
    {
      FloorSnoc(calverItems, adoption, i);
      var item := calverItems[i];
      var expectLaneFloor := item.sparkleBuild >= LANE_BUILD_MIN || item.floors.dateKey >= adoption;
      var floor := if expectLaneFloor then item.floors.laneFloor else item.floors.legacyFloor;
      if item.sparkleBuild < floor {
        errors := errors + [BelowFloor(item.title, item.sparkleBuild, expectLaneFloor, floor)];
      }
    }
    assert calverItems[..|calverItems|] == calverItems;
  }

  lemma NothingCollected(adoption: nat)
    ensures ShapeErrors([]) == [] && Entries([]) == [] && FloorErrors([], adoption) == []
  {
  }

  // ---- which items are rejected ---------------------------------------------------------------------------

  /** Some item of the feed carries a lane build and is dated no later. */
  ghost predicate Adopted(items: seq<Item>, dateKey: nat) {
    exists j :: 0 <= j < |items| && AdoptsBy(items[j], dateKey)
  }

  predicate AdoptsBy(item: Item, dateKey: nat) {
    && EntryOf(item).Some?
    && EntryOf(item).value.sparkleBuild >= LANE_BUILD_MIN
    && EntryOf(item).value.floors.dateKey <= dateKey
  }

  /** The entry belongs to the lane era: its own build is a lane build, the fixed date has passed, or
      the feed has adopted lane builds by its date. */
  ghost predicate InLaneEra(items: seq<Item>, e: Entry) {
    || e.sparkleBuild >= LANE_BUILD_MIN
    || e.floors.dateKey >= LANE_FLOOR_ADOPTION_DATE_KEY
    || Adopted(items, e.floors.dateKey)
  }

  ghost function FloorOf(items: seq<Item>, e: Entry): nat {
    if InLaneEra(items, e) then e.floors.laneFloor else e.floors.legacyFloor
  }

  /** Item `i` is numeric and dated, and its build is below the floor of its era. */
  ghost predicate RejectedAt(items: seq<Item>, i: nat)
    requires i < |items|
  {
    EntryOf(items[i]).Some? && EntryOf(items[i]).value.sparkleBuild < FloorOf(items, EntryOf(items[i]).value)
  }

  lemma AdoptedSnoc(items: seq<Item>, last: Item, dateKey: nat)
    ensures Adopted(items + [last], dateKey) <==> Adopted(items, dateKey) || AdoptsBy(last, dateKey)
  {
    hide AdoptsBy;
    var all := items + [last];
    assert all[|items|] == last;
    assert forall j :: 0 <= j < |items| ==> all[j] == items[j];
  }

  lemma AdoptionSnoc(entries: seq<Entry>, item: Item, dateKey: nat)
    ensures AdoptionDateKey(entries + Listed(EntryOf(item))) <= dateKey
       <==> AdoptionDateKey(entries) <= dateKey || AdoptsBy(item, dateKey)
  {
    var more := Listed(EntryOf(item));
    hide EntryOf;
    if |more| == 0 {
      assert entries + more == entries;
    } else {
      assert (entries + more)[..|entries|] == entries;
    }
  }

  lemma NothingAdopted(dateKey: nat)
    ensures !Adopted([], dateKey) && Entries([]) == [] && AdoptionDateKey([]) == LANE_FLOOR_ADOPTION_DATE_KEY
  {
  }

  /** The computed adoption date is no later than a date exactly when the fixed date is, or an item
      with a lane build is. */
  lemma {:induction false} AdoptionReached(items: seq<Item>, dateKey: nat)
    ensures AdoptionDateKey(Entries(items)) <= dateKey
       <==> dateKey >= LANE_FLOOR_ADOPTION_DATE_KEY || Adopted(items, dateKey)
    decreases |items|
  {
    hide *;
    if items == [] {
      NothingAdopted(dateKey);
    } else {
      var rest, last := items[..|items| - 1], items[|items| - 1];
      AdoptionReached(rest, dateKey);
      ShapeSnoc(items, |items| - 1);
      assert items[..|items|] == items && items == rest + [last];
      AdoptionSnoc(Entries(rest), last, dateKey);
      AdoptedSnoc(rest, last, dateKey);
    }
  }

  /** The error of item `i`, if it is rejected. */
  ghost function RejectionOf(items: seq<Item>, i: nat): Option<Error>
    requires i < |items|
  {
    if !RejectedAt(items, i) then None
    else
      var e := EntryOf(items[i]).value;
      Some(BelowFloor(e.title, e.sparkleBuild, InLaneEra(items, e), FloorOf(items, e)))
  }

  lemma FloorErrorIsRejection(items: seq<Item>, i: nat)
    requires i < |items| && EntryOf(items[i]).Some?
    ensures FloorError(EntryOf(items[i]).value, AdoptionDateKey(Entries(items))) == RejectionOf(items, i)
  {
    hide EntryOf, Adopted, AdoptionDateKey, Entries;
    AdoptionReached(items, EntryOf(items[i]).value.floors.dateKey);
  }

  /** The floor errors of the items before `n`, in their order. */
  ghost function Rejections(items: seq<Item>, n: nat): seq<Error>
    requires n <= |items|
  {
    if n == 0 then [] else Rejections(items, n - 1) + Listed(RejectionOf(items, n - 1))
  }

  lemma FloorErrorsSnoc(entries: seq<Entry>, x: Option<Entry>, adoption: nat)
    ensures FloorErrors(entries + Listed(x), adoption)
         == FloorErrors(entries, adoption) + if x.Some? then Listed(FloorError(x.value, adoption)) else []
  {
    hide FloorError;
    if x.Some? {
      assert (entries + [x.value])[..|entries|] == entries;
    } else {
      assert entries + [] == entries;
      assert FloorErrors(entries, adoption) + [] == FloorErrors(entries, adoption);
    }
  }

  lemma NotRejected(items: seq<Item>, i: nat)
    requires i < |items| && EntryOf(items[i]) == None
    ensures RejectionOf(items, i) == None
  {
  }

  lemma RejectionsSnoc(items: seq<Item>, n: nat)
    requires n < |items|
    ensures Rejections(items, 0) == []
    ensures Rejections(items, n + 1) == Rejections(items, n) + Listed(RejectionOf(items, n))
  {
  }

  lemma {:induction false} FloorErrorsAreRejectionsUpTo(items: seq<Item>, n: nat)
    requires n <= |items|
    ensures FloorErrors(Entries(items[..n]), AdoptionDateKey(Entries(items))) == Rejections(items, n)
  {
    hide *;
    var adoption := AdoptionDateKey(Entries(items));
    if n == 0 {
      NothingCollected(adoption);
      NoRejections(items);
    } else {
      FloorErrorsAreRejectionsUpTo(items, n - 1);
      ShapeSnoc(items, n - 1);
      FloorErrorsSnoc(Entries(items[..n - 1]), EntryOf(items[n - 1]), adoption);
      RejectionsSnoc(items, n - 1);
      if EntryOf(items[n - 1]).Some? {
        FloorErrorIsRejection(items, n - 1);
      } else {
        NotRejected(items, n - 1);
        NothingListed<Error>();
      }
    }
  }

  lemma NoRejections(items: seq<Item>)
    ensures Rejections(items, 0) == []
  {
  }

  lemma NothingListed<T>()
    ensures Listed<T>(None) == []
  {
  }

  /** The errors about floors are one for each rejected item, in the order of the items, naming the
      floor of its era. */
  lemma FloorErrorsAreRejections(items: seq<Item>)
    ensures Errors(items) == (if items == [] then [NoItems] else []) + ShapeErrors(items) + Rejections(items, |items|)
  {
    FloorErrorsAreRejectionsUpTo(items, |items|);
    assert items[..|items|] == items;
    hide ShapeErrors, FloorErrors, Rejections, Entries, AdoptionDateKey;
  }

  lemma {:induction false} NoShapeErrors(items: seq<Item>)
    ensures ShapeErrors(items) == [] <==> forall i :: 0 <= i < |items| ==> ShapeError(items[i]) == None
    decreases |items|
  {
    hide ShapeError;
    if items != [] { NoShapeErrors(items[..|items| - 1]); }
  }

  lemma {:induction false} NoneRejected(items: seq<Item>, n: nat)
    requires n <= |items|
    ensures Rejections(items, n) == [] <==> forall i :: 0 <= i < n ==> !RejectedAt(items, i)
  {
    hide RejectedAt, FloorOf, InLaneEra;
    if n > 0 { NoneRejected(items, n - 1); }
  }

  /** A feed passes exactly when it has items, every item has a numeric version, and none is below the
      floor of its era. */
  lemma PassesExactly(items: seq<Item>)
    ensures Errors(items) == []
       <==> items != [] && forall i :: 0 <= i < |items| ==> ShapeError(items[i]) == None && !RejectedAt(items, i)
  {
    FloorErrorsAreRejections(items);
    NoShapeErrors(items);
    NoneRejected(items, |items|);
    hide *;
  }

  /** The item's version is a non-empty string of digits. */
  predicate Numeric(item: Item) {
    item.sparkleVersion.Some? && item.sparkleVersion.value != [] && IsNumeral(item.sparkleVersion.value)
  }

  /** The item has a calendar version with a date. */
  predicate Dated(item: Item) { item.shortVersion.Calver? && IsDate(item.shortVersion.version) }

  function DateKeyOf(item: Item): nat
    requires Dated(item)
  {
    var v := item.shortVersion.version;
    v.year * 10000 + v.month * 100 + v.day
  }

  /** Some dated item, no later than the date, has a build of at least ten digits. */
  ghost predicate LaneBuildBy(items: seq<Item>, dateKey: nat) {
    exists j :: 0 <= j < |items| && HasLaneBuild(items[j], dateKey)
  }

  predicate HasLaneBuild(item: Item, dateKey: nat) {
    Numeric(item) && Dated(item) && Number(item.sparkleVersion.value) >= 1_000_000_000 && DateKeyOf(item) <= dateKey
  }

  /** The build reaches the floor of its date: the date and a lane of two digits when the build has ten
      digits, the date is 27 February 2026 or later, or a lane build is dated no later; otherwise the date
      and a zero. */
  ghost predicate HighEnough(items: seq<Item>, item: Item)
    requires Numeric(item) && Dated(item)
  {
    var build, date := Number(item.sparkleVersion.value), DateKeyOf(item);
    if build >= 1_000_000_000 || date >= 20260227 || LaneBuildBy(items, date) then
      build >= date * 100 + Lane(item.shortVersion.version.suffix)
    else build >= date * 10
  }

  lemma EntryIs(item: Item)
    ensures ShapeError(item) == None <==> Numeric(item)
    ensures EntryOf(item).Some? <==> Numeric(item) && Dated(item)
    ensures EntryOf(item).Some? ==>
              var e := EntryOf(item).value;
              && e.sparkleBuild == Number(item.sparkleVersion.value)
              && e.floors.dateKey == DateKeyOf(item)
              && e.floors.legacyFloor == DateKeyOf(item) * 10
              && e.floors.laneFloor == DateKeyOf(item) * 100 + Lane(item.shortVersion.version.suffix)
  {
    hide IsNumeral, Number, SparkleBuildFloors, Lane;
  }

  lemma AdoptsByIs(item: Item, dateKey: nat)
    ensures AdoptsBy(item, dateKey) <==> HasLaneBuild(item, dateKey)
  {
    EntryIs(item);
    hide IsNumeral, Number, EntryOf, ShapeError, Numeric, Dated, Lane;
  }

  lemma AdoptedIs(items: seq<Item>, dateKey: nat)
    ensures Adopted(items, dateKey) <==> LaneBuildBy(items, dateKey)
  {
    hide AdoptsBy, HasLaneBuild;
    forall item: Item ensures AdoptsBy(item, dateKey) <==> HasLaneBuild(item, dateKey) {
      AdoptsByIs(item, dateKey);
    }
  }

  lemma RejectedIs(items: seq<Item>, i: nat)
    requires i < |items|
    ensures RejectedAt(items, i) <==> Numeric(items[i]) && Dated(items[i]) && !HighEnough(items, items[i])
  {
    EntryIs(items[i]);
    if EntryOf(items[i]).Some? {
      AdoptedIs(items, EntryOf(items[i]).value.floors.dateKey);
    }
    hide IsNumeral, Number, EntryOf, ShapeError, Numeric, Dated, Lane, DateKeyOf, Adopted, LaneBuildBy;
  }

  /** The same in numbers alone. */
  lemma PassesByNumbersExactly(items: seq<Item>)
    ensures Errors(items) == []
       <==> items != [] && forall i :: 0 <= i < |items| ==>
              Numeric(items[i]) && (Dated(items[i]) ==> HighEnough(items, items[i]))
  {
    PassesExactly(items);
    forall i | 0 <= i < |items|
      ensures ShapeError(items[i]) == None <==> Numeric(items[i])
      ensures RejectedAt(items, i) <==> Numeric(items[i]) && Dated(items[i]) && !HighEnough(items, items[i])
    {
      EntryIs(items[i]);
      RejectedIs(items, i);
    }
    hide *;
  }

  // ---- consequences ----------------------------------------------------------------------------------

  /** The item carries the canonical build of its version. */
  predicate Canonical(item: Item) {
    && HasVersion(item) && IsNumeral(item.sparkleVersion.value)
    && item.shortVersion.Calver?
    && CanonicalSparkleBuild(item.shortVersion.version) == Some(Number(item.sparkleVersion.value))
  }

  lemma EntryFloors(item: Item)
    requires EntryOf(item).Some?
    ensures var e := EntryOf(item).value;
            && item.shortVersion.Calver? && IsDate(item.shortVersion.version)
            && e.floors == SparkleBuildFloors(item.shortVersion.version).value
            && e.floors.legacyFloor < LANE_BUILD_MIN && e.floors.legacyFloor <= e.floors.laneFloor
            && (LANE_BUILD_MIN <= e.floors.laneFloor <==> item.shortVersion.version.year >= 1000)
  {
    LanesSeparate(item.shortVersion.version);
    hide SparkleBuildFloors;
  }

  lemma CanonicalEntry(item: Item)
    requires Canonical(item)
    ensures ShapeError(item) == None
    ensures EntryOf(item).Some? && EntryOf(item).value.sparkleBuild == EntryOf(item).value.floors.laneFloor
  {
    hide SparkleBuildFloors, Number, IsNumeral;
  }

  /** A feed of canonical builds always passes, whatever its dates. */
  lemma CanonicalFeedPasses(items: seq<Item>)
    requires items != [] && forall i :: 0 <= i < |items| ==> Canonical(items[i])
    ensures Errors(items) == []
  {
    hide *;
    forall i | 0 <= i < |items| ensures ShapeError(items[i]) == None && !RejectedAt(items, i) {
      CanonicalIsNotRejected(items, i);
    }
    PassesExactly(items);
  }

  lemma CanonicalIsNotRejected(items: seq<Item>, i: nat)
    requires i < |items| && Canonical(items[i])
    ensures ShapeError(items[i]) == None && !RejectedAt(items, i)
  {
    hide EntryOf, Canonical, ShapeError, InLaneEra, SparkleBuildFloors;
    CanonicalEntry(items[i]);
    EntryFloors(items[i]);
  }

  lemma AdoptedInMore(a: seq<Item>, item: Item, b: seq<Item>, dateKey: nat)
    ensures Adopted(a + [item] + b, dateKey) <==> Adopted(a + b, dateKey) || AdoptsBy(item, dateKey)
  {
    hide AdoptsBy;
    var all := a + [item] + b;
    if Adopted(a + b, dateKey) {
      var j :| 0 <= j < |a + b| && AdoptsBy((a + b)[j], dateKey);
      assert all[if j < |a| then j else j + 1] == (a + b)[j];
    }
    if AdoptsBy(item, dateKey) {
      assert all[|a|] == item;
    }
    if Adopted(all, dateKey) {
      var j :| 0 <= j < |all| && AdoptsBy(all[j], dateKey);
      assert j < |a| ==> (a + b)[j] == all[j];
      assert j > |a| ==> (a + b)[j - 1] == all[j];
    }
  }

  /** Where item `i` of `a + b` stands once an item is added after `a`. */
  function Shifted(a: seq<Item>, b: seq<Item>, i: nat): (k: nat)
    requires i < |a + b|
    ensures forall item: Item :: k < |a + [item] + b| && (a + [item] + b)[k] == (a + b)[i]
  {
    if i < |a| then i else i + 1
  }

  /** Adding an item anywhere never removes a rejection, and rejects another item exactly when the new
      one carries a lane build dated no later, and the other a legacy build dated before the lane era
      and below its lane floor. */
  lemma RejectionsAfterAdding(a: seq<Item>, item: Item, b: seq<Item>, i: nat)
    requires i < |a + b| && EntryOf((a + b)[i]).Some?
    ensures var e := EntryOf((a + b)[i]).value;
            (RejectedAt(a + [item] + b, Shifted(a, b, i))
             <==> || RejectedAt(a + b, i)
                  || (AdoptsBy(item, e.floors.dateKey) && !InLaneEra(a + b, e) && e.sparkleBuild < e.floors.laneFloor))
  {
    hide EntryOf, Adopted, AdoptsBy, Shifted;
    AdoptedInMore(a, item, b, EntryOf((a + b)[i]).value.floors.dateKey);
    EntryFloors((a + b)[i]);
    assert (a + [item] + b)[Shifted(a, b, i)] == (a + b)[i];
  }

  /** In a feed that passes, once an item carries a lane build, so does every item dated from the year
      1000 on that is not dated before it. */
  lemma AdoptionIsFinal(items: seq<Item>, i: nat, j: nat)
    requires Errors(items) == [] && i < |items| && j < |items|
    requires EntryOf(items[i]).Some? && items[i].shortVersion.version.year >= 1000
    requires AdoptsBy(items[j], EntryOf(items[i]).value.floors.dateKey)
    ensures EntryOf(items[i]).value.sparkleBuild >= LANE_BUILD_MIN
  {
    PassesExactly(items);
    EntryFloors(items[i]);
    assert !RejectedAt(items, i);
    hide EntryOf, AdoptsBy, Errors;
    assert Adopted(items, EntryOf(items[i]).value.floors.dateKey);
  }

  // ---- an item that rejects another ---------------------------------------------------------------------------

  /** A legacy item at its legacy floor, dated before the fixed date and from the year 1000 on, passes alone,
      and is rejected as soon as an item with a lane build dated no later is added. */
  lemma AddedItemRejects(legacy: Item, lane: Item)
    requires EntryOf(legacy).Some? && EntryOf(legacy).value.sparkleBuild == EntryOf(legacy).value.floors.legacyFloor
    requires EntryOf(legacy).value.floors.dateKey < LANE_FLOOR_ADOPTION_DATE_KEY
    requires legacy.shortVersion.version.year >= 1000 && AdoptsBy(lane, EntryOf(legacy).value.floors.dateKey)
    ensures Errors([legacy]) == [] && RejectedAt([lane, legacy], 1)
  {
    LegacyAlonePasses(legacy);
    EntryFloors(legacy);
    hide EntryOf, AdoptsBy, Errors;
    assert [lane, legacy][0] == lane && [lane, legacy][1] == legacy;
    assert Adopted([lane, legacy], EntryOf(legacy).value.floors.dateKey);
  }

  lemma LegacyAlonePasses(legacy: Item)
    requires EntryOf(legacy).Some? && EntryOf(legacy).value.sparkleBuild == EntryOf(legacy).value.floors.legacyFloor
    requires EntryOf(legacy).value.floors.dateKey < LANE_FLOOR_ADOPTION_DATE_KEY
    ensures Errors([legacy]) == []
  {
    EntryFloors(legacy);
    PassesExactly([legacy]);
    EntryIsShaped(legacy);
    assert !Adopted([legacy], EntryOf(legacy).value.floors.dateKey) by {
      hide EntryOf;
      assert [legacy][0] == legacy;
    }
    hide EntryOf, Errors, ShapeError, Adopted;
    assert [legacy][0] == legacy;
  }

  lemma EntryIsShaped(item: Item)
    requires EntryOf(item).Some?
    ensures ShapeError(item) == None
  {
    hide SparkleBuildFloors, Numerals.Number, IsNumeral;
  }

  /** The items for 2026.1.1 with build 202601010 and for 2025.12.1 with build 2025120190 are such a pair. */
  lemma AddingRejectsLegacyItem(title: Text, other: Text)
    ensures var legacy := Item(title, Calver(Version(2026, 1, 1, NoSuffix)), Some(Digits(202601010)));
            var lane := Item(other, Calver(Version(2025, 12, 1, NoSuffix)), Some(Digits(2025120190)));
            Errors([legacy]) == [] && RejectedAt([lane, legacy], 1)
  {
    var legacy := Item(title, Calver(Version(2026, 1, 1, NoSuffix)), Some(Digits(202601010)));
    var lane := Item(other, Calver(Version(2025, 12, 1, NoSuffix)), Some(Digits(2025120190)));
    NumericEntry(legacy, 202601010);
    NumericEntry(lane, 2025120190);
    hide EntryOf, Digits, Numerals.Number, IsNumeral, Errors, RejectedAt;
    AddedItemRejects(legacy, lane);
  }

  lemma NumericEntry(item: Item, build: nat)
    requires item.sparkleVersion == Some(Digits(build)) && item.shortVersion.Calver?
    requires IsDate(item.shortVersion.version)
    ensures EntryOf(item) == Some(Entry(item.title, build, SparkleBuildFloors(item.shortVersion.version).value))
  {
    NumberOfDigits(build);
    DigitsNotEmpty(build);
    hide Digits, Numerals.Number, IsNumeral, SparkleBuildFloors;
  }
}
