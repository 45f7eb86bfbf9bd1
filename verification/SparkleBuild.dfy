/** Sparkle build numbers from calendar versions (scripts/sparkle-build.ts). */
module SparkleBuild {
  import opened JsText
  import opened Numerals

  // ---- two-digit fields ----------------------------------------------------------------------------

  /** `t.padStart(2, "0")` */
  function Pad2(t: Text): Text {
    if |t| >= 2 then t else if |t| == 1 then [0x30] + t else [0x30, 0x30]
  }

  lemma TwoDigits(n: nat)
    requires n < 100
    ensures IsNumeral(Pad2(Digits(n))) && |Pad2(Digits(n))| == 2 && Number(Pad2(Digits(n))) == n
  {
    DigitsStep(n);
    NumberOfDigits(n);
    if n < 10 {
      NumberZeroThen(n);
    } else {
      DigitsStep(n / 10);
    }
    hide IsNumeral, Number, Digits;
  }

  lemma NumberZeroThen(d: nat)
    requires d < 10
    ensures IsNumeral([0x30] + [0x30 + d]) && Number([0x30] + [0x30 + d]) == d
  {
    NumberOne(0);
    NumberSnoc([0x30], d);
    hide IsNumeral, Number;
  }

  /** Writing two more digits after a numeral. */
  lemma NumberThenTwo(a: Text, b: Text)
    requires IsNumeral(a) && IsNumeral(b) && |b| == 2
    ensures IsNumeral(a + b) && Number(a + b) == Number(a) * 100 + Number(b)
  {
    var c, d := b[0] - 0x30, b[1] - 0x30;
    NumberSnoc(a, c);
    NumberSnoc(a + [0x30 + c], d);
    NumberSnoc([], c);
    NumberSnoc([] + [0x30 + c], d);
    assert a + b == a + [0x30 + c] + [0x30 + d];
    assert b == [] + [0x30 + c] + [0x30 + d];
  }

  // ---- versions --------------------------------------------------------------------------------------

  /** What follows the date: nothing, text ending in a number, or other text. */
  datatype Suffix = NoSuffix | Numbered(n: nat) | Worded

  /** The parts of a short version of the form YYYY.M.D with an optional suffix. */
  datatype Version = Version(year: nat, month: nat, day: nat, suffix: Suffix)

  datatype Floors = Floors(dateKey: nat, legacyFloor: nat, laneFloor: nat, lane: nat)

  predicate IsDate(v: Version) { v.year <= 9999 && 1 <= v.month <= 12 && 1 <= v.day <= 31 }

  function Lane(s: Suffix): nat {
    match s
    case NoSuffix => 90
    case Numbered(n) => if n < 89 then n else 89
    case Worded => 1
  }

  /** `${year}${month padded}${day padded}` */
  function DateText(v: Version): Text { Digits(v.year) + Pad2(Digits(v.month)) + Pad2(Digits(v.day)) }

  lemma DateTextNumber(v: Version)
    requires IsDate(v)
    ensures IsNumeral(DateText(v)) && Number(DateText(v)) == v.year * 10000 + v.month * 100 + v.day
  {
    var y, m, d := Digits(v.year), Pad2(Digits(v.month)), Pad2(Digits(v.day));
    hide Digits, Pad2, Number, IsNumeral;
    NumberOfDigits(v.year);
    TwoDigits(v.month);
    TwoDigits(v.day);
    NumberThenTwo(y, m);
    NumberThenTwo(y + m, d);
  }

  lemma FloorTexts(dateKey: nat, lane: nat)
    requires lane < 100
    ensures IsNumeral(Digits(dateKey) + [0x30]) && Number(Digits(dateKey) + [0x30]) == dateKey * 10
    ensures IsNumeral(Digits(dateKey) + Pad2(Digits(lane)))
            && Number(Digits(dateKey) + Pad2(Digits(lane))) == dateKey * 100 + lane
  {
    hide Digits, Pad2, Number, IsNumeral;
    NumberOfDigits(dateKey);
    NumberSnoc(Digits(dateKey), 0);
    TwoDigits(lane);
    NumberThenTwo(Digits(dateKey), Pad2(Digits(lane)));
  }

  /** `sparkleBuildFloorsFromShortVersion`, from the matched parts on: the numbers are read back from
      the concatenated decimal texts, which adds a two-digit field to each. */
  function SparkleBuildFloors(v: Version): (r: Option<Floors>)
    ensures r.Some? <==> v.year <= 9999 && 1 <= v.month <= 12 && 1 <= v.day <= 31
    ensures r.Some? ==> r.value.dateKey == v.year * 10000 + v.month * 100 + v.day
    ensures r.Some? ==> r.value.legacyFloor == r.value.dateKey * 10
    ensures r.Some? ==> r.value.laneFloor == r.value.dateKey * 100 + r.value.lane && r.value.lane == Lane(v.suffix)
  {
    if !IsDate(v) then None
    else
      DateTextNumber(v);
      var dateKey := Number(DateText(v));
      FloorTexts(dateKey, Lane(v.suffix));
      var lane := Lane(v.suffix);
      Some(Floors(dateKey, Number(Digits(dateKey) + [0x30]), Number(Digits(dateKey) + Pad2(Digits(lane))), lane))
  }

  /** `canonicalSparkleBuildFromVersion` */
  function CanonicalSparkleBuild(v: Version): Option<nat> {
    match SparkleBuildFloors(v)
    case Some(floors) => Some(floors.laneFloor)
    case None => None
  }

  // ---- what the numbers say -----------------------------------------------------------------------

  /** A release comes after every suffix; numbers count up, but not past 89; a worded suffix comes after
      the number 0 and before the number 2. */
  predicate SuffixBefore(a: Suffix, b: Suffix) {
    match (a, b)
    case (NoSuffix, _) => false
    case (_, NoSuffix) => true
    case (Numbered(m), Numbered(n)) => m < n && m < 89
    case (Numbered(m), Worded) => m == 0
    case (Worded, Numbered(n)) => n >= 2
    case (Worded, Worded) => false
  }

  predicate Before(a: Version, b: Version) {
    || a.year < b.year
    || (a.year == b.year && a.month < b.month)
    || (a.year == b.year && a.month == b.month && a.day < b.day)
    || (a.year == b.year && a.month == b.month && a.day == b.day && SuffixBefore(a.suffix, b.suffix))
  }

  /** Canonical builds are ordered as the versions are: by year, month, day and suffix. */
  lemma BuildsOrderVersions(a: Version, b: Version)
    requires IsDate(a) && IsDate(b)
    ensures CanonicalSparkleBuild(a).value < CanonicalSparkleBuild(b).value <==> Before(a, b)
  {
    hide DateText, Digits, Pad2, Number;
    assert Lane(a.suffix) < 100 && Lane(b.suffix) < 100;
    LanesOrderSuffixes(a.suffix, b.suffix);
    hide Lane, SuffixBefore;
  }

  lemma LanesOrderSuffixes(a: Suffix, b: Suffix)
    ensures Lane(a) < Lane(b) <==> SuffixBefore(a, b)
  {
  }

  /** The date can be read back from a canonical build, and so can the suffix: 90 is a release, 0 to 89 a
      number or everything past it, 1 also a word. */
  lemma BuildDecodes(v: Version)
    requires IsDate(v)
    ensures var build := CanonicalSparkleBuild(v).value;
            && build / 1000000 == v.year
            && build / 10000 % 100 == v.month
            && build / 100 % 100 == v.day
            && match v.suffix
               case NoSuffix => build % 100 == 90
               case Numbered(n) => build % 100 == if n <= 89 then n else 89
               case Worded => build % 100 == 1
  {
    BuildIs(v);
    LaneIs(v.suffix);
    hide *;
    DigitsBelow(v.year, v.month, v.day, Lane(v.suffix), CanonicalSparkleBuild(v).value);
  }

  lemma LaneIs(s: Suffix)
    ensures match s
            case NoSuffix => Lane(s) == 90
            case Numbered(n) => Lane(s) == if n <= 89 then n else 89
            case Worded => Lane(s) == 1
  {
  }

  lemma BuildIs(v: Version)
    requires IsDate(v)
    ensures CanonicalSparkleBuild(v).Some? && v.month < 100 && v.day < 100 && Lane(v.suffix) < 100
    ensures CanonicalSparkleBuild(v).value == ((v.year * 100 + v.month) * 100 + v.day) * 100 + Lane(v.suffix)
  {
    hide DateText, Digits, Pad2, Number;
  }

  lemma DigitsBelow(year: nat, month: nat, day: nat, lane: nat, build: nat)
    requires month < 100 && day < 100 && lane < 100 && build == ((year * 100 + month) * 100 + day) * 100 + lane
    ensures build / 1000000 == year && build / 10000 % 100 == month && build / 100 % 100 == day && build % 100 == lane
  {
    LastTwo((year * 100 + month) * 100 + day, lane);
    LastTwo(year * 100 + month, day);
    LastTwo(year, month);
    assert build / 10000 == build / 100 / 100 && build / 1000000 == build / 10000 / 100;
  }

  lemma LastTwo(a: nat, b: nat)
    requires b < 100
    ensures (a * 100 + b) / 100 == a && (a * 100 + b) % 100 == b
  {
  }

  /** Two versions share a canonical build exactly when they share the date and their suffixes are the
      same, both number at least 89, or are a worded one and the number 1. */
  lemma BuildsCollideExactly(a: Version, b: Version)
    requires IsDate(a) && IsDate(b)
    ensures CanonicalSparkleBuild(a) == CanonicalSparkleBuild(b)
       <==> && a.year == b.year && a.month == b.month && a.day == b.day
            && (|| a.suffix == b.suffix
                || (a.suffix.Numbered? && b.suffix.Numbered? && a.suffix.n >= 89 && b.suffix.n >= 89)
                || (a.suffix == Worded && b.suffix == Numbered(1))
                || (a.suffix == Numbered(1) && b.suffix == Worded))
  {
    BuildDecodes(a);
    BuildDecodes(b);
    hide SparkleBuildFloors, DateText, Digits, Pad2, Number;
    LanesCollideExactly(a.suffix, b.suffix);
    assert CanonicalSparkleBuild(a).Some? && CanonicalSparkleBuild(b).Some?;
  }

  lemma LanesCollideExactly(a: Suffix, b: Suffix)
    ensures Lane(a) == Lane(b)
       <==> (|| a == b
             || (a.Numbered? && b.Numbered? && a.n >= 89 && b.n >= 89)
             || (a == Worded && b == Numbered(1))
             || (a == Numbered(1) && b == Worded))
  {
  }

  const LANE_BUILD_MIN := 1_000_000_000

  /** Legacy floors stay below the least lane build, and lane floors reach it exactly from the year
      1000 on. */
  lemma LanesSeparate(v: Version)
    requires IsDate(v)
    ensures var f := SparkleBuildFloors(v).value;
            && f.legacyFloor < LANE_BUILD_MIN && f.legacyFloor <= f.laneFloor
            && (LANE_BUILD_MIN <= f.laneFloor <==> v.year >= 1000)
  {
    hide DateText, Digits, Pad2, Number;
  }

  /** On every date the suffixes numbered 89 and 90 share a build, and so do a worded one and the number
      1. */
  lemma SuffixesShareBuild(v: Version)
    requires IsDate(v)
    ensures CanonicalSparkleBuild(v.(suffix := Numbered(89))) == CanonicalSparkleBuild(v.(suffix := Numbered(90)))
    ensures CanonicalSparkleBuild(v.(suffix := Worded)) == CanonicalSparkleBuild(v.(suffix := Numbered(1)))
  {
    hide SparkleBuildFloors, CanonicalSparkleBuild;
    BuildsCollideExactly(v.(suffix := Numbered(89)), v.(suffix := Numbered(90)));
    BuildsCollideExactly(v.(suffix := Worded), v.(suffix := Numbered(1)));
  }
}
