/** Surrogate-safe slicing of UTF-16 text (src/utils.ts). */
module Utf16 {
  import opened JsText

  predicate IsHighSurrogate(u: CodeUnit) { 0xD800 <= u <= 0xDBFF }

  predicate IsLowSurrogate(u: CodeUnit) { 0xDC00 <= u <= 0xDFFF }

  /** A Unicode scalar value: a code point that is not a surrogate. */
  type Scalar = c: int | 0 <= c <= 0x10_FFFF && !(0xD800 <= c <= 0xDFFF)

  /** Section 2.1 of RFC 2781. */
  function EncodeScalar(c: Scalar): (r: Text)
    ensures 1 <= |r| <= 2
  {
    if c < 0x1_0000 then [c]
    else [0xD800 + (c - 0x1_0000) / 0x400, 0xDC00 + (c - 0x1_0000) % 0x400]
  }

  function Encode(cs: seq<Scalar>): Text {
    if cs == [] then [] else EncodeScalar(cs[0]) + Encode(cs[1..])
  }

  /** Section 2.2 of RFC 2781; None on an unpaired surrogate. */
  function Decode(s: Text): Option<seq<Scalar>> {
    if s == [] then Some([])
    else if IsHighSurrogate(s[0]) then
      if |s| >= 2 && IsLowSurrogate(s[1]) then
        match Decode(s[2..])
        case Some(rest) => Some([0x1_0000 + (s[0] - 0xD800) * 0x400 + (s[1] - 0xDC00)] + rest)
        case None => None
      else None
    else if IsLowSurrogate(s[0]) then None
    else
      match Decode(s[1..])
      case Some(rest) => Some([s[0]] + rest)
      case None => None
  }

  predicate WellFormed(s: Text) { Decode(s).Some? }

  /** Every high surrogate is followed by a low one and every low one preceded by a high one. */
  ghost predicate Paired(s: Text) {
    && (forall i :: 0 <= i < |s| && IsHighSurrogate(s[i]) ==> i + 1 < |s| && IsLowSurrogate(s[i + 1]))
    && (forall i :: 0 <= i < |s| && IsLowSurrogate(s[i]) ==> i > 0 && IsHighSurrogate(s[i - 1]))
  }

  /** Position `i` does not fall inside a surrogate pair. */
  predicate Boundary(s: Text, i: int)
    requires 0 <= i <= |s|
  {
    !(0 < i < |s| && IsHighSurrogate(s[i - 1]) && IsLowSurrogate(s[i]))
  }

  // ---- encoding and well-formedness ----------------------------------------------------------

  lemma {:induction false} DecodeEncode(cs: seq<Scalar>)
    ensures Decode(Encode(cs)) == Some(cs)
  {
    if cs != [] {
      DecodeEncode(cs[1..]);
      var e := EncodeScalar(cs[0]);
      assert Encode(cs) == e + Encode(cs[1..]);
      assert Encode(cs)[|e|..] == Encode(cs[1..]);
      assert cs == [cs[0]] + cs[1..];
    }
  }

  lemma {:induction false} EncodeDecode(s: Text)
    requires WellFormed(s)
    ensures Encode(Decode(s).value) == s
  {
    if s != [] {
      var cs := Decode(s).value;
      var n := if IsHighSurrogate(s[0]) then 2 else 1;
      EncodeDecode(s[n..]);
      assert cs[1..] == Decode(s[n..]).value;
      assert s == s[..n] + s[n..];
      assert EncodeScalar(cs[0]) == s[..n];
    }
  }

  /** The recursive and the positional reading of well-formedness agree. */
  lemma {:induction false} WellFormedIsPaired(s: Text)
    ensures WellFormed(s) <==> Paired(s)
  {
    if s != [] {
      if IsHighSurrogate(s[0]) {
        if |s| >= 2 && IsLowSurrogate(s[1]) {
          var t := s[2..];
          WellFormedIsPaired(t);
          assert forall i :: 0 <= i < |t| ==> t[i] == s[i + 2];
          PairedTail(s, 2);
        }
      } else if !IsLowSurrogate(s[0]) {
        WellFormedIsPaired(s[1..]);
        PairedTail(s, 1);
      }
    }
  }

  lemma PairedTail(s: Text, n: nat)
    requires n <= |s| && Boundary(s, n) && Paired(s[..n])
    ensures Paired(s) <==> Paired(s[n..])
  {
    var a, t := s[..n], s[n..];
    assert forall i {:trigger s[i]} :: 0 <= i < n ==> s[i] == a[i];
    assert forall i {:trigger s[i]} :: n <= i < |s| ==> s[i] == t[i - n];
    assert forall i {:trigger t[i]} :: 0 <= i < |t| ==> t[i] == s[i + n];
    if Paired(t) {
      forall i | 0 <= i < |s| && IsHighSurrogate(s[i]) ensures i + 1 < |s| && IsLowSurrogate(s[i + 1]) {
        if i < n { assert IsHighSurrogate(a[i]); assert s[i + 1] == a[i + 1]; }
        else { assert IsHighSurrogate(t[i - n]); assert s[i + 1] == t[i - n + 1]; }
      }
      forall i | 0 <= i < |s| && IsLowSurrogate(s[i]) ensures i > 0 && IsHighSurrogate(s[i - 1]) {
        if i < n { assert IsLowSurrogate(a[i]); assert s[i - 1] == a[i - 1]; }
        else { assert IsLowSurrogate(t[i - n]); assert s[i - 1] == t[i - n - 1]; }
      }
    }
    if Paired(s) {
      forall i | 0 <= i < |t| && IsLowSurrogate(t[i]) ensures i > 0 && IsHighSurrogate(t[i - 1]) {
        assert IsLowSurrogate(s[i + n]) && IsHighSurrogate(s[i + n - 1]);
        assert i > 0;
        assert t[i - 1] == s[i + n - 1];
      }
      forall i | 0 <= i < |t| && IsHighSurrogate(t[i]) ensures i + 1 < |t| && IsLowSurrogate(t[i + 1]) {
        assert IsHighSurrogate(s[i + n]) && IsLowSurrogate(s[i + n + 1]);
        assert t[i + 1] == s[i + n + 1];
      }
    }
  }

  /** Cutting well-formed text at two boundaries leaves well-formed text. */
  lemma BoundarySlice(s: Text, f: nat, t: nat)
    requires f <= t <= |s| && Boundary(s, f) && Boundary(s, t) && WellFormed(s)
    ensures WellFormed(s[f..t])
  {
    var r := s[f..t];
    WellFormedIsPaired(s);
    WellFormedIsPaired(r);
    assert forall i {:trigger r[i]} :: 0 <= i < |r| ==> r[i] == s[f + i];
    forall i | 0 <= i < |r| && IsHighSurrogate(r[i]) ensures i + 1 < |r| && IsLowSurrogate(r[i + 1]) {
      assert IsHighSurrogate(s[f + i]) && IsLowSurrogate(s[f + i + 1]);
      assert f + i + 1 != t;
      assert r[i + 1] == s[f + i + 1];
    }
    forall i | 0 <= i < |r| && IsLowSurrogate(r[i]) ensures i > 0 && IsHighSurrogate(r[i - 1]) {
      assert IsLowSurrogate(s[f + i]) && IsHighSurrogate(s[f + i - 1]);
      assert f + i != f;
      assert r[i - 1] == s[f + i - 1];
    }
  }

  // ---- sliceUtf16Safe ------------------------------------------------------------------------

  /** The window a call asks for: both ends clamped, then put in order. */
  function Window(len: nat, start: int, end: Option<int>): (w: (nat, nat))
    ensures w.0 <= w.1 <= len
  {
    var from := SlicePosition(len, start);
    var to := if end.None? then len else SlicePosition(len, end.value);
    if to < from then (to, from) else (from, to)
  }

  /** The first boundary at or after `i`. */
  function Up(s: Text, i: nat): (f: nat)
    requires i <= |s|
    ensures i <= f <= |s| && Boundary(s, f)
    ensures forall j :: i <= j < f ==> !Boundary(s, j)
  {
    if Boundary(s, i) then i else i + 1
  }

  /** The last boundary at or before `i`. */
  function Down(s: Text, i: nat): (t: nat)
    requires i <= |s|
    ensures t <= i && Boundary(s, t)
    ensures forall j :: t < j <= i ==> !Boundary(s, j)
  {
    if Boundary(s, i) then i else i - 1
  }

  /** The longest part of `s` inside the requested window that starts and ends at a boundary;
      a window that lies inside one pair holds nothing. */
  function SliceUtf16Safe(s: Text, start: int, end: Option<int>): Text {
    var w := Window(|s|, start, end);
    if Up(s, w.0) <= Down(s, w.1) then s[Up(s, w.0)..Down(s, w.1)] else []
  }

  method ComputeSlice(input: Text, start: int, end: Option<int>) returns (r: Text)
    ensures r == SliceUtf16Safe(input, start, end)
  {
    var len := |input|;
    var from := SlicePosition(len, start);
    var to := if end.None? then len else SlicePosition(len, end.value);
    if to < from {
      from, to := to, from;
    }
    assert (from, to) == Window(len, start, end);
    ghost var f, t := Up(input, from), Down(input, to);
    if 0 < from < len {
      var codeUnit := input[from];
      if IsLowSurrogate(codeUnit) && IsHighSurrogate(input[from - 1]) {
        from := from + 1;
      }
    }
    if 0 < to < len {
      var codeUnit := input[to - 1];
      if IsHighSurrogate(codeUnit) && IsLowSurrogate(input[to]) {
        to := to - 1;
      }
    }
    assert from == f && to == t;
    r := Slice(input, from, to);
  }

  /** The position an integer stands for: counted from the end when negative, and no further than the two
      ends. */
  predicate Denotes(len: nat, at: int, i: nat) {
    || (0 <= at <= len && i == at) || (at > len && i == len)
    || (at < 0 <= len + at && i == len + at) || (len + at < 0 && i == 0)
  }

  /** The position lies between the two halves of a surrogate pair. */
  predicate CutsPair(s: Text, i: nat) {
    0 < i < |s| && 0xD800 <= s[i - 1] <= 0xDBFF && 0xDC00 <= s[i] <= 0xDFFF
  }

  /** The slice is the text between the two positions, in whichever order they come, without the half of a
      pair that either end would cut off. */
  lemma SliceByPositions(s: Text, start: int, end: Option<int>, i: nat, j: nat)
    requires Denotes(|s|, start, i)
    requires if end.Some? then Denotes(|s|, end.value, j) else j == |s|
    ensures var lo, hi := if i <= j then i else j, if i <= j then j else i;
            var from, to := if CutsPair(s, lo) then lo + 1 else lo, if CutsPair(s, hi) then hi - 1 else hi;
            && to <= |s|
            && SliceUtf16Safe(s, start, end) == if from <= to then s[from..to] else []
  {
    WindowIs(|s|, start, end, i, j);
    var w := Window(|s|, start, end);
    UpIs(s, w.0);
    DownIs(s, w.1);
    hide Window, Denotes, CutsPair, Up, Down, Boundary;
  }

  lemma WindowIs(len: nat, start: int, end: Option<int>, i: nat, j: nat)
    requires Denotes(len, start, i)
    requires if end.Some? then Denotes(len, end.value, j) else j == len
    ensures Window(len, start, end) == (if i <= j then i else j, if i <= j then j else i)
  {
  }

  lemma UpIs(s: Text, i: nat)
    requires i <= |s|
    ensures Up(s, i) == if CutsPair(s, i) then i + 1 else i
  {
  }

  lemma DownIs(s: Text, i: nat)
    requires i <= |s|
    ensures Down(s, i) == if CutsPair(s, i) then i - 1 else i
  {
  }

  /** Slicing keeps well-formed text well-formed for every pair of integers. */
  lemma SliceWellFormed(s: Text, start: int, end: Option<int>)
    requires WellFormed(s)
    ensures WellFormed(SliceUtf16Safe(s, start, end))
  {
    var w := Window(|s|, start, end);
    if Up(s, w.0) <= Down(s, w.1) {
      BoundarySlice(s, Up(s, w.0), Down(s, w.1));
    }
  }

  /** The pair that position `k` cuts through, or nothing. */
  function Straddling(s: Text, k: nat): (r: Text)
    requires k <= |s|
    ensures |r| == 0 || (|r| == 2 && IsHighSurrogate(r[0]) && IsLowSurrogate(r[1]))
  {
    if Boundary(s, k) then [] else s[k - 1..k + 1]
  }

  lemma HeadSlice(s: Text, k: int)
    ensures SliceUtf16Safe(s, 0, Some(k)) == s[..Down(s, SlicePosition(|s|, k))]
  {
    assert Window(|s|, 0, Some(k)) == (0, SlicePosition(|s|, k));
    assert Up(s, 0) == 0;
  }

  lemma TailSlice(s: Text, k: int)
    ensures SliceUtf16Safe(s, k, None) == s[Up(s, SlicePosition(|s|, k))..]
  {
    assert Window(|s|, k, None) == (SlicePosition(|s|, k), |s|);
    assert Down(s, |s|) == |s|;
  }

  /** The slices before and after any integer position lose exactly the pair straddling it. */
  lemma SplitLosesAtMostOnePair(s: Text, k: int)
    ensures var at := SlicePosition(|s|, k);
            s == SliceUtf16Safe(s, 0, Some(k)) + Straddling(s, at) + SliceUtf16Safe(s, k, None)
  {
    HeadSlice(s, k);
    TailSlice(s, k);
    hide SliceUtf16Safe;
    var at := SlicePosition(|s|, k);
    assert Straddling(s, at) == s[Down(s, at)..Up(s, at)];
  }

  // ---- truncateUtf16Safe ---------------------------------------------------------------------

  function TruncateUtf16Safe(input: Text, maxLen: real): (r: Text)
    ensures r <= input
  {
    var limit := if maxLen.Floor > 0 then maxLen.Floor else 0;
    if |input| <= limit then input
    else
      assert Boundary(input, 0);
      SliceUtf16Safe(input, 0, Some(limit))
  }

  lemma EncodeCons(c: Scalar, cs: seq<Scalar>)
    ensures Encode([c] + cs) == EncodeScalar(c) + Encode(cs)
  {
    assert ([c] + cs)[1..] == cs;
  }

  lemma EncodeNothing()
    ensures Encode([]) == []
  {
  }

  lemma {:induction false} EncodePrefix(cs: seq<Scalar>, k: nat)
    requires k <= |cs|
    ensures Encode(cs[..k]) <= Encode(cs)
    ensures k < |cs| ==> Encode(cs[..k + 1]) == Encode(cs[..k]) + EncodeScalar(cs[k])
  {
    hide Encode, EncodeScalar;
    EncodeNothing();
    if cs != [] {
      var c, rest := cs[0], cs[1..];
      assert cs == [c] + rest && cs[..1] == [c] + [];
      EncodeCons(c, rest);
      EncodeCons(c, []);
      if k == 0 {
        assert cs[..0] == [];
      } else {
        EncodePrefix(rest, k - 1);
        assert cs[..k] == [c] + rest[..k - 1];
        EncodeCons(c, rest[..k - 1]);
        if k < |cs| {
          assert cs[..k + 1] == [c] + rest[..k];
          EncodeCons(c, rest[..k]);
        }
      }
    }
  }

  /** The number of whole scalars that fit in `limit` code units. */
  ghost function Fitting(cs: seq<Scalar>, limit: nat): (k: nat)
    ensures k <= |cs| && |Encode(cs[..k])| <= limit
    ensures k < |cs| ==> |Encode(cs[..k + 1])| > limit
    decreases |cs|
  {
    if cs == [] || |EncodeScalar(cs[0])| > limit then
      assert cs != [] ==> cs[..1] == [cs[0]] && cs[..1][1..] == [];
      0
    else
      var k := Fitting(cs[1..], limit - |EncodeScalar(cs[0])|);
      assert cs[..k + 1][1..] == cs[1..][..k];
      assert k + 1 < |cs| ==> cs[..k + 2][1..] == cs[1..][..k + 1];
      k + 1
  }

  /** Truncation returns the longest prefix of whole code points that fits the limit. */
  lemma TruncateIsLongestPrefix(cs: seq<Scalar>, maxLen: real)
    ensures var limit: nat := if maxLen.Floor > 0 then maxLen.Floor else 0;
            TruncateUtf16Safe(Encode(cs), maxLen) == Encode(cs[..Fitting(cs, limit)])
  {
    var limit: nat := if maxLen.Floor > 0 then maxLen.Floor else 0;
    var s, k := Encode(cs), Fitting(cs, limit);
    EncodePrefix(cs, k);
    if k == |cs| {
      assert cs[..k] == cs;
    } else {
      TruncateCut(cs, k, limit);
    }
  }

  lemma TruncateCut(cs: seq<Scalar>, k: nat, limit: nat)
    requires k < |cs| && |Encode(cs[..k])| <= limit < |Encode(cs[..k + 1])|
    ensures limit < |Encode(cs)| && Encode(cs)[..Down(Encode(cs), limit)] == Encode(cs[..k])
  {
    hide Encode, EncodeScalar, Decode, WellFormed, Paired, Down;
    var s, p, e := Encode(cs), Encode(cs[..k]), EncodeScalar(cs[k]);
    EncodePrefix(cs, k);
    EncodePrefix(cs, k + 1);
    DecodeEncode(cs[..k]);
    EncodedIsPaired(cs[..k]);
    TwoUnits(cs[k]);
    PrefixCut(s, p, e, limit);
  }

  lemma EncodedIsPaired(cs: seq<Scalar>)
    ensures Paired(Encode(cs))
  {
    DecodeEncode(cs);
    WellFormedIsPaired(Encode(cs));
    hide Paired, Encode;
  }

  lemma TwoUnits(c: Scalar)
    ensures |EncodeScalar(c)| == 2 ==> IsHighSurrogate(EncodeScalar(c)[0]) && IsLowSurrogate(EncodeScalar(c)[1])
  {
  }

  /** The last boundary within the limit is the end of what fits. */
  lemma PrefixCut(s: Text, p: Text, e: Text, limit: nat)
    requires p + e <= s && Paired(p) && |p| <= limit < |p| + |e| && |e| <= 2
    requires |e| == 2 ==> IsHighSurrogate(e[0]) && IsLowSurrogate(e[1])
    ensures limit < |s| && s[..Down(s, limit)] == p
  {
    assert s[..|p|] == (p + e)[..|p|] == p;
    assert forall i :: 0 <= i < |p| ==> s[i] == p[i];
    if limit == |p| {
      assert limit > 0 ==> s[limit - 1] == p[limit - 1];
    } else {
      assert s[|p|] == (p + e)[|p|] == e[0] && s[|p| + 1] == (p + e)[|p| + 1] == e[1];
    }
  }
}
