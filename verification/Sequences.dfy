/** Facts about sequences that several models share. */
module Sequences {

  ghost predicate Distinct<T>(s: seq<T>) {
    forall i, j :: 0 <= i < j < |s| ==> s[i] != s[j]
  }

  // ---- two parts joined by a separator ------------------------------------------------------------

  /** The part `x` runs over the part `x'`, a separator and some of what follows it. */
  predicate Overhangs<T(==)>(x: seq<T>, y: seq<T>, x': seq<T>, y': seq<T>, sep: T) {
    && |x| > |x'| && x' + [sep] <= x
    && y' == x[|x'| + 1..] + [sep] + y
  }

  /** Two joins are equal exactly when their parts are, or one first part overhangs the other. */
  lemma JoinedAlikeExactly<T>(x: seq<T>, y: seq<T>, x': seq<T>, y': seq<T>, sep: T)
    ensures x + [sep] + y == x' + [sep] + y'
       <==> (x == x' && y == y') || Overhangs(x, y, x', y', sep) || Overhangs(x', y', x, y, sep)
  {
    OverhangsExactly(x, y, x', y', sep);
    OverhangsExactly(x', y', x, y, sep);
    if |x| == |x'| && x + [sep] + y == x' + [sep] + y' {
      SameLengthAlike(x, y, x', y', sep);
    }
    hide Overhangs;
  }

  lemma SameLengthAlike<T>(x: seq<T>, y: seq<T>, x': seq<T>, y': seq<T>, sep: T)
    requires |x| == |x'| && x + [sep] + y == x' + [sep] + y'
    ensures x == x' && y == y'
  {
    assert (x + [sep] + y)[..|x|] == x && (x' + [sep] + y')[..|x|] == x';
    assert (x + [sep] + y)[|x| + 1..] == y && (x' + [sep] + y')[|x| + 1..] == y';
  }

  lemma OverhangsExactly<T>(x: seq<T>, y: seq<T>, x': seq<T>, y': seq<T>, sep: T)
    ensures Overhangs(x, y, x', y', sep) <==> |x| > |x'| && x + [sep] + y == x' + [sep] + y'
  {
    if |x| > |x'| {
      var n, k, k' := |x'|, x + [sep] + y, x' + [sep] + y';
      assert k[..n + 1] == x[..n + 1] && k[n + 1..] == x[n + 1..] + [sep] + y;
      assert k'[..n + 1] == x' + [sep] && k'[n + 1..] == y';
      assert k == k[..n + 1] + k[n + 1..] && k' == k'[..n + 1] + k'[n + 1..];
    }
  }

  /** First parts without a separator never overhang. */
  lemma JoinedAlikeWithoutSeparator<T>(x: seq<T>, y: seq<T>, x': seq<T>, y': seq<T>, sep: T)
    requires sep !in x && sep !in x'
    ensures x + [sep] + y == x' + [sep] + y' <==> x == x' && y == y'
  {
    JoinedAlikeExactly(x, y, x', y', sep);
    HoldsSeparator(x, x', sep);
    HoldsSeparator(x', x, sep);
  }

  lemma HoldsSeparator<T>(x: seq<T>, x': seq<T>, sep: T)
    ensures x' + [sep] <= x ==> sep in x
  {
    assert x' + [sep] <= x ==> x[|x'|] == (x' + [sep])[|x'|] == sep;
  }
}
