/** `resolveCommonAncestor` of scripts/load-channel-config-surface.ts. */
module CommonAncestor {
  import opened JsText
  import opened ImportPaths

  /** The number of leading segments two paths share. */
  function CommonLength(a: Path, b: Path): (n: nat)
    ensures n <= |a| && n <= |b| && a[..n] == b[..n]
    ensures n < |a| && n < |b| ==> a[n] != b[n]
    decreases |a|
  {
    if a == [] || b == [] || a[0] != b[0] then 0
    else
      var n := CommonLength(a[1..], b[1..]);
      assert a[..n + 1] == [a[0]] + a[1..][..n] && b[..n + 1] == [b[0]] + b[1..][..n];
      n + 1
  }

  /** `path.relative(ancestor, candidate)` starts with "../": it goes up twice, or up once and
      down again. Going up exactly once gives "..", which has no slash. */
  predicate RelativeStartsWithParent(ancestor: Path, candidate: Path) {
    var n := CommonLength(ancestor, candidate);
    |ancestor| - n >= 2 || (|ancestor| - n == 1 && |candidate| > n)
  }

  /** What the inner loop makes of `ancestor` for one candidate. */
  function Meet(ancestor: Path, candidate: Path): Path {
    if candidate < ancestor then ancestor[..|candidate| + 1]
    else ancestor[..CommonLength(ancestor, candidate)]
  }

  function Fold(ancestor: Path, rest: seq<Path>): Path
    decreases |rest|
  {
    if rest == [] then ancestor else Fold(Meet(ancestor, rest[0]), rest[1..])
  }

  ghost predicate Contains(d: Path, paths: seq<Path>) {
    forall p :: p in paths ==> d <= p
  }

  /** `d` contains every path, and no deeper directory does. */
  ghost predicate DeepestCommon(d: Path, paths: seq<Path>) {
    Contains(d, paths) && forall e :: Contains(e, paths) ==> |e| <= |d|
  }

  lemma PrefixStart(p: Path, q: Path, n: nat)
    requires n <= |p| && p <= q
    ensures p[..n] <= q
  {
  }

  lemma {:induction false} CommonLengthMaximal(a: Path, b: Path, e: Path)
    requires e <= a && e <= b
    ensures |e| <= CommonLength(a, b)
    decreases |e|
  {
    if e != [] {
      assert a[0] == e[0] && b[0] == e[0];
      CommonLengthMaximal(a[1..], b[1..], e[1..]);
    }
  }

  /** One turn of the inner loop. */
  lemma ParentStep(ancestor: Path, candidate: Path)
    ensures RelativeStartsWithParent(ancestor, candidate) ==>
              ancestor != [] && Meet(Dirname(ancestor), candidate) == Meet(ancestor, candidate)
    ensures !RelativeStartsWithParent(ancestor, candidate) ==> Meet(ancestor, candidate) == ancestor
  {
    var n := CommonLength(ancestor, candidate);
    if candidate < ancestor {
      CommonLengthMaximal(ancestor, candidate, candidate);
    }
    if n == |candidate| && n < |ancestor| {
      assert candidate == ancestor[..n] && candidate < ancestor;
    }
    if RelativeStartsWithParent(ancestor, candidate) {
      var up := Dirname(ancestor);
      var m := CommonLength(up, candidate);
      assert up[..n] == ancestor[..n];
      CommonLengthMaximal(up, candidate, ancestor[..n]);
      PrefixStart(up, ancestor, m);
      CommonLengthMaximal(ancestor, candidate, up[..m]);
      if candidate < ancestor {
        assert n == |candidate| && |ancestor| >= n + 2;
        assert candidate < up;
      } else {
        assert !(candidate < up);
      }
    }
  }

  method ResolveCommonAncestor(paths: seq<Path>) returns (r: Option<Path>)
    ensures r == if paths == [] then None else Some(Fold(paths[0], paths[1..]))
  {
    if paths == [] {
      return None;
    }
    var ancestor := paths[0];
    var rest := paths[1..];
    for i := 0 to |rest|
      invariant Fold(ancestor, rest[i..]) == Fold(paths[0], rest)
    {
      var candidate := rest[i];
      ghost var start := ancestor;
      ParentStep(ancestor, candidate);
      while RelativeStartsWithParent(ancestor, candidate)
        invariant Meet(ancestor, candidate) == Meet(start, candidate)
        decreases |ancestor|
      {
        // The source also returns early when the parent is the path itself; at the root directory
        // the guard is false, so that never happens.
        ParentStep(ancestor, candidate);
        ancestor := Dirname(ancestor);
      }
      ParentStep(ancestor, candidate);
      assert rest[i..][1..] == rest[i + 1..];
    }
    return Some(ancestor);
  }

  // ---- when the result is the deepest common directory -----------------------------------------

  /** Some listed path is a proper ancestor of the first one, and every other listed path lies below
      it through the same child as the first. */
  ghost predicate Swallowed(first: Path, rest: seq<Path>) {
    exists c :: c in rest && c < first
                && forall d :: d in rest ==> d == c || c + [first[|c|]] <= d
  }

  /** The result ends above or at each candidate, or exactly one segment below it. */
  ghost predicate Near(a: Path, d: Path) { a <= d || (d < a && |a| == |d| + 1) }

  lemma MeetNear(a: Path, c: Path)
    ensures Meet(a, c) <= a && Near(Meet(a, c), c)
  {
  }

  lemma NearPrefix(a: Path, b: Path, d: Path)
    requires Near(a, d) && b <= a
    ensures Near(b, d)
  {
    if d < a && |b| <= |d| {
      assert b == a[..|b|] && d == a[..|d|];
    }
  }

  lemma {:induction false} FoldNear(a: Path, rest: seq<Path>)
    ensures Fold(a, rest) <= a
    ensures forall d :: d in rest ==> Near(Fold(a, rest), d)
    decreases |rest|
  {
    if rest != [] {
      var m := Meet(a, rest[0]);
      MeetNear(a, rest[0]);
      FoldNear(m, rest[1..]);
      NearPrefix(m, Fold(a, rest), rest[0]);
    }
  }

  lemma {:induction false} FoldKeepsCommon(a: Path, rest: seq<Path>, e: Path)
    requires e <= a && Contains(e, rest)
    ensures e <= Fold(a, rest)
    decreases |rest|
  {
    if rest != [] {
      assert rest[0] in rest && forall d :: d in rest[1..] ==> d in rest;
      CommonLengthMaximal(a, rest[0], e);
      FoldKeepsCommon(Meet(a, rest[0]), rest[1..], e);
    }
  }

  /** A path below every candidate, or one segment below a candidate, survives the fold. */
  lemma {:induction false} FoldKeepsChild(a: Path, rest: seq<Path>, c: Path, x: string)
    requires c + [x] <= a && forall d :: d in rest ==> d == c || c + [x] <= d
    ensures c + [x] <= Fold(a, rest)
    decreases |rest|
  {
    if rest != [] {
      var d := rest[0];
      assert d in rest && forall q :: q in rest[1..] ==> q in rest;
      if d == c {
        assert c < a;
      } else if !(d < a) {
        CommonLengthMaximal(a, d, c + [x]);
      }
      FoldKeepsChild(Meet(a, d), rest[1..], c, x);
    }
  }

  lemma SwallowedIsWrong(first: Path, rest: seq<Path>)
    requires Swallowed(first, rest)
    ensures exists c :: c in rest && !(Fold(first, rest) <= c)
  {
    var c :| c in rest && c < first && forall d :: d in rest ==> d == c || c + [first[|c|]] <= d;
    FoldKeepsChild(first, rest, c, first[|c|]);
  }

  lemma OtherwiseCommon(first: Path, rest: seq<Path>)
    requires !Swallowed(first, rest)
    ensures Contains(Fold(first, rest), rest)
  {
    var a := Fold(first, rest);
    FoldNear(first, rest);
    hide Fold;
    forall d | d in rest ensures a <= d {
      if !(a <= d) {
        OneShort(first, rest, a, d);
      }
    }
  }

  /** The result is the deepest directory containing every path, unless a listed path swallowed
      it. */
  lemma CommonAncestorExact(first: Path, rest: seq<Path>)
    ensures DeepestCommon(Fold(first, rest), [first] + rest) <==> !Swallowed(first, rest)
  {
    var a := Fold(first, rest);
    var all := [first] + rest;
    assert forall p :: p in all <==> p == first || p in rest;
    if Swallowed(first, rest) {
      SwallowedIsWrong(first, rest);
    } else {
      OtherwiseCommon(first, rest);
      FoldNear(first, rest);
      forall e | Contains(e, all) ensures |e| <= |a| {
        assert first in all;
        FoldKeepsCommon(first, rest, e);
      }
    }
  }

  lemma OneShort(first: Path, rest: seq<Path>, a: Path, c: Path)
    requires a <= first && c in rest && c < a && |a| == |c| + 1
    requires forall d :: d in rest ==> Near(a, d)
    ensures Swallowed(first, rest)
  {
    assert a == c + [first[|c|]];
    forall d | d in rest ensures d == c || c + [first[|c|]] <= d {
      assert Near(a, d);
    }
  }

  /** The swallowing case on real paths: "/a/b" and "/a" give "/a/b", which does not contain "/a". */
  lemma ParentOfFirstIsMissed()
    ensures Fold(["a", "b"], [["a"]]) == ["a", "b"] && !(["a", "b"] <= ["a"])
  {
    assert ["a"] < ["a", "b"];
    assert ["a", "b"][..2] == ["a", "b"];
    assert Fold(["a", "b"], [["a"]]) == Fold(Meet(["a", "b"], ["a"]), []);
  }
}
