/** JavaScript strings as sequences of UTF-16 code units, and the few built-in string
    operations the modelled code relies on. */
module JsText {

  type CodeUnit = u: int | 0 <= u < 0x1_0000
  type Text = seq<CodeUnit>

  const NEWLINE: CodeUnit := 0x0A
  const SPACE: CodeUnit := 0x20

  datatype Option<+T> = None | Some(value: T)

  /** The code units that `trim`, `trimStart` and `trimEnd` remove. */
  predicate IsWhitespace(u: CodeUnit) {
    || 0x09 <= u <= 0x0D
    || u == 0x20 || u == 0xA0 || u == 0x1680
    || 0x2000 <= u <= 0x200A
    || u == 0x2028 || u == 0x2029 || u == 0x202F || u == 0x205F || u == 0x3000 || u == 0xFEFF
  }

  predicate AllWhitespace(s: Text) {
    forall k :: 0 <= k < |s| ==> IsWhitespace(s[k])
  }

  /** The end of the white-space run that starts at `i`. */
  function SkipForward(s: Text, i: nat): (n: nat)
    requires i <= |s|
    ensures i <= n <= |s|
    ensures forall k :: i <= k < n ==> IsWhitespace(s[k])
    ensures n < |s| ==> !IsWhitespace(s[n])
    decreases |s| - i
  {
    if i < |s| && IsWhitespace(s[i]) then SkipForward(s, i + 1) else i
  }

  /** The start of the white-space run that ends at `i`. */
  function SkipBack(s: Text, i: nat): (n: nat)
    requires i <= |s|
    ensures n <= i
    ensures forall k :: n <= k < i ==> IsWhitespace(s[k])
    ensures n > 0 ==> !IsWhitespace(s[n - 1])
  {
    if i > 0 && IsWhitespace(s[i - 1]) then SkipBack(s, i - 1) else i
  }

  function TrimStart(s: Text): Text { s[SkipForward(s, 0)..] }

  function TrimEnd(s: Text): Text { s[..SkipBack(s, |s|)] }

  function Trim(s: Text): (r: Text)
    ensures |r| <= |s|
    ensures r == [] <==> AllWhitespace(s)
    ensures r != [] ==> !IsWhitespace(r[0]) && !IsWhitespace(r[|r| - 1])
  {
    var n := SkipForward(s, 0);
    var t := s[n..];
    assert t == TrimStart(s);
    assert t != [] ==> t[0] == s[n];
    TrimEnd(t)
  }

  lemma TrimStartAt(s: Text, b: nat)
    requires b <= |s|
    ensures TrimStart(s[b..]) == s[SkipForward(s, b)..]
  {
    var t, n, m := s[b..], SkipForward(s[b..], 0), SkipForward(s, b);
    hide IsWhitespace;
    assert forall k {:trigger s[k]} :: b <= k < |s| ==> s[k] == t[k - b];
    assert n == m - b;
  }

  lemma TrimEndAt(s: Text, b: nat)
    requires b <= |s|
    ensures TrimEnd(s[..b]) == s[..SkipBack(s, b)]
  {
    var t, n, m := s[..b], SkipBack(s[..b], b), SkipBack(s, b);
    hide IsWhitespace;
    assert forall k {:trigger s[k]} :: 0 <= k < b ==> s[k] == t[k];
    assert n == m;
  }

  /** Trimming drops white space at the two ends and nothing else. */
  lemma TrimDropsEnds(s: Text) returns (i: nat, j: nat)
    ensures i <= j <= |s| && Trim(s) == s[i..j]
    ensures AllWhitespace(s[..i]) && AllWhitespace(s[j..])
  {
    hide IsWhitespace;
    i := SkipForward(s, 0);
    j := i + |Trim(s)|;
    var t := s[i..];
    var n := SkipBack(t, |t|);
    assert Trim(s) == t[..n];
    assert forall k {:trigger s[j..][k]} :: 0 <= k < |s| - j ==> s[j..][k] == t[n + k];
    assert forall k {:trigger s[..i][k]} :: 0 <= k < i ==> s[..i][k] == s[k];
  }

  predicate Trimmed(s: Text) {
    s != [] ==> !IsWhitespace(s[0]) && !IsWhitespace(s[|s| - 1])
  }

  /** Trimming fixes exactly the texts without outer whitespace. */
  lemma TrimFixpoint(s: Text)
    ensures Trim(s) == s <==> Trimmed(s)
    ensures Trimmed(Trim(s))
  {
    if Trimmed(s) {
      assert SkipForward(s, 0) == 0;
      assert TrimStart(s) == s;
      assert SkipBack(s, |s|) == |s|;
    }
  }

  /** `String.prototype.slice(from, to)`: negative positions count from the end, positions
      outside the text are clamped, and a crossed range is empty. */
  function SlicePosition(len: nat, at: int): (r: nat)
    ensures r <= len
  {
    if at < 0 then (if len + at < 0 then 0 else len + at)
    else if at < len then at else len
  }

  function Slice(s: Text, from: int, to: int): Text {
    var f, t := SlicePosition(|s|, from), SlicePosition(|s|, to);
    if f <= t then s[f..t] else []
  }

  /** `lastIndexOf` for a single code unit: the last position that holds it, or -1. */
  function LastIndexOf(s: Text, u: CodeUnit): (r: int)
    ensures -1 <= r < |s|
    ensures r >= 0 ==> s[r] == u
    ensures forall k :: r < k < |s| ==> s[k] != u
  {
    LastIndexBefore(s, u, |s|)
  }

  function LastIndexBefore(s: Text, u: CodeUnit, i: nat): (r: int)
    requires i <= |s|
    ensures -1 <= r < i
    ensures r >= 0 ==> s[r] == u
    ensures forall k :: r < k < i ==> s[k] != u
  {
    if i == 0 then -1 else if s[i - 1] == u then i - 1 else LastIndexBefore(s, u, i - 1)
  }
}
