/** The third lens law of the marked-block rewriter: writing back what was just read
    (scripts/sync-moonshot-docs.ts). */
module MarkedBlockPutGet {
  import opened JsText
  import opened MarkedBlock

  /** The lines of a text, from the start marker on, are those of a rewritten block: the marker stands alone
      after its indentation, as does the end marker, with the same one; every line between them starts with
      it; and no newline right after the block ends the text. */
  ghost predicate Canonical(lines: seq<Text>, start: Text, end: Text, indent: Text, after: Text) {
    var n := LinesBefore(lines, end);
    && 0 < n < |lines|
    && lines[0] == start && lines[n] == indent + end
    && (forall i :: 0 < i < n ==> indent <= lines[i])
    && (after == [] ==> |lines| == n + 1)
  }

  // ---- lines and texts -----------------------------------------------------------------------------

  /** A text is one line, or a line, a newline and the rest. */
  lemma SplitCases(s: Text)
    ensures var i := IndexOf(s, [NEWLINE], 0);
            && (i == -1 ==> SingleLine(s))
            && (i != -1 ==> 0 <= i < |s| && SingleLine(s[..i]) && s == s[..i] + [NEWLINE] + s[i + 1..])
  {
    hide *;
    NewlineOccurs(s);
    FirstNewlineAt(s);
  }

  lemma NewlineOccurs(s: Text)
    ensures forall k: nat :: OccursAt(s, [NEWLINE], k) <==> k < |s| && s[k] == NEWLINE
  {
    forall k: nat ensures OccursAt(s, [NEWLINE], k) <==> k < |s| && s[k] == NEWLINE {
      if k < |s| {
        assert s[k..k + 1] == [s[k]];
      }
    }
  }

  lemma FirstNewlineAt(s: Text)
    requires forall k: nat :: OccursAt(s, [NEWLINE], k) <==> k < |s| && s[k] == NEWLINE
    ensures var i := IndexOf(s, [NEWLINE], 0);
            && (i == -1 ==> SingleLine(s))
            && (i != -1 ==> 0 <= i < |s| && SingleLine(s[..i]) && s == s[..i] + [NEWLINE] + s[i + 1..])
  {
    hide OccursAt;
    var i := IndexOf(s, [NEWLINE], 0);
    if i == -1 {
      forall k: nat | k < |s| ensures s[k] != NEWLINE {
        assert !OccursAt(s, [NEWLINE], k);
      }
    } else {
      assert OccursAt(s, [NEWLINE], i);
      forall k: nat | k < i ensures s[..i][k] != NEWLINE {
        assert !OccursAt(s, [NEWLINE], k);
      }
    }
  }

  /** Texts with the same lines are the same. */
  lemma {:induction false} SplitIsInjective(s: Text, t: Text)
    requires Split(s) == Split(t)
    ensures s == t
    decreases |s|
  {
    SplitCases(s);
    SplitCases(t);
    var i, k := IndexOf(s, [NEWLINE], 0), IndexOf(t, [NEWLINE], 0);
    hide IndexOf, SingleLine;
    SplitLengths(s);
    SplitLengths(t);
    if i != -1 && k != -1 {
      SplitCons(s[..i], s[i + 1..]);
      SplitCons(t[..k], t[k + 1..]);
      assert Split(s)[0] == s[..i] && Split(t)[0] == t[..k];
      assert Split(s)[1..] == Split(s[i + 1..]) && Split(t)[1..] == Split(t[k + 1..]);
      SplitIsInjective(s[i + 1..], t[k + 1..]);
    }
  }

  lemma SplitLengths(s: Text)
    ensures |Split(s)| == 1 <==> IndexOf(s, [NEWLINE], 0) == -1
    ensures IndexOf(s, [NEWLINE], 0) == -1 ==> Split(s) == [s]
  {
    SplitCases(s);
    hide IndexOf, SingleLine;
  }

  lemma {:induction false} LinesAreSingle(s: Text)
    ensures SingleLines(Split(s))
    decreases |s|
  {
    SplitCases(s);
    var i := IndexOf(s, [NEWLINE], 0);
    hide IndexOf, SingleLine;
    SplitLengths(s);
    if i != -1 {
      SplitCons(s[..i], s[i + 1..]);
      LinesAreSingle(s[i + 1..]);
    }
  }

  /** What follows the block, as lines. */
  lemma {:induction false} LinesAfterBlock(u: Text, end: Text)
    requires Marker(end) && Has(u, end)
    ensures var lines, n := Split(u), LinesBefore(Split(u), end);
            && n < |lines|
            && (|lines| == n + 1 ==> AfterBlock(u, end) == [])
            && (|lines| > n + 1 ==> lines[n + 1..] == Split(AfterBlock(u, end)))
    decreases |u|
  {
    SplitCases(u);
    SplitLengths(u);
    var i := IndexOf(u, [NEWLINE], 0);
    hide *;
    if i == -1 {
      OneLineBlock(u, end);
      LinesBeforeCons(u, [], end);
      assert [u] + [] == [u];
    } else {
      var a, b := u[..i], u[i + 1..];
      SplitCons(a, b);
      LinesBeforeCons(a, Split(b), end);
      HasAcrossLine(a, b, end);
      AfterBlockAcrossLine(a, b, end);
      if Has(a, end) {
        assert ([a] + Split(b))[1..] == Split(b);
      } else {
        LinesAfterBlock(b, end);
        var n := LinesBefore(Split(b), end);
        assert |Split(b)| > n + 1 ==> ([a] + Split(b))[n + 2..] == Split(b)[n + 1..];
      }
    }
  }

  lemma OneLineBlock(u: Text, end: Text)
    requires SingleLine(u) && Has(u, end)
    ensures AfterBlock(u, end) == []
  {
    FoundWithin(u, end);
    NewlineAfter(u, [], IndexOf(u, end, 0));
    hide Has, IndexOf;
  }

  lemma HasAcrossLine(a: Text, b: Text, end: Text)
    requires Marker(end) && Has(a + [NEWLINE] + b, end)
    ensures Has(a, end) || Has(b, end)
  {
    IndexAcrossLine(a, b, end);
    hide IndexOf;
  }

  /** A located block's rest is what follows the first line with the end marker. */
  lemma LocatedAfter(p: Text, u: Text, start: Text, end: Text, indent: Text, after: Text)
    requires Located(p + u, start, end, p, indent, after)
    ensures Has(u, end) && after == AfterBlock(u, end)
  {
    LocatedEndMarker(p + u, start, end, p, indent, after);
    IndexShift(p, u, end);
    hide Located, IndexOf, LineEnd, AfterBlock;
    FindsLater(p, u, end);
  }

  lemma LocatedEndMarker(text: Text, start: Text, end: Text, p: Text, indent: Text, after: Text)
    requires Located(text, start, end, p, indent, after)
    ensures |p| <= |text|
    ensures 0 <= IndexOf(text, end, |p|) <= |text| && after == text[LineEnd(text, IndexOf(text, end, |p|))..]
  {
    hide IndexOf, LineStart, LineEnd;
  }

  // ---- indentation ---------------------------------------------------------------------------------

  /** Dropping as many units as the indentation has and indenting again gives the lines back exactly when
      they all start with it. */
  lemma {:induction false} ReindentExactly(indent: Text, lines: seq<Text>)
    ensures |Unindented(|indent|, lines)| == |lines|
    ensures Indented(indent, Unindented(|indent|, lines)) == lines
       <==> forall i :: 0 <= i < |lines| ==> indent <= lines[i]
  {
    if lines != [] {
      var x, rest := lines[0], lines[1..];
      ReindentExactly(indent, rest);
      var stripped := if |indent| <= |x| then x[|indent|..] else [];
      UnindentCons(|indent|, lines);
      IndentCons(indent, stripped, Unindented(|indent|, rest));
      ReindentLine(indent, x);
      hide Unindented, Indented;
      assert lines == [x] + rest;
      assert forall i :: 0 < i < |lines| ==> lines[i] == rest[i - 1];
      assert forall i :: 0 <= i < |rest| ==> rest[i] == lines[i + 1];
    }
  }

  lemma UnindentCons(n: nat, lines: seq<Text>)
    requires lines != []
    ensures Unindented(n, lines) == [if n <= |lines[0]| then lines[0][n..] else []] + Unindented(n, lines[1..])
  {
  }

  lemma IndentCons(indent: Text, x: Text, rest: seq<Text>)
    ensures Indented(indent, [x] + rest) == [indent + x] + Indented(indent, rest)
  {
    assert ([x] + rest)[1..] == rest;
  }

  lemma ReindentLine(indent: Text, x: Text)
    ensures indent + (if |indent| <= |x| then x[|indent|..] else []) == x <==> indent <= x
  {
    if indent <= x {
      assert x == x[..|indent|] + x[|indent|..];
    }
  }

  lemma {:induction false} UnindentedAreSingle(n: nat, lines: seq<Text>)
    requires SingleLines(lines)
    ensures SingleLines(Unindented(n, lines))
  {
    if lines != [] {
      UnindentedAreSingle(n, lines[1..]);
      UnindentCons(n, lines);
    }
  }

  // ---- the law ------------------------------------------------------------------------------------

  /** The lines of the text as it is written back. */
  lemma WrittenLines(start: Text, end: Text, indent: Text, lines: seq<Text>, after: Text)
    requires Marker(start) && Marker(end) && SingleLine(indent) && SingleLines(lines)
    ensures Split(start + [NEWLINE] + Body(indent, lines, end, Tail(after)))
         == [start] + (Indented(indent, lines) + ([indent + end] + if after == [] then [] else Split(after)))
  {
    hide *;
    MarkerIsLine(start);
    MarkerIsLine(end);
    SplitCons(start, Body(indent, lines, end, Tail(after)));
    SplitBody(indent, lines, end, Tail(after));
    SplitEndLine(indent, end, after);
  }

  /** Lines `block` between a start line, an end line and more lines, compared part by part. */
  lemma SameParts(lines: seq<Text>, n: nat, start: Text, block: seq<Text>, last: Text, more: seq<Text>)
    requires 0 < n < |lines| && |block| == n - 1
    ensures lines == [start] + (block + ([last] + more))
       <==> lines[0] == start && lines[1..n] == block && lines[n] == last && lines[n + 1..] == more
  {
    var parts := [start] + (block + ([last] + more));
    assert parts[0] == start && parts[1..n] == block && parts[n] == last && parts[n + 1..] == more;
    assert lines == [lines[0]] + (lines[1..n] + ([lines[n]] + lines[n + 1..]));
  }

  /** A block whose end marker stands in the start marker's line is never written back as it was. */
  lemma EndInStartLine(lines: seq<Text>, start: Text, last: Text, after: Text)
    requires lines != [] && last != []
    requires (|lines| == 1 ==> after == []) && (|lines| > 1 ==> lines[1..] == Split(after))
    ensures lines != [start] + ([last] + if after == [] then [] else Split(after))
  {
    NothingSplits();
    hide Split;
    if |lines| > 1 && after == [] {
      assert lines[1..] == [[]];
      assert lines[1] == lines[1..][0];
    }
  }

  lemma NothingSplits()
    ensures Split([]) == [[]]
  {
    SplitOne([]);
  }

  /** The lines of a located block are those of the rewritten one exactly when they are canonical. */
  lemma SameLinesExactly(u: Text, start: Text, end: Text, indent: Text)
    requires Marker(start) && Marker(end) && SingleLine(indent) && Has(u, end)
    ensures var lines, n, after := Split(u), LinesBefore(Split(u), end), AfterBlock(u, end);
            var read := Unindented(|indent|, if n == 0 then [] else lines[1..n]);
            && SingleLines(read)
            && (u == start + [NEWLINE] + Body(indent, read, end, Tail(after))
                <==> Canonical(lines, start, end, indent, after))
  {
    hide *;
    var lines, n, after := Split(u), LinesBefore(Split(u), end), AfterBlock(u, end);
    LinesAfterBlock(u, end);
    var read := Unindented(|indent|, if n == 0 then [] else lines[1..n]);
    ReadIsSingle(u, |indent|, n);
    WrittenLines(start, end, indent, read, after);
    SameTextsExactly(u, start + [NEWLINE] + Body(indent, read, end, Tail(after)));
    SameBlockLines(lines, start, end, indent, after);
  }

  lemma SameTextsExactly(u: Text, v: Text)
    ensures u == v <==> Split(u) == Split(v)
  {
    hide *;
    if Split(u) == Split(v) {
      SplitIsInjective(u, v);
    }
  }

  /** The same, about the lines alone. */
  lemma SameBlockLines(lines: seq<Text>, start: Text, end: Text, indent: Text, after: Text)
    requires Marker(end) && LinesBefore(lines, end) < |lines|
    requires |lines| == LinesBefore(lines, end) + 1 ==> after == []
    requires |lines| > LinesBefore(lines, end) + 1 ==> lines[LinesBefore(lines, end) + 1..] == Split(after)
    ensures var n := LinesBefore(lines, end);
            var read := Unindented(|indent|, if n == 0 then [] else lines[1..n]);
            lines == [start] + (Indented(indent, read) + ([indent + end] + if after == [] then [] else Split(after)))
            <==> Canonical(lines, start, end, indent, after)
  {
    hide *;
    if LinesBefore(lines, end) == 0 {
      UnindentedNothing(|indent|);
      NothingIndented(indent, []);
      MarkerIsLine(end);
      EndInStartLine(lines, start, indent + end, after);
      NotCanonical(lines, start, end, indent, after);
      var last := [indent + end] + if after == [] then [] else Split(after);
      assert [] + last == last;
    } else {
      SameBlockLinesBelow(lines, LinesBefore(lines, end), start, end, indent, after);
    }
  }

  lemma SameBlockLinesBelow(lines: seq<Text>, n: nat, start: Text, end: Text, indent: Text, after: Text)
    requires n == LinesBefore(lines, end) && 0 < n < |lines|
    requires |lines| == n + 1 ==> after == []
    requires |lines| > n + 1 ==> lines[n + 1..] == Split(after)
    ensures lines == [start] + (Indented(indent, Unindented(|indent|, lines[1..n]))
                                + ([indent + end] + if after == [] then [] else Split(after)))
       <==> Canonical(lines, start, end, indent, after)
  {
    hide *;
    var block := lines[1..n];
    var read := Unindented(|indent|, block);
    ReindentExactly(indent, block);
    IndentKeepsCount(indent, read);
    SameParts(lines, n, start, Indented(indent, read), indent + end, if after == [] then [] else Split(after));
    CanonicalMeans(lines, start, end, indent, after, block);
    SameRest(lines, n, after);
  }

  lemma SameRest(lines: seq<Text>, n: nat, after: Text)
    requires n < |lines| && (|lines| == n + 1 ==> after == [])
    requires |lines| > n + 1 ==> lines[n + 1..] == Split(after)
    ensures lines[n + 1..] == (if after == [] then [] else Split(after)) <==> (after == [] ==> |lines| == n + 1)
  {
    hide Split;
  }

  lemma ReadIsSingle(u: Text, k: nat, n: nat)
    requires n <= |Split(u)|
    ensures SingleLines(Unindented(k, if n == 0 then [] else Split(u)[1..n]))
  {
    LinesAreSingle(u);
    UnindentedAreSingle(k, if n == 0 then [] else Split(u)[1..n]);
  }

  lemma {:induction false} IndentKeepsCount(indent: Text, lines: seq<Text>)
    ensures |Indented(indent, lines)| == |lines|
  {
    if lines != [] { IndentKeepsCount(indent, lines[1..]); }
  }

  lemma NothingIndented(indent: Text, lines: seq<Text>)
    requires lines == []
    ensures Indented(indent, lines) == []
  {
  }

  lemma NotCanonical(lines: seq<Text>, start: Text, end: Text, indent: Text, after: Text)
    requires LinesBefore(lines, end) == 0
    ensures !Canonical(lines, start, end, indent, after)
  {
  }

  lemma CanonicalMeans(lines: seq<Text>, start: Text, end: Text, indent: Text, after: Text, block: seq<Text>)
    requires var n := LinesBefore(lines, end); 0 < n < |lines| && block == lines[1..n]
    ensures var n := LinesBefore(lines, end);
            Canonical(lines, start, end, indent, after)
            <==> && lines[0] == start && lines[n] == indent + end
                 && (forall i :: 0 <= i < |block| ==> indent <= block[i])
                 && (after == [] ==> |lines| == n + 1)
  {
    hide LinesBefore;
    var n := LinesBefore(lines, end);
    assert forall i :: 0 < i < n ==> lines[i] == block[i - 1];
    assert forall i :: 0 <= i < |block| ==> block[i] == lines[i + 1];
  }

  /** Writing back what was read leaves the text unchanged exactly when its block is canonical. */
  lemma PutGetExactly(text: Text, start: Text, end: Text, p: Text, indent: Text, after: Text)
    requires Marker(start) && Marker(end) && SingleLine(indent) && Located(text, start, end, p, indent, after)
    ensures |p| <= |text|
    ensures ReplaceBlockLines(text, start, end, ReadBlock(text, start, end)) == Ok(text)
       <==> Canonical(Split(text[|p|..]), start, end, indent, after)
  {
    hide *;
    LocatedStart(text, start, end, p, indent, after);
    var u := text[|p|..];
    assert text == p + u;
    var read := ReadBlock(text, start, end);
    LocatedAfter(p, u, start, end, indent, after);
    ReadLocated(p, u, start, end, indent, after);
    ReplacedShape(text, start, end, read, p, indent, after);
    SameLinesExactly(u, start, end, indent);
    Cancel(p, start + [NEWLINE] + Body(indent, read, end, Tail(after)), u);
  }

  /** For any two markers, a text that ends in a newline right after its block does not survive: writing back
      what was read drops the newline. */
  lemma FinalNewlineIsLost(start: Text, end: Text)
    requires Marker(start) && Marker(end)
    ensures var text := start + [NEWLINE] + (end + [NEWLINE] + []);
            && Locate(text, start, end).Ok?
            && ReplaceBlockLines(text, start, end, ReadBlock(text, start, end)) != Ok(text)
  {
    hide *;
    var text := start + [NEWLINE] + (end + [NEWLINE] + []);
    var after := LocatedAtStart(start, end);
    MarkerIsLine(start);
    MarkerIsLine(end);
    SplitCons(start, end + [NEWLINE] + []);
    SplitCons(end, []);
    NothingSplits();
    assert [] + text == text;
    LocatedAfter([], text, start, end, [], after);
    LinesAfterBlock(text, end);
    ThreeLines(Split(text), start, end, [], after);
    EmptyIsLine();
    PutGetExactly(text, start, end, [], [], after);
    assert text[0..] == text;
  }

  lemma EmptyIsLine()
    ensures SingleLine([])
  {
  }

  lemma LocatedAtStart(start: Text, end: Text) returns (after: Text)
    requires Marker(start) && Marker(end)
    ensures var text := start + [NEWLINE] + (end + [NEWLINE] + []);
            Locate(text, start, end).Ok? && Located(text, start, end, [], [], after)
  {
    var text := start + [NEWLINE] + (end + [NEWLINE] + []);
    MarkersFound(start, end, [NEWLINE] + []);
    assert end + [NEWLINE] + [] == end + ([NEWLINE] + []);
    LocatedIs(text, start, end);
    var b := Locate(text, start, end).value;
    hide Located, Locate, Marker, SingleLine;
    after := text[b.lineEnd..];
    StartIsFirst(text, start, end, text[..b.startIndex], text[b.lineStart..b.startIndex], after);
  }

  lemma MarkersFound(start: Text, end: Text, more: Text)
    requires Marker(start) && Marker(end)
    ensures var text := start + [NEWLINE] + (end + more);
            Locate(text, start, end).Ok? && IndexOf(text, start, 0) == 0
  {
    var text := start + [NEWLINE] + (end + more);
    IndexIs(text, start, 0, 0);
    assert OccursAt(text, end, |start| + 1);
    hide OccursAt, LineStart, LineEnd;
  }

  lemma StartIsFirst(text: Text, start: Text, end: Text, p: Text, indent: Text, after: Text)
    requires Located(text, start, end, p, indent, after) && IndexOf(text, start, 0) == 0
    ensures p == [] && p + text == text && indent == []
  {
    LocatedStart(text, start, end, p, indent, after);
    hide Located, IndexOf, LineStart;
  }

  lemma ThreeLines(lines: seq<Text>, start: Text, end: Text, indent: Text, after: Text)
    requires lines == [start] + ([end] + [[]])
    requires var n := LinesBefore(lines, end);
             && n < |lines| && (|lines| == n + 1 ==> after == [])
             && (|lines| > n + 1 ==> lines[n + 1..] == Split(after))
    ensures !Canonical(lines, start, end, indent, after)
  {
    EndLineHas([], end);
    assert [] + end == end;
    LinesBeforeCons(start, [end] + [[]], end);
    LinesBeforeCons(end, [[]], end);
    NothingSplits();
    hide Has, LinesBefore, Split;
    var n := LinesBefore(lines, end);
    if n == 1 {
      assert lines[2..] == [[]];
      SplitIsInjective(after, []);
    }
  }
}
