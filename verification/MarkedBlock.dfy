/** The marked-block rewriter of the docs sync script (scripts/sync-moonshot-docs.ts) and its lens
    laws. */
module MarkedBlock {
  import opened JsText

  // ---- searching -----------------------------------------------------------------------------

  predicate OccursAt(s: Text, p: Text, i: nat) { i + |p| <= |s| && s[i..i + |p|] == p }

  /** `indexOf(p, from)`: the first occurrence at or after `from`, or -1. */
  function IndexOf(s: Text, p: Text, from: nat): (r: int)
    ensures r == -1 || (from <= r && OccursAt(s, p, r))
    ensures forall i: nat :: from <= i && (r == -1 || i < r) ==> !OccursAt(s, p, i)
    decreases |s| - from
  {
    if from + |p| > |s| then -1
    else if OccursAt(s, p, from) then from
    else IndexOf(s, p, from + 1)
  }

  predicate Has(s: Text, p: Text) { IndexOf(s, p, 0) != -1 }

  predicate SingleLine(s: Text) { NEWLINE !in s }

  /** A marker is a non-empty piece of one line. */
  predicate Marker(m: Text) { m != [] && SingleLine(m) }

  // ---- replaceBlockLines ---------------------------------------------------------------------

  datatype Result<+T> = Ok(value: T) | MissingStartMarker | MissingEndMarker

  /** Where the block lies: the first start marker, its line's start, and the end of the line that
      holds the first end marker after it. */
  datatype Block = Block(lineStart: nat, startIndex: nat, endIndex: nat, lineEnd: nat)

  function LineStart(text: Text, at: nat): nat
    requires at <= |text|
  {
    LastIndexBefore(text, NEWLINE, if at < |text| then at + 1 else |text|) + 1
  }

  function LineEnd(text: Text, at: nat): (r: nat)
    requires at <= |text|
    ensures r <= |text|
  {
    var i := IndexOf(text, [NEWLINE], at);
    if i == -1 then |text| else i + 1
  }

  function Locate(text: Text, start: Text, end: Text): Result<Block> {
    var s := IndexOf(text, start, 0);
    if s == -1 then MissingStartMarker
    else
      var e := IndexOf(text, end, s);
      if e == -1 then MissingEndMarker else Ok(Block(LineStart(text, s), s, e, LineEnd(text, e)))
  }

  function Join(lines: seq<Text>): Text
    requires lines != []
  {
    if |lines| == 1 then lines[0] else lines[0] + [NEWLINE] + Join(lines[1..])
  }

  function Indented(indent: Text, lines: seq<Text>): seq<Text> {
    if lines == [] then [] else [indent + lines[0]] + Indented(indent, lines[1..])
  }

  function ReplaceBlockLines(text: Text, start: Text, end: Text, lines: seq<Text>): Result<Text> {
    match Locate(text, start, end)
    case Ok(b) =>
      var indent := Slice(text, b.lineStart, b.startIndex);
      var before, after := Slice(text, 0, b.lineStart), text[b.lineEnd..];
      var replacement := Join([indent + start] + Indented(indent, lines) + [indent + end]);
      Ok(if after == [] then before + replacement else before + replacement + [NEWLINE] + after)
    case MissingStartMarker => MissingStartMarker
    case MissingEndMarker => MissingEndMarker
  }

  // ---- reading a block back --------------------------------------------------------------------

  function Split(s: Text): (r: seq<Text>)
    ensures r != []
    decreases |s|
  {
    var i := IndexOf(s, [NEWLINE], 0);
    if i == -1 then [s] else [s[..i]] + Split(s[i + 1..])
  }

  /** The number of leading lines without `p`. */
  function LinesBefore(lines: seq<Text>, p: Text): (n: nat)
    ensures n <= |lines|
  {
    if lines == [] || Has(lines[0], p) then 0 else 1 + LinesBefore(lines[1..], p)
  }

  function Unindented(n: nat, lines: seq<Text>): seq<Text> {
    if lines == [] then [] else [if n <= |lines[0]| then lines[0][n..] else []] + Unindented(n, lines[1..])
  }

  /** The lines strictly between the start marker's line and the first line with the end marker,
      without the start marker's indentation. */
  function ReadBlock(text: Text, start: Text, end: Text): seq<Text> {
    var s := IndexOf(text, start, 0);
    if s == -1 then []
    else
      var lines := Split(text[s..]);
      var n := LinesBefore(lines, end);
      var indent := Slice(text, LineStart(text, s), s);
      Unindented(|indent|, if n == 0 then [] else lines[1..n])
  }

  // ---- facts about searching -------------------------------------------------------------------

  lemma OccursShift(a: Text, s: Text, p: Text, i: nat)
    ensures OccursAt(a + s, p, |a| + i) <==> OccursAt(s, p, i)
  {
    if i + |p| <= |s| {
      assert (a + s)[|a| + i..|a| + i + |p|] == s[i..i + |p|];
    }
  }

  lemma OccursPrefix(s: Text, t: Text, p: Text, i: nat)
    requires i + |p| <= |s|
    ensures OccursAt(s + t, p, i) <==> OccursAt(s, p, i)
  {
    assert (s + t)[i..i + |p|] == s[i..i + |p|];
  }

  /** The first occurrence is determined by its position. */
  lemma IndexIs(s: Text, p: Text, from: nat, i: nat)
    requires from <= i && OccursAt(s, p, i)
    requires forall k: nat :: from <= k < i ==> !OccursAt(s, p, k)
    ensures IndexOf(s, p, from) == i
  {
    hide OccursAt;
  }

  lemma IndexShift(a: Text, s: Text, p: Text)
    ensures IndexOf(a + s, p, |a|) == if IndexOf(s, p, 0) == -1 then -1 else |a| + IndexOf(s, p, 0)
  {
    hide OccursAt;
    var i := IndexOf(s, p, 0);
    forall k: nat | |a| <= k ensures OccursAt(a + s, p, k) <==> OccursAt(s, p, k - |a|) {
      OccursShift(a, s, p, k - |a|);
    }
    if i != -1 {
      IndexIs(a + s, p, |a|, |a| + i);
    }
  }

  /** Without a newline in `p`, an occurrence in two joined lines lies in one of them. */
  lemma OccursInOneLine(a: Text, b: Text, p: Text, i: nat)
    requires SingleLine(p) && p != []
    ensures OccursAt(a + [NEWLINE] + b, p, i) <==> OccursAt(a, p, i) || (i > |a| && OccursAt(b, p, i - |a| - 1))
  {
    var s := a + [NEWLINE] + b;
    if i + |p| <= |a| {
      assert s == a + ([NEWLINE] + b);
      OccursPrefix(a, [NEWLINE] + b, p, i);
    } else if i > |a| {
      OccursShift(a + [NEWLINE], b, p, i - |a| - 1);
    } else {
      assert p[|a| - i] in p;
      assert i + |p| <= |s| ==> s[i..i + |p|][|a| - i] == s[|a|];
    }
  }

  lemma NotFound(s: Text, p: Text, from: nat)
    requires forall i: nat :: from <= i ==> !OccursAt(s, p, i)
    ensures IndexOf(s, p, from) == -1
  {
    hide OccursAt;
  }

  lemma IndexAcrossLine(a: Text, b: Text, p: Text)
    requires SingleLine(p) && p != []
    ensures IndexOf(a + [NEWLINE] + b, p, 0)
         == if Has(a, p) then IndexOf(a, p, 0) else if Has(b, p) then |a| + 1 + IndexOf(b, p, 0) else -1
  {
    var s := a + [NEWLINE] + b;
    OccursWithin(a, p);
    if Has(a, p) {
      var x := IndexOf(a, p, 0);
      forall i: nat | i <= x ensures OccursAt(s, p, i) <==> OccursAt(a, p, i) {
        OccursInOneLine(a, b, p, i);
      }
      hide OccursAt;
      IndexIs(s, p, 0, x);
    } else {
      forall i: nat ensures OccursAt(s, p, i) <==> i > |a| && OccursAt(b, p, i - |a| - 1) {
        OccursInOneLine(a, b, p, i);
        assert !OccursAt(a, p, i);
      }
      hide OccursAt;
      if Has(b, p) {
        IndexIs(s, p, 0, |a| + 1 + IndexOf(b, p, 0));
      } else {
        NotFound(s, p, 0);
      }
    }
  }

  lemma OccursWithin(s: Text, p: Text)
    ensures forall i: nat :: OccursAt(s, p, i) ==> i + |p| <= |s|
  {
  }

  lemma FirstNewline(a: Text, b: Text)
    requires SingleLine(a)
    ensures IndexOf(a + [NEWLINE] + b, [NEWLINE], 0) == |a|
  {
    var s := a + [NEWLINE] + b;
    assert s[|a|..|a| + 1] == [NEWLINE];
    forall k: nat | k < |a| ensures !OccursAt(s, [NEWLINE], k) {
      assert s[k..k + 1] == [s[k]] && s[k] == a[k];
      assert a[k] in a;
    }
    IndexIs(s, [NEWLINE], 0, |a|);
  }

  lemma NoNewline(a: Text)
    requires SingleLine(a)
    ensures IndexOf(a, [NEWLINE], 0) == -1
  {
    forall k: nat ensures !OccursAt(a, [NEWLINE], k) {
      if k < |a| {
        assert a[k..k + 1] == [a[k]];
        assert a[k] in a;
      }
    }
  }

  lemma SplitCons(a: Text, b: Text)
    requires SingleLine(a)
    ensures Split(a + [NEWLINE] + b) == [a] + Split(b)
  {
    FirstNewline(a, b);
    var s := a + [NEWLINE] + b;
    hide IndexOf;
    assert s[..|a|] == a && s[|a| + 1..] == b;
  }

  lemma SplitOne(a: Text)
    requires SingleLine(a)
    ensures Split(a) == [a]
  {
    NoNewline(a);
  }

  // ---- the shape of the rewritten text ---------------------------------------------------------

  /** What follows the block: nothing, or a newline and the rest of the text. */
  function Tail(after: Text): Text { if after == [] then [] else [NEWLINE] + after }

  /** What follows the start marker's line. */
  function Body(indent: Text, lines: seq<Text>, end: Text, tail: Text): Text {
    if lines == [] then indent + end + tail
    else indent + lines[0] + [NEWLINE] + Body(indent, lines[1..], end, tail)
  }

  lemma {:induction false} JoinIsBody(indent: Text, lines: seq<Text>, end: Text, tail: Text)
    ensures Join(Indented(indent, lines) + [indent + end]) + tail == Body(indent, lines, end, tail)
  {
    var all := Indented(indent, lines) + [indent + end];
    if lines != [] {
      JoinIsBody(indent, lines[1..], end, tail);
      assert all[1..] == Indented(indent, lines[1..]) + [indent + end];
      hide Body;
      assert Join(all) == indent + lines[0] + [NEWLINE] + Join(all[1..]);
    }
  }

  /** The located block of a text: what precedes the start marker, its indentation, and what follows
      the block. */
  predicate Located(text: Text, start: Text, end: Text, p: Text, indent: Text, after: Text) {
    var l := Locate(text, start, end);
    && l.Ok? && p == text[..l.value.startIndex] && l.value.lineStart <= |p|
    && indent == p[l.value.lineStart..] && after == text[l.value.lineEnd..]
  }

  lemma LocatedIs(text: Text, start: Text, end: Text)
    requires Marker(start) && Locate(text, start, end).Ok?
    ensures var b := Locate(text, start, end).value;
            && b.startIndex <= |text| && b.lineStart <= b.startIndex
            && Located(text, start, end, text[..b.startIndex], text[b.lineStart..b.startIndex], text[b.lineEnd..])
            && SingleLine(text[b.lineStart..b.startIndex])
  {
    var b := Locate(text, start, end).value;
    var i := b.startIndex;
    assert text[i..i + |start|][0] == text[i] == start[0] && start[0] in start;
    IndentIsLine(text, i);
    hide IndexOf, SingleLine, LineStart, LineEnd;
    assert text[b.lineStart..i] == text[..i][b.lineStart..];
  }

  /** What stands before a position on its line holds no newline. */
  lemma IndentIsLine(text: Text, i: nat)
    requires i < |text| && text[i] != NEWLINE
    ensures LineStart(text, i) <= i && SingleLine(text[LineStart(text, i)..i])
  {
    var from := LineStart(text, i);
    var indent := text[from..i];
    forall u | u in indent ensures u != NEWLINE {
      var k :| 0 <= k < |indent| && indent[k] == u;
      assert text[from + k] == u;
    }
  }

  lemma JoinCons(x: Text, rest: seq<Text>)
    requires rest != []
    ensures Join([x] + rest) == x + [NEWLINE] + Join(rest)
  {
    assert ([x] + rest)[1..] == rest;
  }

  lemma Regroup(before: Text, indent: Text, start: Text, joined: Text, tail: Text)
    ensures before + (indent + start + [NEWLINE] + joined) + tail
         == (before + indent) + (start + [NEWLINE] + (joined + tail))
  {
  }

  lemma ReplacementShape(before: Text, indent: Text, start: Text, end: Text, lines: seq<Text>, after: Text)
    ensures var replacement := Join([indent + start] + Indented(indent, lines) + [indent + end]);
            before + replacement + Tail(after)
            == (before + indent) + (start + [NEWLINE] + Body(indent, lines, end, Tail(after)))
  {
    var rest := Indented(indent, lines) + [indent + end];
    JoinIsBody(indent, lines, end, Tail(after));
    JoinCons(indent + start, rest);
    assert [indent + start] + Indented(indent, lines) + [indent + end] == [indent + start] + rest;
    hide *;
    Regroup(before, indent, start, Join(rest), Tail(after));
  }

  lemma ReplacedShape(text: Text, start: Text, end: Text, lines: seq<Text>, p: Text, indent: Text, after: Text)
    requires Located(text, start, end, p, indent, after)
    ensures ReplaceBlockLines(text, start, end, lines)
         == Ok(p + (start + [NEWLINE] + Body(indent, lines, end, Tail(after))))
  {
    var b := Locate(text, start, end).value;
    hide Locate, Join, Body, Indented;
    var before := Slice(text, 0, b.lineStart);
    assert before + indent == p && Slice(text, b.lineStart, b.startIndex) == indent;
    ReplacementShape(before, indent, start, end, lines, after);
    var replacement := Join([indent + start] + Indented(indent, lines) + [indent + end]);
    hide Slice;
    assert after == [] ==> before + replacement + Tail(after) == before + replacement;
    assert after != [] ==> before + replacement + Tail(after) == before + replacement + [NEWLINE] + after;
  }

  // ---- finding the block again -----------------------------------------------------------------

  /** The start marker is still first where it was. */
  lemma StartStays(text: Text, start: Text, s: nat, x: Text)
    requires IndexOf(text, start, 0) == s
    ensures s + |start| <= |text| && IndexOf(text[..s] + (start + x), start, 0) == s
  {
    var p := text[..s];
    var t := p + (start + x);
    assert text == p + start + text[s + |start|..];
    assert t == p + start + x;
    forall k: nat | k <= s ensures OccursAt(t, start, k) <==> OccursAt(text, start, k) {
      OccursPrefix(p + start, x, start, k);
      OccursPrefix(p + start, text[s + |start|..], start, k);
    }
    hide OccursAt;
    IndexIs(t, start, 0, s);
  }

  lemma LastIndexPrefix(s: Text, t: Text, u: CodeUnit, i: nat)
    requires i <= |s| && i <= |t| && s[..i] == t[..i]
    ensures LastIndexBefore(s, u, i) == LastIndexBefore(t, u, i)
  {
    assert forall k {:trigger s[k]} {:trigger t[k]} :: 0 <= k < i ==> s[k] == s[..i][k] && t[k] == t[..i][k];
  }

  lemma LineStartStays(text: Text, start: Text, s: nat, x: Text)
    requires Marker(start) && IndexOf(text, start, 0) == s
    ensures s <= |text| && LineStart(text[..s] + (start + x), s) == LineStart(text, s)
  {
    var t := text[..s] + (start + x);
    assert t[s] == start[0] && text[s..s + |start|][0] == text[s];
    assert t[..s + 1] == text[..s] + [start[0]] && text[..s + 1] == text[..s] + [text[s]];
    LastIndexPrefix(t, text, NEWLINE, s + 1);
  }

  /** What follows the line of the first occurrence of `end`. */
  function AfterBlock(s: Text, end: Text): Text
    requires Has(s, end)
  {
    s[LineEnd(s, IndexOf(s, end, 0))..]
  }

  lemma LineEndShift(a: Text, s: Text, at: nat)
    requires at <= |s|
    ensures (a + s)[LineEnd(a + s, |a| + at)..] == s[LineEnd(s, at)..]
  {
    NewlineShift(a, s, at);
    hide IndexOf;
    var i := IndexOf(s, [NEWLINE], at);
    if i != -1 {
      assert (a + s)[|a| + i + 1..] == s[i + 1..];
    } else {
      assert (a + s)[|a + s|..] == s[|s|..];
    }
  }

  lemma NewlineShift(a: Text, s: Text, at: nat)
    requires at <= |s|
    ensures IndexOf(a + s, [NEWLINE], |a| + at)
         == if IndexOf(s, [NEWLINE], at) == -1 then -1 else |a| + IndexOf(s, [NEWLINE], at)
  {
    var i := IndexOf(s, [NEWLINE], at);
    forall k: nat | |a| + at <= k ensures OccursAt(a + s, [NEWLINE], k) <==> OccursAt(s, [NEWLINE], k - |a|) {
      OccursShift(a, s, [NEWLINE], k - |a|);
    }
    hide OccursAt;
    if i != -1 {
      IndexIs(a + s, [NEWLINE], |a| + at, |a| + i);
    } else {
      NotFound(a + s, [NEWLINE], |a| + at);
    }
  }

  lemma NewlineAfter(a: Text, b: Text, at: nat)
    requires SingleLine(a) && at <= |a|
    ensures IndexOf(a + [NEWLINE] + b, [NEWLINE], at) == |a|
    ensures IndexOf(a, [NEWLINE], at) == -1
  {
    assert a == a[..at] + a[at..];
    assert a + [NEWLINE] + b == a[..at] + (a[at..] + [NEWLINE] + b);
    NewlineShift(a[..at], a[at..] + [NEWLINE] + b, 0);
    NewlineShift(a[..at], a[at..], 0);
    assert SingleLine(a[at..]);
    FirstNewline(a[at..], b);
    NoNewline(a[at..]);
  }

  lemma AfterBlockAcrossLine(a: Text, b: Text, end: Text)
    requires SingleLine(a) && Marker(end) && (Has(a, end) || Has(b, end))
    ensures Has(a + [NEWLINE] + b, end)
    ensures AfterBlock(a + [NEWLINE] + b, end) == if Has(a, end) then b else AfterBlock(b, end)
  {
    var s := a + [NEWLINE] + b;
    IndexAcrossLine(a, b, end);
    if Has(a, end) {
      NewlineAfter(a, b, IndexOf(a, end, 0));
      hide IndexOf;
      assert s[|a| + 1..] == b;
    } else {
      LineEndShift(a + [NEWLINE], b, IndexOf(b, end, 0));
    }
  }

  lemma AfterBlockLast(a: Text, after: Text, end: Text)
    requires SingleLine(a) && Marker(end) && Has(a, end)
    ensures Has(a + Tail(after), end) && AfterBlock(a + Tail(after), end) == after
  {
    if after == [] {
      assert a + Tail(after) == a;
      NewlineAfter(a, [], IndexOf(a, end, 0));
    } else {
      assert a + Tail(after) == a + [NEWLINE] + after;
      AfterBlockAcrossLine(a, after, end);
    }
  }

  /** The line with the end marker holds it. */
  lemma EndLineHas(indent: Text, end: Text)
    ensures Has(indent + end, end)
  {
    var s := indent + end;
    assert OccursAt(s, end, |indent|);
    hide OccursAt;
  }

  /** Neither the start marker nor any indented line holds the end marker. */
  predicate Separate(indent: Text, start: Text, end: Text, lines: seq<Text>) {
    !Has(start, end) && forall i :: 0 <= i < |lines| ==> !Has(indent + lines[i], end)
  }

  predicate SingleLines(lines: seq<Text>) {
    forall i :: 0 <= i < |lines| ==> SingleLine(lines[i])
  }

  /** After a rewrite, what follows the located block is what followed it before when no line holds
      the end marker, and strictly longer otherwise. */
  lemma {:induction false} AfterBody(indent: Text, lines: seq<Text>, end: Text, after: Text)
    requires SingleLine(indent) && SingleLines(lines) && Marker(end)
    ensures var body := Body(indent, lines, end, Tail(after));
            && Has(body, end)
            && |body| > |after|
            && ((forall i :: 0 <= i < |lines| ==> !Has(indent + lines[i], end)) ==> AfterBlock(body, end) == after)
            && ((exists i :: 0 <= i < |lines| && Has(indent + lines[i], end)) ==> |AfterBlock(body, end)| > |after|)
  {
    hide Has, AfterBlock;
    EndLineHas(indent, end);
    if lines == [] {
      AfterBlockLast(indent + end, after, end);
    } else {
      AfterBody(indent, lines[1..], end, after);
      var line, rest := indent + lines[0], Body(indent, lines[1..], end, Tail(after));
      assert SingleLine(line);
      AfterBlockAcrossLine(line, rest, end);
      assert forall i {:trigger lines[i]} :: 1 <= i < |lines| ==> lines[i] == lines[1..][i - 1];
    }
  }

  // ---- the lens laws ---------------------------------------------------------------------------

  /** The rewritten text locates the same start marker with the same indentation; what follows its
      block is what follows the first end marker after the start marker. */
  lemma RelocatedBlock(text: Text, start: Text, end: Text, lines: seq<Text>, p: Text, indent: Text, after: Text)
    requires Marker(start) && Marker(end) && SingleLines(lines) && SingleLine(indent)
    requires Located(text, start, end, p, indent, after)
    ensures var u := start + [NEWLINE] + Body(indent, lines, end, Tail(after));
            && Has(u, end) && Located(p + u, start, end, p, indent, AfterBlock(u, end))
  {
    var body := Body(indent, lines, end, Tail(after));
    var u := start + [NEWLINE] + body;
    LocatedStart(text, start, end, p, indent, after);
    hide *;
    AfterBody(indent, lines, end, after);
    MarkerIsLine(start);
    AfterBlockAcrossLine(start, body, end);
    StartAndIndentStay(text, start, p, body);
    FindsLater(p, u, end);
    LocatedFrom(p, u, start, end, indent);
  }

  lemma MarkerIsLine(m: Text)
    requires Marker(m)
    ensures SingleLine(m) && m != []
  {
  }

  lemma StartAndIndentStay(text: Text, start: Text, p: Text, body: Text)
    requires Marker(start) && p <= text && IndexOf(text, start, 0) == |p|
    ensures var t := p + (start + [NEWLINE] + body);
            IndexOf(t, start, 0) == |p| && LineStart(t, |p|) == LineStart(text, |p|)
  {
    assert start + [NEWLINE] + body == start + ([NEWLINE] + body);
    assert text[..|p|] == p;
    hide IndexOf, LineStart;
    StartStays(text, start, |p|, [NEWLINE] + body);
    LineStartStays(text, start, |p|, [NEWLINE] + body);
  }

  lemma FindsLater(p: Text, u: Text, end: Text)
    requires Has(u, end)
    ensures IndexOf(p + u, end, |p|) == |p| + IndexOf(u, end, 0)
    ensures (p + u)[LineEnd(p + u, IndexOf(p + u, end, |p|))..] == AfterBlock(u, end)
  {
    hide *;
    FoundWithin(u, end);
    IndexShift(p, u, end);
    LineEndShift(p, u, IndexOf(u, end, 0));
  }

  lemma FoundWithin(u: Text, end: Text)
    requires Has(u, end)
    ensures 0 <= IndexOf(u, end, 0) <= |u|
    ensures AfterBlock(u, end) == u[LineEnd(u, IndexOf(u, end, 0))..]
  {
    OccursWithin(u, end);
    hide OccursAt, LineEnd;
  }

  lemma LocatedFrom(p: Text, u: Text, start: Text, end: Text, indent: Text)
    requires Has(u, end) && IndexOf(p + u, start, 0) == |p| && IndexOf(p + u, end, |p|) == |p| + IndexOf(u, end, 0)
    requires LineStart(p + u, |p|) <= |p| && indent == p[LineStart(p + u, |p|)..]
    requires (p + u)[LineEnd(p + u, IndexOf(p + u, end, |p|))..] == AfterBlock(u, end)
    ensures Located(p + u, start, end, p, indent, AfterBlock(u, end))
  {
    hide IndexOf, LineStart, LineEnd, AfterBlock;
    assert (p + u)[..|p|] == p;
  }

  lemma Cancel(p: Text, x: Text, y: Text)
    ensures p + x == p + y <==> x == y
  {
    assert (p + x)[|p|..] == x && (p + y)[|p|..] == y;
  }

  lemma {:induction false} BodyLength(indent: Text, lines: seq<Text>, end: Text, tail: Text, tail': Text)
    ensures |Body(indent, lines, end, tail)| - |tail| == |Body(indent, lines, end, tail')| - |tail'|
  {
    if lines != [] {
      BodyLength(indent, lines[1..], end, tail, tail');
    }
  }

  /** A second rewrite overrides the first exactly when neither the start marker nor any indented line
      of the first one holds the end marker. */
  lemma PutPutExactly(text: Text, start: Text, end: Text, first: seq<Text>, second: seq<Text>,
                      p: Text, indent: Text, after: Text)
    requires Marker(start) && Marker(end) && SingleLines(first) && SingleLine(indent)
    requires Located(text, start, end, p, indent, after)
    ensures ReplaceBlockLines(text, start, end, first).Ok?
    ensures ReplaceBlockLines(ReplaceBlockLines(text, start, end, first).value, start, end, second)
            == ReplaceBlockLines(text, start, end, second)
       <==> Separate(indent, start, end, first)
  {
    var body := Body(indent, first, end, Tail(after));
    var u := start + [NEWLINE] + body;
    AfterBody(indent, first, end, after);
    AfterBlockAcrossLine(start, body, end);
    RelocatedBlock(text, start, end, first, p, indent, after);
    var after' := AfterBlock(u, end);
    ReplacedShape(text, start, end, first, p, indent, after);
    ReplacedShape(text, start, end, second, p, indent, after);
    ReplacedShape(p + u, start, end, second, p, indent, after');
    hide Located, ReplaceBlockLines, AfterBlock, Has, Marker;
    assert after' == after <==> Separate(indent, start, end, first);
    BodyLength(indent, second, end, Tail(after), Tail(after'));
    hide Body;
    Cancel(p, start + [NEWLINE] + Body(indent, second, end, Tail(after)),
           start + [NEWLINE] + Body(indent, second, end, Tail(after')));
  }

  /** Rewriting twice with the same lines changes nothing more, exactly under the same condition. */
  lemma RewriteIsIdempotent(text: Text, start: Text, end: Text, lines: seq<Text>, p: Text, indent: Text, after: Text)
    requires Marker(start) && Marker(end) && SingleLines(lines) && SingleLine(indent)
    requires Located(text, start, end, p, indent, after)
    ensures ReplaceBlockLines(text, start, end, lines).Ok?
    ensures ReplaceBlockLines(ReplaceBlockLines(text, start, end, lines).value, start, end, lines)
            == ReplaceBlockLines(text, start, end, lines)
       <==> Separate(indent, start, end, lines)
  {
    hide Located, ReplaceBlockLines, Separate;
    PutPutExactly(text, start, end, lines, lines, p, indent, after);
  }

  lemma {:induction false} SplitBody(indent: Text, lines: seq<Text>, end: Text, tail: Text)
    requires SingleLine(indent) && SingleLines(lines)
    ensures Split(Body(indent, lines, end, tail)) == Indented(indent, lines) + Split(indent + end + tail)
  {
    hide Split;
    if lines != [] {
      assert SingleLine(indent + lines[0]);
      SplitCons(indent + lines[0], Body(indent, lines[1..], end, tail));
      SplitBody(indent, lines[1..], end, tail);
    }
  }

  lemma SplitEndLine(indent: Text, end: Text, after: Text)
    requires SingleLine(indent) && SingleLine(end)
    ensures Split(indent + end + Tail(after)) == [indent + end] + (if after == [] then [] else Split(after))
  {
    assert SingleLine(indent + end);
    if after == [] {
      assert indent + end + Tail(after) == indent + end;
      SplitOne(indent + end);
    } else {
      assert indent + end + Tail(after) == (indent + end) + [NEWLINE] + after;
      SplitCons(indent + end, after);
    }
  }

  lemma {:induction false} LinesBeforeConcat(a: seq<Text>, b: seq<Text>, p: Text)
    ensures LinesBefore(a + b, p) == if LinesBefore(a, p) < |a| then LinesBefore(a, p) else |a| + LinesBefore(b, p)
  {
    hide Has;
    if a == [] {
      assert a + b == b;
    } else {
      assert (a + b)[1..] == a[1..] + b;
      LinesBeforeConcat(a[1..], b, p);
    }
  }

  lemma {:induction false} LinesBeforeAll(indent: Text, lines: seq<Text>, p: Text)
    ensures |Indented(indent, lines)| == |lines|
    ensures LinesBefore(Indented(indent, lines), p) == |lines|
       <==> forall i :: 0 <= i < |lines| ==> !Has(indent + lines[i], p)
  {
    hide Has;
    if lines != [] {
      LinesBeforeAll(indent, lines[1..], p);
      assert forall i {:trigger lines[i]} :: 1 <= i < |lines| ==> lines[i] == lines[1..][i - 1];
    }
  }

  lemma {:induction false} UnindentPrefix(indent: Text, lines: seq<Text>, k: nat)
    requires k <= |lines|
    ensures |Indented(indent, lines)| == |lines|
    ensures Unindented(|indent|, Indented(indent, lines)[..k]) == lines[..k]
  {
    var all := Indented(indent, lines);
    if lines != [] {
      UnindentPrefix(indent, lines[1..], if k == 0 then 0 else k - 1);
      if k > 0 {
        assert all[..k][1..] == Indented(indent, lines[1..])[..k - 1];
        assert (indent + lines[0])[|indent|..] == lines[0];
        assert lines[..k] == [lines[0]] + lines[1..][..k - 1];
      }
    }
  }

  /** What reading a rewritten block returns. */
  lemma ReadRewritten(text: Text, start: Text, end: Text, lines: seq<Text>, p: Text, indent: Text, after: Text)
    requires Marker(start) && Marker(end) && SingleLines(lines) && SingleLine(indent)
    requires Located(text, start, end, p, indent, after)
    ensures ReplaceBlockLines(text, start, end, lines).Ok?
    ensures var k := LinesBefore(Indented(indent, lines), end);
            && k <= |lines|
            && ReadBlock(ReplaceBlockLines(text, start, end, lines).value, start, end)
               == if Has(start, end) then [] else lines[..k]
  {
    hide *;
    var u := start + [NEWLINE] + Body(indent, lines, end, Tail(after));
    ReplacedShape(text, start, end, lines, p, indent, after);
    RelocatedBlock(text, start, end, lines, p, indent, after);
    LinesOfRewritten(start, end, lines, indent, after);
    LinesBeforeAll(indent, lines, end);
    ReadLocated(p, u, start, end, indent, AfterBlock(u, end));
    var k := LinesBefore(Indented(indent, lines), end);
    UnindentPrefix(indent, lines, k);
    BlockLines(Split(u), Indented(indent, lines), k);
    UnindentedNothing(|indent|);
  }

  lemma BlockLines(split: seq<Text>, block: seq<Text>, k: nat)
    requires |split| > |block| && split[1..|block| + 1] == block && k <= |block|
    ensures split[1..1 + k] == block[..k]
  {
    assert split[1..1 + k] == split[1..|block| + 1][..k];
  }

  /** Reading looks at the lines from the start marker on. */
  lemma ReadLocated(p: Text, u: Text, start: Text, end: Text, indent: Text, after: Text)
    requires Located(p + u, start, end, p, indent, after)
    ensures var n := LinesBefore(Split(u), end);
            ReadBlock(p + u, start, end) == Unindented(|indent|, if n == 0 then [] else Split(u)[1..n])
  {
    LocatedStart(p + u, start, end, p, indent, after);
    hide IndexOf, LineStart, Split, LinesBefore, Unindented, Located;
    assert (p + u)[|p|..] == u;
  }

  lemma UnindentedNothing(n: nat)
    ensures Unindented(n, []) == []
  {
  }

  lemma LocatedStart(text: Text, start: Text, end: Text, p: Text, indent: Text, after: Text)
    requires Located(text, start, end, p, indent, after)
    ensures p <= text && IndexOf(text, start, 0) == |p|
    ensures LineStart(text, |p|) <= |p| && indent == p[LineStart(text, |p|)..]
    ensures |Slice(text, LineStart(text, |p|), |p|)| == |indent|
  {
    hide IndexOf, LineStart;
  }

  lemma LinesOfRewritten(start: Text, end: Text, lines: seq<Text>, indent: Text, after: Text)
    requires Marker(start) && Marker(end) && SingleLines(lines) && SingleLine(indent)
    ensures |Indented(indent, lines)| == |lines|
    ensures var split := Split(start + [NEWLINE] + Body(indent, lines, end, Tail(after)));
            var k, n := LinesBefore(Indented(indent, lines), end), LinesBefore(split, end);
            && |split| > |lines| && split[1..|lines| + 1] == Indented(indent, lines)
            && n == if Has(start, end) then 0 else 1 + k
  {
    hide *;
    MarkerIsLine(start);
    MarkerIsLine(end);
    var block := Indented(indent, lines);
    var last := Split(indent + end + Tail(after));
    var body := Body(indent, lines, end, Tail(after));
    SplitCons(start, body);
    SplitBody(indent, lines, end, Tail(after));
    SplitEndLine(indent, end, after);
    LinesBeforeAll(indent, lines, end);
    LinesBeforeConcat(block, last, end);
    StopsAtEndLine(indent, end, last);
    LinesBeforeCons(start, block + last, end);
    Middle(start, block, last);
  }

  lemma Middle(x: Text, block: seq<Text>, last: seq<Text>)
    ensures ([x] + (block + last))[1..|block| + 1] == block
  {
  }

  lemma StopsAtEndLine(indent: Text, end: Text, last: seq<Text>)
    requires last != [] && last[0] == indent + end
    ensures LinesBefore(last, end) == 0
  {
    EndLineHas(indent, end);
    hide Has;
  }

  lemma LinesBeforeCons(x: Text, rest: seq<Text>, p: Text)
    ensures LinesBefore([x] + rest, p) == if Has(x, p) then 0 else 1 + LinesBefore(rest, p)
  {
    hide Has;
    assert ([x] + rest)[1..] == rest;
  }

  /** Reading a rewritten block gives the lines back exactly when there are none, or neither the start
      marker nor any indented line holds the end marker. */
  lemma GetPutExactly(text: Text, start: Text, end: Text, lines: seq<Text>, p: Text, indent: Text, after: Text)
    requires Marker(start) && Marker(end) && SingleLines(lines) && SingleLine(indent)
    requires Located(text, start, end, p, indent, after)
    ensures ReplaceBlockLines(text, start, end, lines).Ok?
    ensures ReadBlock(ReplaceBlockLines(text, start, end, lines).value, start, end) == lines
       <==> lines == [] || Separate(indent, start, end, lines)
  {
    hide Located, ReplaceBlockLines, ReadBlock, Has, Marker;
    ReadRewritten(text, start, end, lines, p, indent, after);
    LinesBeforeAll(indent, lines, end);
  }

  /** The text up to and including the start marker stays, and so does everything after the block's
      last line; only a newline at the very end of the text, right after the block, is dropped. */
  lemma SurroundingsStay(text: Text, start: Text, end: Text, lines: seq<Text>, p: Text, indent: Text, after: Text)
    requires Marker(start) && Marker(end) && Located(text, start, end, p, indent, after)
    ensures ReplaceBlockLines(text, start, end, lines).Ok?
    ensures var t := ReplaceBlockLines(text, start, end, lines).value;
            && p + start <= text && p + start <= t
            && |after| <= |text| && text[|text| - |after|..] == after
            && |after| + |end| <= |t| && t[|t| - |after|..] == after
            && (after == [] ==> t[|t| - |end|..] == end)
  {
    hide *;
    ReplacedShape(text, start, end, lines, p, indent, after);
    LocatedEnds(text, start, end, p, indent, after);
    BodyEnds(indent, lines, end, Tail(after));
    var body := Body(indent, lines, end, Tail(after));
    EndsKept(p, start, body, end, after);
  }

  lemma LocatedEnds(text: Text, start: Text, end: Text, p: Text, indent: Text, after: Text)
    requires Located(text, start, end, p, indent, after)
    ensures p + start <= text && |after| <= |text| && text[|text| - |after|..] == after
  {
    var s := Locate(text, start, end).value.startIndex;
    hide IndexOf, LineStart, LineEnd;
    assert text == p + start + text[s + |start|..];
  }

  lemma EndsKept(p: Text, start: Text, body: Text, end: Text, after: Text)
    requires |body| >= |end| + |Tail(after)| && body[|body| - |end| - |Tail(after)|..] == end + Tail(after)
    ensures var t := p + (start + [NEWLINE] + body);
            && p + start <= t && |after| + |end| <= |t| && t[|t| - |after|..] == after
            && (after == [] ==> t[|t| - |end|..] == end)
  {
    var t := p + (start + [NEWLINE] + body);
    var n := |body| - |end| - |Tail(after)|;
    var head := p + (start + [NEWLINE] + body[..n]);
    assert t == p + start + ([NEWLINE] + body);
    assert t == head + (end + Tail(after)) by {
      assert body == body[..n] + (end + Tail(after));
      Reassociated(p, start + [NEWLINE], body[..n], end + Tail(after));
    }
    EndsWithTail(head, end, after);
  }

  lemma Reassociated(a: Text, b: Text, c: Text, d: Text)
    ensures a + (b + (c + d)) == a + (b + c) + d
  {
  }

  lemma EndsWithTail(head: Text, end: Text, after: Text)
    ensures var t := head + (end + Tail(after));
            && |after| + |end| <= |t| && t[|t| - |after|..] == after
            && (after == [] ==> t[|t| - |end|..] == end)
  {
    var t := head + (end + Tail(after));
    if after == [] {
      assert t == head + end;
      EndOf(head, end);
    } else {
      assert t == (head + end + [NEWLINE]) + after;
      EndOf(head + end + [NEWLINE], after);
    }
  }

  lemma EndOf(a: Text, b: Text)
    ensures (a + b)[|a|..] == b
  {
  }

  lemma {:induction false} BodyEnds(indent: Text, lines: seq<Text>, end: Text, tail: Text)
    ensures var body := Body(indent, lines, end, tail);
            |body| >= |end| + |tail| && body[|body| - |end| - |tail|..] == end + tail
  {
    if lines != [] {
      BodyEnds(indent, lines[1..], end, tail);
    }
  }

  /** For any two markers, the end marker written as a line of the block breaks the block: the line is not
      read back, and a second rewrite does not override it. */
  lemma MarkerLineBreaksBlock(start: Text, end: Text)
    requires Marker(start) && Marker(end)
    ensures var text := start + [NEWLINE] + end;
            var once := ReplaceBlockLines(text, start, end, [end]);
            && once.Ok?
            && ReadBlock(once.value, start, end) != [end]
            && ReplaceBlockLines(once.value, start, end, []) != ReplaceBlockLines(text, start, end, [])
  {
    var text := start + [NEWLINE] + end;
    MarkersAreFound(start, end);
    LocatedIs(text, start, end);
    var b := Locate(text, start, end).value;
    var p, indent, after := text[..b.startIndex], text[b.lineStart..b.startIndex], text[b.lineEnd..];
    EndLineHas(indent, end);
    MarkerIsLine(end);
    hide Marker, Located, Locate, ReplaceBlockLines, ReadBlock, Has, SingleLine;
    assert [end][0] == end;
    PutPutExactly(text, start, end, [end], [], p, indent, after);
    GetPutExactly(text, start, end, [end], p, indent, after);
  }

  lemma MarkersAreFound(start: Text, end: Text)
    requires Marker(start) && Marker(end)
    ensures Locate(start + [NEWLINE] + end, start, end).Ok?
  {
    var text := start + [NEWLINE] + end;
    IndexIs(text, start, 0, 0);
    MarkerIsLine(start);
    FoundInSecondLine(start, end);
    hide IndexOf, LineStart, LineEnd;
  }

  lemma FoundInSecondLine(a: Text, p: Text)
    requires SingleLine(a) && Marker(p)
    ensures IndexOf(a + [NEWLINE] + p, p, 0) != -1
  {
    IndexIs(p, p, 0, 0);
    AfterBlockAcrossLine(a, p, p);
  }
}
