/** What the marked-block rewriter (scripts/sync-moonshot-docs.ts) writes, from the positions of the
    markers in the text alone. */
module MarkedBlockByPosition {
  import opened JsText
  import opened MarkedBlock

  /** The pattern occurs at `at`, and nowhere from `from` up to there. */
  ghost predicate FirstAt(text: Text, pattern: Text, from: nat, at: nat) {
    from <= at && OccursAt(text, pattern, at) && forall k: nat :: from <= k < at ==> !OccursAt(text, pattern, k)
  }

  ghost predicate Nowhere(text: Text, pattern: Text, from: nat) {
    forall k: nat :: from <= k ==> !OccursAt(text, pattern, k)
  }

  /** Position `from` starts the line on which `at` lies. */
  ghost predicate StartsLine(text: Text, from: nat, at: nat) {
    && from <= at <= |text| && (from == 0 || text[from - 1] == NEWLINE)
    && forall k :: from <= k < at ==> text[k] != NEWLINE
  }

  /** The line on which `at` lies ends before `next`, which is past its newline or the end of the text. */
  ghost predicate EndsLine(text: Text, at: nat, next: nat) {
    && at <= next <= |text|
    && if next > at && text[next - 1] == NEWLINE then forall k :: at <= k < next - 1 ==> text[k] != NEWLINE
       else next == |text| && forall k :: at <= k < next ==> text[k] != NEWLINE
  }

  /** The lines, each indented and ended by a newline. */
  function Lines(indent: Text, lines: seq<Text>): Text {
    if lines == [] then [] else indent + lines[0] + [NEWLINE] + Lines(indent, lines[1..])
  }

  lemma {:induction false} BodyIsLines(indent: Text, lines: seq<Text>, end: Text, tail: Text)
    ensures Body(indent, lines, end, tail) == Lines(indent, lines) + indent + end + tail
    decreases |lines|
  {
    if lines == [] {
      assert Lines(indent, lines) + indent + end + tail == indent + end + tail;
    } else {
      BodyIsLines(indent, lines[1..], end, tail);
      LinesRegroup(indent + lines[0] + [NEWLINE], Lines(indent, lines[1..]), indent, end, tail);
    }
  }

  lemma LinesRegroup(a: Text, b: Text, indent: Text, end: Text, tail: Text)
    ensures a + (b + indent + end + tail) == (a + b) + indent + end + tail
  {
  }

  lemma LineStartIs(text: Text, from: nat, at: nat)
    requires StartsLine(text, from, at) && at < |text| && text[at] != NEWLINE
    ensures LineStart(text, at) == from
  {
    hide LastIndexBefore;
  }

  lemma NewlineOccurs(text: Text, k: nat)
    ensures OccursAt(text, [NEWLINE], k) <==> k < |text| && text[k] == NEWLINE
  {
    if k < |text| {
      assert text[k..k + 1] == [text[k]];
    }
  }

  lemma LineEndIs(text: Text, at: nat, next: nat)
    requires EndsLine(text, at, next)
    ensures LineEnd(text, at) == next
  {
    forall k: nat ensures OccursAt(text, [NEWLINE], k) <==> k < |text| && text[k] == NEWLINE {
      NewlineOccurs(text, k);
    }
    hide OccursAt;
    if next > at && text[next - 1] == NEWLINE {
      IndexIs(text, [NEWLINE], at, next - 1);
    } else {
      NotFound(text, [NEWLINE], at);
    }
  }

  lemma StartsOwnLine(text: Text, start: Text, s: nat)
    requires Marker(start) && OccursAt(text, start, s)
    ensures s < |text| && text[s] != NEWLINE
  {
    assert text[s..s + |start|][0] == start[0] && start[0] in start;
  }

  lemma LocatedByPosition(text: Text, start: Text, end: Text, s: nat, ls: nat, e: nat, next: nat)
    requires Marker(start) && FirstAt(text, start, 0, s) && FirstAt(text, end, s, e)
    requires StartsLine(text, ls, s) && EndsLine(text, e, next)
    ensures Located(text, start, end, text[..s], text[ls..s], text[next..])
  {
    StartsOwnLine(text, start, s);
    hide Marker, OccursAt;
    IndexIs(text, start, 0, s);
    IndexIs(text, end, s, e);
    LineStartIs(text, ls, s);
    LineEndIs(text, e, next);
    hide IndexOf, LineStart, LineEnd;
    assert text[..s][ls..] == text[ls..s];
  }

  /** The text up to and with the first start marker is followed by the lines and the end marker, each with
      the indentation of the start marker, and then by what follows the line of the first end marker after
      it, if anything does. */
  lemma RewrittenByPosition(text: Text, start: Text, end: Text, lines: seq<Text>, s: nat, ls: nat, e: nat, next: nat)
    requires Marker(start) && FirstAt(text, start, 0, s) && FirstAt(text, end, s, e)
    requires StartsLine(text, ls, s) && EndsLine(text, e, next)
    ensures ReplaceBlockLines(text, start, end, lines)
         == Ok(text[..s] + (start + [NEWLINE] + (Lines(text[ls..s], lines) + text[ls..s] + end
               + if next == |text| then [] else [NEWLINE] + text[next..])))
  {
    hide *;
    LocatedByPosition(text, start, end, s, ls, e, next);
    PositionsWithin(text, ls, s, e, next);
    var p, indent, after := text[..s], text[ls..s], text[next..];
    ReplacedShape(text, start, end, lines, p, indent, after);
    BodyIsLines(indent, lines, end, Tail(after));
    TailIs(after);
  }

  lemma PositionsWithin(text: Text, ls: nat, s: nat, e: nat, next: nat)
    requires StartsLine(text, ls, s) && EndsLine(text, e, next)
    ensures ls <= s <= |text| && next <= |text|
  {
  }

  lemma TailIs(after: Text)
    ensures Tail(after) == if after == [] then [] else [NEWLINE] + after
  {
  }

  /** Without a start marker, or without an end marker after it, the rewrite fails and says which. */
  lemma MissingExactly(text: Text, start: Text, end: Text, lines: seq<Text>)
    ensures ReplaceBlockLines(text, start, end, lines) == MissingStartMarker <==> Nowhere(text, start, 0)
    ensures ReplaceBlockLines(text, start, end, lines) == MissingEndMarker
       <==> exists s: nat :: FirstAt(text, start, 0, s) && Nowhere(text, end, s)
  {
    hide OccursAt, Join, Indented, LineStart, LineEnd, Slice;
    var s := IndexOf(text, start, 0);
    if s != -1 {
      assert FirstAt(text, start, 0, s);
      assert forall s': nat :: FirstAt(text, start, 0, s') ==> s' == s;
      assert IndexOf(text, end, s) == -1 <==> Nowhere(text, end, s);
    }
  }
}
