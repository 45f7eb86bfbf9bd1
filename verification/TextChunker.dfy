/** The outbound text chunker shared by the iMessage and Matrix extensions
    (extensions/imessage/runtime-api.ts, extensions/matrix/runtime-api.ts). */
module TextChunker {
  import opened JsText
  import Utf16

  predicate IsBreak(u: CodeUnit) { u == NEWLINE || u == SPACE }

  // ---- one pass of the loop ------------------------------------------------------------------

  /** The last newline or space at a position in [1, i), or `otherwise`. */
  function LastBreak(rest: Text, i: nat, otherwise: nat): (b: nat)
    requires i <= |rest|
    ensures b == otherwise || (0 < b < i && IsBreak(rest[b]))
    ensures forall k :: 0 < k < i && IsBreak(rest[k]) ==> 0 < b < i && k <= b
  {
    if i <= 1 then otherwise
    else if IsBreak(rest[i - 1]) then i - 1
    else LastBreak(rest, i - 1, otherwise)
  }

  /** Where a text longer than the limit is cut: at the last newline or space of the window,
      position 0 excepted, or at the limit. */
  function CutAt(rest: Text, limit: nat): (b: nat)
    requires limit < |rest|
    ensures b <= limit
  {
    LastBreak(rest, limit, limit)
  }

  /** The cut, trimmed back: the length of the chunk. */
  function ChunkEnd(rest: Text, limit: nat): (n: nat)
    requires limit < |rest|
    ensures n <= limit
  {
    SkipBack(rest, CutAt(rest, limit))
  }

  /** The cut, trimmed forward: where the next pass starts. */
  function Next(rest: Text, limit: nat): (n: nat)
    requires limit < |rest|
    ensures ChunkEnd(rest, limit) <= n <= |rest|
  {
    SkipForward(rest, CutAt(rest, limit))
  }

  /** The source computes the cut from two searches over the window. */
  lemma CutFromSearches(rest: Text, limit: nat)
    requires limit < |rest|
    ensures var newline, space := LastIndexOf(rest[..limit], NEWLINE), LastIndexOf(rest[..limit], SPACE);
            var splitAt := if newline > space then newline else space;
            CutAt(rest, limit) == if splitAt > 0 then splitAt else limit
  {
    var window := rest[..limit];
    assert forall k {:trigger rest[k]} :: 0 <= k < limit ==> rest[k] == window[k];
  }

  // ---- termination ---------------------------------------------------------------------------

  /** What one pass of the source's loop body leaves, for every integer limit. */
  function Pass(rest: Text, limit: int): Text {
    var window := Slice(rest, 0, limit);
    var newline, space := LastIndexOf(window, NEWLINE), LastIndexOf(window, SPACE);
    var splitAt := if newline > space then newline else space;
    var breakAt := if splitAt > 0 then splitAt else limit;
    TrimStart(Slice(rest, breakAt, |rest|))
  }

  /** The loop stops within `n` passes. */
  predicate StopsWithin(rest: Text, limit: int, n: nat)
    decreases n
  {
    |rest| <= limit || (n > 0 && StopsWithin(Pass(rest, limit), limit, n - 1))
  }

  predicate Terminates(text: Text, limit: int) {
    limit >= 1 || (limit == 0 && AllWhitespace(text))
  }

  lemma PassIsNext(rest: Text, limit: nat)
    requires limit < |rest|
    ensures Pass(rest, limit) == rest[Next(rest, limit)..]
  {
    hide IsWhitespace, LastIndexOf, SkipForward, LastBreak, TrimStart;
    CutFromSearches(rest, limit);
    var b := CutAt(rest, limit);
    TrimStartAt(rest, b);
    assert Slice(rest, 0, limit) == rest[..limit];
    assert Slice(rest, b, |rest|) == rest[b..];
  }

  lemma NextAdvances(rest: Text, limit: nat)
    requires limit < |rest| && Terminates(rest, limit)
    ensures 0 < Next(rest, limit)
    ensures Terminates(rest[Next(rest, limit)..], limit)
  {
    hide IsWhitespace;
  }

  lemma {:induction false} StopsWhenTerminating(rest: Text, limit: int, n: nat)
    requires Terminates(rest, limit) && |rest| <= n
    ensures StopsWithin(rest, limit, n)
    decreases n
  {
    hide IsWhitespace, Pass, Next, AllWhitespace;
    if |rest| > limit {
      PassIsNext(rest, limit);
      NextAdvances(rest, limit);
      StopsWhenTerminating(Pass(rest, limit), limit, n - 1);
    }
  }

  lemma {:induction false} NeverStops(rest: Text, limit: int, n: nat)
    requires limit < 0 || (limit == 0 && rest != [] && !IsWhitespace(rest[0]))
    ensures !StopsWithin(rest, limit, n)
    decreases n
  {
    if n > 0 {
      if limit == 0 {
        PassIsNext(rest, 0);
        assert rest[Next(rest, 0)..] == rest;
      }
      NeverStops(Pass(rest, limit), limit, n - 1);
    }
  }

  /** The loop ends exactly when the limit is positive, or is zero and the text is all white
      space. */
  lemma TerminationCondition(text: Text, limit: int)
    ensures (exists n: nat :: StopsWithin(text, limit, n)) <==> Terminates(text, limit)
  {
    if Terminates(text, limit) {
      StopsWhenTerminating(text, limit, |text|);
    } else {
      forall n: nat ensures !StopsWithin(text, limit, n) {
        if limit < 0 {
          NeverStops(text, limit, n);
        } else if n > 0 {
          PassIsNext(text, 0);
          var p := Next(text, 0);
          assert p == SkipForward(text, 0);
          NeverStops(text[p..], 0, n - 1);
        }
      }
    }
  }

  // ---- the chunks ----------------------------------------------------------------------------

  function Chunks(rest: Text, limit: nat): seq<Text>
    requires Terminates(rest, limit)
    decreases |rest|
  {
    if |rest| <= limit then (if rest == [] then [] else [rest])
    else
      NextAdvances(rest, limit);
      [rest[..ChunkEnd(rest, limit)]] + Chunks(rest[Next(rest, limit)..], limit)
  }

  /** What the cuts drop: the gap after each chunk. */
  function Gaps(rest: Text, limit: nat): (g: seq<Text>)
    requires Terminates(rest, limit)
    ensures |g| == |Chunks(rest, limit)|
    decreases |rest|
  {
    if |rest| <= limit then (if rest == [] then [] else [[]])
    else
      NextAdvances(rest, limit);
      [rest[ChunkEnd(rest, limit)..Next(rest, limit)]] + Gaps(rest[Next(rest, limit)..], limit)
  }

  /** One unfolding of both. */
  lemma ChunksStep(rest: Text, limit: nat)
    requires limit < |rest| && Terminates(rest, limit)
    ensures 0 < Next(rest, limit) && Terminates(rest[Next(rest, limit)..], limit)
    ensures var next := rest[Next(rest, limit)..];
            && Chunks(rest, limit) == [rest[..ChunkEnd(rest, limit)]] + Chunks(next, limit)
            && Gaps(rest, limit) == [rest[ChunkEnd(rest, limit)..Next(rest, limit)]] + Gaps(next, limit)
  {
    hide ChunkEnd, AllWhitespace;
    NextAdvances(rest, limit);
  }

  function ChunkTextForOutbound(text: Text, limit: nat): seq<Text>
    requires Terminates(text, limit)
  {
    if text == [] then [[]] else Chunks(text, limit)
  }

  /** Chunks and the gaps that follow them, laid end to end. */
  function Weave(chunks: seq<Text>, gaps: seq<Text>): Text
    requires |chunks| == |gaps|
  {
    if chunks == [] then [] else chunks[0] + gaps[0] + Weave(chunks[1..], gaps[1..])
  }

  // ---- content -------------------------------------------------------------------------------

  lemma GapIsWhitespace(rest: Text, limit: nat)
    requires limit < |rest|
    ensures AllWhitespace(rest[ChunkEnd(rest, limit)..Next(rest, limit)])
  {
    hide IsWhitespace;
    var b, c, n := CutAt(rest, limit), ChunkEnd(rest, limit), Next(rest, limit);
    forall k | 0 <= k < n - c ensures IsWhitespace(rest[c..n][k]) {
      assert rest[c..n][k] == rest[c + k];
    }
  }

  /** Only white space is dropped. */
  lemma {:induction false} GapsAreWhitespace(text: Text, limit: nat)
    requires Terminates(text, limit)
    ensures forall g :: g in Gaps(text, limit) ==> AllWhitespace(g)
    decreases |text|
  {
    if |text| > limit {
      ChunksStep(text, limit);
      GapIsWhitespace(text, limit);
      hide AllWhitespace, ChunkEnd, Next, Gaps, Chunks;
      GapsAreWhitespace(text[Next(text, limit)..], limit);
    }
  }

  /** The text is its chunks in order, with exactly the gaps between and after them. */
  lemma {:induction false} ContentPreserved(text: Text, limit: nat)
    requires Terminates(text, limit)
    ensures Weave(Chunks(text, limit), Gaps(text, limit)) == text
    decreases |text|
  {
    if |text| > limit {
      ChunksStep(text, limit);
      hide ChunkEnd, Next, Terminates, Chunks, Gaps, Weave;
      var c, n := ChunkEnd(text, limit), Next(text, limit);
      var rest := text[n..];
      ContentPreserved(rest, limit);
      WeaveStep(text[..c], text[c..n], Chunks(rest, limit), Gaps(rest, limit));
      SplitInThree(text, c, n);
    } else if text != [] {
      WeaveStep(text, [], [], []);
      var gap: Text := [];
      assert [text] + [] == [text] && [gap] + [] == [gap];
    }
  }

  lemma SplitInThree(text: Text, c: nat, n: nat)
    requires c <= n <= |text|
    ensures text[..c] + text[c..n] + text[n..] == text
  {
  }

  lemma WeaveStep(c: Text, g: Text, cs: seq<Text>, gs: seq<Text>)
    requires |cs| == |gs|
    ensures Weave([c] + cs, [g] + gs) == c + g + Weave(cs, gs)
  {
    assert ([c] + cs)[1..] == cs && ([g] + gs)[1..] == gs;
  }

  lemma ChunkNonEmpty(rest: Text, limit: nat)
    requires 1 <= limit < |rest| && !IsWhitespace(rest[0])
    ensures ChunkEnd(rest, limit) > 0
  {
  }

  lemma NextStartsWord(rest: Text, limit: nat)
    requires limit < |rest|
    ensures Next(rest, limit) < |rest| ==> !IsWhitespace(rest[Next(rest, limit)..][0])
  {
  }

  /** No chunk exceeds the limit, and only the first one may be empty. */
  lemma {:induction false} ChunkSizes(text: Text, limit: nat)
    requires limit >= 1
    ensures forall i :: 0 <= i < |Chunks(text, limit)| ==> |Chunks(text, limit)[i]| <= limit
    ensures forall i :: 0 <= i < |Chunks(text, limit)| && (i > 0 || StartsWord(text)) ==> Chunks(text, limit)[i] != []
    decreases |text|
  {
    if |text| > limit {
      hide IsWhitespace, ChunkEnd, Next, Chunks;
      ChunksStep(text, limit);
      NextStartsWord(text, limit);
      var c, rest := text[..ChunkEnd(text, limit)], text[Next(text, limit)..];
      ChunkSizes(rest, limit);
      if StartsWord(text) { ChunkNonEmpty(text, limit); }
      var cs, tail := Chunks(text, limit), Chunks(rest, limit);
      assert cs[0] == c && forall i {:trigger cs[i]} :: 0 < i < |cs| ==> cs[i] == tail[i - 1];
    }
  }

  /** The text is empty or starts with a non-space. */
  predicate StartsWord(text: Text) { text != [] ==> !IsWhitespace(text[0]) }

  // ---- the loop ------------------------------------------------------------------------------

  lemma Reassociate<T>(done: seq<T>, x: T, rest: seq<T>)
    ensures done + ([x] + rest) == (done + [x]) + rest
  {
  }

  /** The chunks with `gaps` after them are the text, and the gaps hold white space alone. */
  ghost predicate Divides(text: Text, chunks: seq<Text>, gaps: seq<Text>) {
    |gaps| == |chunks| && (forall g :: g in gaps ==> AllWhitespace(g)) && Weave(chunks, gaps) == text
  }

  /** A cut leaves no white space on either side of it. */
  ghost predicate CutsTrimmed(chunks: seq<Text>) {
    && (forall i :: 0 <= i < |chunks| - 1 ==> EndsWord(chunks[i]))
    && (forall i :: 0 < i < |chunks| ==> chunks[i] != [] && StartsWord(chunks[i]))
  }

  predicate EndsWord(text: Text) { text != [] ==> !IsWhitespace(text[|text| - 1]) }

  lemma ChunkEndsWord(rest: Text, limit: nat)
    requires limit < |rest|
    ensures EndsWord(rest[..ChunkEnd(rest, limit)])
  {
  }

  lemma CutsTrimmedCons(chunk: Text, chunks: seq<Text>)
    requires EndsWord(chunk) && CutsTrimmed(chunks)
    requires chunks != [] ==> chunks[0] != [] && StartsWord(chunks[0])
    ensures CutsTrimmed([chunk] + chunks)
  {
    hide EndsWord, StartsWord;
    var all := [chunk] + chunks;
    assert forall i {:trigger all[i]} :: 0 < i < |all| ==> all[i] == chunks[i - 1];
  }

  lemma FirstStartsWord(rest: Text, limit: nat)
    requires limit >= 1 && StartsWord(rest) && Chunks(rest, limit) != []
    ensures Chunks(rest, limit)[0] != [] && StartsWord(Chunks(rest, limit)[0])
  {
    ChunkSizes(rest, limit);
    if |rest| > limit {
      ChunksStep(rest, limit);
      hide ChunkEnd, Next, IsWhitespace;
      assert Chunks(rest, limit)[0] == rest[..ChunkEnd(rest, limit)];
    }
  }

  lemma {:induction false} ChunksTrimmed(text: Text, limit: nat)
    requires limit >= 1
    ensures CutsTrimmed(Chunks(text, limit))
    decreases |text|
  {
    if |text| > limit {
      ChunksStep(text, limit);
      ChunkEndsWord(text, limit);
      NextStartsWord(text, limit);
      hide ChunkEnd, Next, IsWhitespace, EndsWord, Chunks, CutsTrimmed, Gaps;
      var rest := text[Next(text, limit)..];
      ChunksTrimmed(rest, limit);
      if Chunks(rest, limit) != [] {
        FirstStartsWord(rest, limit);
      }
      CutsTrimmedCons(text[..ChunkEnd(text, limit)], Chunks(rest, limit));
    }
  }

  /** What `ChunkText` promises about the list it returns. */
  lemma ChunksMeet(text: Text, limit: nat)
    requires Terminates(text, limit) && text != []
    ensures exists gaps :: Divides(text, Chunks(text, limit), gaps)
    ensures limit >= 1 ==> CutsTrimmed(Chunks(text, limit))
    ensures limit >= 1 ==> forall chunk :: chunk in Chunks(text, limit) ==> |chunk| <= limit
  {
    GapsAreWhitespace(text, limit);
    ContentPreserved(text, limit);
    assert Divides(text, Chunks(text, limit), Gaps(text, limit));
    if limit >= 1 {
      ChunkSizes(text, limit);
      ChunksTrimmed(text, limit);
    }
  }

  /** The loop. The last four clauses say what the list is without naming a function that computes it. */
  method ChunkText(text: Text, limit: nat) returns (chunks: seq<Text>)
    requires Terminates(text, limit)
    ensures chunks == ChunkTextForOutbound(text, limit)
    ensures text == [] ==> chunks == [[]]
    ensures 0 < |text| <= limit ==> chunks == [text]
    ensures text != [] ==> exists gaps :: Divides(text, chunks, gaps)
    ensures limit >= 1 ==> CutsTrimmed(chunks) && forall chunk :: chunk in chunks ==> |chunk| <= limit
  {
    if text != [] {
      ChunksMeet(text, limit);
    }
    chunks := [];
    var remaining := text;
    while |remaining| > limit
      invariant Terminates(remaining, limit)
      invariant chunks + Chunks(remaining, limit) == Chunks(text, limit)
      invariant text == [] ==> chunks == [] && remaining == []
      decreases |remaining|
    {
      var window := remaining[..limit];
      var newline, space := LastIndexOf(window, NEWLINE), LastIndexOf(window, SPACE);
      var splitAt := if newline > space then newline else space;
      var breakAt := if splitAt > 0 then splitAt else limit;
      ChunksStep(remaining, limit);
      CutFromSearches(remaining, limit);
      TrimEndAt(remaining, breakAt);
      TrimStartAt(remaining, breakAt);
      hide LastIndexOf, TrimEnd, TrimStart, Chunks;
      Reassociate(chunks, TrimEnd(remaining[..breakAt]), Chunks(TrimStart(remaining[breakAt..]), limit));
      chunks := chunks + [TrimEnd(remaining[..breakAt])];
      remaining := TrimStart(remaining[breakAt..]);
    }
    if |remaining| > 0 || |text| == 0 {
      chunks := chunks + [remaining];
    }
  }

  // ---- the chunk count -----------------------------------------------------------------------

  /** Any two passes in a row use up at least `limit` code units. */
  lemma TwoPassesConsumeLimit(rest: Text, limit: nat)
    requires 1 <= limit < |rest| && limit < |rest| - Next(rest, limit)
    ensures Next(rest, limit) + Next(rest[Next(rest, limit)..], limit) >= limit
  {
    var p := Next(rest, limit);
    var rest' := rest[p..];
    var b, c := CutAt(rest, limit), CutAt(rest', limit);
    if b < limit && c < limit {
      assert IsWhitespace(rest[b]);
      hide IsWhitespace;
      assert p > b;
      assert rest'[c] == rest[p + c];
    }
  }

  function MaxChunks(length: nat, limit: nat): nat
    requires limit >= 1
  {
    2 * (length / limit) + 2
  }

  lemma {:induction false} ChunkCount(text: Text, limit: nat)
    requires limit >= 1
    ensures |ChunkTextForOutbound(text, limit)| <= MaxChunks(|text|, limit)
    decreases |text|
  {
    MaxChunksAtLeastTwo(|text|, limit);
    hide MaxChunks, Next, ChunkEnd;
    if |text| > limit {
      ChunksStep(text, limit);
      var next := text[Next(text, limit)..];
      if |next| > limit {
        ChunksStep(next, limit);
        var last := next[Next(next, limit)..];
        TwoPassesConsumeLimit(text, limit);
        ChunkCount(last, limit);
        hide Chunks;
        assert |Chunks(text, limit)| == 2 + |Chunks(last, limit)|;
        MaxChunksStep(|text|, |last|, limit);
      }
    }
  }

  lemma MaxChunksAtLeastTwo(n: nat, d: nat)
    requires d >= 1
    ensures MaxChunks(n, d) >= 2
  {
  }

  lemma MaxChunksStep(n: nat, m: nat, d: nat)
    requires d >= 1 && m + d <= n
    ensures MaxChunks(m, d) + 2 <= MaxChunks(n, d)
  {
    var q, r := m / d, n / d;
    Quotient(m, d);
    Quotient(n, d);
    if q + 1 > r {
      Ordered(r, q, d);
    }
  }

  lemma Quotient(n: nat, d: nat)
    requires d >= 1
    ensures (n / d) * d <= n < (n / d) * d + d
  {
  }

  lemma Ordered(a: nat, b: nat, d: nat)
    requires a <= b
    ensures a * d <= b * d
  {
  }

  // ---- words ---------------------------------------------------------------------------------

  /** Every gap but the last is open. */
  ghost predicate InnerOpen(gaps: seq<Text>) {
    forall i :: 0 <= i < |gaps| - 1 ==> gaps[i] != []
  }

  lemma InnerOpenCons(gap: Text, gaps: seq<Text>)
    ensures InnerOpen([gap] + gaps) <==> (gaps == [] || gap != []) && InnerOpen(gaps)
  {
    var all := [gap] + gaps;
    assert forall i :: 0 <= i < |gaps| ==> all[i + 1] == gaps[i];
    assert all[0] == gap;
  }

  /** No cut divides a word: white space was dropped between every two chunks. */
  ghost predicate WordsWhole(text: Text, limit: nat)
    requires limit >= 1
  {
    InnerOpen(Gaps(text, limit))
  }

  /** The window holds a space or newline past its first position, or white space stands at the limit
      or right before it. */
  predicate Opens(rest: Text, limit: nat)
    requires 1 <= limit < |rest|
  {
    (exists k :: 0 < k < limit && IsBreak(rest[k])) || IsWhitespace(rest[limit - 1]) || IsWhitespace(rest[limit])
  }

  /** One cut drops white space exactly then. */
  lemma GapOpensExactly(rest: Text, limit: nat)
    requires 1 <= limit < |rest|
    ensures ChunkEnd(rest, limit) < Next(rest, limit) <==> Opens(rest, limit)
  {
    var b := CutAt(rest, limit);
    assert b < limit ==> IsWhitespace(rest[b]);
    hide IsWhitespace;
  }

  /** Every pass of the loop finds an opening. */
  predicate CutsNoWord(rest: Text, limit: nat)
    requires limit >= 1
    decreases |rest|
  {
    if |rest| <= limit then true
    else
      NextAdvances(rest, limit);
      Opens(rest, limit) && CutsNoWord(rest[Next(rest, limit)..], limit)
  }

  lemma CutsNoWordStep(text: Text, limit: nat)
    requires 1 <= limit < |text|
    ensures CutsNoWord(text, limit) <==> Opens(text, limit) && CutsNoWord(text[Next(text, limit)..], limit)
  {
    hide Opens, Next;
  }

  lemma WordsWholeStep(text: Text, limit: nat)
    requires 1 <= limit < |text|
    ensures WordsWhole(text, limit) <==> Opens(text, limit) && WordsWhole(text[Next(text, limit)..], limit)
  {
    hide ChunkEnd, Next, Opens, Gaps, Chunks, InnerOpen;
    ChunksStep(text, limit);
    GapOpensExactly(text, limit);
    var c, n := ChunkEnd(text, limit), Next(text, limit);
    SomeGap(text[n..], limit);
    InnerOpenCons(text[c..n], Gaps(text[n..], limit));
    CutBeforeEnd(text, limit);
  }

  lemma CutBeforeEnd(text: Text, limit: nat)
    requires limit < |text|
    ensures ChunkEnd(text, limit) < |text|
  {
  }

  lemma SomeGap(rest: Text, limit: nat)
    requires limit >= 1
    ensures Gaps(rest, limit) == [] <==> rest == []
  {
    hide ChunkEnd, Next;
  }

  /** For every text and positive limit, no word is divided exactly when every pass finds an
      opening. */
  lemma {:induction false} WordsStayWholeExactly(text: Text, limit: nat)
    requires limit >= 1
    ensures WordsWhole(text, limit) <==> CutsNoWord(text, limit)
    decreases |text|
  {
    if |text| > limit {
      NextAdvances(text, limit);
      WordsWholeStep(text, limit);
      CutsNoWordStep(text, limit);
      hide *;
      WordsStayWholeExactly(text[Next(text, limit)..], limit);
    }
  }

  /** One of the `limit + 1` code units from `i` on is a space or newline. */
  ghost predicate HasBreak(s: Text, i: nat, limit: nat)
    requires i + limit < |s|
  {
    exists k :: i <= k <= i + limit && IsBreak(s[k])
  }

  /** Every run without space or newline fits the limit. */
  ghost predicate RunsFit(text: Text, limit: nat) {
    forall i: nat :: i + limit < |text| ==> HasBreak(text, i, limit)
  }

  lemma RunsOpen(rest: Text, limit: nat)
    requires 1 <= limit < |rest| && !IsWhitespace(rest[0]) && RunsFit(rest, limit)
    ensures Opens(rest, limit)
  {
    assert HasBreak(rest, 0, limit);
    var k :| 0 <= k <= limit && IsBreak(rest[k]);
    assert k > 0;
  }

  lemma RunsFitTail(text: Text, limit: nat, n: nat)
    requires RunsFit(text, limit) && n <= |text|
    ensures RunsFit(text[n..], limit)
  {
    var t := text[n..];
    forall i: nat | i + limit < |t| ensures HasBreak(t, i, limit) {
      assert HasBreak(text, n + i, limit);
      var k :| n + i <= k <= n + i + limit && IsBreak(text[k]);
      assert t[k - n] == text[k];
    }
  }

  /** When every run fits and the text starts with a non-space, no cut divides a word. */
  lemma {:induction false} WordsStayWhole(text: Text, limit: nat)
    requires limit >= 1 && RunsFit(text, limit) && StartsWord(text)
    ensures WordsWhole(text, limit)
    decreases |text|
  {
    if |text| > limit {
      NextAdvances(text, limit);
      NextStartsWord(text, limit);
      RunsOpen(text, limit);
      RunsFitTail(text, limit, Next(text, limit));
      WordsWholeStep(text, limit);
      hide IsWhitespace, Next, RunsFit, Opens, WordsWhole;
      WordsStayWhole(text[Next(text, limit)..], limit);
    }
  }

  /** When every run fits, the first cut decides, whatever the text starts with. */
  lemma FirstCutDecides(text: Text, limit: nat)
    requires limit >= 1 && RunsFit(text, limit)
    ensures WordsWhole(text, limit) <==> |text| <= limit || Opens(text, limit)
  {
    if |text| > limit {
      NextStartsWord(text, limit);
      RunsFitTail(text, limit, Next(text, limit));
      WordsWholeStep(text, limit);
      hide IsWhitespace, Next, RunsFit, Opens, WordsWhole;
      WordsStayWhole(text[Next(text, limit)..], limit);
    }
  }

  /** Spaces and newlines are the only white space. */
  ghost predicate OnlyBreaks(text: Text) {
    forall k :: 0 <= k < |text| && IsWhitespace(text[k]) ==> IsBreak(text[k])
  }

  /** If the rest after a cut fits and the cut dropped only breaks, the text fits. */
  lemma RunsFitWhole(text: Text, limit: nat)
    requires 1 <= limit < |text| && OnlyBreaks(text)
    requires Opens(text, limit) && RunsFit(text[Next(text, limit)..], limit)
    ensures RunsFit(text, limit)
  {
    GapOpensExactly(text, limit);
    var b, n := CutAt(text, limit), Next(text, limit);
    var rest := text[n..];
    assert n > 0 && IsWhitespace(text[n - 1]);
    assert forall k :: b <= k < n ==> IsWhitespace(text[k]);
    hide IsWhitespace, IsBreak, CutAt, Next, Opens;
    forall i: nat | i + limit < |text| ensures HasBreak(text, i, limit) {
      if i >= n {
        assert HasBreak(rest, i - n, limit);
        var k :| i - n <= k <= i - n + limit && IsBreak(rest[k]);
        assert text[n + k] == rest[k];
      } else if i + limit >= n {
        assert IsBreak(text[n - 1]);
      } else {
        assert IsBreak(text[i + limit]);
      }
    }
  }

  /** A text that starts with a non-space and has no white space but spaces and newlines keeps its
      words whole exactly when every run fits. */
  lemma {:induction false} WordsStayWholeIffRunsFit(text: Text, limit: nat)
    requires limit >= 1 && StartsWord(text) && OnlyBreaks(text)
    ensures WordsWhole(text, limit) <==> RunsFit(text, limit)
    decreases |text|
  {
    if RunsFit(text, limit) {
      WordsStayWhole(text, limit);
    } else if |text| > limit {
      NextAdvances(text, limit);
      NextStartsWord(text, limit);
      WordsWholeStep(text, limit);
      var rest := text[Next(text, limit)..];
      assert OnlyBreaks(rest);
      hide IsWhitespace, Next, Opens, WordsWhole;
      WordsStayWholeIffRunsFit(rest, limit);
      if Opens(text, limit) && RunsFit(rest, limit) {
        RunsFitWhole(text, limit);
      }
    }
  }

  /** Leading white space can break it: " aaaa" at limit 4 is cut inside its word. */
  lemma LeadingSpaceSplitsWord()
    ensures var text := [SPACE, 0x61, 0x61, 0x61, 0x61];
            RunsFit(text, 4) && !WordsWhole(text, 4) && ChunkTextForOutbound(text, 4) == [text[..4], text[4..]]
  {
    var text: Text := [SPACE, 0x61, 0x61, 0x61, 0x61];
    assert IsBreak(text[0]);
    assert CutAt(text, 4) == 4;
    assert ChunkEnd(text, 4) == 4 && Next(text, 4) == 4;
    assert Chunks(text[4..], 4) == [text[4..]];
    FirstCutDecides(text, 4);
  }

  // ---- surrogate pairs -----------------------------------------------------------------------

  /** No pass cuts inside a surrogate pair. */
  predicate CutsNoPair(rest: Text, limit: nat)
    requires limit >= 1
    decreases |rest|
  {
    if |rest| <= limit then true
    else
      NextAdvances(rest, limit);
      Utf16.Boundary(rest, CutAt(rest, limit)) && CutsNoPair(rest[Next(rest, limit)..], limit)
  }

  lemma CutsNoPairStep(text: Text, limit: nat)
    requires 1 <= limit < |text|
    ensures CutsNoPair(text, limit)
       <==> Utf16.Boundary(text, CutAt(text, limit)) && CutsNoPair(text[Next(text, limit)..], limit)
  {
    hide CutAt, Next;
  }

  /** A cut falls inside a pair exactly when the window has no space or newline past its first position
      and the pair straddles the limit. */
  lemma PairCutExactly(rest: Text, limit: nat)
    requires 1 <= limit < |rest|
    ensures !Utf16.Boundary(rest, CutAt(rest, limit))
       <==> && (forall k :: 0 < k < limit ==> !IsBreak(rest[k]))
            && Utf16.IsHighSurrogate(rest[limit - 1]) && Utf16.IsLowSurrogate(rest[limit])
  {
    var b := CutAt(rest, limit);
    assert b < limit ==> IsBreak(rest[b]) && !Utf16.IsLowSurrogate(rest[b]);
  }

  /** At a cut that divides no pair, both trimmed ends divide none either. */
  lemma TrimmedEndsAreBoundaries(text: Text, limit: nat)
    requires limit < |text| && Utf16.Boundary(text, CutAt(text, limit))
    ensures Utf16.Boundary(text, ChunkEnd(text, limit)) && Utf16.Boundary(text, Next(text, limit))
  {
    var b, c, n := CutAt(text, limit), ChunkEnd(text, limit), Next(text, limit);
    assert c < b ==> IsWhitespace(text[c]);
    assert n > b ==> IsWhitespace(text[n - 1]);
  }

  /** At a cut inside a pair nothing is trimmed, and the chunk ends in a lone surrogate. */
  lemma DividedPair(text: Text, limit: nat)
    requires limit < |text| && !Utf16.Boundary(text, CutAt(text, limit))
    ensures !Utf16.WellFormed(text[..ChunkEnd(text, limit)])
  {
    var b := CutAt(text, limit);
    assert !IsWhitespace(text[b - 1]);
    assert ChunkEnd(text, limit) == b;
    var chunk := text[..b];
    Utf16.WellFormedIsPaired(chunk);
    assert chunk[b - 1] == text[b - 1];
  }

  /** A chunk and what the next pass starts from, when the cut divides no pair. */
  lemma WholePieces(text: Text, limit: nat)
    requires limit < |text| && Utf16.WellFormed(text) && Utf16.Boundary(text, CutAt(text, limit))
    ensures Utf16.WellFormed(text[..ChunkEnd(text, limit)]) && Utf16.WellFormed(text[Next(text, limit)..])
  {
    TrimmedEndsAreBoundaries(text, limit);
    var c, n := ChunkEnd(text, limit), Next(text, limit);
    hide ChunkEnd, Next, CutAt;
    Utf16.BoundarySlice(text, 0, c);
    Utf16.BoundarySlice(text, n, |text|);
    assert text[0..c] == text[..c] && text[n..|text|] == text[n..];
  }

  ghost predicate AllWellFormed(chunks: seq<Text>) {
    forall i :: 0 <= i < |chunks| ==> Utf16.WellFormed(chunks[i])
  }

  lemma AllWellFormedCons(c: Text, cs: seq<Text>)
    ensures AllWellFormed([c] + cs) <==> Utf16.WellFormed(c) && AllWellFormed(cs)
  {
    hide Utf16.WellFormed;
    var all := [c] + cs;
    assert forall i :: 0 <= i < |cs| ==> all[i + 1] == cs[i];
    assert all[0] == c;
  }

  lemma AllWellFormedStep(text: Text, limit: nat)
    requires 1 <= limit < |text|
    ensures AllWellFormed(Chunks(text, limit))
       <==> Utf16.WellFormed(text[..ChunkEnd(text, limit)]) && AllWellFormed(Chunks(text[Next(text, limit)..], limit))
  {
    hide ChunkEnd, Next, Gaps, Chunks, AllWellFormed, Utf16.WellFormed;
    ChunksStep(text, limit);
    AllWellFormedCons(text[..ChunkEnd(text, limit)], Chunks(text[Next(text, limit)..], limit));
  }

  /** For every well-formed text and positive limit, the chunks are well-formed exactly when no pass
      cuts inside a surrogate pair. */
  lemma {:induction false} ChunksWellFormedExactly(text: Text, limit: nat)
    requires limit >= 1 && Utf16.WellFormed(text)
    ensures AllWellFormed(Chunks(text, limit)) <==> CutsNoPair(text, limit)
    decreases |text|
  {
    if |text| > limit {
      NextAdvances(text, limit);
      AllWellFormedStep(text, limit);
      CutsNoPairStep(text, limit);
      hide *;
      if Utf16.Boundary(text, CutAt(text, limit)) {
        WholePieces(text, limit);
        ChunksWellFormedExactly(text[Next(text, limit)..], limit);
      } else {
        DividedPair(text, limit);
      }
    } else {
      hide Utf16.WellFormed;
    }
  }

  /** An opening divides no pair. */
  lemma {:induction false} WholeWordsWholePairs(text: Text, limit: nat)
    requires limit >= 1 && CutsNoWord(text, limit)
    ensures CutsNoPair(text, limit)
    decreases |text|
  {
    if |text| > limit {
      NextAdvances(text, limit);
      CutsNoWordStep(text, limit);
      CutsNoPairStep(text, limit);
      PairCutExactly(text, limit);
      WholeWordsWholePairs(text[Next(text, limit)..], limit);
      hide CutsNoWord, CutsNoPair, Next, CutAt, Utf16.Boundary;
    }
  }

  /** So in well-formed text a cut that divides a pair divides a word. */
  lemma ChunksStayWellFormed(text: Text, limit: nat)
    requires limit >= 1 && Utf16.WellFormed(text) && WordsWhole(text, limit)
    ensures AllWellFormed(Chunks(text, limit))
  {
    hide *;
    WordsStayWholeExactly(text, limit);
    WholeWordsWholePairs(text, limit);
    ChunksWellFormedExactly(text, limit);
  }

  /** Without it a pair can be divided: one emoji at limit 1 becomes two lone surrogates. */
  lemma PairDividedAtLimitOne()
    ensures var text := [0xD83D, 0xDE00];
            Utf16.WellFormed(text) && ChunkTextForOutbound(text, 1) == [[0xD83D], [0xDE00]]
            && !Utf16.WellFormed([0xD83D])
  {
    var text: Text := [0xD83D, 0xDE00];
    assert Utf16.Decode(text[2..]) == Some([]);
    assert CutAt(text, 1) == 1;
    assert ChunkEnd(text, 1) == 1 && Next(text, 1) == 1;
    assert text[1..] == [0xDE00] && text[..1] == [0xD83D];
    assert Chunks(text[1..], 1) == [text[1..]];
    assert Chunks(text, 1) == [text[..1]] + Chunks(text[1..], 1);
  }
}
