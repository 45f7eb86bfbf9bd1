/** Re-batching a paged listing for the issue labeller (scripts/label-open-issues.ts). */
module LabelBatches {

  const WORK_BATCH_SIZE := 500

  datatype Page<+T> = Page(nodes: seq<T>, hasNextPage: bool)

  datatype Batch<+T> = Batch(batchIndex: nat, items: seq<T>, fetchedCount: nat)

  function PageItems<T>(pages: seq<Page<T>>): seq<T> {
    if pages == [] then [] else PageItems(pages[..|pages| - 1]) + pages[|pages| - 1].nodes
  }

  function BatchItems<T>(batches: seq<Batch<T>>): seq<T> {
    if batches == [] then [] else BatchItems(batches[..|batches| - 1]) + batches[|batches| - 1].items
  }

  /** Every page but the last says that another one follows. */
  predicate Listing<T>(pages: seq<Page<T>>) {
    pages != [] && forall i :: 0 <= i < |pages| ==> (pages[i].hasNextPage <==> i < |pages| - 1)
  }

  /** The limit is a number; by default it is infinite. */
  datatype Limit = Unlimited | AtMost(n: real)

  predicate Under(count: nat, limit: Limit) { limit.Unlimited? || count as real < limit.n }

  /** The longest prefix all of whose items were taken under the limit. */
  function FirstItems<T>(items: seq<T>, limit: Limit): seq<T> {
    if items == [] || Under(|items| - 1, limit) then items else FirstItems(items[..|items| - 1], limit)
  }

  lemma {:induction false} FirstItemsIs<T>(items: seq<T>, k: nat, limit: Limit)
    requires k <= |items| && (k > 0 ==> Under(k - 1, limit)) && (k < |items| ==> !Under(k, limit))
    ensures FirstItems(items, limit) == items[..k]
    decreases |items|
  {
    if k == |items| {
      assert items[..k] == items;
    } else {
      FirstItemsIs(items[..|items| - 1], k, limit);
      assert items[..|items| - 1][..k] == items[..k];
    }
  }

  /** For a natural limit they are the first that many items, for an infinite one all of them. */
  lemma FirstItemsCount<T>(items: seq<T>, n: nat)
    ensures FirstItems(items, Unlimited) == items
    ensures FirstItems(items, AtMost(n as real)) == if |items| <= n then items else items[..n]
  {
    var k := if |items| <= n then |items| else n;
    FirstItemsIs(items, k, AtMost(n as real));
    assert items[..|items|] == items;
  }

  lemma FirstOfPrefix<T>(a: seq<T>, b: seq<T>, limit: Limit)
    requires a <= b && !Under(|a|, limit)
    ensures FirstItems(a, limit) == FirstItems(b, limit)
  {
    var k := |FirstItems(a, limit)|;
    FirstItemsEnd(a, limit);
    FirstItemsIs(b, k, limit);
    assert a[..k] == b[..k];
  }

  lemma {:induction false} FirstItemsEnd<T>(items: seq<T>, limit: Limit)
    ensures var k := |FirstItems(items, limit)|;
            && k <= |items| && FirstItems(items, limit) == items[..k]
            && (k > 0 ==> Under(k - 1, limit)) && (k < |items| ==> !Under(k, limit))
    decreases |items|
  {
    if items != [] && !Under(|items| - 1, limit) {
      FirstItemsEnd(items[..|items| - 1], limit);
    }
  }

  /** Batches numbered from 1, each with the running count of items so far. */
  ghost predicate Numbered<T>(batches: seq<Batch<T>>) {
    forall i :: 0 <= i < |batches| ==>
      batches[i].batchIndex == i + 1 && batches[i].fetchedCount == |BatchItems(batches[..i + 1])|
  }

  ghost predicate Full<T>(batches: seq<Batch<T>>) {
    forall i :: 0 <= i < |batches| ==> |batches[i].items| == WORK_BATCH_SIZE
  }

  lemma Snoc<T>(batches: seq<Batch<T>>, b: Batch<T>)
    ensures BatchItems(batches + [b]) == BatchItems(batches) + b.items
  {
    assert (batches + [b])[..|batches|] == batches;
  }

  lemma PageSnoc<T>(pages: seq<Page<T>>, page: nat)
    requires page < |pages|
    ensures PageItems(pages[..page + 1]) == PageItems(pages[..page]) + pages[page].nodes
  {
    assert pages[..page + 1][..page] == pages[..page];
  }

  /** A batch with the next number and the right running count keeps the numbering. */
  lemma BatchAdded<T>(batches: seq<Batch<T>>, b: Batch<T>)
    requires Numbered(batches) && b.batchIndex == |batches| + 1 && b.fetchedCount == |BatchItems(batches) + b.items|
    ensures Numbered(batches + [b]) && BatchItems(batches + [b]) == BatchItems(batches) + b.items
  {
    Snoc(batches, b);
    hide BatchItems;
    var all := batches + [b];
    forall i | 0 <= i < |all| ensures all[i].batchIndex == i + 1 && all[i].fetchedCount == |BatchItems(all[..i + 1])| {
      if i < |batches| {
        assert all[..i + 1] == batches[..i + 1];
      } else {
        assert all[..i + 1] == all;
      }
    }
  }

  lemma FullAdded<T>(batches: seq<Batch<T>>, b: Batch<T>)
    requires Full(batches) && |b.items| == WORK_BATCH_SIZE
    ensures Full(batches + [b])
  {
  }

  /** What has been yielded and what is still buffered, after fetching some pages. */
  ghost predicate Progress<T>(batches: seq<Batch<T>>, results: seq<T>, fetchedCount: nat, items: seq<T>) {
    && Numbered(batches)
    && Full(batches)
    && |results| < WORK_BATCH_SIZE
    && BatchItems(batches) + results == items
    && fetchedCount == |items|
  }

  /** Pushing one item, and yielding the buffer when that fills it. */
  lemma Pushed<T>(batches: seq<Batch<T>>, results: seq<T>, fetchedCount: nat, items: seq<T>, x: T)
    requires Progress(batches, results, fetchedCount, items)
    ensures |results| + 1 < WORK_BATCH_SIZE ==> Progress(batches, results + [x], fetchedCount + 1, items + [x])
    ensures |results| + 1 >= WORK_BATCH_SIZE ==>
              Progress(batches + [Batch(|batches| + 1, results + [x], fetchedCount + 1)], [], fetchedCount + 1,
                  items + [x])
  {
    hide Numbered, Full, BatchItems;
    assert BatchItems(batches) + (results + [x]) == items + [x];
    if |results| + 1 >= WORK_BATCH_SIZE {
      var b := Batch(|batches| + 1, results + [x], fetchedCount + 1);
      BatchAdded(batches, b);
      FullAdded(batches, b);
      assert BatchItems(batches + [b]) + [] == BatchItems(batches + [b]);
    }
  }

  /** Yielding what is left in the buffer. */
  lemma Finished<T>(batches: seq<Batch<T>>, results: seq<T>, fetchedCount: nat, items: seq<T>)
    requires Progress(batches, results, fetchedCount, items)
    ensures var all := if |results| > 0 then batches + [Batch(|batches| + 1, results, fetchedCount)] else batches;
            Numbered(all) && WellSized(all) && BatchItems(all) == items
  {
    hide Numbered, BatchItems;
    if |results| > 0 {
      BatchAdded(batches, Batch(|batches| + 1, results, fetchedCount));
    } else {
      assert BatchItems(batches) + results == BatchItems(batches);
    }
  }

  lemma Started<T>()
    ensures Progress<T>([], [], 0, []) && PageItems<T>([]) == []
  {
  }

  /** Every batch holds an item, and every batch but the last is full. */
  ghost predicate WellSized<T>(batches: seq<Batch<T>>) {
    && (forall i :: 0 <= i < |batches| ==> 0 < |batches[i].items| <= WORK_BATCH_SIZE)
    && (forall i :: 0 <= i < |batches| - 1 ==> |batches[i].items| == WORK_BATCH_SIZE)
  }

  /** The batches hold the items of the pages taken under the limit, in order; every batch but the last
      is full; and no page is fetched once the limit is reached. */
  method FetchOpenLabelItemBatches<T>(pages: seq<Page<T>>, limit: Limit)
    returns (batches: seq<Batch<T>>, fetchedPages: nat)
    requires Listing(pages)
    ensures BatchItems(batches) == FirstItems(PageItems(pages), limit)
    ensures Numbered(batches) && WellSized(batches)
    ensures fetchedPages <= |pages|
    ensures fetchedPages > 0 ==> Under(|PageItems(pages[..fetchedPages - 1])|, limit)
    ensures fetchedPages < |pages| ==> !Under(|PageItems(pages[..fetchedPages])|, limit)
  {
    hide BatchItems, PageItems, Numbered, WellSized, Progress, FirstItems;
    batches := [];
    var results: seq<T> := [];
    var page := 0;
    var fetchedCount: nat := 0;
    Started<T>();
    FirstOfNothing<T>(limit);
    while Under(fetchedCount, limit)
      invariant page <= |pages|
      invariant Progress(batches, results, fetchedCount, FirstItems(PageItems(pages[..page]), limit))
      invariant page > 0 ==> Under(|PageItems(pages[..page - 1])|, limit)
      invariant fetchedCount == |FirstItems(PageItems(pages[..page]), limit)|
      invariant Under(fetchedCount, limit) ==> page < |pages|
      decreases |pages| - page
    {
      var nodes := pages[page].nodes;
      PageSnoc(pages, page);
      NothingCutYet(PageItems(pages[..page]), limit);
      batches, results, fetchedCount := TakeNodes(nodes, limit, batches, results, fetchedCount,
          PageItems(pages[..page]));
      page := page + 1;
      if !pages[page - 1].hasNextPage {
        assert pages[..page] == pages;
        break;
      }
    }
    fetchedPages := page;
    MorePages(pages, page);
    if page < |pages| {
      FirstItemsEnd(PageItems(pages[..page]), limit);
      FirstOfPrefix(PageItems(pages[..page]), PageItems(pages), limit);
    }
    assert pages[..|pages|] == pages;
    Finished(batches, results, fetchedCount, FirstItems(PageItems(pages), limit));
    if |results| > 0 {
      batches := batches + [Batch(|batches| + 1, results, fetchedCount)];
    }
  }

  lemma FirstOfNothing<T>(limit: Limit)
    ensures FirstItems<T>([], limit) == []
  {
  }

  /** As long as the count is under the limit, every item was taken. */
  lemma NothingCutYet<T>(items: seq<T>, limit: Limit)
    requires Under(|FirstItems(items, limit)|, limit)
    ensures FirstItems(items, limit) == items
  {
    FirstItemsEnd(items, limit);
    hide FirstItems;
    assert items[..|items|] == items;
  }

  /** The loop over one page's nodes. */
  method TakeNodes<T>(nodes: seq<T>, limit: Limit, batches0: seq<Batch<T>>, results0: seq<T>, fetched0: nat,
                      ghost before: seq<T>)
    returns (batches: seq<Batch<T>>, results: seq<T>, fetchedCount: nat)
    requires Progress(batches0, results0, fetched0, before) && fetched0 == |before| && Under(fetched0, limit)
    ensures Progress(batches, results, fetchedCount, FirstItems(before + nodes, limit))
    ensures fetchedCount == |FirstItems(before + nodes, limit)|
  {
    assert |results0| < WORK_BATCH_SIZE;
    hide Progress, FirstItems;
    batches, results, fetchedCount := batches0, results0, fetched0;
    assert before + nodes[..0] == before;
    for i := 0 to |nodes|
      invariant Progress(batches, results, fetchedCount, before + nodes[..i])
      invariant fetchedCount == |before| + i
      invariant fetchedCount > 0 ==> Under(fetchedCount - 1, limit)
      invariant |results| < WORK_BATCH_SIZE
    {
      if !Under(fetchedCount, limit) {
        FirstItemsIs(before + nodes, fetchedCount, limit);
        assert (before + nodes)[..fetchedCount] == before + nodes[..i];
        return;
      }
      assert before + nodes[..i + 1] == before + nodes[..i] + [nodes[i]];
      Pushed(batches, results, fetchedCount, before + nodes[..i], nodes[i]);
      results := results + [nodes[i]];
      fetchedCount := fetchedCount + 1;
      if |results| >= WORK_BATCH_SIZE {
        batches := batches + [Batch(|batches| + 1, results, fetchedCount)];
        results := [];
      }
    }
    assert nodes[..|nodes|] == nodes;
    FirstItemsIs(before + nodes, fetchedCount, limit);
    assert (before + nodes)[..fetchedCount] == before + nodes;
  }

  lemma {:induction false} MorePages<T>(pages: seq<Page<T>>, n: nat)
    requires n <= |pages|
    ensures PageItems(pages[..n]) <= PageItems(pages)
    decreases |pages|
  {
    if n == |pages| {
      assert pages[..n] == pages;
    } else {
      MorePages(pages[..|pages| - 1], n);
      assert pages[..|pages| - 1][..n] == pages[..n];
    }
  }

  /** The items are those of the pages, page after page, each in its order. */
  lemma PageItemAt<T>(pages: seq<Page<T>>, p: nat, i: nat)
    requires p < |pages| && i < |pages[p].nodes|
    ensures |PageItems(pages[..p + 1])| == |PageItems(pages[..p])| + |pages[p].nodes|
    ensures var at := |PageItems(pages[..p])| + i;
            at < |PageItems(pages)| && PageItems(pages)[at] == pages[p].nodes[i]
  {
    PageSnoc(pages, p);
    MorePages(pages, p + 1);
    hide PageItems;
    var prefix := PageItems(pages[..p + 1]);
    assert prefix[|PageItems(pages[..p])| + i] == pages[p].nodes[i];
    assert PageItems(pages)[..|prefix|] == prefix;
  }

  // ---- the batches in closed form ----------------------------------------------------------------

  lemma {:induction false} ItemsBefore<T>(batches: seq<Batch<T>>, k: nat)
    requires WellSized(batches) && k < |batches|
    ensures |BatchItems(batches[..k])| == k * WORK_BATCH_SIZE
  {
    if k > 0 {
      ItemsBefore(batches, k - 1);
      assert batches[..k][..k - 1] == batches[..k - 1];
    }
  }

  lemma {:induction false} MoreBatches<T>(batches: seq<Batch<T>>, n: nat)
    requires n <= |batches|
    ensures BatchItems(batches[..n]) <= BatchItems(batches)
    decreases |batches|
  {
    if n == |batches| {
      assert batches[..n] == batches;
    } else {
      MoreBatches(batches[..|batches| - 1], n);
      assert batches[..|batches| - 1][..n] == batches[..n];
    }
  }

  lemma BatchWindow<T>(batches: seq<Batch<T>>, k: nat)
    requires Numbered(batches) && WellSized(batches) && k < |batches|
    ensures var items := BatchItems(batches);
            var from, to := k * WORK_BATCH_SIZE, if k == |batches| - 1 then |items| else (k + 1) * WORK_BATCH_SIZE;
            0 <= from < to <= |items| && to - from <= WORK_BATCH_SIZE && batches[k] == Batch(k + 1, items[from..to], to)
  {
    hide *;
    BatchFacts(batches, k);
    ItemsBefore(batches, k);
    MoreBatches(batches, k + 1);
    SliceOfPrefix(BatchItems(batches[..k]), batches[k].items, BatchItems(batches));
  }

  /** Batch `k` of a numbered, well-sized batching holds the items from `500 * k` on, as many as there
      are up to 500; so the items determine the batches. */
  lemma BatchAt<T>(batches: seq<Batch<T>>, k: nat)
    requires Numbered(batches) && WellSized(batches) && k < |batches|
    ensures var items := BatchItems(batches);
            var from, to := k * 500, if k == |batches| - 1 then |items| else (k + 1) * 500;
            0 <= from < to <= |items| && to - from <= 500 && batches[k] == Batch(k + 1, items[from..to], to)
  {
    BatchWindow(batches, k);
    hide Numbered, WellSized, BatchItems;
  }

  lemma BatchFacts<T>(batches: seq<Batch<T>>, k: nat)
    requires Numbered(batches) && WellSized(batches) && k < |batches|
    ensures batches[k].batchIndex == k + 1 && batches[k].fetchedCount == |BatchItems(batches[..k + 1])|
    ensures 0 < |batches[k].items| <= WORK_BATCH_SIZE && (k < |batches| - 1 ==> |batches[k].items| == WORK_BATCH_SIZE)
    ensures k == |batches| - 1 ==> BatchItems(batches[..k + 1]) == BatchItems(batches)
    ensures BatchItems(batches[..k + 1]) == BatchItems(batches[..k]) + batches[k].items
  {
    Snoc(batches[..k], batches[k]);
    hide BatchItems;
    assert batches[..k] + [batches[k]] == batches[..k + 1];
    assert k == |batches| - 1 ==> batches[..k + 1] == batches;
  }

  lemma SliceOfPrefix<T>(a: seq<T>, b: seq<T>, all: seq<T>)
    requires a + b <= all
    ensures |a| + |b| <= |all| && all[|a|..|a| + |b|] == b
  {
    assert (a + b)[|a|..] == b;
    assert all[..|a| + |b|] == a + b;
  }
}
