/** The dense cache of every fetched page (`allArtworksRef`) and the merge
    that splices a freshly fetched page into it. */
module PageCache {
  import JsArray
  import opened Arith

  /** The cache after fetching page `page` (1-based) of `pageSize` records:
      the old entries before the page's first index, the fetched records,
      then the old entries from the next page's first index on. For every
      page, real or not, the fetched records appear intact and contiguous
      where `slice` resolves the page's first index. */
  function Merge<T>(cache: seq<T>, page: int, pageSize: int, data: seq<T>): (r: seq<T>)
    ensures var at := JsArray.Resolve((page - 1) * pageSize, |cache|);
            at + |data| <= |r| && r[at..at + |data|] == data
  {
    Splice(cache, (page - 1) * pageSize, page * pageSize, data)
  }

  /** `[...cache.slice(0, start), ...data, ...cache.slice(end)]`: the data
      lands where `start` resolves, and the result is as long as the kept
      prefix, the data and the kept suffix together. */
  function Splice<T>(cache: seq<T>, start: int, end: int, data: seq<T>): (r: seq<T>)
    ensures var at := JsArray.Resolve(start, |cache|);
            |r| == at + |data| + (|cache| - JsArray.Resolve(end, |cache|)) && r[at..at + |data|] == data
  {
    JsArray.Slice(cache, 0, start) + data + JsArray.SliceFrom(cache, end)
  }

  /** A real page (page >= 1) starts at a non-negative index and the next
      page starts `pageSize` later. */
  lemma PageBounds(page: int, pageSize: int)
    requires page >= 1 && pageSize >= 0
    ensures 0 <= (page - 1) * pageSize
    ensures page * pageSize == (page - 1) * pageSize + pageSize
  {
    MulMonotone(0, page - 1, pageSize);
  }

  /** With non-negative bounds, a splice is the clamped prefix, the data and
      the clamped suffix. */
  lemma SpliceShape<T>(cache: seq<T>, start: int, end: int, data: seq<T>)
    requires 0 <= start <= end
    ensures Splice(cache, start, end, data) == cache[..Min(|cache|, start)] + data + cache[Min(|cache|, end)..]
  {
    JsArray.SliceNonNegative(cache, 0, start);
    JsArray.SliceFromNonNegative(cache, end);
  }

  /** For a real page (page >= 1): the fetched records land at the page's
      first index, or at the current end of the cache when the cache is
      shorter than that; the old entries from the next page on follow them in
      their original order. */
  lemma MergeShape<T>(cache: seq<T>, page: int, pageSize: int, data: seq<T>)
    requires page >= 1 && pageSize >= 0
    ensures Merge(cache, page, pageSize, data)
         == cache[..Min(|cache|, (page - 1) * pageSize)] + data + cache[Min(|cache|, page * pageSize)..]
  {
    PageBounds(page, pageSize);
    SpliceShape(cache, (page - 1) * pageSize, page * pageSize, data);
  }

  /** Splicing a block leaves every entry before its start unchanged, if the
      cache reached the start. */
  lemma SplicePreservesPrefix<T>(cache: seq<T>, start: int, end: int, data: seq<T>)
    requires 0 <= start <= end && start <= |cache|
    ensures var r := Splice(cache, start, end, data);
            forall i :: 0 <= i < start ==> i < |r| && r[i] == cache[i]
  {
    SpliceShape(cache, start, end, data);
    var r := Splice(cache, start, end, data);
    forall i | 0 <= i < start ensures i < |r| && r[i] == cache[i] {
      assert r[i] == cache[..start][i];
    }
  }

  /** A splice places the data contiguously from the clamped start and the
      old entries from `end` on right after it, in order. */
  lemma SpliceLayout<T>(cache: seq<T>, start: int, end: int, data: seq<T>)
    requires 0 <= start <= end
    ensures var at := Min(|cache|, start);
            var r := Splice(cache, start, end, data);
            |r| == at + |data| + Max(0, |cache| - end) &&
            r[at..at + |data|] == data &&
            r[at + |data|..] == cache[Min(|cache|, end)..]
  {
    SpliceShape(cache, start, end, data);
    var at := Min(|cache|, start);
    var prefix, suffix := cache[..at], cache[Min(|cache|, end)..];
    var r := Splice(cache, start, end, data);
    assert r == prefix + data + suffix && |prefix| == at;
    assert r[at..at + |data|] == data;
    assert r[at + |data|..] == suffix;
  }

  /** A block that fits inside the cache, replaced by data of its own length,
      overwrites exactly that block. */
  lemma SpliceOverwritesBlock<T>(cache: seq<T>, start: int, end: int, data: seq<T>)
    requires 0 <= start <= end <= |cache| && |data| == end - start
    ensures var r := Splice(cache, start, end, data);
            |r| == |cache| &&
            forall i :: 0 <= i < |cache| ==> r[i] == if start <= i < end then data[i - start] else cache[i]
  {
    SpliceShape(cache, start, end, data);
    var r := Splice(cache, start, end, data);
    forall i | 0 <= i < |cache|
      ensures r[i] == if start <= i < end then data[i - start] else cache[i]
    {
      if i < start {
        assert r[i] == cache[..start][i];
      } else if i < end {
        assert r[i] == (cache[..start] + data)[i];
      } else {
        assert r[i] == cache[end..][i - end];
      }
    }
  }

  /** A splice whose start lies at or past the cache's end appends the data. */
  lemma SpliceAtEnd<T>(cache: seq<T>, start: int, end: int, data: seq<T>)
    requires 0 <= start <= end && |cache| <= start
    ensures Splice(cache, start, end, data) == cache + data
  {
    SpliceShape(cache, start, end, data);
    assert cache[..|cache|] == cache && cache[|cache|..] == [];
  }

  /** Splicing the same block-sized data twice equals splicing it once, if
      the cache reached the block's start. */
  lemma SpliceIdempotent<T>(cache: seq<T>, start: int, end: int, data: seq<T>)
    requires 0 <= start <= end && start <= |cache| && |data| == end - start
    ensures var once := Splice(cache, start, end, data);
            Splice(once, start, end, data) == once
  {
    var once := Splice(cache, start, end, data);
    SpliceShape(cache, start, end, data);
    var rest := cache[Min(|cache|, end)..];
    assert once == cache[..start] + data + rest;
    SpliceShape(once, start, end, data);
    assert once[..start] == cache[..start];
    assert once[end..] == rest;
  }

  /** The code's promise of "preserving existing data for other pages":
      every entry before the merged page is unchanged, provided the cache
      already reached that page. */
  lemma MergePreservesEarlierPages<T>(cache: seq<T>, page: int, pageSize: int, data: seq<T>)
    requires page >= 1 && pageSize >= 0
    requires |cache| >= (page - 1) * pageSize
    ensures var r := Merge(cache, page, pageSize, data);
            forall i :: 0 <= i < (page - 1) * pageSize ==> i < |r| && r[i] == cache[i]
  {
    PageBounds(page, pageSize);
    SplicePreservesPrefix(cache, (page - 1) * pageSize, page * pageSize, data);
  }

  /** The fetched records sit contiguously from `min(|cache|, (page-1)*pageSize)`,
      followed by the old entries from index `page*pageSize` on, in their
      original order; the new length is the sum of the three parts. */
  lemma MergeLayout<T>(cache: seq<T>, page: int, pageSize: int, data: seq<T>)
    requires page >= 1 && pageSize >= 0
    ensures var at := Min(|cache|, (page - 1) * pageSize);
            var r := Merge(cache, page, pageSize, data);
            |r| == at + |data| + Max(0, |cache| - page * pageSize) &&
            r[at..at + |data|] == data &&
            r[at + |data|..] == cache[Min(|cache|, page * pageSize)..]
  {
    PageBounds(page, pageSize);
    SpliceLayout(cache, (page - 1) * pageSize, page * pageSize, data);
  }

  /** When the cache covers the whole page and a full page arrives, the
      merge overwrites exactly that page's block and nothing else. */
  lemma MergeOverwritesBlock<T>(cache: seq<T>, page: int, pageSize: int, data: seq<T>)
    requires page >= 1 && pageSize >= 0
    requires |cache| >= page * pageSize && |data| == pageSize
    ensures var r := Merge(cache, page, pageSize, data);
            |r| == |cache| &&
            forall i :: 0 <= i < |cache| ==>
              r[i] == if (page - 1) * pageSize <= i < page * pageSize then data[i - (page - 1) * pageSize] else cache[i]
  {
    PageBounds(page, pageSize);
    SpliceOverwritesBlock(cache, (page - 1) * pageSize, page * pageSize, data);
  }

  /** When the cache does not reach the page's first index, slice clamps and
      the fetched records are appended at the cache's current end, not at the
      page's own position. */
  lemma MergeAtEnd<T>(cache: seq<T>, page: int, pageSize: int, data: seq<T>)
    requires page >= 1 && pageSize >= 0
    requires |cache| <= (page - 1) * pageSize
    ensures Merge(cache, page, pageSize, data) == cache + data
  {
    PageBounds(page, pageSize);
    SpliceAtEnd(cache, (page - 1) * pageSize, page * pageSize, data);
  }

  /** Merging the same full page twice gives the same cache as merging it
      once, provided the cache reached the page's first index. */
  lemma MergeIdempotent<T>(cache: seq<T>, page: int, pageSize: int, data: seq<T>)
    requires page >= 1 && pageSize >= 0
    requires |cache| >= (page - 1) * pageSize && |data| == pageSize
    ensures var once := Merge(cache, page, pageSize, data);
            Merge(once, page, pageSize, data) == once
  {
    PageBounds(page, pageSize);
    SpliceIdempotent(cache, (page - 1) * pageSize, page * pageSize, data);
  }

  /** Re-fetching a page whose records have not changed on the server (the
      page's window of the cache, cut short on the last page) leaves the cache
      as it was. */
  lemma MergeUnchangedPage<T>(cache: seq<T>, page: int, pageSize: int)
    requires page >= 1 && pageSize >= 0
    requires (page - 1) * pageSize <= |cache|
    ensures var data := cache[(page - 1) * pageSize..Min(|cache|, page * pageSize)];
            Merge(cache, page, pageSize, data) == cache
  {
    var a, next := (page - 1) * pageSize, page * pageSize;
    assert next == a + pageSize;
    var b := Min(|cache|, next);
    var data := cache[a..b];
    MergeShape(cache, page, pageSize, data);
    var r := Merge(cache, page, pageSize, data);
    assert r[..a] == cache[..a] && r[a..b] == data && r[b..] == cache[b..];
    calc {
      r;
      r[..a] + r[a..b] + r[b..];
      cache[..a] + cache[a..b] + cache[b..];
      cache;
    }
  }

  /** Without the cache reaching the page, a repeated merge is not idempotent:
      the second merge places the page at its own index after the first one
      appended it at the end. */
  lemma MergeRepeatedAcrossGap()
    ensures Merge(Merge([], 2, 1, [7]), 2, 1, [7]) == [7, 7]
  {
    MergeAtEnd([], 2, 1, [7]);
    assert Merge([], 2, 1, [7]) == [7];
    MergeShape([7], 2, 1, [7]);
  }

  /** Page 0 (reached when a custom selection is applied to an empty cache):
      `slice(0, -pageSize)` drops the last page's worth of entries and
      `slice(0)` keeps the whole cache, so the records go between the two. */
  lemma MergePageZero<T>(cache: seq<T>, pageSize: int, data: seq<T>)
    requires pageSize >= 1
    ensures Merge(cache, 0, pageSize, data) == cache[..Max(0, |cache| - pageSize)] + data + cache
  {
    JsArray.SliceFromNonNegative(cache, 0);
  }

  /** The page the collection API serves for `page` (1-based) of `pageSize`
      records, over a collection `records`: its window, cut short on the last
      page, and nothing for a page before the first or past the end. */
  function ServerPage<T>(records: seq<T>, page: int, pageSize: int): (r: seq<T>)
    requires pageSize >= 1
    ensures |r| <= pageSize
  {
    if page < 1 || (page - 1) * pageSize > |records| then []
    else records[(page - 1) * pageSize..Min(|records|, page * pageSize)]
  }

  /** The cache after the table has fetched pages 1 to `n`, in that order,
      starting from an empty cache. */
  function FetchedInOrder<T>(records: seq<T>, pageSize: int, n: nat): seq<T>
    requires pageSize >= 1
  {
    if n == 0 then []
    else Merge(FetchedInOrder(records, pageSize, n - 1), n, pageSize, ServerPage(records, n, pageSize))
  }

  /** Visiting pages in order makes the cache a dense mirror of the
      collection: after page `n`, it holds exactly the first `n` pages. */
  lemma {:induction false} FetchedInOrderMirrors<T>(records: seq<T>, pageSize: int, n: nat)
    requires pageSize >= 1
    ensures FetchedInOrder(records, pageSize, n) == records[..Min(|records|, n * pageSize)]
  {
    if n > 0 {
      FetchedInOrderMirrors(records, pageSize, n - 1);
      PageBounds(n, pageSize);
      var a, b := (n - 1) * pageSize, n * pageSize;
      SpliceExtendsPrefix(records, a, b, FetchedInOrder(records, pageSize, n - 1), ServerPage(records, n, pageSize));
    }
  }

  /** Splicing the collection's next window onto a cached prefix of it gives
      the longer prefix. */
  lemma SpliceExtendsPrefix<T>(records: seq<T>, start: int, end: int, prefix: seq<T>, data: seq<T>)
    requires 0 <= start <= end
    requires prefix == records[..Min(|records|, start)]
    requires data == if start > |records| then [] else records[start..Min(|records|, end)]
    ensures Splice(prefix, start, end, data) == records[..Min(|records|, end)]
  {
    SpliceAtEnd(prefix, start, end, data);
    if start < |records| {
      assert prefix + data == records[..Min(|records|, end)];
    }
  }

  /** Splices of two disjoint blocks inside the cache, each with data of its
      block's length, commute. */
  lemma SpliceDisjointBlocksCommute<T>(cache: seq<T>, a1: int, b1: int, d1: seq<T>, a2: int, b2: int, d2: seq<T>)
    requires 0 <= a1 <= b1 <= |cache| && |d1| == b1 - a1
    requires 0 <= a2 <= b2 <= |cache| && |d2| == b2 - a2
    requires b1 <= a2 || b2 <= a1
    ensures Splice(Splice(cache, a1, b1, d1), a2, b2, d2) == Splice(Splice(cache, a2, b2, d2), a1, b1, d1)
  {
    var after1, after2 := Splice(cache, a1, b1, d1), Splice(cache, a2, b2, d2);
    SpliceOverwritesBlock(cache, a1, b1, d1);
    SpliceOverwritesBlock(cache, a2, b2, d2);
    SpliceOverwritesBlock(after1, a2, b2, d2);
    SpliceOverwritesBlock(after2, a1, b1, d1);
    var r12, r21 := Splice(after1, a2, b2, d2), Splice(after2, a1, b1, d1);
    assert |r12| == |r21| == |cache|;
    forall i | 0 <= i < |cache| ensures r12[i] == r21[i] { }
  }

  /** Fetches of two different pages, both already cached in full, touch
      disjoint blocks, so their order does not matter. */
  lemma MergeDistinctPagesCommute<T>(cache: seq<T>, p: int, q: int, pageSize: int, dp: seq<T>, dq: seq<T>)
    requires p >= 1 && q >= 1 && p != q && pageSize >= 0
    requires |cache| >= p * pageSize && |cache| >= q * pageSize
    requires |dp| == pageSize && |dq| == pageSize
    ensures Merge(Merge(cache, p, pageSize, dp), q, pageSize, dq)
         == Merge(Merge(cache, q, pageSize, dq), p, pageSize, dp)
  {
    PageBounds(p, pageSize);
    PageBounds(q, pageSize);
    if p < q {
      MulMonotone(p, q - 1, pageSize);
    } else {
      MulMonotone(q, p - 1, pageSize);
    }
    SpliceDisjointBlocksCommute(cache, (p - 1) * pageSize, p * pageSize, dp, (q - 1) * pageSize, q * pageSize, dq);
  }
}
