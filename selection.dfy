/** The index arithmetic of "select the next N rows": which slice of the
    cache becomes the selection and which page the table moves to. */
module Selection {
  import JsArray
  import opened Arith

  /** Global index of the first row of `page` (1-based). */
  function StartIndex(page: int, rows: int): (i: int)
    ensures page >= 1 && rows >= 0 ==> i >= 0
  {
    (page - 1) * rows
  }

  /** One past the last selected row: the requested count, cut at the cache's length. */
  function EndIndex(startIndex: int, count: int, cacheLen: nat): (e: int)
    ensures e <= cacheLen && e <= startIndex + count
    ensures e == cacheLen || e == startIndex + count
  {
    Min(startIndex + count, cacheLen)
  }

  /** The selection the custom count produces. Whatever the start page (a
      start page of 0 or less makes slice count from the end of the cache),
      it never holds more than the requested number of rows. */
  function Select<T>(cache: seq<T>, startPage: int, rows: int, count: int): (sel: seq<T>)
    ensures count >= 1 ==> |sel| <= count
  {
    var s := StartIndex(startPage, rows);
    JsArray.Slice(cache, s, EndIndex(s, count, |cache|))
  }

  /** `floor((endIndex - 1) / rows) + 1`: the 1-based page holding row `endIndex - 1`
      (page 0 when `endIndex` is 0). Dafny's division on a positive divisor is floor. */
  function TargetPage(endIndex: int, rows: int): (t: int)
    requires rows >= 1
    ensures (t - 1) * rows <= endIndex - 1 < t * rows
  {
    (endIndex - 1) / rows + 1
  }

  /** Only one page holds a given row, so the target page is the page that
      holds the last selected row and no other. */
  lemma TargetPageUnique(endIndex: int, rows: int, t: int)
    requires rows >= 1
    requires (t - 1) * rows <= endIndex - 1 < t * rows
    ensures t == TargetPage(endIndex, rows)
  {
    var u := TargetPage(endIndex, rows);
    if t < u {
      MulMonotone(t, u - 1, rows);
      assert false;
    } else if u < t {
      MulMonotone(u, t - 1, rows);
      assert false;
    }
  }

  /** With an empty cache the end index is 0 and the table moves to page 0. */
  lemma TargetPageOfEmptyCache(rows: int)
    requires rows >= 1
    ensures TargetPage(0, rows) == 0
  {
    TargetPageUnique(0, rows, 0);
  }

  /** From a real start page, the selection is exactly the cache rows
      `[startIndex, min(startIndex + count, |cache|))`: at most `count` rows,
      in cache order, and empty when the start is at or past the cache's end. */
  lemma SelectionIsWindow<T>(cache: seq<T>, startPage: int, rows: int, count: int)
    requires startPage >= 1 && rows >= 0 && count >= 1
    ensures var s := StartIndex(startPage, rows);
            var e := Min(s + count, |cache|);
            var sel := Select(cache, startPage, rows, count);
            |sel| <= count &&
            (s < |cache| ==> sel == cache[s..e]) &&
            (s >= |cache| ==> sel == [])
  {
    var s := StartIndex(startPage, rows);
    JsArray.SliceNonNegative(cache, s, EndIndex(s, count, |cache|));
  }

  /** A non-empty selection ends on or after its start page, so the table
      moves forward (or stays). This holds from any start page, including
      page 0 and below, where the start index is negative. */
  lemma TargetNotBeforeStart<T>(cache: seq<T>, startPage: int, rows: int, count: int)
    requires rows >= 1 && count >= 1
    requires Select(cache, startPage, rows, count) != []
    ensures TargetPage(EndIndex(StartIndex(startPage, rows), count, |cache|), rows) >= startPage
  {
    var s := StartIndex(startPage, rows);
    var e := EndIndex(s, count, |cache|);
    if s >= 0 {
      JsArray.SliceNonNegative(cache, s, e);
    }
    assert s <= e - 1;
    var t := TargetPage(e, rows);
    if t < startPage {
      MulMonotone(t, startPage - 1, rows);
      assert false;
    }
  }

  /** When the start lies at or past the end of a non-empty cache the
      selection is empty, and the table moves back to the page holding the
      last cached row, strictly before the start page. */
  lemma EmptySelectionMovesBack<T>(cache: seq<T>, startPage: int, rows: int, count: int)
    requires startPage >= 1 && rows >= 1 && count >= 1
    requires |cache| >= 1 && StartIndex(startPage, rows) >= |cache|
    ensures Select(cache, startPage, rows, count) == []
    ensures var t := TargetPage(EndIndex(StartIndex(startPage, rows), count, |cache|), rows);
            t == TargetPage(|cache|, rows) && 1 <= t < startPage
  {
    SelectionIsWindow(cache, startPage, rows, count);
    var t := TargetPage(|cache|, rows);
    if t < 1 {
      MulMonotone(t, 0, rows);
      assert false;
    }
    if t >= startPage {
      MulMonotone(startPage - 1, t - 1, rows);
      assert false;
    }
  }

  /** From start page 0 the start index is negative, so `slice` counts it
      from the end: with 24 cached rows, 12 per page and a count of 1 the
      selection is row 12 (on page 2), yet the end index is -11 and the table
      moves to page 0, which does not hold the selected row. */
  lemma StartPageZeroMissesSelectedRow<T>(cache: seq<T>)
    requires |cache| == 24
    ensures Select(cache, 0, 12, 1) == [cache[12]]
    ensures EndIndex(StartIndex(0, 12), 1, |cache|) == -11
    ensures TargetPage(EndIndex(StartIndex(0, 12), 1, |cache|), 12) == 0
  {
  }
}
