/** `paginate` from features/blog/utils.ts: a window of `pageSize` items out of
    an ordered list, or `null` when the requested page does not exist. */
module Pagination {
  import opened Prelude

  datatype Page<T> = Page(items: seq<T>, totalPages: int)

  /** `Math.ceil(n / d)` for a list length `n` and a non-zero page size `d`. */
  function CeilDiv(n: nat, d: int): (r: int)
    requires d != 0
    ensures d > 0 ==> r >= 0 && (r - 1) * d < n <= r * d
    ensures d < 0 ==> r <= 0
  {
    if d > 0 then (n + d - 1) / d else -(n / -d)
  }

  /** Clamp a relative index of `Array.prototype.slice` into `[0, len]`;
      a negative index counts from the end. */
  function SliceIndex(k: int, len: nat): (r: nat)
    ensures r <= len
    ensures 0 <= k <= len ==> r == k
  {
    if k < 0 then (if len + k < 0 then 0 else len + k)
    else if k > len then len else k
  }

  /** `items.slice(start, end)` */
  function Slice<T>(items: seq<T>, start: int, end: int): (r: seq<T>)
    ensures 0 <= start <= end <= |items| ==> r == items[start..end]
  {
    var from := SliceIndex(start, |items|);
    var to := SliceIndex(end, |items|);
    if from < to then items[from..to] else []
  }

  /** Pages are numbered from 1. The page size may be negative (the page
      count is then not positive); zero is outside the model, because
      `Math.ceil(n / 0)` is a floating-point infinity. */
  function Paginate<T>(items: seq<T>, page: int, pageSize: int): (r: Option<Page<T>>)
    requires pageSize != 0
    // A page beyond the last one does not exist.
    ensures r.None? <==> page > CeilDiv(|items|, pageSize)
    // When everything fits on one page, the list is returned as it is, whatever the page.
    ensures r.Some? && r.value.totalPages == 1 ==> r.value.items == items
    ensures r.Some? ==> r.value.totalPages == CeilDiv(|items|, pageSize)
  {
    var totalPages := CeilDiv(|items|, pageSize);
    if page > totalPages then None
    else if totalPages == 1 then Some(Page(items, totalPages))
    else Some(Page(Slice(items, (page - 1) * pageSize, page * pageSize), totalPages))
  }

  /** Otherwise the page is the window [(page-1)*pageSize, page*pageSize)
      clipped to the list; an existing page of a positive page size holds
      between 1 and pageSize items. */
  lemma PageContents<T>(items: seq<T>, page: int, pageSize: int)
    requires pageSize > 0 && page >= 1 && Paginate(items, page, pageSize).Some?
    ensures var r := Paginate(items, page, pageSize).value;
            && 1 <= |r.items| <= pageSize
            && (r.totalPages != 1 ==>
                  var lo := (page - 1) * pageSize;
                  var hi := if page * pageSize < |items| then page * pageSize else |items|;
                  0 <= lo <= hi && r.items == items[lo..hi])
  {
    var n, total := |items|, CeilDiv(|items|, pageSize);
    WindowStart(n, page, pageSize);
    var lo, end := (page - 1) * pageSize, page * pageSize;
    if total != 1 {
      var hi := if end < n then end else n;
      assert Paginate(items, page, pageSize).value.items == Slice(items, lo, end);
      SliceWindow(items, lo, end, hi);
    }
  }

  /** A window starting inside the list is cut at the list's end. */
  lemma SliceWindow<T>(items: seq<T>, lo: int, end: int, hi: int)
    requires 0 <= lo < |items| && lo <= end && hi == (if end < |items| then end else |items|)
    ensures Slice(items, lo, end) == items[lo..hi]
  {
  }

  /** An existing page starts inside the list and spans `pageSize` positions. */
  lemma WindowStart(n: nat, page: int, pageSize: int)
    requires pageSize > 0 && 1 <= page <= CeilDiv(n, pageSize)
    ensures 0 <= (page - 1) * pageSize < n
    ensures page * pageSize == (page - 1) * pageSize + pageSize
  {
    MulMonotonic(page - 1, CeilDiv(n, pageSize) - 1, pageSize);
    MulMonotonic(0, page - 1, pageSize);
  }

  /** The items of pages `first`..`last`, concatenated in page order. */
  function PagesFrom<T>(items: seq<T>, pageSize: int, first: int, last: int): seq<T>
    requires pageSize > 0 && 1 <= first && last == CeilDiv(|items|, pageSize)
    decreases last - first
  {
    if first > last then []
    else Paginate(items, first, pageSize).value.items + PagesFrom(items, pageSize, first + 1, last)
  }

  /** Page `first` of a list spanning several pages is its window starting at
      `(first - 1) * pageSize`; the last page runs to the end of the list. */
  lemma PageWindow<T>(items: seq<T>, pageSize: int, first: int) returns (lo: nat, hi: nat)
    requires pageSize > 0 && 1 <= first <= CeilDiv(|items|, pageSize)
    requires CeilDiv(|items|, pageSize) >= 2
    ensures lo == (first - 1) * pageSize && lo < hi <= |items|
    ensures hi == |items| <==> first == CeilDiv(|items|, pageSize)
    ensures hi < |items| ==> hi == first * pageSize
    ensures Paginate(items, first, pageSize) == Some(Page(items[lo..hi], CeilDiv(|items|, pageSize)))
  {
    var last := CeilDiv(|items|, pageSize);
    lo := (first - 1) * pageSize;
    MulMonotonic(first - 1, last - 1, pageSize);
    hi := if first * pageSize < |items| then first * pageSize else |items|;
    if first < last {
      MulMonotonic(first, last - 1, pageSize);
    }
  }

  /** Walking through pages `first`..last yields the rest of the list from page `first` on. */
  lemma {:induction false} PagesFromSuffix<T>(items: seq<T>, pageSize: int, first: int)
    requires pageSize > 0 && 1 <= first <= CeilDiv(|items|, pageSize)
    requires CeilDiv(|items|, pageSize) >= 2
    ensures (first - 1) * pageSize < |items|
    ensures PagesFrom(items, pageSize, first, CeilDiv(|items|, pageSize)) == items[(first - 1) * pageSize..]
    decreases CeilDiv(|items|, pageSize) - first
  {
    var last := CeilDiv(|items|, pageSize);
    var lo, hi := PageWindow(items, pageSize, first);
    if first == last {
      assert PagesFrom(items, pageSize, first + 1, last) == [];
    } else {
      PagesFromSuffix(items, pageSize, first + 1);
      assert hi == first * pageSize;
      assert items[lo..] == items[lo..hi] + items[hi..];
    }
  }

  /** Concatenating pages 1..totalPages reproduces the input list, in order. */
  lemma PagesReassemble<T>(items: seq<T>, pageSize: int)
    requires pageSize > 0
    ensures PagesFrom(items, pageSize, 1, CeilDiv(|items|, pageSize)) == items
  {
    var last := CeilDiv(|items|, pageSize);
    if last == 0 {
      assert items == [];
    } else if last == 1 {
      assert PagesFrom(items, pageSize, 2, last) == [];
    } else {
      PagesFromSuffix(items, pageSize, 1);
    }
  }

  /** The cases the unit tests of features/blog/utils.test.ts pin down. */
  lemma UnitTestCases()
    ensures Paginate<int>([], 1, 5) == None
    ensures Paginate([1, 2, 3, 4, 5], 1, 3) == Some(Page([1, 2, 3], 2))
    ensures Paginate([1, 2, 3, 4, 5], 2, 3) == Some(Page([4, 5], 2))
    ensures Paginate<int>([], 1, -1) == None
    ensures Paginate([1, 3], 2, 3) == None
  {
    assert [1, 2, 3, 4, 5][0..3] == [1, 2, 3];
    assert [1, 2, 3, 4, 5][3..5] == [4, 5];
  }

  /** A negative page size never yields a page numbered 1 or more. */
  lemma NegativePageSize<T>(items: seq<T>, page: int, pageSize: int)
    requires pageSize < 0 && page >= 1
    ensures Paginate(items, page, pageSize) == None
  {
  }
}
