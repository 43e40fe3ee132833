/** `reorder_pdf_pages` (papermerge/core/views/utils.py): a new PDF is
    built by appending the old pages in the order the caller's
    renumbering asks for. */
module PdfReorder {
  import opened Common
  import opened Documents
  import PdfEdit

  /** One entry of `pages_data`: the page now numbered `oldNumber` is to
      become page `newNumber`. */
  type Move = PagePair

  predicate SortedByNew(data: seq<Move>)
  {
    forall i, j :: 0 <= i < j < |data| ==> data[i].newNumber <= data[j].newNumber
  }

  /** Places `m` into a list sorted by new number, after every entry with
      an equal key. */
  function InsertSorted(m: Move, sorted: seq<Move>): seq<Move>
    decreases |sorted|
  {
    if sorted == [] || m.newNumber < sorted[0].newNumber then [m] + sorted
    else [sorted[0]] + InsertSorted(m, sorted[1..])
  }

  /** `sorted(pages_data, key=lambda item: item['new_number'])`: a stable
      insertion sort on the new number. */
  function SortByNew(data: seq<Move>): (r: seq<Move>)
    ensures |r| == |data|
    decreases |data|
  {
    if data == [] then []
    else
      var rest := SortByNew(data[..|data| - 1]);
      InsertSortedLength(data[|data| - 1], rest);
      InsertSorted(data[|data| - 1], rest)
  }

  lemma {:induction false} InsertSortedLength(m: Move, sorted: seq<Move>)
    ensures |InsertSorted(m, sorted)| == |sorted| + 1
    decreases |sorted|
  {
    if !(sorted == [] || m.newNumber < sorted[0].newNumber) {
      InsertSortedLength(m, sorted[1..]);
    }
  }

  lemma {:induction false} InsertSortedMultiset(m: Move, sorted: seq<Move>)
    ensures multiset(InsertSorted(m, sorted)) == multiset(sorted) + multiset{m}
    decreases |sorted|
  {
    if !(sorted == [] || m.newNumber < sorted[0].newNumber) {
      InsertSortedMultiset(m, sorted[1..]);
      assert sorted == [sorted[0]] + sorted[1..];
    }
  }

  lemma {:induction false} InsertSortedNews(m: Move, sorted: seq<Move>)
    ensures multiset(News(InsertSorted(m, sorted))) == multiset(News(sorted)) + multiset{m.newNumber}
    decreases |sorted|
  {
    var r := InsertSorted(m, sorted);
    if sorted == [] || m.newNumber < sorted[0].newNumber {
      assert News(r) == [m.newNumber] + News(sorted);
    } else {
      var tail := sorted[1..];
      InsertSortedNews(m, tail);
      assert News(sorted) == [sorted[0].newNumber] + News(tail);
      assert News(r) == [sorted[0].newNumber] + News(InsertSorted(m, tail));
    }
  }

  lemma {:induction false} InsertSortedSorted(m: Move, sorted: seq<Move>)
    requires SortedByNew(sorted)
    ensures SortedByNew(InsertSorted(m, sorted))
    decreases |sorted|
  {
    if !(sorted == [] || m.newNumber < sorted[0].newNumber) {
      var tail := sorted[1..];
      InsertSortedSorted(m, tail);
      InsertSortedMultiset(m, tail);
      var rest := InsertSorted(m, tail);
      forall j | 0 <= j < |rest| ensures sorted[0].newNumber <= rest[j].newNumber {
        assert rest[j] in multiset(rest);
        if rest[j] != m {
          assert rest[j] in multiset(tail);
        }
      }
    }
  }

  /** The sort yields the same entries (and so the same new numbers),
      ordered by new number. */
  lemma {:induction false} SortByNewSpec(data: seq<Move>)
    ensures SortedByNew(SortByNew(data))
    ensures multiset(SortByNew(data)) == multiset(data)
    ensures multiset(News(SortByNew(data))) == multiset(News(data))
    decreases |data|
  {
    if data != [] {
      var init, last := data[..|data| - 1], data[|data| - 1];
      SortByNewSpec(init);
      InsertSortedSorted(last, SortByNew(init));
      InsertSortedMultiset(last, SortByNew(init));
      InsertSortedNews(last, SortByNew(init));
      assert data == init + [last];
      assert News(data) == News(init) + [last.newNumber];
    }
  }

  /** The old numbers in the order the sorted renumbering visits them. */
  function SortedOlds(data: seq<Move>, n: int): (r: seq<int>)
    requires AllIn(Olds(data), n)
    ensures AllIn(r, n) && |r| == |data|
  {
    SortByNewSpec(data);
    SortedOldsAllIn(data, n);
    assert |SortByNew(data)| == |multiset(SortByNew(data))| == |multiset(data)| == |data|;
    Olds(SortByNew(data))
  }

  /** The reordered PDF: the old page of each entry, taken in ascending
      order of new number. */
  function Reordered(src: seq<Page>, data: seq<Move>): (r: seq<Page>)
    requires AllIn(Olds(data), |src|)
    ensures |r| == |data|
  {
    Select(src, SortedOlds(data, |src|))
  }

  /** The last entry of a sorted list holding exactly 1 .. n is n. */
  lemma SortedPermutationLast(s: seq<int>, n: nat)
    requires n > 0
    requires forall i, j :: 0 <= i < j < |s| ==> s[i] <= s[j]
    requires multiset(s) == multiset(Range(1, n))
    ensures |s| == n && s[n - 1] == n
  {
    assert |s| == |multiset(s)| == n;
    assert Range(1, n)[n - 1] == n;
    assert n in multiset(s);
    var i :| 0 <= i < |s| && s[i] == n;
    assert s[n - 1] >= n;
    assert s[n - 1] in multiset(Range(1, n));
  }

  lemma MultisetCancel(a: multiset<int>, b: multiset<int>, n: int)
    requires a + multiset{n} == b + multiset{n}
    ensures a == b
  {
    forall x ensures a[x] == b[x] {
      assert (a + multiset{n})[x] == (b + multiset{n})[x];
    }
  }

  /** A sorted list holding exactly the numbers 1 .. n is 1 .. n. */
  lemma {:induction false} SortedPermutationIsRange(s: seq<int>, n: nat)
    requires forall i, j :: 0 <= i < j < |s| ==> s[i] <= s[j]
    requires multiset(s) == multiset(Range(1, n))
    ensures s == Range(1, n)
  {
    if n == 0 {
      assert |s| == |multiset(s)| == 0;
    } else {
      SortedPermutationLast(s, n);
      var init, front := Range(1, n - 1), s[..n - 1];
      assert Range(1, n) == init + [n];
      assert s == front + [n];
      assert multiset(s) == multiset(front) + multiset{n};
      assert multiset(Range(1, n)) == multiset(init) + multiset{n};
      MultisetCancel(multiset(front), multiset(init), n);
      SortedPermutationIsRange(front, n - 1);
    }
  }

  /** `pages_data` renumbers every page of an n-page PDF: its new numbers
      are exactly 1 .. n and its old numbers are pages of the PDF. */
  predicate IsRenumbering(data: seq<Move>, n: nat)
  {
    |data| == n && multiset(News(data)) == multiset(Range(1, n)) && AllIn(Olds(data), n)
  }

  /** Sorting a renumbering lists its entries with new numbers 1 .. n. */
  lemma SortedNewsIsRange(data: seq<Move>, n: nat)
    requires IsRenumbering(data, n)
    ensures multiset(SortByNew(data)) == multiset(data)
    ensures News(SortByNew(data)) == Range(1, n)
  {
    SortByNewSpec(data);
    SortedPermutationIsRange(News(SortByNew(data)), n);
  }

  /** With a renumbering, page `newNumber` of the result is the old page
      `oldNumber` of entry k. */
  lemma ReorderedPlace(src: seq<Page>, data: seq<Move>, k: int)
    requires IsRenumbering(data, |src|) && 0 <= k < |data|
    ensures 1 <= data[k].newNumber <= |src|
    ensures Reordered(src, data)[data[k].newNumber - 1] == src[data[k].oldNumber - 1]
  {
    var i := FindInSorted(data, k);
    SortedNewsIsRange(data, |src|);
    assert News(SortByNew(data))[i] == i + 1;
    assert SortedOlds(data, |src|)[i] == data[k].oldNumber;
  }

  /** Where entry k lands in the sorted list. */
  lemma FindInSorted(data: seq<Move>, k: int) returns (i: int)
    requires 0 <= k < |data|
    ensures 0 <= i < |SortByNew(data)| && SortByNew(data)[i] == data[k]
  {
    SortByNewSpec(data);
    assert data[k] in multiset(data);
    i :| 0 <= i < |SortByNew(data)| && SortByNew(data)[i] == data[k];
  }

  /** With a renumbering, page `newNumber` of the result is the old page
      `oldNumber` of the same entry, for every entry. */
  lemma ReorderedPlaces(src: seq<Page>, data: seq<Move>)
    requires IsRenumbering(data, |src|)
    ensures forall k :: 0 <= k < |data| ==>
      1 <= data[k].newNumber <= |src| && Reordered(src, data)[data[k].newNumber - 1] == src[data[k].oldNumber - 1]
  {
    forall k | 0 <= k < |data|
      ensures 1 <= data[k].newNumber <= |src|
      ensures Reordered(src, data)[data[k].newNumber - 1] == src[data[k].oldNumber - 1]
    {
      ReorderedPlace(src, data, k);
    }
  }

  /** Each new number as old, each old number as new: the inverse
      renumbering. */
  function Swapped(data: seq<Move>): (r: seq<Move>)
    ensures |r| == |data|
    ensures News(r) == Olds(data) && Olds(r) == News(data)
  {
    seq(|data|, i requires 0 <= i < |data| => PagePair(data[i].oldNumber, data[i].newNumber))
  }

  /** A list holding exactly the numbers 1 .. n has n entries, each in
      1 .. n, and contains each of 1 .. n. */
  lemma RangePermutation(s: seq<int>, n: nat)
    requires multiset(s) == multiset(Range(1, n))
    ensures |s| == n && AllIn(s, n)
    ensures forall j :: 1 <= j <= n ==> j in s
  {
    assert |s| == |multiset(s)| == n;
    forall i | 0 <= i < |s| ensures 1 <= s[i] <= n {
      assert s[i] in multiset(Range(1, n));
    }
    forall j | 1 <= j <= n ensures j in s {
      assert Range(1, n)[j - 1] == j;
      assert j in multiset(Range(1, n));
    }
  }

  /** The round trip at one entry: the old page of entry i comes back to
      its place. */
  lemma RoundTripAt(src: seq<Page>, data: seq<Move>, i: int)
    requires IsRenumbering(data, |src|) && IsRenumbering(Swapped(data), |src|)
    requires 0 <= i < |data|
    ensures 1 <= data[i].oldNumber <= |src|
    ensures Reordered(Reordered(src, data), Swapped(data))[data[i].oldNumber - 1] == src[data[i].oldNumber - 1]
  {
    var once := Reordered(src, data);
    var inverse := Swapped(data);
    ReorderedPlace(src, data, i);
    ReorderedPlace(once, inverse, i);
  }

  /** Reordering by a permutation and then by its inverse gives the
      original page sequence back. */
  lemma ReorderRoundTrip(src: seq<Page>, data: seq<Move>)
    requires multiset(News(data)) == multiset(Range(1, |src|))
    requires multiset(Olds(data)) == multiset(Range(1, |src|))
    ensures AllIn(Olds(data), |src|)
    ensures AllIn(Olds(Swapped(data)), |Reordered(src, data)|)
    ensures Reordered(Reordered(src, data), Swapped(data)) == src
  {
    BothRenumberings(data, |src|);
    RoundTripPointwise(src, data);
  }

  lemma RoundTripPointwise(src: seq<Page>, data: seq<Move>)
    requires IsRenumbering(data, |src|) && IsRenumbering(Swapped(data), |src|)
    requires forall j :: 1 <= j <= |src| ==> j in Olds(data)
    ensures forall j :: 0 <= j < |src| ==> Reordered(Reordered(src, data), Swapped(data))[j] == src[j]
  {
    forall j | 0 <= j < |src| ensures Reordered(Reordered(src, data), Swapped(data))[j] == src[j] {
      assert j + 1 in Olds(data);
      var i :| 0 <= i < |data| && Olds(data)[i] == j + 1;
      RoundTripAt(src, data, i);
    }
  }

  /** A list of moves whose new numbers and whose old numbers are both
      1 .. n renumbers n pages, and so does its inverse. */
  lemma BothRenumberings(data: seq<Move>, n: nat)
    requires multiset(News(data)) == multiset(Range(1, n))
    requires multiset(Olds(data)) == multiset(Range(1, n))
    ensures IsRenumbering(data, n) && IsRenumbering(Swapped(data), n)
    ensures forall j :: 1 <= j <= n ==> j in Olds(data)
  {
    RangePermutation(News(data), n);
    RangePermutation(Olds(data), n);
  }

  /** The sort visits valid old numbers exactly when the caller gave
      valid old numbers. */
  lemma SortedOldsAllIn(data: seq<Move>, n: int)
    ensures AllIn(Olds(SortByNew(data)), n) <==> AllIn(Olds(data), n)
  {
    var sorted := SortByNew(data);
    SortByNewSpec(data);
    if AllIn(Olds(data), n) {
      forall i | 0 <= i < |sorted| ensures 1 <= sorted[i].oldNumber <= n {
        assert sorted[i] in multiset(data);
      }
    }
    if AllIn(Olds(sorted), n) {
      forall i | 0 <= i < |data| ensures 1 <= data[i].oldNumber <= n {
        assert data[i] in multiset(sorted);
      }
    }
  }

  /** Selecting one more position extends the selection by that page. */
  lemma SelectSnoc(src: seq<Page>, nums: seq<int>, i: int)
    requires 0 <= i < |nums| && AllIn(nums[..i], |src|) && 1 <= nums[i] <= |src|
    ensures AllIn(nums[..i + 1], |src|)
    ensures Select(src, nums[..i + 1]) == Select(src, nums[..i]) + [src[nums[i] - 1]]
  {
    assert nums[..i + 1] == nums[..i] + [nums[i]];
  }

  /** `reorder_pdf_pages(old_version, new_version, pages_data,
      page_count)`: `page_count` is accepted and not used. */
  method ReorderPdfPages(oldVersion: Version, newVersion: Version, pagesData: seq<Move>, pageCount: int)
    returns (r: Result<Version>)
    ensures r.Ok? <==> AllIn(Olds(pagesData), |oldVersion.file|)
    ensures r.Err? ==> r.error == IndexError
    ensures r.Ok? ==> r.value == Save(newVersion, Reordered(oldVersion.file, pagesData))
  {
    var src := oldVersion.file;
    var sorted := SortByNew(pagesData);
    SortedOldsAllIn(pagesData, |src|);
    var olds := Olds(sorted);
    var dst: seq<Page> := [];
    for i := 0 to |olds|
      invariant AllIn(olds[..i], |src|)
      invariant dst == Select(src, olds[..i])
    {
      var page := PdfEdit.PageAt(src, olds[i]);
      if page.Err? {
        return Err(page.error);
      }
      SelectSnoc(src, olds, i);
      dst := dst + [page.value];
    }
    assert olds[..|olds|] == olds;
    r := Ok(Save(newVersion, dst));
  }
}
