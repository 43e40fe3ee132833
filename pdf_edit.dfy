/** Removing and inserting PDF pages (`remove_pdf_pages` and
    `insert_pdf_pages` in papermerge/core/views/utils.py), over a model of
    the PDF library's page list. A PDF is its page list; opening a
    version's file reads `file`, saving assigns it to the target version. */
module PdfEdit {
  import opened Common
  import opened Documents
  import RecycleMap

  // ---------------------------------------------------------------------
  // The page list operations of the PDF library

  /** `pdf.pages.p(n)`: the page with 1-based number n. */
  function PageAt(pdf: seq<Page>, n: int): (r: Result<Page>)
    ensures r.Ok? <==> 1 <= n <= |pdf|
    ensures r.Ok? ==> r.value == pdf[n - 1]
    ensures r.Err? ==> r.error == IndexError
  {
    if 1 <= n <= |pdf| then Ok(pdf[n - 1]) else Err(IndexError)
  }

  /** `pdf.pages.remove(p=n)`: drops the page with 1-based number n. */
  function RemovePage(pdf: seq<Page>, n: int): (r: Result<seq<Page>>)
    ensures r.Ok? <==> 1 <= n <= |pdf|
    ensures r.Ok? ==> |r.value| == |pdf| - 1
    ensures r.Ok? ==> forall i :: 0 <= i < |r.value| ==> r.value[i] == if i < n - 1 then pdf[i] else pdf[i + 1]
    ensures r.Err? ==> r.error == IndexError
  {
    if 1 <= n <= |pdf| then Ok(pdf[..n - 1] + pdf[n..]) else Err(IndexError)
  }

  /** `pdf.pages.insert(i, page)`: the page goes before 0-based index i
      (i == |pdf| appends). */
  function InsertPage(pdf: seq<Page>, i: int, page: Page): (r: Result<seq<Page>>)
    ensures r.Ok? <==> 0 <= i <= |pdf|
    ensures r.Ok? ==> r.value == pdf[..i] + [page] + pdf[i..]
    ensures r.Err? ==> r.error == IndexError
  {
    if 0 <= i <= |pdf| then Ok(pdf[..i] + [page] + pdf[i..]) else Err(IndexError)
  }

  function Lift(r: Result<seq<Page>>, target: Version): Result<Version>
  {
    match r
    case Ok(pdf) => Ok(Save(target, pdf))
    case Err(e) => Err(e)
  }

  // ---------------------------------------------------------------------
  // remove_pdf_pages

  /** The removal loop: each listed number, shifted down by the number of
      pages already removed, is removed in turn. */
  function RemoveInOrder(pdf: seq<Page>, nums: seq<int>): (r: Result<seq<Page>>)
    ensures r.Ok? ==> |r.value| == |pdf| - |nums|
    ensures r.Err? ==> r.error == IndexError
    decreases |nums|
  {
    if nums == [] then Ok(pdf)
    else
      match RemoveInOrder(pdf, nums[..|nums| - 1])
      case Err(e) => Err(e)
      case Ok(rest) => RemovePage(rest, nums[|nums| - 1] - (|nums| - 1))
  }

  lemma {:induction false} RemoveStopsAtError(pdf: seq<Page>, nums: seq<int>, i: nat)
    requires i <= |nums|
    requires RemoveInOrder(pdf, nums[..i]).Err?
    ensures RemoveInOrder(pdf, nums) == RemoveInOrder(pdf, nums[..i])
    decreases |nums| - i
  {
    if i < |nums| {
      assert nums[..i + 1][..i] == nums[..i];
      RemoveStopsAtError(pdf, nums, i + 1);
    } else {
      assert nums[..i] == nums;
    }
  }

  /** For strictly ascending page numbers inside the document, the
      removal loop deletes exactly those pages and keeps the others in
      order: the result is the old pages at the survivor numbers of the
      position map. */
  lemma {:induction false} RemoveAscending(pdf: seq<Page>, nums: seq<int>)
    requires StrictlyAscending(nums) && AllIn(nums, |pdf|)
    ensures AllIn(RecycleMap.Survivors(|pdf|, nums), |pdf|)
    ensures RemoveInOrder(pdf, nums) == Ok(Select(pdf, RecycleMap.Survivors(|pdf|, nums)))
    decreases |nums|
  {
    var n := |pdf|;
    var survivors := RecycleMap.Survivors(n, nums);
    forall i | 0 <= i < |survivors| ensures 1 <= survivors[i] <= n {
      RecycleMap.SurvivorsMembers(1, n, nums, survivors[i]);
    }
    if nums == [] {
      RecycleMap.SurvivorsNone(1, n, nums);
      SelectAll(pdf);
    } else {
      var k := |nums|;
      var prefix, x := nums[..k - 1], nums[k - 1];
      RemoveAscending(pdf, prefix);
      var a, b := RecycleMap.SurvivorsDeleteNext(n, prefix, x);
      assert nums == prefix + [x];
      RemoveMiddle(pdf, a, x, b);
    }
  }

  /** Removing the page at the position of x from the selection a + [x] + b
      leaves the selection a + b. */
  lemma RemoveMiddle(pdf: seq<Page>, a: seq<int>, x: int, b: seq<int>)
    requires AllIn(a + [x] + b, |pdf|)
    ensures AllIn(a + b, |pdf|)
    ensures RemovePage(Select(pdf, a + [x] + b), |a| + 1) == Ok(Select(pdf, a + b))
  {
    assert AllIn(a + b, |pdf|) by {
      forall i | 0 <= i < |a + b| ensures 1 <= (a + b)[i] <= |pdf| {
        if i >= |a| {
          assert (a + b)[i] == (a + [x] + b)[i + 1];
        } else {
          assert (a + b)[i] == (a + [x] + b)[i];
        }
      }
    }
    var before := Select(pdf, a + [x] + b);
    var after := Select(pdf, a + b);
    var removed := RemovePage(before, |a| + 1);
    assert removed.Ok? && |removed.value| == |after|;
    forall i | 0 <= i < |after| ensures removed.value[i] == after[i] {
      if i >= |a| {
        assert (a + b)[i] == (a + [x] + b)[i + 1];
        assert removed.value[i] == before[i + 1];
      } else {
        assert (a + b)[i] == (a + [x] + b)[i];
        assert removed.value[i] == before[i];
      }
    }
    assert removed.value == after;
  }

  /** Removal is only right for ascending input: `[3, 2]` on a four-page
      PDF removes the third page and then the FIRST (2 - 1), not the
      second. */
  lemma RemoveDescendingDrift(p1: Page, p2: Page, p3: Page, p4: Page)
    ensures RemoveInOrder([p1, p2, p3, p4], [3, 2]) == Ok([p2, p4])
  {
    var pdf := [p1, p2, p3, p4];
    assert [3, 2][..1] == [3];
    assert [3][..0] == [];
    assert RemoveInOrder(pdf, []) == Ok(pdf);
    assert pdf[..2] + pdf[3..] == [p1, p2, p4];
    assert RemoveInOrder(pdf, [3]) == Ok([p1, p2, p4]);
    assert [p1, p2, p4][..0] + [p1, p2, p4][1..] == [p2, p4];
  }

  /** `remove_pdf_pages(old_version, new_version, page_numbers)`. */
  method RemovePdfPages(oldVersion: Version, newVersion: Version, pageNumbers: seq<int>)
    returns (r: Result<Version>)
    ensures r == Lift(RemoveInOrder(oldVersion.file, pageNumbers), newVersion)
    ensures r.Err? ==> r.error == IndexError
  {
    var pdf := oldVersion.file;
    var deletedCount := 0;
    for i := 0 to |pageNumbers|
      invariant deletedCount == i
      invariant RemoveInOrder(oldVersion.file, pageNumbers[..i]) == Ok(pdf)
    {
      assert pageNumbers[..i + 1][..i] == pageNumbers[..i];
      var removed := RemovePage(pdf, pageNumbers[i] - deletedCount);
      if removed.Err? {
        RemoveStopsAtError(oldVersion.file, pageNumbers, i + 1);
        return Err(removed.error);
      }
      pdf := removed.value;
      deletedCount := deletedCount + 1;
    }
    assert pageNumbers[..|pageNumbers|] == pageNumbers;
    r := Ok(Save(newVersion, pdf));
  }

  // ---------------------------------------------------------------------
  // insert_pdf_pages

  /** The insertion loop: each selected source page is fetched and placed
      at the insertion point shifted by the pages already inserted. */
  function InsertInOrder(src: seq<Page>, dst: seq<Page>, nums: seq<int>, pos: int): (r: Result<seq<Page>>)
    ensures r.Ok? ==> |r.value| == |dst| + |nums|
    ensures r.Err? ==> r.error == IndexError
    decreases |nums|
  {
    if nums == [] then Ok(dst)
    else
      match InsertInOrder(src, dst, nums[..|nums| - 1], pos)
      case Err(e) => Err(e)
      case Ok(cur) =>
        match PageAt(src, nums[|nums| - 1])
        case Err(e) => Err(e)
        case Ok(page) => InsertPage(cur, pos + |nums| - 1, page)
  }

  lemma {:induction false} InsertStopsAtError(src: seq<Page>, dst: seq<Page>, nums: seq<int>, pos: int, i: nat)
    requires i <= |nums|
    requires InsertInOrder(src, dst, nums[..i], pos).Err?
    ensures InsertInOrder(src, dst, nums, pos) == InsertInOrder(src, dst, nums[..i], pos)
    decreases |nums| - i
  {
    if i < |nums| {
      assert nums[..i + 1][..i] == nums[..i];
      InsertStopsAtError(src, dst, nums, pos, i + 1);
    } else {
      assert nums[..i] == nums;
    }
  }

  /** One more page inserted right after a block placed at `pos` extends
      the block. */
  lemma InsertBlockStep(dst: seq<Page>, block: seq<Page>, pos: int, page: Page)
    requires 0 <= pos <= |dst|
    ensures InsertPage(dst[..pos] + block + dst[pos..], pos + |block|, page)
      == Ok(dst[..pos] + (block + [page]) + dst[pos..])
  {
    var cur := dst[..pos] + block + dst[pos..];
    assert cur[..pos + |block|] == dst[..pos] + block;
    assert cur[pos + |block|..] == dst[pos..];
    assert dst[..pos] + block + [page] + dst[pos..] == dst[..pos] + (block + [page]) + dst[pos..];
  }

  /** The insertion loop succeeds exactly when there is nothing to insert
      or the insertion point lies in 0 .. |dst| and every selected number
      is a source page; the PDF then grows by one page per number. */
  lemma {:induction false} InsertDefined(src: seq<Page>, dst: seq<Page>, nums: seq<int>, pos: int)
    ensures InsertInOrder(src, dst, nums, pos).Ok? <==>
      (nums == [] || 0 <= pos <= |dst|) && AllIn(nums, |src|)
    ensures InsertInOrder(src, dst, nums, pos).Ok? ==>
      |InsertInOrder(src, dst, nums, pos).value| == |dst| + |nums|
    decreases |nums|
  {
    if nums != [] {
      var prefix := nums[..|nums| - 1];
      assert nums == prefix + [nums[|nums| - 1]];
      InsertDefined(src, dst, prefix, pos);
    }
  }

  /** When it succeeds at an insertion point inside the PDF, the selected
      pages appear, in the given order, as one block at that point. */
  lemma {:induction false} InsertValue(src: seq<Page>, dst: seq<Page>, nums: seq<int>, pos: int)
    requires 0 <= pos <= |dst| && AllIn(nums, |src|)
    ensures InsertInOrder(src, dst, nums, pos) == Ok(dst[..pos] + Select(src, nums) + dst[pos..])
    decreases |nums|
  {
    if nums != [] {
      var prefix, x := nums[..|nums| - 1], nums[|nums| - 1];
      assert AllIn(prefix, |src|);
      InsertValue(src, dst, prefix, pos);
      assert Select(src, nums) == Select(src, prefix) + [src[x - 1]];
      InsertBlockStep(dst, Select(src, prefix), pos, src[x - 1]);
    } else {
      assert dst[..pos] + [] + dst[pos..] == dst;
    }
  }

  /** The two facts together. */
  lemma InsertBlock(src: seq<Page>, dst: seq<Page>, nums: seq<int>, pos: int)
    ensures InsertInOrder(src, dst, nums, pos).Ok? <==>
      (nums == [] || 0 <= pos <= |dst|) && AllIn(nums, |src|)
    ensures InsertInOrder(src, dst, nums, pos).Ok? && 0 <= pos <= |dst| ==>
      InsertInOrder(src, dst, nums, pos).value == dst[..pos] + Select(src, nums) + dst[pos..]
  {
    InsertDefined(src, dst, nums, pos);
    if 0 <= pos <= |dst| && AllIn(nums, |src|) {
      InsertValue(src, dst, nums, pos);
    }
  }

  /** `insert_pdf_pages(src_old_version, dst_old_version, dst_new_version,
      src_page_numbers, dst_position)`. With no destination version the
      pages go into a new, empty PDF at position 0. */
  method InsertPdfPages(
    srcOld: Version,
    dstOld: Option<Version>,
    dstNew: Version,
    srcPageNumbers: seq<int>,
    dstPosition: int)
    returns (r: Result<Version>)
    ensures dstOld.None? ==> r == Lift(InsertInOrder(srcOld.file, [], srcPageNumbers, 0), dstNew)
    ensures dstOld.Some? ==>
      r == Lift(InsertInOrder(srcOld.file, dstOld.value.file, srcPageNumbers, dstPosition), dstNew)
    ensures r.Err? ==> r.error == IndexError
    ensures dstOld.None? ==>
      (r.Ok? <==> AllIn(srcPageNumbers, |srcOld.file|)) &&
      (r.Ok? ==> r.value.file == Select(srcOld.file, srcPageNumbers))
    ensures dstOld.Some? && 0 <= dstPosition <= |dstOld.value.file| ==>
      (r.Ok? <==> AllIn(srcPageNumbers, |srcOld.file|)) &&
      (r.Ok? ==>
        r.value.file ==
        dstOld.value.file[..dstPosition] + Select(srcOld.file, srcPageNumbers) + dstOld.value.file[dstPosition..])
  {
    var src := srcOld.file;
    var pdf: seq<Page>;
    var position: int;
    if dstOld.None? {
      pdf, position := [], 0;
    } else {
      pdf, position := dstOld.value.file, dstPosition;
    }
    ghost var start := pdf;
    var insertedCount := 0;
    for i := 0 to |srcPageNumbers|
      invariant insertedCount == i
      invariant InsertInOrder(src, start, srcPageNumbers[..i], position) == Ok(pdf)
    {
      assert srcPageNumbers[..i + 1][..i] == srcPageNumbers[..i];
      var page := PageAt(src, srcPageNumbers[i]);
      if page.Err? {
        InsertStopsAtError(src, start, srcPageNumbers, position, i + 1);
        InsertBlock(src, start, srcPageNumbers, position);
        return Err(page.error);
      }
      var inserted := InsertPage(pdf, position + insertedCount, page.value);
      if inserted.Err? {
        InsertStopsAtError(src, start, srcPageNumbers, position, i + 1);
        InsertBlock(src, start, srcPageNumbers, position);
        return Err(inserted.error);
      }
      pdf := inserted.value;
      insertedCount := insertedCount + 1;
    }
    assert srcPageNumbers[..|srcPageNumbers|] == srcPageNumbers;
    InsertBlock(src, start, srcPageNumbers, position);
    r := Ok(Save(dstNew, pdf));
  }

}
