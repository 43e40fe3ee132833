/** The two merge flows of papermerge/core/views/utils.py: `total_merge`
    moves every page of a source document into a new destination version
    and deletes the source document; `partial_merge` moves some pages,
    leaving the rest in a new source version, and carries the OCR
    artifacts and page texts of every page along. */
module Merge {
  import opened Common
  import opened Documents
  import RecycleMap
  import PdfEdit
  import SideData

  /** `[page.number for page in src_old_version.pages.all()]`. */
  function AllPageNumbers(v: Version): (r: seq<int>)
    ensures r == Range(1, |v.texts|)
  {
    Range(1, |v.texts|)
  }

  /** `total_merge(src_old_version, dst_new_version)`. `live` is the set of
      documents that exist; the source document leaves it only once the
      pages are saved in the destination. The insertion fails when the
      version has more page records than PDF pages. */
  method TotalMerge(srcOld: Version, dstNew: Version, live: set<DocId>)
    returns (r: Result<Version>, liveAfter: set<DocId>)
    ensures r.Ok? <==> |srcOld.texts| <= |srcOld.file|
    ensures r.Err? ==> r.error == IndexError && liveAfter == live
    ensures r.Ok? ==> r.value == Save(dstNew, srcOld.file[..|srcOld.texts|])
    ensures r.Ok? ==> liveAfter == live - {srcOld.document}
    ensures WellFormed(srcOld) ==> r.Ok? && r.value.file == srcOld.file && srcOld.document !in liveAfter
  {
    var pageNumbers := AllPageNumbers(srcOld);
    SelectPrefix(srcOld.file, |srcOld.texts|);
    r := PdfEdit.InsertPdfPages(srcOld, None, dstNew, pageNumbers, 0);
    if r.Err? {
      PdfEdit.InsertBlock(srcOld.file, [], pageNumbers, 0);
      return r, live;
    }
    liveAfter := live - {srcOld.document};
  }

  /** The two versions a partial merge produces. */
  datatype Merged = Merged(srcNew: Version, dstNew: Version)

  /** The arguments for which the model proves the result of
      `partial_merge`: a consistent source version, page numbers that name
      some but not all of its pages in ascending order, and three distinct
      storage roots. No caller in this source fixes these; they are the
      model's own choice, because the removal loop drifts on numbers in
      any other order (PdfEdit.RemoveDescendingDrift). */
  predicate MergeArgs(srcOld: Version, srcNew: Version, dstNew: Version, pageNumbers: seq<int>)
  {
    WellFormed(srcOld)
    && StrictlyAscending(pageNumbers) && AllIn(pageNumbers, |srcOld.texts|)
    && |pageNumbers| < |srcOld.texts|
    && srcOld.path != srcNew.path && srcOld.path != dstNew.path && srcNew.path != dstNew.path
  }

  /** What a partial merge with those arguments leaves behind: the
      new source holds the kept pages in order with their texts, the
      destination the moved pages in order with theirs, and the storage
      gives every new page the artifacts of the old page it came from. */
  predicate MergedAsIntended(
    srcOld: Version, srcNew: Version, dstNew: Version, pageNumbers: seq<int>,
    store: Store, merged: Merged, after: Store)
    requires AllIn(pageNumbers, |srcOld.texts|) && WellFormed(srcOld)
    requires AllIn(RecycleMap.Survivors(|srcOld.texts|, pageNumbers), |srcOld.texts|)
  {
    var kept := RecycleMap.Survivors(|srcOld.texts|, pageNumbers);
    merged.srcNew == UpdateTextField(Save(srcNew, Select(srcOld.file, kept)), Select(srcOld.texts, kept))
    && merged.dstNew == UpdateTextField(Save(dstNew, Select(srcOld.file, pageNumbers)), Select(srcOld.texts, pageNumbers))
    && (forall n :: 1 <= n <= |kept| ==>
          Lookup(after, PagePath(srcNew.path, n)) == Lookup(store, PagePath(srcOld.path, kept[n - 1])))
    && (forall i :: 0 <= i < |pageNumbers| ==>
          Lookup(after, PagePath(dstNew.path, i + 1)) == Lookup(store, PagePath(srcOld.path, pageNumbers[i])))
  }

  /** When the caller's new versions come with one page record per page
      they receive, the merge hands every page its text: the new source
      holds the kept texts, the destination the moved ones, and both are
      well-formed. */
  lemma MergedTexts(
    srcOld: Version, srcNew: Version, dstNew: Version, pageNumbers: seq<int>,
    store: Store, merged: Merged, after: Store)
    requires MergeArgs(srcOld, srcNew, dstNew, pageNumbers)
    requires AllIn(RecycleMap.Survivors(|srcOld.texts|, pageNumbers), |srcOld.texts|)
    requires MergedAsIntended(srcOld, srcNew, dstNew, pageNumbers, store, merged, after)
    requires |srcNew.texts| == srcNew.pageCount == |srcOld.texts| - |pageNumbers|
    requires |dstNew.texts| == dstNew.pageCount == |pageNumbers|
    ensures merged.srcNew.texts == Select(srcOld.texts, RecycleMap.Survivors(|srcOld.texts|, pageNumbers))
    ensures merged.dstNew.texts == Select(srcOld.texts, pageNumbers)
    ensures WellFormed(merged.srcNew) && WellFormed(merged.dstNew)
  {
    var n := |srcOld.texts|;
    var kept := RecycleMap.Survivors(n, pageNumbers);
    PartialMergeKept(srcOld, srcNew, dstNew, pageNumbers);
    UpdateTextFieldFull(Save(srcNew, Select(srcOld.file, kept)), Select(srcOld.texts, kept));
    UpdateTextFieldFull(Save(dstNew, Select(srcOld.file, pageNumbers)), Select(srcOld.texts, pageNumbers));
  }

  /** The facts about the position map a partial merge relies on: the
      kept pages are the old numbers of the map, all of them pages of the
      source, and there are N - k of them. */
  lemma PartialMergeKept(srcOld: Version, srcNew: Version, dstNew: Version, pageNumbers: seq<int>)
    requires MergeArgs(srcOld, srcNew, dstNew, pageNumbers)
    ensures var n := |srcOld.texts|;
      var kept := RecycleMap.Survivors(n, pageNumbers);
      AllIn(kept, n) && |kept| == n - |pageNumbers|
      && Olds(RecycleMap.Items(n, pageNumbers)) == kept
      && PdfEdit.RemoveInOrder(srcOld.file, pageNumbers) == Ok(Select(srcOld.file, kept))
  {
    var n := |srcOld.texts|;
    PdfEdit.RemoveAscending(srcOld.file, pageNumbers);
    RecycleMap.ItemsShape(n, pageNumbers);
    assert Distinct(pageNumbers);
    RecycleMap.ItemsCount(n, pageNumbers);
    SideData.ReuseTextRecycled(srcOld.texts, pageNumbers);
  }

  /** The first half of `partial_merge`: the pages are removed from the
      source PDF, the position map of the removal is built, and the kept
      pages' artifacts and texts are carried over to the new source. */
  method ReduceSource(srcOld: Version, srcNew: Version, pageNumbers: seq<int>, store: Store)
    returns (r: Result<Version>, after: Store)
    ensures r.Err? ==> r.error == ValueError || r.error == KeyError || r.error == IndexError
    ensures WellFormed(srcOld) && StrictlyAscending(pageNumbers) && AllIn(pageNumbers, |srcOld.texts|) ==>
      var n := |srcOld.texts|;
      var kept := RecycleMap.Survivors(n, pageNumbers);
      AllIn(kept, n)
      && r.Ok? && r.value == UpdateTextField(Save(srcNew, Select(srcOld.file, kept)), Select(srcOld.texts, kept))
    ensures srcOld.path != srcNew.path && WellFormed(srcOld) && StrictlyAscending(pageNumbers) && AllIn(pageNumbers, |srcOld.texts|) ==>
      var kept := RecycleMap.Survivors(|srcOld.texts|, pageNumbers);
      (forall m :: 1 <= m <= |kept| ==>
        Lookup(after, PagePath(srcNew.path, m)) == Lookup(store, PagePath(srcOld.path, kept[m - 1])))
      && (forall p: PagePath :: p.documentPath != srcNew.path ==> Lookup(after, p) == Lookup(store, p))
  {
    after := store;
    var n := |srcOld.texts|;
    ghost var args := WellFormed(srcOld) && StrictlyAscending(pageNumbers) && AllIn(pageNumbers, n);
    if args {
      PdfEdit.RemoveAscending(srcOld.file, pageNumbers);
      RecycleMap.ItemsShape(n, pageNumbers);
      SideData.ReuseTextRecycled(srcOld.texts, pageNumbers);
    }

    // remove the pages from the source
    var removed := PdfEdit.RemovePdfPages(srcOld, srcNew, pageNumbers);
    if removed.Err? {
      return Err(removed.error), after;
    }

    // the position map of the removal
    var recycle := RecycleMap.Create(srcOld.pageCount, pageNumbers);
    if recycle.Err? {
      return Err(recycle.error), after;
    }
    var pageMap := RecycleMap.Drain(recycle.value);

    // artifacts and texts of the kept pages
    var ocrCalls;
    ocrCalls, after := SideData.ReuseOcrData(srcOld, removed.value, pageMap, after);
    assert SideData.OcrCopies(srcOld, removed.value, pageMap) == SideData.OcrCopies(srcOld, srcNew, pageMap);
    if args && srcOld.path != srcNew.path {
      SideData.ReuseOcrRecycled(srcOld, srcNew, n, pageNumbers, store);
    }
    r := SideData.ReuseTextField(srcOld, removed.value, pageMap);
  }

  /** The second half of `partial_merge`: the moved pages go into a new,
      empty destination PDF, and their artifacts and texts follow them. */
  method FillDestination(srcOld: Version, dstNew: Version, pageNumbers: seq<int>, store: Store)
    returns (r: Result<Version>, after: Store)
    ensures r.Err? ==> r.error == KeyError || r.error == IndexError
    ensures WellFormed(srcOld) && AllIn(pageNumbers, |srcOld.texts|) ==>
      r.Ok? && r.value == UpdateTextField(Save(dstNew, Select(srcOld.file, pageNumbers)), Select(srcOld.texts, pageNumbers))
    ensures r.Ok? && srcOld.path != dstNew.path ==>
      (forall i :: 0 <= i < |pageNumbers| ==>
        Lookup(after, PagePath(dstNew.path, i + 1)) == Lookup(store, PagePath(srcOld.path, pageNumbers[i])))
      && (forall p: PagePath :: p.documentPath != dstNew.path ==> Lookup(after, p) == Lookup(store, p))
  {
    after := store;
    var inserted := PdfEdit.InsertPdfPages(srcOld, None, dstNew, pageNumbers, 0);
    if inserted.Err? {
      return Err(inserted.error), after;
    }
    var copied;
    copied, after := SideData.CopyPagesDataMulti(srcOld, None, inserted.value, 0, pageNumbers, after);
    assert copied.Ok?;
    assert SideData.MultiCopies(srcOld, None, inserted.value, 0, pageNumbers)
      == SideData.MultiCopies(srcOld, None, dstNew, 0, pageNumbers);
    if srcOld.path != dstNew.path {
      SideData.MultiCopiesAtStart(srcOld, dstNew, pageNumbers, store);
    }
    r := SideData.ReuseTextFieldMulti(srcOld, None, inserted.value, 0, pageNumbers);
    SideData.MultiTextsAtStart(srcOld, None, |inserted.value.texts|, pageNumbers);
    if WellFormed(srcOld) && AllIn(pageNumbers, |srcOld.texts|) {
      assert inserted.value == Save(dstNew, Select(srcOld.file, pageNumbers));
      assert SideData.MultiTexts(srcOld, None, |inserted.value.texts|, 0, pageNumbers) == Select(srcOld.texts, pageNumbers);
    }
  }

  /** `partial_merge(src_old_version, src_new_version, dst_new_version,
      page_numbers)`: returns both new versions and the storage after the
      artifact copies. Asking to move as many pages as the source has
      raises ValueError before anything is written. With the arguments
      of MergeArgs the merge succeeds: the new source keeps the other N - k
      pages, in order, with their texts and artifacts; the destination
      receives the k moved pages, in order, with theirs, and no address
      outside the two new versions changes in the storage. */
  method PartialMerge(srcOld: Version, srcNew: Version, dstNew: Version, pageNumbers: seq<int>, store: Store)
    returns (r: Result<Merged>, after: Store)
    ensures |pageNumbers| >= |srcOld.texts| ==> r == Err(ValueError) && after == store
    ensures r.Ok? ==> |pageNumbers| < |srcOld.texts|
    ensures r.Err? ==> r.error == ValueError || r.error == KeyError || r.error == IndexError
    ensures MergeArgs(srcOld, srcNew, dstNew, pageNumbers) ==>
      var kept := RecycleMap.Survivors(|srcOld.texts|, pageNumbers);
      AllIn(kept, |srcOld.texts|) && |kept| == |srcOld.texts| - |pageNumbers|
      && r.Ok? && MergedAsIntended(srcOld, srcNew, dstNew, pageNumbers, store, r.value, after)
    ensures MergeArgs(srcOld, srcNew, dstNew, pageNumbers) ==>
      forall p: PagePath :: p.documentPath != srcNew.path && p.documentPath != dstNew.path ==>
        Lookup(after, p) == Lookup(store, p)
  {
    if |pageNumbers| >= |srcOld.texts| {
      return Err(ValueError), store;
    }
    ghost var args := MergeArgs(srcOld, srcNew, dstNew, pageNumbers);
    if args {
      PartialMergeKept(srcOld, srcNew, dstNew, pageNumbers);
    }
    var srcResult, afterOcr := ReduceSource(srcOld, srcNew, pageNumbers, store);
    if srcResult.Err? {
      return Err(srcResult.error), afterOcr;
    }
    var dstResult;
    dstResult, after := FillDestination(srcOld, dstNew, pageNumbers, afterOcr);
    if dstResult.Err? {
      return Err(dstResult.error), after;
    }
    r := Ok(Merged(srcResult.value, dstResult.value));
  }
}
