/** The per-page side data that follows a page when a new version is
    derived (papermerge/core/views/utils.py): page texts gathered into
    streams for `update_text_field`, and OCR artifacts copied between page
    addresses of the storage. */
module SideData {
  import opened Common
  import opened Documents
  import RecycleMap

  // ---------------------------------------------------------------------
  // collect_text_streams

  /** `{page.number: page for page in version.pages.all()}`: the page
      texts keyed by their 1-based page number. */
  function PagesMap(texts: seq<string>): (r: map<int, string>)
    ensures forall n :: n in r <==> 1 <= n <= |texts|
    ensures forall n :: n in r ==> r[n] == texts[n - 1]
  {
    if texts == [] then map[]
    else PagesMap(texts[..|texts| - 1])[|texts| := texts[|texts| - 1]]
  }

  /** `collect_text_streams(version, page_numbers)`: the texts of the
      listed pages, in list order; a number that is not a page of the
      version raises KeyError. */
  method CollectTextStreams(v: Version, pageNumbers: seq<int>) returns (r: Result<seq<string>>)
    ensures r.Ok? <==> AllIn(pageNumbers, |v.texts|)
    ensures r.Err? ==> r.error == KeyError
    ensures r.Ok? ==> r.value == Select(v.texts, pageNumbers)
  {
    var pagesMap := PagesMap(v.texts);
    var streams: seq<string> := [];
    for i := 0 to |pageNumbers|
      invariant AllIn(pageNumbers[..i], |v.texts|)
      invariant streams == Select(v.texts, pageNumbers[..i])
    {
      var number := pageNumbers[i];
      if number !in pagesMap {
        assert !(1 <= pageNumbers[i] <= |v.texts|);
        return Err(KeyError);
      }
      assert pageNumbers[..i + 1] == pageNumbers[..i] + [number];
      streams := streams + [pagesMap[number]];
    }
    assert pageNumbers[..|pageNumbers|] == pageNumbers;
    r := Ok(streams);
  }

  // ---------------------------------------------------------------------
  // reuse_ocr_data and reuse_text_field

  /** The copies `reuse_ocr_data` issues: one per map item, in map order,
      from the old version's page `oldNumber` to the new version's page
      `newNumber`. */
  function OcrCopies(oldV: Version, newV: Version, pageMap: seq<RecycleMap.Item>): (r: seq<Copy>)
    ensures |r| == |pageMap|
    ensures forall i :: 0 <= i < |pageMap| ==>
      r[i] == Copy(PagePath(oldV.path, pageMap[i].oldNumber), PagePath(newV.path, pageMap[i].newNumber))
  {
    seq(|pageMap|, i requires 0 <= i < |pageMap| =>
      Copy(PagePath(oldV.path, pageMap[i].oldNumber), PagePath(newV.path, pageMap[i].newNumber)))
  }

  /** `reuse_ocr_data(old_version, new_version, page_map)`: returns the
      copies issued, in order, and the storage after them. */
  method ReuseOcrData(oldV: Version, newV: Version, pageMap: seq<RecycleMap.Item>, store: Store)
    returns (calls: seq<Copy>, after: Store)
    ensures calls == OcrCopies(oldV, newV, pageMap)
    ensures after == ApplyCopies(store, calls)
  {
    calls, after := [], store;
    for i := 0 to |pageMap|
      invariant calls == OcrCopies(oldV, newV, pageMap)[..i]
      invariant after == ApplyCopies(store, calls)
    {
      var item := pageMap[i];
      var c := Copy(PagePath(oldV.path, item.oldNumber), PagePath(newV.path, item.newNumber));
      assert (calls + [c])[..|calls|] == calls;
      calls, after := calls + [c], CopyPage(after, c);
    }
  }

  /** With the recycle map of an old version, every page of the new
      version gets the artifacts of the old page it recycles, and every
      address outside the new version's pages 1 .. k keeps its content. */
  lemma ReuseOcrRecycled(oldV: Version, newV: Version, total: int, deleted: seq<int>, store: Store)
    requires oldV.path != newV.path
    ensures var items := RecycleMap.Items(total, deleted);
      var after := ApplyCopies(store, OcrCopies(oldV, newV, items));
      (forall n :: 1 <= n <= |items| ==>
        Lookup(after, PagePath(newV.path, n))
        == Lookup(store, PagePath(oldV.path, RecycleMap.Survivors(total, deleted)[n - 1])))
      && (forall p: PagePath :: !(p.documentPath == newV.path && 1 <= p.pageNum <= |items|) ==>
        Lookup(after, p) == Lookup(store, p))
  {
    var items := RecycleMap.Items(total, deleted);
    RecycleMap.ItemsShape(total, deleted);
    var calls := OcrCopies(oldV, newV, items);
    assert Distinct(Destinations(calls)) by {
      forall i, j | 0 <= i < j < |calls| ensures Destinations(calls)[i] != Destinations(calls)[j] {
        assert calls[i].dst.pageNum == i + 1 && calls[j].dst.pageNum == j + 1;
      }
    }
    ApplyCopiesMirror(store, calls);
    var after := ApplyCopies(store, calls);
    forall n | 1 <= n <= |items|
      ensures Lookup(after, PagePath(newV.path, n))
        == Lookup(store, PagePath(oldV.path, RecycleMap.Survivors(total, deleted)[n - 1]))
    {
      assert calls[n - 1].dst == PagePath(newV.path, n);
      assert Olds(items)[n - 1] == items[n - 1].oldNumber;
    }
    forall p: PagePath | !(p.documentPath == newV.path && 1 <= p.pageNum <= |items|)
      ensures Lookup(after, p) == Lookup(store, p)
    {
    }
  }

  /** `reuse_text_field(old_version, new_version, page_map)`: the new
      version's page texts become the old texts of the map's old numbers,
      in map order; an old number that is not a page raises KeyError. */
  method ReuseTextField(oldV: Version, newV: Version, pageMap: seq<RecycleMap.Item>)
    returns (r: Result<Version>)
    ensures r.Ok? <==> AllIn(Olds(pageMap), |oldV.texts|)
    ensures r.Err? ==> r.error == KeyError
    ensures r.Ok? ==> r.value == UpdateTextField(newV, Select(oldV.texts, Olds(pageMap)))
  {
    var streams := CollectTextStreams(oldV, Olds(pageMap));
    if streams.Err? {
      return Err(streams.error);
    }
    r := Ok(UpdateTextField(newV, streams.value));
  }

  /** A recycle map built over a version's own page count only names pages
      of that version, so reusing its texts cannot fail; the new texts are
      the old ones without the deleted pages, in their old order. */
  lemma ReuseTextRecycled(texts: seq<string>, deleted: seq<int>)
    ensures var items := RecycleMap.Items(|texts|, deleted);
      Olds(items) == RecycleMap.Survivors(|texts|, deleted)
      && AllIn(Olds(items), |texts|)
  {
    var items := RecycleMap.Items(|texts|, deleted);
    RecycleMap.ItemsShape(|texts|, deleted);
    var olds := Olds(items);
    forall i | 0 <= i < |olds| ensures 1 <= olds[i] <= |texts| {
      assert olds[i] in olds;
    }
  }

  // ---------------------------------------------------------------------
  // copy_pages_data_multi

  /** The first block (utils.py:155-167): its loop only computes paths, and
      the one copy after the loop uses the last pair, (position, position). */
  function FrontCopies(dstOld: Version, dstNew: Version, position: int): (r: seq<Copy>)
    ensures |r| == if position >= 1 then 1 else 0
  {
    if position >= 1 then [Copy(PagePath(dstOld.path, position), PagePath(dstNew.path, position))] else []
  }

  /** The second block: source page `pageNumbers[i]` goes to destination
      page `position + 1 + i`. */
  function InsertedCopies(srcOld: Version, dstNew: Version, position: int, pageNumbers: seq<int>): (r: seq<Copy>)
    ensures |r| == |pageNumbers|
    ensures forall i :: 0 <= i < |r| ==>
      r[i] == Copy(PagePath(srcOld.path, pageNumbers[i]), PagePath(dstNew.path, position + 1 + i))
  {
    seq(|pageNumbers|, i requires 0 <= i < |pageNumbers| =>
      Copy(PagePath(srcOld.path, pageNumbers[i]), PagePath(dstNew.path, position + 1 + i)))
  }

  /** The third block: old destination page `pos`, for `pos` in
      `position + 1 .. pages.count()`, goes to page `pos + k`. */
  function ShiftedCopies(dstOld: Version, dstNew: Version, position: int, k: int): (r: seq<Copy>)
    ensures |r| == if |dstOld.texts| < position + 1 then 0 else |dstOld.texts| - position
    ensures forall j :: 0 <= j < |r| ==>
      r[j] == Copy(PagePath(dstOld.path, position + 1 + j), PagePath(dstNew.path, position + 1 + j + k))
  {
    var count := if |dstOld.texts| < position + 1 then 0 else |dstOld.texts| - position;
    seq(count, j requires 0 <= j < count =>
      Copy(PagePath(dstOld.path, position + 1 + j), PagePath(dstNew.path, position + 1 + j + k)))
  }

  /** Every copy `copy_pages_data_multi` issues when it does not fail: the
      three blocks in order, the first and last only with an old
      destination. */
  function MultiCopies(srcOld: Version, dstOld: Option<Version>, dstNew: Version, position: int, pageNumbers: seq<int>): (r: seq<Copy>)
    ensures dstOld.None? ==> |r| == |pageNumbers|
    ensures dstOld.Some? ==>
      |r| == (if position >= 1 then 1 else 0) + |pageNumbers|
        + (if |dstOld.value.texts| < position + 1 then 0 else |dstOld.value.texts| - position)
  {
    (if dstOld.Some? then FrontCopies(dstOld.value, dstNew, position) else [])
    + InsertedCopies(srcOld, dstNew, position, pageNumbers)
    + (if dstOld.Some? then ShiftedCopies(dstOld.value, dstNew, position, |pageNumbers|) else [])
  }

  /** First block: the loop walks pages 1 .. position building the
      paths, and the copy after it uses the paths of the last step. */
  method CopyFrontBlock(dstOld: Version, dstNew: Version, position: int, store: Store)
    returns (issued: seq<Copy>, after: Store)
    requires position >= 1
    ensures issued == FrontCopies(dstOld, dstNew, position)
    ensures after == ApplyCopies(store, issued)
  {
    var srcPath, dstPath := PagePath(dstOld.path, 1), PagePath(dstNew.path, 1);
    for pos := 1 to position + 1
      invariant srcPath == PagePath(dstOld.path, if pos == 1 then 1 else pos - 1)
      invariant dstPath == PagePath(dstNew.path, if pos == 1 then 1 else pos - 1)
    {
      srcPath, dstPath := PagePath(dstOld.path, pos), PagePath(dstNew.path, pos);
    }
    issued := [Copy(srcPath, dstPath)];
    assert issued[..0] == [];
    after := CopyPage(store, Copy(srcPath, dstPath));
  }

  /** Second block, one copy per page number. */
  method CopyInsertedBlock(srcOld: Version, dstNew: Version, position: int, pageNumbers: seq<int>, store: Store)
    returns (issued: seq<Copy>, after: Store)
    ensures issued == InsertedCopies(srcOld, dstNew, position, pageNumbers)
    ensures after == ApplyCopies(store, issued)
  {
    var expected := InsertedCopies(srcOld, dstNew, position, pageNumbers);
    issued, after := [], store;
    for i := 0 to |pageNumbers|
      invariant issued == expected[..i]
      invariant after == ApplyCopies(store, issued)
    {
      var c := Copy(PagePath(srcOld.path, pageNumbers[i]), PagePath(dstNew.path, position + 1 + i));
      assert expected[..i + 1] == expected[..i] + [c];
      assert (issued + [c])[..|issued|] == issued;
      issued, after := issued + [c], CopyPage(after, c);
    }
    assert expected[..|pageNumbers|] == expected;
  }

  /** Third block, one copy per old destination page after `position`. */
  method CopyShiftedBlock(dstOld: Version, dstNew: Version, position: int, k: int, store: Store)
    returns (issued: seq<Copy>, after: Store)
    ensures issued == ShiftedCopies(dstOld, dstNew, position, k)
    ensures after == ApplyCopies(store, issued)
  {
    var expected := ShiftedCopies(dstOld, dstNew, position, k);
    var total := |dstOld.texts|;
    issued, after := [], store;
    if total < position + 1 {
      return;
    }
    for pos := position + 1 to total + 1
      invariant issued == expected[..pos - position - 1]
      invariant after == ApplyCopies(store, issued)
    {
      var c := Copy(PagePath(dstOld.path, pos), PagePath(dstNew.path, pos + k));
      assert expected[..pos - position] == expected[..pos - position - 1] + [c];
      assert (issued + [c])[..|issued|] == issued;
      issued, after := issued + [c], CopyPage(after, c);
    }
    assert expected[..total - position] == expected;
  }

  /** `copy_pages_data_multi(...)`: with a positive position and no old
      destination the first block reads `document_path` of None and raises
      AttributeError before any copy. */
  method CopyPagesDataMulti(
    srcOld: Version, dstOld: Option<Version>, dstNew: Version,
    position: int, pageNumbers: seq<int>, store: Store)
    returns (r: Result<seq<Copy>>, after: Store)
    ensures r.Err? <==> position >= 1 && dstOld.None?
    ensures r.Err? ==> r.error == AttributeError && after == store
    ensures r.Ok? ==> r.value == MultiCopies(srcOld, dstOld, dstNew, position, pageNumbers)
    ensures r.Ok? ==> after == ApplyCopies(store, r.value)
  {
    if position >= 1 && dstOld.None? {
      return Err(AttributeError), store;
    }
    var front: seq<Copy> := [];
    after := store;
    if position >= 1 {
      front, after := CopyFrontBlock(dstOld.value, dstNew, position, after);
    }
    var inserted, shifted: seq<Copy>;
    inserted, after := CopyInsertedBlock(srcOld, dstNew, position, pageNumbers, after);
    ApplyCopiesAppend(store, front, inserted);
    shifted := [];
    if dstOld.Some? {
      shifted, after := CopyShiftedBlock(dstOld.value, dstNew, position, |pageNumbers|, after);
      ApplyCopiesAppend(store, front + inserted, shifted);
    } else {
      assert front + inserted + shifted == front + inserted;
    }
    r := Ok(front + inserted + shifted);
  }

  /** The addresses of copy j of the batch, where f is the size of the
      first block: its destination is page `position + 1 - f + j` of the
      new version, so the three blocks write disjoint, ascending pages; it
      reads page `position` of the old destination (first block), source
      page `pageNumbers[j - f]` (second block) or page
      `position + 1 + j - f - k` of the old destination (third block). */
  lemma MultiCopiesAddresses(srcOld: Version, dstOld: Option<Version>, dstNew: Version, position: int, pageNumbers: seq<int>)
    ensures var calls := MultiCopies(srcOld, dstOld, dstNew, position, pageNumbers);
      var f := if dstOld.Some? && position >= 1 then 1 else 0;
      var k := |pageNumbers|;
      forall j :: 0 <= j < |calls| ==>
        calls[j].dst == PagePath(dstNew.path, position + 1 - f + j)
        && (j < f ==> dstOld.Some? && calls[j].src == PagePath(dstOld.value.path, position))
        && (f <= j < f + k ==> calls[j].src == PagePath(srcOld.path, pageNumbers[j - f]))
        && (f + k <= j ==> dstOld.Some? && calls[j].src == PagePath(dstOld.value.path, position + 1 + j - f - k))
  {
    var calls := MultiCopies(srcOld, dstOld, dstNew, position, pageNumbers);
    var front := if dstOld.Some? then FrontCopies(dstOld.value, dstNew, position) else [];
    var inserted := InsertedCopies(srcOld, dstNew, position, pageNumbers);
    var f := |front|;
    forall j | 0 <= j < |calls|
      ensures calls[j].dst == PagePath(dstNew.path, position + 1 - f + j)
      ensures j < f ==> dstOld.Some? && calls[j].src == PagePath(dstOld.value.path, position)
      ensures f <= j < f + |inserted| ==> calls[j].src == PagePath(srcOld.path, pageNumbers[j - f])
      ensures f + |inserted| <= j ==> dstOld.Some? && calls[j].src == PagePath(dstOld.value.path, position + 1 + j - f - |inserted|)
    {
      if j < f {
      } else if j < f + |inserted| {
        assert calls[j] == inserted[j - f];
      } else {
        var shifted := ShiftedCopies(dstOld.value, dstNew, position, |pageNumbers|);
        assert calls[j] == shifted[j - f - |inserted|];
      }
    }
  }

  /** With the new destination stored apart from both sources, the batch
      writes each address at most once and never reads an address it
      writes, so every copy mirrors the original storage and every other
      address keeps its content. */
  lemma MultiCopiesMirror(
    srcOld: Version, dstOld: Option<Version>, dstNew: Version,
    position: int, pageNumbers: seq<int>, store: Store)
    requires dstNew.path != srcOld.path
    requires dstOld.Some? ==> dstNew.path != dstOld.value.path
    ensures var calls := MultiCopies(srcOld, dstOld, dstNew, position, pageNumbers);
      var after := ApplyCopies(store, calls);
      (forall j :: 0 <= j < |calls| ==> Lookup(after, calls[j].dst) == Lookup(store, calls[j].src))
      && (forall p :: p !in Destinations(calls) ==> Lookup(after, p) == Lookup(store, p))
  {
    var calls := MultiCopies(srcOld, dstOld, dstNew, position, pageNumbers);
    MultiCopiesAddresses(srcOld, dstOld, dstNew, position, pageNumbers);
    assert Distinct(Destinations(calls)) by {
      forall i, j | 0 <= i < j < |calls| ensures Destinations(calls)[i] != Destinations(calls)[j] {
        assert calls[i].dst.pageNum < calls[j].dst.pageNum;
      }
    }
    assert SourcesUntouched(calls) by {
      forall i, j | 0 <= i < |calls| && 0 <= j < |calls| ensures calls[i].src != calls[j].dst {
        assert calls[i].src.documentPath != dstNew.path;
      }
    }
    ApplyCopiesMirror(store, calls);
  }

  /** Copy j of the batch, in the storage after the whole batch. */
  lemma MultiCopiesWritten(
    srcOld: Version, dstOld: Option<Version>, dstNew: Version,
    position: int, pageNumbers: seq<int>, store: Store, j: int)
    requires dstNew.path != srcOld.path
    requires dstOld.Some? ==> dstNew.path != dstOld.value.path
    requires 0 <= j < |MultiCopies(srcOld, dstOld, dstNew, position, pageNumbers)|
    ensures var calls := MultiCopies(srcOld, dstOld, dstNew, position, pageNumbers);
      Lookup(ApplyCopies(store, calls), calls[j].dst) == Lookup(store, calls[j].src)
  {
    MultiCopiesMirror(srcOld, dstOld, dstNew, position, pageNumbers, store);
  }

  /** The copy that moves old destination page `pos` (third block). */
  lemma MultiCopiesShiftedCopy(
    srcOld: Version, dstOld: Version, dstNew: Version,
    position: int, pageNumbers: seq<int>, pos: int)
    requires position + 1 <= pos <= |dstOld.texts|
    ensures var calls := MultiCopies(srcOld, Some(dstOld), dstNew, position, pageNumbers);
      var j := (if position >= 1 then 1 else 0) + |pageNumbers| + (pos - position - 1);
      0 <= j < |calls|
      && calls[j] == Copy(PagePath(dstOld.path, pos), PagePath(dstNew.path, pos + |pageNumbers|))
  {
    var front := FrontCopies(dstOld, dstNew, position);
    var inserted := InsertedCopies(srcOld, dstNew, position, pageNumbers);
    var shifted := ShiftedCopies(dstOld, dstNew, position, |pageNumbers|);
    var calls := front + inserted + shifted;
    assert calls[|front| + |inserted| + (pos - position - 1)] == shifted[pos - position - 1];
  }

  /** The copy that places source page `pageNumbers[i]` (second block). */
  lemma MultiCopiesInsertedCopy(
    srcOld: Version, dstOld: Option<Version>, dstNew: Version,
    position: int, pageNumbers: seq<int>, i: int)
    requires 0 <= i < |pageNumbers|
    ensures var calls := MultiCopies(srcOld, dstOld, dstNew, position, pageNumbers);
      var j := (if dstOld.Some? && position >= 1 then 1 else 0) + i;
      0 <= j < |calls|
      && calls[j] == Copy(PagePath(srcOld.path, pageNumbers[i]), PagePath(dstNew.path, position + 1 + i))
  {
    var front := if dstOld.Some? then FrontCopies(dstOld.value, dstNew, position) else [];
    var inserted := InsertedCopies(srcOld, dstNew, position, pageNumbers);
    var shifted := if dstOld.Some? then ShiftedCopies(dstOld.value, dstNew, position, |pageNumbers|) else [];
    var calls := front + inserted + shifted;
    assert calls[|front| + i] == inserted[i];
  }

  /** Source page `pageNumbers[i]` lands on page `position + 1 + i`. */
  lemma MultiCopiesInsertedAt(
    srcOld: Version, dstOld: Option<Version>, dstNew: Version,
    position: int, pageNumbers: seq<int>, store: Store, i: int)
    requires dstNew.path != srcOld.path
    requires dstOld.Some? ==> dstNew.path != dstOld.value.path
    requires 0 <= i < |pageNumbers|
    ensures Lookup(ApplyCopies(store, MultiCopies(srcOld, dstOld, dstNew, position, pageNumbers)),
        PagePath(dstNew.path, position + 1 + i))
      == Lookup(store, PagePath(srcOld.path, pageNumbers[i]))
  {
    MultiCopiesInsertedCopy(srcOld, dstOld, dstNew, position, pageNumbers, i);
    MultiCopiesWritten(srcOld, dstOld, dstNew, position, pageNumbers, store,
      (if dstOld.Some? && position >= 1 then 1 else 0) + i);
  }

  /** Source page `pageNumbers[i]` lands on page `position + 1 + i` of the
      new destination. */
  lemma MultiCopiesInsertedLand(
    srcOld: Version, dstOld: Option<Version>, dstNew: Version,
    position: int, pageNumbers: seq<int>, store: Store)
    requires dstNew.path != srcOld.path
    requires dstOld.Some? ==> dstNew.path != dstOld.value.path
    ensures var after := ApplyCopies(store, MultiCopies(srcOld, dstOld, dstNew, position, pageNumbers));
      forall i :: 0 <= i < |pageNumbers| ==>
        Lookup(after, PagePath(dstNew.path, position + 1 + i)) == Lookup(store, PagePath(srcOld.path, pageNumbers[i]))
  {
    forall i | 0 <= i < |pageNumbers|
      ensures Lookup(ApplyCopies(store, MultiCopies(srcOld, dstOld, dstNew, position, pageNumbers)),
          PagePath(dstNew.path, position + 1 + i))
        == Lookup(store, PagePath(srcOld.path, pageNumbers[i]))
    {
      MultiCopiesInsertedAt(srcOld, dstOld, dstNew, position, pageNumbers, store, i);
    }
  }

  /** Old destination page `pos > position` lands on page `pos + k`. */
  lemma MultiCopiesShiftedAt(
    srcOld: Version, dstOld: Version, dstNew: Version,
    position: int, pageNumbers: seq<int>, store: Store, pos: int)
    requires dstNew.path != srcOld.path && dstNew.path != dstOld.path
    requires position + 1 <= pos <= |dstOld.texts|
    ensures Lookup(ApplyCopies(store, MultiCopies(srcOld, Some(dstOld), dstNew, position, pageNumbers)),
        PagePath(dstNew.path, pos + |pageNumbers|))
      == Lookup(store, PagePath(dstOld.path, pos))
  {
    MultiCopiesShiftedCopy(srcOld, dstOld, dstNew, position, pageNumbers, pos);
    MultiCopiesWritten(srcOld, Some(dstOld), dstNew, position, pageNumbers, store,
      (if position >= 1 then 1 else 0) + |pageNumbers| + (pos - position - 1));
  }

  /** With an old destination, its page `pos > position` lands on page
      `pos + k`, and its page `position` (when positive) on itself. */
  lemma MultiCopiesShiftedLand(
    srcOld: Version, dstOld: Version, dstNew: Version,
    position: int, pageNumbers: seq<int>, store: Store)
    requires dstNew.path != srcOld.path && dstNew.path != dstOld.path
    ensures var after := ApplyCopies(store, MultiCopies(srcOld, Some(dstOld), dstNew, position, pageNumbers));
      (forall pos :: position + 1 <= pos <= |dstOld.texts| ==>
        Lookup(after, PagePath(dstNew.path, pos + |pageNumbers|)) == Lookup(store, PagePath(dstOld.path, pos)))
      && (position >= 1 ==>
        Lookup(after, PagePath(dstNew.path, position)) == Lookup(store, PagePath(dstOld.path, position)))
  {
    forall pos | position + 1 <= pos <= |dstOld.texts|
      ensures Lookup(ApplyCopies(store, MultiCopies(srcOld, Some(dstOld), dstNew, position, pageNumbers)),
          PagePath(dstNew.path, pos + |pageNumbers|))
        == Lookup(store, PagePath(dstOld.path, pos))
    {
      MultiCopiesShiftedAt(srcOld, dstOld, dstNew, position, pageNumbers, store, pos);
    }
    if position >= 1 {
      MultiCopiesFrontAt(srcOld, dstOld, dstNew, position, pageNumbers, store);
    }
  }

  /** With a positive position, old destination page `position` lands on
      itself (first block). */
  lemma MultiCopiesFrontAt(
    srcOld: Version, dstOld: Version, dstNew: Version,
    position: int, pageNumbers: seq<int>, store: Store)
    requires dstNew.path != srcOld.path && dstNew.path != dstOld.path
    requires position >= 1
    ensures Lookup(ApplyCopies(store, MultiCopies(srcOld, Some(dstOld), dstNew, position, pageNumbers)),
        PagePath(dstNew.path, position))
      == Lookup(store, PagePath(dstOld.path, position))
  {
    var calls := MultiCopies(srcOld, Some(dstOld), dstNew, position, pageNumbers);
    assert calls[0] == FrontCopies(dstOld, dstNew, position)[0];
    MultiCopiesWritten(srcOld, Some(dstOld), dstNew, position, pageNumbers, store, 0);
  }

  /** Nothing outside the new destination changes, and neither do its
      pages below `position`: the first block copies only its last pair,
      so the pages its loop walks over before that are never written. */
  lemma MultiCopiesUnwritten(
    srcOld: Version, dstOld: Option<Version>, dstNew: Version,
    position: int, pageNumbers: seq<int>, store: Store)
    requires dstNew.path != srcOld.path
    requires dstOld.Some? ==> dstNew.path != dstOld.value.path
    ensures var after := ApplyCopies(store, MultiCopies(srcOld, dstOld, dstNew, position, pageNumbers));
      (forall n :: n < position ==> Lookup(after, PagePath(dstNew.path, n)) == Lookup(store, PagePath(dstNew.path, n)))
      && (forall p: PagePath :: p.documentPath != dstNew.path ==> Lookup(after, p) == Lookup(store, p))
  {
    MultiCopiesAddresses(srcOld, dstOld, dstNew, position, pageNumbers);
    MultiCopiesMirror(srcOld, dstOld, dstNew, position, pageNumbers, store);
  }

  /** At position 0 without an old destination (the call `partial_merge`
      makes) the batch gives page i + 1 of the new destination the
      artifacts of source page `pageNumbers[i]` and touches no other
      version. */
  lemma MultiCopiesAtStart(srcOld: Version, dstNew: Version, pageNumbers: seq<int>, store: Store)
    requires dstNew.path != srcOld.path
    ensures var after := ApplyCopies(store, MultiCopies(srcOld, None, dstNew, 0, pageNumbers));
      (forall i :: 0 <= i < |pageNumbers| ==>
        Lookup(after, PagePath(dstNew.path, i + 1)) == Lookup(store, PagePath(srcOld.path, pageNumbers[i])))
      && (forall p: PagePath :: p.documentPath != dstNew.path ==> Lookup(after, p) == Lookup(store, p))
  {
    MultiCopiesInsertedLand(srcOld, None, dstNew, 0, pageNumbers, store);
    MultiCopiesUnwritten(srcOld, None, dstNew, 0, pageNumbers, store);
  }

  /** The first block's copy sits after its loop: with a position of 2 or
      more, page 1 of the new destination receives nothing from the old
      destination, although the loop walks over it. */
  lemma MultiCopiesSkipFirstPage(
    srcOld: Version, dstOld: Version, dstNew: Version,
    position: int, pageNumbers: seq<int>, store: Store)
    requires position >= 2
    requires dstNew.path != srcOld.path && dstNew.path != dstOld.path
    ensures Lookup(ApplyCopies(store, MultiCopies(srcOld, Some(dstOld), dstNew, position, pageNumbers)), PagePath(dstNew.path, 1))
      == Lookup(store, PagePath(dstNew.path, 1))
  {
    MultiCopiesUnwritten(srcOld, Some(dstOld), dstNew, position, pageNumbers, store);
  }

  // ---------------------------------------------------------------------
  // reuse_text_field_multi

  /** The texts of the old destination, none when there is none. */
  function OldTexts(dstOld: Option<Version>): seq<string>
  {
    if dstOld.Some? then dstOld.value.texts else []
  }

  /** First block: pages 1 .. position of the old destination. */
  function FrontNumbers(dstOld: Option<Version>, position: int): (r: seq<int>)
    ensures dstOld.Some? && position >= 1 ==> r == Range(1, position)
    ensures dstOld.None? || position < 1 ==> r == []
  {
    if position >= 1 && dstOld.Some? then Range(1, position) else []
  }

  /** Second block: `zip(range(position + 1, len(page_numbers) + 1),
      page_numbers)` keeps as many page numbers as that range is long. */
  function MiddleNumbers(position: int, pageNumbers: seq<int>): (r: seq<int>)
    ensures position <= 0 ==> r == pageNumbers
    ensures position >= |pageNumbers| ==> r == []
    ensures 0 <= position <= |pageNumbers| ==> r == pageNumbers[..|pageNumbers| - position]
  {
    var k := |pageNumbers|;
    var count := if position >= k then 0 else if position <= 0 then k else k - position;
    pageNumbers[..count]
  }

  /** Third block: new page `pos` in `position + 1 + k .. total` reads old
      page `pos - position - k`, that is old pages 1 .. total - position - k. */
  function TailNumbers(dstOld: Option<Version>, total: int, position: int, k: int): (r: seq<int>)
    ensures dstOld.Some? ==> r == Range(1, total - position - k)
    ensures dstOld.None? ==> r == []
  {
    if dstOld.Some? then Range(1, total - position - k) else []
  }

  /** Every page number the three blocks read is a page of the version
      it is read from. */
  predicate MultiTextsDefined(srcOld: Version, dstOld: Option<Version>, total: int, position: int, pageNumbers: seq<int>)
  {
    AllIn(FrontNumbers(dstOld, position), |OldTexts(dstOld)|)
    && AllIn(MiddleNumbers(position, pageNumbers), |srcOld.texts|)
    && AllIn(TailNumbers(dstOld, total, position, |pageNumbers|), |OldTexts(dstOld)|)
  }

  /** The streams of the three blocks, in order. */
  function MultiTexts(srcOld: Version, dstOld: Option<Version>, total: int, position: int, pageNumbers: seq<int>): (r: seq<string>)
    requires MultiTextsDefined(srcOld, dstOld, total, position, pageNumbers)
    ensures |r| == |FrontNumbers(dstOld, position)| + |MiddleNumbers(position, pageNumbers)|
      + |TailNumbers(dstOld, total, position, |pageNumbers|)|
  {
    Select(OldTexts(dstOld), FrontNumbers(dstOld, position))
    + Select(srcOld.texts, MiddleNumbers(position, pageNumbers))
    + Select(OldTexts(dstOld), TailNumbers(dstOld, total, position, |pageNumbers|))
  }

  /** `reuse_text_field_multi(...)`: the new destination's texts become
      the three blocks' streams in order; `total` is the new destination's
      page count before the update. A number that is not a page raises
      KeyError. */
  method ReuseTextFieldMulti(
    srcOld: Version, dstOld: Option<Version>, dstNew: Version,
    position: int, pageNumbers: seq<int>)
    returns (r: Result<Version>)
    ensures r.Ok? <==> MultiTextsDefined(srcOld, dstOld, |dstNew.texts|, position, pageNumbers)
    ensures r.Err? ==> r.error == KeyError
    ensures r.Ok? ==> r.value == UpdateTextField(dstNew, MultiTexts(srcOld, dstOld, |dstNew.texts|, position, pageNumbers))
  {
    var total := |dstNew.texts|;
    var front := FrontNumbers(dstOld, position);
    var middle := MiddleNumbers(position, pageNumbers);
    var tail := TailNumbers(dstOld, total, position, |pageNumbers|);
    var streams: seq<string> := [];
    if position >= 1 && dstOld.Some? {
      var s := CollectTextStreams(dstOld.value, front);
      if s.Err? {
        return Err(s.error);
      }
      streams := streams + s.value;
    } else {
      assert Select(OldTexts(dstOld), front) == [];
    }
    var s := CollectTextStreams(srcOld, middle);
    if s.Err? {
      return Err(s.error);
    }
    streams := streams + s.value;
    if dstOld.Some? {
      var t := CollectTextStreams(dstOld.value, tail);
      if t.Err? {
        return Err(t.error);
      }
      streams := streams + t.value;
    } else {
      assert Select(OldTexts(dstOld), tail) == [];
      streams := streams + [];
    }
    assert streams == MultiTexts(srcOld, dstOld, total, position, pageNumbers);
    r := Ok(UpdateTextField(dstNew, streams));
  }

  /** At position 0 without an old destination (the only call
      `partial_merge` makes) the streams are exactly the source texts of
      the page numbers, in their order; with an old destination whose new
      version has room for both, they are followed by all of the old
      destination's texts. */
  lemma MultiTextsAtStart(srcOld: Version, dstOld: Option<Version>, total: int, pageNumbers: seq<int>)
    requires dstOld.Some? ==> total == |dstOld.value.texts| + |pageNumbers|
    ensures MultiTextsDefined(srcOld, dstOld, total, 0, pageNumbers) <==> AllIn(pageNumbers, |srcOld.texts|)
    ensures MultiTextsDefined(srcOld, dstOld, total, 0, pageNumbers) ==>
      MultiTexts(srcOld, dstOld, total, 0, pageNumbers)
      == Select(srcOld.texts, pageNumbers) + OldTexts(dstOld)
  {
    SelectAll(OldTexts(dstOld));
    if MultiTextsDefined(srcOld, dstOld, total, 0, pageNumbers) {
      var streams := MultiTexts(srcOld, dstOld, total, 0, pageNumbers);
      assert Select(OldTexts(dstOld), FrontNumbers(dstOld, 0)) == [];
      if dstOld.Some? {
        assert TailNumbers(dstOld, total, 0, |pageNumbers|) == Range(1, |OldTexts(dstOld)|);
      } else {
        assert Select(OldTexts(dstOld), TailNumbers(dstOld, total, 0, |pageNumbers|)) == [];
      }
    }
  }

  /** Away from position 0 the middle and last blocks drift: with an old
      destination of d pages, a position in 1 .. d and k >= 1 inserted
      pages, fewer streams than the new version's d + k pages are handed
      over, and the last block restarts at old page 1 instead of at page
      `position + 1`. */
  lemma MultiTextsShortfall(dstOld: Version, position: int, pageNumbers: seq<int>)
    requires 1 <= position <= |dstOld.texts|
    requires |pageNumbers| >= 1
    ensures var total := |dstOld.texts| + |pageNumbers|;
      var tail := TailNumbers(Some(dstOld), total, position, |pageNumbers|);
      |FrontNumbers(Some(dstOld), position)| + |MiddleNumbers(position, pageNumbers)| + |tail| < total
      && (|tail| > 0 ==> tail[0] == 1)
  {
  }

  /** The consequence of the shortfall: the new destination's last page
      is paired with no stream, so it keeps the text its record had, and
      the version keeps one text per page. */
  lemma MultiTextsLastPageKept(srcOld: Version, dstOld: Version, dstNew: Version, position: int, pageNumbers: seq<int>)
    requires 1 <= position <= |dstOld.texts|
    requires |pageNumbers| >= 1
    requires |dstNew.texts| == |dstOld.texts| + |pageNumbers|
    requires MultiTextsDefined(srcOld, Some(dstOld), |dstNew.texts|, position, pageNumbers)
    ensures var r := UpdateTextField(dstNew, MultiTexts(srcOld, Some(dstOld), |dstNew.texts|, position, pageNumbers));
      r.texts[|r.texts| - 1] == dstNew.texts[|dstNew.texts| - 1]
      && (WellFormed(dstNew) ==> WellFormed(r))
  {
    var total := |dstNew.texts|;
    var streams := MultiTexts(srcOld, Some(dstOld), total, position, pageNumbers);
    MultiTextsShortfall(dstOld, position, pageNumbers);
    assert |streams| < total;
    var r := UpdateTextField(dstNew, streams);
    assert r.texts[total - 1] == dstNew.texts[total - 1];
  }
}
