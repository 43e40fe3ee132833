# Page operations and listing helpers of papermerge-core, in Dafny

This project models the document-version page engine of papermerge-core
(`papermerge/core/views/utils.py`) and the request helpers of its node
listing views (`papermerge/core/views/nodes.py`), and proves properties of
that model.

A document version is a value: its document, its storage path, its PDF file
(a list of pages), its page count, the texts of its pages, and the
concatenated text. The storage of per-page OCR artifacts is a map from page
paths to artifacts. `copy_page` makes the destination hold what the source
holds.

The engine covers the following:

- **The position map** (`PageRecycleMap`). It pairs each surviving page of
  a deletion with its new number. It is a class whose iterator state is
  consumed by `Next`.
- **PDF page operations.** Page removal, insertion, reordering and rotation
  act on the page list. They fail with IndexError where the PDF library
  raises.
- **Side data.** These operations carry OCR artifacts and page texts from
  old versions to new ones: `collect_text_streams`, `reuse_ocr_data`,
  `reuse_text_field`, `copy_pages_data_multi` and `reuse_text_field_multi`.
- **Merges.** `total_merge` and `partial_merge` chain the steps above.
- **The metadata filter.** `sanitize_kvstore` and `sanitize_kvstore_list`
  keep only the allowed keys and escape every value that is not a boolean.

The view helpers are:

- reading the page number from a request;
- the window of page links;
- the ordering of a listing;
- the cache key of a user's readable nodes.

Modules:

| file | module | models |
|---|---|---|
| common.dfy | Common | exceptions, `Result`, `Option`, 1-based page selection |
| recycle_map.dfy | RecycleMap | `PageRecycleMap` |
| documents.dfy | Documents | versions, page paths, the artifact store, `copy_page` |
| pdf_edit.dfy | PdfEdit | `remove_pdf_pages`, `insert_pdf_pages` |
| pdf_reorder.dfy | PdfReorder | `reorder_pdf_pages` |
| pdf_rotate.dfy | PdfRotate | `rotate_pdf_pages` |
| side_data.dfy | SideData | text streams, OCR and text reuse, `copy_pages_data_multi`, `reuse_text_field_multi` |
| merge.dfy | Merge | `total_merge`, `partial_merge` |
| kvstore.dfy | KvStore | `sanitize_kvstore`, `sanitize_kvstore_list` |
| decimal.dfy | Decimal | `int()` on decimal text, integers in f-strings |
| nodes.dfy | Nodes | `_get_page_number`, `_get_pagination_dict`, `_order_by`, `_get_nodes_perms_key` |

The model keeps several behaviours of the code that look unintended:

- Removal is correct only for ascending page numbers.
- The first copy of `copy_pages_data_multi` sits after its loop.
- The middle range of `reuse_text_field_multi` and its tail numbering are
  right only at position 0.
- `reorder_pdf_pages` ignores `page_count`.
- `PageRecycleMap` accepts deleted numbers outside 1 .. total.

Each of these has a lemma that exhibits it.

## Model

| member | source | states |
|---|---|---|
| RecycleMap.PageRecycleMap.constructor | papermerge/core/views/utils.py:108-116 | stores `total` and `deleted`; the items still to yield are the numbered survivors `Items(total, deleted)` |
| RecycleMap.PageRecycleMap.Next | papermerge/core/views/utils.py:121-126 | yields the first remaining item and drops it; yields nothing once the map is exhausted, which stays exhausted |
| RecycleMap.Create | papermerge/core/views/utils.py:101-116 | ValueError exactly when `total < len(deleted)`; otherwise a fresh map whose items are `Items(total, deleted)` |
| RecycleMap.Drain | papermerge/core/views/utils.py:118-126 | `list(map)` returns every remaining item in order and leaves the map exhausted |
| RecycleMap.SurvivorsIn | papermerge/core/views/utils.py:111-114 | at most as many survivors as the range holds, each inside the range (that none is deleted is RecycleMap.SurvivorsMembers) |
| RecycleMap.Survivors | papermerge/core/views/utils.py:111-114 | at most `total` survivors, each in 1 .. total (that none is deleted is RecycleMap.SurvivorsMembers) |
| RecycleMap.Items | papermerge/core/views/utils.py:111-116 | one item per survivor |
| RecycleMap.SurvivorsMembers | papermerge/core/views/utils.py:111-114 | a page survives iff it lies in the range and is not deleted |
| RecycleMap.SurvivorsAscending | papermerge/core/views/utils.py:111-114 | the survivors are strictly ascending |
| RecycleMap.SurvivorsCount | papermerge/core/views/utils.py:111-114 | distinct deleted pages inside the range leave exactly (range size − deleted count) survivors |
| RecycleMap.SurvivorsDeleteNext | papermerge/core/views/utils.py:111-114 | deleting one more page x, above all earlier ones, removes x from the survivors at position x − (earlier count) |
| RecycleMap.ItemsShape | papermerge/core/views/utils.py:111-116 | new numbers run 1, 2, …; the old numbers are the survivors, ascending, and p is an old number iff 1 ≤ p ≤ total and p is not deleted |
| RecycleMap.ItemsCount | papermerge/core/views/utils.py:111-116 | distinct deleted pages within 1 .. total give total − len(deleted) items |
| RecycleMap.OutOfRangeDeletedIgnored | papermerge/core/views/utils.py:105-114 | deleted numbers outside 1 .. total pass the check and delete nothing |
| RecycleMap.DocumentedExamples | papermerge/core/views/utils.py:72-98 | the three examples of the class documentation hold |
| Documents.UpdateTextField | papermerge/core/views/utils.py:230-231 | page i takes stream i for every i below both the page count and the stream count; the remaining pages keep their texts and surplus streams are dropped; the version text is built from the paired streams; the page count, the file and the identity are unchanged, so a well-formed version stays well-formed |
| Documents.UpdateTextFieldFull | papermerge/core/views/utils.py:230-231 | with one stream per page, the page texts are exactly the streams and the version text is their concatenation |
| Documents.UpdateTextFieldIdempotent | papermerge/core/views/utils.py:230-231 | updating twice with the same streams is updating once |
| Documents.Save | papermerge/core/views/utils.py:305 | the target version's file becomes the saved PDF; nothing else changes |
| Documents.CopyPage | papermerge/core/views/utils.py:167 | the destination then holds what the source held, and every other address is unchanged |
| Documents.ApplyCopiesMirror | papermerge/core/views/utils.py:205-220 | for copies with distinct destinations, none of which is a source, every destination ends up holding its source's artifacts and every other address is unchanged |
| Documents.ApplyCopiesAppend | papermerge/core/views/utils.py:147-202 | issuing two batches of copies in turn is issuing their concatenation |
| PdfEdit.PageAt | papermerge/core/views/utils.py:348 | `pages.p(n)` is the n-th page (1-based); IndexError outside 1 .. len |
| PdfEdit.RemovePage | papermerge/core/views/utils.py:298 | `pages.remove(p=n)` drops the n-th page and keeps the rest in order; IndexError outside 1 .. len |
| PdfEdit.InsertPage | papermerge/core/views/utils.py:349 | `pages.insert(i, page)` places the page before index i (0-based); IndexError outside 0 .. len |
| PdfEdit.RemovePdfPages | papermerge/core/views/utils.py:279-305 | the result is the removal loop's, shifted by the count already removed, saved into the new version; the only error is IndexError |
| PdfEdit.RemoveInOrder | papermerge/core/views/utils.py:296-299 | the loop fails only with IndexError, and on success the PDF has lost one page per number |
| PdfEdit.RemoveStopsAtError | papermerge/core/views/utils.py:297-299 | the first failing removal ends the loop with that error |
| PdfEdit.RemoveAscending | papermerge/core/views/utils.py:296-299 | for strictly ascending page numbers inside the PDF, the loop keeps exactly the survivor pages, in order |
| PdfEdit.RemoveDescendingDrift | papermerge/core/views/utils.py:296-299 | with descending input `[3, 2]` on four pages, the loop removes pages 3 and 1, not 3 and 2 |
| PdfEdit.InsertPdfPages | papermerge/core/views/utils.py:308-358 | without an old destination, succeeds iff every number is a source page and yields those pages in order; with one and a position inside it, the pages form one block at that position; the only error is IndexError |
| PdfEdit.InsertInOrder | papermerge/core/views/utils.py:346-350 | the loop fails only with IndexError, and on success the PDF has gained one page per number |
| PdfEdit.InsertStopsAtError | papermerge/core/views/utils.py:347-350 | the first failing fetch or insertion ends the loop with that error |
| PdfEdit.InsertDefined | papermerge/core/views/utils.py:346-350 | the insertion loop succeeds iff there is nothing to insert, or the position is in 0 .. len and every number is a source page; the PDF grows by one page per number |
| PdfEdit.InsertValue | papermerge/core/views/utils.py:346-350 | at a position inside the PDF, the selected pages appear in list order as one block at that position |
| PdfEdit.InsertBlock | papermerge/core/views/utils.py:346-350 | the two facts above together |
| PdfReorder.SortByNew | papermerge/core/views/utils.py:464 | the sorted list has as many entries as the given one |
| PdfReorder.SortByNewSpec | papermerge/core/views/utils.py:464 | the sort yields the same entries, ordered by new number |
| PdfReorder.SortedOldsAllIn | papermerge/core/views/utils.py:464-467 | the sorted list fetches only valid pages iff the given list does |
| PdfReorder.Reordered | papermerge/core/views/utils.py:464-468 | the result has one page per entry |
| PdfReorder.ReorderedPlace | papermerge/core/views/utils.py:464-468 | for a renumbering of all n pages, page `new_number` of the result is the old page `old_number` of that entry |
| PdfReorder.ReorderedPlaces | papermerge/core/views/utils.py:464-468 | the same, for every entry at once |
| PdfReorder.ReorderRoundTrip | papermerge/core/views/utils.py:455-474 | reordering by a permutation and then by its inverse gives the original pages back |
| PdfReorder.ReorderPdfPages | papermerge/core/views/utils.py:455-474 | succeeds iff every old number is a page; the only error is IndexError; the new version's file is the pages appended in new-number order; `page_count` plays no part |
| PdfRotate.RotatePdfPages | papermerge/core/views/utils.py:477-498 | succeeds iff every number is a page; the only error is IndexError; each page turns by the sum of the angles listed for it; the result is saved into the new version |
| PdfRotate.AngleSum | papermerge/core/views/utils.py:490-492 | when every angle listed for a page is a multiple of 90, so is the page's total turn |
| PdfRotate.Rotated | papermerge/core/views/utils.py:490-492 | rotation keeps the number of pages |
| PdfRotate.RotateRoundTrip | papermerge/core/views/utils.py:490-492 | rotating by the negated angles undoes a rotation |
| PdfRotate.AngleSumUnlisted | papermerge/core/views/utils.py:490-492 | a page not listed turns by 0 |
| PdfRotate.RotatedKeepsPages | papermerge/core/views/utils.py:490-492 | rotation keeps the page count and leaves unlisted pages unchanged |
| SideData.PagesMap | papermerge/core/views/utils.py:137 | the map's keys are exactly 1 .. len, and key n maps to the text of page n |
| SideData.CollectTextStreams | papermerge/core/views/utils.py:136-144 | succeeds iff every number is a page; then yields those pages' texts in list order; otherwise KeyError |
| SideData.ReuseOcrData | papermerge/core/views/utils.py:205-220 | issues one copy (old page → new page) per map item, in order, and the store is the result of those copies |
| SideData.OcrCopies | papermerge/core/views/utils.py:208-220 | copy i reads old page `old_number` of item i and writes new page `new_number` of item i |
| SideData.ReuseOcrRecycled | papermerge/core/views/utils.py:205-220 | with the recycle map of a deletion, new page n gets the artifacts of the n-th surviving old page, and nothing else changes |
| SideData.ReuseTextField | papermerge/core/views/utils.py:223-231 | succeeds iff every old number of the map is a page (else KeyError); then the new version's texts are the old texts at those numbers |
| SideData.ReuseTextRecycled | papermerge/core/views/utils.py:223-228 | for a recycle map, the old numbers read are the survivors, all pages of the old version |
| SideData.CopyFrontBlock | papermerge/core/views/utils.py:155-167 | the first block issues a single copy, page `position` to page `position`, after its loop |
| SideData.CopyInsertedBlock | papermerge/core/views/utils.py:169-183 | source page `page_numbers[i]` is copied to destination page `position + 1 + i`, in order |
| SideData.CopyShiftedBlock | papermerge/core/views/utils.py:185-202 | old destination page `pos > position` is copied to page `pos + len(page_numbers)`, in order |
| SideData.FrontCopies | papermerge/core/views/utils.py:155-167 | the first block issues one copy when position ≥ 1 and none otherwise |
| SideData.InsertedCopies | papermerge/core/views/utils.py:169-183 | one copy per page number, source page `page_numbers[i]` to destination page `position + 1 + i` |
| SideData.ShiftedCopies | papermerge/core/views/utils.py:185-202 | one copy per old destination page after `position`, page `pos` to page `pos + k` |
| SideData.MultiCopies | papermerge/core/views/utils.py:147-202 | without an old destination, one copy per page number; with one, the front copy, one per page number and one per shifted page |
| SideData.CopyPagesDataMulti | papermerge/core/views/utils.py:147-202 | AttributeError iff position ≥ 1 and there is no old destination, with the store untouched; otherwise the three blocks in order, applied to the store |
| SideData.MultiCopiesAddresses | papermerge/core/views/utils.py:155-202 | copy j writes destination page `position + 1 − f + j`, and reads the right source for its block |
| SideData.MultiCopiesMirror | papermerge/core/views/utils.py:147-202 | with three distinct paths, every written page holds its source's artifacts and every other address is unchanged |
| SideData.MultiCopiesInsertedLand | papermerge/core/views/utils.py:169-183 | new destination page `position + 1 + i` holds source page `page_numbers[i]`'s artifacts |
| SideData.MultiCopiesShiftedLand | papermerge/core/views/utils.py:155-202 | old destination page `pos > position` lands on `pos + k`, and page `position` on itself |
| SideData.MultiCopiesUnwritten | papermerge/core/views/utils.py:155-167 | destination pages below `position` and every other version are left as they were |
| SideData.MultiCopiesAtStart | papermerge/core/views/utils.py:169-183 | at position 0 without an old destination, new page i + 1 gets source page `page_numbers[i]` and no other version changes |
| SideData.MultiCopiesSkipFirstPage | papermerge/core/views/utils.py:155-167 | with position ≥ 2, page 1 of the new destination receives nothing, although the loop walks over it |
| SideData.FrontNumbers | papermerge/core/views/utils.py:241-249 | with an old destination and position ≥ 1, pages 1 .. position of it; otherwise none |
| SideData.MiddleNumbers | papermerge/core/views/utils.py:251-254 | the zip keeps `len(page_numbers) − position` numbers: all at position ≤ 0, none at position ≥ len |
| SideData.TailNumbers | papermerge/core/views/utils.py:262-274 | with an old destination, its pages 1 .. total − position − k; without one, none |
| SideData.MultiTexts | papermerge/core/views/utils.py:241-274 | as many streams as the three blocks read numbers |
| SideData.ReuseTextFieldMulti | papermerge/core/views/utils.py:234-276 | succeeds iff every number read from each block is a page of its version (else KeyError); then the new destination's texts are the front, middle and tail streams in order |
| SideData.MultiTextsAtStart | papermerge/core/views/utils.py:241-276 | at position 0 it succeeds iff every number is a source page, and the texts are the source texts followed by the old destination's texts |
| SideData.MultiTextsShortfall | papermerge/core/views/utils.py:251-267 | at a positive position, the blocks yield fewer texts than the destination has pages, and the tail restarts at old page 1 |
| SideData.MultiTextsLastPageKept | papermerge/core/views/utils.py:241-276 | in that case the new destination's last page is paired with no stream and keeps its text, and a well-formed destination stays well-formed |
| Merge.TotalMerge | papermerge/core/views/utils.py:361-384 | succeeds iff the source's PDF has a page for each numbered page; the destination's file becomes those pages and the source document is deleted; on failure nothing is deleted |
| Merge.AllPageNumbers | papermerge/core/views/utils.py:371 | the numbers of all page records, 1 .. n |
| Merge.PartialMergeKept | papermerge/core/views/utils.py:401-416 | for valid arguments, the kept pages are the survivors; there are n − k of them, the recycle map reads exactly them, and removal yields them |
| Merge.ReduceSource | papermerge/core/views/utils.py:404-428 | for valid arguments the new source holds the kept pages and their texts; when the paths differ, its pages 1 .. n − k hold the kept pages' artifacts and addresses of every other version are unchanged; only ValueError, KeyError or IndexError escape |
| Merge.FillDestination | papermerge/core/views/utils.py:430-452 | for in-range numbers the new destination holds the selected pages and their texts; when it succeeds and the paths differ, its pages 1 .. k hold their artifacts and other versions are unchanged; only KeyError or IndexError escape |
| Merge.PartialMerge | papermerge/core/views/utils.py:387-452 | ValueError with nothing done when the list is not shorter than the page count; for valid arguments it succeeds, the source keeps the unselected pages and the destination receives the selected ones, with texts and artifacts; no storage address outside the two new versions changes, the old source's artifacts included |
| Merge.MergedTexts | papermerge/core/views/utils.py:387-452 | when the new versions have one page record per page they receive, the new source holds exactly the kept texts, the destination exactly the moved texts, and both are well-formed |
| KvStore.SanitizeValue | papermerge/core/views/utils.py:33-36 | booleans are kept; every other value is escaped |
| KvStore.Sanitized | papermerge/core/views/utils.py:13-40 | the keys are exactly the allowed keys present, each value sanitized |
| KvStore.SanitizeKvstore | papermerge/core/views/utils.py:13-40 | the loop over the allowed keys builds exactly that dictionary |
| KvStore.SanitizeKvstoreList | papermerge/core/views/utils.py:43-56 | every dictionary of the list is sanitized, in order, and the length is kept |
| KvStore.SanitizedRestricts | papermerge/core/views/utils.py:28-38 | with an escaper that changes nothing, the filter only restricts the keys |
| KvStore.SanitizedTwice | papermerge/core/views/utils.py:13-40 | filtering again keeps the keys and booleans, and escapes texts once more |
| KvStore.SanitizedDropsUnknown | papermerge/core/views/utils.py:19-38 | a dictionary with no allowed key sanitizes to the empty one |
| Decimal.ParseInt | papermerge/core/views/nodes.py:170 | `int(s)` succeeds iff s is an optional sign followed by digits; otherwise ValueError |
| Decimal.ShowInt | papermerge/core/views/nodes.py:225 | an integer's text starts with '-' iff the integer is negative |
| Decimal.DigitsRoundTrip | papermerge/core/views/nodes.py:170 | reading back the digits of n gives n |
| Decimal.ParseShowInt | papermerge/core/views/nodes.py:170 | `int(str(n)) == n` for every integer |
| Decimal.LeadingZeroValue | papermerge/core/views/nodes.py:170 | a leading zero does not change the number a string of digits denotes |
| Decimal.ParseNonCanonical | papermerge/core/views/nodes.py:170 | `int("0" + str(n))` and `int("+" + str(n))` give n, and `int("-0" + str(n))` gives −n, for every natural n |
| Nodes.GetPageNumber | papermerge/core/views/nodes.py:164-170 | page 1 when the parameter is missing or empty; ValueError exactly when present text is not a number |
| Nodes.GetPageNumberShown | papermerge/core/views/nodes.py:164-170 | a parameter holding the text of n yields n |
| Nodes.GetPageNumberRejects | papermerge/core/views/nodes.py:164-170 | a parameter with a non-digit after the sign yields ValueError |
| Nodes.Window | papermerge/core/views/nodes.py:185-190 | at most seven links, consecutive, all within 1 .. num_pages |
| Nodes.WindowCount | papermerge/core/views/nodes.py:185-190 | seven links past page 4 of a longer listing; otherwise min(num_pages, 6) |
| Nodes.WindowContainsCurrent | papermerge/core/views/nodes.py:185-190 | the current page is linked in every case but page 7 of 7 |
| Nodes.CorrectedWindow | papermerge/core/views/nodes.py:179-190 | at most seven consecutive links within range; all pages when there are at most seven |
| Nodes.CorrectedWindowContainsCurrent | papermerge/core/views/nodes.py:179-190 | the corrected window always links the current page |
| Nodes.CorrectedWindowCount | papermerge/core/views/nodes.py:179-190 | the corrected window links seven pages whenever there are seven |
| Nodes.CorrectedWindowAgrees | papermerge/core/views/nodes.py:185-190 | below seven pages, and past page 4 of a longer listing, the two windows agree |
| Nodes.PaginationDict | papermerge/core/views/nodes.py:173-212 | carries the requested number, the window and the page count; the previous and next numbers are the neighbours, and −1 exactly when there is none |
| Nodes.OrderKey | papermerge/core/views/nodes.py:119-125 | the order key is never empty: "-type" stands in for a missing or empty parameter |
| Nodes.OrderBy | papermerge/core/views/nodes.py:117-147 | the listing is reordered iff the key is one of the six accepted values |
| Nodes.OrderByDefault | papermerge/core/views/nodes.py:119-125 | without a parameter, the order is by type, descending |
| Nodes.OrderByCases | papermerge/core/views/nodes.py:127-145 | each key gives its own ordering: titles lower-cased in both directions, dates and types by column |
| Nodes.ParentText | papermerge/core/views/nodes.py:224 | `parent_id or ''` is empty iff there is no parent or the parent is 0 |
| Nodes.PermsKey | papermerge/core/views/nodes.py:215-227 | the key starts with "user_", has "_parent_id_" right after the user's number and ends with "_readable_nodes" |
| Nodes.PermsKeyFields | papermerge/core/views/nodes.py:215-227 | the user field of a key reads back as the user id, and the parent field is `parent_id or ''` |
| Nodes.PermsKeyInjective | papermerge/core/views/nodes.py:215-227 | equal keys mean the same user and the same parent |
| Nodes.PermsKeyRootAlias | papermerge/core/views/nodes.py:223-225 | no parent and parent 0 share one key |

## Left out

- File I/O is left out: opening and saving PDFs, creating directories, resolving storage paths. A version's `file` field stands for its PDF.
- The PDF library's internals are left out: page objects, negative indices, `Pdf.new()`. A page is its origin, number and rotation.
- PdfRotate.RotatePdfPages: rotation normalisation is left out. The library reduces angles modulo 360 and rejects angles that are not multiples of 90; the model adds angles as integers.
- Documents.CopyPage: the storage backend behind `copy_page` is not part of this source. When the source address holds nothing, the model empties the destination, so that a copy always makes the destination mirror its source. A backend that fails or leaves the destination alone in that case is not modelled.
- Documents.UpdateTextField: the body of `update_text_field` is not part of this source. The model follows the comment at utils.py:230: the version's existing pages are paired with the streams as `zip` pairs them, and the aggregate text is the concatenation of the paired streams. How the real method joins or strips texts, and its database writes, are not modelled.
- Partial failure is not rolled back. When a step of a merge raises, the model returns the error, and the store changes made before it stay in place, as in the code. Database transactions are not part of this model.
- Document deletion in `total_merge` is modelled as removing the document from a set of live documents.
- Merge.PartialMerge: the result is proved only for the arguments of `Merge.MergeArgs`:
  - strictly ascending, in-range page numbers;
  - a well-formed source;
  - three distinct storage paths.
  No caller of `partial_merge` appears in this source, so this restriction is the model's own choice. Removing the pages in any other order drifts (PdfEdit.RemoveDescendingDrift). Outside these arguments the model states only the error kinds.
- Merge.ReduceSource: the same restriction as Merge.PartialMerge.
- Merge.FillDestination: the store facts are stated only when the source and destination paths differ.
- The `isinstance` checks of `PageRecycleMap.__init__` and `sanitize_kvstore_list` are left out, because the parameter types rule them out.
- `escape` is a parameter of the kvstore filter (Django's HTML escaper is not part of this model). Non-boolean values are taken as their text.
- Dictionary order is left out: the sanitized dictionary is a map. Its keys are visited in the order of the allowed list, but the map does not record insertion order.
- Decimal.ParseInt: Python's `int()` also accepts surrounding whitespace, underscores between digits and non-ASCII digits; the model rejects these.
- The paginator is an input. `PaginationDict` takes the page object's number and its has-previous and has-next flags. Django's `Paginator.get_page` clamping is not part of this model.
- Nodes.OrderBy returns the ordering applied, not a query set. The database query is not part of this model.
- Nodes.PermsKey takes the parent id as an optional integer. A parent id given as a string is not modelled.
- The other functions of `nodes.py` are outside this model: view classes, tag filtering, node key-value lookup, the permission cache itself and the search package.
- Deleted numbers outside 1 .. total are not rejected: the code checks only `total < len(deleted)` (utils.py:105), and the model follows it (RecycleMap.OutOfRangeDeletedIgnored).

## Findings

| source | as written | input that shows it | evidently intended | confidence | as-written member | corrected member |
|---|---|---|---|---|---|---|
| papermerge/core/views/nodes.py:185-186 | `range(1, min(num_pages + 1, 7))` links at most pages 1 .. 6 | num_pages = 7, page_number = 7: the window is [1 .. 6] and omits the current page; with more than seven pages and page ≤ 4 it shows six, not seven | the comments at lines 179-180 say every page when there are fewer than seven, and the first seven while the current page is ≤ 4 | not executed | Nodes.WindowContainsCurrent | Nodes.CorrectedWindowContainsCurrent |
