/** The entities the page-mutation engine reads and writes: PDF pages, the
    document version that owns a PDF file and its page texts, and the
    storage that holds each page's OCR artifacts. */
module Documents {
  import opened Common

  type DocId = nat

  /** A version's `document_path`: the root under which its PDF file and
      its per-page artifacts are addressed. */
  type DocPath = string

  /** One PDF page: where it came from (document path and 1-based number
      there) and its current rotation in degrees. */
  datatype Page = Page(origin: DocPath, number: int, rotation: int)

  /** A document version. `file` is the saved PDF; `texts[n - 1]` is the
      text of page record n (`pages.all()`, numbered 1 .. |texts|, so
      `pages.count()` is |texts|); `pageCount` is the stored `page_count`
      attribute; `text` is the aggregated full text. */
  datatype Version = Version(
    document: DocId,
    path: DocPath,
    file: seq<Page>,
    pageCount: int,
    texts: seq<string>,
    text: string)

  /** PDF file, page records and page count agree. */
  predicate WellFormed(v: Version)
  {
    |v.file| == |v.texts| == v.pageCount
  }

  function Concat(streams: seq<string>): string
  {
    if streams == [] then "" else Concat(streams[..|streams| - 1]) + streams[|streams| - 1]
  }

  /** `version.update_text_field(streams)`: the version's page records
      are paired with the streams in order, as `zip` pairs them; each
      paired page takes its stream as text, a page without a stream keeps
      its text, and surplus streams are dropped. The aggregate text is
      rebuilt from the streams that were paired. */
  function UpdateTextField(v: Version, streams: seq<string>): (r: Version)
    ensures |r.texts| == |v.texts|
    ensures forall i :: 0 <= i < |v.texts| ==>
      r.texts[i] == if i < |streams| then streams[i] else v.texts[i]
    ensures r.text == Concat(streams[..Paired(v, streams)])
    ensures r.document == v.document && r.path == v.path
    ensures r.file == v.file && r.pageCount == v.pageCount
    ensures WellFormed(v) ==> WellFormed(r)
  {
    var m := Paired(v, streams);
    v.(texts := streams[..m] + v.texts[m..], text := Concat(streams[..m]))
  }

  /** How many pages `zip` pairs with a stream. */
  function Paired(v: Version, streams: seq<string>): (m: nat)
    ensures m <= |v.texts| && m <= |streams|
    ensures m == |v.texts| || m == |streams|
  {
    if |streams| < |v.texts| then |streams| else |v.texts|
  }

  /** One stream per page: every page text is replaced, in order, and the
      aggregate text is made of all the streams. */
  lemma UpdateTextFieldFull(v: Version, streams: seq<string>)
    requires |streams| == |v.texts|
    ensures UpdateTextField(v, streams).texts == streams
    ensures UpdateTextField(v, streams).text == Concat(streams)
  {
    var r := UpdateTextField(v, streams);
    assert streams[..Paired(v, streams)] == streams;
    assert forall i :: 0 <= i < |streams| ==> r.texts[i] == streams[i];
  }

  /** Updating twice with the same streams is updating once. */
  lemma UpdateTextFieldIdempotent(v: Version, streams: seq<string>)
    ensures UpdateTextField(UpdateTextField(v, streams), streams) == UpdateTextField(v, streams)
  {
    var once := UpdateTextField(v, streams);
    var twice := UpdateTextField(once, streams);
    assert Paired(once, streams) == Paired(v, streams);
    assert twice.texts == once.texts by {
      forall i | 0 <= i < |once.texts| ensures twice.texts[i] == once.texts[i] {
      }
    }
  }

  /** Saving a PDF as the file of a version. */
  function Save(v: Version, pdf: seq<Page>): (r: Version)
    ensures r.file == pdf
    ensures r.document == v.document && r.path == v.path
    ensures r.pageCount == v.pageCount && r.texts == v.texts && r.text == v.text
  {
    v.(file := pdf)
  }

  // ---------------------------------------------------------------------
  // Per-page artifact storage

  /** `PagePath(document_path, page_num)`. */
  datatype PagePath = PagePath(documentPath: DocPath, pageNum: int)

  type Artifact = string

  /** The physical OCR artifacts, keyed by page address. */
  type Store = map<PagePath, Artifact>

  /** One `storage.copy_page(src=..., dst=...)` call. */
  datatype Copy = Copy(src: PagePath, dst: PagePath)

  function Lookup(store: Store, p: PagePath): Option<Artifact>
  {
    if p in store then Some(store[p]) else None
  }

  /** The effect of one copy: afterwards `dst` holds what `src` held; no
      other address changes. What `copy_page` does when `src` holds
      nothing is not shown by this source; the model chooses that `dst`
      then holds nothing either, so that `dst` always mirrors `src`. */
  function CopyPage(store: Store, c: Copy): (r: Store)
    ensures Lookup(r, c.dst) == Lookup(store, c.src)
    ensures forall p :: p != c.dst ==> Lookup(r, p) == Lookup(store, p)
  {
    if c.src in store then store[c.dst := store[c.src]] else store - {c.dst}
  }

  /** The effect of a sequence of copies issued in order. */
  function ApplyCopies(store: Store, calls: seq<Copy>): Store
  {
    if calls == [] then store
    else CopyPage(ApplyCopies(store, calls[..|calls| - 1]), calls[|calls| - 1])
  }

  function Destinations(calls: seq<Copy>): (r: seq<PagePath>)
    ensures |r| == |calls|
    ensures forall i :: 0 <= i < |calls| ==> r[i] == calls[i].dst
  {
    seq(|calls|, i requires 0 <= i < |calls| => calls[i].dst)
  }

  /** No copy reads an address that some copy of the batch writes. */
  predicate SourcesUntouched(calls: seq<Copy>)
  {
    forall i, j :: 0 <= i < |calls| && 0 <= j < |calls| ==> calls[i].src != calls[j].dst
  }

  /** After a batch of copies with distinct destinations whose sources
      none of them overwrite, every destination mirrors its source and
      every other address is unchanged. */
  lemma {:induction false} ApplyCopiesMirror(store: Store, calls: seq<Copy>)
    requires Distinct(Destinations(calls))
    requires SourcesUntouched(calls)
    ensures forall i :: 0 <= i < |calls| ==>
      Lookup(ApplyCopies(store, calls), calls[i].dst) == Lookup(store, calls[i].src)
    ensures forall p :: p !in Destinations(calls) ==>
      Lookup(ApplyCopies(store, calls), p) == Lookup(store, p)
  {
    if calls != [] {
      var prefix, last := calls[..|calls| - 1], calls[|calls| - 1];
      assert Destinations(prefix) == Destinations(calls)[..|calls| - 1];
      ApplyCopiesMirror(store, prefix);
      var mid := ApplyCopies(store, prefix);
      assert Lookup(mid, last.src) == Lookup(store, last.src) by {
        assert last.src !in Destinations(prefix) by {
          forall j | 0 <= j < |prefix| ensures prefix[j].dst != last.src {
            assert calls[j].dst != calls[|calls| - 1].src;
          }
        }
      }
      forall p | p !in Destinations(calls)
        ensures Lookup(ApplyCopies(store, calls), p) == Lookup(store, p)
      {
        assert p != calls[|calls| - 1].dst;
        assert p !in Destinations(prefix);
      }
    }
  }

  /** Copies issued one after the other compose. */
  lemma {:induction false} ApplyCopiesAppend(store: Store, a: seq<Copy>, b: seq<Copy>)
    ensures ApplyCopies(store, a + b) == ApplyCopies(ApplyCopies(store, a), b)
    decreases |b|
  {
    if b == [] {
      assert a + b == a;
    } else {
      assert (a + b)[..|a + b| - 1] == a + b[..|b| - 1];
      ApplyCopiesAppend(store, a, b[..|b| - 1]);
    }
  }
}
