/** `rotate_pdf_pages` (papermerge/core/views/utils.py): listed pages are
    turned relative to their current rotation, in place on an opened copy
    of the old PDF, which is then saved as the new version. */
module PdfRotate {
  import opened Common
  import opened Documents
  import PdfEdit

  /** One entry of `pages_data`: rotate page `number` by `angle` degrees. */
  datatype Rotation = Rotation(number: int, angle: int)

  function Numbers(data: seq<Rotation>): (r: seq<int>)
    ensures |r| == |data|
    ensures forall i :: 0 <= i < |data| ==> r[i] == data[i].number
  {
    seq(|data|, i requires 0 <= i < |data| => data[i].number)
  }

  /** The total angle the entries give to page n. */
  function AngleSum(data: seq<Rotation>, n: int): (r: int)
    ensures (forall i :: 0 <= i < |data| && data[i].number == n ==> data[i].angle % 90 == 0) ==> r % 90 == 0
  {
    if data == [] then 0
    else AngleSum(data[..|data| - 1], n) + (if data[|data| - 1].number == n then data[|data| - 1].angle else 0)
  }

  /** Every page turned by the sum of the angles listed for it. */
  function Rotated(pdf: seq<Page>, data: seq<Rotation>): (r: seq<Page>)
    ensures |r| == |pdf|
  {
    seq(|pdf|, i requires 0 <= i < |pdf| => pdf[i].(rotation := pdf[i].rotation + AngleSum(data, i + 1)))
  }

  /** `rotate_pdf_pages(old_version, new_version, pages_data)`: each
      listed page is turned relative to its current rotation. */
  method RotatePdfPages(oldVersion: Version, newVersion: Version, pagesData: seq<Rotation>)
    returns (r: Result<Version>)
    ensures r.Ok? <==> AllIn(Numbers(pagesData), |oldVersion.file|)
    ensures r.Err? ==> r.error == IndexError
    ensures r.Ok? ==> r.value == Save(newVersion, Rotated(oldVersion.file, pagesData))
  {
    var pdf := oldVersion.file;
    for k := 0 to |pagesData|
      invariant AllIn(Numbers(pagesData)[..k], |pdf|)
      invariant pdf == Rotated(oldVersion.file, pagesData[..k])
    {
      assert pagesData[..k + 1][..k] == pagesData[..k];
      var entry := pagesData[k];
      var page := PdfEdit.PageAt(pdf, entry.number);
      if page.Err? {
        return Err(page.error);
      }
      pdf := pdf[entry.number - 1 := page.value.(rotation := page.value.rotation + entry.angle)];
    }
    assert pagesData[..|pagesData|] == pagesData;
    assert Numbers(pagesData)[..|pagesData|] == Numbers(pagesData);
    r := Ok(Save(newVersion, pdf));
  }

  function Negated(data: seq<Rotation>): (r: seq<Rotation>)
    ensures |r| == |data|
  {
    seq(|data|, i requires 0 <= i < |data| => Rotation(data[i].number, -data[i].angle))
  }

  lemma {:induction false} AngleSumNegated(data: seq<Rotation>, n: int)
    ensures AngleSum(Negated(data), n) == -AngleSum(data, n)
    decreases |data|
  {
    if data != [] {
      assert Negated(data)[..|data| - 1] == Negated(data[..|data| - 1]);
      AngleSumNegated(data[..|data| - 1], n);
    }
  }

  /** Rotating by some angles and then by their negations restores every
      page's orientation. */
  lemma RotateRoundTrip(pdf: seq<Page>, data: seq<Rotation>)
    ensures Rotated(Rotated(pdf, data), Negated(data)) == pdf
  {
    forall i | 0 <= i < |pdf| ensures Rotated(Rotated(pdf, data), Negated(data))[i] == pdf[i] {
      AngleSumNegated(data, i + 1);
    }
  }

  lemma {:induction false} AngleSumUnlisted(data: seq<Rotation>, n: int)
    requires n !in Numbers(data)
    ensures AngleSum(data, n) == 0
    decreases |data|
  {
    if data != [] {
      assert Numbers(data[..|data| - 1]) == Numbers(data)[..|data| - 1];
      AngleSumUnlisted(data[..|data| - 1], n);
    }
  }

  /** Rotation keeps page count, order and page identity; a page that is
      not listed keeps its rotation too. */
  lemma RotatedKeepsPages(pdf: seq<Page>, data: seq<Rotation>)
    ensures |Rotated(pdf, data)| == |pdf|
    ensures forall i :: 0 <= i < |pdf| ==>
      Rotated(pdf, data)[i].origin == pdf[i].origin && Rotated(pdf, data)[i].number == pdf[i].number
    ensures forall i :: 0 <= i < |pdf| && i + 1 !in Numbers(data) ==> Rotated(pdf, data)[i] == pdf[i]
  {
    forall i | 0 <= i < |pdf| && i + 1 !in Numbers(data) ensures Rotated(pdf, data)[i] == pdf[i] {
      AngleSumUnlisted(data, i + 1);
    }
  }
}
