/**
 The file-name scheme of the parse step and its inverse in the upload step.
 Every artefact of a document is named after the document's stem `doc`:
   `{doc}-page-{p}.png`, `{doc}-table-{k}.csv`, `{doc}-table-{k}.html`,
   `{doc}-picture-{k}.png`, `{doc}_chunks.json`, `{doc}-with-images.md`,
 and the (computed but never written) `{doc}-table-{k}.png`.
 The upload step recovers `doc` from a stem by `split('-table')[0]` for
 tables and `split('-page')[0].split('-picture')[0]` for images.
 */
module Naming {
  import opened Text

  const PageMarker := "-page"
  const TableMarker := "-table"
  const PictureMarker := "-picture"

  function PageStem(doc: string, pageNo: nat): string
  {
    doc + "-page-" + NatToString(pageNo)
  }

  function TableStem(doc: string, k: nat): string
  {
    doc + "-table-" + NatToString(k)
  }

  function PictureStem(doc: string, k: nat): string
  {
    doc + "-picture-" + NatToString(k)
  }

  /** `{doc}-page-{p}.png`; the character after the document and the last
      character tell the artefact kinds apart. */
  function PageImageName(doc: string, pageNo: nat): (r: string)
    ensures StartsWith(r, doc) && |r| > |doc| + 2
    ensures r[|doc| + 1] == 'p' && r[|doc| + 2] == 'a' && r[|r| - 1] == 'g'
  {
    PageStem(doc, pageNo) + ".png"
  }

  /** `{doc}-table-{k}.png`, the name the table image was meant to get. */
  function TableImageName(doc: string, k: nat): (r: string)
    ensures StartsWith(r, doc) && |r| > |doc| + 2
    ensures r[|doc| + 1] == 't' && r[|r| - 1] == 'g'
  {
    TableStem(doc, k) + ".png"
  }

  function TableCsvName(doc: string, k: nat): (r: string)
    ensures StartsWith(r, doc) && |r| > |doc| + 2
    ensures r[|r| - 1] == 'v'
  {
    TableStem(doc, k) + ".csv"
  }

  function TableHtmlName(doc: string, k: nat): (r: string)
    ensures StartsWith(r, doc) && |r| > |doc| + 2
    ensures r[|r| - 1] == 'l'
  {
    TableStem(doc, k) + ".html"
  }

  function PictureImageName(doc: string, k: nat): (r: string)
    ensures StartsWith(r, doc) && |r| > |doc| + 2
    ensures r[|doc| + 1] == 'p' && r[|doc| + 2] == 'i' && r[|r| - 1] == 'g'
  {
    PictureStem(doc, k) + ".png"
  }

  function ChunksJsonName(doc: string): (r: string)
    ensures StartsWith(r, doc) && |r| > |doc| + 2
    ensures r[|r| - 1] == 'n'
  {
    doc + "_chunks.json"
  }

  function MarkdownName(doc: string): (r: string)
    ensures StartsWith(r, doc) && |r| > |doc| + 2
    ensures r[|r| - 1] == 'd'
  {
    doc + "-with-images.md"
  }

  /** `Path(table_csv_path).stem.split('-table')[0]` */
  function TableDocName(stem: string): string
  {
    SplitHead(stem, TableMarker)
  }

  /** `Path(image_path).stem.split('-page')[0].split('-picture')[0]` */
  function ImageDocName(stem: string): string
  {
    SplitHead(SplitHead(stem, PageMarker), PictureMarker)
  }

  /** `f"{doc_filename}.pdf"` */
  function PdfFileName(doc: string): string
  {
    doc + ".pdf"
  }

  // ---------------------------------------------------------------------
  // numbering is injective

  lemma MiddleInjective(a: string, x: string, y: string, c: string)
    requires a + x + c == a + y + c
    ensures x == y
  {
    assert |x| == |y|;
    assert x == (a + x + c)[|a|..|a| + |x|];
    assert y == (a + y + c)[|a|..|a| + |y|];
  }

  /** Distinct counters give distinct table CSV, HTML and image names. */
  lemma TableNamesInjective(doc: string, a: nat, b: nat)
    ensures TableCsvName(doc, a) == TableCsvName(doc, b) ==> a == b
    ensures TableHtmlName(doc, a) == TableHtmlName(doc, b) ==> a == b
    ensures TableImageName(doc, a) == TableImageName(doc, b) ==> a == b
  {
    var na, nb := NatToString(a), NatToString(b);
    if TableCsvName(doc, a) == TableCsvName(doc, b) {
      assert doc + "-table-" + na + ".csv" == (doc + "-table-") + na + ".csv";
      assert doc + "-table-" + nb + ".csv" == (doc + "-table-") + nb + ".csv";
      MiddleInjective(doc + "-table-", na, nb, ".csv");
      NatToStringInjective(a, b);
    }
    if TableHtmlName(doc, a) == TableHtmlName(doc, b) {
      MiddleInjective(doc + "-table-", na, nb, ".html");
      NatToStringInjective(a, b);
    }
    if TableImageName(doc, a) == TableImageName(doc, b) {
      MiddleInjective(doc + "-table-", na, nb, ".png");
      NatToStringInjective(a, b);
    }
  }

  /** Distinct counters give distinct picture names; distinct page numbers
      give distinct page image names. */
  lemma ImageNamesInjective(doc: string, a: nat, b: nat)
    ensures PictureImageName(doc, a) == PictureImageName(doc, b) ==> a == b
    ensures PageImageName(doc, a) == PageImageName(doc, b) ==> a == b
  {
    var na, nb := NatToString(a), NatToString(b);
    if PictureImageName(doc, a) == PictureImageName(doc, b) {
      MiddleInjective(doc + "-picture-", na, nb, ".png");
      NatToStringInjective(a, b);
    }
    if PageImageName(doc, a) == PageImageName(doc, b) {
      MiddleInjective(doc + "-page-", na, nb, ".png");
      NatToStringInjective(a, b);
    }
  }

  // ---------------------------------------------------------------------
  // recovering the document from a stem

  lemma MarkersAreHeadUnique()
    ensures HeadIsUnique(PageMarker) && HeadIsUnique(TableMarker) && HeadIsUnique(PictureMarker)
  {
  }

  /** Round trip: a document name free of "-table" comes back from its table stems. */
  lemma TableDocNameRoundTrip(doc: string, k: nat)
    requires !Contains(doc, TableMarker)
    ensures TableDocName(TableStem(doc, k)) == doc
  {
    var tail := "-table-" + NatToString(k);
    assert TableStem(doc, k) == doc + tail;
    assert tail[..|TableMarker|] == TableMarker;
    MarkersAreHeadUnique();
    SplitHeadOfJoin(doc, tail, TableMarker);
  }

  /** Round trip for page images. */
  lemma PageDocNameRoundTrip(doc: string, pageNo: nat)
    requires !Contains(doc, PageMarker) && !Contains(doc, PictureMarker)
    ensures ImageDocName(PageStem(doc, pageNo)) == doc
  {
    var tail := "-page-" + NatToString(pageNo);
    assert PageStem(doc, pageNo) == doc + tail;
    assert tail[..|PageMarker|] == PageMarker;
    MarkersAreHeadUnique();
    SplitHeadOfJoin(doc, tail, PageMarker);
    SplitHeadAbsent(doc, PictureMarker);
  }

  /** "-picture-" followed by digits never contains "-page". */
  lemma PictureTailLacksPageMarker(digits: string)
    requires AllDigits(digits)
    ensures !Contains("-picture-" + digits, PageMarker)
  {
    var t := "-picture-" + digits;
    forall i: nat | i <= |t| ensures !OccursAt(t, PageMarker, i) {
      if i + 5 <= |t| {
        if i == 0 {
          assert t[2] == 'i';
          assert t[i..i + 5][2] != PageMarker[2];
        } else if i < 8 {
          assert t[i] != '-';
          assert t[i..i + 5][0] != PageMarker[0];
        } else if i == 8 {
          assert IsDigit(digits[0]) && t[9] == digits[0];
          assert t[i..i + 5][1] != PageMarker[1];
        } else {
          assert t[i] == digits[i - 9];
          assert t[i..i + 5][0] != PageMarker[0];
        }
      }
    }
  }

  /** Round trip for picture images. */
  lemma PictureDocNameRoundTrip(doc: string, k: nat)
    requires !Contains(doc, PageMarker) && !Contains(doc, PictureMarker)
    ensures ImageDocName(PictureStem(doc, k)) == doc
  {
    var tail := "-picture-" + NatToString(k);
    assert PictureStem(doc, k) == doc + tail;
    assert tail[..|PictureMarker|] == PictureMarker;
    MarkersAreHeadUnique();
    PictureTailLacksPageMarker(NatToString(k));
    NotContainsJoin(doc, tail, PageMarker);
    SplitHeadAbsent(doc + tail, PageMarker);
    SplitHeadOfJoin(doc, tail, PictureMarker);
  }
}
