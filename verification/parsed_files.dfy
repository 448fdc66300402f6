/**
 What one call of the parse step leaves in the output directory, file by
 file: page images, table exports, picture images, the chunk records and the
 markdown export, for the code as written and for the corrected table-image
 name; and that files not named after the document are left alone.
 */
module ParsedFiles {
  import opened Common
  import opened Text
  import opened Store
  import opened Naming
  import opened Documents
  import opened Parsing
  import opened ParseFacts

  /** Docling keys pages by page number, so no number repeats. */
  predicate DistinctPageNumbers(pages: seq<Page>)
  {
    forall i, j :: 0 <= i < j < |pages| ==> pages[i].no != pages[j].no
  }

  /** The page loop leaves each page's own image under its number. */
  lemma PageWritesAt(doc: string, pages: seq<Page>, i: nat)
    requires DistinctPageNumbers(pages) && i < |pages|
    ensures LastWrite(PageWrites(doc, pages), PageImageName(doc, pages[i].no)) == Some(PngFile(pages[i].image))
  {
    var ws := PageWrites(doc, pages);
    forall j | i < j < |ws| ensures ws[j].key != PageImageName(doc, pages[i].no) {
      ImageNamesInjective(doc, pages[j].no, pages[i].no);
    }
    LastWriteAt(ws, i, PageImageName(doc, pages[i].no));
  }

  /** The page loop writes nothing but page images. */
  lemma PageWritesSkip(doc: string, pages: seq<Page>, n: string)
    requires forall p: nat :: n != PageImageName(doc, p)
    ensures !Written(PageWrites(doc, pages), n)
  {
    var ws := PageWrites(doc, pages);
    forall j | 0 <= j < |ws| ensures ws[j].key != n {
      assert ws[j].key == PageImageName(doc, pages[j].no);
    }
  }

  /** A name of another kind is not a page image name. */
  lemma NotPageName(doc: string, n: string)
    requires StartsWith(n, doc) && |n| > |doc| + 2
    requires n[|n| - 1] != 'g' || n[|doc| + 1] != 'p' || n[|doc| + 2] != 'a'
    ensures forall p: nat :: n != PageImageName(doc, p)
  {
  }

  /** Reading the writes of a parse that did not raise, from the last one back. */
  lemma RunLastWrite(doc: string, target: TableImageTarget, conv: ConvertedDocument, n: string)
    requires !ParseWrites(doc, target, conv).failed
    ensures var items := SaveItems(doc, target, conv.items, 0, 0).writes;
            LastWrite(ParseWrites(doc, target, conv).writes, n)
            == if n == MarkdownName(doc) then Some(MarkdownFile(conv.markdown))
               else if n == ChunksJsonName(doc) then Some(ChunksFile(ChunkRecords(doc, conv.chunks)))
               else if LastWrite(items, n).Some? then LastWrite(items, n)
               else LastWrite(PageWrites(doc, conv.pages), n)
  {
    var pages := PageWrites(doc, conv.pages);
    var items := SaveItems(doc, target, conv.items, 0, 0).writes;
    var json := Write(ChunksJsonName(doc), ChunksFile(ChunkRecords(doc, conv.chunks)));
    var md := Write(MarkdownName(doc), MarkdownFile(conv.markdown));
    assert ParseWrites(doc, target, conv).writes == (pages + items) + [json, md];
    LastWriteAppend(pages + items, [json, md], n);
    LastWriteAppend(pages, items, n);
    assert [json, md][..1] == [json];
    assert [json][..0] == [];
    assert LastWrite([json, md], n) == if md.key == n then Some(md.value) else LastWrite([json], n);
    assert LastWrite([json], n) == if json.key == n then Some(json.value) else None;
    assert md.key != json.key by {
      assert md.key[|md.key| - 1] == 'd' && json.key[|json.key| - 1] == 'n';
    }
  }

  /** File `n` is as it was before the parse. */
  predicate Unchanged(before: Directory, after: Directory, n: string)
  {
    (n in after <==> n in before) && (n in before ==> after[n] == before[n])
  }

  /** Every write of the parse, whether or not it raises, goes to a name that
      starts with the document's name. */
  lemma RunKeys(doc: string, target: TableImageTarget, conv: ConvertedDocument, n: string)
    requires !StartsWith(n, doc)
    ensures !Written(ParseWrites(doc, target, conv).writes, n)
  {
    var pages := PageWrites(doc, conv.pages);
    var run := SaveItems(doc, target, conv.items, 0, 0);
    SaveItemsKeys(doc, target, conv.items, 0, 0);
    forall i | 0 <= i < |run.writes| ensures run.writes[i].key != n {
      ItemKeyStartsWithDoc(doc, target, run.writes[i].key);
    }
    assert !Written(pages, n) by {
      forall i | 0 <= i < |pages| ensures pages[i].key != n {
        assert pages[i].key == PageImageName(doc, conv.pages[i].no);
      }
    }
    WrittenAppend(pages, run.writes, n);
    if !run.failed {
      var tail := [Write(ChunksJsonName(doc), ChunksFile(ChunkRecords(doc, conv.chunks))),
                   Write(MarkdownName(doc), MarkdownFile(conv.markdown))];
      WrittenAppend(pages + run.writes, tail, n);
    }
  }

  /** The table image target of the parse as written. */
  function WrittenTarget(conv: ConvertedDocument): TableImageTarget
  {
    LastPageImage(LastPageNo(conv.pages))
  }

  lemma WrittenTargetRuns(doc: string, conv: ConvertedDocument)
    requires !RaisesUnbound(conv)
    ensures !SaveItems(doc, WrittenTarget(conv), conv.items, 0, 0).failed
    ensures !ParseWrites(doc, WrittenTarget(conv), conv).failed
  {
  }

  /** Table exports under any target that does not raise. */
  lemma ExportsInDir(dir: Directory, doc: string, target: TableImageTarget, conv: ConvertedDocument, e: TableExport, j: nat)
    requires !SaveItems(doc, target, conv.items, 0, 0).failed
    requires e == ImageExport ==> target == OwnTableImage
    ensures var after := Apply(dir, ParseWrites(doc, target, conv).writes);
            var tables := Tables(conv.items);
            var n := ExportName(doc, e, j);
            if 1 <= j <= |tables| then n in after && after[n] == ExportFile(e, tables[j - 1])
            else Unchanged(dir, after, n)
  {
    var n := ExportName(doc, e, j);
    var ws := ParseWrites(doc, target, conv).writes;
    SaveItemsExport(doc, target, conv.items, 0, 0, e, j);
    RunLastWrite(doc, target, conv, n);
    assert n != MarkdownName(doc) && n != ChunksJsonName(doc) by {
      assert n[|n| - 1] != 'd' && n[|n| - 1] != 'n';
    }
    assert n[|n| - 1] != 'g' || n[|doc| + 1] == 't';
    NotPageName(doc, n);
    PageWritesSkip(doc, conv.pages, n);
    LastWriteNone(PageWrites(doc, conv.pages), n);
    ApplyIsLastWrite(dir, ws, n);
  }

  /** Picture images under any target that does not raise. */
  lemma PicturesInDir(dir: Directory, doc: string, target: TableImageTarget, conv: ConvertedDocument, j: nat)
    requires !SaveItems(doc, target, conv.items, 0, 0).failed
    ensures var after := Apply(dir, ParseWrites(doc, target, conv).writes);
            var pictures := Pictures(conv.items);
            var n := PictureImageName(doc, j);
            if 1 <= j <= |pictures| then n in after && after[n] == PngFile(pictures[j - 1].image)
            else Unchanged(dir, after, n)
  {
    var n := PictureImageName(doc, j);
    var ws := ParseWrites(doc, target, conv).writes;
    SaveItemsPicture(doc, target, conv.items, 0, 0, j);
    RunLastWrite(doc, target, conv, n);
    assert n != MarkdownName(doc) && n != ChunksJsonName(doc) by {
      assert n[|n| - 1] == 'g';
    }
    NotPageName(doc, n);
    PageWritesSkip(doc, conv.pages, n);
    LastWriteNone(PageWrites(doc, conv.pages), n);
    ApplyIsLastWrite(dir, ws, n);
  }

  /** As written: table number `j` (from 1) has its CSV and HTML exports
      under `{doc}-table-{j}.csv/.html`; other numbers are left alone. */
  lemma ParsePdfTableExports(dir: Directory, filePath: string, conv: ConvertedDocument, e: TableExport, j: nat)
    requires !RaisesUnbound(conv) && e != ImageExport
    ensures var after := ParsePdf(dir, filePath, conv).dir;
            var tables := Tables(conv.items);
            var n := ExportName(Stem(filePath), e, j);
            if 1 <= j <= |tables| then n in after && after[n] == ExportFile(e, tables[j - 1])
            else Unchanged(dir, after, n)
  {
    WrittenTargetRuns(Stem(filePath), conv);
    ExportsInDir(dir, Stem(filePath), WrittenTarget(conv), conv, e, j);
  }

  /** As written: picture number `j` (from 1) is saved as
      `{doc}-picture-{j}.png`; other numbers are left alone. */
  lemma ParsePdfPictures(dir: Directory, filePath: string, conv: ConvertedDocument, j: nat)
    requires !RaisesUnbound(conv)
    ensures var after := ParsePdf(dir, filePath, conv).dir;
            var pictures := Pictures(conv.items);
            var n := PictureImageName(Stem(filePath), j);
            if 1 <= j <= |pictures| then n in after && after[n] == PngFile(pictures[j - 1].image)
            else Unchanged(dir, after, n)
  {
    WrittenTargetRuns(Stem(filePath), conv);
    PicturesInDir(dir, Stem(filePath), WrittenTarget(conv), conv, j);
  }

  /** What page `i`'s image should hold after the parse as written. */
  function PageExpected(conv: ConvertedDocument, i: nat): Artifact
    requires i < |conv.pages|
  {
    var tables := Tables(conv.items);
    if i == |conv.pages| - 1 && |tables| > 0 then PngFile(tables[|tables| - 1].image)
    else PngFile(conv.pages[i].image)
  }

  /** The last write of the parse as written to page `i`'s image name. */
  lemma PageRunLastWrite(doc: string, conv: ConvertedDocument, i: nat)
    requires !RaisesUnbound(conv) && DistinctPageNumbers(conv.pages) && i < |conv.pages|
    ensures LastWrite(ParseWrites(doc, WrittenTarget(conv), conv).writes, PageImageName(doc, conv.pages[i].no))
            == Some(PageExpected(conv, i))
  {
    var target := WrittenTarget(conv);
    var n := PageImageName(doc, conv.pages[i].no);
    var items := SaveItems(doc, target, conv.items, 0, 0).writes;
    WrittenTargetRuns(doc, conv);
    RunLastWrite(doc, target, conv, n);
    assert n != MarkdownName(doc) && n != ChunksJsonName(doc) by {
      assert n[|n| - 1] == 'g';
    }
    PageWritesAt(doc, conv.pages, i);
    if i == |conv.pages| - 1 {
      assert target == LastPageImage(Some(conv.pages[i].no));
      SaveItemsLastPage(doc, conv.pages[i].no, conv.items, 0, 0);
    } else {
      assert conv.pages[i].no != conv.pages[|conv.pages| - 1].no;
      ItemsSkipPage(doc, target, conv.items, 0, 0, conv.pages[i].no);
      LastWriteNone(items, n);
    }
  }

  /** As written: every page keeps its own image except the last, which
      ends up holding the last table's image when there is a table. */
  lemma ParsePdfPages(dir: Directory, filePath: string, conv: ConvertedDocument, i: nat)
    requires !RaisesUnbound(conv) && DistinctPageNumbers(conv.pages) && i < |conv.pages|
    ensures var after := ParsePdf(dir, filePath, conv).dir;
            var tables := Tables(conv.items);
            var n := PageImageName(Stem(filePath), conv.pages[i].no);
            n in after
            && after[n] == if i == |conv.pages| - 1 && |tables| > 0 then PngFile(tables[|tables| - 1].image)
                           else PngFile(conv.pages[i].image)
  {
    var doc := Stem(filePath);
    var ws := ParseWrites(doc, WrittenTarget(conv), conv).writes;
    var n := PageImageName(doc, conv.pages[i].no);
    var after := ParsePdf(dir, filePath, conv).dir;
    assert n in after && after[n] == PageExpected(conv, i) by {
      assert after == Apply(dir, ws);
      PageRunLastWrite(doc, conv, i);
      ApplyIsLastWrite(dir, ws, n);
    }
  }

  /** As written: no `{doc}-table-{k}.png` file is created or changed, even
      when the parse raises. */
  lemma ParsePdfNoTableImage(dir: Directory, filePath: string, conv: ConvertedDocument, k: nat)
    ensures Unchanged(dir, ParsePdf(dir, filePath, conv).dir, TableImageName(Stem(filePath), k))
  {
    var doc := Stem(filePath);
    var target := WrittenTarget(conv);
    var n := TableImageName(doc, k);
    var pages := PageWrites(doc, conv.pages);
    var run := SaveItems(doc, target, conv.items, 0, 0);
    ItemsSkipTableImage(doc, target, conv.items, 0, 0, k);
    NotPageName(doc, n);
    PageWritesSkip(doc, conv.pages, n);
    WrittenAppend(pages, run.writes, n);
    if !run.failed {
      var tail := [Write(ChunksJsonName(doc), ChunksFile(ChunkRecords(doc, conv.chunks))),
                   Write(MarkdownName(doc), MarkdownFile(conv.markdown))];
      assert n[|n| - 1] == 'g';
      WrittenAppend(pages + run.writes, tail, n);
    }
    ApplyFrame(dir, ParseWrites(doc, target, conv).writes, n);
  }

  /** The parse writes only files named after the document: any other file
      is left alone, whether or not the parse raises, and likewise for the
      corrected parse. */
  lemma ParsePdfFrame(dir: Directory, filePath: string, conv: ConvertedDocument, n: string)
    requires !StartsWith(n, Stem(filePath))
    ensures Unchanged(dir, ParsePdf(dir, filePath, conv).dir, n)
    ensures Unchanged(dir, ParsePdfCorrected(dir, filePath, conv).dir, n)
  {
    RunKeys(Stem(filePath), WrittenTarget(conv), conv, n);
    RunKeys(Stem(filePath), OwnTableImage, conv, n);
    ApplyFrame(dir, ParseWrites(Stem(filePath), WrittenTarget(conv), conv).writes, n);
    ApplyFrame(dir, ParseWrites(Stem(filePath), OwnTableImage, conv).writes, n);
  }

  /** A parse that does not raise saves the numbered chunk records as
      `{doc}_chunks.json` and the markdown as `{doc}-with-images.md`; one that
      raises writes neither. */
  lemma ParsePdfOutputs(dir: Directory, filePath: string, conv: ConvertedDocument)
    ensures var after := ParsePdf(dir, filePath, conv).dir;
            var doc := Stem(filePath);
            if !RaisesUnbound(conv) then
              && ChunksJsonName(doc) in after && after[ChunksJsonName(doc)] == ChunksFile(ChunkRecords(doc, conv.chunks))
              && MarkdownName(doc) in after && after[MarkdownName(doc)] == MarkdownFile(conv.markdown)
            else Unchanged(dir, after, ChunksJsonName(doc)) && Unchanged(dir, after, MarkdownName(doc))
  {
    var doc := Stem(filePath);
    var target := WrittenTarget(conv);
    var ws := ParseWrites(doc, target, conv).writes;
    if !RaisesUnbound(conv) {
      RunLastWrite(doc, target, conv, ChunksJsonName(doc));
      RunLastWrite(doc, target, conv, MarkdownName(doc));
      assert ChunksJsonName(doc) != MarkdownName(doc) by {
        assert ChunksJsonName(doc)[|ChunksJsonName(doc)| - 1] == 'n';
      }
      ApplyIsLastWrite(dir, ws, ChunksJsonName(doc));
      ApplyIsLastWrite(dir, ws, MarkdownName(doc));
    } else {
      var run := SaveItems(doc, target, conv.items, 0, 0);
      assert PageWrites(doc, conv.pages) == [];
      assert ws == run.writes;
      ItemsSkipOutputs(doc, target, conv.items, 0, 0);
      ApplyFrame(dir, ws, ChunksJsonName(doc));
      ApplyFrame(dir, ws, MarkdownName(doc));
    }
  }

  /** Corrected: every page keeps its own image. */
  lemma ParsePdfCorrectedPages(dir: Directory, filePath: string, conv: ConvertedDocument, i: nat)
    requires DistinctPageNumbers(conv.pages) && i < |conv.pages|
    ensures var after := ParsePdfCorrected(dir, filePath, conv).dir;
            var n := PageImageName(Stem(filePath), conv.pages[i].no);
            n in after && after[n] == PngFile(conv.pages[i].image)
  {
    var doc := Stem(filePath);
    var n := PageImageName(doc, conv.pages[i].no);
    RunLastWrite(doc, OwnTableImage, conv, n);
    assert n != MarkdownName(doc) && n != ChunksJsonName(doc) by {
      assert n[|n| - 1] == 'g';
    }
    ItemsSkipPage(doc, OwnTableImage, conv.items, 0, 0, conv.pages[i].no);
    LastWriteNone(SaveItems(doc, OwnTableImage, conv.items, 0, 0).writes, n);
    PageWritesAt(doc, conv.pages, i);
    ApplyIsLastWrite(dir, ParseWrites(doc, OwnTableImage, conv).writes, n);
  }

  /** Corrected: table number `j` has its image, CSV and HTML under
      `{doc}-table-{j}.png/.csv/.html`, and pictures are numbered as before. */
  lemma ParsePdfCorrectedTables(dir: Directory, filePath: string, conv: ConvertedDocument, e: TableExport, j: nat)
    ensures var after := ParsePdfCorrected(dir, filePath, conv).dir;
            var tables := Tables(conv.items);
            var n := ExportName(Stem(filePath), e, j);
            if 1 <= j <= |tables| then n in after && after[n] == ExportFile(e, tables[j - 1])
            else Unchanged(dir, after, n)
    ensures var after := ParsePdfCorrected(dir, filePath, conv).dir;
            var pictures := Pictures(conv.items);
            var n := PictureImageName(Stem(filePath), j);
            if 1 <= j <= |pictures| then n in after && after[n] == PngFile(pictures[j - 1].image)
            else Unchanged(dir, after, n)
  {
    ExportsInDir(dir, Stem(filePath), OwnTableImage, conv, e, j);
    PicturesInDir(dir, Stem(filePath), OwnTableImage, conv, j);
  }

  /** Any one-page document with one table whose image differs from the
      page's: parsed as written, the page's image file holds the table's
      image instead and no table image file is created; the corrected parse
      keeps the page's image and saves the table's under its own name. */
  lemma TableOverwritesPage(dir: Directory, filePath: string, conv: ConvertedDocument)
    requires |conv.pages| == 1 && |Tables(conv.items)| == 1
    requires Tables(conv.items)[0].image != conv.pages[0].image
    ensures var doc := Stem(filePath);
            var page := PageImageName(doc, conv.pages[0].no);
            var after := ParsePdf(dir, filePath, conv).dir;
            page in after && after[page] == PngFile(Tables(conv.items)[0].image)
            && after[page] != PngFile(conv.pages[0].image)
            && Unchanged(dir, after, TableImageName(doc, 1))
    ensures var doc := Stem(filePath);
            var page := PageImageName(doc, conv.pages[0].no);
            var fixed := ParsePdfCorrected(dir, filePath, conv).dir;
            page in fixed && fixed[page] == PngFile(conv.pages[0].image)
            && TableImageName(doc, 1) in fixed && fixed[TableImageName(doc, 1)] == PngFile(Tables(conv.items)[0].image)
  {
    var doc := Stem(filePath);
    var page := PageImageName(doc, conv.pages[0].no);
    var after := ParsePdf(dir, filePath, conv).dir;
    var fixed := ParsePdfCorrected(dir, filePath, conv).dir;
    var table := Tables(conv.items)[0];
    assert page in after && after[page] == PngFile(table.image) by {
      ParsePdfPages(dir, filePath, conv, 0);
    }
    assert Unchanged(dir, after, TableImageName(doc, 1)) by {
      ParsePdfNoTableImage(dir, filePath, conv, 1);
    }
    assert page in fixed && fixed[page] == PngFile(conv.pages[0].image) by {
      ParsePdfCorrectedPages(dir, filePath, conv, 0);
    }
    assert TableImageName(doc, 1) in fixed && fixed[TableImageName(doc, 1)] == PngFile(table.image) by {
      ParsePdfCorrectedTables(dir, filePath, conv, ImageExport, 1);
    }
  }

  /** A document with a table but no pages, parsed as written: the parse
      raises and writes neither the chunk records nor the markdown. */
  lemma UnboundTargetExample()
    ensures var conv := ConvertedDocument([], [TableItem([2], "a", "<table/>")], [], "");
            var out := ParsePdf(map[], "report.pdf", conv);
            out.failed && "report_chunks.json" !in out.dir && "report-with-images.md" !in out.dir
            && !ParsePdfCorrected(map[], "report.pdf", conv).failed
  {
    var conv := ConvertedDocument([], [TableItem([2], "a", "<table/>")], [], "");
    assert "report.pdf" == "report" + "." + "pdf";
    StemOfName("report", "pdf");
    assert Tables(conv.items) == conv.items;
    ParsePdfOutputs(map[], "report.pdf", conv);
  }
}
