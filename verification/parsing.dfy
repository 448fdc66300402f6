/**
 The parse step `process_pdf(file_path)`: name the document after the stem of
 its path, save one image per page, walk the items numbering tables and
 pictures with two independent counters, save the chunker's output as
 numbered records, and export markdown. All output goes to one directory,
 modelled as a map updated by overwriting writes.
 */
module Parsing {
  import opened Common
  import opened Text
  import opened Store
  import opened Naming
  import opened Documents

  /** Where a table's image is written. As written, the source opens
      `page_image_filename`, the variable left over from the page loop, so the
      image lands on the last page's file; if the document has no pages that
      variable is unbound and the first table raises. The corrected target is
      the `{doc}-table-{k}.png` name the source computes and logs. */
  datatype TableImageTarget = LastPageImage(lastPage: Option<nat>) | OwnTableImage

  /** The state of the item loop when it ends or raises. */
  datatype ItemsRun = ItemsRun(writes: seq<Write<Artifact>>, tables: nat, pictures: nat, failed: bool)

  /** The tables among the items, in order: the k-th one gets number k. */
  function Tables(items: seq<Item>): (r: seq<Item>)
    ensures forall i :: 0 <= i < |r| ==> r[i].TableItem?
    ensures |r| <= |items|
  {
    if items == [] then []
    else (if items[0].TableItem? then [items[0]] else []) + Tables(items[1..])
  }

  /** The pictures among the items, in order: the k-th one gets number k. */
  function Pictures(items: seq<Item>): (r: seq<Item>)
    ensures forall i :: 0 <= i < |r| ==> r[i].PictureItem?
    ensures |r| <= |items|
  {
    if items == [] then []
    else (if items[0].PictureItem? then [items[0]] else []) + Pictures(items[1..])
  }

  /** A single item contributes itself exactly when it is a table (a picture). */
  lemma SelectSingleton(it: Item)
    ensures Tables([it]) == if it.TableItem? then [it] else []
    ensures Pictures([it]) == if it.PictureItem? then [it] else []
  {
    assert [it][1..] == [];
  }

  /** Selecting tables and pictures commutes with concatenation, so each
      keeps the items' order. */
  lemma {:induction false} SelectAppend(a: seq<Item>, b: seq<Item>)
    ensures Tables(a + b) == Tables(a) + Tables(b)
    ensures Pictures(a + b) == Pictures(a) + Pictures(b)
    decreases |a|
  {
    if a == [] {
      assert a + b == b;
    } else {
      assert (a + b)[0] == a[0];
      assert (a + b)[1..] == a[1..] + b;
      SelectAppend(a[1..], b);
    }
  }

  /** The page loop: one `{doc}-page-{page_no}.png` per page, in dict order. */
  function PageWrites(doc: string, pages: seq<Page>): seq<Write<Artifact>>
  {
    seq(|pages|, i requires 0 <= i < |pages| => Write(PageImageName(doc, pages[i].no), PngFile(pages[i].image)))
  }

  /** `page_image_filename` after the page loop: the last page's image name. */
  function LastPageNo(pages: seq<Page>): Option<nat>
  {
    if pages == [] then None else Some(pages[|pages| - 1].no)
  }

  /**
   The item loop from counters `t` (tables) and `q` (pictures): a table bumps
   `t`, writes its image to the target, then its CSV and HTML exports as
   `{doc}-table-{t}.csv/.html`; a picture bumps `q` and writes
   `{doc}-picture-{q}.png`; other items write nothing.
   */
  function SaveItems(doc: string, target: TableImageTarget, items: seq<Item>, t: nat, q: nat): (run: ItemsRun)
    ensures run.failed <==> target == LastPageImage(None) && |Tables(items)| > 0
    ensures !run.failed ==> run.tables == t + |Tables(items)| && run.pictures == q + |Pictures(items)|
    decreases |items|
  {
    if items == [] then ItemsRun([], t, q, false)
    else
      match items[0]
      case TableItem(image, csv, html) =>
        var k := t + 1;
        if target == LastPageImage(None) then ItemsRun([], k, q, true)
        else
          var imageName := if target.OwnTableImage? then TableImageName(doc, k)
                           else PageImageName(doc, target.lastPage.value);
          var head := [Write(imageName, PngFile(image)),
                       Write(TableCsvName(doc, k), CsvFile(csv)),
                       Write(TableHtmlName(doc, k), HtmlFile(html))];
          var rest := SaveItems(doc, target, items[1..], k, q);
          ItemsRun(head + rest.writes, rest.tables, rest.pictures, rest.failed)
      case PictureItem(image) =>
        var k := q + 1;
        var rest := SaveItems(doc, target, items[1..], t, k);
        ItemsRun([Write(PictureImageName(doc, k), PngFile(image))] + rest.writes, rest.tables, rest.pictures, rest.failed)
      case OtherItem =>
        SaveItems(doc, target, items[1..], t, q)
  }

  /** `chunk_data`: one record per chunker output, numbered from 0 in order. */
  function ChunkRecords(doc: string, chunks: seq<Chunk>): seq<ChunkRecord>
  {
    seq(|chunks|, i requires 0 <= i < |chunks| => ChunkRecord(doc, i, chunks[i].text, chunks[i].meta))
  }

  /** The `enumerate` loop that builds `chunk_data`. */
  method BuildChunkRecords(doc: string, chunks: seq<Chunk>) returns (records: seq<ChunkRecord>)
    ensures |records| == |chunks|
    ensures forall i :: 0 <= i < |records| ==> records[i].chunkId == i && records[i].document == doc
    ensures forall i :: 0 <= i < |records| ==> records[i].text == chunks[i].text && records[i].meta == chunks[i].meta
    ensures records == ChunkRecords(doc, chunks)
  {
    records := [];
    var i := 0;
    while i < |chunks|
      invariant 0 <= i <= |chunks| && |records| == i
      invariant forall j :: 0 <= j < i ==> records[j] == ChunkRecord(doc, j, chunks[j].text, chunks[j].meta)
    {
      records := records + [ChunkRecord(doc, i, chunks[i].text, chunks[i].meta)];
      i := i + 1;
    }
  }

  /** The writes `process_pdf` performs, and whether it raised. */
  datatype ParseRun = ParseRun(writes: seq<Write<Artifact>>, failed: bool)

  function ParseWrites(doc: string, target: TableImageTarget, conv: ConvertedDocument): ParseRun
  {
    var pages := PageWrites(doc, conv.pages);
    var items := SaveItems(doc, target, conv.items, 0, 0);
    if items.failed then ParseRun(pages + items.writes, true)
    else
      ParseRun(pages + items.writes + [Write(ChunksJsonName(doc), ChunksFile(ChunkRecords(doc, conv.chunks))),
                                      Write(MarkdownName(doc), MarkdownFile(conv.markdown))], false)
  }

  /** What the directory holds after `process_pdf`, and whether it raised
      (files written before the exception stay). */
  datatype ParseOutcome = ParseOutcome(dir: Directory, failed: bool)

  /** The as-written parse raises on this document: it has a table but no
      page, so `page_image_filename` was never bound. */
  predicate RaisesUnbound(conv: ConvertedDocument)
  {
    conv.pages == [] && |Tables(conv.items)| > 0
  }

  /** `process_pdf(file_path)` as written. It raises exactly when the document
      has a table but no pages. */
  function ParsePdf(dir: Directory, filePath: string, conv: ConvertedDocument): (out: ParseOutcome)
    ensures out.failed <==> RaisesUnbound(conv)
  {
    var doc := Stem(filePath);
    var run := ParseWrites(doc, LastPageImage(LastPageNo(conv.pages)), conv);
    ParseOutcome(Apply(dir, run.writes), run.failed)
  }

  /** `process_pdf` with the table image saved under `{doc}-table-{k}.png`. */
  function ParsePdfCorrected(dir: Directory, filePath: string, conv: ConvertedDocument): (out: ParseOutcome)
    ensures !out.failed
  {
    var doc := Stem(filePath);
    var run := ParseWrites(doc, OwnTableImage, conv);
    ParseOutcome(Apply(dir, run.writes), run.failed)
  }

  /** `process_and_save_pdfs`: parse each file in turn; an exception ends the
      whole step, leaving the later files unparsed. Returns the directory and
      how many files were parsed completely. */
  function ParseAll(dir: Directory, inputs: seq<(string, ConvertedDocument)>): (r: (Directory, nat))
    ensures r.1 <= |inputs|
    decreases |inputs|
  {
    if inputs == [] then (dir, 0)
    else
      var out := ParsePdf(dir, inputs[0].0, inputs[0].1);
      if out.failed then (out.dir, 0)
      else
        var rest := ParseAll(out.dir, inputs[1..]);
        (rest.0, rest.1 + 1)
  }

  /** How many leading documents do not raise. */
  function LeadingParsed(inputs: seq<(string, ConvertedDocument)>): nat
  {
    if inputs == [] || RaisesUnbound(inputs[0].1) then 0 else 1 + LeadingParsed(inputs[1..])
  }

  /** The documents before the count do not raise, and the one at the count,
      if any, does. */
  lemma {:induction false} LeadingParsedStops(inputs: seq<(string, ConvertedDocument)>)
    ensures var n := LeadingParsed(inputs);
            n <= |inputs|
            && (forall i :: 0 <= i < n ==> !RaisesUnbound(inputs[i].1))
            && (n < |inputs| ==> RaisesUnbound(inputs[n].1))
  {
    if inputs != [] && !RaisesUnbound(inputs[0].1) {
      var rest := inputs[1..];
      LeadingParsedStops(rest);
      forall i | 0 <= i < LeadingParsed(inputs) ensures !RaisesUnbound(inputs[i].1) {
        if i > 0 {
          assert inputs[i] == rest[i - 1];
        }
      }
      if LeadingParsed(inputs) < |inputs| {
        assert inputs[LeadingParsed(inputs)] == rest[LeadingParsed(rest)];
      }
    }
  }

  /** The step counts exactly the leading documents that do not raise. */
  lemma {:induction false} ParseAllCount(dir: Directory, inputs: seq<(string, ConvertedDocument)>)
    ensures ParseAll(dir, inputs).1 == LeadingParsed(inputs)
    decreases |inputs|
  {
    if inputs != [] {
      var out := ParsePdf(dir, inputs[0].0, inputs[0].1);
      if !out.failed {
        ParseAllCount(out.dir, inputs[1..]);
      }
    }
  }

  /** The files before the count all parsed completely, and the one at the
      count, if any, raised. */
  lemma ParseAllStops(dir: Directory, inputs: seq<(string, ConvertedDocument)>)
    ensures var n := ParseAll(dir, inputs).1;
            (forall i :: 0 <= i < n ==> !RaisesUnbound(inputs[i].1))
            && (n < |inputs| ==> RaisesUnbound(inputs[n].1))
  {
    ParseAllCount(dir, inputs);
    LeadingParsedStops(inputs);
  }
}
