/**
 What the parse step leaves in the output directory: the numbering of tables
 and pictures, the page images (and the one the table images overwrite), the
 chunk records, and that nothing outside the document's own names changes.
 */
module ParseFacts {
  import opened Common
  import opened Text
  import opened Store
  import opened Naming
  import opened Documents
  import opened Parsing

  /** The names the item loop may write for `doc`. */
  ghost predicate ItemKey(doc: string, target: TableImageTarget, n: string)
  {
    || (target.LastPageImage? && target.lastPage.Some? && n == PageImageName(doc, target.lastPage.value))
    || (exists j: nat :: n == TableCsvName(doc, j))
    || (exists j: nat :: n == TableHtmlName(doc, j))
    || (exists j: nat :: n == PictureImageName(doc, j))
    || (target.OwnTableImage? && exists j: nat :: n == TableImageName(doc, j))
  }

  /** Every write of `ws` goes to a name the item loop may write. */
  ghost predicate AllItemKeys(doc: string, target: TableImageTarget, ws: seq<Write<Artifact>>)
  {
    forall i :: 0 <= i < |ws| ==> ItemKey(doc, target, ws[i].key)
  }

  lemma AllItemKeysJoin(doc: string, target: TableImageTarget, a: seq<Write<Artifact>>, b: seq<Write<Artifact>>)
    requires AllItemKeys(doc, target, a) && AllItemKeys(doc, target, b)
    ensures AllItemKeys(doc, target, a + b)
  {
    forall i | 0 <= i < |a + b| ensures ItemKey(doc, target, (a + b)[i].key) {
      if i < |a| { assert (a + b)[i] == a[i]; } else { assert (a + b)[i] == b[i - |a|]; }
    }
  }

  lemma TableHeadKeys(doc: string, target: TableImageTarget, k: nat, image: Image, csv: string, html: string)
    requires target != LastPageImage(None)
    ensures var imageName := if target.OwnTableImage? then TableImageName(doc, k)
                             else PageImageName(doc, target.lastPage.value);
            AllItemKeys(doc, target, [Write(imageName, PngFile(image)),
                                      Write(TableCsvName(doc, k), CsvFile(csv)),
                                      Write(TableHtmlName(doc, k), HtmlFile(html))])
  {
  }

  lemma PictureHeadKeys(doc: string, target: TableImageTarget, k: nat, image: Image)
    ensures AllItemKeys(doc, target, [Write(PictureImageName(doc, k), PngFile(image))])
  {
  }

  /** The item loop writes only table exports, picture images, and the table
      image target. */
  lemma {:induction false} SaveItemsKeys(doc: string, target: TableImageTarget, items: seq<Item>, t: nat, q: nat)
    ensures AllItemKeys(doc, target, SaveItems(doc, target, items, t, q).writes)
    decreases |items|
  {
    if items != [] {
      match items[0]
      case TableItem(image, csv, html) =>
        if target != LastPageImage(None) {
          SaveItemsKeys(doc, target, items[1..], t + 1, q);
          TableHeadKeys(doc, target, t + 1, image, csv, html);
          var imageName := if target.OwnTableImage? then TableImageName(doc, t + 1)
                           else PageImageName(doc, target.lastPage.value);
          AllItemKeysJoin(doc, target, [Write(imageName, PngFile(image)),
                                        Write(TableCsvName(doc, t + 1), CsvFile(csv)),
                                        Write(TableHtmlName(doc, t + 1), HtmlFile(html))],
                          SaveItems(doc, target, items[1..], t + 1, q).writes);
        }
      case PictureItem(image) =>
        SaveItemsKeys(doc, target, items[1..], t, q + 1);
        PictureHeadKeys(doc, target, q + 1, image);
        AllItemKeysJoin(doc, target, [Write(PictureImageName(doc, q + 1), PngFile(image))],
                        SaveItems(doc, target, items[1..], t, q + 1).writes);
      case OtherItem =>
        SaveItemsKeys(doc, target, items[1..], t, q);
    }
  }

  lemma TablesCons(items: seq<Item>)
    requires items != []
    ensures Tables(items) == (if items[0].TableItem? then [items[0]] else []) + Tables(items[1..])
    ensures Pictures(items) == (if items[0].PictureItem? then [items[0]] else []) + Pictures(items[1..])
  {
  }

  /** The three files the item loop derives from a table. */
  datatype TableExport = CsvExport | HtmlExport | ImageExport

  function ExportName(doc: string, e: TableExport, k: nat): string
  {
    match e
    case CsvExport => TableCsvName(doc, k)
    case HtmlExport => TableHtmlName(doc, k)
    case ImageExport => TableImageName(doc, k)
  }

  function ExportFile(e: TableExport, table: Item): Artifact
    requires table.TableItem?
  {
    match e
    case CsvExport => CsvFile(table.csv)
    case HtmlExport => HtmlFile(table.html)
    case ImageExport => PngFile(table.image)
  }

  /** The export names of one table are pairwise distinct, and distinct from
      the same export of another table. */
  lemma ExportNamesDistinct(doc: string, e: TableExport, f: TableExport, j: nat, k: nat)
    ensures ExportName(doc, e, j) == ExportName(doc, f, k) ==> e == f && j == k
  {
    TableNamesInjective(doc, j, k);
    if ExportName(doc, e, j) == ExportName(doc, f, k) {
      var a := ExportName(doc, e, j);
      var b := ExportName(doc, f, k);
      assert a[|a| - 1] == b[|b| - 1];
    }
  }

  /** The writes of one table: image to the target, then CSV and HTML. */
  function TableHead(doc: string, target: TableImageTarget, k: nat, table: Item): seq<Write<Artifact>>
    requires target != LastPageImage(None) && table.TableItem?
  {
    var imageName := if target.OwnTableImage? then TableImageName(doc, k)
                     else PageImageName(doc, target.lastPage.value);
    [Write(imageName, PngFile(table.image)),
     Write(TableCsvName(doc, k), CsvFile(table.csv)),
     Write(TableHtmlName(doc, k), HtmlFile(table.html))]
  }

  lemma TableHeadIsHead(doc: string, target: TableImageTarget, items: seq<Item>, t: nat, q: nat)
    requires target != LastPageImage(None) && items != [] && items[0].TableItem?
    ensures SaveItems(doc, target, items, t, q).writes
            == TableHead(doc, target, t + 1, items[0]) + SaveItems(doc, target, items[1..], t + 1, q).writes
  {
  }

  lemma TableHeadExport(doc: string, target: TableImageTarget, k: nat, table: Item, e: TableExport, j: nat)
    requires target != LastPageImage(None) && table.TableItem?
    requires e == ImageExport ==> target == OwnTableImage
    ensures LastWrite(TableHead(doc, target, k, table), ExportName(doc, e, j))
            == if j == k then Some(ExportFile(e, table)) else None
  {
    var head := TableHead(doc, target, k, table);
    var key := ExportName(doc, e, j);
    ExportNamesDistinct(doc, e, CsvExport, j, k);
    ExportNamesDistinct(doc, e, HtmlExport, j, k);
    ExportNamesDistinct(doc, e, ImageExport, j, k);
    if target.LastPageImage? && e != ImageExport {
      var p := PageImageName(doc, target.lastPage.value);
      assert key[|key| - 1] != 'g';
      assert key != p;
    }
    TableHeadLastWrite(doc, target, k, table, key);
  }

  lemma PictureNotExport(doc: string, e: TableExport, j: nat, k: nat)
    ensures PictureImageName(doc, k) != ExportName(doc, e, j)
  {
    var key := ExportName(doc, e, j);
    assert key[|key| - 1] != 'g' || key[|doc| + 1] == 't';
  }

  /** The loop's promise about export `e` of table `j`, from counter `t`. */
  predicate ExportsFrom(doc: string, target: TableImageTarget, items: seq<Item>, t: nat, q: nat, e: TableExport, j: nat)
  {
    var tables := Tables(items);
    LastWrite(SaveItems(doc, target, items, t, q).writes, ExportName(doc, e, j))
    == if t < j <= t + |tables| then Some(ExportFile(e, tables[j - t - 1])) else None
  }

  /** Reading the item loop's writes when it starts with a table: the rest
      of the loop first, then the table's own three writes. */
  lemma TableStepLastWrite(doc: string, target: TableImageTarget, items: seq<Item>, t: nat, q: nat, key: string)
    requires target != LastPageImage(None) && items != [] && items[0].TableItem?
    ensures var rest := SaveItems(doc, target, items[1..], t + 1, q).writes;
            var head := TableHead(doc, target, t + 1, items[0]);
            LastWrite(SaveItems(doc, target, items, t, q).writes, key)
            == if LastWrite(rest, key).Some? then LastWrite(rest, key) else LastWrite(head, key)
  {
    TableHeadIsHead(doc, target, items, t, q);
    LastWriteAppend(TableHead(doc, target, t + 1, items[0]), SaveItems(doc, target, items[1..], t + 1, q).writes, key);
  }

  /** The numbering step behind `ExportsTableStep`: table `t + 1` is the
      head, later numbers come from the rest. */
  lemma ExportsTableCase(head: Item, restTables: seq<Item>, t: nat, e: TableExport, j: nat,
                         headLast: Option<Artifact>, restLast: Option<Artifact>)
    requires head.TableItem? && forall i :: 0 <= i < |restTables| ==> restTables[i].TableItem?
    requires headLast == if j == t + 1 then Some(ExportFile(e, head)) else None
    requires restLast == if t + 1 < j <= t + 1 + |restTables| then Some(ExportFile(e, restTables[j - t - 2])) else None
    ensures var tables := [head] + restTables;
            (if restLast.Some? then restLast else headLast)
            == if t < j <= t + |tables| then Some(ExportFile(e, tables[j - t - 1])) else None
  {
    var tables := [head] + restTables;
    if t + 1 < j <= t + 1 + |restTables| {
      assert tables[j - t - 1] == restTables[j - t - 2];
    }
  }

  lemma ExportsTableStep(doc: string, target: TableImageTarget, items: seq<Item>, t: nat, q: nat, e: TableExport, j: nat)
    requires e == ImageExport ==> target == OwnTableImage
    requires target != LastPageImage(None) && items != [] && items[0].TableItem?
    requires ExportsFrom(doc, target, items[1..], t + 1, q, e, j)
    ensures ExportsFrom(doc, target, items, t, q, e, j)
  {
    var key := ExportName(doc, e, j);
    TablesCons(items);
    TableStepLastWrite(doc, target, items, t, q, key);
    TableHeadExport(doc, target, t + 1, items[0], e, j);
    ExportsTableCase(items[0], Tables(items[1..]), t, e, j,
                     LastWrite(TableHead(doc, target, t + 1, items[0]), key),
                     LastWrite(SaveItems(doc, target, items[1..], t + 1, q).writes, key));
  }

  lemma ExportsPictureStep(doc: string, target: TableImageTarget, items: seq<Item>, t: nat, q: nat, e: TableExport, j: nat)
    requires items != [] && items[0].PictureItem?
    requires ExportsFrom(doc, target, items[1..], t, q + 1, e, j)
    ensures ExportsFrom(doc, target, items, t, q, e, j)
  {
    TablesCons(items);
    assert Tables(items) == Tables(items[1..]);
    var rest := SaveItems(doc, target, items[1..], t, q + 1).writes;
    assert SaveItems(doc, target, items, t, q).writes == [Write(PictureImageName(doc, q + 1), PngFile(items[0].image))] + rest;
    LastWriteCons(Write(PictureImageName(doc, q + 1), PngFile(items[0].image)), rest, ExportName(doc, e, j));
    PictureNotExport(doc, e, j, q + 1);
    assert LastWrite(SaveItems(doc, target, items, t, q).writes, ExportName(doc, e, j)) == LastWrite(rest, ExportName(doc, e, j));
  }

  lemma ExportsOtherStep(doc: string, target: TableImageTarget, items: seq<Item>, t: nat, q: nat, e: TableExport, j: nat)
    requires items != [] && items[0].OtherItem?
    requires ExportsFrom(doc, target, items[1..], t, q, e, j)
    ensures ExportsFrom(doc, target, items, t, q, e, j)
  {
    TablesCons(items);
  }

  /**
   When the loop does not raise, the export `e` of table number `j` holds the
   `j`-th table's content, where the loop started with `t` tables already
   numbered; no other table number is written. The table image is only
   written under its own name in the corrected loop.
   */
  lemma {:induction false} SaveItemsExport(doc: string, target: TableImageTarget, items: seq<Item>, t: nat, q: nat,
                                           e: TableExport, j: nat)
    requires !SaveItems(doc, target, items, t, q).failed
    requires e == ImageExport ==> target == OwnTableImage
    ensures ExportsFrom(doc, target, items, t, q, e, j)
    decreases |items|
  {
    if items == [] {
    } else if items[0].TableItem? {
      if target == LastPageImage(None) {
        assert false;
      } else {
        SaveItemsExport(doc, target, items[1..], t + 1, q, e, j);
        ExportsTableStep(doc, target, items, t, q, e, j);
      }
    } else if items[0].PictureItem? {
      SaveItemsExport(doc, target, items[1..], t, q + 1, e, j);
      ExportsPictureStep(doc, target, items, t, q, e, j);
    } else {
      SaveItemsExport(doc, target, items[1..], t, q, e, j);
      ExportsOtherStep(doc, target, items, t, q, e, j);
    }
  }

  /** Reading the three writes of one table. */
  lemma TableHeadLastWrite(doc: string, target: TableImageTarget, k: nat, table: Item, n: string)
    requires target != LastPageImage(None) && table.TableItem?
    ensures var head := TableHead(doc, target, k, table);
            LastWrite(head, n) == if n == head[2].key then Some(head[2].value)
                                  else if n == head[1].key then Some(head[1].value)
                                  else if n == head[0].key then Some(head[0].value)
                                  else None
  {
    var head := TableHead(doc, target, k, table);
    assert head[..2][..1] == head[..1];
    assert head[..1][..0] == [];
    assert LastWrite(head, n) == if head[2].key == n then Some(head[2].value) else LastWrite(head[..2], n);
    assert LastWrite(head[..2], n) == if head[1].key == n then Some(head[1].value) else LastWrite(head[..1], n);
    assert LastWrite(head[..1], n) == if head[0].key == n then Some(head[0].value) else None;
  }

  /** The loop's promise about picture number `j`, from counter `q`. */
  predicate PicturesFrom(doc: string, target: TableImageTarget, items: seq<Item>, t: nat, q: nat, j: nat)
  {
    var pictures := Pictures(items);
    LastWrite(SaveItems(doc, target, items, t, q).writes, PictureImageName(doc, j))
    == if q < j <= q + |pictures| then Some(PngFile(pictures[j - q - 1].image)) else None
  }

  lemma PicturesTableStep(doc: string, target: TableImageTarget, items: seq<Item>, t: nat, q: nat, j: nat)
    requires target != LastPageImage(None) && items != [] && items[0].TableItem?
    requires PicturesFrom(doc, target, items[1..], t + 1, q, j)
    ensures PicturesFrom(doc, target, items, t, q, j)
  {
    TablesCons(items);
    assert Pictures(items) == Pictures(items[1..]);
    var n := PictureImageName(doc, j);
    var head := TableHead(doc, target, t + 1, items[0]);
    TableStepLastWrite(doc, target, items, t, q, n);
    assert LastWrite(head, n) == None by {
      TableHeadLastWrite(doc, target, t + 1, items[0], n);
      assert n != head[0].key by {
        assert head[0].key[|doc| + 1] == 't' || head[0].key[|doc| + 2] == 'a';
      }
      assert n != head[1].key && n != head[2].key by {
        assert head[1].key[|head[1].key| - 1] == 'v' && head[2].key[|head[2].key| - 1] == 'l';
      }
    }
  }

  /** The numbering step behind `PicturesPictureStep`: picture `q + 1` is
      the head, later numbers come from the rest. */
  lemma PicturesCase(head: Item, restPictures: seq<Item>, q: nat, j: nat,
                     headLast: Option<Artifact>, restLast: Option<Artifact>)
    requires head.PictureItem? && forall i :: 0 <= i < |restPictures| ==> restPictures[i].PictureItem?
    requires headLast == if j == q + 1 then Some(PngFile(head.image)) else None
    requires restLast == if q + 1 < j <= q + 1 + |restPictures| then Some(PngFile(restPictures[j - q - 2].image)) else None
    ensures var pictures := [head] + restPictures;
            (if restLast.Some? then restLast else headLast)
            == if q < j <= q + |pictures| then Some(PngFile(pictures[j - q - 1].image)) else None
  {
    var pictures := [head] + restPictures;
    if q + 1 < j <= q + 1 + |restPictures| {
      assert pictures[j - q - 1] == restPictures[j - q - 2];
    }
  }

  lemma PicturesPictureStep(doc: string, target: TableImageTarget, items: seq<Item>, t: nat, q: nat, j: nat)
    requires items != [] && items[0].PictureItem?
    requires PicturesFrom(doc, target, items[1..], t, q + 1, j)
    ensures PicturesFrom(doc, target, items, t, q, j)
  {
    TablesCons(items);
    var rest := SaveItems(doc, target, items[1..], t, q + 1).writes;
    var w := Write(PictureImageName(doc, q + 1), PngFile(items[0].image));
    var n := PictureImageName(doc, j);
    assert SaveItems(doc, target, items, t, q).writes == [w] + rest;
    LastWriteCons(w, rest, n);
    assert LastWrite([w], n) == if j == q + 1 then Some(PngFile(items[0].image)) else None by {
      ImageNamesInjective(doc, j, q + 1);
      assert [w][..0] == [];
    }
    PicturesCase(items[0], Pictures(items[1..]), q, j, LastWrite([w], n), LastWrite(rest, n));
  }

  lemma PicturesOtherStep(doc: string, target: TableImageTarget, items: seq<Item>, t: nat, q: nat, j: nat)
    requires items != [] && items[0].OtherItem?
    requires PicturesFrom(doc, target, items[1..], t, q, j)
    ensures PicturesFrom(doc, target, items, t, q, j)
  {
    TablesCons(items);
  }

  /** When the loop does not raise, picture number `j` holds the `j`-th
      picture, counting from `q`, whatever the table numbering does. */
  lemma {:induction false} SaveItemsPicture(doc: string, target: TableImageTarget, items: seq<Item>, t: nat, q: nat, j: nat)
    requires !SaveItems(doc, target, items, t, q).failed
    ensures PicturesFrom(doc, target, items, t, q, j)
    decreases |items|
  {
    if items == [] {
    } else if items[0].TableItem? {
      if target == LastPageImage(None) {
        assert false;
      } else {
        SaveItemsPicture(doc, target, items[1..], t + 1, q, j);
        PicturesTableStep(doc, target, items, t, q, j);
      }
    } else if items[0].PictureItem? {
      SaveItemsPicture(doc, target, items[1..], t, q + 1, j);
      PicturesPictureStep(doc, target, items, t, q, j);
    } else {
      SaveItemsPicture(doc, target, items[1..], t, q, j);
      PicturesOtherStep(doc, target, items, t, q, j);
    }
  }

  /** As written: what the last page's image file holds after the item loop. */
  predicate LastPageFrom(doc: string, p: nat, items: seq<Item>, t: nat, q: nat)
  {
    var tables := Tables(items);
    LastWrite(SaveItems(doc, LastPageImage(Some(p)), items, t, q).writes, PageImageName(doc, p))
    == if |tables| > 0 then Some(PngFile(tables[|tables| - 1].image)) else None
  }

  lemma LastPageTableStep(doc: string, p: nat, items: seq<Item>, t: nat, q: nat)
    requires items != [] && items[0].TableItem?
    requires LastPageFrom(doc, p, items[1..], t + 1, q)
    ensures LastPageFrom(doc, p, items, t, q)
  {
    var target := LastPageImage(Some(p));
    TablesCons(items);
    TableHeadIsHead(doc, target, items, t, q);
    var n := PageImageName(doc, p);
    var head := TableHead(doc, target, t + 1, items[0]);
    LastWriteAppend(head, SaveItems(doc, target, items[1..], t + 1, q).writes, n);
    TableHeadLastWrite(doc, target, t + 1, items[0], n);
    assert n != head[1].key && n != head[2].key by {
      assert head[1].key[|head[1].key| - 1] == 'v' && head[2].key[|head[2].key| - 1] == 'l';
    }
  }

  lemma LastPagePictureStep(doc: string, p: nat, items: seq<Item>, t: nat, q: nat)
    requires items != [] && items[0].PictureItem?
    requires LastPageFrom(doc, p, items[1..], t, q + 1)
    ensures LastPageFrom(doc, p, items, t, q)
  {
    var target := LastPageImage(Some(p));
    TablesCons(items);
    var rest := SaveItems(doc, target, items[1..], t, q + 1).writes;
    var w := Write(PictureImageName(doc, q + 1), PngFile(items[0].image));
    assert SaveItems(doc, target, items, t, q).writes == [w] + rest;
    LastWriteCons(w, rest, PageImageName(doc, p));
    assert w.key[|doc| + 2] != PageImageName(doc, p)[|doc| + 2];
  }

  lemma LastPageOtherStep(doc: string, p: nat, items: seq<Item>, t: nat, q: nat)
    requires items != [] && items[0].OtherItem?
    requires LastPageFrom(doc, p, items[1..], t, q)
    ensures LastPageFrom(doc, p, items, t, q)
  {
    TablesCons(items);
  }

  /** As written, every table image is saved over the last page's image
      file, so that file ends up holding the last table's image; without
      tables the loop does not touch it. */
  lemma {:induction false} SaveItemsLastPage(doc: string, p: nat, items: seq<Item>, t: nat, q: nat)
    ensures LastPageFrom(doc, p, items, t, q)
    decreases |items|
  {
    if items == [] {
    } else if items[0].TableItem? {
      SaveItemsLastPage(doc, p, items[1..], t + 1, q);
      LastPageTableStep(doc, p, items, t, q);
    } else if items[0].PictureItem? {
      SaveItemsLastPage(doc, p, items[1..], t, q + 1);
      LastPagePictureStep(doc, p, items, t, q);
    } else {
      SaveItemsLastPage(doc, p, items[1..], t, q);
      LastPageOtherStep(doc, p, items, t, q);
    }
  }

  /** Every name the item loop may write starts with the document's name. */
  lemma ItemKeyStartsWithDoc(doc: string, target: TableImageTarget, n: string)
    requires ItemKey(doc, target, n)
    ensures StartsWith(n, doc)
  {
  }

  /** The item loop writes no page image except, as written, the last page's. */
  lemma ItemsSkipPage(doc: string, target: TableImageTarget, items: seq<Item>, t: nat, q: nat, n: nat)
    requires target != LastPageImage(Some(n))
    ensures !Written(SaveItems(doc, target, items, t, q).writes, PageImageName(doc, n))
  {
    var name := PageImageName(doc, n);
    SaveItemsKeys(doc, target, items, t, q);
    assert !ItemKey(doc, target, name) by {
      if target.LastPageImage? && target.lastPage.Some? {
        ImageNamesInjective(doc, n, target.lastPage.value);
      }
      forall j: nat ensures name != PictureImageName(doc, j) && name != TableImageName(doc, j) {
        assert PictureImageName(doc, j)[|doc| + 2] == 'i' && TableImageName(doc, j)[|doc| + 1] == 't';
      }
    }
  }

  /** The item loop never writes the chunk records or the markdown file. */
  lemma ItemsSkipOutputs(doc: string, target: TableImageTarget, items: seq<Item>, t: nat, q: nat)
    ensures !Written(SaveItems(doc, target, items, t, q).writes, ChunksJsonName(doc))
    ensures !Written(SaveItems(doc, target, items, t, q).writes, MarkdownName(doc))
  {
    SaveItemsKeys(doc, target, items, t, q);
    if target.LastPageImage? && target.lastPage.Some? {
      var p := PageImageName(doc, target.lastPage.value);
      assert p[|p| - 1] == 'g';
    }
  }

  /** As written, no `{doc}-table-{k}.png` file is ever created. */
  lemma ItemsSkipTableImage(doc: string, target: TableImageTarget, items: seq<Item>, t: nat, q: nat, k: nat)
    requires target.LastPageImage?
    ensures !Written(SaveItems(doc, target, items, t, q).writes, TableImageName(doc, k))
  {
    var name := TableImageName(doc, k);
    SaveItemsKeys(doc, target, items, t, q);
    assert !ItemKey(doc, target, name) by {
      if target.lastPage.Some? {
        assert PageImageName(doc, target.lastPage.value)[|doc| + 1] == 'p';
      }
      forall j: nat ensures name != PictureImageName(doc, j) {
        assert PictureImageName(doc, j)[|doc| + 1] == 'p';
      }
    }
  }
}
