/**
 Which entries the upload step leaves in the index: one entry per chunk
 record holding its last piece, one entry per document for all its tables,
 one entry per image file; and the names written by the parse step lead
 back to their document.
 */
module UploadFacts {
  import opened Common
  import opened Text
  import opened Store
  import opened Chunker
  import opened Naming
  import opened VectorIds
  import opened Documents
  import opened Parsing
  import opened Upload

  /** A chunk record whose lookups succeed and all of whose pieces embed
      leaves exactly one entry: the embedding of its last piece (by
      `Chunker.LastPiece`, the text from the last 512-character window on).
      A record whose lookups raise or whose text is empty writes nothing. */
  lemma ChunkSurvivor(rec: ChunkRecord, encode: string -> Option<Vector>)
    ensures ChunkSource(rec.meta).None? || |rec.text| == 0 ==> UploadChunk(rec, encode) == []
    ensures var pieces := Pieces(rec.text, DefaultMaxLength);
            ChunkSource(rec.meta).Some? && |rec.text| > 0 && (forall i :: 0 <= i < |pieces| ==> encode(pieces[i]).Some?)
            ==> var last := pieces[|pieces| - 1];
                LastWrite(UploadChunk(rec, encode), TextVectorId(rec.document, rec.chunkId))
                == Some(Entry(encode(last).value, TextMeta(rec, ChunkSource(rec.meta).value)))
  {
    var pieces := Pieces(rec.text, DefaultMaxLength);
    var ws := UploadChunk(rec, encode);
    if ChunkSource(rec.meta).Some? && |rec.text| > 0 && (forall i :: 0 <= i < |pieces| ==> encode(pieces[i]).Some?) {
      assert |ws| == |pieces|;
      LastWriteAt(ws, |ws| - 1, TextVectorId(rec.document, rec.chunkId));
    }
  }

  /** A record writes nothing under any id but its own. */
  lemma ChunkWritesOwnId(rec: ChunkRecord, encode: string -> Option<Vector>, id: string)
    requires id != TextVectorId(rec.document, rec.chunkId)
    ensures LastWrite(UploadChunk(rec, encode), id).None?
  {
    LastWriteNone(UploadChunk(rec, encode), id);
  }

  /** The chunk loop over two batches of records is the loop over the first
      then the loop over the second. */
  lemma {:induction false} UploadChunksAppend(a: seq<ChunkRecord>, b: seq<ChunkRecord>, encode: string -> Option<Vector>)
    ensures UploadChunks(a + b, encode) == UploadChunks(a, encode) + UploadChunks(b, encode)
    decreases |a|
  {
    if a == [] {
      assert a + b == b;
    } else {
      var head := UploadChunk(a[0], encode);
      assert (a + b)[0] == a[0] && (a + b)[1..] == a[1..] + b;
      assert UploadChunks(a + b, encode) == head + UploadChunks(a[1..] + b, encode);
      UploadChunksAppend(a[1..], b, encode);
      assert head + (UploadChunks(a[1..], encode) + UploadChunks(b, encode))
             == (head + UploadChunks(a[1..], encode)) + UploadChunks(b, encode);
    }
  }

  /** No two records share a document and chunk id. */
  predicate DistinctChunkKeys(records: seq<ChunkRecord>)
  {
    forall i, j :: 0 <= i < j < |records| ==>
      records[i].document != records[j].document || records[i].chunkId != records[j].chunkId
  }

  /** No record of `records` has the id `id`. */
  lemma {:induction false} ChunksSkipId(records: seq<ChunkRecord>, encode: string -> Option<Vector>, id: string)
    requires forall i :: 0 <= i < |records| ==> TextVectorId(records[i].document, records[i].chunkId) != id
    ensures LastWrite(UploadChunks(records, encode), id).None?
    decreases |records|
  {
    if records != [] {
      ChunkWritesOwnId(records[0], encode, id);
      ChunksSkipId(records[1..], encode, id);
      LastWriteAppend(UploadChunk(records[0], encode), UploadChunks(records[1..], encode), id);
    }
  }

  /** Error isolation: what the loop leaves under a record's id is what that
      record alone wrote, however the other records fared. */
  lemma {:induction false} ChunksIsolated(records: seq<ChunkRecord>, encode: string -> Option<Vector>, i: nat)
    requires DistinctChunkKeys(records) && i < |records|
    ensures var id := TextVectorId(records[i].document, records[i].chunkId);
            LastWrite(UploadChunks(records, encode), id) == LastWrite(UploadChunk(records[i], encode), id)
    decreases |records|
  {
    var id := TextVectorId(records[i].document, records[i].chunkId);
    var rest := records[1..];
    LastWriteAppend(UploadChunk(records[0], encode), UploadChunks(rest, encode), id);
    if i == 0 {
      forall j | 0 <= j < |rest| ensures TextVectorId(rest[j].document, rest[j].chunkId) != id {
        assert records[j + 1] == rest[j];
        if TextVectorId(rest[j].document, rest[j].chunkId) == id {
          TextVectorIdInjective(rest[j].document, rest[j].chunkId, records[0].document, records[0].chunkId);
        }
      }
      ChunksSkipId(rest, encode, id);
    } else {
      assert DistinctChunkKeys(rest) by {
        forall a, b | 0 <= a < b < |rest|
          ensures rest[a].document != rest[b].document || rest[a].chunkId != rest[b].chunkId
        {
          assert rest[a] == records[a + 1] && rest[b] == records[b + 1];
        }
      }
      assert rest[i - 1] == records[i];
      ChunksIsolated(rest, encode, i - 1);
      if TextVectorId(records[0].document, records[0].chunkId) == id {
        TextVectorIdInjective(records[0].document, records[0].chunkId, records[i].document, records[i].chunkId);
      }
      ChunkWritesOwnId(records[0], encode, id);
    }
  }

  /** The records of one parsed document never share an id. */
  lemma ChunkRecordsDistinct(doc: string, chunks: seq<Chunk>)
    ensures DistinctChunkKeys(ChunkRecords(doc, chunks))
  {
  }

  /** Uploading the records of a parsed document: chunk `i`, if its lookups
      succeed and all its pieces embed, ends as one entry under
      `{doc}_{i}` holding its last piece, whatever happens to the others. */
  lemma ParsedChunkUploaded(index: Index, doc: string, chunks: seq<Chunk>, encode: string -> Option<Vector>, i: nat)
    requires i < |chunks|
    requires ChunkSource(chunks[i].meta).Some? && |chunks[i].text| > 0
    requires var pieces := Pieces(chunks[i].text, DefaultMaxLength);
             forall k :: 0 <= k < |pieces| ==> encode(pieces[k]).Some?
    ensures var text := chunks[i].text;
            var pieces := Pieces(text, DefaultMaxLength);
            var last := pieces[|pieces| - 1];
            var source := ChunkSource(chunks[i].meta).value;
            var after := Apply(index, UploadChunks(ChunkRecords(doc, chunks), encode));
            TextVectorId(doc, i) in after
            && after[TextVectorId(doc, i)] == Entry(encode(last).value, TextChunkMeta(doc, i, source.1, source.0))
  {
    var records := ChunkRecords(doc, chunks);
    ChunkRecordsDistinct(doc, chunks);
    ChunksIsolated(records, encode, i);
    ChunkSurvivor(records[i], encode);
    ApplyIsLastWrite(index, UploadChunks(records, encode), TextVectorId(doc, i));
  }

  /** The table file whose entry counts for document `d`: it renders, embeds,
      and names `d`. */
  predicate TableLands(name: string, render: string -> Option<string>, encode: string -> Option<Vector>, d: string)
  {
    TableDocName(Stem(name)) == d && render(name).Some? && encode(render(name).value).Some?
  }

  lemma TableWriteKey(name: string, render: string -> Option<string>, encode: string -> Option<Vector>, d: string)
    ensures LastWrite(TableWrite(name, render, encode), TableVectorId(d)).Some?
            <==> TableLands(name, render, encode, d)
  {
    var ws := TableWrite(name, render, encode);
    if ws != [] {
      assert ws[..0] == [];
      if TableVectorId(TableDocName(Stem(name))) == TableVectorId(d) {
        assert TableDocName(Stem(name)) == TableVectorId(d)[..|TableVectorId(d)| - 6];
      }
    }
  }

  /** The entry a table file that lands is upserted with. */
  lemma TableWriteValue(name: string, render: string -> Option<string>, encode: string -> Option<Vector>)
    requires TableLands(name, render, encode, TableDocName(Stem(name)))
    ensures var d := TableDocName(Stem(name));
            LastWrite(TableWrite(name, render, encode), TableVectorId(d))
            == Some(Entry(encode(render(name).value).value, TableMeta(d, FileName(name), d + ".pdf")))
  {
    assert TableWrite(name, render, encode)[..0] == [];
  }

  /** Every table of document `d` is upserted under `{d}_table`, so the one
      entry that survives is the last table file of `d` that rendered and
      embedded; its metadata names `d` and `{d}.pdf`. */
  lemma {:induction false} TableSurvivor(names: seq<string>, render: string -> Option<string>,
                                         encode: string -> Option<Vector>, j: nat)
    requires j < |names| && TableLands(names[j], render, encode, TableDocName(Stem(names[j])))
    requires forall k :: j < k < |names| ==> !TableLands(names[k], render, encode, TableDocName(Stem(names[j])))
    ensures var d := TableDocName(Stem(names[j]));
            LastWrite(UploadTables(names, render, encode), TableVectorId(d))
            == Some(Entry(encode(render(names[j]).value).value, TableMeta(d, FileName(names[j]), d + ".pdf")))
    decreases |names|
  {
    var d := TableDocName(Stem(names[j]));
    var init := names[..|names| - 1];
    var last := names[|names| - 1];
    assert UploadTables(names, render, encode) == UploadTables(init, render, encode) + TableWrite(last, render, encode);
    LastWriteAppend(UploadTables(init, render, encode), TableWrite(last, render, encode), TableVectorId(d));
    if j < |names| - 1 {
      assert !TableLands(last, render, encode, d);
      TableWriteKey(last, render, encode, d);
      assert init[j] == names[j];
      forall k | j < k < |init| ensures !TableLands(init[k], render, encode, d) {
        assert init[k] == names[k];
      }
      TableSurvivor(init, render, encode, j);
    } else {
      TableWriteValue(last, render, encode);
    }
  }

  /** A document none of whose table files rendered and embedded has no table entry. */
  lemma {:induction false} TableAbsent(names: seq<string>, render: string -> Option<string>,
                                       encode: string -> Option<Vector>, d: string)
    requires forall k :: 0 <= k < |names| ==> !TableLands(names[k], render, encode, d)
    ensures LastWrite(UploadTables(names, render, encode), TableVectorId(d)).None?
    decreases |names|
  {
    if names != [] {
      var init := names[..|names| - 1];
      assert forall k :: 0 <= k < |init| ==> init[k] == names[k];
      TableAbsent(init, render, encode, d);
      TableWriteKey(names[|names| - 1], render, encode, d);
      LastWriteAppend(UploadTables(init, render, encode), TableWrite(names[|names| - 1], render, encode), TableVectorId(d));
    }
  }

  /** Image files that share a stem are the same file. Both globs list
      `.png` files of one directory, so two different names never share a
      stem, while a name that matches both patterns is listed twice. */
  predicate StemsDetermineNames(names: seq<string>)
  {
    forall i, j :: 0 <= i < |names| && 0 <= j < |names| && Stem(names[i]) == Stem(names[j]) ==> names[i] == names[j]
  }

  /** What one image's `try` block leaves under the id of stem `s`. */
  lemma ImageWriteKey(name: string, clip: string -> Option<Vector>, dim: nat, s: string)
    ensures var d := ImageDocName(s);
            LastWrite(ImageWrite(name, clip, dim), ImageVectorId(s))
            == if Stem(name) != s || clip(name).None? then None
               else Some(Entry(Truncate(clip(name).value, dim), ImageMeta(d, FileName(name), d + ".pdf")))
  {
    var w := ImageWrite(name, clip, dim);
    if w != [] {
      assert w[..0] == [];
      if ImageVectorId(Stem(name)) == ImageVectorId(s) {
        ImageVectorIdInjective(Stem(name), s);
      }
    }
  }

  /** The last image file decides its own id: every earlier file with its
      stem is the same file. */
  lemma ImageSurvivorLast(names: seq<string>, clip: string -> Option<Vector>, dim: nat)
    requires StemsDetermineNames(names) && |names| > 0
    ensures var name := names[|names| - 1];
            var d := ImageDocName(Stem(name));
            LastWrite(UploadImages(names, clip, dim), ImageVectorId(Stem(name)))
            == if clip(name).None? then None
               else Some(Entry(Truncate(clip(name).value, dim), ImageMeta(d, FileName(name), d + ".pdf")))
  {
    var init := names[..|names| - 1];
    var last := names[|names| - 1];
    var s := Stem(last);
    assert UploadImages(names, clip, dim) == UploadImages(init, clip, dim) + ImageWrite(last, clip, dim);
    LastWriteAppend(UploadImages(init, clip, dim), ImageWrite(last, clip, dim), ImageVectorId(s));
    ImageWriteKey(last, clip, dim, s);
    if clip(last).None? {
      forall k | 0 <= k < |init| ensures Stem(init[k]) != s || clip(init[k]).None? {
        assert init[k] == names[k];
        if Stem(names[k]) == Stem(names[|names| - 1]) {
          assert names[k] == last;
        }
      }
      ImagesSkipId(init, clip, dim, ImageVectorId(s), s);
    }
  }

  /** An earlier image file's id is untouched by a last file of another stem. */
  lemma ImageSurvivorInit(names: seq<string>, clip: string -> Option<Vector>, dim: nat, j: nat)
    requires StemsDetermineNames(names) && j < |names| - 1
    requires Stem(names[|names| - 1]) != Stem(names[j])
    ensures var init := names[..|names| - 1];
            init[j] == names[j]
            && LastWrite(UploadImages(names, clip, dim), ImageVectorId(Stem(names[j])))
               == LastWrite(UploadImages(init, clip, dim), ImageVectorId(Stem(names[j])))
  {
    var init := names[..|names| - 1];
    var last := names[|names| - 1];
    var s := Stem(names[j]);
    assert UploadImages(names, clip, dim) == UploadImages(init, clip, dim) + ImageWrite(last, clip, dim);
    LastWriteAppend(UploadImages(init, clip, dim), ImageWrite(last, clip, dim), ImageVectorId(s));
    ImageWriteKey(last, clip, dim, s);
  }

  /** Dropping the last file keeps files that share a stem equal. */
  lemma StemsDetermineNamesInit(names: seq<string>)
    requires StemsDetermineNames(names) && |names| > 0
    ensures StemsDetermineNames(names[..|names| - 1])
  {
    var init := names[..|names| - 1];
    forall a, b | 0 <= a < |init| && 0 <= b < |init| && Stem(init[a]) == Stem(init[b]) ensures init[a] == init[b] {
      assert init[a] == names[a] && init[b] == names[b];
    }
  }

  /** When files sharing a stem are the same file, every image file whose
      embedding succeeds keeps its own entry, holding the first `dim` values
      of its embedding; an image whose embedding raises has no entry. */
  lemma {:induction false} ImageSurvivor(names: seq<string>, clip: string -> Option<Vector>, dim: nat, j: nat)
    requires StemsDetermineNames(names) && j < |names|
    ensures var stem := Stem(names[j]);
            var d := ImageDocName(stem);
            LastWrite(UploadImages(names, clip, dim), ImageVectorId(stem))
            == if clip(names[j]).None? then None
               else Some(Entry(Truncate(clip(names[j]).value, dim), ImageMeta(d, FileName(names[j]), d + ".pdf")))
    decreases |names|
  {
    if Stem(names[|names| - 1]) != Stem(names[j]) {
      ImageSurvivorInit(names, clip, dim, j);
      StemsDetermineNamesInit(names);
      ImageSurvivor(names[..|names| - 1], clip, dim, j);
    } else {
      assert names[j] == names[|names| - 1];
      ImageSurvivorLast(names, clip, dim);
    }
  }

  /** No image of `names` with stem `s` embeds, so nothing is written under its id. */
  lemma {:induction false} ImagesSkipId(names: seq<string>, clip: string -> Option<Vector>, dim: nat, id: string, s: string)
    requires id == ImageVectorId(s)
    requires forall k :: 0 <= k < |names| ==> Stem(names[k]) != s || clip(names[k]).None?
    ensures LastWrite(UploadImages(names, clip, dim), id).None?
    decreases |names|
  {
    if names != [] {
      var init := names[..|names| - 1];
      var last := names[|names| - 1];
      assert forall k :: 0 <= k < |init| ==> init[k] == names[k];
      ImagesSkipId(init, clip, dim, id, s);
      LastWriteAppend(UploadImages(init, clip, dim), ImageWrite(last, clip, dim), id);
      ImageWriteKey(last, clip, dim, s);
    }
  }

  /** A stem built from the document name and a number has no '/'. */
  lemma StemHasNoSlash(doc: string, marker: string, k: nat)
    requires '/' !in doc && '/' !in marker
    ensures '/' !in doc + marker + NatToString(k)
  {
    var digits := NatToString(k);
    assert forall i :: 0 <= i < |digits| ==> IsDigit(digits[i]);
  }

  /** The upload step recovers the document from every table CSV the parse
      step wrote for it, when the document's name has no '/' and no
      `-table`. */
  lemma ParsedTableDoc(doc: string, k: nat)
    requires '/' !in doc && !Contains(doc, TableMarker)
    ensures TableDocName(Stem(TableCsvName(doc, k))) == doc
  {
    StemHasNoSlash(doc, "-table-", k);
    assert TableCsvName(doc, k) == TableStem(doc, k) + "." + "csv";
    StemOfName(TableStem(doc, k), "csv");
    TableDocNameRoundTrip(doc, k);
  }

  /** The upload step recovers the document from every page and picture
      image the parse step wrote for it, when the document's name has no
      '/', no `-page` and no `-picture`. */
  lemma ParsedImageDoc(doc: string, k: nat)
    requires '/' !in doc && !Contains(doc, PageMarker) && !Contains(doc, PictureMarker)
    ensures ImageDocName(Stem(PageImageName(doc, k))) == doc
    ensures ImageDocName(Stem(PictureImageName(doc, k))) == doc
  {
    StemHasNoSlash(doc, "-page-", k);
    StemHasNoSlash(doc, "-picture-", k);
    assert PageImageName(doc, k) == PageStem(doc, k) + "." + "png";
    assert PictureImageName(doc, k) == PictureStem(doc, k) + "." + "png";
    StemOfName(PageStem(doc, k), "png");
    StemOfName(PictureStem(doc, k), "png");
    PageDocNameRoundTrip(doc, k);
    PictureDocNameRoundTrip(doc, k);
  }

  /** The table loop never touches a text entry. */
  lemma {:induction false} TablesKeepTextEntries(names: seq<string>, render: string -> Option<string>,
                                                 encode: string -> Option<Vector>, document: string, chunkId: nat)
    ensures LastWrite(UploadTables(names, render, encode), TextVectorId(document, chunkId)).None?
    decreases |names|
  {
    if names != [] {
      var init := names[..|names| - 1];
      var w := TableWrite(names[|names| - 1], render, encode);
      TablesKeepTextEntries(init, render, encode, document, chunkId);
      LastWriteAppend(UploadTables(init, render, encode), w, TextVectorId(document, chunkId));
      if w != [] {
        assert w[..0] == [];
        TextTableIdsDisjoint(document, chunkId, TableDocName(Stem(names[|names| - 1])));
      }
    }
  }

  // ---------------------------------------------------------------------
  // The whole upload step

  /** The upload step is one run of upserts: the chunk loop's, then the
      table loop's, then the image loop's. */
  lemma UploadAllIsApply(index: Index, records: seq<ChunkRecord>, tableNames: seq<string>, imageNames: seq<string>,
                         encode: string -> Option<Vector>, render: string -> Option<string>,
                         clip: string -> Option<Vector>, dim: nat)
    ensures UploadAll(index, records, tableNames, imageNames, encode, render, clip, dim)
            == Apply(index, UploadChunks(records, encode) + UploadTables(tableNames, render, encode)
                            + UploadImages(imageNames, clip, dim))
  {
    var text := UploadChunks(records, encode);
    var tables := UploadTables(tableNames, render, encode);
    ApplyAppend(index, text, tables);
    ApplyAppend(index, text + tables, UploadImages(imageNames, clip, dim));
  }

  /** A chunk record's id ends holding what that record alone wrote, when
      no image is upserted under the same id: the table loop never writes a
      text id. A record whose lookups succeed and all of whose pieces embed
      ends holding its last piece. */
  lemma UploadAllTextEntry(index: Index, records: seq<ChunkRecord>, tableNames: seq<string>, imageNames: seq<string>,
                           encode: string -> Option<Vector>, render: string -> Option<string>,
                           clip: string -> Option<Vector>, dim: nat, i: nat)
    requires i < |records| && DistinctChunkKeys(records)
    requires LastWrite(UploadImages(imageNames, clip, dim), TextVectorId(records[i].document, records[i].chunkId)).None?
    ensures var id := TextVectorId(records[i].document, records[i].chunkId);
            var own := LastWrite(UploadChunk(records[i], encode), id);
            var after := UploadAll(index, records, tableNames, imageNames, encode, render, clip, dim);
            (id in after <==> id in index || own.Some?)
            && (own.Some? ==> after[id] == own.value)
            && (own.None? && id in index ==> after[id] == index[id])
    ensures var rec := records[i];
            var pieces := Pieces(rec.text, DefaultMaxLength);
            var after := UploadAll(index, records, tableNames, imageNames, encode, render, clip, dim);
            ChunkSource(rec.meta).Some? && |rec.text| > 0 && (forall k :: 0 <= k < |pieces| ==> encode(pieces[k]).Some?)
            ==> TextVectorId(rec.document, rec.chunkId) in after
                && after[TextVectorId(rec.document, rec.chunkId)]
                   == Entry(encode(pieces[|pieces| - 1]).value, TextMeta(rec, ChunkSource(rec.meta).value))
  {
    var rec := records[i];
    var id := TextVectorId(rec.document, rec.chunkId);
    var text := UploadChunks(records, encode);
    var tables := UploadTables(tableNames, render, encode);
    var images := UploadImages(imageNames, clip, dim);
    var own := LastWrite(UploadChunk(rec, encode), id);
    assert LastWrite(text + tables + images, id) == own by {
      ChunksIsolated(records, encode, i);
      TablesKeepTextEntries(tableNames, render, encode, rec.document, rec.chunkId);
      LastWriteAppend(text, tables, id);
      LastWriteAppend(text + tables, images, id);
    }
    UploadAllIsApply(index, records, tableNames, imageNames, encode, render, clip, dim);
    ApplyIsLastWrite(index, text + tables + images, id);
    ChunkSurvivor(rec, encode);
  }

  /** A document's `{d}_table` id ends holding what the table loop last
      wrote under it, when no image is upserted under the same id: the
      chunk loop never writes a table id. */
  lemma UploadAllTableEntry(index: Index, records: seq<ChunkRecord>, tableNames: seq<string>, imageNames: seq<string>,
                            encode: string -> Option<Vector>, render: string -> Option<string>,
                            clip: string -> Option<Vector>, dim: nat, d: string)
    requires !Written(UploadImages(imageNames, clip, dim), TableVectorId(d))
    ensures var id := TableVectorId(d);
            var own := LastWrite(UploadTables(tableNames, render, encode), id);
            var after := UploadAll(index, records, tableNames, imageNames, encode, render, clip, dim);
            (id in after <==> id in index || own.Some?)
            && (own.Some? ==> after[id] == own.value)
            && (own.None? && id in index ==> after[id] == index[id])
  {
    var id := TableVectorId(d);
    var text := UploadChunks(records, encode);
    var tables := UploadTables(tableNames, render, encode);
    var images := UploadImages(imageNames, clip, dim);
    assert LastWrite(text + tables + images, id) == LastWrite(tables, id) by {
      forall k | 0 <= k < |records| ensures TextVectorId(records[k].document, records[k].chunkId) != id {
        TextTableIdsDisjoint(records[k].document, records[k].chunkId, d);
      }
      ChunksSkipId(records, encode, id);
      LastWriteNone(images, id);
      LastWriteAppend(text, tables, id);
      LastWriteAppend(text + tables, images, id);
    }
    UploadAllIsApply(index, records, tableNames, imageNames, encode, render, clip, dim);
    ApplyIsLastWrite(index, text + tables + images, id);
  }

  /** The image loop runs last, so an image file whose embedding succeeds
      ends holding its own entry whatever the earlier loops wrote; one whose
      embedding raises leaves its id as the chunk and table loops left it. */
  lemma UploadAllImageEntry(index: Index, records: seq<ChunkRecord>, tableNames: seq<string>, imageNames: seq<string>,
                            encode: string -> Option<Vector>, render: string -> Option<string>,
                            clip: string -> Option<Vector>, dim: nat, j: nat)
    requires StemsDetermineNames(imageNames) && j < |imageNames|
    ensures var name := imageNames[j];
            var id := ImageVectorId(Stem(name));
            var d := ImageDocName(Stem(name));
            var after := UploadAll(index, records, tableNames, imageNames, encode, render, clip, dim);
            clip(name).Some? ==> id in after && after[id] == Entry(Truncate(clip(name).value, dim), ImageMeta(d, FileName(name), d + ".pdf"))
    ensures var id := ImageVectorId(Stem(imageNames[j]));
            var before := Apply(Apply(index, UploadChunks(records, encode)), UploadTables(tableNames, render, encode));
            var after := UploadAll(index, records, tableNames, imageNames, encode, render, clip, dim);
            clip(imageNames[j]).None? ==> (id in after <==> id in before) && (id in before ==> after[id] == before[id])
  {
    var id := ImageVectorId(Stem(imageNames[j]));
    var before := Apply(Apply(index, UploadChunks(records, encode)), UploadTables(tableNames, render, encode));
    ImageSurvivor(imageNames, clip, dim, j);
    ApplyIsLastWrite(before, UploadImages(imageNames, clip, dim), id);
  }
}
