/**
 The upload step `process_and_upload_content`: read the chunk records, the
 table CSV files and the page and picture images that the parse step wrote,
 embed each one and upsert it into the vector index under an id built from
 its document. Every chunk record, table file and image file is handled in
 its own `try`: an exception ends that item only, and whatever it upserted
 before the exception stays in the index.

 The embedding models, the CSV reader and the image loader are parameters
 returning `None` when the call raises.
 */
module Upload {
  import opened Common
  import opened Text
  import opened Store
  import opened Chunker
  import opened Naming
  import opened VectorIds
  import opened Documents

  type Vector = seq<real>

  /** The metadata dict stored with each vector. */
  datatype Metadata =
    | TextChunkMeta(document: string, chunkId: nat, pageNo: Option<int>, pdfFilename: string)
    | TableMeta(document: string, filename: string, pdfFilename: string)
    | ImageMeta(document: string, filename: string, pdfFilename: string)

  datatype Entry = Entry(values: Vector, metadata: Metadata)

  /** The vector index: id to entry; `upsert` overwrites. */
  type Index = map<string, Entry>

  /** `chunk['meta']['origin']['filename']` and
      `chunk['meta']['doc_items'][0]['prov'][0].get("page_no")`; `None` when
      either lookup raises (missing key or empty list). A missing `page_no`
      is not an error: `get` yields `None`. */
  function ChunkSource(meta: ChunkMeta): Option<(string, Option<int>)>
  {
    if meta.originFilename.None? || |meta.docItems| == 0 || |meta.docItems[0].prov| == 0 then None
    else Some((meta.originFilename.value, meta.docItems[0].prov[0].pageNo))
  }

  /**
   The inner loop over the pieces of one chunk: each piece is embedded and
   upserted under the same id. The first piece whose embedding raises ends
   the loop, so the writes are the longest prefix of pieces that embed.
   */
  function PieceWrites(id: string, meta: Metadata, pieces: seq<string>, encode: string -> Option<Vector>)
    : (ws: seq<Write<Entry>>)
    ensures |ws| <= |pieces|
    ensures forall i :: 0 <= i < |ws| ==>
              encode(pieces[i]).Some? && ws[i] == Write(id, Entry(encode(pieces[i]).value, meta))
    ensures |ws| < |pieces| ==> encode(pieces[|ws|]).None?
  {
    if pieces == [] then []
    else
      match encode(pieces[0])
      case None => []
      case Some(v) => [Write(id, Entry(v, meta))] + PieceWrites(id, meta, pieces[1..], encode)
  }

  /** The metadata of a text piece. */
  function TextMeta(rec: ChunkRecord, source: (string, Option<int>)): Metadata
  {
    TextChunkMeta(rec.document, rec.chunkId, source.1, source.0)
  }

  /** One iteration of the chunk loop: the writes it makes before it ends or raises. */
  function UploadChunk(rec: ChunkRecord, encode: string -> Option<Vector>): (ws: seq<Write<Entry>>)
    ensures forall i :: 0 <= i < |ws| ==> ws[i].key == TextVectorId(rec.document, rec.chunkId)
  {
    match ChunkSource(rec.meta)
    case None => []
    case Some(source) =>
      PieceWrites(TextVectorId(rec.document, rec.chunkId), TextMeta(rec, source),
                  Pieces(rec.text, DefaultMaxLength), encode)
  }

  /** The chunk loop over the records of one or more `*_chunks.json` files. */
  function UploadChunks(records: seq<ChunkRecord>, encode: string -> Option<Vector>): seq<Write<Entry>>
  {
    if records == [] then [] else UploadChunk(records[0], encode) + UploadChunks(records[1..], encode)
  }

  /** One `try` block of the table loop: read the CSV, render it, embed it,
      and upsert it under the document's table id. */
  function TableWrite(name: string, render: string -> Option<string>, encode: string -> Option<Vector>)
    : seq<Write<Entry>>
  {
    var doc := TableDocName(Stem(name));
    match render(name)
    case None => []
    case Some(data) =>
      match encode(data)
      case None => []
      case Some(v) => [Write(TableVectorId(doc), Entry(v, TableMeta(doc, FileName(name), PdfFileName(doc))))]
  }

  /** The table loop over the files `*-table-*.csv` matched, in glob order. */
  function UploadTables(names: seq<string>, render: string -> Option<string>, encode: string -> Option<Vector>)
    : seq<Write<Entry>>
  {
    if names == [] then []
    else UploadTables(names[..|names| - 1], render, encode) + TableWrite(names[|names| - 1], render, encode)
  }

  /** `image_embedding[:embedding_dimension]`. */
  function Truncate(v: Vector, dim: nat): (r: Vector)
    ensures |r| == Min(|v|, dim)
    ensures forall i :: 0 <= i < |r| ==> r[i] == v[i]
  {
    v[..Min(|v|, dim)]
  }

  /** One `try` block of the image loop: embed the image, truncate the
      embedding to the text dimension, upsert it under the image's own id. */
  function ImageWrite(name: string, clip: string -> Option<Vector>, dim: nat): seq<Write<Entry>>
  {
    var stem := Stem(name);
    var doc := ImageDocName(stem);
    match clip(name)
    case None => []
    case Some(v) => [Write(ImageVectorId(stem), Entry(Truncate(v, dim), ImageMeta(doc, FileName(name), PdfFileName(doc))))]
  }

  /** The image loop over the page images then the picture images, in glob order. */
  function UploadImages(names: seq<string>, clip: string -> Option<Vector>, dim: nat): seq<Write<Entry>>
  {
    if names == [] then []
    else UploadImages(names[..|names| - 1], clip, dim) + ImageWrite(names[|names| - 1], clip, dim)
  }

  /** The three loops in order, starting from the index as it was. */
  function UploadAll(index: Index, records: seq<ChunkRecord>, tableNames: seq<string>, imageNames: seq<string>,
                     encode: string -> Option<Vector>, render: string -> Option<string>,
                     clip: string -> Option<Vector>, dim: nat): Index
  {
    var afterText := Apply(index, UploadChunks(records, encode));
    var afterTables := Apply(afterText, UploadTables(tableNames, render, encode));
    Apply(afterTables, UploadImages(imageNames, clip, dim))
  }
}
