/**
 The data the ingestion scripts pass around. The docling conversion result is
 an input value: its pages (the `pages` dict in insertion order), its items
 in `iterate_items()` order, the chunker's output and the markdown export.
 Images, CSV and HTML exports are opaque contents.
 */
module Documents {
  import opened Common

  /** Rendered pixels of a page, table or picture. */
  type Image = seq<int>

  datatype Page = Page(no: nat, image: Image)

  /** What `iterate_items()` yields, as far as the parse step distinguishes it. */
  datatype Item =
    | TableItem(image: Image, csv: string, html: string)
    | PictureItem(image: Image)
    | OtherItem

  /** `prov` entries of a chunk's doc item; `page_no` may be absent. */
  datatype Prov = Prov(pageNo: Option<int>)

  datatype DocItemRef = DocItemRef(prov: seq<Prov>)

  /** The parts of `chunk.meta` that the upload step reads:
      `meta['origin']['filename']` and `meta['doc_items'][0]['prov'][0]`. */
  datatype ChunkMeta = ChunkMeta(originFilename: Option<string>, docItems: seq<DocItemRef>)

  /** One output of the hierarchical chunker. */
  datatype Chunk = Chunk(text: string, meta: ChunkMeta)

  datatype ConvertedDocument = ConvertedDocument(
    pages: seq<Page>,
    items: seq<Item>,
    chunks: seq<Chunk>,
    markdown: string)

  /** One element of `{doc}_chunks.json`. */
  datatype ChunkRecord = ChunkRecord(document: string, chunkId: nat, text: string, meta: ChunkMeta)

  /** Contents of the files written to the output directory. */
  datatype Artifact =
    | PngFile(image: Image)
    | CsvFile(table: string)
    | HtmlFile(html: string)
    | ChunksFile(records: seq<ChunkRecord>)
    | MarkdownFile(markdown: string)

  /** The output directory: file name to contents. */
  type Directory = map<string, Artifact>
}
