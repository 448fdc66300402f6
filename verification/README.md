# Ingestion pipeline: parse, name, chunk, upsert

A Dafny model of the pure logic under the PDF ingestion scripts of the
`airflow` directory. Three steps are modelled.

1. **Parse** (`process_pdf`, in `airflow/poc/parseandchunk.py` and inside
   `process_and_save_pdfs` in `airflow/dags/parsingpipeline.py`).
   - The document is named after the stem of its path.
   - Each page gets an image file.
   - Tables and pictures are numbered by two independent counters. Tables get
     CSV and HTML exports; pictures get image files.
   - The chunker's output is saved as numbered records, and the markdown is
     exported.
   - The output directory is a `map` from file name to contents, updated by
     overwriting writes.
2. **Split** (`chunk_text`). Text is cut into consecutive slices of at most
   512 characters.
3. **Upload** (`airflow/poc/pineconeupload.py` and
   `process_and_upload_content` in the DAG file).
   - Chunk records, table CSVs and page and picture images are embedded.
   - Each is upserted into a vector index under an id built from its document.
   - The index is a `map` from id to entry; `upsert` overwrites.

The DAG file and the two `poc` scripts contain the same parse and upload code
(the DAG file wraps it in functions). One model covers both, and the table
below cites whichever copy states the property most directly.

Modules:

- `Common`: `Option`, `Result`, `Min`.
- `Text`: Python string operations.
  - `split(sep)[0]` is `SplitHead`.
  - `str(int)` is `NatToString`.
  - `Path(p).name` is `FileName`.
  - `Path(p).stem` is `Stem`, with the last-dot rule of CPython 3.12 and earlier.
- `Chunker`: `chunk_text`.
- `Store`: overwrite-on-write, with `Apply` as the fold of writes and
  `LastWrite` as a reference reading. It models both the output directory and
  the vector index.
- `Naming`: the output file names, and the document-name recovery that the
  upload step applies to them.
- `VectorIds`: the three vector-id schemes.
- `Documents`: the conversion result (pages, items, chunks, markdown), chunk
  records and file contents.
- `Parsing`, `ParseFacts`, `ParsedFiles`: the parse step and what it leaves in
  the directory.
- `Upload`, `UploadFacts`: the upload step and what it leaves in the index.

Several things are parameters rather than modelled code:

- The docling conversion result is an input value.
- The text embedding model (`encode`), the CSV reader followed by
  `to_string` (`render`) and the CLIP image embedding (`clip`) are functions
  returning `None` when the call raises.
- The embedding dimension (`dim`) is a number.
- The glob results are sequences of file names relative to the output
  directory, in glob order.

## Model

| member | source | states |
|---|---|---|
| Text.SplitHead | airflow/poc/pineconeupload.py:92 | `split(sep)[0]` returns a prefix of the string with no separator starting before its end, ending either at the end of the string or where the first separator starts |
| Text.SplitHeadUnique | airflow/poc/pineconeupload.py:92 | those three properties determine the result of `split(sep)[0]` uniquely |
| Text.SplitHeadAbsent | airflow/poc/pineconeupload.py:92 | a stem without the separator is returned whole |
| Text.SplitHeadOfJoin | airflow/dags/parsingpipeline.py:272 | for a separator whose first character does not recur in it (true of `-table`, `-page` and `-picture`), splitting `a + b` where `b` starts with the separator and `a` does not contain it gives back `a` |
| Text.NatToString | airflow/poc/parseandchunk.py:50 | `str(n)` is a non-empty string of digits without a leading zero |
| Text.ParseNatToString | airflow/poc/parseandchunk.py:61 | reading the decimal digits of `str(n)` gives back `n` |
| Text.NatToStringInjective | airflow/poc/parseandchunk.py:68 | distinct counters give distinct strings |
| Text.LastIndexOf | airflow/poc/parseandchunk.py:46 | the index of the last occurrence of a character, or -1 when absent, with no occurrence after it |
| Text.FileName | airflow/poc/pineconeupload.py:102 | `os.path.basename` is a suffix of the path containing no '/' |
| Text.FileNameIsLastSlashSplit | airflow/poc/pineconeupload.py:102 | the file name is the whole path or the part right after a '/', so with the suffix and no-'/' facts it is the part after the last '/' |
| Text.FileNameOfJoin | airflow/poc/pineconeupload.py:90-102 | the file name of `dir/name` is `name` when `name` has no '/' |
| Text.Stem | airflow/poc/parseandchunk.py:46 | `Path(p).stem` is a prefix of the file name containing no '/' |
| Text.StemIsLastDotSplit | airflow/poc/parseandchunk.py:46 | the stem is the whole file name, or the part before a '.' that is neither first nor last and has no '.' after it; and whenever such a dot exists the stem ends there |
| Text.StemOfName | airflow/poc/parseandchunk.py:46 | the stem of `base.ext` is `base` when `ext` has no '.' |
| Chunker.Pieces | airflow/dags/parsingpipeline.py:234-235 | every piece is non-empty and at most `m` long, every piece but the last is exactly `m` long, and there are no pieces exactly when the text is empty |
| Chunker.PiecesConcat | airflow/dags/parsingpipeline.py:234-235 | concatenating the pieces gives back the text |
| Chunker.ChunkText | airflow/poc/pineconeupload.py:54-55 | `max_length` 0 raises (the step of `range` is zero); a negative one gives no pieces; a positive one gives pieces that concatenate to the text, are bounded by `max_length`, and number ceil(len(text) / max_length) |
| Chunker.PiecesAreRangeSlices | airflow/poc/pineconeupload.py:55 | the recursive splitter equals the literal comprehension `[text[i:i+m] for i in range(0, len(text), m)]` |
| Chunker.PieceCount | airflow/poc/pineconeupload.py:54-55 | the number of pieces is ceil(len(text) / m) |
| Chunker.PieceCountBounds | airflow/poc/pineconeupload.py:54-55 | the pieces cover more than (n-1)·m and at most n·m characters |
| Chunker.PieceAt | airflow/poc/pineconeupload.py:55 | piece k is the slice of the text from k·m to min((k+1)·m, len(text)) |
| Chunker.LastPiece | airflow/poc/pineconeupload.py:70 | the last piece is the text from the start of the last window on |
| Chunker.RangeCountBounds | airflow/poc/pineconeupload.py:55 | `range(0, n, m)` has c elements with (c-1)·m < n ≤ c·m |
| Chunker.CeilingDivision | airflow/poc/pineconeupload.py:55 | `range(0, n, m)` has q elements exactly when (q-1)·m < n ≤ q·m |
| Store.Apply | airflow/poc/pineconeupload.py:83 | a run of upserts, each replacing what its id held; its contract is given by `Store.ApplyKeys` and `Store.ApplyIsLastWrite` |
| Store.LastWrite | airflow/poc/pineconeupload.py:83 | the reference reading of a run of upserts: the value of the last write to a key, if any; `Store.ApplyIsLastWrite` ties it to `Store.Apply` |
| Store.ApplyKeys | airflow/poc/pineconeupload.py:83 | after a sequence of upserts a key is present exactly when it was before or some write targets it |
| Store.ApplyIsLastWrite | airflow/poc/pineconeupload.py:83 | overwrite-on-upsert: each key holds the value of its last write, and keys never written keep their value |
| Store.ApplyAppend | airflow/poc/pineconeupload.py:62-87 | performing two batches of writes in turn is performing their concatenation |
| Store.LastWriteAppend | airflow/poc/pineconeupload.py:62-87 | the last write to a key in `a + b` is the one in `b` if any, otherwise the one in `a` |
| Store.LastWriteNone | airflow/poc/pineconeupload.py:83 | there is no last write to a key exactly when no write targets it |
| Store.LastWriteAt | airflow/poc/pineconeupload.py:83 | a write that no later write to the same key follows decides the key |
| Store.ApplyFrame | airflow/poc/parseandchunk.py:51 | a key no write targets is unchanged |
| Store.WrittenAppend | airflow/poc/parseandchunk.py:49-80 | a key is written by `a + b` exactly when it is written by `a` or by `b` |
| Naming.PageImageName | airflow/poc/parseandchunk.py:50 | `{doc}-page-{p}.png` starts with the document name, and its characters after the document tell it apart from other kinds of name |
| Naming.TableCsvName | airflow/poc/parseandchunk.py:68 | `{doc}-table-{k}.csv` starts with the document name and ends in `v` |
| Naming.PictureImageName | airflow/poc/parseandchunk.py:77 | `{doc}-picture-{k}.png` starts with the document name, with `pi` right after the dash |
| Naming.TableDocName | airflow/poc/pineconeupload.py:92 | `stem.split('-table')[0]`; `Naming.TableDocNameRoundTrip` and `UploadFacts.ParsedTableDoc` show it recovers the document |
| Naming.ImageDocName | airflow/poc/pineconeupload.py:116 | `stem.split('-page')[0].split('-picture')[0]`; `VectorIds.ImageDocNameSpec` characterises it and `UploadFacts.ParsedImageDoc` shows it recovers the document |
| Naming.PdfFileName | airflow/poc/pineconeupload.py:103 | `f"{doc}.pdf"`, the `pdf_filename` metadata of tables and images; `UploadFacts.TableWriteValue` and `UploadFacts.ImageWriteKey` show it stored |
| Naming.TableNamesInjective | airflow/poc/parseandchunk.py:61-70 | the CSV, HTML and image names of tables k and j coincide only when k = j |
| Naming.ImageNamesInjective | airflow/poc/parseandchunk.py:49-50 | each page number and each picture number yields its own image name |
| Naming.TableDocNameRoundTrip | airflow/dags/parsingpipeline.py:124 | if `doc` contains no `-table`, splitting `{doc}-table-{k}` at the first `-table` gives back `doc` |
| Naming.PageDocNameRoundTrip | airflow/dags/parsingpipeline.py:296 | if `doc` contains neither `-page` nor `-picture`, the image name recovery maps `{doc}-page-{p}` back to `doc` |
| Naming.PictureDocNameRoundTrip | airflow/dags/parsingpipeline.py:133 | under the same condition, `{doc}-picture-{k}` maps back to `doc` |
| Naming.MiddleInjective | airflow/poc/parseandchunk.py:68 | two names that share a prefix and a suffix are equal only when their middles are |
| VectorIds.TextVectorId | airflow/poc/pineconeupload.py:83 | the id `{document}_{chunk_id}`; `VectorIds.TextVectorIdInjective` is its inverse |
| VectorIds.TableVectorId | airflow/poc/pineconeupload.py:107 | the id `{doc}_table`; `VectorIds.TableVectorIdShared` says which table files share it |
| VectorIds.ImageVectorId | airflow/poc/pineconeupload.py:136 | the id `{doc}_{stem}`; `VectorIds.ImageVectorIdInjective` is its inverse |
| VectorIds.TextVectorIdInjective | airflow/poc/pineconeupload.py:83 | the id `{document}_{chunk_id}` determines both the document and the chunk id |
| VectorIds.TableVectorIdShared | airflow/poc/pineconeupload.py:107 | two table files share an id exactly when they name the same document |
| VectorIds.TextTableIdsDisjoint | airflow/poc/pineconeupload.py:107 | no table id equals any text id |
| VectorIds.ImageDocNameSpec | airflow/poc/pineconeupload.py:116 | the recovered document is a prefix of the stem with no `-page` or `-picture` starting inside it, ending at the end of the stem or at a marker |
| VectorIds.ImageDocNotShorter | airflow/poc/pineconeupload.py:116-136 | two stems with the same image id recover documents of the same length, because a shorter one would put a marker inside the other's document part |
| VectorIds.ImageVectorIdInjective | airflow/poc/pineconeupload.py:136 | the id `{doc}_{stem}` determines the stem, so distinct image stems get distinct entries |
| VectorIds.ImageDocOfPageStem | airflow/poc/pineconeupload.py:116 | whatever follows a page stem `{d}-page-{p}`, the recovered document is `d` |
| VectorIds.ImageTextCollision | airflow/poc/pineconeupload.py:83-136 | the image stem `{d}-page-{p}_{c}` has the same id as text chunk `c` of document `{d}_{d}-page-{p}` |
| VectorIds.ImageTableCollision | airflow/poc/pineconeupload.py:107-136 | the image stem `{d}-page-{p}_table` has the same id as the table entry of document `{d}_{d}-page-{p}` |
| Parsing.Tables | airflow/poc/parseandchunk.py:59 | the tables among the items: only table items, and no more of them than items; `Parsing.SelectSingleton` and `Parsing.SelectAppend` pin down which and in what order |
| Parsing.Pictures | airflow/poc/parseandchunk.py:75 | the pictures among the items: only picture items, and no more of them than items; pinned down by the same two lemmas |
| Parsing.SelectSingleton | airflow/poc/parseandchunk.py:58-80 | one item contributes itself to the tables exactly when it is a `TableItem`, and to the pictures exactly when it is a `PictureItem` |
| Parsing.SelectAppend | airflow/poc/parseandchunk.py:58-80 | the tables (pictures) of `a + b` are those of `a` followed by those of `b`, so the counters number them in document order |
| Parsing.PageWrites | airflow/poc/parseandchunk.py:49-53 | one write of `page.image` to `{doc}-page-{page_no}.png` per page, in order; `ParsedFiles.PageWritesAt` and `ParsedFiles.PageWritesSkip` state what it leaves |
| Parsing.SaveItems | airflow/poc/parseandchunk.py:56-80 | the item loop raises exactly when the table image target is unbound and there is a table; otherwise it ends with the table counter at t + #tables and the picture counter at q + #pictures |
| Parsing.BuildChunkRecords | airflow/poc/parseandchunk.py:89-101 | one record per chunker output, in order, with `chunk_id` i for the i-th, `document` the document name, and the chunk's text and metadata; equal to the comprehension `ChunkRecords` |
| Parsing.ParseWrites | airflow/poc/parseandchunk.py:46-115 | the page loop's writes, then the item loop's, then (if the item loop did not raise) the chunk records and the markdown; `ParsedFiles.RunLastWrite` and `ParsedFiles.RunKeys` state what they leave |
| Parsing.ParsePdf | airflow/poc/parseandchunk.py:31-115 | the parse as written raises exactly when the document has a table but no pages |
| Parsing.ParsePdfCorrected | airflow/poc/parseandchunk.py:61 | with the table image saved under its own name, the parse never raises |
| Parsing.ParseAll | airflow/dags/parsingpipeline.py:177-178 | the parse applied to each file in turn, stopping at the first that raises; never counts more files than given |
| Parsing.ParseAllCount | airflow/dags/parsingpipeline.py:177-178 | the loop over the files counts exactly the leading files that do not raise, since an exception ends the whole step |
| Parsing.LeadingParsedStops | airflow/dags/parsingpipeline.py:177-178 | the files before that count all parse without raising, and the file at the count, if any, raises |
| Parsing.ParseAllStops | airflow/dags/parsingpipeline.py:177-178 | the files are parsed in order until the first one that raises; all earlier ones parsed completely, and the count points at the one that raised |
| ParseFacts.SaveItemsKeys | airflow/poc/parseandchunk.py:56-80 | the item loop writes only table CSV and HTML names, picture names, and the table image target |
| ParseFacts.SaveItemsExport | airflow/dags/parsingpipeline.py:112-129 | the k-th table's CSV and HTML go to `{doc}-table-{k}.csv/.html` with that table's content, and no other table number is written |
| ParseFacts.SaveItemsPicture | airflow/dags/parsingpipeline.py:131-135 | the k-th picture goes to `{doc}-picture-{k}.png`, numbered independently of the tables, and no other picture number is written |
| ParseFacts.SaveItemsLastPage | airflow/poc/parseandchunk.py:61-63 | as written, every table image is saved over the last page's image file, which ends up holding the last table's image |
| ParseFacts.ExportNamesDistinct | airflow/poc/parseandchunk.py:61-70 | the export names of two tables coincide only for the same export of the same table |
| ParseFacts.ItemsSkipPage | airflow/poc/parseandchunk.py:58-80 | the item loop writes no page image except the one it targets |
| ParseFacts.ItemsSkipOutputs | airflow/poc/parseandchunk.py:58-80 | the item loop never writes the chunk records or the markdown |
| ParseFacts.ItemsSkipTableImage | airflow/dags/parsingpipeline.py:117-119 | as written, the item loop never writes a `{doc}-table-{k}.png` file |
| ParsedFiles.PageWritesAt | airflow/poc/parseandchunk.py:49-52 | the page loop leaves each page's own image under `{doc}-page-{p}.png` |
| ParsedFiles.PageWritesSkip | airflow/poc/parseandchunk.py:49-52 | the page loop writes nothing but page image names |
| ParsedFiles.RunLastWrite | airflow/poc/parseandchunk.py:104-115 | in a parse that does not raise, the markdown and chunk record files hold the last two writes, and every other name holds the item loop's last write, else the page loop's |
| ParsedFiles.RunKeys | airflow/poc/parseandchunk.py:46-112 | every file the parse writes, raising or not, is named with the document name as prefix |
| ParsedFiles.ParsePdfTableExports | airflow/poc/parseandchunk.py:66-73 | after the parse, table k (from 1) has its CSV and HTML under `{doc}-table-{k}.csv/.html`; other numbers are left alone |
| ParsedFiles.ParsePdfPictures | airflow/poc/parseandchunk.py:75-80 | after the parse, picture k (from 1) is in `{doc}-picture-{k}.png`; other numbers are left alone |
| ParsedFiles.ParsePdfPages | airflow/poc/parseandchunk.py:49-63 | after the parse, every page keeps its own image except the last one, which holds the last table's image when there is a table |
| ParsedFiles.ParsePdfNoTableImage | airflow/poc/parseandchunk.py:61-64 | no `{doc}-table-{k}.png` is created or changed, even when the parse raises |
| ParsedFiles.ParsePdfFrame | airflow/poc/parseandchunk.py:46-112 | files not named after the document are left alone, by the parse as written and by the corrected one |
| ParsedFiles.ParsePdfOutputs | airflow/poc/parseandchunk.py:104-115 | a parse that does not raise saves the numbered chunk records and the markdown under `{doc}_chunks.json` and `{doc}-with-images.md`; one that raises writes neither |
| ParsedFiles.ParsePdfCorrectedPages | airflow/poc/parseandchunk.py:49-63 | with the intended table image name, every page keeps its own image |
| ParsedFiles.ParsePdfCorrectedTables | airflow/poc/parseandchunk.py:59-80 | with the intended table image name, table k has its image, CSV and HTML under `{doc}-table-{k}.png/.csv/.html`, and pictures are numbered as before |
| ParsedFiles.TableOverwritesPage | airflow/poc/parseandchunk.py:61-63 | for any one-page document with one table whose image differs from the page's, the page file holds the table's image and no table image file appears; the corrected parse keeps both |
| ParsedFiles.UnboundTargetExample | airflow/poc/parseandchunk.py:49-62 | a document with a table and no pages makes the parse as written raise before it writes the chunk records or markdown; the corrected parse does not raise |
| Upload.ChunkSource | airflow/poc/pineconeupload.py:66-67 | the `pdf_filename` and `page_no` lookups, `None` when a key or list element is missing; `UploadFacts.ChunkSurvivor` shows a failing lookup writes nothing |
| Upload.PieceWrites | airflow/poc/pineconeupload.py:70-83 | each piece is upserted in order under the chunk's id with its own embedding; the first piece whose embedding raises ends the loop |
| Upload.UploadChunk | airflow/poc/pineconeupload.py:62-87 | every upsert of one chunk record goes under `{document}_{chunk_id}` |
| Upload.UploadChunks | airflow/poc/pineconeupload.py:58-87 | the chunk loop: each record's writes in order; `UploadFacts.UploadChunksAppend` and `UploadFacts.ChunksIsolated` state its behaviour |
| Upload.TableWrite | airflow/poc/pineconeupload.py:92-111 | one table file's `try`: one upsert under `{doc}_table`, or none when reading, rendering or embedding raises; `UploadFacts.TableWriteKey` and `UploadFacts.TableWriteValue` state it |
| Upload.UploadTables | airflow/poc/pineconeupload.py:90-111 | the table loop in glob order; `UploadFacts.TableSurvivor` and `UploadFacts.TableAbsent` state what it leaves |
| Upload.Truncate | airflow/dags/parsingpipeline.py:305 | an image vector is the first min(len, embedding_dimension) entries of the raw embedding |
| Upload.ImageWrite | airflow/poc/pineconeupload.py:116-140 | one image file's `try`: one upsert under `{doc}_{stem}` of the truncated embedding, or none when embedding raises; `UploadFacts.ImageWriteKey` states it |
| Upload.UploadImages | airflow/poc/pineconeupload.py:114-140 | the image loop over the page globs then the picture globs; `UploadFacts.ImageSurvivor` states what it leaves |
| Upload.UploadAll | airflow/poc/pineconeupload.py:57-140 | the three loops in order on one index; the `UploadFacts.UploadAll…` lemmas state it |
| UploadFacts.ChunkSurvivor | airflow/poc/pineconeupload.py:70-83 | a chunk whose lookups succeed and whose pieces all embed leaves the embedding of its last piece under its id; a chunk whose lookups raise, or whose text is empty, writes nothing |
| UploadFacts.ChunkWritesOwnId | airflow/poc/pineconeupload.py:83 | a chunk record writes nothing under any other id |
| UploadFacts.UploadChunksAppend | airflow/poc/pineconeupload.py:58-62 | the chunk loop over two batches of records is the loop over one then the other |
| UploadFacts.ChunksSkipId | airflow/poc/pineconeupload.py:62-87 | an id that no record has receives no write |
| UploadFacts.ChunksIsolated | airflow/poc/pineconeupload.py:62-87 | an exception in one chunk record does not affect what other records leave in the index: each record's id holds what that record alone wrote |
| UploadFacts.ChunkRecordsDistinct | airflow/poc/parseandchunk.py:89-101 | the records of one parsed document never share a document and chunk id |
| UploadFacts.ParsedChunkUploaded | airflow/poc/pineconeupload.py:62-87 | uploading a parsed document's records leaves exactly one entry for chunk i, under `{doc}_{i}`, holding its last piece with the chunk's metadata |
| UploadFacts.TableWriteKey | airflow/poc/pineconeupload.py:90-111 | a table file writes under `{d}_table` exactly when it renders, embeds and names document d |
| UploadFacts.TableWriteValue | airflow/poc/pineconeupload.py:90-111 | a table file that renders and embeds is upserted with its embedding and metadata naming its document, its file name and `{doc}.pdf` |
| UploadFacts.TableSurvivor | airflow/poc/pineconeupload.py:90-111 | all tables of a document share one id, so the entry left is that of the last table file of the document that rendered and embedded, with metadata naming the document and `{doc}.pdf` |
| UploadFacts.TableAbsent | airflow/poc/pineconeupload.py:90-111 | a document none of whose table files succeeded has no table entry |
| UploadFacts.TablesKeepTextEntries | airflow/dags/parsingpipeline.py:270-291 | the table loop never overwrites a text entry |
| UploadFacts.ImageWriteKey | airflow/poc/pineconeupload.py:114-140 | one image file writes under the id of stem `s` exactly when its stem is `s` and its embedding succeeds, and then with the truncated embedding |
| UploadFacts.ImageSurvivor | airflow/poc/pineconeupload.py:114-140 | when files sharing a stem are the same file (a name both globs match is listed twice), each image whose embedding succeeds keeps its own entry with the truncated embedding and metadata naming its document and `{doc}.pdf`; one whose embedding raises has no entry |
| UploadFacts.ImagesSkipId | airflow/poc/pineconeupload.py:116-136 | the id of a stem none of whose files embeds receives no write |
| UploadFacts.ParsedTableDoc | airflow/dags/parsingpipeline.py:272 | the upload step recovers the document from every table CSV that the parse step wrote for it |
| UploadFacts.ParsedImageDoc | airflow/dags/parsingpipeline.py:296 | the upload step recovers the document from every page and picture image that the parse step wrote for it |
| UploadFacts.UploadAllIsApply | airflow/poc/pineconeupload.py:57-140 | the upload step is one run of upserts: the chunk loop's writes, then the table loop's, then the image loop's |
| UploadFacts.UploadAllTextEntry | airflow/poc/pineconeupload.py:62-87 | when no image is upserted under a record's id, that id ends holding what the record alone wrote, or what the index held; a record whose lookups succeed and pieces all embed ends holding its last piece |
| UploadFacts.UploadAllTableEntry | airflow/poc/pineconeupload.py:90-111 | when no image is upserted under `{d}_table`, that id ends holding the table loop's last write to it, or what the index held |
| UploadFacts.UploadAllImageEntry | airflow/poc/pineconeupload.py:114-140 | the image loop runs last, so an image that embeds ends holding its own truncated entry; one that does not leaves its id as the earlier loops left it |

## Left out

- The GCS download (`download_files_from_gcs`, `airflow/poc/downloadfromgcs.py`) and credential loading: cloud I/O over a fixed file list.
- docling conversion, the hierarchical chunker and the markdown export: library calls. Their results are inputs (pages, items, chunks, markdown).
- Rendering images to PNG, `export_to_dataframe`, `to_csv`, `export_to_html`, and JSON serialisation: file contents are kept as opaque values.
- `chunk.meta.dict()` versus `str(chunk.meta)`: records carry the metadata fields that the upload step reads.
- The SentenceTransformer and CLIP models, torch, and floating point: embeddings are oracle outputs. Only the truncation to the text dimension is modelled.
- The Pinecone client, index creation and the network: the index is a map with overwrite-on-upsert.
- Logging, timing and `print`.
- The Airflow DAG wiring: a fixed order of three tasks.
- `json.load` of a malformed file, which is outside the `try` and aborts the whole text step: the records are taken as already loaded.
- A table or picture whose `image` is `None`, which raises at `.pil_image`: every table and picture item carries an image.
- A page whose `page.image` is `None`, which would raise at `.pil_image` outside any `try` (airflow/poc/parseandchunk.py:52): every page carries an image, since page images are requested.
- An `index.upsert` that raises, for example on a `page_no` of `None` in the metadata: every upsert is taken to succeed once its embedding exists.
- Glob matching, including hidden files and the order the operating system lists names in: the matched names are inputs.
- The text, table and image loops each run over their own inputs in `UploadAll`. An image id can equal a text id or a table id (`VectorIds.ImageTextCollision` and `VectorIds.ImageTableCollision`: stems such as `a-page-1_2` and `a-page-1_table`), so `UploadFacts.UploadAllTextEntry` and `UploadFacts.UploadAllTableEntry` assume no image write lands on the id.
- `Path` normalisation beyond taking the part after the last '/' (for example `.` or `..` components).
- Parsing.ParseAllStops: it states which files were parsed before the first exception, not the directory contents after several files. Each file's effect is given by the `ParsedFiles` lemmas.
- ParsedFiles.ParsePdfPages: assumes the page numbers of one document are distinct, which holds because docling keys pages by number.
- UploadFacts.ImageSurvivor: assumes files sharing a stem are the same file. The two globs list `.png` files of one directory, so a name they both match is listed twice (as `x-page-1-picture-2.png` is), and two different names never share a stem.
- UploadFacts.ChunkSurvivor: gives the surviving value only when every piece embeds. When an embedding raises part-way, the writes are the prefix characterised by `Upload.PieceWrites`.

## Findings

| source | as written | input that shows it | evidently intended | confidence | as-written member | corrected member |
|---|---|---|---|---|---|---|
| airflow/poc/parseandchunk.py:61-63 | the table image is written to `page_image_filename`, the last page's image file, while `table_image_filename` is only logged | a one-page document with one table: the page's image file ends up holding the table's image, and no table image file exists | save the table image as `{doc}-table-{k}.png` | not executed | ParsedFiles.TableOverwritesPage | ParsedFiles.ParsePdfCorrectedPages |
| airflow/dags/parsingpipeline.py:106-118 | `page_image_filename` is bound only inside the page loop | a document with a table and no pages raises UnboundLocalError before the chunk records and markdown are written | the table image is written under its own name, so no page is needed | not executed | ParsedFiles.UnboundTargetExample | Parsing.ParsePdfCorrected |
