# DocProcess ingestion pipeline, modelled in Dafny

DocProcess accepts a PDF from a user and runs it through four stages:
1. validation by type and size;
2. storage of the blob in an uploads directory, plus an ownership row in the `users_documents` table;
3. text extraction, page by page;
4. a vector index persisted under the file's stem.

The model covers the `Document` class of `app.py` and the stage sequencing of its `main`.

- `validation.dfy` (module `Validation`): the upload record and the two admission rules. The type rule runs before the size rule. The size limit of 1048576 bytes is inclusive.
- `paths.dfy` (module `Paths`): `Path(filename).stem`. This is the final path component with its last extension removed. A dot counts as an extension separator only when it is neither the first nor the last character of the name. That is pathlib's rule up to Python 3.13.
- `extraction.dfy` (module `Extraction`): the PDF reader's result (unreadable, or one text per page). It also defines how page texts are joined: in page order, with no separator.
- `documents.dfy` (module `Documents`): the class `Document`. Its fields hold the external state the source changes in place:
  - `uploads`: file name to bytes;
  - `hasTable`, `rows` and `nextId`: the table and its autoincrement counter;
  - `indexes`: filename stem to persisted index.

  The constructor takes whatever is already on disk and then runs `InitDatabase`, as `Document.__init__` does.
- `pipeline.dfy` (module `Pipeline`): `main`'s sequence as `Ingest`. It returns a result that names the stage that stopped the run. The module ends with end-to-end scenarios.

External effects are inputs to the methods:
- whether the blob write succeeds;
- whether the row insert succeeds;
- what the PDF reader makes of the stored bytes (a function from bytes to pages);
- whether the index builder succeeds.

Every other behaviour is stated as the code does it:
- A failed write stops before the insert.
- A failed insert keeps the blob. An insert into a missing table also fails.
- A blob of the same name is overwritten.
- Each insert appends a row with a fresh, strictly larger id.
- `storeEmbeddings` replaces any index under the same stem.

A row is appended only after its blob has been written, and nothing deletes blobs. So `Upload` and `Ingest` preserve `RowsHaveBlobs`: every row names a blob that is present.

`main` calls `storeEmbeddings` only when the extracted text is truthy (app.py:193). So a PDF whose pages carry no text ends as `ProcessingFailed` after its blob and row have been written, not as an indexing failure. `storeEmbeddings` has no rule of its own about empty text. Whether the index library rejects empty text is part of the abstract builder outcome. `Pipeline.ScenarioEmptyText` shows this case.

## Model

| member | source | states |
|---|---|---|
| Validation.Validate | app.py:25-43 | accepts exactly a PDF of at most 1048576 bytes, with an empty message; a non-PDF is rejected as "Invalid Document Type" whatever its size; an oversized PDF is rejected as "Invalid Document Size" |
| Validation.RejectionNamesRule | app.py:36-41 | every rejection carries one of the two messages, and the two messages differ |
| Validation.SizeBoundary | app.py:39-41 | a PDF of exactly 1048576 bytes is accepted and one of 1048577 bytes is rejected for size |
| Paths.Name | app.py:145 | the final component is everything after the last '/': it contains no '/', is a suffix of the path, is preceded by a '/' whenever it is shorter than the path, and is the whole path when the path has no '/' |
| Paths.Stem | app.py:145 | the key contains no '/' and is a prefix of the final component; when it is shorter, exactly a non-empty, dot-free extension after a non-empty base has been removed |
| Paths.StemOfExtension | app.py:145 | `base.ext` with a non-empty base and a non-empty dot-free extension is keyed by `base` (so "test.pdf" is keyed by "test") |
| Paths.NoExtension | app.py:145 | a name without a dot is its own key |
| Paths.SharedKey | app.py:145-159 | two distinct uploads `base.ext1` and `base.ext2` (such as `base.pdf` and `base.txt`) get the same index key `base`, so the second index replaces the first |
| Extraction.ExtractText | app.py:119-126 | extraction yields text exactly when the reader can parse the blob |
| Extraction.ConcatSingle | app.py:123-124 | a one-page document's text is that page's text |
| Extraction.ConcatAppend | app.py:123-124 | the text of two page runs is the text of the first followed by the text of the second |
| Extraction.PageInOrder | app.py:123-124 | page k appears whole, after all earlier pages and before all later ones, with no separator |
| Extraction.ConcatEmpty | app.py:121-126 | the extracted text is empty exactly when every page's text is empty, including a document with no pages |
| Extraction.Concat | app.py:121-124 | the `text += page.extract_text()` fold: the text's length is the sum of the page lengths (order and the absence of separators are stated by `ConcatAppend` and `PageInOrder`) |
| Documents.FilenamesOf | unit_tests.py:105-108 | the owner query lists a filename exactly when some row of that owner has it, at most one entry per row; its order under inserts is stated by `FilenamesOfAppend` |
| Documents.FilenamesOfAppend | unit_tests.py:102-110 | after appending a row, its owner's filename listing gains exactly that filename at the end, and other owners' listings are unchanged |
| Documents.FirstListedAfterInsert | unit_tests.py:105-110 | for an owner with no earlier rows, the first filename listed after an insert is the inserted one |
| Documents.Document.constructor | app.py:14-23 | opening over any well-formed prior table state leaves the table present, existing rows and counter kept, blobs and indexes untouched |
| Documents.Document.InitDatabase | app.py:45-61 | afterwards the table exists; an existing table keeps its rows and counter, so a repeated call changes nothing; a missing table is created empty |
| Documents.Document.Upload | app.py:63-101 | no file: false and no change; a failed write: false and no change; otherwise the blob is stored under the name, overwriting; then on a successful insert one row (next id, user, name) is appended with an id above all earlier ids, and otherwise false with the blob kept; well-formedness and rows-have-blobs are preserved |
| Documents.Document.ProcessDocument | app.py:103-130 | None when no blob has that name or the reader cannot parse it; otherwise the in-order concatenation of the page texts |
| Documents.Document.StoreEmbeddings | app.py:132-165 | returns the builder's outcome; on success the index under the filename's stem is set to the new text's index, replacing any earlier one; on failure nothing changes |
| Pipeline.Ingest | app.py:180-204 | no file or no user id: nothing happens; a validation failure is reported with its message and writes nothing; upload, extraction (no text or empty text) and indexing failures are told apart; blob, rows, id counter and indexes change exactly as the stages that ran dictate; only a full run adds an index |
| Pipeline.ScenarioAccepted | app.py:184-198 | on a fresh installation a 2048-byte PDF whose page says "Quarterly results..." ends Done with one row (1, "u1", name), the id counter at 2 and one index under the name's stem |
| Pipeline.ScenarioReport | app.py:184-198 | the concrete case: "report.pdf" ends Done with row (1, "u1", "report.pdf") and its index under "report" |
| Pipeline.ScenarioWrongType | app.py:184-186 | a "text/plain" file ends Rejected("Invalid Document Type") with no blob and no row |
| Pipeline.ScenarioTooLarge | app.py:184-186 | a 2000000-byte PDF ends Rejected("Invalid Document Size") |
| Pipeline.ScenarioEmptyText | app.py:188-202 | a PDF whose pages are empty is stored and recorded, but ends ProcessingFailed with no index, although the builder would succeed |
| Pipeline.ScenarioSameName | app.py:80-95 | two uploads under one name leave the second blob and both rows, with ids 1 and 2 |

## Left out

- The Streamlit interface is not modelled: title, inputs, the "Process Document" button and the success and error messages (app.py:168-204, 100, 129, 164). `Ingest` stands for one button press, and its result variant replaces the messages.
- Creation of the uploads and embeddings directories (app.py:17-20) is not modelled. Both are assumed to exist.
- The unused timestamp (app.py:79) and the `upload_date` column are not modelled. They do not affect behaviour.
- PyPDF2 is an input function from the stored bytes to `Unreadable` or a list of page texts. A failure inside one page's `extract_text` is folded into `Unreadable`.
- llama_index and the OpenAI embedding service are reduced to a success flag. A stored index is represented only by the text it was built from. Whether the library fails on empty text is part of that flag.
- sqlite connections, commits and constraint checking are not modelled. An insert failure is an input. Running out of rowids is not modelled separately.
- A file write that fails after the file was opened can, in reality, leave a truncated file. The model treats every failed write as leaving `uploads` unchanged.
- Path handling is not modelled. The blob is keyed by the upload's name string. A name containing '/' or an absolute name would make the real code write elsewhere. `Paths.Name` takes everything after the last '/'. pathlib's normalisation of repeated or trailing separators and of '.' components is not modelled. Neither is the Python 3.14 treatment of a trailing dot.
- Listing by owner exists only in the tests' query (unit_tests.py:105-108). `Documents.FilenamesOf` models that query as a function, not as an operation of the class.
- Concurrent ingestions are not modelled. The model runs one request at a time.
