/** The stage sequencing of `main`: validate, upload, extract, index, stopping
    at the first stage that fails and reporting which one it was. */
module Pipeline {
  import opened Validation
  import opened Paths
  import opened Extraction
  import opened Documents

  datatype PipelineResult =
    | NotStarted               // no file chosen or no user id entered
    | Rejected(reason: string) // validation failed; carries its message
    | UploadFailed
    | ProcessingFailed         // no text: missing blob, unreadable, or empty
    | IndexingFailed
    | Done

  /** One press of "Process Document". The external outcomes of the file
      write, the insert, the PDF reader and the index builder are inputs. */
  method Ingest(d: Document, file: Option<RawUpload>, userId: string,
                writeOk: bool, insertOk: bool, reader: Bytes -> PdfPages, indexOk: bool)
    returns (r: PipelineResult)
    requires d.Valid()
    modifies d
    ensures d.Valid()
    ensures d.hasTable == old(d.hasTable)
    ensures r.NotStarted? <==> file.None? || userId == ""
    ensures r.Rejected? <==> file.Some? && userId != "" && !Validate(file.value).isValid
    ensures r.Rejected? ==> r.reason == Validate(file.value).errorMessage
    ensures r.NotStarted? || r.Rejected? ==>
      d.uploads == old(d.uploads) && d.rows == old(d.rows) && d.nextId == old(d.nextId)
    ensures !r.NotStarted? && !r.Rejected? ==>
      var f := file.value;
      && d.uploads == (if writeOk then old(d.uploads)[f.name := f.bytes] else old(d.uploads))
      && d.rows == (if writeOk && insertOk && d.hasTable
                    then old(d.rows) + [Row(old(d.nextId), userId, f.name)] else old(d.rows))
      && d.nextId == (if writeOk && insertOk && d.hasTable then old(d.nextId) + 1 else old(d.nextId))
      && (r.UploadFailed? <==> !(writeOk && insertOk && d.hasTable))
      && (r.ProcessingFailed? <==> writeOk && insertOk && d.hasTable && !YieldsText(reader(f.bytes)))
      && (r.IndexingFailed? <==> writeOk && insertOk && d.hasTable && YieldsText(reader(f.bytes)) && !indexOk)
    ensures d.indexes ==
      if r.Done? then old(d.indexes)[Stem(file.value.name) := IndexOf(Concat(reader(file.value.bytes).texts))]
      else old(d.indexes)
    ensures old(d.RowsHaveBlobs()) ==> d.RowsHaveBlobs()
  {
    if file.None? || userId == "" {
      return NotStarted;
    }
    var f := file.value;
    var verdict := Validate(f);
    if !verdict.isValid {
      return Rejected(verdict.errorMessage);
    }
    var uploaded := d.Upload(file, userId, writeOk, insertOk);
    if !uploaded {
      return UploadFailed;
    }
    var text := d.ProcessDocument(f.name, reader);
    if text.None? || text.value == "" {
      return ProcessingFailed;
    }
    var stored := d.StoreEmbeddings(text.value, f.name, indexOk);
    if !stored {
      return IndexingFailed;
    }
    r := Done;
  }

  /** A small PDF from a fresh installation goes all the way through: one
      row for its owner and one index under its stem (for `base.pdf` that
      is `base`, by `Paths.StemOfExtension`). */
  method ScenarioAccepted(name: string) returns (r: PipelineResult, rows: seq<Row>, nextId: nat,
                                                 indexes: map<string, VectorIndex>)
    ensures r == Done
    ensures rows == [Row(1, "u1", name)] && nextId == 2
    ensures indexes == map[Stem(name) := IndexOf("Quarterly results...")]
  {
    var d := new Document(map[], false, [], 1, map[]);
    var f := RawUpload(PdfType, 2048, name, [37, 80, 68, 70]);
    var text := "Quarterly results...";
    ConcatSingle(text);
    r := Ingest(d, Some(f), "u1", true, true, _ => Pages([text]), true);
    rows, nextId, indexes := d.rows, d.nextId, d.indexes;
  }

  /** The concrete case: "report.pdf" is indexed under "report". */
  method ScenarioReport() returns (r: PipelineResult, rows: seq<Row>, indexes: map<string, VectorIndex>)
    ensures r == Done
    ensures rows == [Row(1, "u1", "report.pdf")]
    ensures indexes == map["report" := IndexOf("Quarterly results...")]
  {
    assert "report.pdf" == "report" + "." + "pdf";
    StemOfExtension("report", "pdf");
    var nextId;
    r, rows, nextId, indexes := ScenarioAccepted("report.pdf");
  }

  /** A text file is turned away by the type rule; nothing is written. */
  method ScenarioWrongType() returns (r: PipelineResult, blobs: set<string>, rows: seq<Row>)
    ensures r == Rejected(InvalidType)
    ensures blobs == {} && rows == []
  {
    var d := new Document(map[], false, [], 1, map[]);
    var f := RawUpload("text/plain", 1024, "notes.txt", []);
    r := Ingest(d, Some(f), "u1", true, true, _ => Unreadable, true);
    blobs, rows := d.uploads.Keys, d.rows;
  }

  /** A PDF over the limit is turned away by the size rule. */
  method ScenarioTooLarge() returns (r: PipelineResult)
    ensures r == Rejected(InvalidSize)
  {
    var d := new Document(map[], false, [], 1, map[]);
    var f := RawUpload(PdfType, 2000000, "big.pdf", []);
    r := Ingest(d, Some(f), "u1", true, true, _ => Pages(["x"]), true);
  }

  /** A PDF whose pages carry no text is stored and recorded, but the run
      ends at extraction (an empty text is falsy) and no index is built,
      even though the index builder would have succeeded. */
  method ScenarioEmptyText() returns (r: PipelineResult, blobs: set<string>, rows: seq<Row>,
                                      keys: set<string>)
    ensures r == ProcessingFailed
    ensures blobs == {"scan.pdf"} && rows == [Row(1, "u1", "scan.pdf")] && keys == {}
  {
    var d := new Document(map[], false, [], 1, map[]);
    var f := RawUpload(PdfType, 2048, "scan.pdf", []);
    ghost var pages := ["", ""];
    ConcatEmpty(pages);
    r := Ingest(d, Some(f), "u1", true, true, _ => Pages(["", ""]), true);
    blobs, rows, keys := d.uploads.Keys, d.rows, d.indexes.Keys;
  }

  /** Uploading again under a name already stored replaces the blob, keeps
      the earlier row and adds a new one with the next id. */
  method ScenarioSameName(name: string) returns (ok1: bool, ok2: bool, blob: Bytes, rows: seq<Row>)
    ensures ok1 && ok2
    ensures blob == [2]
    ensures rows == [Row(1, "u1", name), Row(2, "u2", name)]
  {
    var d := new Document(map[], false, [], 1, map[]);
    ok1 := d.Upload(Some(RawUpload(PdfType, 1, name, [1])), "u1", true, true);
    ok2 := d.Upload(Some(RawUpload(PdfType, 1, name, [2])), "u2", true, true);
    blob, rows := d.uploads[name], d.rows;
  }
}
