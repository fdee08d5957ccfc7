/** The `Document` class of app.py: one handle on three pieces of external
    state that the class updates in place — the uploads directory (a blob per
    file name), the `users_documents` table (an append-only sequence of rows
    with an autoincrement counter) and the embeddings directory (one persisted
    vector index per filename stem). */
module Documents {
  import opened Validation
  import opened Paths
  import opened Extraction

  /** One row of `users_documents`; the upload timestamp is not modelled. */
  datatype Row = Row(id: nat, userId: string, filename: string)

  /** A persisted vector index, opaque apart from the text it was built from. */
  datatype VectorIndex = IndexOf(text: string)

  /** What the table guarantees: no rows without the table, ids start at 1,
      increase strictly in insertion order and stay below the next id. */
  predicate TableWellFormed(hasTable: bool, rows: seq<Row>, nextId: nat)
  {
    && (!hasTable ==> rows == [])
    && 1 <= nextId
    && (forall i :: 0 <= i < |rows| ==> 1 <= rows[i].id < nextId)
    && (forall i, j :: 0 <= i < j < |rows| ==> rows[i].id < rows[j].id)
  }

  /** The filenames of a user's rows in table order, i.e. what
      `SELECT filename FROM users_documents WHERE user_id = ?` returns. */
  function FilenamesOf(rows: seq<Row>, userId: string): (fs: seq<string>)
    ensures |fs| <= |rows|
    ensures forall f :: f in fs <==> exists i :: 0 <= i < |rows| && rows[i].userId == userId && rows[i].filename == f
  {
    if rows == [] then []
    else (if rows[0].userId == userId then [rows[0].filename] else []) + FilenamesOf(rows[1..], userId)
  }

  /** Appending a row extends the owner's listing by its filename and leaves
      every other user's listing alone. */
  lemma {:induction false} FilenamesOfAppend(rows: seq<Row>, row: Row, userId: string)
    ensures FilenamesOf(rows + [row], userId)
         == FilenamesOf(rows, userId) + (if row.userId == userId then [row.filename] else [])
  {
    if rows != [] {
      assert (rows + [row])[1..] == rows[1..] + [row];
      FilenamesOfAppend(rows[1..], row, userId);
    }
  }

  /** For a user with no earlier rows, the first filename the query returns
      after an insert is the inserted one. */
  lemma FirstListedAfterInsert(rows: seq<Row>, id: nat, userId: string, filename: string)
    requires FilenamesOf(rows, userId) == []
    ensures FilenamesOf(rows + [Row(id, userId, filename)], userId) == [filename]
  {
    FilenamesOfAppend(rows, Row(id, userId, filename), userId);
  }

  class Document {
    var uploads: map<string, Bytes>
    var hasTable: bool
    var rows: seq<Row>
    var nextId: nat
    var indexes: map<string, VectorIndex>

    ghost predicate Valid()
      reads this
    {
      TableWellFormed(hasTable, rows, nextId)
    }

    /** Every row names a blob that is present: the blob is written before
        its row, and nothing here deletes blobs. */
    ghost predicate RowsHaveBlobs()
      reads this
    {
      forall i :: 0 <= i < |rows| ==> rows[i].filename in uploads
    }

    /** Opens a handle on whatever is already on disk — the table may or may
        not exist yet — and makes sure the table exists. */
    constructor (uploads0: map<string, Bytes>, hasTable0: bool, rows0: seq<Row>, nextId0: nat,
                 indexes0: map<string, VectorIndex>)
      requires TableWellFormed(hasTable0, rows0, nextId0)
      ensures Valid() && hasTable
      ensures uploads == uploads0 && indexes == indexes0
      ensures hasTable0 ==> rows == rows0 && nextId == nextId0
      ensures !hasTable0 ==> rows == [] && nextId == 1
    {
      uploads, hasTable, rows, nextId, indexes := uploads0, hasTable0, rows0, nextId0, indexes0;
      new;
      InitDatabase();
    }

    /** `CREATE TABLE IF NOT EXISTS`: afterwards the table exists; an existing
        table keeps its rows and counter, so a second call changes nothing. */
    method InitDatabase()
      requires Valid()
      modifies this`hasTable, this`rows, this`nextId
      ensures Valid() && hasTable
      ensures old(hasTable) ==> rows == old(rows) && nextId == old(nextId)
      ensures !old(hasTable) ==> rows == [] && nextId == 1
    {
      if !hasTable {
        hasTable, rows, nextId := true, [], 1;
      }
    }

    /** Writes the blob under the upload's own name, overwriting any earlier
        blob of that name, then inserts one row. The caller supplies whether
        the file write and the insert succeed. A failed write stops before the
        insert; a failed insert (including a missing table) keeps the blob. */
    method Upload(file: Option<RawUpload>, userId: string, writeOk: bool, insertOk: bool)
      returns (ok: bool)
      requires Valid()
      modifies this`uploads, this`rows, this`nextId
      ensures Valid()
      ensures ok <==> file.Some? && writeOk && insertOk && hasTable
      ensures file.None? ==> uploads == old(uploads)
      ensures file.Some? ==>
        uploads == if writeOk then old(uploads)[file.value.name := file.value.bytes] else old(uploads)
      ensures rows == if ok then old(rows) + [Row(old(nextId), userId, file.value.name)] else old(rows)
      ensures nextId == if ok then old(nextId) + 1 else old(nextId)
      ensures ok ==> forall i :: 0 <= i < |old(rows)| ==> old(rows)[i].id < rows[|rows| - 1].id
      ensures old(RowsHaveBlobs()) ==> RowsHaveBlobs()
    {
      if file.None? {
        return false;
      }
      var filename := file.value.name;
      if !writeOk {
        return false;
      }
      uploads := uploads[filename := file.value.bytes];
      if !hasTable || !insertOk {
        return false;
      }
      rows := rows + [Row(nextId, userId, filename)];
      nextId := nextId + 1;
      ok := true;
    }

    /** Reads the stored blob and joins the text of its pages in order; None
        when there is no blob of that name or the reader cannot parse it. */
    method ProcessDocument(filename: string, reader: Bytes -> PdfPages) returns (text: Option<string>)
      ensures filename !in uploads ==> text == None
      ensures filename in uploads ==> text == ExtractText(reader(uploads[filename]))
    {
      if filename !in uploads {
        return None;
      }
      var parsed := reader(uploads[filename]);
      if parsed.Unreadable? {
        return None;
      }
      var pages := parsed.texts;
      var acc := "";
      for i := 0 to |pages|
        invariant acc == Concat(pages[..i])
      {
        assert pages[..i + 1][..i] == pages[..i];
        acc := acc + pages[i];
      }
      assert pages[..|pages|] == pages;
      text := Some(acc);
    }

    /** Persists an index of `text` under the stem of `filename`, replacing
        any index already kept under that key. Whether the index builder
        succeeds is supplied by the caller; it has no rule of its own about
        empty text. */
    method StoreEmbeddings(text: string, filename: string, builderOk: bool) returns (ok: bool)
      modifies this`indexes
      ensures ok == builderOk
      ensures indexes == if ok then old(indexes)[Stem(filename) := IndexOf(text)] else old(indexes)
    {
      var key := Stem(filename);
      if !builderOk {
        return false;
      }
      indexes := indexes[key := IndexOf(text)];
      ok := true;
    }
  }
}
