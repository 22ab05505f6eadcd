/**
 * The SQLite metadata store: one books table keyed by book_id, written by a
 * batch upsert and read by author.
 */
module MetadataSqlite {
  import opened Wrappers
  import opened MetadataRows

  /** The database file: the books table and a count of the connections opened on it. */
  class SqliteStore {
    var books: Table
    var connections: nat

    ghost predicate Valid()
      reads this
    {
      Keyed(books)
    }

    /**
     * The database file as init_db leaves it: CREATE TABLE IF NOT EXISTS
     * keeps the books table the file already holds (empty for a new file).
     */
    constructor(books0: Table)
      requires Keyed(books0)
      ensures Valid() && books == books0 && connections == 0
    {
      books := books0;
      connections := 0;
    }

    /**
     * bulk_upsert(rows). A row that fails to convert raises before any
     * connection is opened; an empty batch returns without connecting;
     * otherwise the batch is upserted in one connection.
     */
    method BulkUpsert(rows: seq<RowInput>) returns (r: Result<(), RowError>)
      requires Valid()
      modifies this
      ensures Valid()
      ensures r.Ok? <==> forall i :: 0 <= i < |rows| ==> ToRow(rows[i]).Ok?
      ensures r.Err? || rows == [] ==> books == old(books) && connections == old(connections)
      ensures NormalizeAll(rows).Ok? && rows != [] ==>
                books == Upsert(old(books), NormalizeAll(rows).value) && connections == old(connections) + 1
    {
      NormalizeAllSpec(rows);
      var data := NormalizeAll(rows);
      if data.Err? {
        return Err(data.error);
      }
      if data.value == [] {
        return Ok(());
      }
      connections := connections + 1;
      UpsertKeyed(books, data.value);
      ExecuteMany(data.value);
      return Ok(());
    }

    /** cur.executemany of the upsert statement: the rows are applied one after the other. */
    method ExecuteMany(data: seq<Row>)
      modifies this`books
      ensures books == Upsert(old(books), data)
    {
      for i := 0 to |data|
        invariant Upsert(old(books), data) == Upsert(books, data[i..])
      {
        var row := data[i];
        assert data[i..][1..] == data[i + 1..];
        books := books[row.bookId := row];
      }
    }

    /** find_by_author(author); the result is a set because the query has no ORDER BY. */
    function FindByAuthor(author: string): (r: set<Row>)
      reads this
      ensures forall row :: row in r <==> row in books.Values && row.author == author
    {
      RowsBy(books, author)
    }
  }
}
