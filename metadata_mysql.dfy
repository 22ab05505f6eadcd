/**
 * The MySQL metadata store: the same keyed books table as the SQLite store,
 * plus the schema steps of init_db that add a column or an index only when
 * it is missing.
 */
module MetadataMysql {
  import opened Wrappers
  import opened MetadataRows

  /** A schema entry added only when absent: the existing entry wins over the new definition. */
  function AddIfAbsent<K, V>(m: map<K, V>, k: K, v: V): map<K, V>
  {
    if k in m then m else m[k := v]
  }

  /** Afterwards the entry exists; an existing one keeps its definition, and nothing else changes. */
  lemma AddIfAbsentSpec<K, V>(m: map<K, V>, k: K, v: V)
    ensures k in AddIfAbsent(m, k, v)
    ensures AddIfAbsent(m, k, v)[k] == if k in m then m[k] else v
    ensures forall j :: j != k ==> (j in AddIfAbsent(m, k, v) <==> j in m)
    ensures forall j :: j != k && j in m ==> AddIfAbsent(m, k, v)[j] == m[j]
  {
  }

  /** Adding the same entry again changes nothing, whatever definition the second call brings. */
  lemma AddIfAbsentIdempotent<K, V>(m: map<K, V>, k: K, v: V, w: V)
    ensures AddIfAbsent(AddIfAbsent(m, k, v), k, w) == AddIfAbsent(m, k, v)
  {
  }

  /** The two _ensure_column calls of init_db. */
  function InitColumns(cs: map<(string, string), string>): map<(string, string), string>
  {
    AddIfAbsent(AddIfAbsent(cs, ("books", "header_path"), "header_path TEXT"), ("books", "body_path"), "body_path   TEXT")
  }

  /** The three _ensure_index calls of init_db. */
  function InitIndexes(ix: map<(string, string), string>): map<(string, string), string>
  {
    AddIfAbsent(AddIfAbsent(AddIfAbsent(ix, ("books", "idx_author"), "author"),
      ("books", "idx_language"), "language"), ("books", "idx_title"), "title(255)")
  }

  /** Running the schema steps of init_db twice leaves the schema as running them once. */
  lemma InitIdempotent(cs: map<(string, string), string>, ix: map<(string, string), string>)
    ensures InitColumns(InitColumns(cs)) == InitColumns(cs)
    ensures InitIndexes(InitIndexes(ix)) == InitIndexes(ix)
  {
    var h := ("books", "header_path");
    var b := ("books", "body_path");
    AddIfAbsentSpec(cs, h, "header_path TEXT");
    AddIfAbsentSpec(AddIfAbsent(cs, h, "header_path TEXT"), b, "body_path   TEXT");
    var a := ("books", "idx_author");
    var l := ("books", "idx_language");
    var t := ("books", "idx_title");
    var ix1 := AddIfAbsent(ix, a, "author");
    var ix2 := AddIfAbsent(ix1, l, "language");
    AddIfAbsentSpec(ix, a, "author");
    AddIfAbsentSpec(ix1, l, "language");
    AddIfAbsentSpec(ix2, t, "title(255)");
  }

  /** The MySQL database: the books table, its schema, and a count of the connections opened. */
  class MysqlStore {
    var books: Table
    var connections: nat
    /** The columns of each table: (table, column) to the column's definition. */
    var columns: map<(string, string), string>
    /** The indexes of each table: (table, index name) to the indexed expression. */
    var indexes: map<(string, string), string>

    ghost predicate Valid()
      reads this
    {
      Keyed(books)
    }

    /**
     * A database holding books0 under the given schema: CREATE TABLE IF NOT
     * EXISTS keeps the rows already there.
     */
    constructor(books0: Table, columns0: map<(string, string), string>, indexes0: map<(string, string), string>)
      requires Keyed(books0)
      ensures Valid() && books == books0 && connections == 0
      ensures columns == columns0 && indexes == indexes0
    {
      books := books0;
      connections := 0;
      columns := columns0;
      indexes := indexes0;
    }

    /** _column_exists: the INFORMATION_SCHEMA.COLUMNS lookup. */
    function ColumnExists(table: string, column: string): bool
      reads this
    {
      (table, column) in columns
    }

    /** _ensure_column: ALTER TABLE ... ADD COLUMN only when the column is missing. */
    method EnsureColumn(table: string, column: string, ddlTail: string)
      modifies this`columns
      ensures columns == AddIfAbsent(old(columns), (table, column), ddlTail)
    {
      if !ColumnExists(table, column) {
        columns := columns[(table, column) := ddlTail];
      }
    }

    /** _ensure_index: CREATE INDEX only when no index of that name exists on the table. */
    method EnsureIndex(table: string, indexName: string, columnExpr: string)
      modifies this`indexes
      ensures indexes == AddIfAbsent(old(indexes), (table, indexName), columnExpr)
    {
      if (table, indexName) in indexes {
        return;
      }
      indexes := indexes[(table, indexName) := columnExpr];
    }

    /** The schema steps of init_db after CREATE TABLE IF NOT EXISTS. */
    method InitDb()
      modifies this`columns, this`indexes
      ensures columns == InitColumns(old(columns)) && indexes == InitIndexes(old(indexes))
    {
      EnsureColumn("books", "header_path", "header_path TEXT");
      EnsureColumn("books", "body_path", "body_path   TEXT");
      EnsureIndex("books", "idx_author", "author");
      EnsureIndex("books", "idx_language", "language");
      EnsureIndex("books", "idx_title", "title(255)");
    }

    /**
     * bulk_upsert(rows). A row that fails to convert raises before any
     * connection is opened; an empty batch returns without connecting;
     * otherwise ON DUPLICATE KEY UPDATE replaces every non-key column.
     */
    method BulkUpsert(rows: seq<RowInput>) returns (r: Result<(), RowError>)
      requires Valid()
      modifies this`books, this`connections
      ensures Valid()
      ensures r.Ok? <==> forall i :: 0 <= i < |rows| ==> ToRow(rows[i]).Ok?
      ensures r.Err? || rows == [] ==> books == old(books) && connections == old(connections)
      ensures NormalizeAll(rows).Ok? && rows != [] ==>
                books == Upsert(old(books), NormalizeAll(rows).value) && connections == old(connections) + 1
    {
      NormalizeAllSpec(rows);
      var data := NormalizeAll(rows);
      if data.Err? {
        return Err(data.error);
      }
      if data.value == [] {
        return Ok(());
      }
      connections := connections + 1;
      UpsertKeyed(books, data.value);
      ExecuteMany(data.value);
      return Ok(());
    }

    /** cur.executemany of the upsert statement: the rows are applied one after the other. */
    method ExecuteMany(data: seq<Row>)
      modifies this`books
      ensures books == Upsert(old(books), data)
    {
      for i := 0 to |data|
        invariant Upsert(old(books), data) == Upsert(books, data[i..])
      {
        var row := data[i];
        assert data[i..][1..] == data[i + 1..];
        books := books[row.bookId := row];
      }
    }

    /** find_by_author(author); the result is a set because the query has no ORDER BY. */
    function FindByAuthor(author: string): (r: set<Row>)
      reads this
      ensures forall row :: row in r <==> row in books.Values && row.author == author
    {
      RowsBy(books, author)
    }
  }
}
