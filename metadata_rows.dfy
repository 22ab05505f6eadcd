/**
 * What the three metadata stores share: the six-column book row, the
 * normalisation of the rows callers pass in (a dict with optional fields, or
 * a tuple read by position), and the books table keyed by book_id that an
 * upsert batch updates row by row.
 */
module MetadataRows {
  import opened Wrappers

  /** (book_id, title, author, language, header_path, body_path), the fixed column order. */
  datatype Row = Row(bookId: string, title: string, author: string, language: string, headerPath: string, bodyPath: string)

  /** The column names, in the fixed order. */
  const Columns: seq<string> := ["book_id", "title", "author", "language", "header_path", "body_path"]

  /** The value in column i of the fixed order. */
  function Column(r: Row, i: nat): string
    requires i < 6
  {
    match i
    case 0 => r.bookId
    case 1 => r.title
    case 2 => r.author
    case 3 => r.language
    case 4 => r.headerPath
    case _ => r.bodyPath
  }

  /**
   * A row as callers pass it. A dict's book_id is None when the key is
   * missing; its other keys may be missing or hold None. A tuple is read by
   * position.
   */
  datatype RowInput =
    | DictRow(bookId: Option<string>, fields: map<string, Option<string>>)
    | TupleRow(values: seq<string>)

  /** The KeyError of row["book_id"], or the IndexError of a tuple with fewer than six values. */
  datatype RowError = MissingBookId | ShortTuple

  /** row.get(key, "") or "" */
  function Optional(fields: map<string, Option<string>>, key: string): string
  {
    if key in fields && fields[key].Some? then fields[key].value else ""
  }

  /** _row_to_tuple */
  function ToRow(row: RowInput): Result<Row, RowError>
  {
    match row
    case DictRow(id, fields) =>
      if id.None? then Err(MissingBookId)
      else Ok(Row(id.value, Optional(fields, "title"), Optional(fields, "author"),
        Optional(fields, "language"), Optional(fields, "header_path"), Optional(fields, "body_path")))
    case TupleRow(values) =>
      if |values| < 6 then Err(ShortTuple)
      else Ok(Row(values[0], values[1], values[2], values[3], values[4], values[5]))
  }

  /**
   * A dict row fails exactly when it has no book_id. Otherwise each column
   * holds the dict's value under the column's name, and a missing or None
   * optional value becomes "".
   */
  lemma DictRowColumns(id: Option<string>, fields: map<string, Option<string>>, i: nat)
    requires i < 6
    ensures ToRow(DictRow(id, fields)).Err? <==> id.None?
    ensures id.Some? ==>
              Column(ToRow(DictRow(id, fields)).value, i)
              == if i == 0 then id.value
                 else if Columns[i] in fields && fields[Columns[i]].Some? then fields[Columns[i]].value
                 else ""
  {
  }

  /** A tuple row of six or more values passes through by position; a shorter one fails. */
  lemma TupleRowColumns(values: seq<string>, i: nat)
    requires i < 6
    ensures ToRow(TupleRow(values)).Ok? <==> |values| >= 6
    ensures |values| >= 6 ==> Column(ToRow(TupleRow(values)).value, i) == values[i]
  {
  }

  /** [_row_to_tuple(r) for r in rows]: the first row that fails stops the list with its error. */
  function NormalizeAll(rows: seq<RowInput>): Result<seq<Row>, RowError>
    decreases |rows|
  {
    if rows == [] then Ok([])
    else
      match ToRow(rows[0])
      case Err(e) => Err(e)
      case Ok(r) =>
        match NormalizeAll(rows[1..])
        case Err(e) => Err(e)
        case Ok(rs) => Ok([r] + rs)
  }

  /** The list is built exactly when every row converts, and then holds the rows' conversions in order. */
  lemma {:induction false} NormalizeAllSpec(rows: seq<RowInput>)
    ensures NormalizeAll(rows).Ok? <==> forall i :: 0 <= i < |rows| ==> ToRow(rows[i]).Ok?
    ensures NormalizeAll(rows).Ok? ==> |NormalizeAll(rows).value| == |rows|
    ensures NormalizeAll(rows).Ok? ==>
              forall i :: 0 <= i < |rows| ==> NormalizeAll(rows).value[i] == ToRow(rows[i]).value
    decreases |rows|
  {
    if rows != [] {
      NormalizeAllSpec(rows[1..]);
      if ToRow(rows[0]).Ok? && NormalizeAll(rows[1..]).Ok? {
        var rs := NormalizeAll(rows[1..]).value;
        forall i | 0 < i < |rows| ensures NormalizeAll(rows).value[i] == ToRow(rows[i]).value {
          assert rows[1..][i - 1] == rows[i];
        }
      } else if ToRow(rows[0]).Ok? {
        var i :| 0 <= i < |rows[1..]| && ToRow(rows[1..][i]).Err?;
        assert rows[i + 1] == rows[1..][i];
      }
    }
  }

  // ---------------------------------------------------------------------------
  // The books table of the SQL stores
  // ---------------------------------------------------------------------------

  /** The books table: book_id is the primary key. */
  type Table = map<string, Row>

  /** Each row sits under its own book_id. */
  ghost predicate Keyed(t: Table)
  {
    forall k | k in t :: t[k].bookId == k
  }

  /** An upsert batch applied row by row: a new id inserts the row, a known id has every other column replaced. */
  function Upsert(t: Table, data: seq<Row>): Table
    decreases |data|
  {
    if data == [] then t
    else Upsert(t[data[0].bookId := data[0]], data[1..])
  }

  /** Ids outside the batch keep their rows, and no row appears for them. */
  lemma {:induction false} UpsertKeeps(t: Table, data: seq<Row>, k: string)
    requires forall i :: 0 <= i < |data| ==> data[i].bookId != k
    ensures k in Upsert(t, data) <==> k in t
    ensures k in t ==> Upsert(t, data)[k] == t[k]
    decreases |data|
  {
    if data != [] {
      forall i | 0 <= i < |data[1..]| ensures data[1..][i].bookId != k {
        assert data[1..][i] == data[i + 1];
      }
      UpsertKeeps(t[data[0].bookId := data[0]], data[1..], k);
    }
  }

  /** The last occurrence of an id in the batch is the row that id ends up with. */
  lemma {:induction false} UpsertLastWins(t: Table, data: seq<Row>, i: nat)
    requires i < |data|
    requires forall j :: i < j < |data| ==> data[j].bookId != data[i].bookId
    ensures data[i].bookId in Upsert(t, data)
    ensures Upsert(t, data)[data[i].bookId] == data[i]
    decreases |data|
  {
    var t' := t[data[0].bookId := data[0]];
    if i == 0 {
      forall j | 0 <= j < |data[1..]| ensures data[1..][j].bookId != data[0].bookId {
        assert data[1..][j] == data[j + 1];
      }
      UpsertKeeps(t', data[1..], data[0].bookId);
    } else {
      forall j | i - 1 < j < |data[1..]| ensures data[1..][j].bookId != data[1..][i - 1].bookId {
        assert data[1..][j] == data[j + 1];
      }
      UpsertLastWins(t', data[1..], i - 1);
    }
  }

  /** The table stays keyed by book_id: every id holds exactly one row, and that row carries the id. */
  lemma {:induction false} UpsertKeyed(t: Table, data: seq<Row>)
    requires Keyed(t)
    ensures Keyed(Upsert(t, data))
    decreases |data|
  {
    if data != [] {
      UpsertKeyed(t[data[0].bookId := data[0]], data[1..]);
    }
  }

  /** SELECT ... WHERE author=?: the rows of the table whose author is a. */
  function RowsBy(t: Table, a: string): (r: set<Row>)
    ensures forall row :: row in r <==> row in t.Values && row.author == a
  {
    set k | k in t && t[k].author == a :: t[k]
  }
}
