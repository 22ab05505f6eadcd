/**
 * The Redis metadata store: a hash md:book:<id> per book holding the six
 * row fields, and a set md:author:<author> per author holding book ids.
 * bulk_upsert queues the writes in a pipeline; find_by_author reads the
 * author's set, then the hashes of its ids.
 */
module MetadataRedis {
  import opened Wrappers
  import opened MetadataRows

  /** The fields HSET writes for a row: the six keys of _row_to_dict. */
  function ToHash(r: Row): map<string, string>
  {
    map["book_id" := r.bookId, "title" := r.title, "author" := r.author,
        "language" := r.language, "header_path" := r.headerPath, "body_path" := r.bodyPath]
  }

  /** _row_to_dict */
  function RowToDict(row: RowInput): Result<map<string, string>, RowError>
  {
    match ToRow(row)
    case Ok(v) => Ok(ToHash(v))
    case Err(e) => Err(e)
  }

  /**
   * _row_to_dict fails as _row_to_tuple does; otherwise the dict has exactly
   * the six column names as keys, each holding that column of the row.
   */
  lemma RowToDictSpec(row: RowInput)
    ensures RowToDict(row).Ok? <==> ToRow(row).Ok?
    ensures RowToDict(row).Ok? ==> forall k :: k in RowToDict(row).value <==> k in Columns
    ensures RowToDict(row).Ok? ==>
              forall i :: 0 <= i < 6 ==> RowToDict(row).value[Columns[i]] == Column(ToRow(row).value, i)
  {
    if ToRow(row).Ok? {
      var d := RowToDict(row).value;
      forall k ensures k in d <==> k in Columns {
        assert k in Columns <==>
                 (k == Columns[0] || k == Columns[1] || k == Columns[2]
                  || k == Columns[3] || k == Columns[4] || k == Columns[5]);
      }
    }
  }

  /** d.get(key, "") */
  function Get(d: map<string, string>, key: string): string
  {
    if key in d then d[key] else ""
  }

  /** The tuple find_by_author builds from a hash, in the fixed column order. */
  function FromHash(d: map<string, string>): Row
  {
    Row(Get(d, "book_id"), Get(d, "title"), Get(d, "author"), Get(d, "language"), Get(d, "header_path"), Get(d, "body_path"))
  }

  /** HSET merges the six fields into the hash; reading them back gives the row, whatever else the hash held. */
  lemma FromHashMerge(d: map<string, string>, r: Row)
    ensures FromHash(d + ToHash(r)) == r
    ensures d + ToHash(r) != map[]
  {
    assert "book_id" in d + ToHash(r);
  }

  /** The keys the store uses: md:book:<id> hashes and md:author:<author> sets. */
  datatype Keyspace = Keyspace(hashes: map<string, map<string, string>>, authors: map<string, set<string>>)

  /** HGETALL md:book:<id>; a missing key reads as an empty hash. */
  function Hash(ks: Keyspace, id: string): map<string, string>
  {
    if id in ks.hashes then ks.hashes[id] else map[]
  }

  /** SMEMBERS md:author:<a>; a missing key reads as an empty set. */
  function Members(ks: Keyspace, a: string): set<string>
  {
    if a in ks.authors then ks.authors[a] else {}
  }

  /** The two queued commands of one row: HSET of its hash, SADD of its id to its author's set. */
  function Apply(ks: Keyspace, r: Row): Keyspace
  {
    Keyspace(ks.hashes[r.bookId := Hash(ks, r.bookId) + ToHash(r)],
             ks.authors[r.author := Members(ks, r.author) + {r.bookId}])
  }

  /** pipe.execute(): the queued commands in order. */
  function ApplyAll(ks: Keyspace, data: seq<Row>): Keyspace
    decreases |data|
  {
    if data == [] then ks
    else ApplyAll(Apply(ks, data[0]), data[1..])
  }

  /** The ids of the batch's rows that name author a. */
  ghost function BatchIds(data: seq<Row>, a: string): set<string>
  {
    set i | 0 <= i < |data| && data[i].author == a :: data[i].bookId
  }

  /**
   * An author's set afterwards is its old set plus the ids of every batch
   * row naming that author: sets only grow, so an id stays under an author
   * its book no longer has.
   */
  lemma {:induction false} ApplyAllAuthors(ks: Keyspace, data: seq<Row>, a: string)
    ensures Members(ApplyAll(ks, data), a) == Members(ks, a) + BatchIds(data, a)
    decreases |data|
  {
    if data != [] {
      ApplyAllAuthors(Apply(ks, data[0]), data[1..], a);
      BatchIdsFirst(data, a);
    }
  }

  /** The batch's ids for a split into its first row and the rest. */
  lemma BatchIdsFirst(data: seq<Row>, a: string)
    requires data != []
    ensures BatchIds(data, a) == (if data[0].author == a then {data[0].bookId} else {}) + BatchIds(data[1..], a)
  {
    forall x | x in BatchIds(data, a)
      ensures (data[0].author == a && x == data[0].bookId) || x in BatchIds(data[1..], a)
    {
      var i :| 0 <= i < |data| && data[i].author == a && data[i].bookId == x;
      if i > 0 {
        assert data[1..][i - 1] == data[i];
      }
    }
    forall x | x in BatchIds(data[1..], a) ensures x in BatchIds(data, a) {
      var i :| 0 <= i < |data[1..]| && data[1..][i].author == a && data[1..][i].bookId == x;
      assert data[i + 1] == data[1..][i];
    }
  }

  /** Ids outside the batch keep their hashes. */
  lemma {:induction false} ApplyAllKeeps(ks: Keyspace, data: seq<Row>, id: string)
    requires forall i :: 0 <= i < |data| ==> data[i].bookId != id
    ensures Hash(ApplyAll(ks, data), id) == Hash(ks, id)
    decreases |data|
  {
    if data != [] {
      forall i | 0 <= i < |data[1..]| ensures data[1..][i].bookId != id {
        assert data[1..][i] == data[i + 1];
      }
      ApplyAllKeeps(Apply(ks, data[0]), data[1..], id);
    }
  }

  /** The last row of the batch for an id is what its hash reads back as. */
  lemma {:induction false} ApplyAllLastWins(ks: Keyspace, data: seq<Row>, i: nat)
    requires i < |data|
    requires forall j :: i < j < |data| ==> data[j].bookId != data[i].bookId
    ensures Hash(ApplyAll(ks, data), data[i].bookId) != map[]
    ensures FromHash(Hash(ApplyAll(ks, data), data[i].bookId)) == data[i]
    decreases |data|
  {
    var ks' := Apply(ks, data[0]);
    if i == 0 {
      forall j | 0 <= j < |data[1..]| ensures data[1..][j].bookId != data[0].bookId {
        assert data[1..][j] == data[j + 1];
      }
      ApplyAllKeeps(ks', data[1..], data[0].bookId);
      FromHashMerge(Hash(ks, data[0].bookId), data[0]);
    } else {
      forall j | i - 1 < j < |data[1..]| ensures data[1..][j].bookId != data[1..][i - 1].bookId {
        assert data[1..][j] == data[j + 1];
      }
      ApplyAllLastWins(ks', data[1..], i - 1);
    }
  }

  /** The rows find_by_author returns for the ids in ids: those whose hash is not empty. */
  ghost function FoundAmong(ks: Keyspace, ids: set<string>): set<Row>
  {
    set id | id in ids && Hash(ks, id) != map[] :: FromHash(Hash(ks, id))
  }

  /** The ids of ids whose hash is not empty: the ones find_by_author returns a row for. */
  ghost function NonEmptyAmong(ks: Keyspace, ids: set<string>): set<string>
  {
    set id | id in ids && Hash(ks, id) != map[]
  }

  /** What find_by_author(a) returns, as a set. */
  ghost function Found(ks: Keyspace, a: string): set<Row>
  {
    FoundAmong(ks, Members(ks, a))
  }

  lemma FoundAmongAdd(ks: Keyspace, ids: set<string>, id: string)
    ensures FoundAmong(ks, ids + {id})
      == FoundAmong(ks, ids) + (if Hash(ks, id) != map[] then {FromHash(Hash(ks, id))} else {})
  {
  }

  /** One more id visited: its row joins the rows found, when its hash is not empty. */
  lemma CollectStep(ks: Keyspace, done: set<string>, id: string, out: seq<Row>)
    requires id !in done && |out| <= |done|
    requires |out| == |NonEmptyAmong(ks, done)|
    requires forall row :: row in out <==> row in FoundAmong(ks, done)
    ensures var out' := if Hash(ks, id) != map[] then out + [FromHash(Hash(ks, id))] else out;
      && (forall row :: row in out' <==> row in FoundAmong(ks, done + {id}))
      && |out'| <= |done + {id}|
      && |out'| == |NonEmptyAmong(ks, done + {id})|
  {
    FoundAmongAdd(ks, done, id);
    NonEmptyAmongAdd(ks, done, id);
  }

  lemma NonEmptyAmongAdd(ks: Keyspace, ids: set<string>, id: string)
    requires id !in ids
    ensures |NonEmptyAmong(ks, ids + {id})| == |NonEmptyAmong(ks, ids)| + (if Hash(ks, id) != map[] then 1 else 0)
  {
    if Hash(ks, id) != map[] {
      assert NonEmptyAmong(ks, ids + {id}) == NonEmptyAmong(ks, ids) + {id};
    } else {
      assert NonEmptyAmong(ks, ids + {id}) == NonEmptyAmong(ks, ids);
    }
  }

  /**
   * The author index is never pruned. After a book is upserted under one
   * author and then under another, the Redis store still finds it under the
   * first author, with the second author in the row; a keyed SQL table
   * given the same two rows no longer does.
   */
  lemma AuthorIndexNeverPruned(ks: Keyspace, t: Table, r1: Row, r2: Row)
    requires r1.bookId == r2.bookId && r1.author != r2.author
    requires Keyed(t)
    ensures r2 in Found(ApplyAll(ks, [r1, r2]), r1.author)
    ensures forall row | row in RowsBy(Upsert(t, [r1, r2]), r1.author) :: row.bookId != r1.bookId
  {
    var after := ApplyAll(ks, [r1, r2]);
    ApplyAllAuthors(ks, [r1, r2], r1.author);
    assert r1.bookId in BatchIds([r1, r2], r1.author) by {
      assert [r1, r2][0] == r1;
    }
    ApplyAllLastWins(ks, [r1, r2], 1);
    var t2 := Upsert(t, [r1, r2]);
    assert [r1, r2][1..] == [r2] && [r2][1..] == [];
    assert Upsert(t, [r1, r2]) == Upsert(t[r1.bookId := r1], [r2]);
    assert Upsert(t[r1.bookId := r1], [r2]) == t[r1.bookId := r1][r2.bookId := r2];
  }

  /** The Redis server: the book hashes and the author sets. */
  class RedisMetadataStore {
    var hashes: map<string, map<string, string>>
    var authors: map<string, set<string>>

    function Keys(): Keyspace
      reads this
    {
      Keyspace(hashes, authors)
    }

    constructor(ks: Keyspace)
      ensures Keys() == ks
    {
      hashes := ks.hashes;
      authors := ks.authors;
    }

    /**
     * bulk_upsert(rows). A row that fails to convert raises before the
     * pipeline is executed, so nothing is written; otherwise every row's
     * commands run in order.
     */
    method BulkUpsert(rows: seq<RowInput>) returns (r: Result<(), RowError>)
      modifies this
      ensures r.Ok? <==> forall i :: 0 <= i < |rows| ==> ToRow(rows[i]).Ok?
      ensures r.Err? ==> Keys() == old(Keys())
      ensures NormalizeAll(rows).Ok? ==> Keys() == ApplyAll(old(Keys()), NormalizeAll(rows).value)
    {
      NormalizeAllSpec(rows);
      var queued: seq<Row> := [];
      for i := 0 to |rows|
        invariant |queued| == i
        invariant forall j :: 0 <= j < i ==> ToRow(rows[j]) == Ok(queued[j])
      {
        var d := ToRow(rows[i]);
        if d.Err? {
          return Err(d.error);
        }
        queued := queued + [d.value];
      }
      assert queued == NormalizeAll(rows).value;
      Execute(queued);
      return Ok(());
    }

    /** pipe.execute() */
    method Execute(data: seq<Row>)
      modifies this
      ensures Keys() == ApplyAll(old(Keys()), data)
    {
      for i := 0 to |data|
        invariant ApplyAll(old(Keys()), data) == ApplyAll(Keys(), data[i..])
      {
        var row := data[i];
        assert data[i..][1..] == data[i + 1..];
        var h := if row.bookId in hashes then hashes[row.bookId] else map[];
        var s := if row.author in authors then authors[row.author] else {};
        hashes := hashes[row.bookId := h + ToHash(row)];
        authors := authors[row.author := s + {row.bookId}];
      }
    }

    /**
     * find_by_author(author): the rows of the ids in the author's set whose
     * hash is not empty, one row per such id; none when the author has no set.
     */
    method FindByAuthor(author: string) returns (out: seq<Row>)
      ensures forall row :: row in out <==> row in Found(Keys(), author)
      ensures |out| <= |Members(Keys(), author)|
      ensures |out| == |NonEmptyAmong(Keys(), Members(Keys(), author))|
    {
      out := [];
      var ids := if author in authors then authors[author] else {};
      if ids == {} {
        return;
      }
      ghost var ks := Keys();
      var rest := ids;
      ghost var done: set<string> := {};
      while rest != {}
        invariant rest <= ids && done == ids - rest
        invariant forall row :: row in out <==> row in FoundAmong(ks, done)
        invariant |out| <= |done|
        invariant |out| == |NonEmptyAmong(ks, done)|
        decreases |rest|
      {
        var id :| id in rest;
        var d := if id in hashes then hashes[id] else map[];
        assert d == Hash(ks, id);
        CollectStep(ks, done, id, out);
        if d != map[] {
          out := out + [FromHash(d)];
        }
        rest := rest - {id};
        done := done + {id};
      }
    }
  }
}
