/**
 * The storage-backend contract of the application indexer and its two
 * implementations. Each backend's database is abstract state: the Redis
 * keys become maps, sets and a counter, the PostgreSQL tables become a map
 * keyed by the primary key and a set of (word, book_id) pairs.
 *
 * Each class exposes its state as a value (RedisState, PostgresState); the
 * functions on those values say what one call does, and the lemmas relate
 * calls: posting idempotence, upsert versus increment counting, the id
 * recovered from a key name, and agreement of the two backends.
 */
module StorageBackends {
  import opened Wrappers
  import opened Text

  /** The metadata dict given to store_book_metadata; None is a missing key. */
  datatype MetadataInput = MetadataInput(
    title: Option<string>, author: Option<string>, language: Option<string>,
    wordCount: Option<int>, uniqueWords: Option<int>)

  /** A stored metadata record (the indexed_at timestamp is not modelled). */
  datatype BookRecord = BookRecord(
    title: string, author: string, language: string, wordCount: int, uniqueWords: int)

  datatype Stats = Stats(totalBooks: int, uniqueWords: int, indexedBooks: int)

  function OrEmpty(o: Option<string>): string { if o.Some? then o.value else "" }

  function OrZero(o: Option<int>): int { if o.Some? then o.value else 0 }

  /** The record both backends write: missing strings become "", missing counts 0. */
  function Record(md: MetadataInput): BookRecord
  {
    BookRecord(OrEmpty(md.title), OrEmpty(md.author), OrEmpty(md.language),
               OrZero(md.wordCount), OrZero(md.uniqueWords))
  }

  // ---------------------------------------------------------------------------
  // Redis key names
  // ---------------------------------------------------------------------------

  /** The key of a book's metadata hash. */
  function MetaKey(id: string): string { "book:" + id + ":metadata" }

  /** get_indexed_books: the id read back from a key as key.split(':')[1]. */
  function RecoveredId(id: string): (r: string)
    ensures ':' !in r
  {
    var key := MetaKey(id);
    assert key == "book" + [':'] + (id + ":metadata");
    SplitOnHead("book", id + ":metadata", ':');
    SplitOn(key, ':')[1]
  }

  /** The first piece of a split is not affected by what follows a separator. */
  lemma {:induction false} SplitOnHeadAppend(a: string, b: string, sep: char)
    requires b != [] && b[0] == sep
    ensures SplitOn(a + b, sep)[0] == SplitOn(a, sep)[0]
    decreases |a|
  {
    if a != [] {
      assert (a + b)[1..] == a[1..] + b;
      SplitOnHeadAppend(a[1..], b, sep);
    }
  }

  /**
   * The id comes back intact exactly when it has no ':'; otherwise only its
   * part before the first ':' does.
   */
  lemma RecoveredIdExact(id: string)
    ensures RecoveredId(id) == SplitOn(id, ':')[0]
    ensures RecoveredId(id) == id <==> ':' !in id
  {
    var key := MetaKey(id);
    assert key == "book" + [':'] + (id + ":metadata");
    SplitOnHead("book", id + ":metadata", ':');
    SplitOnHeadAppend(id, ":metadata", ':');
  }

  lemma RecoveredIdTruncates()
    ensures RecoveredId("a:b") == "a"
  {
    RecoveredIdExact("a:b");
    assert "a:b" == "a" + [':'] + "b";
    SplitOnHead("a", "b", ':');
  }

  // ---------------------------------------------------------------------------
  // Redis backend
  // ---------------------------------------------------------------------------

  /**
   * The Redis keyspace: the book:<id>:metadata hashes (by id), the
   * word:<w> sets (by w), the set stats:all_words and the counter
   * stats:total_books.
   */
  datatype RedisState = RedisState(
    meta: map<string, BookRecord>,
    wordSets: map<string, set<string>>,
    allWords: set<string>,
    totalBooks: int)

  const EmptyRedis := RedisState(map[], map[], {}, 0)

  /** Every word with a posting set is in stats:all_words and vice versa. */
  ghost predicate RedisInvariant(st: RedisState)
  {
    && st.allWords == st.wordSets.Keys
    && (forall w | w in st.wordSets :: st.wordSets[w] != {})
  }

  function RedisSearch(st: RedisState, w: string): set<string>
  {
    if w in st.wordSets then st.wordSets[w] else {}
  }

  /** store_book_metadata: overwrite the hash and increment the counter. */
  function RedisStore(st: RedisState, id: string, md: MetadataInput): (r: RedisState)
    ensures RedisInvariant(st) ==> RedisInvariant(r)
  {
    st.(meta := st.meta[id := Record(md)], totalBooks := st.totalBooks + 1)
  }

  /** add_word_to_index: SADD word:<w> id and SADD stats:all_words w. */
  function RedisAdd(st: RedisState, w: string, id: string): (r: RedisState)
    ensures RedisInvariant(st) ==> RedisInvariant(r)
  {
    st.(wordSets := st.wordSets[w := RedisSearch(st, w) + {id}], allWords := st.allWords + {w})
  }

  function RedisIndexed(st: RedisState): set<string>
  {
    set id | id in st.meta :: RecoveredId(id)
  }

  function RedisStats(st: RedisState): Stats
  {
    Stats(st.totalBooks, |st.allWords|, |RedisIndexed(st)|)
  }

  /** Adding a posting leaves every other word's set as it was and puts id into w's. */
  lemma RedisSearchAfterAdd(st: RedisState, w: string, id: string, v: string)
    ensures RedisSearch(RedisAdd(st, w, id), v) == RedisSearch(st, v) + (if v == w then {id} else {})
  {
  }

  /** A repeated (word, id) pair changes nothing. */
  lemma RedisAddIdempotent(st: RedisState, w: string, id: string)
    ensures RedisAdd(RedisAdd(st, w, id), w, id) == RedisAdd(st, w, id)
  {
    var once := RedisAdd(st, w, id);
    assert RedisSearch(once, w) + {id} == RedisSearch(once, w);
    assert once.wordSets[w := RedisSearch(once, w)] == once.wordSets;
  }

  /** When no stored id has a ':', get_indexed_books returns the stored ids. */
  lemma RedisIndexedWhole(st: RedisState)
    requires forall k | k in st.meta :: ':' !in k
    ensures RedisIndexed(st) == st.meta.Keys
  {
    forall k | k in st.meta ensures RecoveredId(k) == k {
      RecoveredIdExact(k);
    }
  }

  /** Two stores under one id: the keys gain that id and keep being ':'-free. */
  lemma StoreTwiceKeys(st: RedisState, id: string, md1: MetadataInput, md2: MetadataInput)
    requires id !in st.meta
    requires ':' !in id && forall k | k in st.meta :: ':' !in k
    ensures RedisStore(RedisStore(st, id, md1), id, md2).meta.Keys == st.meta.Keys + {id}
    ensures forall k | k in RedisStore(RedisStore(st, id, md1), id, md2).meta :: ':' !in k
  {
  }

  /**
   * Storing a new id twice: total_books rises by two, indexed_books by one
   * (when no stored id has a ':', so ids come back whole).
   */
  lemma RedisReindexOvercounts(st: RedisState, id: string, md1: MetadataInput, md2: MetadataInput)
    requires id !in st.meta
    requires ':' !in id && forall k | k in st.meta :: ':' !in k
    ensures RedisStats(RedisStore(RedisStore(st, id, md1), id, md2)).totalBooks == RedisStats(st).totalBooks + 2
    ensures RedisStats(RedisStore(RedisStore(st, id, md1), id, md2)).indexedBooks == RedisStats(st).indexedBooks + 1
  {
    var st2 := RedisStore(RedisStore(st, id, md1), id, md2);
    StoreTwiceKeys(st, id, md1, md2);
    RedisStatsWhole(st);
    RedisStatsWhole(st2);
    CardAddNew(st.meta.Keys, id);
  }

  /** With ':'-free ids, indexed_books counts the stored ids. */
  lemma RedisStatsWhole(st: RedisState)
    requires forall k | k in st.meta :: ':' !in k
    ensures RedisStats(st).indexedBooks == |st.meta.Keys|
  {
    RedisIndexedWhole(st);
  }

  lemma CardAddNew(s: set<string>, x: string)
    requires x !in s
    ensures |s + {x}| == |s| + 1
  {
  }

  class RedisBackend {
    var meta: map<string, BookRecord>
    var wordSets: map<string, set<string>>
    var allWords: set<string>
    var totalBooks: int

    function State(): RedisState
      reads this
    {
      RedisState(meta, wordSets, allWords, totalBooks)
    }

    ghost predicate Valid()
      reads this
    {
      RedisInvariant(State())
    }

    /** A connection to a Redis server holding st, whose keys are consistent. */
    constructor (st: RedisState)
      requires RedisInvariant(st)
      ensures Valid() && State() == st
    {
      meta, wordSets, allWords, totalBooks := st.meta, st.wordSets, st.allWords, st.totalBooks;
    }

    method StoreBookMetadata(id: string, md: MetadataInput)
      requires Valid()
      modifies this
      ensures Valid() && State() == RedisStore(old(State()), id, md)
    {
      meta := meta[id := Record(md)];
      totalBooks := totalBooks + 1;
    }

    /** hgetall: the stored record, or None (an empty dict) for an unknown id. */
    method GetBookMetadata(id: string) returns (r: Option<BookRecord>)
      ensures r.Some? <==> id in meta
      ensures r.Some? ==> r.value == meta[id]
    {
      r := if id in meta then Some(meta[id]) else None;
    }

    method IsBookIndexed(id: string) returns (b: bool)
      ensures b <==> id in meta
    {
      b := id in meta;
    }

    method GetIndexedBooks() returns (r: set<string>)
      ensures r == RedisIndexed(State())
    {
      r := set id | id in meta :: RecoveredId(id);
    }

    method AddWordToIndex(w: string, id: string)
      requires Valid()
      modifies this
      ensures Valid() && State() == RedisAdd(old(State()), w, id)
    {
      var current := if w in wordSets then wordSets[w] else {};
      wordSets := wordSets[w := current + {id}];
      allWords := allWords + {w};
    }

    method SearchWord(w: string) returns (r: set<string>)
      ensures r == RedisSearch(State(), w)
    {
      r := if w in wordSets then wordSets[w] else {};
    }

    method GetStats() returns (s: Stats)
      ensures s == RedisStats(State())
    {
      var indexed := GetIndexedBooks();
      s := Stats(totalBooks, |allWords|, |indexed|);
    }
  }

  // ---------------------------------------------------------------------------
  // PostgreSQL backend
  // ---------------------------------------------------------------------------

  /** The books table (primary key book_id) and the word_index table (key (word, book_id)). */
  datatype PostgresState = PostgresState(
    books: map<string, BookRecord>,
    wordIndex: set<(string, string)>)

  const EmptyPostgres := PostgresState(map[], {})

  function PostgresSearch(st: PostgresState, w: string): set<string>
  {
    set p | p in st.wordIndex && p.0 == w :: p.1
  }

  /** INSERT ... ON CONFLICT (book_id) DO UPDATE: one row per id, the latest values. */
  function PostgresStore(st: PostgresState, id: string, md: MetadataInput): PostgresState
  {
    st.(books := st.books[id := Record(md)])
  }

  /** INSERT ... ON CONFLICT (word, book_id) DO NOTHING. */
  function PostgresAdd(st: PostgresState, w: string, id: string): PostgresState
  {
    st.(wordIndex := st.wordIndex + {(w, id)})
  }

  function PostgresWords(st: PostgresState): set<string>
  {
    set p | p in st.wordIndex :: p.0
  }

  /** COUNT(*) serves as both total_books and indexed_books; COUNT(DISTINCT word). */
  function PostgresStats(st: PostgresState): Stats
  {
    Stats(|st.books|, |PostgresWords(st)|, |st.books|)
  }

  lemma PostgresSearchAfterAdd(st: PostgresState, w: string, id: string, v: string)
    ensures PostgresSearch(PostgresAdd(st, w, id), v) == PostgresSearch(st, v) + (if v == w then {id} else {})
  {
    var after := PostgresAdd(st, w, id);
    forall x ensures x in PostgresSearch(after, v) <==> x in PostgresSearch(st, v) + (if v == w then {id} else {}) {
      if x in PostgresSearch(after, v) {
        var p :| p in after.wordIndex && p.0 == v && p.1 == x;
        if p != (w, id) {
          assert p in st.wordIndex;
        }
      }
      if x in PostgresSearch(st, v) {
        var p :| p in st.wordIndex && p.0 == v && p.1 == x;
        assert p in after.wordIndex;
      }
      if v == w && x == id {
        assert (w, id) in after.wordIndex;
      }
    }
  }

  /** The composite key makes a repeated (word, id) pair a no-op. */
  lemma PostgresAddIdempotent(st: PostgresState, w: string, id: string)
    ensures PostgresAdd(PostgresAdd(st, w, id), w, id) == PostgresAdd(st, w, id)
  {
  }

  /** Re-storing an id leaves exactly one row for it with the latest values; the counts do not move. */
  lemma PostgresUpsertCounts(st: PostgresState, id: string, md1: MetadataInput, md2: MetadataInput)
    ensures PostgresStore(PostgresStore(st, id, md1), id, md2).books[id] == Record(md2)
    ensures PostgresStats(PostgresStore(PostgresStore(st, id, md1), id, md2))
         == PostgresStats(PostgresStore(st, id, md1))
  {
    var once := PostgresStore(st, id, md1);
    var twice := PostgresStore(once, id, md2);
    assert twice.books.Keys == once.books.Keys;
  }

  class PostgreSQLBackend {
    var books: map<string, BookRecord>
    var wordIndex: set<(string, string)>

    function State(): PostgresState
      reads this
    {
      PostgresState(books, wordIndex)
    }

    /**
     * A connection to a database holding st: CREATE TABLE IF NOT EXISTS keeps
     * the tables and rows already there.
     */
    constructor (st: PostgresState)
      ensures State() == st
    {
      books, wordIndex := st.books, st.wordIndex;
    }

    method StoreBookMetadata(id: string, md: MetadataInput)
      modifies this
      ensures State() == PostgresStore(old(State()), id, md)
    {
      books := books[id := Record(md)];
    }

    /** SELECT * FROM books WHERE book_id = id: the row, or None (an empty dict). */
    method GetBookMetadata(id: string) returns (r: Option<BookRecord>)
      ensures r.Some? <==> id in books
      ensures r.Some? ==> r.value == books[id]
    {
      r := if id in books then Some(books[id]) else None;
    }

    method IsBookIndexed(id: string) returns (b: bool)
      ensures b <==> id in books
    {
      b := id in books;
    }

    method GetIndexedBooks() returns (r: set<string>)
      ensures r == books.Keys
    {
      r := books.Keys;
    }

    method AddWordToIndex(w: string, id: string)
      modifies this
      ensures State() == PostgresAdd(old(State()), w, id)
    {
      wordIndex := wordIndex + {(w, id)};
    }

    method SearchWord(w: string) returns (r: set<string>)
      ensures r == PostgresSearch(State(), w)
    {
      r := set p | p in wordIndex && p.0 == w :: p.1;
    }

    method GetStats() returns (s: Stats)
      ensures s == PostgresStats(State())
    {
      var words := set p | p in wordIndex :: p.0;
      s := Stats(|books|, |words|, |books|);
    }
  }

  // ---------------------------------------------------------------------------
  // The two backends side by side
  // ---------------------------------------------------------------------------

  /** A call that changes a backend. */
  datatype Op = Store(id: string, md: MetadataInput) | Add(word: string, bookId: string)

  function RunRedis(ops: seq<Op>): RedisState
    decreases |ops|
  {
    if ops == [] then EmptyRedis
    else
      var st := RunRedis(ops[..|ops| - 1]);
      match ops[|ops| - 1]
      case Store(id, md) => RedisStore(st, id, md)
      case Add(w, id) => RedisAdd(st, w, id)
  }

  function RunPostgres(ops: seq<Op>): PostgresState
    decreases |ops|
  {
    if ops == [] then EmptyPostgres
    else
      var st := RunPostgres(ops[..|ops| - 1]);
      match ops[|ops| - 1]
      case Store(id, md) => PostgresStore(st, id, md)
      case Add(w, id) => PostgresAdd(st, w, id)
  }

  function StoreCount(ops: seq<Op>): nat
    decreases |ops|
  {
    if ops == [] then 0
    else StoreCount(ops[..|ops| - 1]) + if ops[|ops| - 1].Store? then 1 else 0
  }

  lemma {:induction false} BackendsAgreeOnMeta(ops: seq<Op>)
    ensures RunRedis(ops).meta == RunPostgres(ops).books
    decreases |ops|
  {
    if ops != [] {
      BackendsAgreeOnMeta(ops[..|ops| - 1]);
    }
  }

  lemma {:induction false} BackendsAgreeOnSearch(ops: seq<Op>, w: string)
    ensures RedisSearch(RunRedis(ops), w) == PostgresSearch(RunPostgres(ops), w)
    decreases |ops|
  {
    if ops != [] {
      var init := ops[..|ops| - 1];
      BackendsAgreeOnSearch(init, w);
      match ops[|ops| - 1]
      case Store(id, md) =>
      case Add(v, id) =>
        RedisSearchAfterAdd(RunRedis(init), v, id, w);
        PostgresSearchAfterAdd(RunPostgres(init), v, id, w);
    }
  }

  lemma {:induction false} BackendsAgreeOnWords(ops: seq<Op>)
    ensures RunRedis(ops).allWords == PostgresWords(RunPostgres(ops))
    decreases |ops|
  {
    if ops != [] {
      var init := ops[..|ops| - 1];
      BackendsAgreeOnWords(init);
      match ops[|ops| - 1]
      case Store(id, md) =>
      case Add(w, id) =>
        var p := RunPostgres(init);
        assert PostgresWords(PostgresAdd(p, w, id)) == PostgresWords(p) + {w};
    }
  }

  lemma {:induction false} RedisCountsStores(ops: seq<Op>)
    ensures RunRedis(ops).totalBooks == StoreCount(ops)
    decreases |ops|
  {
    if ops != [] {
      RedisCountsStores(ops[..|ops| - 1]);
    }
  }

  /**
   * The same calls on fresh databases: both backends hold the same metadata,
   * answer every search_word alike and count the same unique words; Redis's
   * total_books counts store calls, PostgreSQL's counts rows.
   */
  lemma BackendsAgree(ops: seq<Op>)
    ensures RunRedis(ops).meta == RunPostgres(ops).books
    ensures forall w :: RedisSearch(RunRedis(ops), w) == PostgresSearch(RunPostgres(ops), w)
    ensures RedisStats(RunRedis(ops)).uniqueWords == PostgresStats(RunPostgres(ops)).uniqueWords
    ensures RedisStats(RunRedis(ops)).totalBooks == StoreCount(ops)
    ensures PostgresStats(RunPostgres(ops)).totalBooks == |RunPostgres(ops).books|
  {
    BackendsAgreeOnMeta(ops);
    forall w ensures RedisSearch(RunRedis(ops), w) == PostgresSearch(RunPostgres(ops), w) {
      BackendsAgreeOnSearch(ops, w);
    }
    BackendsAgreeOnWords(ops);
    RedisCountsStores(ops);
  }

  // ---------------------------------------------------------------------------
  // The StorageBackend interface, dispatching to one of the two classes
  // ---------------------------------------------------------------------------

  /** The database behind a backend, whichever of the two it is. */
  datatype BackendState = RedisData(redis: RedisState) | PostgresData(pg: PostgresState)
  {
    ghost predicate Valid()
    {
      RedisData? ==> RedisInvariant(redis)
    }

    /** The stored metadata records, by id. */
    function Meta(): map<string, BookRecord>
    {
      match this
      case RedisData(r) => r.meta
      case PostgresData(p) => p.books
    }

    /** What search_word(w) returns. */
    function Search(w: string): set<string>
    {
      match this
      case RedisData(r) => RedisSearch(r, w)
      case PostgresData(p) => PostgresSearch(p, w)
    }

    /** What get_indexed_books() returns. */
    function Indexed(): set<string>
    {
      match this
      case RedisData(r) => RedisIndexed(r)
      case PostgresData(p) => p.books.Keys
    }

    /** What get_stats() returns. */
    function Stats(): Stats
    {
      match this
      case RedisData(r) => RedisStats(r)
      case PostgresData(p) => PostgresStats(p)
    }

    function Stored(id: string, md: MetadataInput): BackendState
    {
      match this
      case RedisData(r) => RedisData(RedisStore(r, id, md))
      case PostgresData(p) => PostgresData(PostgresStore(p, id, md))
    }

    function Added(w: string, id: string): BackendState
    {
      match this
      case RedisData(r) => RedisData(RedisAdd(r, w, id))
      case PostgresData(p) => PostgresData(PostgresAdd(p, w, id))
    }
  }

  /** store_book_metadata on either backend: the record is replaced, the postings stay. */
  lemma StoredSpec(st: BackendState, id: string, md: MetadataInput, w: string)
    ensures st.Valid() ==> st.Stored(id, md).Valid()
    ensures st.Stored(id, md).Meta() == st.Meta()[id := Record(md)]
    ensures st.Stored(id, md).Search(w) == st.Search(w)
    ensures st.Stored(id, md).RedisData? == st.RedisData?
    ensures st.RedisData? ==> st.Stored(id, md).Stats().totalBooks == st.Stats().totalBooks + 1
  {
  }

  /** add_word_to_index on either backend: id joins w's postings, nothing else moves. */
  lemma AddedSpec(st: BackendState, w: string, id: string, v: string)
    ensures st.Valid() ==> st.Added(w, id).Valid()
    ensures st.Added(w, id).Meta() == st.Meta()
    ensures st.Added(w, id).Search(v) == st.Search(v) + (if v == w then {id} else {})
    ensures st.Added(w, id).RedisData? == st.RedisData?
    ensures st.Added(w, id).Stats().totalBooks == st.Stats().totalBooks
  {
    match st
    case RedisData(r) => RedisSearchAfterAdd(r, w, id, v);
    case PostgresData(p) => PostgresSearchAfterAdd(p, w, id, v);
  }

  /**
   * get_stats() depends on nothing but the stored records, the postings and,
   * on Redis, the stats:total_books counter: two states that agree on those
   * report the same stats.
   */
  lemma StatsDetermined(a: BackendState, b: BackendState)
    requires a.Valid() && b.Valid() && a.RedisData? == b.RedisData?
    requires a.Meta() == b.Meta()
    requires forall w :: a.Search(w) == b.Search(w)
    requires a.RedisData? ==> a.Stats().totalBooks == b.Stats().totalBooks
    ensures a.Stats() == b.Stats()
  {
    match a
    case RedisData(r) =>
      var q := b.redis;
      forall w
        ensures w in r.allWords <==> w in q.allWords
      {
        assert a.Search(w) == b.Search(w);
      }
      assert r.allWords == q.allWords;
    case PostgresData(p) =>
      var q := b.pg;
      forall w
        ensures w in PostgresWords(p) <==> w in PostgresWords(q)
      {
        assert a.Search(w) == b.Search(w);
        if w in PostgresWords(p) {
          var x :| x in p.wordIndex && x.0 == w;
          assert x.1 in PostgresSearch(p, w);
        }
        if w in PostgresWords(q) {
          var x :| x in q.wordIndex && x.0 == w;
          assert x.1 in PostgresSearch(q, w);
        }
      }
      assert PostgresWords(p) == PostgresWords(q);
  }

  datatype Backend = Redis(redis: RedisBackend) | Postgres(pg: PostgreSQLBackend)
  {
    function Obj(): object
    {
      match this
      case Redis(r) => r
      case Postgres(p) => p
    }

    function State(): BackendState
      reads Obj()
    {
      match this
      case Redis(r) => RedisData(r.State())
      case Postgres(p) => PostgresData(p.State())
    }

    ghost predicate Valid()
      reads Obj()
    {
      State().Valid()
    }

    method StoreBookMetadata(id: string, md: MetadataInput)
      requires Valid()
      modifies Obj()
      ensures Valid() && State() == old(State()).Stored(id, md)
    {
      match this
      case Redis(r) => r.StoreBookMetadata(id, md);
      case Postgres(p) => p.StoreBookMetadata(id, md);
    }

    method AddWordToIndex(w: string, id: string)
      requires Valid()
      modifies Obj()
      ensures Valid() && State() == old(State()).Added(w, id)
    {
      match this
      case Redis(r) => r.AddWordToIndex(w, id);
      case Postgres(p) => p.AddWordToIndex(w, id);
    }

    method SearchWord(w: string) returns (r: set<string>)
      ensures r == State().Search(w)
      ensures State() == old(State())
    {
      match this
      case Redis(rb) => r := rb.SearchWord(w);
      case Postgres(p) => r := p.SearchWord(w);
    }

    method GetIndexedBooks() returns (r: set<string>)
      ensures r == State().Indexed()
    {
      match this
      case Redis(rb) => r := rb.GetIndexedBooks();
      case Postgres(p) => r := p.GetIndexedBooks();
    }

    method IsBookIndexed(id: string) returns (b: bool)
      ensures b <==> id in State().Meta()
    {
      match this
      case Redis(rb) => b := rb.IsBookIndexed(id);
      case Postgres(p) => b := p.IsBookIndexed(id);
    }

    method GetBookMetadata(id: string) returns (r: Option<BookRecord>)
      ensures r.Some? <==> id in State().Meta()
      ensures r.Some? ==> r.value == State().Meta()[id]
    {
      match this
      case Redis(rb) => r := rb.GetBookMetadata(id);
      case Postgres(p) => r := p.GetBookMetadata(id);
    }

    method GetStats() returns (s: Stats)
      ensures s == State().Stats()
    {
      match this
      case Redis(rb) => s := rb.GetStats();
      case Postgres(p) => s := p.GetStats();
    }
  }

  /** The metadata round trip of the functional test, on either backend. */
  method MetadataRoundTrip(b: Backend) returns (r: Option<BookRecord>)
    requires b.Valid()
    modifies b.Obj()
    ensures r == Some(BookRecord("Test Title", "Test Author", "en", 100, 50))
  {
    b.StoreBookMetadata("test_meta_001",
      MetadataInput(Some("Test Title"), Some("Test Author"), Some("en"), Some(100), Some(50)));
    r := b.GetBookMetadata("test_meta_001");
  }

  /** On a fresh Redis database, storing one id twice counts two books but indexes one. */
  method RedisDoubleStore() returns (before: Stats, after: Stats)
    ensures before == Stats(0, 0, 0)
    ensures after.totalBooks == 2 && after.indexedBooks == 1
  {
    var r := new RedisBackend(EmptyRedis);
    before := r.GetStats();
    var md := MetadataInput(Some("T"), None, None, Some(10), Some(5));
    r.StoreBookMetadata("1", md);
    r.StoreBookMetadata("1", md);
    after := r.GetStats();
    RedisReindexOvercounts(EmptyRedis, "1", md, md);
  }
}
