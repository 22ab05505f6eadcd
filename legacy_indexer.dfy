/**
 * The first indexer prototype. It scans the datalake for <id>.header.txt
 * files, newest first, keeping one header per id and only when the sibling
 * <id>.body.txt exists. It tokenizes header and body together and writes
 * the Redis keys book:<id>:metadata, word:<w>, title_word:<w>,
 * stats:all_words and stats:indexed_books itself.
 *
 * The datalake is a map from file to contents, together with the listing the
 * recursive glob returns (each file with its modification time). The Redis
 * keys are the fields of the Indexer class.
 */
module LegacyIndexer {
  import opened Wrappers
  import opened Text
  import opened Tokenizer
  import opened Ordering
  import opened StorageBackends

  // ---------------------------------------------------------------------------
  // _iter_books
  // ---------------------------------------------------------------------------

  /** A file of the datalake: its directory and its name. */
  datatype File = File(dir: string, name: string)

  /** A header file found by the recursive glob for "*.header.txt", with its modification time. */
  datatype Entry = Entry(file: File, mtime: int)

  /** A triple yielded by _iter_books. */
  datatype Book = Book(id: string, header: File, body: File)

  predicate AllDigits(s: string) { forall k :: 0 <= k < |s| ==> IsDigit(s[k]) }

  /** The end of the run of digits that starts at i. */
  function DigitRunEnd(s: string, i: nat): (j: nat)
    requires i <= |s|
    ensures i <= j <= |s| && AllDigits(s[i..j])
    ensures j < |s| ==> !IsDigit(s[j])
    decreases |s| - i
  {
    if i < |s| && IsDigit(s[i]) then DigitRunEnd(s, i + 1) else i
  }

  /**
   * re.match(r"^(\d+)\.header\.txt$", name): the digits before the suffix;
   * `$` also matches in front of a final line break.
   */
  function HeaderId(name: string): Option<string>
  {
    var k := DigitRunEnd(name, 0);
    if k > 0 && (name[k..] == ".header.txt" || name[k..] == ".header.txt\n") then Some(name[..k])
    else None
  }

  /** A header name yields an id exactly when it is that id's digits followed by the suffix. */
  lemma HeaderIdSpec(name: string, id: string)
    ensures HeaderId(name) == Some(id) <==>
      id != [] && AllDigits(id) && (name == id + ".header.txt" || name == id + ".header.txt\n")
  {
    var k := DigitRunEnd(name, 0);
    if id != [] && AllDigits(id) && (name == id + ".header.txt" || name == id + ".header.txt\n") {
      assert name[|id|] == '.';
      assert forall j :: 0 <= j < |id| ==> name[j] == id[j];
      DigitRunEndAt(name, 0, |id|);
      assert name[..k] == id;
    }
  }

  /** The digit run from i stops at b when s[i..b] is digits and s[b] is not. */
  lemma {:induction false} DigitRunEndAt(s: string, i: nat, b: nat)
    requires i <= b <= |s|
    requires forall k :: i <= k < b ==> IsDigit(s[k])
    requires b == |s| || !IsDigit(s[b])
    ensures DigitRunEnd(s, i) == b
    decreases b - i
  {
    if i < b {
      DigitRunEndAt(s, i + 1, b);
    }
  }

  /** The body file paired with a header: <id>.body.txt in the same directory. */
  function BodyOf(header: File, id: string): File
  {
    File(header.dir, id + ".body.txt")
  }

  /** Insert e behind every entry at least as new as e. */
  function InsertNewestFirst(e: Entry, r: seq<Entry>): (s: seq<Entry>)
    ensures multiset(s) == multiset(r) + multiset{e}
    decreases |r|
  {
    if r == [] then [e]
    else if r[0].mtime < e.mtime then [e] + r
    else
      assert r == [r[0]] + r[1..];
      [r[0]] + InsertNewestFirst(e, r[1..])
  }

  /** sorted(headers, key=mtime, reverse=True): a stable sort, newest first. */
  function NewestFirst(hs: seq<Entry>): (s: seq<Entry>)
    ensures multiset(s) == multiset(hs)
    decreases |hs|
  {
    if hs == [] then []
    else
      assert hs == hs[..|hs| - 1] + [hs[|hs| - 1]];
      InsertNewestFirst(hs[|hs| - 1], NewestFirst(hs[..|hs| - 1]))
  }

  predicate NewestFirstOrder(s: seq<Entry>)
  {
    forall i, j :: 0 <= i < j < |s| ==> s[j].mtime <= s[i].mtime
  }

  /** The entries of s with modification time t, in order. */
  function WithMtime(s: seq<Entry>, t: int): seq<Entry>
    decreases |s|
  {
    if s == [] then []
    else (if s[0].mtime == t then [s[0]] else []) + WithMtime(s[1..], t)
  }

  lemma {:induction false} WithMtimeAppend(a: seq<Entry>, b: seq<Entry>, t: int)
    ensures WithMtime(a + b, t) == WithMtime(a, t) + WithMtime(b, t)
    decreases |a|
  {
    if a == [] {
      assert a + b == b;
    } else {
      var head := if a[0].mtime == t then [a[0]] else [];
      assert (a + b)[0] == a[0] && (a + b)[1..] == a[1..] + b;
      assert WithMtime(a + b, t) == head + WithMtime(a[1..] + b, t);
      assert WithMtime(a, t) == head + WithMtime(a[1..], t);
      WithMtimeAppend(a[1..], b, t);
      assert head + (WithMtime(a[1..], t) + WithMtime(b, t)) == (head + WithMtime(a[1..], t)) + WithMtime(b, t);
    }
  }

  /** No entry of s is newer than m. */
  predicate AtMost(s: seq<Entry>, m: int)
  {
    forall k :: 0 <= k < |s| ==> s[k].mtime <= m
  }

  lemma TailOrdered(r: seq<Entry>)
    requires r != [] && NewestFirstOrder(r)
    ensures NewestFirstOrder(r[1..]) && AtMost(r[1..], r[0].mtime)
  {
    forall i, j | 0 <= i < j < |r[1..]| ensures r[1..][j].mtime <= r[1..][i].mtime {
      assert r[1..][i] == r[i + 1] && r[1..][j] == r[j + 1];
    }
    forall k | 0 <= k < |r[1..]| ensures r[1..][k].mtime <= r[0].mtime {
      assert r[1..][k] == r[k + 1];
    }
  }

  /** An ordered sequence has no entry newer than its first. */
  lemma HeadIsNewest(r: seq<Entry>, m: int)
    requires r != [] && NewestFirstOrder(r) && r[0].mtime <= m
    ensures AtMost(r, m)
  {
    forall k | 0 < k < |r| ensures r[k].mtime <= m {
      assert r[k].mtime <= r[0].mtime;
    }
  }

  /** Putting an entry at least as new as all of r in front keeps the order. */
  lemma PrependKeepsOrder(x: Entry, r: seq<Entry>, m: int)
    requires NewestFirstOrder(r) && AtMost(r, x.mtime) && x.mtime <= m
    ensures NewestFirstOrder([x] + r) && AtMost([x] + r, m)
  {
    var s := [x] + r;
    forall i, j | 0 <= i < j < |s| ensures s[j].mtime <= s[i].mtime {
      assert s[j] == r[j - 1];
      if i > 0 {
        assert s[i] == r[i - 1];
      }
    }
    forall k | 0 < k < |s| ensures s[k].mtime <= m {
      assert s[k] == r[k - 1];
    }
  }

  /** Inserting keeps the order, and no entry newer than r and e appears. */
  lemma {:induction false} InsertKeepsOrder(e: Entry, r: seq<Entry>, m: int)
    requires NewestFirstOrder(r) && AtMost(r, m) && e.mtime <= m
    ensures NewestFirstOrder(InsertNewestFirst(e, r)) && AtMost(InsertNewestFirst(e, r), m)
    decreases |r|
  {
    if r == [] {
      assert InsertNewestFirst(e, r) == [e];
    } else if r[0].mtime < e.mtime {
      HeadIsNewest(r, e.mtime);
      PrependKeepsOrder(e, r, m);
    } else {
      TailOrdered(r);
      var rest := InsertNewestFirst(e, r[1..]);
      InsertKeepsOrder(e, r[1..], r[0].mtime);
      assert r[0] in r;
      PrependKeepsOrder(r[0], rest, m);
    }
  }

  /** Inserting e puts it behind every entry of equal modification time. */
  lemma {:induction false} InsertStable(e: Entry, r: seq<Entry>, t: int)
    requires NewestFirstOrder(r)
    ensures WithMtime(InsertNewestFirst(e, r), t) == WithMtime(r, t) + WithMtime([e], t)
    decreases |r|
  {
    if r == [] {
      assert WithMtime(r, t) == [];
    } else if r[0].mtime < e.mtime {
      InsertInFront(e, r, t);
    } else {
      var s := InsertNewestFirst(e, r);
      TailOrdered(r);
      var rest := InsertNewestFirst(e, r[1..]);
      InsertStable(e, r[1..], t);
      var head := if r[0].mtime == t then [r[0]] else [];
      assert s[0] == r[0] && s[1..] == rest;
      assert WithMtime(s, t) == head + WithMtime(rest, t);
      assert WithMtime(r, t) == head + WithMtime(r[1..], t);
    }
  }

  /** e newer than all of r goes in front, and r holds no entry with e's time. */
  lemma InsertInFront(e: Entry, r: seq<Entry>, t: int)
    requires r != [] && r[0].mtime < e.mtime && NewestFirstOrder(r)
    ensures WithMtime(InsertNewestFirst(e, r), t) == WithMtime(r, t) + WithMtime([e], t)
  {
    assert InsertNewestFirst(e, r) == [e] + r;
    WithMtimeAppend([e], r, t);
    if e.mtime == t {
      NoneNewer(r, t);
    } else {
      assert WithMtime([e], t) == [] + WithMtime([e][1..], t);
    }
  }

  /** Entries newer than all of r are absent from r. */
  lemma {:induction false} NoneNewer(r: seq<Entry>, t: int)
    requires r != [] && r[0].mtime < t && NewestFirstOrder(r)
    ensures WithMtime(r, t) == []
    decreases |r|
  {
    if |r| > 1 {
      TailOrdered(r);
      NoneNewer(r[1..], t);
    }
  }

  /**
   * The sort puts newer headers first and keeps headers of equal
   * modification time in listing order.
   */
  lemma {:induction false} NewestFirstSpec(hs: seq<Entry>, t: int)
    ensures NewestFirstOrder(NewestFirst(hs))
    ensures WithMtime(NewestFirst(hs), t) == WithMtime(hs, t)
    decreases |hs|
  {
    if hs != [] {
      var init := hs[..|hs| - 1];
      var last := hs[|hs| - 1];
      NewestFirstSpec(init, t);
      var sorted := NewestFirst(init);
      var m := if sorted == [] || sorted[0].mtime < last.mtime then last.mtime else sorted[0].mtime;
      InsertKeepsOrder(last, sorted, m);
      InsertStable(last, sorted, t);
      assert hs == init + [last];
      WithMtimeAppend(init, [last], t);
    }
  }

  /** e names a header of id whose body file is present. */
  predicate Candidate(e: Entry, present: set<File>, id: string)
  {
    HeaderId(e.file.name) == Some(id) && BodyOf(e.file, id) in present
  }

  /** What _iter_books has yielded so far, and the ids it has marked as seen. */
  datatype Scanned = Scanned(out: seq<Book>, seen: set<string>)

  /** One header of the loop of _iter_books. */
  function ScanStep(st: Scanned, e: Entry, present: set<File>): Scanned
  {
    match HeaderId(e.file.name)
    case None => st
    case Some(id) =>
      if id in st.seen then st
      else if BodyOf(e.file, id) !in present then st
      else Scanned(st.out + [Book(id, e.file, BodyOf(e.file, id))], st.seen + {id})
  }

  /** The loop of _iter_books over the headers hs in turn. */
  function Scan(hs: seq<Entry>, present: set<File>): Scanned
    decreases |hs|
  {
    if hs == [] then Scanned([], {})
    else ScanStep(Scan(hs[..|hs| - 1], present), hs[|hs| - 1], present)
  }

  function Ids(bs: seq<Book>): set<string>
  {
    set b | b in bs :: b.id
  }

  /** The header of b comes first among the headers of its id that have a body. */
  ghost predicate FirstCandidate(hs: seq<Entry>, present: set<File>, b: Book)
  {
    exists p :: 0 <= p < |hs| && hs[p].file == b.header && Candidate(hs[p], present, b.id)
      && b.body == BodyOf(b.header, b.id)
      && forall q :: 0 <= q < p ==> !Candidate(hs[q], present, b.id)
  }

  /** _iter_books marks exactly the yielded ids as seen and yields no id twice. */
  lemma {:induction false} ScanDistinct(hs: seq<Entry>, present: set<File>)
    ensures Scan(hs, present).seen == Ids(Scan(hs, present).out)
    ensures forall i, j :: 0 <= i < j < |Scan(hs, present).out| ==> Scan(hs, present).out[i].id != Scan(hs, present).out[j].id
    decreases |hs|
  {
    if hs != [] {
      var init := hs[..|hs| - 1];
      ScanDistinct(init, present);
      var st := Scan(init, present);
      var out := Scan(hs, present).out;
      if out != st.out {
        var b := out[|out| - 1];
        assert out == st.out + [b] && b.id !in st.seen;
        assert forall x :: x in out <==> x in st.out || x == b;
        assert forall k :: 0 <= k < |st.out| ==> st.out[k] in st.out;
      }
    }
  }

  /** _iter_books marks an id as seen exactly when some header of that id has its body file. */
  lemma ScanSeen(hs: seq<Entry>, present: set<File>)
    ensures forall id :: id in Scan(hs, present).seen <==> exists p :: 0 <= p < |hs| && Candidate(hs[p], present, id)
  {
    forall id ensures id in Scan(hs, present).seen <==> exists p :: 0 <= p < |hs| && Candidate(hs[p], present, id) {
      ScanSeenId(hs, present, id);
    }
  }

  lemma {:induction false} ScanSeenId(hs: seq<Entry>, present: set<File>, id: string)
    ensures id in Scan(hs, present).seen <==> exists p :: 0 <= p < |hs| && Candidate(hs[p], present, id)
    decreases |hs|
  {
    if hs != [] {
      var init := hs[..|hs| - 1];
      var e := hs[|hs| - 1];
      ScanSeenId(init, present, id);
      assert Scan(hs, present) == ScanStep(Scan(init, present), e, present);
      StepSeen(Scan(init, present), e, present);
      if exists p :: 0 <= p < |hs| && Candidate(hs[p], present, id) {
        var p :| 0 <= p < |hs| && Candidate(hs[p], present, id);
        if p < |init| {
          assert init[p] == hs[p];
        }
      }
      if exists p :: 0 <= p < |init| && Candidate(init[p], present, id) {
        var p :| 0 <= p < |init| && Candidate(init[p], present, id);
        assert hs[p] == init[p];
      }
      if Candidate(e, present, id) {
        assert hs[|init|] == e;
      }
    }
  }

  lemma StepSeen(st: Scanned, e: Entry, present: set<File>)
    ensures forall id :: id in ScanStep(st, e, present).seen <==> id in st.seen || Candidate(e, present, id)
  {
  }

  /**
   * _iter_books yields an id exactly when some header of that id has its
   * body file, and yields no id twice.
   */
  lemma ScanIds(hs: seq<Entry>, present: set<File>)
    ensures forall id :: id in Ids(Scan(hs, present).out) <==> exists p :: 0 <= p < |hs| && Candidate(hs[p], present, id)
    ensures forall i, j :: 0 <= i < j < |Scan(hs, present).out| ==> Scan(hs, present).out[i].id != Scan(hs, present).out[j].id
  {
    ScanDistinct(hs, present);
    ScanSeen(hs, present);
  }

  /** Each yielded header is the first, in scan order, of its id's headers that have a body. */
  lemma {:induction false} ScanFirst(hs: seq<Entry>, present: set<File>)
    ensures forall b | b in Scan(hs, present).out :: FirstCandidate(hs, present, b)
    decreases |hs|
  {
    if hs != [] {
      var init := hs[..|hs| - 1];
      var e := hs[|hs| - 1];
      ScanFirst(init, present);
      ScanSeen(init, present);
      var st := Scan(init, present);
      forall b | b in Scan(hs, present).out ensures FirstCandidate(hs, present, b) {
        if b in st.out {
          var p :| 0 <= p < |init| && init[p].file == b.header && Candidate(init[p], present, b.id)
            && b.body == BodyOf(b.header, b.id)
            && forall q :: 0 <= q < p ==> !Candidate(init[q], present, b.id);
          assert hs[p] == init[p];
          assert forall q :: 0 <= q < p ==> hs[q] == init[q];
        } else {
          assert b == Book(b.id, e.file, BodyOf(e.file, b.id)) && b.id !in st.seen;
          assert forall q :: 0 <= q < |init| ==> hs[q] == init[q];
          assert hs[|init|] == e;
        }
      }
    }
  }

  // ---------------------------------------------------------------------------
  // process_book
  // ---------------------------------------------------------------------------

  /** The dict process_book returns. */
  datatype BookData = BookData(
    bookId: string, title: string, allWords: set<string>, titleWords: set<string>, wordCount: nat)

  /** A file that could not be read: the exception index_all_books reports and skips. */
  datatype ReadError = Unreadable(file: File)

  /** Both files of b are in the datalake, so open() succeeds on each. */
  predicate Readable(datalake: map<File, string>, b: Book)
  {
    b.header in datalake && b.body in datalake
  }

  /**
   * process_book: the stripped header is the title; its terms are the title
   * terms; the terms of header and body joined by a space are all terms;
   * the body's whitespace-separated pieces are counted.
   */
  function ProcessBook(datalake: map<File, string>, b: Book): (r: Result<BookData, ReadError>)
    ensures r.Err? <==> !Readable(datalake, b)
    ensures r.Ok? ==> r.value.bookId == b.id && r.value.title == Strip(datalake[b.header])
    ensures r.Ok? ==> r.value.titleWords == Tokenize(r.value.title)
    ensures r.Ok? ==> r.value.allWords == Tokenize(r.value.title + " " + datalake[b.body])
    ensures r.Ok? ==> r.value.wordCount == |Fields(datalake[b.body])|
  {
    if b.header !in datalake then Err(Unreadable(b.header))
    else if b.body !in datalake then Err(Unreadable(b.body))
    else
      var header := Strip(datalake[b.header]);
      var body := datalake[b.body];
      Ok(BookData(b.id, header, Tokenize(header + " " + body), Tokenize(header), |Fields(body)|))
  }

  /** Every title term is also a term of the book, and every term comes from header or body. */
  lemma TitleWordsAreWords(datalake: map<File, string>, b: Book)
    requires ProcessBook(datalake, b).Ok?
    ensures var d := ProcessBook(datalake, b).value;
      d.titleWords <= d.allWords
      && d.allWords == Tokenize(d.title) + Tokenize(datalake[b.body])
  {
    var header := Strip(datalake[b.header]);
    TokenizeSpaceSeparated(header, datalake[b.body]);
  }

  // ---------------------------------------------------------------------------
  // The Redis keys and what index_book does to them
  // ---------------------------------------------------------------------------

  /** The hash book:<id>:metadata. */
  datatype LegacyRecord = LegacyRecord(title: string, wordCount: int, uniqueWords: int)

  /**
   * The keys this indexer writes: the metadata hashes (by id); the sets
   * word:<w> and title_word:<w>, each as the (w, id) pairs they hold;
   * stats:all_words and stats:indexed_books.
   */
  datatype Keyspace = Keyspace(
    meta: map<string, LegacyRecord>,
    words: set<(string, string)>,
    titleWords: set<(string, string)>,
    allWords: set<string>,
    indexedBooks: set<string>)

  /** SMEMBERS of the set of w: the empty set when the key does not exist. */
  function Members(postings: set<(string, string)>, w: string): set<string>
  {
    set p | p in postings && p.0 == w :: p.1
  }

  /** The pairs SADD adds when id is added to the set of each w in ws. */
  function Pairs(ws: set<string>, id: string): set<(string, string)>
  {
    set w | w in ws :: (w, id)
  }

  /** One SADD more: adding w to the words already added. */
  lemma PairsStep(done: set<string>, w: string, id: string)
    ensures Pairs(done + {w}, id) == Pairs(done, id) + {(w, id)}
  {
    assert (w, id) in Pairs(done + {w}, id);
  }

  function RecordOf(d: BookData): LegacyRecord
  {
    LegacyRecord(d.title, d.wordCount, |d.allWords|)
  }

  /** index_book as one update of the keyspace. */
  function IndexedBook(ks: Keyspace, d: BookData): Keyspace
  {
    Keyspace(
      ks.meta[d.bookId := RecordOf(d)],
      ks.words + Pairs(d.allWords, d.bookId),
      ks.titleWords + Pairs(d.titleWords, d.bookId),
      ks.allWords + d.allWords,
      ks.indexedBooks + {d.bookId})
  }

  /**
   * index_book only adds: each term's set gains the book exactly when the
   * term is one of the book's, each title term's set likewise, and no
   * other set changes.
   */
  lemma IndexedBookPostings(ks: Keyspace, d: BookData, w: string)
    ensures Members(IndexedBook(ks, d).words, w) == Members(ks.words, w) + (if w in d.allWords then {d.bookId} else {})
    ensures Members(IndexedBook(ks, d).titleWords, w) == Members(ks.titleWords, w) + (if w in d.titleWords then {d.bookId} else {})
  {
    MembersAdd(ks.words, d.allWords, d.bookId, w);
    MembersAdd(ks.titleWords, d.titleWords, d.bookId, w);
  }

  lemma MembersAdd(postings: set<(string, string)>, ws: set<string>, id: string, w: string)
    ensures Members(postings + Pairs(ws, id), w) == Members(postings, w) + (if w in ws then {id} else {})
  {
    if w in ws {
      assert (w, id) in Pairs(ws, id);
    }
  }

  /** get_indexed_books: the ids read back from the metadata keys as key.split(':')[1]. */
  function KeyIds(ks: Keyspace): set<string>
  {
    set k | k in ks.meta :: RecoveredId(k)
  }

  /** get_stats: total_books counts stats:indexed_books, a set. */
  function StatsOf(ks: Keyspace): Stats
  {
    Stats(|ks.indexedBooks|, |ks.allWords|, |KeyIds(ks)|)
  }

  /** Indexing a book again does not change total_books, unlike the Redis backend's counter. */
  lemma ReindexCountsOnce(ks: Keyspace, d1: BookData, d2: BookData)
    requires d1.bookId == d2.bookId
    ensures StatsOf(IndexedBook(IndexedBook(ks, d1), d2)).totalBooks == StatsOf(IndexedBook(ks, d1)).totalBooks
    ensures StatsOf(IndexedBook(ks, d1)).totalBooks == |ks.indexedBooks| + (if d1.bookId in ks.indexedBooks then 0 else 1)
  {
    var once := IndexedBook(ks, d1).indexedBooks;
    assert IndexedBook(IndexedBook(ks, d1), d2).indexedBooks == once;
    if d1.bookId !in ks.indexedBooks {
      assert |ks.indexedBooks + {d1.bookId}| == |ks.indexedBooks| + 1;
    } else {
      assert once == ks.indexedBooks;
    }
  }

  // ---------------------------------------------------------------------------
  // index_all_books
  // ---------------------------------------------------------------------------

  /** The yielded books that index_all_books indexes: all of them when forced, else the unindexed ones. */
  function Selected(bs: seq<Book>, indexed: set<string>, force: bool): seq<Book>
    decreases |bs|
  {
    if bs == [] then []
    else
      var b := bs[|bs| - 1];
      Selected(bs[..|bs| - 1], indexed, force) + (if force || b.id !in indexed then [b] else [])
  }

  /** The selection keeps order; it is everything when forced and otherwise the books whose id is not indexed. */
  lemma {:induction false} SelectedSpec(bs: seq<Book>, indexed: set<string>, force: bool)
    ensures force ==> Selected(bs, indexed, force) == bs
    ensures forall b :: b in Selected(bs, indexed, force) <==> b in bs && (force || b.id !in indexed)
    decreases |bs|
  {
    if bs != [] {
      var init := bs[..|bs| - 1];
      SelectedSpec(init, indexed, force);
      assert bs == init + [bs[|bs| - 1]];
      assert forall x :: x in bs <==> x in init || x == bs[|bs| - 1];
    }
  }

  /** The keyspace after indexing the books of bs in turn; a book whose files cannot be read is skipped. */
  function AfterAll(ks: Keyspace, datalake: map<File, string>, bs: seq<Book>): Keyspace
    decreases |bs|
  {
    if bs == [] then ks
    else
      var k := AfterAll(ks, datalake, bs[..|bs| - 1]);
      match ProcessBook(datalake, bs[|bs| - 1])
      case Ok(d) => IndexedBook(k, d)
      case Err(_) => k
  }

  /** The ids of the books of bs whose processing raises, in order. */
  function Failures(datalake: map<File, string>, bs: seq<Book>): seq<string>
    decreases |bs|
  {
    if bs == [] then []
    else
      var b := bs[|bs| - 1];
      Failures(datalake, bs[..|bs| - 1]) + (if ProcessBook(datalake, b).Err? then [b.id] else [])
  }

  /** The terms a book is indexed under; none when its files cannot be read. */
  function WordsOf(datalake: map<File, string>, b: Book): set<string>
  {
    var r := ProcessBook(datalake, b);
    if r.Ok? then r.value.allWords else {}
  }

  /**
   * After index_all_books, a book is in word:<w> exactly when it was before
   * or it is one of the indexed books and w one of its terms.
   */
  lemma {:induction false} AfterAllPostings(ks: Keyspace, datalake: map<File, string>, bs: seq<Book>)
    ensures forall w, x :: (w, x) in AfterAll(ks, datalake, bs).words <==>
      (w, x) in ks.words || exists b | b in bs :: b.id == x && w in WordsOf(datalake, b)
    decreases |bs|
  {
    if bs != [] {
      var init := bs[..|bs| - 1];
      var last := bs[|bs| - 1];
      AfterAllPostings(ks, datalake, init);
      assert forall b :: b in bs <==> b in init || b == last;
    }
  }

  /** The books processed join stats:indexed_books; those whose files cannot be read do not. */
  lemma {:induction false} AfterAllIndexed(ks: Keyspace, datalake: map<File, string>, bs: seq<Book>)
    ensures forall x :: x in AfterAll(ks, datalake, bs).indexedBooks <==>
      x in ks.indexedBooks || exists b | b in bs :: b.id == x && Readable(datalake, b)
    decreases |bs|
  {
    if bs != [] {
      var init := bs[..|bs| - 1];
      var last := bs[|bs| - 1];
      AfterAllIndexed(ks, datalake, init);
      assert forall b :: b in bs <==> b in init || b == last;
    }
  }

  /** A failure list names exactly the books whose files could not be read. */
  lemma {:induction false} FailuresSpec(datalake: map<File, string>, bs: seq<Book>)
    ensures forall id :: id in Failures(datalake, bs) <==> exists b | b in bs :: b.id == id && !Readable(datalake, b)
    decreases |bs|
  {
    if bs != [] {
      FailuresSpec(datalake, bs[..|bs| - 1]);
      assert forall b :: b in bs <==> b in bs[..|bs| - 1] || b == bs[|bs| - 1];
    }
  }

  /** id holds every term of ts. */
  ghost predicate HasAll(ks: Keyspace, ts: set<string>, id: string)
  {
    forall t | t in ts :: (t, id) in ks.words
  }

  // ---------------------------------------------------------------------------
  // The Indexer class
  // ---------------------------------------------------------------------------

  class Indexer {
    var meta: map<string, LegacyRecord>
    var words: set<(string, string)>
    var titleWords: set<(string, string)>
    var allWords: set<string>
    var indexedBooks: set<string>

    function Keys(): Keyspace
      reads this
    {
      Keyspace(meta, words, titleWords, allWords, indexedBooks)
    }

    /** An indexer over a Redis database that already holds ks. */
    constructor (ks: Keyspace)
      ensures Keys() == ks
    {
      meta, words, titleWords, allWords, indexedBooks := ks.meta, ks.words, ks.titleWords, ks.allWords, ks.indexedBooks;
    }

    /**
     * _iter_books over the headers the glob lists and the files present:
     * newest first, one book per id, only headers whose body exists.
     */
    method IterBooks(listing: seq<Entry>, present: set<File>) returns (books: seq<Book>)
      ensures books == Scan(NewestFirst(listing), present).out
    {
      var headers := NewestFirst(listing);
      var seen: set<string> := {};
      books := [];
      for i := 0 to |headers|
        invariant Scanned(books, seen) == Scan(headers[..i], present)
      {
        var h := headers[i];
        assert headers[..i + 1][..i] == headers[..i];
        match HeaderId(h.file.name) {
          case None =>
          case Some(bid) =>
            if bid !in seen {
              var body := BodyOf(h.file, bid);
              if body in present {
                seen := seen + {bid};
                books := books + [Book(bid, h.file, body)];
              }
            }
        }
      }
      assert headers[..|headers|] == headers;
    }

    method GetIndexedBooks() returns (ids: set<string>)
      ensures ids == KeyIds(Keys())
    {
      ids := set k | k in meta :: RecoveredId(k);
    }

    /** is_book_indexed: the key book:<id>:metadata exists. */
    method IsBookIndexed(id: string) returns (b: bool)
      ensures b <==> id in Keys().meta
    {
      b := id in meta;
    }

    /** get_book_info: the hash of the book, empty when there is none. */
    method GetBookInfo(id: string) returns (r: Option<LegacyRecord>)
      ensures r.Some? <==> id in Keys().meta
      ensures r.Some? ==> r.value == Keys().meta[id]
    {
      r := if id in meta then Some(meta[id]) else None;
    }

    method GetStats() returns (s: Stats)
      ensures s == StatsOf(Keys())
    {
      var ids := GetIndexedBooks();
      s := Stats(|indexedBooks|, |allWords|, |ids|);
    }

    /** index_book: the queued writes of one pipeline, in order. */
    method IndexBook(d: BookData)
      modifies this
      ensures Keys() == IndexedBook(old(Keys()), d)
    {
      meta := meta[d.bookId := RecordOf(d)];
      AddWordPostings(d.allWords, d.bookId);
      AddTitlePostings(d.titleWords, d.bookId);
      if d.allWords != {} {
        allWords := allWords + d.allWords;
      }
      indexedBooks := indexedBooks + {d.bookId};
    }

    /** SADD word:<w> id for each w of ws. */
    method AddWordPostings(ws: set<string>, id: string)
      modifies this`words
      ensures words == old(words) + Pairs(ws, id)
    {
      var rest := ws;
      ghost var done: set<string> := {};
      while rest != {}
        invariant done + rest == ws
        invariant words == old(words) + Pairs(done, id)
        decreases |rest|
      {
        var w :| w in rest;
        PairsStep(done, w, id);
        words := words + {(w, id)};
        rest := rest - {w};
        done := done + {w};
      }
    }

    /** SADD title_word:<w> id for each w of ws. */
    method AddTitlePostings(ws: set<string>, id: string)
      modifies this`titleWords
      ensures titleWords == old(titleWords) + Pairs(ws, id)
    {
      var rest := ws;
      ghost var done: set<string> := {};
      while rest != {}
        invariant done + rest == ws
        invariant titleWords == old(titleWords) + Pairs(done, id)
        decreases |rest|
      {
        var w :| w in rest;
        PairsStep(done, w, id);
        titleWords := titleWords + {(w, id)};
        rest := rest - {w};
        done := done + {w};
      }
    }

    /**
     * index_all_books: the books _iter_books yields, all of them when forced
     * and otherwise those whose id get_indexed_books does not report; each is
     * processed and indexed, and one whose files cannot be read is reported
     * and skipped.
     */
    method IndexAllBooks(listing: seq<Entry>, datalake: map<File, string>, force: bool)
      returns (toIndex: seq<Book>, failed: seq<string>)
      modifies this
      ensures toIndex == Selected(Scan(NewestFirst(listing), datalake.Keys).out, KeyIds(old(Keys())), force)
      ensures failed == Failures(datalake, toIndex)
      ensures Keys() == AfterAll(old(Keys()), datalake, toIndex)
    {
      var indexed := GetIndexedBooks();
      var found := IterBooks(listing, datalake.Keys);
      toIndex := SelectBooks(found, indexed, force);
      failed := [];
      if toIndex == [] {
        return;
      }
      failed := IndexEach(datalake, toIndex);
    }

    /** The filter of index_all_books: forced, or not among the indexed ids. */
    method SelectBooks(found: seq<Book>, indexed: set<string>, force: bool) returns (toIndex: seq<Book>)
      ensures toIndex == Selected(found, indexed, force)
    {
      toIndex := [];
      for i := 0 to |found|
        invariant toIndex == Selected(found[..i], indexed, force)
      {
        assert found[..i + 1][..i] == found[..i];
        if force || found[i].id !in indexed {
          toIndex := toIndex + [found[i]];
        }
      }
      assert found[..|found|] == found;
    }

    /** The loop of index_all_books: process and index each book, reporting those that raise. */
    method IndexEach(datalake: map<File, string>, bs: seq<Book>) returns (failed: seq<string>)
      modifies this
      ensures failed == Failures(datalake, bs)
      ensures Keys() == AfterAll(old(Keys()), datalake, bs)
    {
      failed := [];
      for i := 0 to |bs|
        invariant failed == Failures(datalake, bs[..i])
        invariant Keys() == AfterAll(old(Keys()), datalake, bs[..i])
      {
        assert bs[..i + 1][..i] == bs[..i];
        var data := ProcessBook(datalake, bs[i]);
        if data.Ok? {
          IndexBook(data.value);
        } else {
          failed := failed + [bs[i].id];
        }
      }
      assert bs[..|bs|] == bs;
    }

    /**
     * search_books: the ids in every word:<w> set of the query's terms, in
     * ascending order; none for a query without terms. The title_word sets
     * are not consulted.
     */
    method SearchBooks(query: string) returns (r: seq<string>)
      ensures Tokenize(query) == {} ==> r == []
      ensures Tokenize(query) != {} ==> StrictlySorted(r) && forall id :: id in r <==> HasAll(Keys(), Tokenize(query), id)
    {
      var terms := Tokenize(query);
      if terms == {} {
        return [];
      }
      var postings := words;
      ghost var ks := Keys();
      var first :| first in terms;
      var res := Members(postings, first);
      var rest := terms - {first};
      ghost var done := {first};
      while rest != {}
        invariant done + rest == terms
        invariant forall id :: id in res <==> HasAll(ks, done, id)
        decreases |rest|
      {
        var t :| t in rest;
        res := res * Members(postings, t);
        rest := rest - {t};
        done := done + {t};
      }
      r := SortStrings(res);
    }
  }
}
