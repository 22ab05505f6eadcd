/**
 * The application indexer: it reads header_<id>.txt and body_<id>.txt from
 * the datalake directory, extracts title, author and language from the
 * header, tokenizes the body and hands everything to a storage backend.
 * Searches intersect the backend's posting sets of the query's tokens.
 *
 * The datalake directory is a map from file name to contents, plus the
 * sequence of names a directory listing returns.
 */
module AppIndexer {
  import opened Wrappers
  import opened Text
  import opened Tokenizer
  import opened StorageBackends

  // ---------------------------------------------------------------------------
  // extract_metadata_from_header: re.search(r'<Key>\s*(.+)', header, re.IGNORECASE)
  // ---------------------------------------------------------------------------

  /**
   * Backtracking of the greedy \s* that began at q and has reached k: the
   * first position, going back from k, where `.+` can take a character
   * (anything but '\n').
   */
  function ValueStartFrom(s: string, q: nat, k: nat): (r: Option<nat>)
    requires q <= k <= |s|
    ensures r.Some? ==> q <= r.value <= k && r.value < |s| && s[r.value] != '\n'
    ensures r.Some? ==> forall j :: r.value < j <= k && j < |s| ==> s[j] == '\n'
    ensures r.None? ==> forall j :: q <= j <= k && j < |s| ==> s[j] == '\n'
    decreases k
  {
    if k < |s| && s[k] != '\n' then Some(k)
    else if k == q then None
    else ValueStartFrom(s, q, k - 1)
  }

  /**
   * Where the captured group starts once the key has matched up to q: the
   * longest run of whitespace after q that is followed by a character other
   * than '\n'; None when there is none (the whole pattern fails there).
   */
  function ValueStart(s: string, q: nat): (r: Option<nat>)
    requires q <= |s|
    ensures r.Some? ==> q <= r.value < |s| && s[r.value] != '\n' && AllSpace(s[q..r.value])
    ensures r.Some? ==> forall j :: r.value < j < |s| && AllSpace(s[q..j]) ==> s[j] == '\n'
    ensures r.None? ==> forall j :: q <= j < |s| && AllSpace(s[q..j]) ==> s[j] == '\n'
  {
    ValueStartGreedy(s, q);
    ValueStartFrom(s, q, SpaceRunEnd(s, q))
  }

  lemma ValueStartGreedy(s: string, q: nat)
    requires q <= |s|
    ensures forall j :: q <= j < |s| && AllSpace(s[q..j]) ==> j <= SpaceRunEnd(s, q)
    ensures var r := ValueStartFrom(s, q, SpaceRunEnd(s, q));
      r.Some? ==> AllSpace(s[q..r.value])
  {
    var e := SpaceRunEnd(s, q);
    forall j | q <= j < |s| && AllSpace(s[q..j]) ensures j <= e {
    }
    var r := ValueStartFrom(s, q, e);
    if r.Some? {
      assert s[q..r.value] == s[q..e][..r.value - q];
    }
  }

  /** The whole pattern matches at position p. */
  predicate MatchesAt(s: string, key: string, p: nat)
  {
    LabelAt(s, p, key) && ValueStart(s, p + |key|).Some?
  }

  /** The group captured by a match at p: from the value start to the end of its line. */
  function Group(s: string, key: string, p: nat): (g: string)
    requires MatchesAt(s, key, p)
    ensures g != [] && '\n' !in g
  {
    var k := ValueStart(s, p + |key|).value;
    var e := LineEnd(s, k);
    assert s[k..e][0] == s[k];
    s[k..e]
  }

  /** re.search from position p: the leftmost position at or after p where the pattern matches. */
  function SearchFrom(s: string, key: string, p: nat): (r: Option<nat>)
    requires p <= |s|
    ensures r.Some? ==> p <= r.value <= |s| && MatchesAt(s, key, r.value)
    decreases |s| - p
  {
    if MatchesAt(s, key, p) then Some(p)
    else if p == |s| then None
    else SearchFrom(s, key, p + 1)
  }

  /** No match lies between p and the one SearchFrom finds, nor anywhere after p when it finds none. */
  lemma {:induction false} SearchFromLeftmost(s: string, key: string, p: nat)
    requires p <= |s|
    ensures SearchFrom(s, key, p).Some? ==> forall i :: p <= i < SearchFrom(s, key, p).value ==> !MatchesAt(s, key, i)
    ensures SearchFrom(s, key, p).None? ==> forall i :: p <= i <= |s| ==> !MatchesAt(s, key, i)
    decreases |s| - p
  {
    if !MatchesAt(s, key, p) && p < |s| {
      var r := SearchFrom(s, key, p + 1);
      assert SearchFrom(s, key, p) == r;
      SearchFromLeftmost(s, key, p + 1);
      forall i | p <= i <= |s| && (r.None? || i < r.value) ensures !MatchesAt(s, key, i) {
        if i == p {
        } else {
          assert p + 1 <= i;
        }
      }
    }
  }

  /** The value re.search leaves in the metadata dict: the stripped group, or the default. */
  function Field(s: string, key: string, default: string): string
  {
    match SearchFrom(s, key, 0)
    case Some(p) => Strip(Group(s, key, p))
    case None => default
  }

  /** p is where re.search finds the pattern: the leftmost match. */
  ghost predicate FirstMatch(s: string, key: string, p: nat)
  {
    p <= |s| && MatchesAt(s, key, p) && forall i :: 0 <= i < p ==> !MatchesAt(s, key, i)
  }

  /**
   * v is what extraction yields for key: without a match anywhere, the
   * default; otherwise the stripped group of the leftmost match, which lies
   * on one line and has no surrounding whitespace.
   */
  ghost predicate Extracted(s: string, key: string, default: string, v: string)
  {
    if exists p :: 0 <= p <= |s| && MatchesAt(s, key, p) then
      && (exists p :: FirstMatch(s, key, p) && v == Strip(Group(s, key, p)))
      && '\n' !in v
      && (v != [] ==> !IsSpace(v[0]) && !IsSpace(v[|v| - 1]))
    else v == default
  }

  datatype HeaderMetadata = HeaderMetadata(title: string, author: string, language: string)

  function ExtractMetadataFromHeader(header: string): HeaderMetadata
  {
    HeaderMetadata(Field(header, "Title:", ""), Field(header, "Author:", ""), Field(header, "Language:", "en"))
  }

  /**
   * Each field is taken from the leftmost match of its pattern; title and
   * author default to "" and language to "en".
   */
  lemma ExtractMetadataSpec(header: string)
    ensures Extracted(header, "Title:", "", ExtractMetadataFromHeader(header).title)
    ensures Extracted(header, "Author:", "", ExtractMetadataFromHeader(header).author)
    ensures Extracted(header, "Language:", "en", ExtractMetadataFromHeader(header).language)
  {
    FieldExtracted(header, "Title:", "");
    FieldExtracted(header, "Author:", "");
    FieldExtracted(header, "Language:", "en");
  }

  lemma FieldExtracted(s: string, key: string, default: string)
    ensures Extracted(s, key, default, Field(s, key, default))
  {
    SearchFromLeftmost(s, key, 0);
    match SearchFrom(s, key, 0)
    case Some(p) =>
      assert FirstMatch(s, key, p);
      StripInside(Group(s, key, p));
    case None =>
  }

  /** Stripping a one-line string leaves a one-line string. */
  lemma StripInside(g: string)
    requires '\n' !in g
    ensures '\n' !in Strip(g)
  {
    var v := Strip(g);
    var i := StripSlice(g);
    forall k | 0 <= k < |v| ensures v[k] != '\n' {
      assert v[k] == g[i + k];
    }
  }

  /** "Title:" is found inside "Subtitle:": the search is not anchored. */
  lemma ExtractSubtitle()
    ensures ExtractMetadataFromHeader("Subtitle: X").title == "X"
  {
    var s := "Subtitle: X";
    assert Lower(s[0..6])[0] != Lower("Title:")[0];
    assert Lower(s[1..7])[0] != Lower("Title:")[0];
    assert Lower(s[2..8])[0] != Lower("Title:")[0];
    assert Lower(s[3..9]) == Lower("Title:");
    assert SpaceRunEnd(s, 9) == 10;
    assert ValueStart(s, 9) == Some(10);
    assert SearchFrom(s, "Title:", 0) == Some(3);
    assert LineEnd(s, 10) == 11;
    assert Group(s, "Title:", 3) == "X";
  }

  /** \s* swallows the line break after an empty "Title:", so the next line becomes the title. */
  lemma ExtractEmptyTitleLine()
    ensures ExtractMetadataFromHeader("Title:\nAuthor: Y") == HeaderMetadata("Author: Y", "Y", "en")
  {
    EmptyTitleTakesNextLine();
    EmptyTitleAuthor();
    EmptyTitleLanguage();
  }

  lemma EmptyTitleTakesNextLine()
    ensures Field("Title:\nAuthor: Y", "Title:", "") == "Author: Y"
  {
    var s := "Title:\nAuthor: Y";
    assert Lower(s[0..6]) == Lower("Title:");
    assert SpaceRunEnd(s, 7) == 7;
    assert SpaceRunEnd(s, 6) == 7;
    assert ValueStart(s, 6) == Some(7);
    assert SearchFrom(s, "Title:", 0) == Some(0);
    assert LineEnd(s, 7) == 16;
    assert Group(s, "Title:", 0) == "Author: Y";
  }

  lemma EmptyTitleAuthor()
    ensures Field("Title:\nAuthor: Y", "Author:", "") == "Y"
  {
    var s := "Title:\nAuthor: Y";
    assert Lower(s[7..14]) == Lower("Author:");
    assert SpaceRunEnd(s, 15) == 15;
    assert SpaceRunEnd(s, 14) == 15;
    assert ValueStart(s, 14) == Some(15);
    assert SearchFrom(s, "Author:", 7) == Some(7);
    forall p | 0 <= p < 7 ensures !MatchesAt(s, "Author:", p) {
      assert Lower(s[p..p + 7])[0] != Lower("Author:")[0];
    }
    SearchFromSkips(s, "Author:", 0, 7);
    assert LineEnd(s, 15) == 16;
    assert Group(s, "Author:", 7) == "Y";
  }

  lemma EmptyTitleLanguage()
    ensures Field("Title:\nAuthor: Y", "Language:", "en") == "en"
  {
    var s := "Title:\nAuthor: Y";
    forall p | 0 <= p <= |s| ensures !MatchesAt(s, "Language:", p) {
      if p == 3 {
        assert Lower(s[p..p + 9])[1] != Lower("Language:")[1];
      } else if p + 9 <= |s| {
        assert Lower(s[p..p + 9])[0] != Lower("Language:")[0];
      }
    }
    SearchFromSkips(s, "Language:", 0, |s|);
  }

  /** Positions without a match do not change where the search lands. */
  lemma {:induction false} SearchFromSkips(s: string, key: string, p: nat, q: nat)
    requires p <= q <= |s|
    requires forall i :: p <= i < q ==> !MatchesAt(s, key, i)
    ensures SearchFrom(s, key, p) == SearchFrom(s, key, q)
    decreases q - p
  {
    if p < q {
      SearchFromSkips(s, key, p + 1, q);
    }
  }

  // ---------------------------------------------------------------------------
  // process_book
  // ---------------------------------------------------------------------------

  function HeaderName(id: string): string { "header_" + id + ".txt" }

  function BodyName(id: string): string { "body_" + id + ".txt" }

  /** One of the book's two files is not in the datalake. */
  predicate Missing(datalake: map<string, string>, id: string)
  {
    HeaderName(id) !in datalake || BodyName(id) !in datalake
  }

  /** The dict process_book returns. */
  datatype BookData = BookData(
    bookId: string, title: string, author: string, language: string,
    allWords: set<string>, titleWords: set<string>, wordCount: int)

  datatype IndexError = FileNotFound(bookId: string)

  /**
   * process_book over the datalake directory (file name to contents): both
   * files must exist; the header is stripped before extraction; the indexed
   * words come from the body alone and the title words from the extracted
   * title; word_count counts the body's whitespace-separated fields.
   */
  function ProcessBook(datalake: map<string, string>, id: string): (r: Result<BookData, IndexError>)
    ensures r.Err? <==> Missing(datalake, id)
    ensures r.Err? ==> r.error == FileNotFound(id)
    ensures r.Ok? ==> r.value.bookId == id && r.value.wordCount == |Fields(datalake[BodyName(id)])|
    ensures r.Ok? ==>
      var md := ExtractMetadataFromHeader(Strip(datalake[HeaderName(id)]));
      r.value.title == md.title && r.value.author == md.author && r.value.language == md.language
    ensures r.Ok? ==> r.value.allWords == Tokenize(datalake[BodyName(id)]) && r.value.titleWords == Tokenize(r.value.title)
    ensures r.Ok? ==> forall w | w in r.value.allWords + r.value.titleWords :: |w| > 2
  {
    if HeaderName(id) !in datalake || BodyName(id) !in datalake then Err(FileNotFound(id))
    else
      var header := Strip(datalake[HeaderName(id)]);
      var body := datalake[BodyName(id)];
      var md := ExtractMetadataFromHeader(header);
      Ok(BookData(id, md.title, md.author, md.language, Tokenize(body), Tokenize(md.title), |Fields(body)|))
  }

  /**
   * The title, author and language of a processed book are what the three
   * header patterns match first in the stripped header, and its indexed
   * words are the lower-cased whole letter runs of the body longer than two.
   */
  lemma ProcessBookSpec(datalake: map<string, string>, id: string)
    requires ProcessBook(datalake, id).Ok?
    ensures var d := ProcessBook(datalake, id).value; var h := Strip(datalake[HeaderName(id)]);
      && Extracted(h, "Title:", "", d.title)
      && Extracted(h, "Author:", "", d.author)
      && Extracted(h, "Language:", "en", d.language)
    ensures var d := ProcessBook(datalake, id).value; var body := datalake[BodyName(id)];
      forall w :: w in d.allWords <==> |w| > 2 && exists a, b :: WholeRun(body, a, b) && w == Lower(body[a..b])
  {
    ExtractMetadataSpec(Strip(datalake[HeaderName(id)]));
    TokenizeIsWholeRuns(datalake[BodyName(id)]);
  }

  /**
   * The indexed words do not depend on the header: two datalakes with the
   * same body for a book give it the same words and word count.
   */
  lemma WordsComeFromBody(d1: map<string, string>, d2: map<string, string>, id: string)
    requires ProcessBook(d1, id).Ok? && ProcessBook(d2, id).Ok?
    requires d1[BodyName(id)] == d2[BodyName(id)]
    ensures ProcessBook(d1, id).value.allWords == ProcessBook(d2, id).value.allWords
    ensures ProcessBook(d1, id).value.wordCount == ProcessBook(d2, id).value.wordCount
  {
  }

  /** The metadata dict index_book hands to the backend. */
  function MetadataOf(data: BookData): MetadataInput
  {
    MetadataInput(Some(data.title), Some(data.author), Some(data.language),
                  Some(data.wordCount), Some(|data.allWords|))
  }

  // ---------------------------------------------------------------------------
  // Book ids from the directory listing
  // ---------------------------------------------------------------------------

  /** The glob pattern 'header_*.txt'. */
  predicate IsHeaderName(name: string)
  {
    |name| >= 11 && name[..7] == "header_" && name[|name| - 4..] == ".txt"
  }

  /** f.stem.replace('header_', ''): the name without ".txt", every "header_" removed. */
  function BookIdOf(name: string): string
    requires IsHeaderName(name)
  {
    ReplaceAll(name[..|name| - 4], "header_", "")
  }

  /** The ids of index_all_books, in listing order. */
  function BookIds(listing: seq<string>): (ids: seq<string>)
    ensures |ids| <= |listing|
    decreases |listing|
  {
    if listing == [] then []
    else
      var init := BookIds(listing[..|listing| - 1]);
      var name := listing[|listing| - 1];
      if IsHeaderName(name) then init + [BookIdOf(name)] else init
  }

  /** The ids are taken from exactly the listed header files. */
  lemma {:induction false} BookIdsSpec(listing: seq<string>)
    ensures forall x :: x in BookIds(listing) <==> exists n | n in listing :: IsHeaderName(n) && x == BookIdOf(n)
    decreases |listing|
  {
    if listing != [] {
      var init := listing[..|listing| - 1];
      BookIdsSpec(init);
      assert forall n :: n in listing <==> n in init || n == listing[|listing| - 1];
    }
  }

  /**
   * The ids keep listing order: the ids of two listings one after the other
   * are the ids of the first followed by those of the second.
   */
  lemma {:induction false} BookIdsAppend(a: seq<string>, b: seq<string>)
    ensures BookIds(a + b) == BookIds(a) + BookIds(b)
    decreases |b|
  {
    if b == [] {
      assert a + b == a;
    } else {
      var init := b[..|b| - 1];
      var n := b[|b| - 1];
      var tail := if IsHeaderName(n) then [BookIdOf(n)] else [];
      BookIdsAppend(a, init);
      assert (a + b)[..|a + b| - 1] == a + init;
      assert (a + b)[|a + b| - 1] == n;
      assert BookIds(a + b) == BookIds(a + init) + tail;
      assert BookIds(b) == BookIds(init) + tail;
      assert (BookIds(a) + BookIds(init)) + tail == BookIds(a) + (BookIds(init) + tail);
    }
  }

  /**
   * The header file of a book yields the book's id back unless the id itself
   * holds "header_" (then process_book looks for a different file).
   */
  lemma BookIdRoundTrip(id: string)
    ensures IsHeaderName(HeaderName(id))
    ensures !Contains(id, "header_") ==> BookIdOf(HeaderName(id)) == id
  {
    var name := HeaderName(id);
    assert name[..|name| - 4] == "header_" + id;
    if !Contains(id, "header_") {
      ReplaceAllAbsent(id, "header_", "");
      assert ("header_" + id)[7..] == id;
    }
  }

  lemma BookIdLosesHeaderPrefix()
    ensures BookIdOf(HeaderName("header_1")) == "1"
  {
    var stem := "header_header_1";
    assert HeaderName("header_1")[..|HeaderName("header_1")| - 4] == stem;
    assert stem[7..] == "header_1";
    assert stem[7..][7..] == "1";
  }

  /** Keep the ids not in the given set, in order. */
  function NotIn(ids: seq<string>, indexed: set<string>): seq<string>
    decreases |ids|
  {
    if ids == [] then []
    else
      var init := NotIn(ids[..|ids| - 1], indexed);
      var id := ids[|ids| - 1];
      if id in indexed then init else init + [id]
  }

  /** NotIn keeps exactly the ids outside the set, and never adds any. */
  lemma {:induction false} NotInSpec(ids: seq<string>, indexed: set<string>)
    ensures |NotIn(ids, indexed)| <= |ids|
    ensures forall id :: id in NotIn(ids, indexed) <==> id in ids && id !in indexed
    decreases |ids|
  {
    if ids != [] {
      var init := ids[..|ids| - 1];
      NotInSpec(init, indexed);
      assert forall x :: x in ids <==> x in init || x == ids[|ids| - 1];
    }
  }

  /** The ids among ids for which process_book raises, in order. */
  function Failures(datalake: map<string, string>, ids: seq<string>): seq<string>
    decreases |ids|
  {
    if ids == [] then []
    else
      var init := Failures(datalake, ids[..|ids| - 1]);
      var id := ids[|ids| - 1];
      if Missing(datalake, id) then init + [id] else init
  }

  /** The reported failures are exactly the listed ids whose files are missing. */
  lemma {:induction false} FailuresSpec(datalake: map<string, string>, ids: seq<string>)
    ensures forall id :: id in Failures(datalake, ids) <==> id in ids && ProcessBook(datalake, id).Err?
    decreases |ids|
  {
    if ids != [] {
      var init := ids[..|ids| - 1];
      FailuresSpec(datalake, init);
      assert forall x :: x in ids <==> x in init || x == ids[|ids| - 1];
    }
  }

  /** id is one of ids and its files can be processed. */
  predicate Processed(datalake: map<string, string>, ids: seq<string>, id: string)
  {
    id in ids && ProcessBook(datalake, id).Ok?
  }

  /** The words a processed book is indexed under; none when its files are missing. */
  function WordsOf(datalake: map<string, string>, id: string): set<string>
  {
    var r := ProcessBook(datalake, id);
    if r.Ok? then r.value.allWords else {}
  }

  /** after holds the postings of before and, in addition, id under each of words. */
  ghost predicate PostingsAdded(before: BackendState, after: BackendState, words: set<string>, id: string)
  {
    forall w, x :: x in after.Search(w) <==> x in before.Search(w) || (w in words && x == id)
  }

  /** after holds the postings of before and, in addition, each book of ids under its own words. */
  ghost predicate BooksAdded(before: BackendState, after: BackendState, datalake: map<string, string>, ids: seq<string>)
  {
    forall w, x :: x in after.Search(w) <==> x in before.Search(w) || (x in ids && w in WordsOf(datalake, x))
  }

  lemma StoreKeepsPostings(st: BackendState, id: string, md: MetadataInput)
    ensures PostingsAdded(st, st.Stored(id, md), {}, id)
  {
    forall w ensures st.Stored(id, md).Search(w) == st.Search(w) {
      StoredSpec(st, id, md, w);
    }
  }

  lemma PostingsStep(start: BackendState, cur: BackendState, done: set<string>, id: string, w: string)
    requires PostingsAdded(start, cur, done, id)
    ensures PostingsAdded(start, cur.Added(w, id), done + {w}, id)
  {
    forall v ensures cur.Added(w, id).Search(v) == cur.Search(v) + (if v == w then {id} else {}) {
      AddedSpec(cur, w, id, v);
    }
  }

  lemma BooksStep(start: BackendState, cur: BackendState, next: BackendState,
                  datalake: map<string, string>, ids: seq<string>, id: string)
    requires BooksAdded(start, cur, datalake, ids)
    requires PostingsAdded(cur, next, WordsOf(datalake, id), id)
    ensures BooksAdded(start, next, datalake, ids + [id])
  {
  }

  /** How Failures grows by one more id. */
  lemma FailuresStep(datalake: map<string, string>, ids: seq<string>, id: string)
    ensures Failures(datalake, ids + [id])
         == Failures(datalake, ids) + (if Missing(datalake, id) then [id] else [])
  {
    assert (ids + [id])[..|ids|] == ids;
  }

  /** The metadata after indexing ids in order, starting from meta. */
  function MetaAfter(meta: map<string, BookRecord>, datalake: map<string, string>, ids: seq<string>)
    : map<string, BookRecord>
    decreases |ids|
  {
    if ids == [] then meta
    else
      var m := MetaAfter(meta, datalake, ids[..|ids| - 1]);
      var id := ids[|ids| - 1];
      var r := ProcessBook(datalake, id);
      if r.Ok? then m[id := Record(MetadataOf(r.value))] else m
  }

  /**
   * After indexing, a book has a record iff it had one or it was processed,
   * and a processed book's record is built from its own files (a book
   * listed twice gets the same record both times).
   */
  lemma {:induction false} MetaAfterSpec(meta: map<string, BookRecord>, datalake: map<string, string>, ids: seq<string>)
    ensures forall id :: id in MetaAfter(meta, datalake, ids) <==> id in meta || Processed(datalake, ids, id)
    ensures forall id | id in MetaAfter(meta, datalake, ids) ::
      MetaAfter(meta, datalake, ids)[id] ==
        if Processed(datalake, ids, id) then Record(MetadataOf(ProcessBook(datalake, id).value)) else meta[id]
    decreases |ids|
  {
    if ids != [] {
      var init := ids[..|ids| - 1];
      var last := ids[|ids| - 1];
      var r := ProcessBook(datalake, last);
      var m := MetaAfter(meta, datalake, init);
      var after := MetaAfter(meta, datalake, ids);
      assert after == if r.Ok? then m[last := Record(MetadataOf(r.value))] else m;
      MetaAfterSpec(meta, datalake, init);
      forall id
        ensures id in after <==> id in meta || Processed(datalake, ids, id)
        ensures id in after ==>
          after[id] == if Processed(datalake, ids, id) then Record(MetadataOf(ProcessBook(datalake, id).value)) else meta[id]
      {
        assert id in ids <==> id in init || id == last;
      }
    }
  }

  /** Indexing ids and then one more id is indexing ids + [id]. */
  lemma MetaAfterStep(meta: map<string, BookRecord>, datalake: map<string, string>, ids: seq<string>, id: string)
    ensures MetaAfter(MetaAfter(meta, datalake, ids), datalake, [id]) == MetaAfter(meta, datalake, ids + [id])
  {
    assert (ids + [id])[..|ids|] == ids;
  }

  /** One turn of the loop of index_all_books, from the guarantees of IndexOne. */
  lemma EachStep(start: BackendState, cur: BackendState, next: BackendState,
                 datalake: map<string, string>, ids: seq<string>, i: nat, failed: seq<string>, ok: bool)
    requires i < |ids|
    requires failed == Failures(datalake, ids[..i])
    requires cur.Meta() == MetaAfter(start.Meta(), datalake, ids[..i])
    requires BooksAdded(start, cur, datalake, ids[..i])
    requires ok <==> !Missing(datalake, ids[i])
    requires next.Meta() == MetaAfter(cur.Meta(), datalake, [ids[i]])
    requires PostingsAdded(cur, next, WordsOf(datalake, ids[i]), ids[i])
    ensures (if ok then failed else failed + [ids[i]]) == Failures(datalake, ids[..i + 1])
    ensures next.Meta() == MetaAfter(start.Meta(), datalake, ids[..i + 1])
    ensures BooksAdded(start, next, datalake, ids[..i + 1])
  {
    assert ids[..i + 1] == ids[..i] + [ids[i]];
    FailuresStep(datalake, ids[..i], ids[i]);
    MetaAfterStep(start.Meta(), datalake, ids[..i], ids[i]);
    BooksStep(start, cur, next, datalake, ids[..i], ids[i]);
  }

  /** id holds every term of ts in st. */
  ghost predicate InAll(st: BackendState, ts: set<string>, id: string)
  {
    forall t | t in ts :: id in st.Search(t)
  }

  /** The books holding the single term t are its posting set. */
  lemma InAllFirst(st: BackendState, t: string)
    ensures forall id :: id in st.Search(t) <==> InAll(st, {t}, id)
  {
  }

  /** Intersecting with the posting set of t adds t to the terms every book holds. */
  lemma InAllStep(st: BackendState, done: set<string>, t: string, r: set<string>, books: set<string>)
    requires forall id :: id in r <==> InAll(st, done, id)
    requires books == st.Search(t)
    ensures forall id :: id in r * books <==> InAll(st, done + {t}, id)
  {
  }

  // ---------------------------------------------------------------------------
  // The Indexer class
  // ---------------------------------------------------------------------------

  class Indexer {
    const backend: Backend

    constructor (backend: Backend)
      ensures this.backend == backend
    {
      this.backend := backend;
    }

    method IsBookIndexed(id: string) returns (b: bool)
      ensures b <==> id in backend.State().Meta()
    {
      b := backend.IsBookIndexed(id);
    }

    method GetIndexedBooks() returns (r: set<string>)
      ensures r == backend.State().Indexed()
    {
      r := backend.GetIndexedBooks();
    }

    method GetBookInfo(id: string) returns (r: Option<BookRecord>)
      ensures r.Some? <==> id in backend.State().Meta()
      ensures r.Some? ==> r.value == backend.State().Meta()[id]
    {
      r := backend.GetBookMetadata(id);
    }

    method GetStats() returns (s: Stats)
      ensures s == backend.State().Stats()
    {
      s := backend.GetStats();
    }

    /**
     * index_book: the book's metadata replaces any earlier record, and the
     * book joins the posting set of each of its words; nothing is removed.
     */
    method IndexBook(data: BookData)
      requires backend.Valid()
      modifies backend.Obj()
      ensures backend.Valid()
      ensures backend.State().Meta() == old(backend.State()).Meta()[data.bookId := Record(MetadataOf(data))]
      ensures PostingsAdded(old(backend.State()), backend.State(), data.allWords, data.bookId)
      ensures backend.Redis? ==> backend.State().Stats().totalBooks == old(backend.State()).Stats().totalBooks + 1
    {
      ghost var start := backend.State();
      backend.StoreBookMetadata(data.bookId, MetadataOf(data));
      StoredSpec(start, data.bookId, MetadataOf(data), "");
      StoreKeepsPostings(start, data.bookId, MetadataOf(data));
      var rest := data.allWords;
      ghost var done: set<string> := {};
      ghost var cur := backend.State();
      while rest != {}
        invariant backend.Valid() && cur == backend.State()
        invariant done + rest == data.allWords
        invariant cur.Meta() == start.Meta()[data.bookId := Record(MetadataOf(data))]
        invariant PostingsAdded(start, cur, done, data.bookId)
        invariant backend.Redis? ==> cur.Stats().totalBooks == start.Stats().totalBooks + 1
        decreases |rest|
      {
        var w :| w in rest;
        backend.AddWordToIndex(w, data.bookId);
        AddedSpec(cur, w, data.bookId, "");
        PostingsStep(start, cur, done, data.bookId, w);
        cur := cur.Added(w, data.bookId);
        rest := rest - {w};
        done := done + {w};
      }
    }

    /**
     * index_all_books: the ids of the header files in listing order; without
     * force the ids the backend reports as indexed are skipped; each book to
     * index that process_book cannot read is reported in failed and leaves the
     * backend untouched, each other one is indexed.
     */
    method IndexAllBooks(listing: seq<string>, datalake: map<string, string>, force: bool)
      returns (bookIds: seq<string>, toIndex: seq<string>, failed: seq<string>)
      requires backend.Valid()
      modifies backend.Obj()
      ensures backend.Valid()
      ensures bookIds == BookIds(listing)
      ensures toIndex == if force then bookIds else NotIn(bookIds, old(backend.State()).Indexed())
      ensures failed == Failures(datalake, toIndex)
      ensures backend.State().Meta() == MetaAfter(old(backend.State()).Meta(), datalake, toIndex)
      ensures BooksAdded(old(backend.State()), backend.State(), datalake, toIndex)
      ensures backend.Redis? ==>
        backend.State().Stats().totalBooks == old(backend.State()).Stats().totalBooks + |toIndex| - |failed|
    {
      bookIds, toIndex := BooksToIndex(listing, force);
      if toIndex == [] {
        failed := [];
      } else {
        failed := IndexEach(datalake, toIndex);
      }
    }

    /**
     * The selection step of index_all_books: the ids of the listed header
     * files, and of those the ones to index, every one when forced and
     * otherwise the ones get_indexed_books() does not report.
     */
    method BooksToIndex(listing: seq<string>, force: bool) returns (bookIds: seq<string>, toIndex: seq<string>)
      ensures bookIds == BookIds(listing)
      ensures toIndex == if force then bookIds else NotIn(bookIds, backend.State().Indexed())
    {
      bookIds := BookIds(listing);
      if !force {
        var indexed := GetIndexedBooks();
        toIndex := NotIn(bookIds, indexed);
      } else {
        toIndex := bookIds;
      }
    }

    /** The loop of index_all_books: each id in turn, processed and indexed or reported. */
    method IndexEach(datalake: map<string, string>, ids: seq<string>) returns (failed: seq<string>)
      requires backend.Valid()
      modifies backend.Obj()
      ensures backend.Valid()
      ensures failed == Failures(datalake, ids)
      ensures backend.State().Meta() == MetaAfter(old(backend.State()).Meta(), datalake, ids)
      ensures BooksAdded(old(backend.State()), backend.State(), datalake, ids)
      ensures backend.Redis? ==>
        backend.State().Stats().totalBooks == old(backend.State()).Stats().totalBooks + |ids| - |failed|
    {
      ghost var start := backend.State();
      failed := [];
      var i := 0;
      while i < |ids|
        invariant 0 <= i <= |ids|
        invariant backend.Valid()
        invariant failed == Failures(datalake, ids[..i])
        invariant backend.State().Meta() == MetaAfter(start.Meta(), datalake, ids[..i])
        invariant BooksAdded(start, backend.State(), datalake, ids[..i])
        invariant backend.Redis? ==> backend.State().Stats().totalBooks == start.Stats().totalBooks + i - |failed|
      {
        failed := IndexNext(datalake, ids, i, start, failed);
        i := i + 1;
      }
      assert ids[..i] == ids;
    }

    /** The body of the loop of index_all_books for its i-th id. */
    method IndexNext(datalake: map<string, string>, ids: seq<string>, i: nat, ghost start: BackendState, failed: seq<string>)
      returns (failed': seq<string>)
      requires i < |ids| && backend.Valid()
      requires failed == Failures(datalake, ids[..i])
      requires backend.State().Meta() == MetaAfter(start.Meta(), datalake, ids[..i])
      requires BooksAdded(start, backend.State(), datalake, ids[..i])
      requires backend.Redis? ==> backend.State().Stats().totalBooks == start.Stats().totalBooks + i - |failed|
      modifies backend.Obj()
      ensures backend.Valid()
      ensures failed' == Failures(datalake, ids[..i + 1])
      ensures backend.State().Meta() == MetaAfter(start.Meta(), datalake, ids[..i + 1])
      ensures BooksAdded(start, backend.State(), datalake, ids[..i + 1])
      ensures backend.Redis? ==> backend.State().Stats().totalBooks == start.Stats().totalBooks + i + 1 - |failed'|
    {
      ghost var cur := backend.State();
      var ok := IndexOne(datalake, ids[i]);
      EachStep(start, cur, backend.State(), datalake, ids, i, failed, ok);
      failed' := if ok then failed else failed + [ids[i]];
    }

    /** One step of the loop: process the book; index it when its files were read. */
    method IndexOne(datalake: map<string, string>, id: string) returns (ok: bool)
      requires backend.Valid()
      modifies backend.Obj()
      ensures backend.Valid()
      ensures ok <==> !Missing(datalake, id)
      ensures backend.State().Meta() == MetaAfter(old(backend.State()).Meta(), datalake, [id])
      ensures PostingsAdded(old(backend.State()), backend.State(), WordsOf(datalake, id), id)
      ensures backend.Redis? ==>
        backend.State().Stats().totalBooks == old(backend.State()).Stats().totalBooks + (if ok then 1 else 0)
    {
      var data := ProcessBook(datalake, id);
      ok := data.Ok?;
      if ok {
        IndexBook(data.value);
      }
    }

    /**
     * search_books: the books whose posting sets hold every token of the
     * query; no books for a query without tokens.
     */
    method SearchBooks(query: string) returns (r: set<string>)
      ensures Tokenize(query) == {} ==> r == {}
      ensures Tokenize(query) != {} ==> forall id :: id in r <==> InAll(backend.State(), Tokenize(query), id)
    {
      ghost var st := backend.State();
      var words := Tokenize(query);
      if words == {} {
        return {};
      }
      var first :| first in words;
      r := backend.SearchWord(first);
      InAllFirst(st, first);
      var rest := words - {first};
      ghost var done := {first};
      while rest != {}
        invariant st == backend.State()
        invariant done + rest == words
        invariant forall id :: id in r <==> InAll(st, done, id)
        decreases |rest|
      {
        var t :| t in rest;
        var books := backend.SearchWord(t);
        InAllStep(st, done, t, r, books);
        r := r * books;
        rest := rest - {t};
        done := done + {t};
      }
    }
  }
}
