# Gutenberg search engine data layer, modelled in Dafny

The system downloads plain-text books from Project Gutenberg into a datalake
and splits each one into a header and a body. It builds an inverted word index
over the books and answers conjunctive keyword queries. It also keeps a book
metadata table in one of several stores. This project models its data layer:

- **Tokenizer** (`tokenizer.dfy`): `tokenize_text`, which is the same in both
  indexers. It is `re.findall(r"\b[a-zA-Z]+\b", text.lower())` with the terms
  of two letters or fewer dropped. The regex is modelled as a scanner with the
  regex engine's backtracking. Lemmas then characterise the terms as the whole
  runs of word characters that are all letters.
- **Storage backends** (`storage_backends.dfy`): the `StorageBackend`
  interface with its Redis and PostgreSQL implementations.
  - Each implementation is a class over the state of its database. Every
    method is proved against a function of that state.
  - A datatype `Backend` dispatches to either class.
  - Lemmas prove that, after the same calls, the two backends hold the same
    metadata records (title, author, language and the two counts, as the
    model's record), answer every `search_word` alike and count the same
    unique words. They also prove where the backends differ: the Redis
    `total_books` counter counts calls, and ids holding a `:` come back
    truncated from `get_indexed_books`. The dictionaries the two
    `get_book_metadata` return are not the same shape; see "Left out".
- **Application indexer** (`app_indexer.dfy`), `data_layer/application/indexer.py`:
  - header metadata extraction with the unanchored `Title:\s*(.+)`
    searches;
  - `process_book` over a datalake of `header_<id>.txt` and `body_<id>.txt`;
  - `index_book`, and `index_all_books` with its incremental filter and its
    report-and-continue loop;
  - `search_books` as the intersection of posting sets.
- **Legacy indexer** (`legacy_indexer.dfy`), `data_layer/indexer.py`: the Redis
  keyspace indexer.
  - `_iter_books` is a stable newest-first sort of the `*.header.txt` files,
    followed by the first-seen-wins scan.
  - `process_book`, `index_book` as one pipeline of writes, and
    `index_all_books`.
  - `search_books` returns the sorted intersection.
- **Header parser** (`metadata_parser.dfy`), `data_layer/metadata_parser.py`:
  the four `^Label:\s*(.*)$` searches in multiline, case-insensitive mode.
- **Hierarchical index** (`hierarchical.dfy`), `data_layer/indexer_hierarchical.py`:
  - `build_index` inverts the documents, then writes one file per term under
    a directory named by the term's upper-cased first letter;
  - `query` reads a term's file back.
- **Metadata stores**:
  - `metadata_rows.dfy` holds the row normalisation they share and the keyed
    books table.
  - `metadata_sqlite.dfy` and `metadata_mysql.dfy` cover the SQL stores,
    including MySQL's add-if-missing schema steps.
  - `metadata_redis.dfy` covers the Redis store: hashes and an author index
    that is never pruned.
- **Downloaders** (`downloader.dfy`): `header_body_split`, which is the same in
  both downloaders, and each downloader's `fetch_file` naming and skipping.
- `text.dfy` and `ordering.dfy` give the Python string operations used above:
  - `lower`, `strip`, `split()`, `split(sep)`, `find`, `replace` and
    `splitlines`;
  - the code-point order of `sorted`.

Python sets are modelled as Dafny sets wherever the source gives no order.
The only ordered results are the ones that come from `sorted`. The filesystem,
Redis and the SQL databases are values: maps and sets held in class fields or
passed as parameters.

Two behaviours of the code are worth stating up front:

- `RedisBackend.store_book_metadata` (`data_layer/storage_backends.py:58`)
  increments `stats:total_books` on every call, so storing a book again counts
  it again. The model does the same. `StorageBackends.RedisReindexOvercounts`
  and `StorageBackends.RedisDoubleStore` state the overcount.
- The legacy `search_books` (`data_layer/indexer.py:147`) returns
  `sorted(res)`, a list in ascending order, and
  `LegacyIndexer.Indexer.SearchBooks` returns that list too.

## Model

| member | source | states |
|---|---|---|
| Text.Lower | data_layer/indexer.py:29 | `text.lower()` keeps the length and lower-cases exactly the ASCII capitals, position by position |
| Text.LowerIdempotent | data_layer/application/indexer.py:15 | lower-casing twice is lower-casing once |
| Text.Strip | data_layer/indexer.py:73 | `strip()` result is a piece of the input with only whitespace before and after it and none at its own ends; an all-space string strips to empty, an unpadded one is unchanged |
| Text.StripSlice | data_layer/application/indexer.py:55 | the stripped string is a contiguous slice of the original |
| Text.Fields | data_layer/indexer.py:85 | every field of `split()` is non-empty and free of whitespace |
| Text.FieldsOfAllSpace | data_layer/application/indexer.py:72 | a whitespace-only body has word_count 0 |
| Text.FieldsSpaceSeparated | data_layer/indexer.py:85 | a whitespace character between a and b separates their fields: the fields of the whole are those of a followed by those of b |
| Text.FieldsOfWord | data_layer/indexer.py:85 | a non-empty string without whitespace is one field |
| Text.FieldsOfJoin | data_layer/indexer.py:85 | `split()` of `" ".join(words)` gives the words back, in order, when each is non-empty and free of whitespace |
| Text.Find | data_layer/application/downloader.py:14-15 | `find` returns the leftmost occurrence, and nothing exactly when the pattern is absent |
| Text.SplitOnJoin | data_layer/indexer.py:64 | joining the pieces of `split(sep)` with sep gives back the string |
| Text.SplitOnHead | data_layer/indexer.py:64 | the first piece of a split is the text before the first separator |
| Text.ReplaceAllAbsent | data_layer/application/indexer.py:94 | `replace` leaves a string without the pattern unchanged |
| Text.SplitLinesJoin | data_layer/indexer_hierarchical.py:38 | lines that are non-empty and hold no line boundary survive `"\n".join` and then `splitlines()` |
| Text.SpaceRunEnd | data_layer/metadata_parser.py:4-9 | a greedy `\s*` stops at the first non-space and consumes only whitespace |
| Text.LineEnd | data_layer/metadata_parser.py:4-9 | `.*$` in multiline mode ends at the next '\n' or the end of the text |
| Ordering.LessTransitive | data_layer/indexer.py:147 | the code-point order of strings that `sorted` uses is transitive |
| Ordering.LessTotal | data_layer/indexer.py:147 | that order is total |
| Ordering.SortedElems | data_layer/indexer_hierarchical.py:27 | `sorted(s)` of a set is strictly ascending and holds exactly the set's elements |
| Ordering.SortedUnique | data_layer/indexer.py:147 | a set has only one strictly ascending listing |
| Ordering.SortStrings | data_layer/indexer.py:147 | the insertion sort computes the ascending listing of the set |
| Tokenizer.Tokenize | data_layer/indexer.py:27-30 | every term is lowercase ASCII letters and longer than two |
| Tokenizer.FindAll | data_layer/application/indexer.py:15 | every `findall` match is a non-empty string of letters taken from the text |
| Tokenizer.BacktrackOnlyAtRunEnd | data_layer/application/indexer.py:15 | backing `[a-zA-Z]+` off to find the closing `\b` can succeed only at the end of the letter run |
| Tokenizer.MatchAtWholeRun | data_layer/indexer.py:29 | a match starts at i exactly when a whole run of word characters made only of letters starts there |
| Tokenizer.FindAllIsWholeRuns | data_layer/indexer.py:29 | `findall` returns exactly the whole all-letter word runs of the text |
| Tokenizer.TokenizeIsWholeRuns | data_layer/application/indexer.py:13-16 | a term is a lower-cased whole all-letter run longer than two, and every such run is a term (both directions) |
| Tokenizer.TokenizeIgnoresCase | data_layer/indexer.py:27-30 | tokenizing a lower-cased text gives the same terms |
| Tokenizer.TokenWitness | data_layer/indexer.py:27-30 | each term has a position in the text where it occurs as a whole run |
| Tokenizer.RunIsToken | data_layer/indexer.py:27-30 | every whole all-letter run longer than two gives a term |
| Tokenizer.TokensOfJoinedSplit | data_layer/indexer.py:76 | a term of `header + " " + body` is a term of the header or of the body |
| Tokenizer.LeftTokenJoins | data_layer/indexer.py:76 | a term of the header stays a term after `" " + body` is appended |
| Tokenizer.RightTokenJoins | data_layer/indexer.py:76 | a term of the body stays a term after `header + " "` is prepended |
| Tokenizer.TokenizeSpaceSeparated | data_layer/indexer.py:76-77 | the terms of `header + " " + body` are the union of the header's and the body's terms |
| Tokenizer.GluedRunsAreNotTokens | data_layer/indexer.py:29 | "abc123" and "word_1" yield no term: `\b` fails inside a word-character run |
| Tokenizer.NoLetterOnlyRun | data_layer/application/indexer.py:15 | a text of word characters only that ends in a non-letter has no terms |
| StorageBackends.RecoveredId | data_layer/storage_backends.py:67-70 | the id recovered from a metadata key holds no ':' |
| StorageBackends.RecoveredIdExact | data_layer/storage_backends.py:67-70 | `key.split(':')[1]` gives back the id exactly when the id has no ':' |
| StorageBackends.RecoveredIdTruncates | data_layer/storage_backends.py:67-70 | the id "a:b" comes back as "a" |
| StorageBackends.RedisStore | data_layer/storage_backends.py:48-59 | storing metadata preserves the link between posting sets and stats:all_words |
| StorageBackends.RedisAdd | data_layer/storage_backends.py:72-74 | adding a posting preserves the link between posting sets and stats:all_words |
| StorageBackends.RedisSearchAfterAdd | data_layer/storage_backends.py:72-77 | after `add_word_to_index(w, id)`, `search_word(v)` gains id when v is w and is unchanged otherwise |
| StorageBackends.RedisAddIdempotent | data_layer/storage_backends.py:72-74 | adding the same (word, id) pair twice equals adding it once |
| StorageBackends.RedisIndexedWhole | data_layer/storage_backends.py:67-70 | when no stored id holds ':', `get_indexed_books` returns exactly the stored ids |
| StorageBackends.StoreTwiceKeys | data_layer/storage_backends.py:48-59 | storing one id twice adds just that id to the stored ids |
| StorageBackends.RedisReindexOvercounts | data_layer/storage_backends.py:48-84 | storing one id twice raises total_books by 2 but indexed_books by 1 |
| StorageBackends.RedisStatsWhole | data_layer/storage_backends.py:79-84 | with ':'-free ids, indexed_books is the number of stored ids |
| StorageBackends.RedisBackend.constructor | data_layer/storage_backends.py:45-46 | a connection sees the keys the server already holds, whatever stats:total_books says (another writer may have stored books without counting them); its word sets and stats:all_words agree |
| StorageBackends.RedisBackend.StoreBookMetadata | data_layer/storage_backends.py:48-59 | the hash is overwritten with the record and the counter is bumped; the invariant holds |
| StorageBackends.RedisBackend.GetBookMetadata | data_layer/storage_backends.py:61-62 | returns the stored record exactly when the id is stored, nothing otherwise |
| StorageBackends.RedisBackend.IsBookIndexed | data_layer/storage_backends.py:64-65 | true exactly when the metadata key exists |
| StorageBackends.RedisBackend.GetIndexedBooks | data_layer/storage_backends.py:67-70 | the ids recovered from the metadata keys |
| StorageBackends.RedisBackend.AddWordToIndex | data_layer/storage_backends.py:72-74 | SADD to the word's set and to stats:all_words; the invariant holds |
| StorageBackends.RedisBackend.SearchWord | data_layer/storage_backends.py:76-77 | the word's posting set, empty for an unknown word |
| StorageBackends.RedisBackend.GetStats | data_layer/storage_backends.py:79-84 | the counter, the size of stats:all_words and the number of recovered ids |
| StorageBackends.PostgresSearchAfterAdd | data_layer/storage_backends.py:163-174 | after an insert, `search_word(v)` gains id when v is w and is unchanged otherwise |
| StorageBackends.PostgresAddIdempotent | data_layer/storage_backends.py:163-169 | ON CONFLICT DO NOTHING: repeating a (word, id) insert changes nothing |
| StorageBackends.PostgresUpsertCounts | data_layer/storage_backends.py:125-186 | re-storing an id leaves one row with the latest values and the book counts unchanged |
| StorageBackends.PostgreSQLBackend.constructor | data_layer/storage_backends.py:94-123 | `CREATE TABLE IF NOT EXISTS` keeps the tables and rows the database already holds |
| StorageBackends.PostgreSQLBackend.StoreBookMetadata | data_layer/storage_backends.py:125-145 | the upsert leaves the new record under the id |
| StorageBackends.PostgreSQLBackend.GetBookMetadata | data_layer/storage_backends.py:147-151 | the row when it exists, nothing otherwise |
| StorageBackends.PostgreSQLBackend.IsBookIndexed | data_layer/storage_backends.py:153-156 | true exactly when the books table has the id |
| StorageBackends.PostgreSQLBackend.GetIndexedBooks | data_layer/storage_backends.py:158-161 | all book_ids of the books table |
| StorageBackends.PostgreSQLBackend.AddWordToIndex | data_layer/storage_backends.py:163-169 | the (word, id) pair joins word_index |
| StorageBackends.PostgreSQLBackend.SearchWord | data_layer/storage_backends.py:171-174 | the ids paired with the word |
| StorageBackends.PostgreSQLBackend.GetStats | data_layer/storage_backends.py:176-186 | COUNT(*) for both book counts and the number of distinct words |
| StorageBackends.BackendsAgreeOnMeta | data_layer/storage_backends.py:10-42 | after any sequence of calls, both backends hold the same metadata records |
| StorageBackends.BackendsAgreeOnSearch | data_layer/storage_backends.py:72-174 | after any sequence of calls, both answer every `search_word` alike |
| StorageBackends.BackendsAgreeOnWords | data_layer/storage_backends.py:72-186 | stats:all_words equals the distinct words of word_index |
| StorageBackends.RedisCountsStores | data_layer/storage_backends.py:58-59 | Redis total_books counts the store calls, not the books |
| StorageBackends.BackendsAgree | data_layer/storage_backends.py:10-42 | the backends agree on the stored records, search and unique words, and differ in total_books exactly as the two counting rules say |
| StorageBackends.StoredSpec | data_layer/storage_backends.py:13-15 | `store_book_metadata` on either backend replaces the record and leaves all postings alone; on Redis total_books rises by one |
| StorageBackends.AddedSpec | data_layer/storage_backends.py:29-31 | `add_word_to_index` on either backend adds id to w's postings only and keeps the metadata and total_books |
| StorageBackends.StatsDetermined | data_layer/storage_backends.py:79-186 | `get_stats()` depends only on the records, the postings and the Redis counter: states that agree on those report the same stats |
| StorageBackends.Backend.StoreBookMetadata | data_layer/storage_backends.py:13-15 | dispatches to the chosen backend; its new state is the stored state |
| StorageBackends.Backend.AddWordToIndex | data_layer/storage_backends.py:29-31 | dispatches; its new state is the added state |
| StorageBackends.Backend.SearchWord | data_layer/storage_backends.py:33-35 | the backend's posting set for w, state unchanged |
| StorageBackends.Backend.GetIndexedBooks | data_layer/storage_backends.py:25-27 | the backend's indexed ids |
| StorageBackends.Backend.IsBookIndexed | data_layer/storage_backends.py:21-23 | true exactly when the backend holds metadata for the id |
| StorageBackends.Backend.GetBookMetadata | data_layer/storage_backends.py:17-19 | the stored record exactly when present |
| StorageBackends.Backend.GetStats | data_layer/storage_backends.py:37-39 | the backend's statistics |
| StorageBackends.MetadataRoundTrip | tests/test_functionality.py:37-53 | storing the test metadata and reading it back returns the same fields on either backend |
| StorageBackends.RedisDoubleStore | data_layer/storage_backends.py:48-84 | on a fresh Redis, storing one id twice reports total_books 2 and indexed_books 1 |
| AppIndexer.ValueStartFrom | data_layer/application/indexer.py:32 | backtracking `\s*` before `(.+)`: the last non-newline position reachable through whitespace, or none |
| AppIndexer.ValueStart | data_layer/application/indexer.py:32 | the group starts at a non-newline after only whitespace, and no later such start exists |
| AppIndexer.ValueStartGreedy | data_layer/application/indexer.py:32 | the start never lies past the greedy whitespace run |
| AppIndexer.Group | data_layer/application/indexer.py:32-34 | the captured group is non-empty and on one line |
| AppIndexer.SearchFrom | data_layer/application/indexer.py:32 | `re.search` returns a position where the pattern matches |
| AppIndexer.SearchFromLeftmost | data_layer/application/indexer.py:32 | no match lies before the one found, and none at all when none is found |
| AppIndexer.ExtractMetadataSpec | data_layer/application/indexer.py:26-44 | title, author and language are each the stripped group of the leftmost match, or "", "" and "en" when there is none |
| AppIndexer.FieldExtracted | data_layer/application/indexer.py:32-42 | one field's value is its leftmost match's stripped group or the default |
| AppIndexer.StripInside | data_layer/application/indexer.py:34 | a stripped one-line group stays on one line |
| AppIndexer.ExtractSubtitle | data_layer/application/indexer.py:32 | "Subtitle: X" sets the title to "X": the search is unanchored |
| AppIndexer.ExtractEmptyTitleLine | data_layer/application/indexer.py:26-44 | "Title:\nAuthor: Y" gives title "Author: Y", author "Y", language "en" |
| AppIndexer.EmptyTitleTakesNextLine | data_layer/application/indexer.py:32-34 | `\s*` crosses the line break after an empty "Title:" |
| AppIndexer.EmptyTitleAuthor | data_layer/application/indexer.py:36-38 | the author is still found on that next line |
| AppIndexer.EmptyTitleLanguage | data_layer/application/indexer.py:40-42 | with no Language line the default "en" stays |
| AppIndexer.SearchFromSkips | data_layer/application/indexer.py:32 | skipping positions without a match does not move the result |
| AppIndexer.ProcessBook | data_layer/application/indexer.py:46-73 | fails with FileNotFound exactly when a file is missing; otherwise the id, title, author and language extracted from the stripped header, the body's terms as all words, the title's terms as title words, and the body's `split()` count |
| AppIndexer.ProcessBookSpec | data_layer/application/indexer.py:46-73 | the three fields are the first matches of their patterns in the stripped header, and a word is indexed exactly when it is a lower-cased whole letter run of the body longer than two |
| AppIndexer.WordsComeFromBody | data_layer/application/indexer.py:57-72 | the terms and the word count depend only on the body |
| AppIndexer.BookIds | data_layer/application/indexer.py:93-94 | one id per listed header file at most |
| AppIndexer.BookIdsSpec | data_layer/application/indexer.py:93-94 | an id is listed exactly when it is the stem, without `header_`, of a listed `header_*.txt` file |
| AppIndexer.BookIdsAppend | data_layer/application/indexer.py:93-94 | the ids keep listing order: the ids of two listings in a row are those of the first followed by those of the second |
| AppIndexer.BookIdRoundTrip | data_layer/application/indexer.py:48-94 | `header_<id>.txt` matches the glob and gives back id when id holds no "header_" |
| AppIndexer.BookIdLosesHeaderPrefix | data_layer/application/indexer.py:94 | the id "header_1" comes back as "1" |
| AppIndexer.NotInSpec | data_layer/application/indexer.py:96-98 | the incremental filter keeps exactly the ids not yet indexed |
| AppIndexer.FailuresSpec | data_layer/application/indexer.py:113-119 | the ids reported as errors are exactly those whose files are missing |
| AppIndexer.MetaAfterSpec | data_layer/application/indexer.py:113-119 | after the loop, an id has metadata exactly when it had it before or was processed, with the right record |
| AppIndexer.InAllFirst | data_layer/application/indexer.py:133 | the first posting set is the books holding the first term |
| AppIndexer.InAllStep | data_layer/application/indexer.py:134-135 | each intersection adds one term that every result book holds |
| AppIndexer.Indexer.constructor | data_layer/application/indexer.py:9-11 | the indexer holds the given backend |
| AppIndexer.Indexer.IsBookIndexed | data_layer/application/indexer.py:18-20 | delegates to the backend |
| AppIndexer.Indexer.GetIndexedBooks | data_layer/application/indexer.py:22-24 | delegates to the backend |
| AppIndexer.Indexer.GetBookInfo | data_layer/application/indexer.py:139-141 | delegates to the backend |
| AppIndexer.Indexer.GetStats | data_layer/application/indexer.py:143-145 | delegates to the backend |
| AppIndexer.Indexer.IndexBook | data_layer/application/indexer.py:75-89 | the book's record replaces its metadata, the book joins the posting set of each of its terms and no other, and the Redis total_books rises by one |
| AppIndexer.Indexer.IndexAllBooks | data_layer/application/indexer.py:91-121 | ids come from the listing; unforced runs skip indexed ids; failures are the missing-file ids; metadata and postings are those of indexing each id in order; the Redis total_books rises by the number of books indexed |
| AppIndexer.Indexer.BooksToIndex | data_layer/application/indexer.py:93-107 | the listed ids, and of them all when forced, otherwise those `get_indexed_books()` does not report |
| AppIndexer.Indexer.IndexEach | data_layer/application/indexer.py:113-119 | the loop reports exactly the missing-file ids and indexes all the others in order; the Redis total_books rises by one per book indexed |
| AppIndexer.Indexer.IndexNext | data_layer/application/indexer.py:113-119 | one more turn of the loop extends the failure list, the index and the Redis total_books by that id |
| AppIndexer.Indexer.IndexOne | data_layer/application/indexer.py:114-119 | succeeds exactly when the files exist, and then indexes the book and adds one to the Redis total_books |
| AppIndexer.Indexer.SearchBooks | data_layer/application/indexer.py:123-137 | no terms give no result; otherwise exactly the books holding every query term |
| LegacyIndexer.DigitRunEnd | data_layer/indexer.py:49 | `\d+` consumes a maximal run of digits |
| LegacyIndexer.HeaderIdSpec | data_layer/indexer.py:49-52 | a file name yields an id exactly when it is a non-empty digit string followed by ".header.txt" (and an optional final newline for `$`) |
| LegacyIndexer.InsertNewestFirst | data_layer/indexer.py:41-45 | insertion adds exactly the new entry |
| LegacyIndexer.NewestFirst | data_layer/indexer.py:41-45 | the sort is a permutation of the headers |
| LegacyIndexer.WithMtimeAppend | data_layer/indexer.py:41-45 | the entries of one mtime in a concatenation are those of each part, in order |
| LegacyIndexer.InsertKeepsOrder | data_layer/indexer.py:41-45 | inserting keeps the list newest first |
| LegacyIndexer.InsertStable | data_layer/indexer.py:41-45 | an inserted entry goes behind every entry with the same mtime |
| LegacyIndexer.NoneNewer | data_layer/indexer.py:41-45 | a list newest-first whose head is older than t has no entry with mtime t |
| LegacyIndexer.NewestFirstSpec | data_layer/indexer.py:41-45 | the sorted list is newest first and keeps the listing order among equal mtimes (a stable sort) |
| LegacyIndexer.ScanDistinct | data_layer/indexer.py:46-59 | seen is exactly the ids yielded, and no id is yielded twice |
| LegacyIndexer.ScanSeen | data_layer/indexer.py:53-58 | an id is seen exactly when one of its headers has a body file |
| LegacyIndexer.ScanIds | data_layer/indexer.py:46-59 | the yielded ids are exactly those with a matching header and body, each once |
| LegacyIndexer.ScanFirst | data_layer/indexer.py:48-59 | each yielded header is the first of its id's headers in sorted order that has a body |
| LegacyIndexer.ProcessBook | data_layer/indexer.py:72-86 | fails exactly when a file cannot be read; the title is the stripped header, its terms the title words, the terms of title, a space and body all words, and the word count the body's `split()` count |
| LegacyIndexer.TitleWordsAreWords | data_layer/indexer.py:76-77 | the title terms are terms of the book, and the terms come from header or body |
| LegacyIndexer.IndexedBookPostings | data_layer/indexer.py:103-106 | after index_book, word:w and title_word:w gain the id exactly for the book's terms |
| LegacyIndexer.ReindexCountsOnce | data_layer/indexer.py:109-155 | re-indexing a book leaves total_books unchanged, and the first index adds one only for a new id |
| LegacyIndexer.SelectedSpec | data_layer/indexer.py:119-121 | the selection is all books when forced, else the books whose id is not indexed, in order |
| LegacyIndexer.AfterAllPostings | data_layer/indexer.py:128-134 | after the loop, a pair (w, id) is a posting exactly when it was before or the book was read and has term w |
| LegacyIndexer.AfterAllIndexed | data_layer/indexer.py:128-134 | a book joins stats:indexed_books exactly when its files were read |
| LegacyIndexer.FailuresSpec | data_layer/indexer.py:133-134 | the errors reported are exactly the books whose files could not be read |
| LegacyIndexer.Indexer.constructor | data_layer/indexer.py:20-22 | an indexer over the keyspace the Redis server already holds |
| LegacyIndexer.Indexer.IterBooks | data_layer/indexer.py:32-59 | the loop yields the scan of the newest-first headers |
| LegacyIndexer.Indexer.GetIndexedBooks | data_layer/indexer.py:61-64 | the ids read back from the metadata keys |
| LegacyIndexer.Indexer.IsBookIndexed | data_layer/indexer.py:66-67 | true exactly when the metadata key exists |
| LegacyIndexer.Indexer.GetBookInfo | data_layer/indexer.py:149-150 | the hash when present, nothing otherwise |
| LegacyIndexer.Indexer.GetStats | data_layer/indexer.py:152-158 | the sizes of the two stats sets and the count of recovered ids |
| LegacyIndexer.Indexer.IndexBook | data_layer/indexer.py:88-113 | the keyspace becomes the single-pipeline update of the book |
| LegacyIndexer.Indexer.AddWordPostings | data_layer/indexer.py:103-104 | SADD adds the (w, id) pair for each term and no other |
| LegacyIndexer.Indexer.AddTitlePostings | data_layer/indexer.py:105-106 | the same for the title terms |
| LegacyIndexer.Indexer.IndexAllBooks | data_layer/indexer.py:115-134 | the selected books are the filtered scan; failures and the final keyspace are those of indexing them in order |
| LegacyIndexer.Indexer.SelectBooks | data_layer/indexer.py:119-121 | the filter computes the selection |
| LegacyIndexer.Indexer.IndexEach | data_layer/indexer.py:128-134 | the loop reports the unreadable books and indexes the others in order |
| LegacyIndexer.Indexer.SearchBooks | data_layer/indexer.py:137-147 | no terms give []; otherwise the strictly ascending list of the books holding every term |
| MetadataParser.FindLabel | data_layer/metadata_parser.py:14 | a match is at a line start that carries the label |
| MetadataParser.FindLabelLeftmost | data_layer/metadata_parser.py:14 | no label line lies before the one found, and none when none is found |
| MetadataParser.ParseHeaderKeys | data_layer/metadata_parser.py:11-16 | the result always has exactly the four keys |
| MetadataParser.LookupNone | data_layer/metadata_parser.py:15 | a key is None exactly when no line starts with its label |
| MetadataParser.LookupFirst | data_layer/metadata_parser.py:14-15 | otherwise its value comes from the first such line |
| MetadataParser.ValueOneLine | data_layer/metadata_parser.py:4-9 | the value never holds a line break |
| MetadataParser.ValueEmpty | data_layer/metadata_parser.py:15 | the value is "" exactly when only whitespace follows the label to the end of the text |
| MetadataParser.NoTitleLine | data_layer/metadata_parser.py:5 | "Subtitle: x" has no line starting with "Title:" |
| MetadataParser.SubtitleIsNotTitle | data_layer/metadata_parser.py:5-15 | "Subtitle: x" gives title None |
| MetadataParser.ParsersDisagreeOnSubtitle | data_layer/metadata_parser.py:5 | on "Subtitle: X" this parser gives None while the application extractor gives "X" |
| MetadataParser.EmptyTitleTakesNextLine | data_layer/metadata_parser.py:5-15 | after an empty "Title:" the next line is the title |
| MetadataParser.EndOfLastLine | data_layer/metadata_parser.py:5 | with no later line break, `$` is the end of the text |
| Hierarchical.PathOfInjective | data_layer/indexer_hierarchical.py:23-26 | distinct terms map to distinct files |
| Hierarchical.AddTokenSpec | data_layer/indexer_hierarchical.py:20 | `postings[t].add(id)` adds id to t's set only, and inserts t into the key order if new |
| Hierarchical.AddDocSpec | data_layer/indexer_hierarchical.py:19-20 | a book adds its id to each of its tokens' sets and to no other |
| Hierarchical.InvertSpec | data_layer/indexer_hierarchical.py:17-20 | the postings of t are exactly the ids of the books holding t |
| Hierarchical.BuildPostings | data_layer/indexer_hierarchical.py:17-20 | the loops compute the inversion |
| Hierarchical.StoreWrites | data_layer/indexer_hierarchical.py:22-27 | every term written has its own file with its sorted ids |
| Hierarchical.StoreKeeps | data_layer/indexer_hierarchical.py:22-27 | every other file keeps its content |
| Hierarchical.StoreStops | data_layer/indexer_hierarchical.py:23 | an empty term raises and stops the writing there |
| Hierarchical.ContentLines | data_layer/indexer_hierarchical.py:27-38 | a written file splits back into the sorted ids |
| Hierarchical.IndexDir.constructor | data_layer/indexer_hierarchical.py:8-30 | the directory starts with the given files |
| Hierarchical.IndexDir.BuildIndex | data_layer/indexer_hierarchical.py:8-30 | the files become those written for the inversion; success exactly when no token is empty |
| Hierarchical.IndexDir.WriteFiles | data_layer/indexer_hierarchical.py:22-27 | files are written in key order up to the first empty term; success exactly when there is none |
| Hierarchical.IndexDir.Query | data_layer/indexer_hierarchical.py:32-38 | an empty term raises; a term without a file gives [] |
| Hierarchical.QueryAfterBuild | data_layer/indexer_hierarchical.py:8-38 | after a build, querying a term gives the sorted ids of the books holding it; other terms read what was there before |
| MetadataRows.DictRowColumns | data_layer/metadata_sqlite.py:27-39 | a dict row fails exactly without book_id; each column is the dict's value or "" |
| MetadataRows.TupleRowColumns | data_layer/metadata_sqlite.py:27-39 | a tuple row of six or more values passes by position; a shorter one fails |
| MetadataRows.NormalizeAllSpec | data_layer/metadata_sqlite.py:53 | the rows convert exactly when each converts, in order |
| MetadataRows.UpsertKeeps | data_layer/metadata_sqlite.py:59-71 | ids outside the batch keep their rows |
| MetadataRows.UpsertLastWins | data_layer/metadata_sqlite.py:59-71 | an id ends with its last row in the batch |
| MetadataRows.UpsertKeyed | data_layer/metadata_sqlite.py:59-71 | the table stays keyed by book_id |
| MetadataRows.RowsBy | data_layer/metadata_sqlite.py:76-86 | the selected rows are exactly the table's rows with that author |
| MetadataSqlite.SqliteStore.constructor | data_layer/metadata_sqlite.py:41-50 | init_db keeps the books table the file already holds, keyed by book_id |
| MetadataSqlite.SqliteStore.BulkUpsert | data_layer/metadata_sqlite.py:52-74 | succeeds exactly when every row converts; an empty or failing batch writes nothing; otherwise the batch is upserted in order |
| MetadataSqlite.SqliteStore.ExecuteMany | data_layer/metadata_sqlite.py:59-71 | the rows are upserted one after the other |
| MetadataSqlite.SqliteStore.FindByAuthor | data_layer/metadata_sqlite.py:76-86 | exactly the stored rows with that author |
| MetadataMysql.AddIfAbsentSpec | data_layer/metadata_mysql.py:44-59 | after the step the entry exists, an existing one is kept, nothing else changes |
| MetadataMysql.AddIfAbsentIdempotent | data_layer/metadata_mysql.py:44-59 | repeating the step changes nothing |
| MetadataMysql.InitIdempotent | data_layer/metadata_mysql.py:80-91 | running the schema steps of init_db twice equals running them once |
| MetadataMysql.MysqlStore.constructor | data_layer/metadata_mysql.py:84 | the rows and schema the server already holds are kept |
| MetadataMysql.MysqlStore.EnsureColumn | data_layer/metadata_mysql.py:33-46 | the column is added only when missing |
| MetadataMysql.MysqlStore.EnsureIndex | data_layer/metadata_mysql.py:48-59 | the index is created only when missing |
| MetadataMysql.MysqlStore.InitDb | data_layer/metadata_mysql.py:85-89 | the two column steps and the three index steps |
| MetadataMysql.MysqlStore.BulkUpsert | data_layer/metadata_mysql.py:93-114 | same contract as the SQLite upsert |
| MetadataMysql.MysqlStore.ExecuteMany | data_layer/metadata_mysql.py:99-112 | the rows are upserted one after the other |
| MetadataMysql.MysqlStore.FindByAuthor | data_layer/metadata_mysql.py:116-126 | exactly the stored rows with that author |
| MetadataRedis.RowToDictSpec | data_layer/metadata_redis.py:14-32 | the dict exists exactly when the row converts, has the six column keys and the row's values |
| MetadataRedis.FromHashMerge | data_layer/metadata_redis.py:46-74 | a hash written with HSET reads back as the row, whatever it held before |
| MetadataRedis.ApplyAllAuthors | data_layer/metadata_redis.py:43-48 | an author's set gains exactly the batch's ids for that author |
| MetadataRedis.ApplyAllKeeps | data_layer/metadata_redis.py:38-49 | ids outside the batch keep their hashes |
| MetadataRedis.ApplyAllLastWins | data_layer/metadata_redis.py:38-49 | an id's hash reads back as its last row |
| MetadataRedis.AuthorIndexNeverPruned | data_layer/metadata_redis.py:38-75 | a book re-upserted under another author is still found under the first, unlike the keyed SQL table |
| MetadataRedis.RedisMetadataStore.constructor | data_layer/metadata_redis.py:7 | the store over the keyspace the server holds |
| MetadataRedis.RedisMetadataStore.BulkUpsert | data_layer/metadata_redis.py:38-49 | succeeds exactly when every row converts; a failure writes nothing; otherwise the batch's commands run in order |
| MetadataRedis.RedisMetadataStore.Execute | data_layer/metadata_redis.py:49 | the queued commands are applied in order |
| MetadataRedis.RedisMetadataStore.FindByAuthor | data_layer/metadata_redis.py:51-75 | exactly the rows of the author's ids whose hash is not empty, and as many rows as there are such ids |
| Downloader.SplitOnceSpec | data_layer/application/downloader.py:14-15 | `split(sep, 1)` fails exactly when sep is absent; the pieces rebuild the text |
| Downloader.SplitOnceFirst | data_layer/application/downloader.py:14 | the first piece holds no sep |
| Downloader.HeaderBodySplitSpec | data_layer/application/downloader.py:10-17 | succeeds exactly when both markers occur; header and body are the text around the first markers |
| Downloader.MarkersApart | data_layer/application/downloader.py:11-12 | the two markers never overlap |
| Downloader.BodyBeginsWithHeader | data_layer/downloader.py:11-18 | header and body never have the same length; when the start marker comes first, the header followed by the start marker begins the body |
| Downloader.StemSpec | data_layer/downloader.py:36-37 | the stem is the name's text before its first '.' |
| Downloader.LastSegmentSpec | data_layer/application/downloader.py:23 | the file name is the URL's text after its last '/' |
| Downloader.BookIdSpec | data_layer/application/downloader.py:24 | the book id holds neither '/' nor '.' |
| Downloader.FetchFileSpec | data_layer/application/downloader.py:22-46 | the download is skipped exactly when both files exist; otherwise the split pieces go to header_<id>.txt and body_<id>.txt |
| Downloader.DownloadedBookIsIndexable | data_layer/application/downloader.py:27-28 | the application indexer finds both files of a downloaded book and reads its id back |
| Downloader.LegacyHeaderNotIndexed | data_layer/downloader.py:36-37 | the `<stem>_header.txt` files are never matched by the legacy indexer's `<digits>.header.txt` |

## Left out

- The filesystem, the network, Redis and the SQL servers are values. Nothing models
  connections failing, `test_connection`, timeouts, or encodings: file reads are a map
  from name to text.
- Redis pipelines and SQL transactions are applied atomically as one update. A crash
  part-way is not modelled.
- Concurrency: the downloaders' asyncio tasks, and racing indexers.
- The downloaders' `download_books`, `main`, the HTTP fetch and the date directories.
  A fetched text is a parameter.
- Modification times are integers. The Path and glob objects are names in a listing;
  the recursive glob's order is the listing's order.
- Python set and dict iteration order. Sets are Dafny sets. `list(result_books)` in
  the application search is the set itself.
- Letters are ASCII for `lower`, `upper` and `[a-zA-Z]`; no Unicode case folding is
  modelled. `\w` is the ASCII word characters plus the alphanumerics of Latin-1 and no
  character above U+00FF. Whitespace is the full `str.isspace` set.
- DigitRunEnd: `\d` is the ASCII digits 0-9. Python's str-pattern `\d` also matches every
  other Unicode decimal digit (the Arabic-Indic ١ and ٢, for example); the model does not.
- HeaderIdSpec: through DigitRunEnd, a header named with non-ASCII decimal digits, such as
  `١٢.header.txt`, gets no id here, while the legacy indexer's `re.match` would take `١٢`.
- `indexed_at` timestamps and the PostgreSQL `CREATE TABLE` statements. The SQLite and
  Redis `init_db` only create a table or do nothing; they are the constructors.
- MySQL's case-insensitive collation and VARCHAR truncation.
- BackendsAgreeOnMeta and AppIndexer.FailuresSpec: the model's record is the same on both
  backends, but the dictionaries differ. Redis `get_book_metadata` returns every count as a
  string, adds `indexed_at` and has no `book_id`. PostgreSQL `SELECT *` returns `book_id`,
  integer counts and a timestamp. PostgreSQL's `language VARCHAR(10)` makes the insert of a
  longer language raise. Nothing rolls the transaction back, so every later statement on
  that connection fails too, and `index_all_books` would report that book and every book
  after it as errors. The model stores any language, and its failures are only the
  missing-file ids.
- MetadataRows.ToRow: a dict row whose book_id is present but None is treated as a
  missing book_id; a None inside a tuple row is not modelled.
- Hierarchical.QueryAfterBuild: holds only when no book id is empty or holds a line
  break. A term holding '/' or ".." could alias paths; terms are treated as plain names.
- `data_layer/indexer_redis.py`, the pipelines, the benchmarks and the reports are not
  part of this model.
- Printing and the progress messages.
