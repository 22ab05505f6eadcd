/**
 * The hierarchical on-disk inverted index. build_index inverts a map from
 * book id to tokens into one posting file per term. Each file sits in a
 * directory named after the term's first character, upper-cased, and holds
 * the term's book ids sorted and joined by "\n". query reads one such file
 * back as a list of ids.
 */
module Hierarchical {
  import opened Wrappers
  import opened Text
  import opened Ordering

  /** The book ids with their tokens, in the dict's iteration order. */
  type Docs = seq<(string, seq<string>)>

  /** A posting file under the index directory: its shard directory and its name. */
  datatype Path = Path(shard: char, name: string)

  /** `term[0]` on an empty term. */
  datatype IndexError = EmptyTerm

  /** INDEX_DIR / term[0].upper() / f"{term}.txt" */
  function PathOf(term: string): Path
    requires term != []
  {
    Path(UpperChar(term[0]), term + ".txt")
  }

  /** Distinct terms never share a file. */
  lemma PathOfInjective(t: string, u: string)
    requires t != [] && u != []
    ensures PathOf(t) == PathOf(u) <==> t == u
  {
    if PathOf(t) == PathOf(u) {
      assert |t| == |u|;
      assert t == (t + ".txt")[..|t|];
      assert u == (u + ".txt")[..|u|];
    }
  }

  // ---------------------------------------------------------------------------
  // Inverting the documents
  // ---------------------------------------------------------------------------

  /** The defaultdict(set) of build_index, with its keys in insertion order: the order the files are written in. */
  datatype Postings = Postings(order: seq<string>, ids: map<string, set<string>>)

  const NoPostings := Postings([], map[])

  /** Every key appears exactly once in the insertion order. */
  ghost predicate Valid(p: Postings)
  {
    && (forall i, j :: 0 <= i < j < |p.order| ==> p.order[i] != p.order[j])
    && (forall t :: t in p.ids <==> t in p.order)
  }

  /** postings[t], where a missing key reads as the empty set. */
  function Get(p: Postings, t: string): set<string>
  {
    if t in p.ids then p.ids[t] else {}
  }

  /** postings[t].add(book_id) */
  function AddToken(p: Postings, t: string, id: string): Postings
  {
    if t in p.ids then Postings(p.order, p.ids[t := p.ids[t] + {id}])
    else Postings(p.order + [t], p.ids[t := {id}])
  }

  /** The inner loop of build_index over one book's tokens. */
  function AddDoc(p: Postings, id: string, tokens: seq<string>): Postings
    decreases |tokens|
  {
    if tokens == [] then p
    else AddToken(AddDoc(p, id, tokens[..|tokens| - 1]), tokens[|tokens| - 1], id)
  }

  /** The postings after the outer loop over every book. */
  function Invert(docs: Docs): Postings
    decreases |docs|
  {
    if docs == [] then NoPostings
    else
      var (id, tokens) := docs[|docs| - 1];
      AddDoc(Invert(docs[..|docs| - 1]), id, tokens)
  }

  /** The ids of the books whose tokens include t. */
  ghost function BooksWith(docs: Docs, t: string): set<string>
  {
    set i | 0 <= i < |docs| && t in docs[i].1 :: docs[i].0
  }

  lemma AddTokenSpec(p: Postings, t: string, id: string)
    requires Valid(p)
    ensures Valid(AddToken(p, t, id))
    ensures AddToken(p, t, id).ids.Keys == p.ids.Keys + {t}
    ensures forall u :: Get(AddToken(p, t, id), u) == Get(p, u) + (if u == t then {id} else {})
  {
  }

  /** One book adds its id to the postings of each of its tokens and to no other. */
  lemma {:induction false} AddDocSpec(p: Postings, id: string, tokens: seq<string>)
    requires Valid(p)
    ensures Valid(AddDoc(p, id, tokens))
    ensures forall t :: t in AddDoc(p, id, tokens).ids <==> t in p.ids || t in tokens
    ensures forall t :: Get(AddDoc(p, id, tokens), t) == Get(p, t) + (if t in tokens then {id} else {})
    decreases |tokens|
  {
    if tokens != [] {
      var init := tokens[..|tokens| - 1];
      var last := tokens[|tokens| - 1];
      AddDocSpec(p, id, init);
      AddTokenSpec(AddDoc(p, id, init), last, id);
      assert tokens == init + [last];
      assert forall t :: t in tokens <==> t in init || t == last;
    }
  }

  /** The books holding t grow by the last book when it holds t. */
  lemma BooksWithLast(docs: Docs, t: string)
    requires docs != []
    ensures BooksWith(docs, t)
      == BooksWith(docs[..|docs| - 1], t) + (if t in docs[|docs| - 1].1 then {docs[|docs| - 1].0} else {})
  {
    var n := |docs|;
    var init := docs[..n - 1];
    forall x | x in BooksWith(docs, t)
      ensures x in BooksWith(init, t) || (t in docs[n - 1].1 && x == docs[n - 1].0)
    {
      var i :| 0 <= i < n && t in docs[i].1 && docs[i].0 == x;
      if i < n - 1 {
        assert init[i] == docs[i];
      }
    }
    forall x | x in BooksWith(init, t) ensures x in BooksWith(docs, t) {
      var i :| 0 <= i < n - 1 && t in init[i].1 && init[i].0 == x;
      assert docs[i] == init[i];
    }
  }

  /**
   * After the loops, the postings hold a term exactly when some book has it,
   * and a term's set holds exactly the ids of the books that have it.
   */
  lemma {:induction false} InvertSpec(docs: Docs)
    ensures Valid(Invert(docs))
    ensures forall t :: t in Invert(docs).ids <==> BooksWith(docs, t) != {}
    ensures forall t :: Get(Invert(docs), t) == BooksWith(docs, t)
    decreases |docs|
  {
    if docs != [] {
      var init := docs[..|docs| - 1];
      var (id, tokens) := docs[|docs| - 1];
      InvertSpec(init);
      AddDocSpec(Invert(init), id, tokens);
      forall t ensures BooksWith(docs, t) == BooksWith(init, t) + (if t in tokens then {id} else {}) {
        BooksWithLast(docs, t);
      }
    }
  }

  /** The two loops of build_index that fill the postings. */
  method BuildPostings(docs: Docs) returns (p: Postings)
    ensures p == Invert(docs)
  {
    p := NoPostings;
    for i := 0 to |docs|
      invariant p == Invert(docs[..i])
    {
      var (id, tokens) := docs[i];
      ghost var before := p;
      for j := 0 to |tokens|
        invariant p == AddDoc(before, id, tokens[..j])
      {
        var t := tokens[j];
        if t in p.ids {
          p := Postings(p.order, p.ids[t := p.ids[t] + {id}]);
        } else {
          p := Postings(p.order + [t], p.ids[t := {id}]);
        }
        assert tokens[..j + 1][..j] == tokens[..j];
      }
      assert tokens[..|tokens|] == tokens;
      assert docs[..i + 1][..i] == docs[..i];
    }
    assert docs[..|docs|] == docs;
  }

  // ---------------------------------------------------------------------------
  // Writing the posting files
  // ---------------------------------------------------------------------------

  /** What a posting file holds: "\n".join(sorted(docset)). */
  ghost function Content(ids: set<string>): string
  {
    JoinWith(SortedElems(ids), '\n')
  }

  /**
   * The files after writing the terms in order. Writing stops at an empty
   * term, where term[0] raises; the files written before it stay.
   */
  ghost function Store(files: map<Path, string>, p: Postings, terms: seq<string>): map<Path, string>
    decreases |terms|
  {
    if terms == [] || terms[0] == [] then files
    else Store(files[PathOf(terms[0]) := Content(Get(p, terms[0]))], p, terms[1..])
  }

  /** Writing from the i-th term on: the i-th file first, then the terms after it. */
  lemma StoreStep(files: map<Path, string>, p: Postings, terms: seq<string>, i: nat)
    requires i < |terms| && terms[i] != []
    ensures Store(files, p, terms[i..])
         == Store(files[PathOf(terms[i]) := Content(Get(p, terms[i]))], p, terms[i + 1..])
  {
    assert terms[i..][0] == terms[i];
    assert terms[i..][1..] == terms[i + 1..];
  }

  /** Each term written gets its own file with its sorted ids. */
  lemma {:induction false} StoreWrites(files: map<Path, string>, p: Postings, terms: seq<string>, t: string)
    requires [] !in terms && t in terms
    requires forall i, j :: 0 <= i < j < |terms| ==> terms[i] != terms[j]
    ensures PathOf(t) in Store(files, p, terms)
    ensures Store(files, p, terms)[PathOf(t)] == Content(Get(p, t))
    decreases |terms|
  {
    var f := files[PathOf(terms[0]) := Content(Get(p, terms[0]))];
    if terms[0] == t {
      forall u | u in terms[1..] && u != [] ensures PathOf(u) != PathOf(t) {
        var k :| 0 <= k < |terms[1..]| && terms[1..][k] == u;
        assert terms[k + 1] == u;
        PathOfInjective(u, t);
      }
      StoreKeeps(f, p, terms[1..], PathOf(t));
    } else {
      assert t in terms[1..];
      StoreWrites(f, p, terms[1..], t);
    }
  }

  /** Every other file keeps its content: files of earlier builds for other terms are not removed. */
  lemma {:induction false} StoreKeeps(files: map<Path, string>, p: Postings, terms: seq<string>, path: Path)
    requires forall t | t in terms && t != [] :: PathOf(t) != path
    ensures path in Store(files, p, terms) <==> path in files
    ensures path in files ==> Store(files, p, terms)[path] == files[path]
    decreases |terms|
  {
    if terms != [] && terms[0] != [] {
      assert terms[0] in terms;
      StoreKeeps(files[PathOf(terms[0]) := Content(Get(p, terms[0]))], p, terms[1..], path);
    }
  }

  /** An empty term ends the writing: the terms after it get no file. */
  lemma {:induction false} StoreStops(files: map<Path, string>, p: Postings, a: seq<string>, b: seq<string>)
    ensures Store(files, p, a + [[]] + b) == Store(files, p, a)
    decreases |a|
  {
    if a != [] && a[0] != [] {
      assert (a + [[]] + b)[1..] == a[1..] + [[]] + b;
      StoreStops(files[PathOf(a[0]) := Content(Get(p, a[0]))], p, a[1..], b);
    }
  }

  /** The postings that come out of the documents with their book ids one per line. */
  lemma ContentLines(docs: Docs, t: string)
    requires forall i :: 0 <= i < |docs| ==> PlainLine(docs[i].0)
    ensures SplitLines(Content(BooksWith(docs, t))) == SortedElems(BooksWith(docs, t))
  {
    forall l | l in SortedElems(BooksWith(docs, t)) ensures PlainLine(l) {
      var i :| 0 <= i < |docs| && t in docs[i].1 && docs[i].0 == l;
    }
    SplitLinesJoin(SortedElems(BooksWith(docs, t)));
  }

  // ---------------------------------------------------------------------------
  // The index directory
  // ---------------------------------------------------------------------------

  /** The directory tree under INDEX_DIR: the posting files and their contents. */
  class IndexDir {
    var files: map<Path, string>

    constructor(existing: map<Path, string>)
      ensures files == existing
    {
      files := existing;
    }

    /**
     * build_index(docs). Err is the IndexError an empty token raises; by
     * then the files of the terms first seen before it are written.
     */
    method BuildIndex(docs: Docs) returns (r: Result<(), IndexError>)
      modifies this
      ensures files == Store(old(files), Invert(docs), Invert(docs).order)
      ensures r.Ok? <==> forall i :: 0 <= i < |docs| ==> [] !in docs[i].1
    {
      var p := BuildPostings(docs);
      r := WriteFiles(p);
      InvertSpec(docs);
      forall i | 0 <= i < |docs| ensures [] in docs[i].1 ==> docs[i].0 in BooksWith(docs, []) {
      }
    }

    /** The loop of build_index that writes one file per term, in insertion order. */
    method WriteFiles(p: Postings) returns (r: Result<(), IndexError>)
      modifies this`files
      ensures files == Store(old(files), p, p.order)
      ensures r.Ok? <==> [] !in p.order
    {
      var i := 0;
      while i < |p.order|
        invariant 0 <= i <= |p.order|
        invariant Store(old(files), p, p.order) == Store(files, p, p.order[i..])
        invariant forall k :: 0 <= k < i ==> p.order[k] != []
      {
        var term := p.order[i];
        if term == [] {
          assert p.order[i..][0] == [];
          return Err(EmptyTerm);
        }
        var sorted := SortStrings(Get(p, term));
        StoreStep(files, p, p.order, i);
        files := files[PathOf(term) := JoinWith(sorted, '\n')];
        i := i + 1;
      }
      assert p.order[i..] == [];
      assert [] !in p.order by {
        forall k | 0 <= k < |p.order| ensures p.order[k] != [] {
        }
      }
      return Ok(());
    }

    /** query(term): no file reads as no postings; an empty term raises. */
    function Query(term: string): (r: Result<seq<string>, IndexError>)
      reads this
      ensures r.Err? <==> term == []
      ensures r.Ok? && PathOf(term) !in files ==> r.value == []
    {
      if term == [] then Err(EmptyTerm)
      else if PathOf(term) !in files then Ok([])
      else Ok(SplitLines(files[PathOf(term)]))
    }
  }

  /**
   * The round trip: after a build that raised nothing, querying a term of
   * the documents gives the sorted ids of the books holding it, provided no
   * id is empty or holds a line break; any other term reads what the
   * directory held before.
   */
  lemma QueryAfterBuild(d: IndexDir, before: map<Path, string>, docs: Docs, t: string)
    requires d.files == Store(before, Invert(docs), Invert(docs).order)
    requires forall i :: 0 <= i < |docs| ==> [] !in docs[i].1
    requires forall i :: 0 <= i < |docs| ==> PlainLine(docs[i].0)
    requires t != []
    ensures BooksWith(docs, t) != {} ==> d.Query(t) == Ok(SortedElems(BooksWith(docs, t)))
    ensures BooksWith(docs, t) == {} ==> (PathOf(t) in d.files <==> PathOf(t) in before)
    ensures BooksWith(docs, t) == {} && PathOf(t) in before ==> d.files[PathOf(t)] == before[PathOf(t)]
  {
    var p := Invert(docs);
    InvertSpec(docs);
    assert BooksWith(docs, []) == {};
    if BooksWith(docs, t) != {} {
      StoreWrites(before, p, p.order, t);
      ContentLines(docs, t);
    } else {
      forall u | u in p.order && u != [] ensures PathOf(u) != PathOf(t) {
        PathOfInjective(u, t);
      }
      StoreKeeps(before, p, p.order, PathOf(t));
    }
  }
}
