/**
 * The two Gutenberg downloaders, without the network: splitting a book's
 * text into header and body at the Project Gutenberg markers, and deriving
 * the book id and the output file names from the URL.
 */
module Downloader {
  import opened Wrappers
  import opened Text
  import AppIndexer
  import LegacyIndexer

  const StartMarker := "*** START OF THE PROJECT GUTENBERG EBOOK"
  const EndMarker := "*** END OF THE PROJECT GUTENBERG EBOOK"

  /**
   * s.split(sep, 1) unpacked into two names: the text before the first sep
   * and the text after it. None is the ValueError of the unpacking when sep
   * does not occur.
   */
  function SplitOnce(s: string, sep: string): Option<(string, string)>
  {
    match Find(s, sep)
    case None => None
    case Some(i) => Some((s[..i], s[i + |sep|..]))
  }

  /** The split fails exactly when sep is absent; otherwise the pieces rebuild s. */
  lemma SplitOnceSpec(s: string, sep: string)
    ensures SplitOnce(s, sep).None? <==> !Contains(s, sep)
    ensures SplitOnce(s, sep).Some? ==> SplitOnce(s, sep).value.0 + sep + SplitOnce(s, sep).value.1 == s
  {
    if Find(s, sep).Some? {
      var i := Find(s, sep).value;
      assert s[i..i + |sep|] == sep;
      assert s == s[..i] + s[i..i + |sep|] + s[i + |sep|..];
    }
  }

  /** The first piece holds no sep: it ends before the first occurrence. */
  lemma SplitOnceFirst(s: string, sep: string)
    requires sep != []
    ensures SplitOnce(s, sep).Some? ==> !Contains(SplitOnce(s, sep).value.0, sep)
  {
    if Find(s, sep).Some? {
      var i := Find(s, sep).value;
      var a := s[..i];
      forall k | 0 <= k <= |a| ensures !OccursAt(a, sep, k) {
        if k + |sep| <= |a| {
          assert a[k..k + |sep|] == s[k..k + |sep|];
          assert !OccursAt(s, sep, k);
        }
      }
    }
  }

  /** The ValueError of header_body_split, by the marker that is missing (the start marker is looked for first). */
  datatype SplitError = NoStartMarker | NoEndMarker

  /** header_body_split, identical in both downloaders. */
  function HeaderBodySplit(text: string): Result<(string, string), SplitError>
  {
    match SplitOnce(text, StartMarker)
    case None => Err(NoStartMarker)
    case Some((header, _)) =>
      match SplitOnce(text, EndMarker)
      case None => Err(NoEndMarker)
      case Some((body, _)) => Ok((header, body))
  }

  /**
   * The split succeeds exactly when both markers occur. The header is the
   * text before the first start marker, which follows it; the body is the
   * text before the first end marker, which follows it.
   */
  lemma HeaderBodySplitSpec(text: string)
    ensures HeaderBodySplit(text).Ok? <==> Contains(text, StartMarker) && Contains(text, EndMarker)
    ensures HeaderBodySplit(text).Ok? ==>
              var (header, body) := HeaderBodySplit(text).value;
              && header + StartMarker <= text && !Contains(header, StartMarker)
              && body + EndMarker <= text && !Contains(body, EndMarker)
  {
    SplitOnceSpec(text, StartMarker);
    SplitOnceSpec(text, EndMarker);
    SplitOnceFirst(text, StartMarker);
    SplitOnceFirst(text, EndMarker);
    if HeaderBodySplit(text).Ok? {
      var (h, rest) := SplitOnce(text, StartMarker).value;
      var (b, rest') := SplitOnce(text, EndMarker).value;
      assert text == (h + StartMarker) + rest;
      assert text == (b + EndMarker) + rest';
    }
  }

  /** An occurrence of the start marker and one of the end marker never overlap. */
  lemma MarkersApart(text: string, i: nat, j: nat)
    requires OccursAt(text, StartMarker, i) && OccursAt(text, EndMarker, j)
    ensures i != j
    ensures i < j ==> i + |StartMarker| <= j
  {
    assert text[i + 4] == StartMarker[4] == 'S';
    assert text[j + 4] == EndMarker[4] == 'E';
    assert text[j] == EndMarker[0] == '*' && text[j + 2] == EndMarker[2] == '*';
    assert forall k :: 3 <= k < |StartMarker| ==> StartMarker[k] != '*';
  }

  /**
   * The body and the header never end at the same place, and when the start
   * marker comes first the body begins with the header followed by the
   * start marker.
   */
  lemma BodyBeginsWithHeader(text: string)
    requires HeaderBodySplit(text).Ok?
    ensures |HeaderBodySplit(text).value.0| != |HeaderBodySplit(text).value.1|
    ensures |HeaderBodySplit(text).value.0| < |HeaderBodySplit(text).value.1| ==>
              HeaderBodySplit(text).value.0 + StartMarker <= HeaderBodySplit(text).value.1
  {
    var (h, b) := HeaderBodySplit(text).value;
    HeaderBodySplitSpec(text);
    assert OccursAt(text, StartMarker, |h|) by {
      assert text[..|h| + |StartMarker|] == h + StartMarker;
    }
    assert OccursAt(text, EndMarker, |b|) by {
      assert text[..|b| + |EndMarker|] == b + EndMarker;
    }
    MarkersApart(text, |h|, |b|);
    if |h| < |b| {
      assert h + StartMarker == text[..|h| + |StartMarker|];
      assert b == text[..|b|];
    }
  }

  // ---------------------------------------------------------------------------
  // Book ids and file names
  // ---------------------------------------------------------------------------

  /** url.split("/")[-1] */
  function LastSegment(url: string): string
  {
    var parts := SplitOn(url, '/');
    parts[|parts| - 1]
  }

  /** fname.split('.')[0] */
  function Stem(fname: string): string
  {
    SplitOn(fname, '.')[0]
  }

  /** The book id of data_layer/application/downloader.py, and the stem of data_layer/downloader.py. */
  function BookId(url: string): string
  {
    Stem(LastSegment(url))
  }

  /** The joined pieces end with the last piece, behind a separator when there are several. */
  lemma {:induction false} JoinWithLast(pieces: seq<string>, sep: char)
    requires |pieces| >= 2
    ensures JoinWith(pieces, sep)
      == JoinWith(pieces[..|pieces| - 1], sep) + [sep] + pieces[|pieces| - 1]
    decreases |pieces|
  {
    if |pieces| > 2 {
      JoinWithLast(pieces[1..], sep);
      assert pieces[1..][..|pieces| - 2] == pieces[..|pieces| - 1][1..];
    } else {
      assert pieces[..1] == [pieces[0]];
    }
  }

  /** The stem is the file name's text before its first '.', or all of it. */
  lemma StemSpec(fname: string)
    ensures Stem(fname) <= fname && '.' !in Stem(fname)
    ensures |Stem(fname)| < |fname| ==> fname[|Stem(fname)|] == '.'
  {
    var parts := SplitOn(fname, '.');
    SplitOnJoin(fname, '.');
    if |parts| > 1 {
      assert fname == parts[0] + ['.'] + JoinWith(parts[1..], '.');
    }
  }

  /** The last segment is the URL's text after its last '/', or all of it. */
  lemma LastSegmentSpec(url: string)
    ensures |LastSegment(url)| <= |url|
    ensures LastSegment(url) == url[|url| - |LastSegment(url)|..] && '/' !in LastSegment(url)
    ensures |LastSegment(url)| < |url| ==> url[|url| - |LastSegment(url)| - 1] == '/'
  {
    var parts := SplitOn(url, '/');
    SplitOnJoin(url, '/');
    if |parts| > 1 {
      JoinWithLast(parts, '/');
      assert parts[|parts| - 1] in parts;
    }
  }

  /** The book id holds neither '/' nor '.'. */
  lemma BookIdSpec(url: string)
    ensures '/' !in BookId(url) && '.' !in BookId(url)
    ensures BookId(url) <= LastSegment(url)
  {
    LastSegmentSpec(url);
    StemSpec(LastSegment(url));
    forall k | 0 <= k < |BookId(url)| ensures BookId(url)[k] != '/' {
      assert BookId(url)[k] == LastSegment(url)[k];
    }
  }

  /** os.path.join(dir, name): an absolute name replaces dir; otherwise a '/' goes between unless dir is empty or ends in one. */
  function PathJoin(dir: string, name: string): string
  {
    if name != [] && name[0] == '/' then name
    else if dir == [] || dir[|dir| - 1] == '/' then dir + name
    else dir + "/" + name
  }

  /** What fetch_file does, given the paths that already exist and the downloaded text. */
  datatype Fetch =
    | Skipped(bookId: string)
    | Saved(headerPath: string, header: string, bodyPath: string, body: string)
    | SplitFailed(error: SplitError)

  /** fetch_file of data_layer/application/downloader.py: header_<id>.txt and body_<id>.txt under out_dir. */
  function FetchFile(existing: set<string>, outDir: string, url: string, data: string): Fetch
  {
    var id := BookId(url);
    var h := PathJoin(outDir, AppIndexer.HeaderName(id));
    var b := PathJoin(outDir, AppIndexer.BodyName(id));
    if h in existing && b in existing then Skipped(id)
    else
      match HeaderBodySplit(data)
      case Err(e) => SplitFailed(e)
      case Ok((header, body)) => Saved(h, header, b, body)
  }

  /**
   * The download is skipped exactly when both files exist; otherwise the
   * split decides, and the pieces go to the book's two files.
   */
  lemma FetchFileSpec(existing: set<string>, outDir: string, url: string, data: string)
    ensures var id := BookId(url);
            FetchFile(existing, outDir, url, data).Skipped?
            <==> PathJoin(outDir, "header_" + id + ".txt") in existing && PathJoin(outDir, "body_" + id + ".txt") in existing
    ensures FetchFile(existing, outDir, url, data).Saved? ==>
              var f := FetchFile(existing, outDir, url, data);
              HeaderBodySplit(data) == Ok((f.header, f.body))
              && f.headerPath == PathJoin(outDir, "header_" + BookId(url) + ".txt")
              && f.bodyPath == PathJoin(outDir, "body_" + BookId(url) + ".txt")
  {
  }

  /**
   * The application indexer reads the downloaded book back under the same
   * id: both files are where process_book looks, and the header name yields
   * the id unless the id itself holds "header_".
   */
  lemma DownloadedBookIsIndexable(datalake: map<string, string>, url: string, header: string, body: string)
    ensures var id := BookId(url);
            !AppIndexer.Missing(datalake[AppIndexer.HeaderName(id) := header][AppIndexer.BodyName(id) := body], id)
    ensures !Contains(BookId(url), "header_") ==> AppIndexer.BookIdOf(AppIndexer.HeaderName(BookId(url))) == BookId(url)
  {
    AppIndexer.BookIdRoundTrip(BookId(url));
  }

  /** The two file names of data_layer/downloader.py: <stem>_header.txt and <stem>_body.txt. */
  function LegacyNames(url: string): (string, string)
  {
    (BookId(url) + "_header.txt", BookId(url) + "_body.txt")
  }

  /** fetch_file of data_layer/downloader.py: no skipping; both files go under the dated directory. */
  function LegacyFetch(dir: string, url: string, data: string): Result<(string, string, string, string), SplitError>
  {
    var (h, b) := LegacyNames(url);
    match HeaderBodySplit(data)
    case Err(e) => Err(e)
    case Ok((header, body)) => Ok((PathJoin(dir, h), header, PathJoin(dir, b), body))
  }

  /** The header files this downloader writes are never picked up by the glob for "*.header.txt" of data_layer/indexer.py. */
  lemma LegacyHeaderNotIndexed(url: string)
    ensures LegacyIndexer.HeaderId(LegacyNames(url).0) == None
  {
    var name := LegacyNames(url).0;
    var k := LegacyIndexer.DigitRunEnd(name, 0);
    assert |name[k..]| == 11 ==> name[k..][0] == '_';
    assert name[k..] != [] ==> name[k..][|name[k..]| - 1] == 't';
  }
}
