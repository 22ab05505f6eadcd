/**
 * Character classes and string helpers shared by the model: Python's notion of
 * whitespace (str.isspace, str.split, str.strip, the regex class \s), line
 * boundaries (str.splitlines), word characters (the regex class \w) and the
 * substring search behind str.split(sep, 1) and str.replace.
 */
module Text {
  import opened Wrappers

  /** Python's str.isspace: the characters removed by strip() and separating split() fields. */
  predicate IsSpace(c: char)
  {
    || ('\t' <= c <= '\r')
    || ('\U{1C}' <= c <= '\U{1F}')
    || c == ' ' || c == '\U{85}' || c == '\U{A0}' || c == '\U{1680}'
    || ('\U{2000}' <= c <= '\U{200A}')
    || c == '\U{2028}' || c == '\U{2029}' || c == '\U{202F}' || c == '\U{205F}' || c == '\U{3000}'
  }

  /** The line boundaries of str.splitlines ("\r\n" counts as one boundary). */
  predicate IsLineBreak(c: char)
  {
    || c == '\n' || c == '\r' || c == '\U{0B}' || c == '\U{0C}'
    || c == '\U{1C}' || c == '\U{1D}' || c == '\U{1E}' || c == '\U{85}'
    || c == '\U{2028}' || c == '\U{2029}'
  }

  predicate IsUpper(c: char) { 'A' <= c <= 'Z' }

  predicate IsLower(c: char) { 'a' <= c <= 'z' }

  /** The regex class [a-zA-Z]. */
  predicate IsLetter(c: char) { IsUpper(c) || IsLower(c) }

  predicate IsDigit(c: char) { '0' <= c <= '9' }

  /**
   * The regex class \w: ASCII letters, digits and '_', and the alphanumeric
   * characters of Latin-1 (accented letters, ª µ º and the numerals ² ³ ¹ ¼ ½ ¾).
   */
  predicate IsWordChar(c: char)
  {
    || IsLetter(c) || IsDigit(c) || c == '_'
    || c == '\U{AA}' || c == '\U{B2}' || c == '\U{B3}' || c == '\U{B5}'
    || c == '\U{B9}' || c == '\U{BA}' || ('\U{BC}' <= c <= '\U{BE}')
    || ('\U{C0}' <= c <= '\U{FF}' && c != '\U{D7}' && c != '\U{F7}')
  }

  function LowerChar(c: char): (r: char)
    ensures !IsUpper(r)
    ensures IsLetter(r) == IsLetter(c) && IsWordChar(r) == IsWordChar(c)
    ensures IsUpper(c) ==> IsLower(r)
    ensures !IsUpper(c) ==> r == c
  {
    if IsUpper(c) then (c as int + 32) as char else c
  }

  function UpperChar(c: char): (r: char)
    ensures IsLower(c) ==> IsUpper(r) && LowerChar(r) == c
    ensures !IsLower(c) ==> r == c
  {
    if IsLower(c) then (c as int - 32) as char else c
  }

  /** str.lower() on the ASCII letters. */
  function Lower(s: string): (r: string)
    ensures |r| == |s|
    ensures forall k :: 0 <= k < |s| ==> r[k] == LowerChar(s[k])
  {
    seq(|s|, k requires 0 <= k < |s| => LowerChar(s[k]))
  }

  lemma LowerIdempotent(s: string)
    ensures Lower(Lower(s)) == Lower(s)
  {
  }

  lemma LowerSlice(s: string, a: nat, b: nat)
    requires a <= b <= |s|
    ensures Lower(s)[a..b] == Lower(s[a..b])
  {
  }

  predicate AllSpace(s: string) { forall k :: 0 <= k < |s| ==> IsSpace(s[k]) }

  function TrimLeft(s: string): (r: string)
    ensures |r| <= |s| && r == s[|s| - |r|..]
    ensures AllSpace(s[..|s| - |r|])
    ensures r != [] ==> !IsSpace(r[0])
  {
    if s != [] && IsSpace(s[0]) then TrimLeft(s[1..]) else s
  }

  function TrimRight(s: string): (r: string)
    ensures |r| <= |s| && r == s[..|r|]
    ensures AllSpace(s[|r|..])
    ensures r != [] ==> !IsSpace(r[|r| - 1])
  {
    if s != [] && IsSpace(s[|s| - 1]) then
      var r := TrimRight(s[..|s| - 1]);
      assert s[|r|..] == s[..|s| - 1][|r|..] + [s[|s| - 1]];
      r
    else s
  }

  /** r is the piece of s at i, and only whitespace precedes and follows it. */
  predicate StrippedAt(s: string, r: string, i: int)
  {
    0 <= i <= |s| - |r| && r == s[i..i + |r|] && AllSpace(s[..i]) && AllSpace(s[i + |r|..])
  }

  /**
   * str.strip(): the result is a piece of s with only whitespace before and
   * after it, neither starts nor ends with whitespace, is empty for an
   * all-whitespace string, and is the string itself when there is nothing to
   * strip.
   */
  function Strip(s: string): (r: string)
    ensures |r| <= |s|
    ensures exists i :: StrippedAt(s, r, i)
    ensures r != [] ==> !IsSpace(r[0]) && !IsSpace(r[|r| - 1])
    ensures AllSpace(s) ==> r == []
    ensures (s == [] || (!IsSpace(s[0]) && !IsSpace(s[|s| - 1]))) ==> r == s
  {
    var t := TrimLeft(s);
    var r := TrimRight(t);
    StripPiece(s, t, r);
    r
  }

  /** What TrimLeft and then TrimRight leave of s: the piece between its leading and trailing whitespace. */
  lemma StripPiece(s: string, t: string, r: string)
    requires |t| <= |s| && t == s[|s| - |t|..] && AllSpace(s[..|s| - |t|]) && (t != [] ==> !IsSpace(t[0]))
    requires |r| <= |t| && r == t[..|r|] && AllSpace(t[|r|..]) && (r != [] ==> !IsSpace(r[|r| - 1]))
    ensures |r| <= |s|
    ensures exists i :: StrippedAt(s, r, i)
    ensures r != [] ==> !IsSpace(r[0]) && !IsSpace(r[|r| - 1])
    ensures AllSpace(s) ==> r == []
    ensures (s == [] || (!IsSpace(s[0]) && !IsSpace(s[|s| - 1]))) ==> r == s
  {
    var i := |s| - |t|;
    SlicesOfSuffix(s, i, |r|);
    assert t == s[i..];
    assert r == t[..|r|];
    assert StrippedAt(s, r, i);
    if r != [] {
      assert r[0] == t[0];
      assert r[0] == s[i];
    }
    if s != [] && !IsSpace(s[0]) && !IsSpace(s[|s| - 1]) {
      assert i == 0;
      assert t[|t| - 1] == s[|s| - 1];
      assert |r| == |t|;
    }
  }

  lemma SlicesOfSuffix<T>(s: seq<T>, i: nat, n: nat)
    requires i + n <= |s|
    ensures s[i..][..n] == s[i..i + n] && s[i..][n..] == s[i + n..]
  {
  }

  /** The stripped string is the piece of s that starts at i. */
  lemma StripSlice(s: string) returns (i: nat)
    ensures i + |Strip(s)| <= |s| && Strip(s) == s[i..i + |Strip(s)|]
  {
    var r := Strip(s);
    i :| StrippedAt(s, r, i);
  }

  /** Stripping adds no character: one absent from s is absent from Strip(s). */
  lemma StripKeepsOut(s: string, c: char)
    requires c !in s
    ensures c !in Strip(s)
  {
    var r := Strip(s);
    var i := StripSlice(s);
    forall k | 0 <= k < |r| ensures r[k] != c {
      assert r[k] == s[i + k];
    }
  }

  /** str.split() with no argument: the maximal runs of non-whitespace characters. */
  function Fields(s: string): (r: seq<string>)
    ensures forall f | f in r :: f != [] && forall c | c in f :: !IsSpace(c)
    decreases |s|
  {
    if s == [] then []
    else if IsSpace(s[0]) then Fields(s[1..])
    else
      var n := NonSpaceRun(s, 0);
      [s[..n]] + Fields(s[n..])
  }

  /** The end of the run of non-whitespace characters that starts at i. */
  function NonSpaceRun(s: string, i: nat): (j: nat)
    requires i <= |s|
    ensures i <= j <= |s|
    ensures forall k :: i <= k < j ==> !IsSpace(s[k])
    ensures j < |s| ==> IsSpace(s[j])
    decreases |s| - i
  {
    if i < |s| && !IsSpace(s[i]) then NonSpaceRun(s, i + 1) else i
  }

  lemma {:induction false} FieldsOfAllSpace(s: string)
    requires AllSpace(s)
    ensures Fields(s) == []
    decreases |s|
  {
    if s != [] {
      FieldsOfAllSpace(s[1..]);
    }
  }

  /** A whitespace character between two strings separates their fields and adds none. */
  lemma {:induction false} FieldsSpaceSeparated(a: string, c: char, b: string)
    requires IsSpace(c)
    ensures Fields(a + [c] + b) == Fields(a) + Fields(b)
    decreases |a|
  {
    var s := a + [c] + b;
    if a == [] {
      assert s[1..] == b;
    } else if IsSpace(a[0]) {
      assert s[1..] == a[1..] + [c] + b;
      FieldsSpaceSeparated(a[1..], c, b);
    } else {
      var n := NonSpaceRun(a, 0);
      var m := NonSpaceRun(s, 0);
      assert s == a + ([c] + b);
      NonSpaceRunPrefix(a, [c] + b, 0);
      assert m == n;
      assert s[..n] == a[..n];
      assert s[n..] == a[n..] + [c] + b;
      FieldsSpaceSeparated(a[n..], c, b);
    }
  }

  /** A non-empty string without whitespace: what split() can return as one field. */
  predicate IsWord(w: string)
  {
    w != [] && forall c | c in w :: !IsSpace(c)
  }

  /** A non-empty string without whitespace is a single field. */
  lemma {:induction false} FieldsOfWord(w: string)
    requires IsWord(w)
    ensures Fields(w) == [w]
  {
    var n := NonSpaceRun(w, 0);
    assert w[..n] == w && w[n..] == [];
  }

  /** " ".join(words). */
  function JoinWords(words: seq<string>): string
    decreases |words|
  {
    if words == [] then ""
    else if |words| == 1 then words[0]
    else words[0] + " " + JoinWords(words[1..])
  }

  /**
   * str.split() undoes " ".join: the fields of the joined words are the words
   * themselves, in order, whenever each is non-empty and free of whitespace.
   */
  lemma {:induction false} FieldsOfJoin(words: seq<string>)
    requires forall k :: 0 <= k < |words| ==> IsWord(words[k])
    ensures Fields(JoinWords(words)) == words
    decreases |words|
  {
    if words == [] {
    } else if |words| == 1 {
      FieldsOfWord(words[0]);
    } else {
      var rest := words[1..];
      var j := JoinWords(rest);
      assert forall k :: 0 <= k < |rest| ==> IsWord(rest[k]) by {
        forall k | 0 <= k < |rest| ensures IsWord(rest[k]) {
          assert rest[k] == words[k + 1];
        }
      }
      FieldsOfJoin(rest);
      FieldsOfWord(words[0]);
      assert JoinWords(words) == words[0] + [' '] + j;
      FieldsSpaceSeparated(words[0], ' ', j);
      assert words == [words[0]] + rest;
    }
  }

  lemma {:induction false} NonSpaceRunPrefix(a: string, b: string, i: nat)
    requires i <= |a|
    requires b != [] && IsSpace(b[0])
    ensures NonSpaceRun(a + b, i) == NonSpaceRun(a, i)
    decreases |a| - i
  {
    if i < |a| && !IsSpace(a[i]) {
      NonSpaceRunPrefix(a, b, i + 1);
    }
  }

  /** pat occurs in s at position i. */
  predicate OccursAt(s: string, pat: string, i: nat)
  {
    i + |pat| <= |s| && s[i..i + |pat|] == pat
  }

  predicate Contains(s: string, pat: string)
  {
    exists i :: 0 <= i <= |s| && OccursAt(s, pat, i)
  }

  /** The first occurrence of pat in s at or after position i (str.find). */
  function FindFrom(s: string, pat: string, i: nat): (r: Option<nat>)
    requires i <= |s|
    ensures r.Some? ==> i <= r.value <= |s| && OccursAt(s, pat, r.value)
    ensures r.Some? ==> forall k :: i <= k < r.value ==> !OccursAt(s, pat, k)
    ensures r.None? ==> forall k :: i <= k <= |s| ==> !OccursAt(s, pat, k)
    decreases |s| - i
  {
    if OccursAt(s, pat, i) then Some(i)
    else if i == |s| then None
    else FindFrom(s, pat, i + 1)
  }

  function Find(s: string, pat: string): (r: Option<nat>)
    ensures r.None? <==> !Contains(s, pat)
    ensures r.Some? ==> OccursAt(s, pat, r.value) && forall k :: 0 <= k < r.value ==> !OccursAt(s, pat, k)
  {
    FindFrom(s, pat, 0)
  }

  /**
   * str.split(sep) for a one-character separator: the pieces between the
   * separators, at least one piece, none containing the separator.
   */
  function SplitOn(s: string, sep: char): (r: seq<string>)
    ensures |r| >= 1
    ensures forall p | p in r :: sep !in p
    ensures sep !in s ==> r == [s]
    decreases |s|
  {
    if s == [] then [[]]
    else
      var rest := SplitOn(s[1..], sep);
      assert s == [s[0]] + s[1..];
      if s[0] == sep then [[]] + rest
      else [[s[0]] + rest[0]] + rest[1..]
  }

  /** "sep".join(pieces). */
  function JoinWith(pieces: seq<string>, sep: char): string
    decreases |pieces|
  {
    if pieces == [] then []
    else if |pieces| == 1 then pieces[0]
    else pieces[0] + [sep] + JoinWith(pieces[1..], sep)
  }

  /** Splitting and joining back on the same separator restores the string. */
  lemma {:induction false} SplitOnJoin(s: string, sep: char)
    ensures JoinWith(SplitOn(s, sep), sep) == s
    decreases |s|
  {
    if s != [] {
      var rest := SplitOn(s[1..], sep);
      SplitOnJoin(s[1..], sep);
      assert s == [s[0]] + s[1..];
      if s[0] == sep {
        assert SplitOn(s, sep)[1..] == rest;
      } else {
        JoinExtendsFirst(s[0], rest, sep);
      }
    }
  }

  /** Prepending a character to the first piece prepends it to the joined string. */
  lemma JoinExtendsFirst(c: char, pieces: seq<string>, sep: char)
    requires |pieces| >= 1
    ensures JoinWith([[c] + pieces[0]] + pieces[1..], sep) == [c] + JoinWith(pieces, sep)
  {
    var r := [[c] + pieces[0]] + pieces[1..];
    if |pieces| > 1 {
      assert r[1..] == pieces[1..];
      var tail := [sep] + JoinWith(pieces[1..], sep);
      assert ([c] + pieces[0]) + tail == [c] + (pieces[0] + tail);
    }
  }

  /** The first piece of SplitOn is the part of s before the first separator. */
  lemma {:induction false} SplitOnHead(a: string, b: string, sep: char)
    requires sep !in a
    ensures SplitOn(a + [sep] + b, sep) == [a] + SplitOn(b, sep)
    decreases |a|
  {
    var s := a + [sep] + b;
    if a == [] {
      assert s[1..] == b;
    } else {
      assert s[1..] == a[1..] + [sep] + b;
      SplitOnHead(a[1..], b, sep);
      var rest := SplitOn(s[1..], sep);
      assert rest[0] == a[1..] && rest[1..] == SplitOn(b, sep);
      assert a == [a[0]] + a[1..];
    }
  }

  /**
   * str.replace(pat, rep) for a non-empty pat: occurrences are found left to
   * right, and the search resumes after each replaced one.
   */
  function ReplaceAll(s: string, pat: string, rep: string): string
    requires pat != []
    decreases |s|
  {
    if |s| < |pat| then s
    else if s[..|pat|] == pat then rep + ReplaceAll(s[|pat|..], pat, rep)
    else [s[0]] + ReplaceAll(s[1..], pat, rep)
  }

  /** A string without an occurrence of pat comes through replace() unchanged. */
  lemma {:induction false} ReplaceAllAbsent(s: string, pat: string, rep: string)
    requires pat != []
    requires !Contains(s, pat)
    ensures ReplaceAll(s, pat, rep) == s
    decreases |s|
  {
    if |s| >= |pat| {
      assert !OccursAt(s, pat, 0);
      assert !Contains(s[1..], pat) by {
        forall i | 0 <= i <= |s[1..]| ensures !OccursAt(s[1..], pat, i) {
          assert !OccursAt(s, pat, i + 1);
          if i + |pat| <= |s| - 1 {
            assert s[1..][i..i + |pat|] == s[i + 1..i + 1 + |pat|];
          }
        }
      }
      ReplaceAllAbsent(s[1..], pat, rep);
    }
  }

  /** The first line boundary at or after i, or the end of s. */
  function BreakAt(s: string, i: nat): (k: nat)
    requires i <= |s|
    ensures i <= k <= |s|
    ensures forall j :: i <= j < k ==> !IsLineBreak(s[j])
    ensures k < |s| ==> IsLineBreak(s[k])
    decreases |s| - i
  {
    if i == |s| || IsLineBreak(s[i]) then i else BreakAt(s, i + 1)
  }

  /**
   * str.splitlines(): the lines of s without their boundaries. "\r\n" is one
   * boundary, and a boundary at the very end opens no further line.
   */
  function SplitLines(s: string): seq<string>
    decreases |s|
  {
    if s == [] then []
    else
      var k := BreakAt(s, 0);
      if k == |s| then [s]
      else
        var next := if s[k] == '\r' && k + 1 < |s| && s[k + 1] == '\n' then k + 2 else k + 1;
        [s[..k]] + SplitLines(s[next..])
  }

  /** A piece that survives a round trip through "\n".join and splitlines. */
  predicate PlainLine(l: string)
  {
    l != [] && forall j :: 0 <= j < |l| ==> !IsLineBreak(l[j])
  }

  /** Lines joined with "\n" split back into the same lines, if none is empty or holds a boundary. */
  lemma {:induction false} SplitLinesJoin(lines: seq<string>)
    requires forall l | l in lines :: PlainLine(l)
    ensures SplitLines(JoinWith(lines, '\n')) == lines
    decreases |lines|
  {
    if |lines| == 1 {
      assert lines[0] in lines;
      assert BreakAt(lines[0], 0) == |lines[0]|;
    } else if |lines| > 1 {
      var a := lines[0];
      var rest := JoinWith(lines[1..], '\n');
      var s := a + ['\n'] + rest;
      assert a in lines;
      var k := BreakAt(s, 0);
      assert s[|a|] == '\n';
      assert forall j :: 0 <= j < |a| ==> s[j] == a[j];
      assert k == |a|;
      assert s[..k] == a && s[k + 1..] == rest;
      forall l | l in lines[1..] ensures PlainLine(l) {
        assert l in lines;
      }
      SplitLinesJoin(lines[1..]);
    }
  }

  // ---------------------------------------------------------------------------
  // Pieces of the header regexes
  // ---------------------------------------------------------------------------

  /** The literal key occurs at position p of s, compared case-insensitively (re.IGNORECASE). */
  predicate LabelAt(s: string, p: nat, key: string)
  {
    p + |key| <= |s| && Lower(s[p..p + |key|]) == Lower(key)
  }

  /** Where a greedy \s* that starts at q stops. */
  function SpaceRunEnd(s: string, q: nat): (e: nat)
    requires q <= |s|
    ensures q <= e <= |s| && AllSpace(s[q..e])
    ensures e < |s| ==> !IsSpace(s[e])
    decreases |s| - q
  {
    if q < |s| && IsSpace(s[q]) then
      var e := SpaceRunEnd(s, q + 1);
      assert s[q..e] == [s[q]] + s[q + 1..e];
      e
    else q
  }

  /** The end of the line holding position k: the next '\n' at or after k, or the end of s. */
  function LineEnd(s: string, k: nat): (e: nat)
    requires k <= |s|
    ensures k <= e <= |s| && '\n' !in s[k..e]
    ensures e < |s| ==> s[e] == '\n'
    decreases |s| - k
  {
    if k < |s| && s[k] != '\n' then
      var e := LineEnd(s, k + 1);
      assert s[k..e] == [s[k]] + s[k + 1..e];
      e
    else k
  }
}
