/**
 * parse_header: four case-insensitive patterns `^<Label>:\s*(.*)$` in
 * MULTILINE mode, each searched over the whole header; the value is the
 * stripped group of the first match, or None.
 *
 * A match can only start where a line starts. Once the label matches there,
 * the rest of the pattern always matches: `\s*` takes every whitespace
 * character after the label (line breaks included), `.*` the rest of the
 * line it reaches, and `$` holds at that line's end. So the scanner below
 * needs no backtracking.
 */
module MetadataParser {
  import opened Wrappers
  import opened Text
  import AppIndexer

  /** The four keys of the result, with their labels. */
  const TitleLabel := "Title:"
  const AuthorLabel := "Author:"
  const LanguageLabel := "Language:"
  const ReleaseDateLabel := "Release Date:"

  /** `^` in MULTILINE mode: the start of the text or the position after a '\n'. */
  predicate LineStart(s: string, p: nat)
  {
    p == 0 || (p <= |s| && s[p - 1] == '\n')
  }

  /** A line of s starts at p with the label. */
  predicate LabelLine(s: string, key: string, p: nat)
  {
    LineStart(s, p) && LabelAt(s, p, key)
  }

  /** rx.search from p: the first line start at or after p that carries the label. */
  function FindLabel(s: string, key: string, p: nat): (r: Option<nat>)
    requires p <= |s|
    ensures r.Some? ==> p <= r.value <= |s| && LabelLine(s, key, r.value)
    decreases |s| - p
  {
    if LabelLine(s, key, p) then Some(p)
    else if p == |s| then None
    else FindLabel(s, key, p + 1)
  }

  /** No label line lies between p and the one found, nor anywhere after p when none is found. */
  lemma {:induction false} FindLabelLeftmost(s: string, key: string, p: nat)
    requires p <= |s|
    ensures FindLabel(s, key, p).Some? ==> forall i :: p <= i < FindLabel(s, key, p).value ==> !LabelLine(s, key, i)
    ensures FindLabel(s, key, p).None? ==> forall i :: p <= i <= |s| ==> !LabelLine(s, key, i)
    decreases |s| - p
  {
    if !LabelLine(s, key, p) && p < |s| {
      FindLabelLeftmost(s, key, p + 1);
    }
  }

  /** Where the group starts for a label line at p: after all the whitespace that follows the label. */
  function GroupStart(s: string, key: string, p: nat): nat
    requires LabelLine(s, key, p)
  {
    SpaceRunEnd(s, p + |key|)
  }

  /** m.group(1).strip() for the match at p. */
  function Value(s: string, key: string, p: nat): string
    requires LabelLine(s, key, p)
  {
    var e := GroupStart(s, key, p);
    Strip(s[e..LineEnd(s, e)])
  }

  /** The entry parse_header stores for one label. */
  function Lookup(s: string, key: string): Option<string>
  {
    match FindLabel(s, key, 0)
    case Some(p) => Some(Value(s, key, p))
    case None => None
  }

  function ParseHeader(text: string): map<string, Option<string>>
  {
    map[
      "title" := Lookup(text, TitleLabel),
      "author" := Lookup(text, AuthorLabel),
      "language" := Lookup(text, LanguageLabel),
      "release_date" := Lookup(text, ReleaseDateLabel)]
  }

  /** The result always has exactly the four keys. */
  lemma ParseHeaderKeys(text: string)
    ensures ParseHeader(text).Keys == {"title", "author", "language", "release_date"}
    ensures ParseHeader(text)["title"] == Lookup(text, TitleLabel)
    ensures ParseHeader(text)["release_date"] == Lookup(text, ReleaseDateLabel)
  {
  }

  /** A key is None exactly when no line of the text begins with its label. */
  lemma LookupNone(s: string, key: string)
    ensures Lookup(s, key).None? <==> forall p :: 0 <= p <= |s| ==> !LabelLine(s, key, p)
  {
    FindLabelLeftmost(s, key, 0);
  }

  /** Otherwise the value comes from the first such line. */
  lemma LookupFirst(s: string, key: string) returns (p: nat)
    requires Lookup(s, key).Some?
    ensures p <= |s| && LabelLine(s, key, p)
    ensures forall i :: 0 <= i < p ==> !LabelLine(s, key, i)
    ensures Lookup(s, key).value == Value(s, key, p)
  {
    FindLabelLeftmost(s, key, 0);
    p := FindLabel(s, key, 0).value;
  }

  /** The value lies on one line: `.` never takes a line break. */
  lemma ValueOneLine(s: string, key: string, p: nat)
    requires LabelLine(s, key, p)
    ensures '\n' !in Value(s, key, p)
  {
    var e := GroupStart(s, key, p);
    StripKeepsOut(s[e..LineEnd(s, e)], '\n');
  }

  /** The value is empty exactly when nothing but whitespace follows the label up to the end of the text. */
  lemma ValueEmpty(s: string, key: string, p: nat)
    requires LabelLine(s, key, p)
    ensures Value(s, key, p) == [] <==> AllSpace(s[p + |key|..])
  {
    var q := p + |key|;
    var e := GroupStart(s, key, p);
    var line := s[e..LineEnd(s, e)];
    if e < |s| {
      assert line[0] == s[e];
      StripNonSpaceStart(line);
      assert s[q..][e - q] == s[e];
      assert !AllSpace(s[q..]);
    } else {
      assert line == [];
      assert s[q..] == s[q..e];
    }
  }

  /** Stripping never empties a string that starts with a non-space. */
  lemma StripNonSpaceStart(s: string)
    requires s != [] && !IsSpace(s[0])
    ensures Strip(s) != []
  {
    assert TrimLeft(s) == s;
    assert !AllSpace(s);
  }

  /** No line of "Subtitle: " + x starts with "Title:" when x has no line break. */
  lemma NoTitleLine(x: string)
    requires '\n' !in x
    ensures forall p :: 0 <= p <= |"Subtitle: " + x| ==> !LabelLine("Subtitle: " + x, TitleLabel, p)
  {
    var s := "Subtitle: " + x;
    forall p | 0 <= p <= |s| ensures !LabelLine(s, TitleLabel, p) {
      if p > 10 {
        assert s[p - 1] == x[p - 11];
      } else if p > 0 {
        assert s[p - 1] != '\n';
      } else if p + 6 <= |s| {
        assert Lower(s[0..6])[0] == 's';
      }
    }
  }

  /** The label must open a line: "Subtitle: X" sets no title here, while the application's extractor takes "X". */
  lemma SubtitleIsNotTitle(x: string)
    requires '\n' !in x
    ensures ParseHeader("Subtitle: " + x)["title"].None?
  {
    NoTitleLine(x);
    LookupNone("Subtitle: " + x, TitleLabel);
    ParseHeaderKeys("Subtitle: " + x);
  }

  /** The same header read by both parsers. */
  lemma ParsersDisagreeOnSubtitle(s: string)
    requires s == "Subtitle: X"
    ensures ParseHeader(s)["title"].None?
    ensures AppIndexer.ExtractMetadataFromHeader(s).title == "X"
  {
    assert s == "Subtitle: " + "X";
    SubtitleIsNotTitle("X");
    AppIndexer.ExtractSubtitle();
  }

  /** `\s*` runs over the line break after an empty "Title:", so the next line is the title. */
  lemma EmptyTitleTakesNextLine(y: string)
    requires '\n' !in y && y != [] && !IsSpace(y[0]) && !IsSpace(y[|y| - 1])
    ensures ParseHeader("Title:\n" + y)["title"] == Some(y)
  {
    var s := "Title:\n" + y;
    assert LabelLine(s, TitleLabel, 0) by {
      assert s[0..6] == TitleLabel;
    }
    assert FindLabel(s, TitleLabel, 0) == Some(0);
    assert SpaceRunEnd(s, 7) == 7;
    assert SpaceRunEnd(s, 6) == 7;
    EndOfLastLine(s, 7);
    assert s[7..|s|] == y;
    assert Value(s, TitleLabel, 0) == Strip(y) == y;
    assert Lookup(s, TitleLabel) == Some(y);
    ParseHeaderKeys(s);
  }

  /** With no line break after k, the line holding k runs to the end of s. */
  lemma {:induction false} EndOfLastLine(s: string, k: nat)
    requires k <= |s| && '\n' !in s[k..]
    ensures LineEnd(s, k) == |s|
    decreases |s| - k
  {
    if k < |s| {
      assert s[k] == s[k..][0];
      assert s[k + 1..] == s[k..][1..];
      EndOfLastLine(s, k + 1);
    }
  }
}
