/**
 * The tokenizer of both indexers: re.findall(r'\b[a-zA-Z]+\b', text.lower()),
 * keeping the matches longer than two characters, as a set.
 *
 * The regex is modelled as the engine runs it: at each position it tries
 * \b, the greedy letter run, then \b again, backing off one letter at a
 * time; after a match it resumes at the match's end, otherwise one position
 * further. The lemmas then say what this computes: the whole word-character
 * runs of the text that consist of letters only.
 */
module Tokenizer {
  import opened Wrappers
  import opened Text

  /** The regex assertion \b at position k (between s[k-1] and s[k]). */
  predicate Boundary(s: string, k: nat)
    requires k <= |s|
  {
    (k > 0 && IsWordChar(s[k - 1])) != (k < |s| && IsWordChar(s[k]))
  }

  /** Where the greedy [a-zA-Z]+ that starts at i stops. */
  function LetterRunEnd(s: string, i: nat): (j: nat)
    requires i <= |s|
    ensures i <= j <= |s|
    ensures forall k :: i <= k < j ==> IsLetter(s[k])
    ensures j < |s| ==> !IsLetter(s[j])
    decreases |s| - i
  {
    if i < |s| && IsLetter(s[i]) then LetterRunEnd(s, i + 1) else i
  }

  /** Backtracking: the longest end j' in (i, j] at which the closing \b holds. */
  function BacktrackEnd(s: string, i: nat, j: nat): (r: Option<nat>)
    requires i <= j <= |s|
    ensures r.Some? ==> i < r.value <= j
    decreases j
  {
    if j <= i then None
    else if Boundary(s, j) then Some(j)
    else BacktrackEnd(s, i, j - 1)
  }

  /** The end of the match of \b[a-zA-Z]+\b that starts at i, if any. */
  function MatchAt(s: string, i: nat): (r: Option<nat>)
    requires i <= |s|
    ensures r.Some? ==> i < r.value <= |s|
  {
    if Boundary(s, i) then BacktrackEnd(s, i, LetterRunEnd(s, i)) else None
  }

  /** re.findall from position i: every match is a non-empty string of letters of s. */
  function FindAll(s: string, i: nat): (r: seq<string>)
    requires i <= |s|
    ensures forall w | w in r :: w != [] && forall c | c in w :: c in s && IsLetter(c)
    decreases |s| - i
  {
    if i == |s| then []
    else
      match MatchAt(s, i)
      case Some(j) =>
        assert forall c | c in s[i..j] :: c in s;
        BacktrackOnlyAtRunEnd(s, i, LetterRunEnd(s, i));
        [s[i..j]] + FindAll(s, j)
      case None => FindAll(s, i + 1)
  }

  /** tokenize_text: lowercase ASCII-letter terms of three or more letters. */
  function Tokenize(text: string): (r: set<string>)
    ensures forall w | w in r :: |w| > 2 && forall c | c in w :: IsLower(c)
  {
    var s := Lower(text);
    set w | w in FindAll(s, 0) && |w| > 2
  }

  /** s[a..b] is a whole run of word characters, and every one of them a letter. */
  predicate WholeRun(s: string, a: int, b: int)
  {
    && 0 <= a < b <= |s|
    && (a == 0 || !IsWordChar(s[a - 1]))
    && (b == |s| || !IsWordChar(s[b]))
    && forall k :: a <= k < b ==> IsLetter(s[k])
  }

  /** Inside a run of letters \b never holds, so backing off can only succeed at the run's end. */
  lemma {:induction false} BacktrackOnlyAtRunEnd(s: string, i: nat, j: nat)
    requires i <= j <= |s|
    requires forall k :: i <= k < j ==> IsLetter(s[k])
    ensures BacktrackEnd(s, i, j) == if j > i && Boundary(s, j) then Some(j) else None
    decreases j
  {
    if j > i && !Boundary(s, j) {
      BacktrackOnlyAtRunEnd(s, i, j - 1);
    }
  }

  /** A match starts at i exactly when a whole letter run starts there, and it ends where the run does. */
  lemma MatchAtWholeRun(s: string, i: nat)
    requires i <= |s|
    ensures MatchAt(s, i).Some? ==> WholeRun(s, i, MatchAt(s, i).value)
    ensures forall b :: WholeRun(s, i, b) ==> MatchAt(s, i) == Some(b)
  {
    var e := LetterRunEnd(s, i);
    BacktrackOnlyAtRunEnd(s, i, e);
    forall b | WholeRun(s, i, b) ensures MatchAt(s, i) == Some(b) {
      LetterRunEndAt(s, i, b);
    }
  }

  /** The greedy letter run from i stops at b when s[i..b] is letters and s[b] is not. */
  lemma {:induction false} LetterRunEndAt(s: string, i: nat, b: nat)
    requires i <= b <= |s|
    requires forall k :: i <= k < b ==> IsLetter(s[k])
    requires b == |s| || !IsLetter(s[b])
    ensures LetterRunEnd(s, i) == b
    decreases b - i
  {
    if i < b {
      LetterRunEndAt(s, i + 1, b);
    }
  }

  /** What findall returns from position i: the whole letter runs starting at or after i. */
  lemma {:induction false} FindAllIsWholeRuns(s: string, i: nat)
    requires i <= |s|
    ensures forall w :: w in FindAll(s, i) <==> exists a, b :: i <= a && WholeRun(s, a, b) && w == s[a..b]
    decreases |s| - i
  {
    if i < |s| {
      MatchAtWholeRun(s, i);
      match MatchAt(s, i)
      case Some(j) =>
        FindAllIsWholeRuns(s, j);
        forall w ensures w in FindAll(s, i) <==> exists a, b :: i <= a && WholeRun(s, a, b) && w == s[a..b] {
          if w in FindAll(s, i) {
            if w != s[i..j] {
              assert w in FindAll(s, j);
            }
          }
          if exists a, b :: i <= a && WholeRun(s, a, b) && w == s[a..b] {
            var a, b :| i <= a && WholeRun(s, a, b) && w == s[a..b];
            if a == i {
              assert b == j;
            } else {
              assert !IsWordChar(s[a - 1]);
              assert j <= a;
            }
          }
        }
      case None =>
        FindAllIsWholeRuns(s, i + 1);
    }
  }

  /**
   * The tokens of a text are exactly its whole word-character runs made only
   * of letters, longer than two, lower-cased.
   */
  lemma TokenizeIsWholeRuns(text: string)
    ensures forall w :: w in Tokenize(text) <==>
      |w| > 2 && exists a, b :: WholeRun(text, a, b) && w == Lower(text[a..b])
  {
    var s := Lower(text);
    FindAllIsWholeRuns(s, 0);
    forall a, b ensures WholeRun(s, a, b) <==> WholeRun(text, a, b) {
    }
    forall a, b | WholeRun(text, a, b) ensures s[a..b] == Lower(text[a..b]) {
      LowerSlice(text, a, b);
    }
  }

  /** Case does not matter: tokenizing a lower-cased text gives the same terms. */
  lemma TokenizeIgnoresCase(text: string)
    ensures Tokenize(Lower(text)) == Tokenize(text)
  {
    LowerIdempotent(text);
  }

  /** The position of a token in its text. */
  lemma TokenWitness(text: string, w: string) returns (x: int, y: int)
    requires w in Tokenize(text)
    ensures WholeRun(text, x, y) && w == Lower(text[x..y])
  {
    TokenizeIsWholeRuns(text);
    x, y :| WholeRun(text, x, y) && w == Lower(text[x..y]);
  }

  /** Every whole letter run longer than two is a token. */
  lemma RunIsToken(text: string, x: int, y: int, w: string)
    requires WholeRun(text, x, y) && w == Lower(text[x..y]) && |w| > 2
    ensures w in Tokenize(text)
  {
    TokenizeIsWholeRuns(text);
  }

  /** A whole run of a + " " + b lies in a or in b, never across the space: u..v is where it lies there. */
  lemma SplitRun(a: string, b: string, x: int, y: int) returns (inA: bool, u: int, v: int)
    requires WholeRun(a + " " + b, x, y)
    ensures inA ==> WholeRun(a, u, v) && (a + " " + b)[x..y] == a[u..v]
    ensures !inA ==> WholeRun(b, u, v) && (a + " " + b)[x..y] == b[u..v]
  {
    var s := a + " " + b;
    var o := |a| + 1;
    inA := y <= |a|;
    if inA {
      u, v := x, y;
      forall k | x <= k < y ensures IsLetter(a[k]) {
        assert s[k] == a[k];
      }
    } else {
      assert !IsLetter(s[|a|]);
      assert x > |a|;
      u, v := x - o, y - o;
      forall k | u <= k < v ensures IsLetter(b[k]) {
        assert s[k + o] == b[k];
      }
      assert |s[x..y]| == |b[u..v]|;
      forall k | 0 <= k < y - x ensures s[x..y][k] == b[u..v][k] {
        assert s[x + k] == b[u + k];
      }
      assert s[x..y] == b[u..v];
    }
  }

  /** A whole run of a stays one at the same place in a + " " + b. */
  lemma LiftLeftRun(a: string, b: string, x: int, y: int)
    requires WholeRun(a, x, y)
    ensures WholeRun(a + " " + b, x, y) && (a + " " + b)[x..y] == a[x..y]
  {
  }

  /** A whole run of b stays one in a + " " + b, at u..v, shifted past a and the space. */
  lemma LiftRightRun(a: string, b: string, x: int, y: int) returns (u: int, v: int)
    requires WholeRun(b, x, y)
    ensures WholeRun(a + " " + b, u, v) && (a + " " + b)[u..v] == b[x..y]
  {
    var s := a + " " + b;
    var o := |a| + 1;
    u, v := x + o, y + o;
    forall k | u <= k < v ensures IsLetter(s[k]) {
      assert s[k] == b[k - o];
    }
    assert u > 0 ==> s[u - 1] == if x == 0 then ' ' else b[x - 1];
    assert v < |s| ==> s[v] == b[y];
    assert s[u..v] == b[x..y];
  }

  /** A token of the joined text is a token of one of the halves. */
  lemma TokensOfJoinedSplit(a: string, b: string, w: string)
    requires w in Tokenize(a + " " + b)
    ensures w in Tokenize(a) || w in Tokenize(b)
  {
    var x, y := TokenWitness(a + " " + b, w);
    var inA, u, v := SplitRun(a, b, x, y);
    RunIsToken(if inA then a else b, u, v, w);
  }

  /** A token of the left half is a token of the joined text. */
  lemma LeftTokenJoins(a: string, b: string, w: string)
    requires w in Tokenize(a)
    ensures w in Tokenize(a + " " + b)
  {
    var x, y := TokenWitness(a, w);
    LiftLeftRun(a, b, x, y);
    RunIsToken(a + " " + b, x, y, w);
  }

  /** A token of the right half is a token of the joined text. */
  lemma RightTokenJoins(a: string, b: string, w: string)
    requires w in Tokenize(b)
    ensures w in Tokenize(a + " " + b)
  {
    var x, y := TokenWitness(b, w);
    var u, v := LiftRightRun(a, b, x, y);
    RunIsToken(a + " " + b, u, v, w);
  }

  /**
   * Joining two texts with a space neither creates nor destroys a token: the
   * terms of a + " " + b are the terms of a together with those of b.
   */
  lemma TokenizeSpaceSeparated(a: string, b: string)
    ensures Tokenize(a + " " + b) == Tokenize(a) + Tokenize(b)
  {
    forall w | w in Tokenize(a + " " + b) ensures w in Tokenize(a) + Tokenize(b) {
      TokensOfJoinedSplit(a, b, w);
    }
    forall w | w in Tokenize(a) ensures w in Tokenize(a + " " + b) {
      LeftTokenJoins(a, b, w);
    }
    forall w | w in Tokenize(b) ensures w in Tokenize(a + " " + b) {
      RightTokenJoins(a, b, w);
    }
  }

  /** A letter run glued to a digit or an underscore is not a token. */
  lemma GluedRunsAreNotTokens(s: string, t: string)
    requires s == "abc123" && t == "word_1"
    ensures Tokenize(s) == {}
    ensures Tokenize(t) == {}
  {
    assert IsWordChar(s[0]) && IsWordChar(s[1]) && IsWordChar(s[2]);
    assert IsWordChar(s[3]) && IsWordChar(s[4]) && IsWordChar(s[5]);
    NoLetterOnlyRun(s);
    assert IsWordChar(t[0]) && IsWordChar(t[1]) && IsWordChar(t[2]);
    assert IsWordChar(t[3]) && IsWordChar(t[4]) && IsWordChar(t[5]);
    NoLetterOnlyRun(t);
  }

  /** A text made of word characters only, ending in a non-letter, has no tokens. */
  lemma NoLetterOnlyRun(text: string)
    requires text != [] && !IsLetter(text[|text| - 1])
    requires forall k :: 0 <= k < |text| ==> IsWordChar(text[k])
    ensures Tokenize(text) == {}
  {
    TokenizeIsWholeRuns(text);
    forall a, b ensures !WholeRun(text, a, b) {
      if 0 <= a < b <= |text| && (b == |text| || !IsWordChar(text[b])) {
        assert b == |text|;
        assert !IsLetter(text[b - 1]);
      }
    }
  }
}
