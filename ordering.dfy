/**
 * Python's ordering of str values (lexicographic by code point) and
 * sorted() of a set of strings, used where the source returns or writes
 * its ids in sorted order.
 */
module Ordering {

  /** a < b on Python strings. */
  predicate Less(a: string, b: string)
    decreases |a|
  {
    if a == [] then b != []
    else if b == [] then false
    else if a[0] != b[0] then a[0] < b[0]
    else Less(a[1..], b[1..])
  }

  lemma {:induction false} LessIrreflexive(a: string)
    ensures !Less(a, a)
    decreases |a|
  {
    if a != [] {
      LessIrreflexive(a[1..]);
    }
  }

  lemma {:induction false} LessAsymmetric(a: string, b: string)
    requires Less(a, b)
    ensures !Less(b, a)
    decreases |a|
  {
    if a != [] && b != [] && a[0] == b[0] {
      LessAsymmetric(a[1..], b[1..]);
    }
  }

  lemma {:induction false} LessTransitive(a: string, b: string, c: string)
    requires Less(a, b) && Less(b, c)
    ensures Less(a, c)
    decreases |a|
  {
    if a != [] && a[0] == b[0] && b[0] == c[0] {
      LessTransitive(a[1..], b[1..], c[1..]);
    }
  }

  lemma {:induction false} LessTotal(a: string, b: string)
    ensures a == b || Less(a, b) || Less(b, a)
    decreases |a|
  {
    if a != [] && b != [] && a[0] == b[0] {
      LessTotal(a[1..], b[1..]);
      if a[1..] == b[1..] {
        assert a == [a[0]] + a[1..] && b == [b[0]] + b[1..];
      }
    }
  }

  predicate StrictlySorted(xs: seq<string>)
  {
    forall i, j :: 0 <= i < j < |xs| ==> Less(xs[i], xs[j])
  }

  /** A finite non-empty set of strings has a least element. */
  lemma {:induction false} Least(s: set<string>) returns (m: string)
    requires s != {}
    ensures m in s && forall x | x in s && x != m :: Less(m, x)
    decreases |s|
  {
    var y :| y in s;
    var rest := s - {y};
    if rest == {} {
      assert s == {y};
      m := y;
    } else {
      var m' := Least(rest);
      LessTotal(m', y);
      if Less(y, m') {
        m := y;
        forall x | x in s && x != y ensures Less(y, x) {
          if x != m' {
            LessTransitive(y, m', x);
          }
        }
      } else {
        m := m';
      }
    }
  }

  /** sorted(s): the elements of s in ascending order, each once. */
  ghost function SortedElems(s: set<string>): (r: seq<string>)
    ensures StrictlySorted(r)
    ensures forall x :: x in r <==> x in s
    ensures |r| == |s|
    decreases |s|
  {
    if s == {} then []
    else
      var m := LeastOf(s);
      var rest := SortedElems(s - {m});
      assert forall x | x in rest :: x in s - {m};
      assert forall j :: 0 <= j < |rest| ==> rest[j] in rest;
      [m] + rest
  }

  /** The least element of a non-empty set. */
  ghost function LeastOf(s: set<string>): (m: string)
    requires s != {}
    ensures m in s && forall x | x in s && x != m :: Less(m, x)
  {
    LeastExists(s);
    var m :| m in s && forall x | x in s && x != m :: Less(m, x);
    m
  }

  lemma LeastExists(s: set<string>)
    requires s != {}
    ensures exists m :: m in s && forall x | x in s && x != m :: Less(m, x)
  {
    var m := Least(s);
  }

  /** A set has only one ascending list without repetitions. */
  lemma {:induction false} SortedUnique(xs: seq<string>, ys: seq<string>)
    requires StrictlySorted(xs) && StrictlySorted(ys)
    requires forall x :: x in xs <==> x in ys
    ensures xs == ys
    decreases |xs|
  {
    if xs != [] {
      assert xs[0] in xs;
    }
    if ys != [] {
      assert ys[0] in ys;
    }
    if xs != [] && ys != [] {
      if xs[0] != ys[0] {
        var k :| 0 <= k < |xs| && xs[k] == ys[0];
        var l :| 0 <= l < |ys| && ys[l] == xs[0];
        LessAsymmetric(xs[0], ys[0]);
        assert false;
      }
      assert xs == [xs[0]] + xs[1..] && ys == [ys[0]] + ys[1..];
      LessIrreflexive(xs[0]);
      forall x ensures x in xs[1..] <==> x in ys[1..] {
        if x in xs[1..] {
          var k :| 1 <= k < |xs| && xs[k] == x;
          assert Less(xs[0], xs[k]);
          assert x != xs[0] && x in ys;
        }
        if x in ys[1..] {
          var k :| 1 <= k < |ys| && ys[k] == x;
          assert Less(ys[0], ys[k]);
          assert x != ys[0] && x in xs;
        }
      }
      SortedUnique(xs[1..], ys[1..]);
    }
  }

  /** sorted() of a set: insertion of each element in turn into an ascending list. */
  method SortStrings(s: set<string>) returns (r: seq<string>)
    ensures r == SortedElems(s)
  {
    r := [];
    var rest := s;
    while rest != {}
      invariant rest <= s
      invariant StrictlySorted(r)
      invariant forall x :: x in r <==> x in s && x !in rest
      decreases rest
    {
      var x :| x in rest;
      var i := 0;
      while i < |r| && Less(r[i], x)
        invariant 0 <= i <= |r|
        invariant forall k :: 0 <= k < i ==> Less(r[k], x)
      {
        i := i + 1;
      }
      if i < |r| {
        LessTotal(r[i], x);
        forall k | i < k < |r| ensures Less(x, r[k]) {
          LessTransitive(x, r[i], r[k]);
        }
      }
      r := r[..i] + [x] + r[i..];
      rest := rest - {x};
    }
    SortedUnique(r, SortedElems(s));
  }
}
