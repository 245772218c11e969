/**
 * The ordering std::sort uses on the work list: std::string comparison on path components,
 * lexicographic comparison of paths by component (boost::filesystem::path::compare), and
 * lexicographic comparison of (input, output) pairs.
 */
module PathOrder {
  import opened Paths

  /** std::string operator< */
  predicate LessString(a: string, b: string)
    decreases |a|
  {
    if a == [] then b != []
    else if b == [] then false
    else if a[0] != b[0] then a[0] < b[0]
    else LessString(a[1..], b[1..])
  }

  /** path operator< */
  predicate LessPath(a: Path, b: Path)
    decreases |a|
  {
    if a == [] then b != []
    else if b == [] then false
    else if a[0] != b[0] then LessString(a[0], b[0])
    else LessPath(a[1..], b[1..])
  }

  /** std::pair operator< */
  predicate LessPair(a: PathPair, b: PathPair)
  {
    LessPath(a.input, b.input) || (a.input == b.input && LessPath(a.output, b.output))
  }

  lemma {:induction false} LessStringIrreflexive(a: string)
    ensures !LessString(a, a)
    decreases |a|
  {
    if a != [] {
      LessStringIrreflexive(a[1..]);
    }
  }

  lemma {:induction false} LessStringTransitive(a: string, b: string, c: string)
    requires LessString(a, b) && LessString(b, c)
    ensures LessString(a, c)
    decreases |a|
  {
    if a != [] && a[0] == b[0] && b[0] == c[0] {
      LessStringTransitive(a[1..], b[1..], c[1..]);
    }
  }

  lemma {:induction false} LessStringTotal(a: string, b: string)
    ensures LessString(a, b) || a == b || LessString(b, a)
    decreases |a|
  {
    if a != [] && b != [] && a[0] == b[0] {
      LessStringTotal(a[1..], b[1..]);
      if a[1..] == b[1..] {
        assert a == [a[0]] + a[1..] && b == [b[0]] + b[1..];
      }
    }
  }

  lemma {:induction false} LessPathIrreflexive(a: Path)
    ensures !LessPath(a, a)
    decreases |a|
  {
    if a != [] {
      LessPathIrreflexive(a[1..]);
    }
  }

  lemma {:induction false} LessPathTransitive(a: Path, b: Path, c: Path)
    requires LessPath(a, b) && LessPath(b, c)
    ensures LessPath(a, c)
    decreases |a|
  {
    if a != [] && b != [] && c != [] {
      if a[0] == b[0] && b[0] == c[0] {
        LessPathTransitive(a[1..], b[1..], c[1..]);
      } else if a[0] != b[0] && b[0] != c[0] {
        LessStringTransitive(a[0], b[0], c[0]);
        if a[0] == c[0] {
          LessStringIrreflexive(a[0]);
        }
      }
    }
  }

  lemma {:induction false} LessPathTotal(a: Path, b: Path)
    ensures LessPath(a, b) || a == b || LessPath(b, a)
    decreases |a|
  {
    if a != [] && b != [] {
      if a[0] == b[0] {
        LessPathTotal(a[1..], b[1..]);
        if a[1..] == b[1..] {
          assert a == [a[0]] + a[1..] && b == [b[0]] + b[1..];
        }
      } else {
        LessStringTotal(a[0], b[0]);
      }
    }
  }

  lemma LessPairIrreflexive(a: PathPair)
    ensures !LessPair(a, a)
  {
    LessPathIrreflexive(a.input);
    LessPathIrreflexive(a.output);
  }

  lemma LessPairTransitive(a: PathPair, b: PathPair, c: PathPair)
    requires LessPair(a, b) && LessPair(b, c)
    ensures LessPair(a, c)
  {
    if LessPath(a.input, b.input) && LessPath(b.input, c.input) {
      LessPathTransitive(a.input, b.input, c.input);
    } else if LessPath(a.output, b.output) && LessPath(b.output, c.output) && a.input == b.input == c.input {
      LessPathTransitive(a.output, b.output, c.output);
    }
  }

  lemma LessPairTotal(a: PathPair, b: PathPair)
    ensures LessPair(a, b) || a == b || LessPair(b, a)
  {
    LessPathTotal(a.input, b.input);
    LessPathTotal(a.output, b.output);
  }

  /** Ascending without duplicates: what std::sort followed by std::unique and erase leaves. */
  predicate StrictlySorted(s: seq<PathPair>)
  {
    forall i, j :: 0 <= i < j < |s| ==> LessPair(s[i], s[j])
  }

  /** A strictly sorted sequence is fixed by its elements, so the sorted, de-duplicated work
    * list does not depend on how it was computed. */
  lemma {:induction false} StrictlySortedUnique(a: seq<PathPair>, b: seq<PathPair>)
    requires StrictlySorted(a) && StrictlySorted(b)
    requires forall x :: x in a <==> x in b
    ensures a == b
    decreases |a|
  {
    SameElementsBothEmpty(a, b);
    if a != [] {
      assert a[0] in b;
      assert b[0] in a;
      if a[0] != b[0] {
        var i :| 0 <= i < |b| && b[i] == a[0];
        var j :| 0 <= j < |a| && a[j] == b[0];
        assert LessPair(b[0], a[0]) by { assert i > 0; }
        assert LessPair(a[0], b[0]) by { assert j > 0; }
        LessPairTransitive(a[0], b[0], a[0]);
        LessPairIrreflexive(a[0]);
      }
      TailIncluded(a, b);
      TailIncluded(b, a);
      StrictlySortedUnique(a[1..], b[1..]);
      assert a == [a[0]] + a[1..] && b == [b[0]] + b[1..];
    }
  }

  lemma SameElementsBothEmpty(a: seq<PathPair>, b: seq<PathPair>)
    requires forall x :: x in a <==> x in b
    ensures a == [] <==> b == []
  {
    if a != [] {
      assert a[0] in a;
    }
    if b != [] {
      assert b[0] in b;
    }
  }

  /** Below a common least element, two strictly sorted sequences with the same elements still
    * share their remaining elements. */
  lemma TailIncluded(a: seq<PathPair>, b: seq<PathPair>)
    requires StrictlySorted(a) && StrictlySorted(b)
    requires forall x :: x in a <==> x in b
    requires a != [] && b != [] && a[0] == b[0]
    ensures forall x :: x in a[1..] ==> x in b[1..]
  {
    forall x | x in a[1..] ensures x in b[1..] {
      var k :| 1 <= k < |a| && a[k] == x;
      assert LessPair(a[0], x);
      LessPairIrreflexive(x);
      assert x in b;
      var m :| 0 <= m < |b| && b[m] == x;
      assert b[1..][m - 1] == x;
    }
  }

  /** The first position whose element is not below x. */
  method LowerBound(s: seq<PathPair>, x: PathPair) returns (j: nat)
    requires StrictlySorted(s)
    ensures j <= |s|
    ensures forall i :: 0 <= i < j ==> LessPair(s[i], x)
    ensures j < |s| ==> !LessPair(s[j], x)
  {
    j := 0;
    while j < |s| && LessPair(s[j], x)
      invariant j <= |s|
      invariant forall i :: 0 <= i < j ==> LessPair(s[i], x)
    {
      j := j + 1;
    }
  }

  /** Adds x to a strictly sorted sequence unless it is already there. */
  method InsertUnique(s: seq<PathPair>, x: PathPair) returns (r: seq<PathPair>)
    requires StrictlySorted(s)
    ensures StrictlySorted(r)
    ensures forall y :: y in r <==> y in s || y == x
  {
    var j := LowerBound(s, x);
    if j < |s| && s[j] == x {
      return s;
    }
    r := s[..j] + [x] + s[j..];
    forall i | j < i < |s| ensures LessPair(x, s[i]) {
      if j < |s| {
        LessPairTotal(s[j], x);
        LessPairTransitive(x, s[j], s[i]);
      }
    }
    if j < |s| {
      LessPairTotal(s[j], x);
    }
    assert forall y :: y in r <==> y in s[..j] || y == x || y in s[j..];
    assert s == s[..j] + s[j..];
  }

  /** std::sort and std::unique over the work list. */
  method SortUnique(paths: seq<PathPair>) returns (r: seq<PathPair>)
    ensures StrictlySorted(r)
    ensures forall y :: y in r <==> y in paths
  {
    r := [];
    var i := 0;
    while i < |paths|
      invariant 0 <= i <= |paths|
      invariant StrictlySorted(r)
      invariant forall y :: y in r <==> y in paths[..i]
    {
      r := InsertUnique(r, paths[i]);
      assert paths[..i + 1] == paths[..i] + [paths[i]];
      i := i + 1;
    }
    assert paths[..i] == paths;
  }
}
