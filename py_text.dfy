/**
 * The parts of Python's str and os.path that the comparison and flattening scripts rely on:
 * find, split with and without a limit, rsplit on one character, strip, and join, basename
 * and splitext on paths separated by '/'.
 */
module PyText {
  import opened Wrappers
  import opened Strings
  import Paths

  /** sub occurs at i and at no earlier position. */
  predicate FirstAt(s: string, sub: string, i: int)
  {
    OccursAt(s, sub, i) && forall j :: 0 <= j < i ==> !OccursAt(s, sub, j)
  }

  /** There is at most one first occurrence. */
  lemma FirstAtUnique(s: string, sub: string, i: int, j: int)
    requires FirstAt(s, sub, i) && FirstAt(s, sub, j)
    ensures i == j
  {
  }

  /** The first occurrence of sub at or after k. */
  function FindFrom(s: string, sub: string, k: nat): (r: Option<nat>)
    ensures r.Some? ==> k <= r.value && OccursAt(s, sub, r.value)
    ensures forall j :: k <= j && (r.None? || j < r.value) ==> !OccursAt(s, sub, j)
    decreases |s| - k
  {
    if k + |sub| > |s| then None
    else if s[k..k + |sub|] == sub then Some(k)
    else FindFrom(s, sub, k + 1)
  }

  /** str.find: the first position at which sub occurs. */
  function Find(s: string, sub: string): (r: Option<nat>)
    ensures r.Some? ==> FirstAt(s, sub, r.value)
    ensures r.None? <==> !Contains(s, sub)
  {
    FindFrom(s, sub, 0)
  }

  /** Find returns the first occurrence wherever there is one. */
  lemma FindFirstAt(s: string, sub: string, i: nat)
    requires FirstAt(s, sub, i)
    ensures Find(s, sub) == Some(i)
  {
    assert Contains(s, sub);
  }

  /** A first occurrence that ends inside p is still the first one once text follows p. */
  lemma FirstAtExtended(p: string, q: string, sub: string, i: nat)
    requires FirstAt(p, sub, i)
    ensures FirstAt(p + q, sub, i)
  {
    var s := p + q;
    forall j | 0 <= j <= i
      ensures OccursAt(s, sub, j) <==> OccursAt(p, sub, j)
    {
      assert j + |sub| <= |p|;
      assert s[j..j + |sub|] == p[j..j + |sub|];
    }
  }

  /** `a, b = s.split(sep, 1)`: None when sep does not occur, where the unpacking raises
    * ValueError. */
  function SplitOnce(s: string, sep: string): (r: Option<(string, string)>)
    requires sep != []
    ensures r.Some? <==> Contains(s, sep)
    ensures r.Some? ==> s == r.value.0 + sep + r.value.1 && FirstAt(s, sep, |r.value.0|)
  {
    match Find(s, sep)
    case None => None
    case Some(i) =>
      assert s == s[..i] + s[i..i + |sep|] + s[i + |sep|..];
      Some((s[..i], s[i + |sep|..]))
  }

  /** s.split(sep): the pieces between the occurrences of sep, taken from left to right. */
  function Split(s: string, sep: string): (r: seq<string>)
    requires sep != []
    ensures |r| >= 1
    ensures |r| == 1 <==> !Contains(s, sep)
    decreases |s|
  {
    match SplitOnce(s, sep)
    case None => [s]
    case Some((head, tail)) => [head] + Split(tail, sep)
  }

  /** sep.join(parts) */
  function Join(parts: seq<string>, sep: string): (r: string)
    requires parts != []
  {
    if |parts| == 1 then parts[0] else parts[0] + sep + Join(parts[1..], sep)
  }

  /** Joining the pieces of a split gives the string back. */
  lemma {:induction false} JoinSplit(s: string, sep: string)
    requires sep != []
    ensures Join(Split(s, sep), sep) == s
    decreases |s|
  {
    match SplitOnce(s, sep)
    case None =>
    case Some((head, tail)) =>
      JoinSplit(tail, sep);
      assert Split(s, sep)[1..] == Split(tail, sep);
  }

  /** Splitting a joined list gives the list back, when each piece but the last holds no
    * occurrence of sep reaching into the separator after it, and the last holds none. */
  lemma {:induction false} SplitJoin(parts: seq<string>, sep: string)
    requires sep != [] && parts != []
    requires forall i :: 0 <= i < |parts| - 1 ==> FirstAt(parts[i] + sep, sep, |parts[i]|)
    requires !Contains(parts[|parts| - 1], sep)
    ensures Split(Join(parts, sep), sep) == parts
  {
    if |parts| > 1 {
      var rest := Join(parts[1..], sep);
      var s := parts[0] + sep + rest;
      FirstAtExtended(parts[0] + sep, rest, sep, |parts[0]|);
      assert s == (parts[0] + sep) + rest;
      FindFirstAt(s, sep, |parts[0]|);
      assert s[|parts[0]| + |sep|..] == rest;
      SplitJoin(parts[1..], sep);
    }
  }

  /** The text before the first separator holds no separator. */
  lemma HeadHoldsNoSeparator(s: string, sep: string)
    requires sep != [] && SplitOnce(s, sep).Some?
    ensures !Contains(SplitOnce(s, sep).value.0, sep)
  {
    var (head, tail) := SplitOnce(s, sep).value;
    assert s == head + sep + tail;
    forall j | 0 <= j <= |head| - |sep|
      ensures !OccursAt(head, sep, j)
    {
      assert s[j..j + |sep|] == head[j..j + |sep|];
      assert j < |head| && !OccursAt(s, sep, j);
    }
  }

  /** One step of split: the text before the first separator, then the pieces of the rest. */
  lemma SplitStep(s: string, sep: string)
    requires sep != [] && SplitOnce(s, sep).Some?
    ensures Split(s, sep) == [SplitOnce(s, sep).value.0] + Split(SplitOnce(s, sep).value.1, sep)
  {
  }

  /** A piece of a split holds no occurrence of the separator. */
  lemma {:induction false} SplitPieces(s: string, sep: string, i: nat)
    requires sep != [] && i < |Split(s, sep)|
    ensures !Contains(Split(s, sep)[i], sep)
    decreases |s|
  {
    var r := SplitOnce(s, sep);
    if r.Some? {
      SplitStep(s, sep);
      if i == 0 {
        HeadHoldsNoSeparator(s, sep);
      } else {
        SplitPieces(r.value.1, sep, i - 1);
      }
    }
  }

  /** sep occurs, and does not occur again after its first occurrence. */
  predicate OccursOnce(s: string, sep: string)
    requires sep != []
  {
    SplitOnce(s, sep).Some? && !Contains(SplitOnce(s, sep).value.1, sep)
  }

  /** A split gives two pieces exactly when the separator occurs once; the pieces are then
    * the text before and after it. */
  lemma SplitInTwo(s: string, sep: string)
    requires sep != []
    ensures |Split(s, sep)| == 2 <==> OccursOnce(s, sep)
    ensures OccursOnce(s, sep) ==> Split(s, sep) == [SplitOnce(s, sep).value.0, SplitOnce(s, sep).value.1]
  {
    if SplitOnce(s, sep).Some? {
      SplitStep(s, sep);
    }
  }

  /** A piece without the character c is followed by its first c, and holds none. */
  lemma CharFree(piece: string, c: char)
    requires c !in piece
    ensures FirstAt(piece + [c], [c], |piece|) && !Contains(piece, [c])
  {
    var s := piece + [c];
    assert s[|piece|..|piece| + 1] == [c];
    forall j | 0 <= j < |piece|
      ensures !OccursAt(s, [c], j) && !OccursAt(piece, [c], j)
    {
      assert s[j] == piece[j];
    }
  }

  /** The base name of p is the unique suffix without separators that is all of p or
    * follows a separator. */
  lemma BaseNameUnique(p: string, r: string)
    requires Strings.EndsWith(p, r) && Paths.Separator !in r
    requires r != p ==> |r| < |p| && p[|p| - |r| - 1] == Paths.Separator
    ensures BaseName(p) == r
  {
    var b := BaseName(p);
    assert b == p[|p| - |b|..] && r == p[|p| - |r|..];
  }

  /** Text without separators appended to a path lengthens its base name. */
  lemma BaseNameOfAppend(p: string, q: string)
    requires Paths.Separator !in q
    ensures BaseName(p + q) == BaseName(p) + q
  {
    var b := BaseName(p);
    var s := p + q;
    assert s[|s| - |b + q|..] == b + q by {
      assert p[|p| - |b|..] == b;
    }
    if b + q != s {
      assert b != p;
      assert s[|s| - |b + q| - 1] == p[|p| - |b| - 1];
    }
    BaseNameUnique(s, b + q);
  }

  /** `a, b = s.rsplit(c, 1)`: None when c does not occur. */
  function RSplitOnce(s: string, c: char): (r: Option<(string, string)>)
    ensures r.Some? <==> c in s
    ensures r.Some? ==> s == r.value.0 + [c] + r.value.1 && c !in r.value.1
  {
    match Paths.LastIndexOf(s, c)
    case None => None
    case Some(k) =>
      assert s == s[..k] + [c] + s[k + 1..];
      Some((s[..k], s[k + 1..]))
  }

  /** str.isspace() for one character: the ASCII controls \t..\r, the separators
    * \x1c..\x1f, the space and the Unicode white space characters. */
  predicate IsSpace(c: char)
  {
    var n := c as int;
    9 <= n <= 13 || 28 <= n <= 32 || n == 0x85 || n == 0xA0 || n == 0x1680
    || 0x2000 <= n <= 0x200A || n == 0x2028 || n == 0x2029 || n == 0x202F || n == 0x205F
    || n == 0x3000
  }

  /** The number of white space characters s starts with. */
  function LeadingSpace(s: string): (n: nat)
    ensures n <= |s|
    ensures forall j :: 0 <= j < n ==> IsSpace(s[j])
    ensures n < |s| ==> !IsSpace(s[n])
  {
    if s == [] || !IsSpace(s[0]) then 0
    else
      var n := 1 + LeadingSpace(s[1..]);
      assert forall j :: 1 <= j < |s| ==> s[j] == s[1..][j - 1];
      n
  }

  /** The number of white space characters s ends with. */
  function TrailingSpace(s: string): (n: nat)
    ensures n <= |s|
    ensures forall j :: |s| - n <= j < |s| ==> IsSpace(s[j])
    ensures n < |s| ==> !IsSpace(s[|s| - n - 1])
  {
    if s == [] || !IsSpace(s[|s| - 1]) then 0
    else 1 + TrailingSpace(s[..|s| - 1])
  }

  /** str.strip(): the part of s between its leading and its trailing white space. */
  function Strip(s: string): (r: string)
    ensures var n := LeadingSpace(s); n + |r| <= |s| && r == s[n..n + |r|]
  {
    var n := LeadingSpace(s);
    var rest := s[n..];
    rest[..|rest| - TrailingSpace(rest)]
  }

  /** What strip removes is white space, and what it keeps starts and ends with something
    * else; it keeps nothing exactly when s is all white space. */
  lemma StripBounds(s: string)
    ensures var r := Strip(s); var n := LeadingSpace(s);
      && (forall j :: n + |r| <= j < |s| ==> IsSpace(s[j]))
      && (r != [] ==> !IsSpace(r[0]) && !IsSpace(r[|r| - 1]))
      && (r == [] <==> forall j :: 0 <= j < |s| ==> IsSpace(s[j]))
  {
    var n := LeadingSpace(s);
    var rest := s[n..];
    var t := TrailingSpace(rest);
    var r := Strip(s);
    assert r == rest[..|rest| - t];
    forall j | n + |r| <= j < |s|
      ensures IsSpace(s[j])
    {
      assert s[j] == rest[j - n];
    }
    if n < |s| {
      assert rest[0] == s[n];
      assert t < |rest|;
      assert r[0] == s[n];
      assert r[|r| - 1] == rest[|rest| - t - 1];
    }
  }

  /** Stripping twice strips no more than once. */
  lemma StripIdempotent(s: string)
    ensures Strip(Strip(s)) == Strip(s)
  {
    var r := Strip(s);
    StripBounds(s);
    if r != [] {
      assert LeadingSpace(r) == 0;
      assert TrailingSpace(r) == 0;
    }
  }

  /** os.path.join(a, b): b itself when it is absolute; otherwise one separator between a and
    * b unless a is empty or already ends with one. */
  function PathJoin(a: string, b: string): (r: string)
    ensures Strings.EndsWith(r, b)
  {
    if b != [] && b[0] == Paths.Separator then b
    else if a == [] || a[|a| - 1] == Paths.Separator then a + b
    else a + [Paths.Separator] + b
  }

  /** os.path.basename: the text after the last separator. */
  function BaseName(p: string): (r: string)
    ensures Strings.EndsWith(p, r) && Paths.Separator !in r
    ensures r != p ==> |r| < |p| && p[|p| - |r| - 1] == Paths.Separator
  {
    match Paths.LastIndexOf(p, Paths.Separator)
    case None => p
    case Some(k) => p[k + 1..]
  }

  /** Joining a name without separators to a directory gives a path whose base name is the
    * name. */
  lemma BaseNameOfJoin(a: string, b: string)
    requires Paths.Separator !in b
    ensures BaseName(PathJoin(a, b)) == b
  {
    var r := PathJoin(a, b);
    if b == [] {
      assert r == [] || r[|r| - 1] == Paths.Separator;
    } else if a == [] {
      assert r == b;
    } else {
      assert r[|r| - |b| - 1] == Paths.Separator;
      assert r[|r| - |b|..] == b;
    }
  }

  /** Some character other than a dot lies in s[from..to]. */
  predicate NonDotIn(s: string, from: int, to: int)
  {
    exists j :: from <= j < to && 0 <= j < |s| && s[j] != '.'
  }

  /** The splitting of a base name: the extension runs from its last dot, unless only dots
    * precede that dot; then there is none. */
  function SplitName(name: string): (r: (string, string))
    ensures r.0 + r.1 == name
  {
    match Paths.LastIndexOf(name, '.')
    case None => (name, "")
    case Some(dot) =>
      if NonDotIn(name, 0, dot) then
        assert name[..dot] + name[dot..] == name;
        (name[..dot], name[dot..])
      else (name, "")
  }

  /** os.path.splitext: (root, ext), where ext is the extension of the base name. */
  function SplitExt(p: string): (r: (string, string))
    ensures r.0 + r.1 == p
  {
    var name := BaseName(p);
    var (root, ext) := SplitName(name);
    assert p == p[..|p| - |name|] + name;
    (p[..|p| - |name|] + root, ext)
  }

  /** An extension is one dot followed by no other dot, after a root holding something
    * other than dots; without an extension, no dot follows anything other than a dot. */
  lemma SplitNameMeaning(name: string)
    ensures var (root, ext) := SplitName(name);
      && (ext != [] ==> ext[0] == '.' && '.' !in ext[1..] && NonDotIn(root, 0, |root|))
      && (ext == [] ==> forall i, j :: 0 <= i < j < |name| && name[i] != '.' ==> name[j] != '.')
  {
    var (root, ext) := SplitName(name);
    match Paths.LastIndexOf(name, '.')
    case None =>
    case Some(dot) =>
      if NonDotIn(name, 0, dot) {
        assert forall j :: 0 <= j < |ext| ==> ext[j] == name[dot + j];
        var k :| 0 <= k < dot && name[k] != '.';
        assert root[k] == name[k];
      }
  }
}
