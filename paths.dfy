/**
 * Filesystem paths as sequences of components, with the parts of boost::filesystem::path
 * the file selection uses: the native string, parent path, file name, stem and extension.
 */
module Paths {
  import opened Wrappers
  import Strings

  /** The components of a path; none of them contains the separator. */
  type Path = seq<string>

  const Separator: char := '/'

  /** An (input, output) pair of a work list. */
  datatype PathPair = PathPair(input: Path, output: Path)

  predicate ValidPath(p: Path)
  {
    forall i :: 0 <= i < |p| ==> Separator !in p[i]
  }

  /** path::native(): the components joined by the separator. */
  function Native(p: Path): string
  {
    if p == [] then ""
    else if |p| == 1 then p[0]
    else Native(p[..|p| - 1]) + [Separator] + p[|p| - 1]
  }

  /** The native string ends with the file name, after a separator when there is a parent. */
  lemma NativeEnds(p: Path)
    ensures p != [] ==> Strings.EndsWith(Native(p), p[|p| - 1])
    ensures |p| > 1 ==> |Native(p)| > |p[|p| - 1]| && Native(p)[|Native(p)| - |p[|p| - 1]| - 1] == Separator
  {
    if |p| > 1 {
      var r := Native(p);
      var last := p[|p| - 1];
      assert r[|r| - |last|..] == last;
    }
  }

  /** path(s): the components of a string, split at every separator. */
  function FromString(s: string): (r: Path)
    ensures r != [] && ValidPath(r)
    decreases |s|
  {
    match LastIndexOf(s, Separator)
    case None => [s]
    case Some(k) =>
      var tail := s[k + 1..];
      assert forall j :: 0 <= j < |tail| ==> tail[j] == s[k + 1 + j];
      FromString(s[..k]) + [tail]
  }

  /** Joining the components of a string gives the string back. */
  lemma {:induction false} NativeFromString(s: string)
    ensures Native(FromString(s)) == s
    decreases |s|
  {
    match LastIndexOf(s, Separator)
    case None =>
    case Some(k) =>
      var init := FromString(s[..k]);
      var p := init + [s[k + 1..]];
      assert p[..|p| - 1] == init;
      NativeFromString(s[..k]);
      assert s == s[..k] + [Separator] + s[k + 1..];
  }

  /** A path whose components hold no separator is recovered from its native string. */
  lemma {:induction false} FromStringNative(p: Path)
    requires ValidPath(p) && p != []
    ensures FromString(Native(p)) == p
    decreases |p|
  {
    var last := p[|p| - 1];
    assert Separator !in last;
    if |p| == 1 {
      assert LastIndexOf(last, Separator) == None;
    } else {
      var init := p[..|p| - 1];
      assert ValidPath(init) by {
        forall i | 0 <= i < |init| ensures Separator !in init[i] {
          assert init[i] == p[i];
        }
      }
      assert p[..|p| - 1] == init;
      assert Native(p) == Native(init) + [Separator] + last;
      FromStringNative(init);
      FromStringJoin(Native(init), last);
      assert init + [last] == p;
    }
  }

  lemma FromStringJoin(n: string, last: string)
    requires Separator !in last
    ensures FromString(n + [Separator] + last) == FromString(n) + [last]
  {
    var s := n + [Separator] + last;
    LastSeparatorOfJoin(n, last);
    assert s[..|n|] == n && s[|n| + 1..] == last;
  }

  lemma {:induction false} LastSeparatorOfJoin(n: string, last: string)
    requires Separator !in last
    ensures LastIndexOf(n + [Separator] + last, Separator) == Some(|n|)
    decreases |last|
  {
    var s := n + [Separator] + last;
    if last != [] {
      var init := last[..|last| - 1];
      assert last[|last| - 1] in last;
      assert s[..|s| - 1] == n + [Separator] + init;
      assert forall c :: c in init ==> c in last;
      LastSeparatorOfJoin(n, init);
    }
  }

  function FileName(p: Path): (r: string)
    ensures p != [] ==> r == p[|p| - 1]
  {
    if p == [] then "" else p[|p| - 1]
  }

  function ParentPath(p: Path): (r: Path)
    ensures p != [] ==> r + [FileName(p)] == p
    ensures p == [] ==> r == []
  {
    if p == [] then [] else p[..|p| - 1]
  }

  /** The position of the last occurrence of c in s. */
  function LastIndexOf(s: string, c: char): (r: Option<nat>)
    ensures r.Some? ==> r.value < |s| && s[r.value] == c && forall j :: r.value < j < |s| ==> s[j] != c
    ensures r.None? ==> forall j :: 0 <= j < |s| ==> s[j] != c
  {
    if s == [] then None
    else if s[|s| - 1] == c then Some(|s| - 1)
    else LastIndexOf(s[..|s| - 1], c)
  }

  /** path::extension(): the file name from its last dot on; "." and ".." have none. */
  function Extension(p: Path): (r: string)
    ensures r != [] ==> r[0] == '.' && Strings.EndsWith(FileName(p), r)
    ensures forall j :: 0 < j < |r| ==> r[j] != '.'
  {
    var name := FileName(p);
    if name == "." || name == ".." then ""
    else match LastIndexOf(name, '.')
      case None => ""
      case Some(i) => name[i..]
  }

  /** path::stem(): the file name without its extension. */
  function Stem(p: Path): (r: string)
    ensures r + Extension(p) == FileName(p)
  {
    var name := FileName(p);
    if name == "." || name == ".." then name
    else match LastIndexOf(name, '.')
      case None => name
      case Some(i) => name[..i]
  }

  predicate HasExtension(p: Path)
  {
    Extension(p) != []
  }

  /** path::replace_extension(ext) for an ext starting with '.'. */
  function ReplaceExtension(p: Path, ext: string): (r: Path)
    ensures ParentPath(r) == ParentPath(p) && FileName(r) == Stem(p) + ext
  {
    ParentPath(p) + [Stem(p) + ext]
  }

  /** The last four characters of the native path, or empty when the path has no extension
    * or is not longer than that (extension_view). */
  function ExtensionView(p: Path): (r: string)
    ensures r != [] ==> HasExtension(p) && |Native(p)| > 4 && r == Native(p)[|Native(p)| - 4..]
  {
    if !HasExtension(p) then ""
    else
      var native := Native(p);
      var offset := |native| - 4;
      if offset <= 0 then "" else native[offset..]
  }

  /** insensitive_equals: rhs is lower case, lhs is compared after ::tolower. */
  function InsensitiveEquals(lhs: string, rhs: string): (r: bool)
    ensures r <==> Strings.Lower(lhs) == rhs
  {
    |lhs| == |rhs| && forall i :: 0 <= i < |lhs| ==> Strings.LowerChar(lhs[i]) == rhs[i]
  }

  /** has_extension(path, extension) */
  predicate HasExtensionView(p: Path, extension: string)
  {
    InsensitiveEquals(ExtensionView(p), extension)
  }

  /** An extension the selection looks for: a dot and three lower-case letters. */
  predicate IsLowerExtension(ext: string)
  {
    |ext| == 4 && ext[0] == '.' && forall j :: 1 <= j < 4 ==> Strings.IsAsciiLower(ext[j])
  }

  const PngExtension: string := ".png"
  const DdsExtension: string := ".dds"
  const TxtExtension: string := ".txt"

  lemma ExtensionsAreLower()
    ensures IsLowerExtension(PngExtension) && IsLowerExtension(DdsExtension) && IsLowerExtension(TxtExtension)
  {
  }

  /** has_extension holds exactly when the native path is longer than the extension and the
    * path's own extension equals it up to case: the last four characters of the native path
    * never straddle a separator. */
  lemma HasExtensionViewIff(p: Path, ext: string)
    requires ValidPath(p) && IsLowerExtension(ext)
    ensures HasExtensionView(p, ext) <==> |Native(p)| > 4 && Strings.Lower(Extension(p)) == ext
  {
    if |Native(p)| > 4 && Strings.Lower(Extension(p)) == ext {
      ExtensionIsViewed(p, ext);
    }
    if HasExtensionView(p, ext) {
      ViewedIsExtension(p, ext);
    }
  }

  lemma ExtensionIsViewed(p: Path, ext: string)
    requires IsLowerExtension(ext) && |Native(p)| > 4 && Strings.Lower(Extension(p)) == ext
    ensures HasExtensionView(p, ext)
  {
    var name := FileName(p);
    var native := Native(p);
    var e := Extension(p);
    assert |e| == 4 && Strings.EndsWith(name, e);
    assert p != [];
    assert native[|native| - 4..] == name[|name| - 4..];
  }

  lemma ViewedIsExtension(p: Path, ext: string)
    requires ValidPath(p) && IsLowerExtension(ext) && HasExtensionView(p, ext)
    ensures |Native(p)| > 4 && Strings.Lower(Extension(p)) == ext
  {
    ViewInName(p, ext);
    NameExtension(p, ext);
  }

  /** The four characters the view compares are the last four of the file name. */
  lemma ViewInName(p: Path, ext: string)
    requires ValidPath(p) && IsLowerExtension(ext) && HasExtensionView(p, ext)
    ensures p != [] && |Native(p)| > 4 && |FileName(p)| >= 4
    ensures Strings.Lower(FileName(p)[|FileName(p)| - 4..]) == ext
  {
    var v := ExtensionView(p);
    var native := Native(p);
    assert Strings.Lower(v) == ext;
    assert |native| > 4 && v == native[|native| - 4..] by {
      assert v != [];
    }
    assert p != [];
    NameHoldsView(p, ext);
    var name := FileName(p);
    assert v == name[|name| - 4..] by {
      assert Strings.EndsWith(native, name);
    }
  }

  /** A file name whose last four characters read as a lower-case extension has them as its
    * extension. */
  lemma NameExtension(p: Path, ext: string)
    requires p != [] && IsLowerExtension(ext) && |FileName(p)| >= 4
    requires Strings.Lower(FileName(p)[|FileName(p)| - 4..]) == ext
    ensures Extension(p) == FileName(p)[|FileName(p)| - 4..]
  {
    var name := FileName(p);
    LastFourIsExtension(name, ext);
    assert name != "." && name != "..";
  }

  /** The last four characters of a native path that read as a lower-case extension lie
    * inside its file name. */
  lemma NameHoldsView(p: Path, ext: string)
    requires ValidPath(p) && IsLowerExtension(ext) && p != []
    requires |Native(p)| > 4 && Strings.Lower(Native(p)[|Native(p)| - 4..]) == ext
    ensures |FileName(p)| >= 4
  {
    var name := FileName(p);
    var native := Native(p);
    var v := native[|native| - 4..];
    if |p| > 1 && |name| < 4 {
      NoSeparatorInExtension(v, ext, 3 - |name|);
      assert false;
    }
  }

  lemma NoSeparatorInExtension(v: string, ext: string, k: nat)
    requires IsLowerExtension(ext) && Strings.Lower(v) == ext && k < 4
    ensures v[k] != Separator
  {
    assert Strings.LowerChar(v[k]) == ext[k];
  }

  lemma LastFourIsExtension(name: string, ext: string)
    requires IsLowerExtension(ext) && |name| >= 4 && Strings.Lower(name[|name| - 4..]) == ext
    ensures LastIndexOf(name, '.') == Some(|name| - 4)
  {
    var v := name[|name| - 4..];
    assert Strings.LowerChar(v[0]) == '.';
    forall j | |name| - 4 < j < |name| ensures name[j] != '.' {
      assert Strings.LowerChar(v[j - (|name| - 4)]) == ext[j - (|name| - 4)];
    }
  }
}
