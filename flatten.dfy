/**
 * The script that flattens a tree of PNG files into one directory: every PNG file found
 * below the input is copied into the output directory, under a new name when its own is
 * taken there. The walk of the input tree, the directory tests and the entries of the output
 * directory are parameters; a copy is the name it adds to the output directory.
 */
module Flatten {
  import opened Strings
  import opened PyText
  import opened Decimal
  import Paths
  import opened Wrappers

  /** validate_args: an input that is not a directory, then an output that exists without
    * being a directory; the empty text, which lets the script go on, exactly when neither. */
  function ValidateArgs(input: string, output: string, inputIsDirectory: bool, outputExists: bool,
                        outputIsDirectory: bool): (r: string)
    ensures r == "" <==> inputIsDirectory && (outputExists ==> outputIsDirectory)
    ensures !inputIsDirectory ==> r == "Input directory " + input + " is not valid"
    ensures inputIsDirectory && outputExists && !outputIsDirectory ==> r == output + " is not a directory"
  {
    if !inputIsDirectory then "Input directory " + input + " is not valid"
    else if outputExists && !outputIsDirectory then output + " is not a directory"
    else ""
  }

  // The filter.

  /** The extension os.path.splitext finds in the base name is ".png" in any case. */
  predicate KeepsFile(name: string)
  {
    Lower(SplitExt(BaseName(name)).1) == ".png"
  }

  /** Lower case keeps a character a dot exactly when it was one. */
  lemma LowerKeepsDots(s: string, k: nat)
    requires k < |s|
    ensures Lower(s)[k] == '.' <==> s[k] == '.'
  {
  }

  /** A name without separators is its own base name, so the filter looks at its
    * extension. */
  lemma KeepsPlainName(name: string)
    requires Paths.Separator !in name
    ensures KeepsFile(name) <==> Lower(SplitName(name).1) == ".png"
  {
    assert BaseName(name) == name;
    assert name[..0] == [];
  }

  /** A name ending in a dot and three other characters has its last dot there. */
  lemma LastDotOfFour(name: string)
    requires |name| >= 4
    requires var n := |name|;
      && name[n - 4] == '.' && name[n - 3] != '.' && name[n - 2] != '.' && name[n - 1] != '.'
    ensures Paths.LastIndexOf(name, '.') == Some(|name| - 4)
  {
    var n := |name|;
    var r := Paths.LastIndexOf(name, '.');
    assert r.Some? && name[r.value] == '.';
    assert r.value != n - 1 && r.value != n - 2 && r.value != n - 3;
  }

  /** The lower-case form of a name ends in the lower-case form of any suffix. */
  lemma LowerOfSuffix(root: string, ext: string)
    ensures Lower(root + ext)[|root|..] == Lower(ext)
  {
    LowerOfConcat(root, ext);
  }

  /** The extension of a kept name is its last four characters, after a root with something
    * other than dots. */
  lemma KeptNameEnds(name: string)
    requires Paths.Separator !in name && KeepsFile(name)
    ensures EndsWith(Lower(name), ".png") && NonDotIn(name, 0, |name| - 4)
  {
    KeepsPlainName(name);
    var (root, ext) := SplitName(name);
    SplitNameMeaning(name);
    LowerOfSuffix(root, ext);
    var k :| 0 <= k < |root| && root[k] != '.';
    assert name[k] != '.';
  }

  /** The characters of a text ending in ".png". */
  lemma PngChars(s: string)
    requires EndsWith(s, ".png")
    ensures s[|s| - 4] == '.' && s[|s| - 3] == 'p' && s[|s| - 2] == 'n' && s[|s| - 1] == 'g'
  {
    var t := s[|s| - 4..];
    assert t == ".png";
    assert t[0] == '.' && t[1] == 'p' && t[2] == 'n' && t[3] == 'g';
  }

  /** A name ending in ".png" in any case ends in a dot and three other characters. */
  lemma PngTail(name: string)
    requires EndsWith(Lower(name), ".png")
    ensures var n := |name|;
      && name[n - 4] == '.' && name[n - 3] != '.' && name[n - 2] != '.' && name[n - 1] != '.'
  {
    var n := |name|;
    PngChars(Lower(name));
    LowerKeepsDots(name, n - 4);
    LowerKeepsDots(name, n - 3);
    LowerKeepsDots(name, n - 2);
    LowerKeepsDots(name, n - 1);
  }

  /** A name ending in ".png" in any case has a last four characters that do. */
  lemma LowerTail(name: string)
    requires EndsWith(Lower(name), ".png")
    ensures Lower(name[|name| - 4..]) == ".png"
  {
    var n := |name|;
    assert name[..n - 4] + name[n - 4..] == name;
    LowerOfSuffix(name[..n - 4], name[n - 4..]);
  }

  /** A last dot after something other than dots starts the extension. */
  lemma SplitAtDot(name: string, k: nat)
    requires Paths.LastIndexOf(name, '.') == Some(k) && NonDotIn(name, 0, k)
    ensures SplitName(name) == (name[..k], name[k..])
  {
  }

  /** A name ending in ".png" in any case after something other than dots has its last four
    * characters as its extension. */
  lemma PngExtension(name: string)
    requires EndsWith(Lower(name), ".png") && NonDotIn(name, 0, |name| - 4)
    ensures SplitName(name).1 == name[|name| - 4..] && Lower(name[|name| - 4..]) == ".png"
  {
    PngTail(name);
    LastDotOfFour(name);
    SplitAtDot(name, |name| - 4);
    LowerTail(name);
  }

  /** A name ending in ".png" in any case after something other than dots is kept. */
  lemma PngNameKept(name: string)
    requires Paths.Separator !in name && EndsWith(Lower(name), ".png") && NonDotIn(name, 0, |name| - 4)
    ensures KeepsFile(name)
  {
    KeepsPlainName(name);
    PngExtension(name);
  }

  /** A file name is kept exactly when it ends in ".png" in any case after something other
    * than dots: a name made of dots and "png" has no extension. */
  lemma KeepsFileIff(name: string)
    requires Paths.Separator !in name
    ensures KeepsFile(name) <==> EndsWith(Lower(name), ".png") && NonDotIn(name, 0, |name| - 4)
  {
    if KeepsFile(name) {
      KeptNameEnds(name);
    }
    if EndsWith(Lower(name), ".png") && NonDotIn(name, 0, |name| - 4) {
      PngNameKept(name);
    }
  }

  /** A file called ".png" is skipped, although it ends in ".png". */
  lemma DotPngSkipped()
    ensures EndsWith(Lower(".png"), ".png") && !KeepsFile(".png")
  {
    assert BaseName(".png") == ".png";
    var (root, ext) := SplitName(".png");
    SplitNameMeaning(".png");
    assert root + ext == ".png";
    assert ext == "";
    assert Lower(".png") == ".png";
  }

  // The collision-free name.

  /** The name tried after `index` collisions: the file's own name, then
    * {stem}_{index}_{ext} with splitext's stem and extension. */
  function Candidate(name: string, index: nat): (r: string)
  {
    if index == 0 then name
    else
      var (stem, ext) := SplitExt(BaseName(name));
      stem + "_" + ToDecimal(index) + "_" + ext
  }

  /** The candidates for a file name are all different. */
  lemma CandidatesDistinct(name: string, i: nat, j: nat)
    requires Paths.Separator !in name && i != j
    ensures Candidate(name, i) != Candidate(name, j)
  {
    assert BaseName(name) == name;
    var (stem, ext) := SplitExt(name);
    if i > 0 && j > 0 && Candidate(name, i) == Candidate(name, j) {
      var a, b := ToDecimal(i), ToDecimal(j);
      var ci, cj := stem + "_" + a + "_" + ext, stem + "_" + b + "_" + ext;
      assert |a| == |b|;
      assert a == ci[|stem| + 1..|stem| + 1 + |a|];
      assert b == cj[|stem| + 1..|stem| + 1 + |b|];
      ToDecimalInjective(i, j);
    }
  }

  /** Candidates hold no separator, so each names an entry of the output directory itself. */
  lemma CandidateInOutput(output: string, name: string, index: nat)
    requires Paths.Separator !in name
    ensures BaseName(PathJoin(output, Candidate(name, index))) == Candidate(name, index)
  {
    assert BaseName(name) == name;
    var (stem, ext) := SplitExt(name);
    if index > 0 {
      var d := ToDecimal(index);
      assert Paths.Separator !in d;
      assert Paths.Separator !in stem + "_" + d + "_" + ext;
    }
    BaseNameOfJoin(output, Candidate(name, index));
  }

  /** n different candidates in the entries need n entries. */
  lemma {:induction false} CandidatesCounted(entries: set<string>, name: string, n: nat)
    requires Paths.Separator !in name
    requires forall j :: 0 <= j < n ==> Candidate(name, j) in entries
    ensures n <= |entries|
  {
    if n > 0 {
      var last := Candidate(name, n - 1);
      var rest := entries - {last};
      forall j | 0 <= j < n - 1
        ensures Candidate(name, j) in rest
      {
        CandidatesDistinct(name, j, n - 1);
      }
      CandidatesCounted(rest, name, n - 1);
    }
  }

  /** The while loop: the first candidate that is not an entry of the output directory. It
    * ends because the candidates differ and the directory has finitely many entries. */
  method FreeName(entries: set<string>, name: string) returns (target: string, index: nat)
    requires Paths.Separator !in name
    ensures target == Candidate(name, index) && target !in entries
    ensures forall j :: 0 <= j < index ==> Candidate(name, j) in entries
  {
    index := 0;
    target := name;
    while target in entries
      invariant target == Candidate(name, index)
      invariant forall j :: 0 <= j < index ==> Candidate(name, j) in entries
      decreases |entries| - index
    {
      forall j | 0 <= j < index + 1
        ensures Candidate(name, j) in entries
      {
        if j == index {
          assert Candidate(name, j) == target;
        }
      }
      CandidatesCounted(entries, name, index + 1);
      index := index + 1;
      target := Candidate(name, index);
    }
  }

  // The copying loop.

  /** A file the walk of the input tree reports: its directory and its name. */
  datatype WalkedFile = WalkedFile(dir: string, name: string)

  /** A copy: the walked file, the index of the candidate it got and the name it gets in
    * the output directory. */
  datatype Copy = Copy(file: WalkedFile, index: nat, name: string)

  /** The path a copy reads. */
  function Source(c: Copy): string
  {
    PathJoin(c.file.dir, c.file.name)
  }

  /** The path a copy writes. */
  function Target(output: string, c: Copy): string
  {
    PathJoin(output, c.name)
  }

  /** The walked files that are copied, in walk order. */
  function Kept(walk: seq<WalkedFile>): (r: seq<WalkedFile>)
    ensures |r| <= |walk|
  {
    if walk == [] then []
    else Kept(walk[..|walk| - 1]) + if KeepsFile(walk[|walk| - 1].name) then [walk[|walk| - 1]] else []
  }

  lemma KeptStep(walk: seq<WalkedFile>, k: nat)
    requires k < |walk|
    ensures Kept(walk[..k + 1]) == Kept(walk[..k]) + if KeepsFile(walk[k].name) then [walk[k]] else []
  {
    assert walk[..k + 1][..k] == walk[..k];
  }

  /** The names the copies get, in order. */
  function Names(copies: seq<Copy>): (r: seq<string>)
    ensures |r| == |copies|
    ensures forall i :: 0 <= i < |copies| ==> r[i] == copies[i].name
  {
    if copies == [] then [] else Names(copies[..|copies| - 1]) + [copies[|copies| - 1].name]
  }

  /** The walked files the copies read, in order. */
  function Files(copies: seq<Copy>): (r: seq<WalkedFile>)
    ensures |r| == |copies|
    ensures forall i :: 0 <= i < |copies| ==> r[i] == copies[i].file
  {
    if copies == [] then [] else Files(copies[..|copies| - 1]) + [copies[|copies| - 1].file]
  }

  /** The first n candidates for a file name were taken: the output directory held them, or
    * earlier copies got them. */
  predicate AllTaken(present: set<string>, earlier: seq<Copy>, name: string, n: nat)
  {
    forall j :: 0 <= j < n ==> Candidate(name, j) in present || Candidate(name, j) in Names(earlier)
  }

  /** Copy c, placed after the earlier copies, got the first candidate for its file name that
    * was not taken. */
  predicate FirstFree(present: set<string>, earlier: seq<Copy>, c: Copy)
  {
    && c.name == Candidate(c.file.name, c.index)
    && c.name !in present && c.name !in Names(earlier)
    && AllTaken(present, earlier, c.file.name, c.index)
  }

  /** What the copying loop keeps: every copy got the first free candidate, none overwrote an
    * original entry, no two share a name, and the entries are the original ones and the
    * copies' names. */
  ghost predicate Placement(present: set<string>, copies: seq<Copy>, entries: set<string>)
  {
    && (forall i :: 0 <= i < |copies| ==> FirstFree(present, copies[..i], copies[i]))
    && Apart(present, copies, entries)
  }

  /** No copy overwrote an original entry, no two share a name, and the entries are the
    * original ones and the copies' names. */
  ghost predicate Apart(present: set<string>, copies: seq<Copy>, entries: set<string>)
  {
    && (forall i :: 0 <= i < |copies| ==> copies[i].name !in present)
    && (forall i, j :: 0 <= i < |copies| && 0 <= j < |copies| && i != j ==> copies[i].name != copies[j].name)
    && (forall x :: x in entries <==> x in present || x in Names(copies))
  }

  /** The first free candidate for a file, placed after the copies, is the first free one
    * for them all, and the earlier copies' first free names stay so. */
  lemma PlacedFirstFree(present: set<string>, copies: seq<Copy>, entries: set<string>, c: Copy)
    requires Placement(present, copies, entries)
    requires c.name == Candidate(c.file.name, c.index) && c.name !in entries
    requires forall j :: 0 <= j < c.index ==> Candidate(c.file.name, j) in entries
    ensures var next := copies + [c];
      forall i :: 0 <= i < |next| ==> FirstFree(present, next[..i], next[i])
  {
    var next := copies + [c];
    forall i | 0 <= i < |copies|
      ensures FirstFree(present, next[..i], next[i])
    {
      assert next[..i] == copies[..i];
      assert next[i] == copies[i];
    }
    assert next[..|copies|] == copies;
    assert FirstFree(present, copies, c);
  }

  /** A name outside the entries keeps the copies' names apart from the directory's
    * original entries and from each other, and adding it to the entries keeps them the
    * original ones and the copies' names. */
  lemma PlacedApart(present: set<string>, copies: seq<Copy>, entries: set<string>, c: Copy)
    requires Apart(present, copies, entries)
    requires c.name !in entries
    ensures Apart(present, copies + [c], entries + {c.name})
  {
    var next := copies + [c];
    assert next[..|copies|] == copies;
    assert Names(next) == Names(copies) + [c.name];
    forall i | 0 <= i < |copies|
      ensures copies[i].name in entries
    {
      assert Names(copies)[i] == copies[i].name;
    }
  }

  /** Placing a copy under the first free candidate keeps what the copying loop keeps. */
  lemma Placed(present: set<string>, copies: seq<Copy>, entries: set<string>, c: Copy)
    requires Placement(present, copies, entries)
    requires c.name == Candidate(c.file.name, c.index) && c.name !in entries
    requires forall j :: 0 <= j < c.index ==> Candidate(c.file.name, j) in entries
    ensures Placement(present, copies + [c], entries + {c.name})
    ensures Files(copies + [c]) == Files(copies) + [c.file]
  {
    PlacedFirstFree(present, copies, entries, c);
    PlacedApart(present, copies, entries, c);
    assert (copies + [c])[..|copies|] == copies;
  }

  /**
   * The main loop: in walk order, each kept file is copied under the first of its candidates
   * not yet in the output directory, and that name joins the directory. No copy overwrites
   * an entry that was there, and no two copies share a name.
   */
  method Run(walk: seq<WalkedFile>, present: set<string>) returns (copies: seq<Copy>, entries: set<string>)
    requires forall k :: 0 <= k < |walk| ==> Paths.Separator !in walk[k].name
    ensures Files(copies) == Kept(walk)
    ensures Placement(present, copies, entries)
  {
    copies := [];
    entries := present;
    for k := 0 to |walk|
      invariant Files(copies) == Kept(walk[..k])
      invariant Placement(present, copies, entries)
    {
      KeptStep(walk, k);
      var file := walk[k];
      if KeepsFile(file.name) {
        var name, index := FreeName(entries, file.name);
        var c := Copy(file, index, name);
        Placed(present, copies, entries, c);
        copies := copies + [c];
        entries := entries + {name};
      }
    }
    assert walk[..|walk|] == walk;
  }

  /** The copies the loop makes write to different paths of the output directory, none of
    * them the path of an entry it held before. */
  lemma TargetsFresh(output: string, present: set<string>, copies: seq<Copy>, entries: set<string>)
    requires forall i :: 0 <= i < |copies| ==> Paths.Separator !in copies[i].file.name
    requires Placement(present, copies, entries)
    ensures forall i :: 0 <= i < |copies| ==> BaseName(Target(output, copies[i])) !in present
    ensures forall i, j :: 0 <= i < |copies| && 0 <= j < |copies| && i != j ==>
      Target(output, copies[i]) != Target(output, copies[j])
  {
    forall i | 0 <= i < |copies|
      ensures BaseName(Target(output, copies[i])) == copies[i].name
    {
      assert FirstFree(present, copies[..i], copies[i]);
      CandidateInOutput(output, copies[i].file.name, copies[i].index);
    }
  }
}
