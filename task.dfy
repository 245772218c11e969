/**
 * The png2dds work list: every PNG file at the input path or below it (down to the depth
 * limit) paired with the same path ending in ".dds", skipping files whose DDS already exists
 * unless overwriting, then sorted and de-duplicated before the pipeline is configured.
 */
module Task {
  import opened Util
  import opened Wrappers
  import opened Sequences
  import opened Paths
  import opened FileSystem
  import opened PathOrder
  import Strings
  import Arguments

  /** The file a PNG is converted into. */
  function DdsPath(png: Path): (r: Path)
    ensures ParentPath(r) == ParentPath(png) && FileName(r) == Stem(png) + DdsExtension
  {
    ReplaceExtension(png, DdsExtension)
  }

  /** Whether try_add_file accepts a path whose status is `status`: a regular file whose
    * extension, lower-cased, is ".png". */
  predicate Accepted(png: Path, status: Option<Node>)
  {
    status.Some? && status.value.File? && Strings.Lower(Extension(png)) == PngExtension
  }

  /** What try_add_file appends. */
  function Added(root: Node, png: Path, status: Option<Node>, overwrite: bool): seq<PathPair>
  {
    if Accepted(png, status) && (overwrite || !Exists(root, DdsPath(png))) then [PathPair(png, DdsPath(png))] else []
  }

  /** try_add_file */
  method TryAddFile(root: Node, png: Path, status: Option<Node>, paths: seq<PathPair>, overwrite: bool)
    returns (accepted: bool, r: seq<PathPair>)
    ensures accepted == Accepted(png, status)
    ensures r == paths + Added(root, png, status, overwrite)
  {
    if !(status.Some? && status.value.File?) {
      return false, paths;
    }
    var extension := Strings.ToLowerCopy(Extension(png));
    if extension != PngExtension {
      return false, paths;
    }
    var dds := ReplaceExtension(png, DdsExtension);
    r := paths;
    if overwrite || !Exists(root, dds) {
      r := r + [PathPair(png, dds)];
    }
    return true, r;
  }

  /** The pairs a directory listing contributes. */
  function ListingPairs(root: Node, visits: seq<Visit>, overwrite: bool): (r: seq<PathPair>)
  {
    if visits == [] then []
    else
      var v := visits[|visits| - 1];
      ListingPairs(root, visits[..|visits| - 1], overwrite) + Added(root, v.path, Some(v.node), overwrite)
  }

  /** The entries process_directory visits: none unless the path is an existing directory. */
  function DirectoryVisits(root: Node, dir: Path, depth: nat): seq<Visit>
  {
    if !Exists(root, dir) || !IsDirectory(root, dir) then [] else WalkFrom(root, dir, depth)
  }

  /** process_directory */
  method ProcessDirectory(root: Node, dir: Path, paths: seq<PathPair>, overwrite: bool, depth: SizeT)
    returns (r: seq<PathPair>)
    ensures r == paths + ListingPairs(root, DirectoryVisits(root, dir, depth), overwrite)
  {
    if !Exists(root, dir) || !IsDirectory(root, dir) {
      return paths;
    }
    var visits := WalkFrom(root, dir, depth);
    r := AddListing(root, visits, paths, overwrite);
  }

  /** The iteration of process_directory over a listing. */
  method AddListing(root: Node, visits: seq<Visit>, paths: seq<PathPair>, overwrite: bool) returns (r: seq<PathPair>)
    ensures r == paths + ListingPairs(root, visits, overwrite)
  {
    r := paths;
    var i := 0;
    while i < |visits|
      invariant 0 <= i <= |visits|
      invariant r == paths + ListingPairs(root, visits[..i], overwrite)
    {
      var v := visits[i];
      ghost var before := r;
      var _, next := TryAddFile(root, v.path, Some(v.node), r, overwrite);
      r := next;
      assert visits[..i + 1][..i] == visits[..i];
      AppendAssociative(paths, ListingPairs(root, visits[..i], overwrite), Added(root, v.path, Some(v.node), overwrite));
      i := i + 1;
    }
    assert visits[..i] == visits;
  }

  /** The pairs task::task collects before sorting: the input itself when try_add_file accepts
    * it, and otherwise the contents of the directory it names. */
  function Collected(root: Node, input: Path, overwrite: bool, depth: nat): seq<PathPair>
  {
    var status := Lookup(root, input);
    if Accepted(input, status) then Added(root, input, status, overwrite)
    else ListingPairs(root, DirectoryVisits(root, input, depth), overwrite)
  }

  /** The pairs task::task collects: try_add_file on the input, then process_directory when
    * it was not accepted. */
  method Collect(root: Node, input: Path, overwrite: bool, depth: SizeT) returns (paths: seq<PathPair>)
    ensures paths == Collected(root, input, overwrite, depth)
  {
    var accepted;
    accepted, paths := TryAddFile(root, input, Lookup(root, input), [], overwrite);
    if !accepted {
      paths := ProcessDirectory(root, input, paths, overwrite, depth);
    }
  }

  /** The pipeline task::task launches. */
  datatype Pipeline = Pipeline(tokens: SizeT, level: U32, flip: bool, paths: seq<PathPair>)

  /** task::task: the input string names a path in the filesystem tree. */
  method NewTask(root: Node, arguments: Arguments.Data) returns (r: Option<Pipeline>)
    ensures var collected := Collected(root, FromString(arguments.input), arguments.overwrite, arguments.depth);
      && (r.None? <==> collected == [])
      && (r.Some? ==>
            && r.value.tokens == (arguments.threads * 4) % SIZE_MODULUS
            && r.value.level == arguments.level
            && r.value.flip == arguments.vflip
            && StrictlySorted(r.value.paths)
            && forall p :: p in r.value.paths <==> p in collected)
  {
    var input := FromString(arguments.input);
    var paths := Collect(root, input, arguments.overwrite, arguments.depth);
    paths := SortUnique(paths);
    if paths == [] {
      SameElementsBothEmpty(paths, Collected(root, input, arguments.overwrite, arguments.depth));
      return None;
    }
    SameElementsBothEmpty(paths, Collected(root, input, arguments.overwrite, arguments.depth));
    var tokens := (arguments.threads * 4) % SIZE_MODULUS;
    r := Some(Pipeline(tokens, arguments.level, arguments.vflip, paths));
  }

  /** A pair of the work list: an accepted PNG at a listed or given path whose DDS is missing
    * or may be overwritten, paired with that DDS. */
  predicate Converts(root: Node, v: Visit, overwrite: bool, p: PathPair)
  {
    && Accepted(v.path, Some(v.node))
    && (overwrite || !Exists(root, DdsPath(v.path)))
    && p == PathPair(v.path, DdsPath(v.path))
  }

  /** A directory contributes exactly its listed PNG files that need converting. */
  lemma {:induction false} ListingPairsExactly(root: Node, visits: seq<Visit>, overwrite: bool, p: PathPair)
    ensures p in ListingPairs(root, visits, overwrite) <==>
      exists v :: v in visits && Converts(root, v, overwrite, p)
    decreases |visits|
  {
    if visits != [] {
      var init := visits[..|visits| - 1];
      var v := visits[|visits| - 1];
      var added := Added(root, v.path, Some(v.node), overwrite);
      assert ListingPairs(root, visits, overwrite) == ListingPairs(root, init, overwrite) + added;
      ListingPairsExactly(root, init, overwrite, p);
      if p in ListingPairs(root, visits, overwrite) {
        if p in ListingPairs(root, init, overwrite) {
          var w :| w in init && Converts(root, w, overwrite, p);
          assert w in visits;
        } else {
          assert p in added;
          assert Converts(root, v, overwrite, p);
        }
      }
      if w :| w in visits && Converts(root, w, overwrite, p) {
        if w == v {
          assert p in added;
        } else {
          assert w in init by {
            var k :| 0 <= k < |visits| && visits[k] == w;
            assert k < |visits| - 1 && init[k] == w;
          }
        }
      }
    }
  }

  /** Every pair converts a ".png" path into its ".dds" sibling, skipping existing outputs
    * unless overwriting. */
  lemma CollectedAreConversions(root: Node, input: Path, overwrite: bool, depth: nat, p: PathPair)
    requires p in Collected(root, input, overwrite, depth)
    ensures p.output == DdsPath(p.input) && Strings.Lower(Extension(p.input)) == PngExtension
    ensures overwrite || !Exists(root, p.output)
  {
    if !Accepted(input, Lookup(root, input)) {
      ListingPairsExactly(root, DirectoryVisits(root, input, depth), overwrite, p);
    }
  }

  /** An accepted input file is the only candidate, whether or not it is added. */
  lemma FileInputAlone(root: Node, input: Path, overwrite: bool, depth: nat)
    requires Accepted(input, Lookup(root, input))
    ensures Collected(root, input, overwrite, depth) ==
      if overwrite || !Exists(root, DdsPath(input)) then [PathPair(input, DdsPath(input))] else []
  {
  }

  /** A missing input, or a file that is not a PNG, yields an empty list and so no pipeline. */
  lemma NotDirectoryNorPngGivesNothing(root: Node, input: Path, overwrite: bool, depth: nat)
    requires !IsDirectory(root, input) && !Accepted(input, Lookup(root, input))
    ensures Collected(root, input, overwrite, depth) == []
  {
  }

  /** Below a directory, every pair lies inside it, at most depth + 1 components deeper. */
  lemma DirectoryPairsWithinDepth(root: Node, input: Path, overwrite: bool, depth: nat, p: PathPair)
    requires !Accepted(input, Lookup(root, input))
    requires p in Collected(root, input, overwrite, depth)
    ensures |input| < |p.input| <= |input| + 1 + depth && p.input[..|input|] == input
  {
    var visits := DirectoryVisits(root, input, depth);
    ListingPairsExactly(root, visits, overwrite, p);
    var v :| v in visits && Converts(root, v, overwrite, p);
    match Lookup(root, input)
    case Some(Directory(_, children)) =>
      WalkDepthBounded(input, children, 0, depth);
    case _ =>
  }

  /** Every PNG file the directory iterator reaches is converted when its DDS is missing. */
  lemma ReachedPngIsCollected(root: Node, input: Path, overwrite: bool, depth: nat, v: Visit)
    requires !Accepted(input, Lookup(root, input))
    requires v in DirectoryVisits(root, input, depth)
    requires Accepted(v.path, Some(v.node)) && !Exists(root, DdsPath(v.path))
    ensures PathPair(v.path, DdsPath(v.path)) in Collected(root, input, overwrite, depth)
  {
    ListingPairsExactly(root, DirectoryVisits(root, input, depth), overwrite, PathPair(v.path, DdsPath(v.path)));
  }

  /** The number of pipeline tokens is four per thread, as long as that fits in a size_t. */
  lemma TokensPerThread(threads: SizeT)
    requires threads <= SIZE_MAX / 4
    ensures (threads * 4) % SIZE_MODULUS == threads * 4
  {
  }
}
