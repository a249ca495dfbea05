/** The first scanner: `get_files_by_extension(directory, extension)` lists
    the directory's own matches only; the same two decorators guard
    `process_and_print_files`, and `scan_directories` walks the product of
    directories and extensions. Nothing here changes state: the loop over the
    product only drives output, so it is a function from requests to
    outcomes. */
module FilesInDirFlat {
  import opened Sequences
  import opened FsTree
  import opened Requests
  import FilesInDirRecursive

  /** `directory.glob("*" + extension)`: the root's entries whose name ends
      with the extension, each once, in enumeration order. */
  function GetFilesByExtension(root: Dir, ext: string): (files: seq<Route>)
    ensures forall r :: r in files <==>
      !root.denied && |r| == 1 && r[0] < |root.entries| && EndsWith(root.entries[r[0]].name, ext)
    ensures forall a, b :: 0 <= a < b < |files| ==> files[a][0] < files[b][0]
  {
    GlobMembers([], root, ext);
    Glob([], root, ext)
  }

  /** `process_and_print_files` behind `validate_path` and
      `validate_extension`: path first, then extension, and only then a scan. */
  function ProcessFiles(state: PathState, ext: string): (o: Outcome)
    ensures state.Missing? ==> o == Skipped(DoesNotExist)
    ensures state.NotADirectory? ==> o == Skipped(NotDirectory)
    ensures state.Directory? && !ExtensionKnown(ext) ==> o == Skipped(UnknownExtension)
    ensures state.Directory? && ExtensionKnown(ext) ==>
      o.Listed? && o.files == GetFilesByExtension(state.root, ext) &&
      |o.names| == |o.files| && |o.stems| == |o.files| &&
      (forall i :: 0 <= i < |o.files| ==> o.names[i] == NameAt(state.root, o.files[i])) &&
      (forall i :: 0 <= i < |o.files| ==> o.stems[i] == Stem(o.names[i]))
  {
    match Guard(state, ext)
    case Some(why) => Skipped(why)
    case None => Report(state.root, GetFilesByExtension(state.root, ext))
  }

  /** `scan_directories`: one outcome per (directory, extension) pair of
      `itertools.product(directories, extensions)`. */
  function ScanDirectories(dirs: seq<PathState>, exts: seq<string>): (os: seq<Outcome>)
    ensures |os| == |dirs| * |exts|
  {
    var requests := Product(dirs, exts);
    seq(|requests|, k requires 0 <= k < |requests| => ProcessFiles(requests[k].0, requests[k].1))
  }

  /** Directory-major order: request `(dirs[i], exts[j])` is number `i * |exts| + j`. */
  lemma ScanOrder(dirs: seq<PathState>, exts: seq<string>, i: int, j: int)
    requires 0 <= i < |dirs| && 0 <= j < |exts|
    ensures 0 <= i * |exts| + j < |ScanDirectories(dirs, exts)|
    ensures ScanDirectories(dirs, exts)[i * |exts| + j] == ProcessFiles(dirs[i], exts[j])
  {
    ProductAt(dirs, exts, i, j);
  }

  /** The flat listing is the depth-0 listing of the depth-controlled scanner,
      and a flat request has an outcome the depth-controlled one allows for
      depth 0. */
  lemma FlatIsDepthZero(state: PathState, ext: string)
    ensures state.Directory? ==>
      GetFilesByExtension(state.root, ext) == FilesInDirRecursive.Collect([], state.root, 0, 0, ext)
    ensures FilesInDirRecursive.Admissible(state, ext, 0, ProcessFiles(state, ext))
  {
    if state.Directory? {
      FilesInDirRecursive.NonPositiveLimitIsRootOnly([], state.root, 0, 0, ext);
    }
  }

  /** With the script's extensions `.docx`, `.txt`, `.pdf`, `.pyx`, every
      fourth request, the one for `.pyx`, is skipped without a scan, whatever
      the directory; for three directories that is three of twelve. */
  lemma PyxRequestsSkipped(dirs: seq<PathState>, i: int)
    requires 0 <= i < |dirs|
    ensures var os := ScanDirectories(dirs, [".docx", ".txt", ".pdf", ".pyx"]);
      |os| == |dirs| * 4 && 0 <= i * 4 + 3 < |os| && os[i * 4 + 3].Skipped?
  {
    var exts := [".docx", ".txt", ".pdf", ".pyx"];
    ExtensionExamples();
    ScanOrder(dirs, exts, i, 3);
  }
}
