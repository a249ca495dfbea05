/** What one request (directory, extension) goes through in both scanner
    scripts: the two validating decorators, applied path check first, and the
    report of found names and stems. */
module Requests {
  import opened Ascii
  import opened FsTree

  datatype Option<T> = None | Some(value: T)

  /** What `directory.exists()` and `directory.is_dir()` report for the
      requested path, and the directory itself when it is one. */
  datatype PathState = Missing | NotADirectory | Directory(root: Dir)

  /** Why a request was skipped. */
  datatype Rejection = DoesNotExist | NotDirectory | UnknownExtension

  /** What a request produced: skipped with a reason, or the found entries
      with the name and the stem of each. */
  datatype Outcome =
    | Skipped(why: Rejection)
    | Listed(files: seq<Route>, names: seq<string>, stems: seq<string>)

  /** The fixed set of extensions `validate_extension` accepts. */
  const KnownExtensions: set<string> :=
    {".txt", ".docx", ".pdf", ".py", ".md", ".csv", ".xlsx",
     ".jpg", ".png", ".gif", ".mp4", ".mp3", ".zip", ".json"}

  /** `extension.lower() in KNOWN_EXTENSIONS`. */
  predicate ExtensionKnown(ext: string)
  {
    Lower(ext) in KnownExtensions
  }

  /** `validate_path`: existence is checked before being a directory. */
  function CheckPath(state: PathState): Option<Rejection>
  {
    match state
    case Missing => Some(DoesNotExist)
    case NotADirectory => Some(NotDirectory)
    case Directory(_) => None
  }

  /** `validate_extension`. */
  function CheckExtension(ext: string): Option<Rejection>
  {
    if ExtensionKnown(ext) then None else Some(UnknownExtension)
  }

  /** The decorator chain: `validate_path` wraps `validate_extension`, so the
      path check runs first and the extension is looked at only for a
      directory. `None` means the scan runs. */
  function Guard(state: PathState, ext: string): (r: Option<Rejection>)
    ensures r == None <==> state.Directory? && ExtensionKnown(ext)
    ensures r == Some(DoesNotExist) <==> state.Missing?
    ensures r == Some(NotDirectory) <==> state.NotADirectory?
    ensures r == Some(UnknownExtension) <==> state.Directory? && !ExtensionKnown(ext)
  {
    match CheckPath(state)
    case Some(why) => Some(why)
    case None => CheckExtension(ext)
  }

  /** A rejected path is rejected whatever the extension: the extension check
      never runs for it. */
  lemma PathCheckedFirst(state: PathState, e1: string, e2: string)
    requires !state.Directory?
    ensures Guard(state, e1) == Guard(state, e2) != None
  {
  }

  /** Every known extension has the plain `.xyz` shape and is its own lower case. */
  lemma KnownExtensionsArePlain(k: string)
    requires k in KnownExtensions
    ensures PlainExtension(k) && Lower(k) == k
  {
  }

  /** The check is case-insensitive: an accepted extension has the plain
      shape whatever its letter case, and its lower-case form is accepted too. */
  lemma {:induction false} AcceptedExtensionIsPlain(ext: string)
    requires ExtensionKnown(ext)
    ensures PlainExtension(ext)
    ensures ExtensionKnown(Lower(ext))
  {
    var k := Lower(ext);
    KnownExtensionsArePlain(k);
    assert ext[0] == '.' by {
      assert LowerChar(ext[0]) == '.';
    }
    forall m | 1 <= m < |ext|
      ensures ext[m] != '.'
    {
      assert k[m] == LowerChar(ext[m]);
      assert k[m] == k[1..][m - 1];
    }
    assert Lower(k) == k;
  }

  /** `.pyx`, one of the requested extensions, is not in the set, while an
      upper-case spelling of a known one is. */
  lemma ExtensionExamples()
    ensures !ExtensionKnown(".pyx")
    ensures ExtensionKnown(".TXT") && ExtensionKnown(".Pdf")
  {
    assert Lower(".TXT") == ".txt";
    assert Lower(".Pdf") == ".pdf";
    assert Lower(".pyx") == ".pyx";
  }

  /** The names list: `[f.name for f in files]`. */
  function Names(root: Dir, files: seq<Route>): seq<string>
  {
    seq(|files|, i requires 0 <= i < |files| => NameAt(root, files[i]))
  }

  /** The stems list: `[f.stem for f in files]`. */
  function Stems(root: Dir, files: seq<Route>): seq<string>
  {
    seq(|files|, i requires 0 <= i < |files| => Stem(NameAt(root, files[i])))
  }

  /** The two lists printed for the found `files`. */
  function Report(root: Dir, files: seq<Route>): (o: Outcome)
    ensures o.Listed? && o.files == files
    ensures |o.names| == |o.files| && |o.stems| == |o.files|
    ensures forall i :: 0 <= i < |files| ==> o.names[i] == NameAt(root, files[i])
    ensures forall i :: 0 <= i < |files| ==> o.stems[i] == Stem(o.names[i])
  {
    Listed(files, Names(root, files), Stems(root, files))
  }
}
