/** The path helpers of src/util/pathutil.rs: existence, the SHA-512 integrity check of a
    downloaded file, and the parent path of a file. The file system is the stat or read
    result the helper gets; SHA-512 is a digest parameter. */
module PathUtil {

  import opened Wrappers
  import opened Strs
  import opened Utf8
  import opened Environment
  import Signatures

  /** `does_path_exist`: `Path::exists`, which is false on any error. */
  function PathExists(stat: Stat): (r: bool)
    ensures r <==> stat.Found?
  {
    stat.Found?
  }

  /** The two build tools answer alike except where the stat fails for a reason other
      than absence: there the Go helper says the path exists and this one says it does
      not. */
  lemma ExistenceRevisions(stat: Stat)
    ensures stat.StatError? ==> DoesPathExist(stat).0 && !PathExists(stat)
    ensures !stat.StatError? ==> DoesPathExist(stat).0 == PathExists(stat)
  {
  }

  /** `get_sha512_of_path`: the read error, or the lower-case hex of the digest. */
  function Sha512Of(read: Result<seq<byte>>, sha512: Signatures.Hash): (r: Result<string>)
    ensures read.Err? ==> r == Err(read.msg)
    ensures read.Ok? ==> r.Ok? && |r.value| == 2 * |sha512(read.value)|
  {
    match read
    case Err(e) => Err(e)
    case Ok(contents) => Ok(Signatures.Hex(sha512(contents)))
  }

  /** The error of a checksum mismatch. */
  function MismatchMessage(expected: string, actual: string): string {
    "Downloaded file does not have the same SHA512 checksum as defined by the package: Expected=" + expected + ": Actual=" + actual
  }

  /** `ensure_integrity_sha512`: succeeds exactly when the file can be read and the hex of
      its digest is the expected string, compared exactly (case matters). */
  function EnsureIntegrity(read: Result<seq<byte>>, expected: string, sha512: Signatures.Hash): (r: Result<()>)
    ensures r.Ok? <==> read.Ok? && expected == Signatures.Hex(sha512(read.value))
    ensures read.Err? ==> r == Err(read.msg)
    ensures read.Ok? && r.Err? ==> r.msg == MismatchMessage(expected, Signatures.Hex(sha512(read.value)))
  {
    var actual := Sha512Of(read, sha512);
    if actual.Err? then Err(actual.msg)
    else if expected != actual.value then Err(MismatchMessage(expected, actual.value))
    else Ok(())
  }

  /** Two files that pass the check against the same expected string have the same
      digest. */
  lemma AcceptedFilesAgree(a: seq<byte>, b: seq<byte>, expected: string, sha512: Signatures.Hash)
    requires EnsureIntegrity(Ok(a), expected, sha512).Ok? && EnsureIntegrity(Ok(b), expected, sha512).Ok?
    ensures sha512(a) == sha512(b)
  {
    Signatures.HexInjective(sha512(a), sha512(b));
  }

  /** The mismatch error names both digests: it contains the expected one and ends with
      the one that was computed. */
  lemma MismatchNamesBoth(expected: string, actual: string)
    ensures Contains(MismatchMessage(expected, actual), expected)
    ensures HasSuffix(MismatchMessage(expected, actual), actual)
  {
    var m := MismatchMessage(expected, actual);
    var head := "Downloaded file does not have the same SHA512 checksum as defined by the package: Expected=";
    assert m == head + expected + (": Actual=" + actual);
    ContainsInfix(head, expected, ": Actual=" + actual);
    assert m[|m| - |actual|..] == actual;
  }

  /** Pieces each followed by `/`. */
  function Dirs(parts: seq<string>): string
    decreases |parts|
  {
    if parts == [] then "" else parts[0] + "/" + Dirs(parts[1..])
  }

  /** What `get_parent_path_of_file` returns: every `/`-separated piece but the last,
      each followed by `/`. */
  function Parent(filePath: string): string {
    var parts := Split(filePath, '/');
    Dirs(parts[..|parts| - 1])
  }

  /** `get_parent_path_of_file`. The slice of all pieces but the last always exists, as
      splitting gives at least one piece, so the error branch is never taken. */
  method GetParentPathOfFile(filePath: string) returns (r: Result<string>)
    ensures r == Ok(Parent(filePath))
  {
    var splitPath := Split(filePath, '/');
    var slice := splitPath[..|splitPath| - 1];
    var parentPath := "";
    var i := 0;
    assert slice[i..] == slice;
    while i < |slice|
      invariant i <= |slice|
      invariant Dirs(slice) == parentPath + Dirs(slice[i..])
    {
      assert slice[i..][0] == slice[i] && slice[i..][1..] == slice[i + 1..];
      assert parentPath + (slice[i] + "/" + Dirs(slice[i + 1..])) == parentPath + slice[i] + "/" + Dirs(slice[i + 1..]);
      parentPath := parentPath + slice[i];
      parentPath := parentPath + "/";
      i := i + 1;
    }
    assert slice[i..] == [];
    assert parentPath + "" == parentPath;
    return Ok(parentPath);
  }

  /** Joining pieces with `/` is the pieces but the last, each followed by `/`, and then
      the last piece. */
  lemma {:induction false} JoinIsDirsAndLast(parts: seq<string>)
    requires parts != []
    ensures JoinWith(parts, '/') == Dirs(parts[..|parts| - 1]) + parts[|parts| - 1]
    decreases |parts|
  {
    if |parts| > 1 {
      JoinIsDirsAndLast(parts[1..]);
      assert parts[..|parts| - 1][0] == parts[0];
      assert parts[..|parts| - 1][1..] == parts[1..][..|parts| - 2];
    }
  }

  /** The written pieces end in `/` unless there are none. */
  lemma DirsEnd(parts: seq<string>)
    ensures Dirs(parts) == [] || Dirs(parts)[|Dirs(parts)| - 1] == '/'
    decreases |parts|
  {
    if parts != [] {
      DirsEnd(parts[1..]);
    }
  }

  /** The parent path is the file path up to and including its last `/` (and empty when
      there is none): the file path is the parent followed by a name without `/`. */
  lemma ParentIsUpToLastSlash(filePath: string)
    ensures var p := Parent(filePath);
      p <= filePath && '/' !in filePath[|p|..] && (p == [] || p[|p| - 1] == '/')
  {
    var parts := Split(filePath, '/');
    JoinSplit(filePath, '/');
    JoinIsDirsAndLast(parts);
    SplitPieces(filePath, '/');
    DirsEnd(parts[..|parts| - 1]);
    var p := Parent(filePath);
    assert filePath == p + parts[|parts| - 1];
    assert filePath[|p|..] == parts[|parts| - 1];
  }

  /** A path without `/` has the empty parent, and a path ending in `/` is its own
      parent. */
  lemma ParentEdgeCases(filePath: string)
    ensures '/' !in filePath ==> Parent(filePath) == ""
    ensures filePath != [] && filePath[|filePath| - 1] == '/' ==> Parent(filePath) == filePath
  {
    ParentIsUpToLastSlash(filePath);
    var p := Parent(filePath);
    assert p != [] ==> filePath[|p| - 1] == '/';
    assert |p| < |filePath| ==> filePath[|p|..][|filePath| - |p| - 1] == filePath[|filePath| - 1];
  }
}
