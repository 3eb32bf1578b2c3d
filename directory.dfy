/** The recursive directory listings of src/util/directory.rs: `read_files_recursively`,
    `walk_dir_tree` and `walk_file_tree`. Each reads a directory with `fs::read_dir`, takes
    the entries in the order the listing gives them, and descends into subdirectories by
    calling itself. The tree is the one of the `Walks` module. */
module Directory {

  import opened Wrappers
  import opened Walks

  /** The file name of an entry. */
  function Name(t: Tree): string {
    match t
    case FileEntry(n, _) => n
    case DirEntry(n, _) => n
    case UnlistableDir(n, _) => n
    case Unreadable(n, _) => n
    case BrokenEntry(_) => ""
  }

  /** `entry.path()`: the listed directory's path with the name pushed on, a separator
      added unless the path is empty or already ends in one. */
  function ChildPath(dir: string, name: string): string {
    if dir == "" || dir[|dir| - 1] == '/' then dir + name else dir + "/" + name
  }

  /** `file_type()?.is_dir()` on an entry whose type can be read. */
  predicate IsDir(t: Tree) {
    t.DirEntry? || t.UnlistableDir?
  }

  /** The error of `fs::read_dir` on something that cannot be listed. */
  function ListError(t: Tree): string
    requires !t.DirEntry?
  {
    match t
    case FileEntry(_, _) => "Not a directory (os error 20)"
    case UnlistableDir(_, m) => m
    case Unreadable(_, m) => m
    case BrokenEntry(m) => m
  }

  /** Every entry below a listing, each with its path, in the order the recursive
      listings meet them: an entry, then (for a directory) everything below it. */
  function Entries(path: string, cs: seq<Tree>): seq<(string, Tree)>
    decreases cs
  {
    if cs == [] then []
    else
      var here := ChildPath(path, Name(cs[0]));
      [(here, cs[0])] + (if cs[0].DirEntry? then Entries(here, cs[0].children) else []) + Entries(path, cs[1..])
  }

  /** An entry the listings can pass: a file, or a directory that can be listed. */
  predicate Passable(e: (string, Tree)) {
    e.1.FileEntry? || e.1.DirEntry?
  }

  /** The paths of the files among the entries, in order. */
  function FilePaths(es: seq<(string, Tree)>): seq<string>
    decreases |es|
  {
    if es == [] then [] else (if es[0].1.FileEntry? then [es[0].0] else []) + FilePaths(es[1..])
  }

  /** A leaf directory: a directory none of whose entries is a directory. */
  predicate Leaf(t: Tree) {
    t.DirEntry? && forall k :: 0 <= k < |t.children| ==> !IsDir(t.children[k])
  }

  /** The paths of the leaf directories among the entries, in order. */
  function LeafPaths(es: seq<(string, Tree)>): seq<string>
    decreases |es|
  {
    if es == [] then [] else (if Leaf(es[0].1) then [es[0].0] else []) + LeafPaths(es[1..])
  }

  lemma {:induction false} FilePathsAppend(a: seq<(string, Tree)>, b: seq<(string, Tree)>)
    ensures FilePaths(a + b) == FilePaths(a) + FilePaths(b)
    decreases |a|
  {
    if a != [] {
      assert (a + b)[1..] == a[1..] + b;
      FilePathsAppend(a[1..], b);
    } else {
      assert a + b == b;
    }
  }

  lemma {:induction false} LeafPathsAppend(a: seq<(string, Tree)>, b: seq<(string, Tree)>)
    ensures LeafPaths(a + b) == LeafPaths(a) + LeafPaths(b)
    decreases |a|
  {
    if a != [] {
      assert (a + b)[1..] == a[1..] + b;
      LeafPathsAppend(a[1..], b);
    } else {
      assert a + b == b;
    }
  }

  // ---- walk_file_tree ----

  /** What `walk_file_tree(path)` returns for what is found at `path`. */
  function FileTree(path: string, t: Tree): Result<seq<string>>
    decreases t
  {
    match t
    case DirEntry(_, cs) => FilesFrom(path, cs)
    case FileEntry(_, _) => Err(ListError(t))
    case UnlistableDir(_, m) => Err(m)
    case Unreadable(_, m) => Err(m)
    case BrokenEntry(m) => Err(m)
  }

  /** The files of the listing's entries, or the first error: an entry the listing
      could not give, an entry whose type cannot be read, or an error below. */
  function FilesFrom(path: string, cs: seq<Tree>): Result<seq<string>>
    decreases cs
  {
    if cs == [] then Ok([])
    else
      var here := ChildPath(path, Name(cs[0]));
      match cs[0]
      case BrokenEntry(m) => Err(m)
      case Unreadable(_, m) => Err(m)
      case FileEntry(_, _) => Prefixed([here], FilesFrom(path, cs[1..]))
      case DirEntry(_, _) =>
        (match FileTree(here, cs[0])
         case Err(e) => Err(e)
         case Ok(sub) => Prefixed(sub, FilesFrom(path, cs[1..])))
      case UnlistableDir(_, _) =>
        (match FileTree(here, cs[0])
         case Err(e) => Err(e)
         case Ok(sub) => Prefixed(sub, FilesFrom(path, cs[1..])))
  }

  /** One turn of the entry loop of `walk_file_tree`. */
  lemma FilesStep(path: string, cs: seq<Tree>, i: nat, files: seq<string>)
    requires i < |cs|
    ensures var c := cs[i];
      var here := ChildPath(path, Name(c));
      Prefixed(files, FilesFrom(path, cs[i..])) ==
        if c.BrokenEntry? || c.Unreadable? then Err(c.msg)
        else if IsDir(c) then
          (match FileTree(here, c)
           case Err(e) => Err(e)
           case Ok(sub) => Prefixed(files + sub, FilesFrom(path, cs[i + 1..])))
        else Prefixed(files + [here], FilesFrom(path, cs[i + 1..]))
  {
    assert cs[i..][0] == cs[i] && cs[i..][1..] == cs[i + 1..];
    var rest := FilesFrom(path, cs[i + 1..]);
    if rest.Ok? {
      var here := ChildPath(path, Name(cs[i]));
      assert files + ([here] + rest.value) == (files + [here]) + rest.value;
      if IsDir(cs[i]) && FileTree(here, cs[i]).Ok? {
        var sub := FileTree(here, cs[i]).value;
        assert files + (sub + rest.value) == (files + sub) + rest.value;
      }
    }
  }

  /** `walk_file_tree`. */
  method WalkFileTree(path: string, t: Tree) returns (r: Result<seq<string>>)
    ensures r == FileTree(path, t)
    decreases t
  {
    if !t.DirEntry? {
      return Err(ListError(t));
    }
    var cs := t.children;
    var files: seq<string> := [];
    var i := 0;
    assert cs[i..] == cs;
    if FilesFrom(path, cs).Ok? {
      assert files + FilesFrom(path, cs).value == FilesFrom(path, cs).value;
    }
    while i < |cs|
      invariant i <= |cs|
      invariant FileTree(path, t) == Prefixed(files, FilesFrom(path, cs[i..]))
    {
      FilesStep(path, cs, i, files);
      var entry := cs[i];
      if entry.BrokenEntry? || entry.Unreadable? {
        return Err(entry.msg);
      }
      var here := ChildPath(path, Name(entry));
      if IsDir(entry) {
        var sub := WalkFileTree(here, entry);
        if sub.Err? {
          return Err(sub.msg);
        }
        files := files + sub.value;
      } else {
        files := files + [here];
      }
      i := i + 1;
    }
    assert cs[i..] == [];
    assert files + [] == files;
    return Ok(files);
  }

  /** Every entry is a file or a directory that can be listed. */
  predicate AllPass(es: seq<(string, Tree)>) {
    forall k :: 0 <= k < |es| ==> Passable(es[k])
  }

  lemma AllPassSplit(a: seq<(string, Tree)>, b: seq<(string, Tree)>, c: seq<(string, Tree)>)
    ensures AllPass(a + b + c) <==> AllPass(a) && AllPass(b) && AllPass(c)
  {
    var s := a + b + c;
    assert forall k :: 0 <= k < |a| ==> s[k] == a[k];
    assert forall k :: 0 <= k < |b| ==> s[|a| + k] == b[k];
    assert forall k :: 0 <= k < |c| ==> s[|a| + |b| + k] == c[k];
  }

  /** The entries of a listing: the first entry, everything below it, then the rest. */
  lemma EntriesCons(path: string, cs: seq<Tree>)
    requires cs != []
    ensures var here := ChildPath(path, Name(cs[0]));
      Entries(path, cs) == [(here, cs[0])] + (if cs[0].DirEntry? then Entries(here, cs[0].children) else []) + Entries(path, cs[1..])
  {
  }

  /** `walk_file_tree` succeeds exactly when every entry below is a file or a directory
      that can be listed. */
  lemma {:induction false} FileTreeSucceeds(path: string, t: Tree)
    requires t.DirEntry?
    ensures FileTree(path, t).Ok? <==> AllPass(Entries(path, t.children))
    decreases t, 1
  {
    FilesFromSucceeds(path, t.children);
  }

  lemma {:induction false} FilesFromSucceeds(path: string, cs: seq<Tree>)
    ensures FilesFrom(path, cs).Ok? <==> AllPass(Entries(path, cs))
    decreases cs, 0
  {
    if cs != [] {
      var here := ChildPath(path, Name(cs[0]));
      var below := if cs[0].DirEntry? then Entries(here, cs[0].children) else [];
      EntriesCons(path, cs);
      AllPassSplit([(here, cs[0])], below, Entries(path, cs[1..]));
      var one := [(here, cs[0])];
      assert one[0] == (here, cs[0]);
      assert AllPass(one) ==> Passable(one[0]);
      FilesFromSucceeds(path, cs[1..]);
      if cs[0].DirEntry? {
        FileTreeSucceeds(here, cs[0]);
      }
    }
  }

  /** A successful `walk_file_tree` returns the paths of exactly the files below the
      start path, in listing order: no directory, and not the start path itself. */
  lemma {:induction false} FileTreeExactly(path: string, t: Tree)
    requires t.DirEntry? && FileTree(path, t).Ok?
    ensures FileTree(path, t).value == FilePaths(Entries(path, t.children))
    decreases t, 1
  {
    FilesFromExactly(path, t.children);
  }

  lemma {:induction false} FilesFromExactly(path: string, cs: seq<Tree>)
    requires FilesFrom(path, cs).Ok?
    ensures FilesFrom(path, cs).value == FilePaths(Entries(path, cs))
    decreases cs, 0
  {
    if cs != [] {
      var here := ChildPath(path, Name(cs[0]));
      var below := if cs[0].DirEntry? then Entries(here, cs[0].children) else [];
      EntriesCons(path, cs);
      FilesFromCons(path, cs);
      FilesFromExactly(path, cs[1..]);
      if cs[0].DirEntry? {
        FileTreeExactly(here, cs[0]);
      }
      FilePathsCons(here, cs[0], below, Entries(path, cs[1..]));
    }
  }

  /** A successful listing: the first entry is a file or a listable directory, and its
      files come before those of the rest. */
  lemma FilesFromCons(path: string, cs: seq<Tree>)
    requires cs != [] && FilesFrom(path, cs).Ok?
    ensures var here := ChildPath(path, Name(cs[0]));
      (cs[0].FileEntry? || (cs[0].DirEntry? && FileTree(here, cs[0]).Ok?)) && FilesFrom(path, cs[1..]).Ok?
      && FilesFrom(path, cs).value == (if cs[0].FileEntry? then [here] else FileTree(here, cs[0]).value) + FilesFrom(path, cs[1..]).value
  {
  }

  /** The file paths of an entry, the entries below it and the rest. */
  lemma FilePathsCons(here: string, t: Tree, below: seq<(string, Tree)>, rest: seq<(string, Tree)>)
    ensures FilePaths([(here, t)] + below + rest) == (if t.FileEntry? then [here] else []) + FilePaths(below) + FilePaths(rest)
  {
    FilePathsAppend([(here, t)] + below, rest);
    FilePathsAppend([(here, t)], below);
    assert FilePaths([(here, t)]) == (if t.FileEntry? then [here] else []) + FilePaths([]);
  }

  // ---- walk_dir_tree ----

  /** What `walk_dir_tree(path)` returns for what is found at `path`. */
  function DirTree(path: string, t: Tree): Result<seq<string>>
    decreases t
  {
    match t
    case DirEntry(_, cs) => DirsFrom(path, cs)
    case FileEntry(_, _) => Err(ListError(t))
    case UnlistableDir(_, m) => Err(m)
    case Unreadable(_, m) => Err(m)
    case BrokenEntry(m) => Err(m)
  }

  /** What a subdirectory contributes: itself when the walk below it finds no
      directory, otherwise what that walk finds. */
  function Contribution(here: string, below: seq<string>): seq<string> {
    if below == [] then [here] else below
  }

  /** The directories the loop of `walk_dir_tree` collects from the entries. */
  function DirsFrom(path: string, cs: seq<Tree>): Result<seq<string>>
    decreases cs
  {
    if cs == [] then Ok([])
    else
      var here := ChildPath(path, Name(cs[0]));
      match cs[0]
      case BrokenEntry(m) => Err(m)
      case Unreadable(_, m) => Err(m)
      case FileEntry(_, _) => DirsFrom(path, cs[1..])
      case DirEntry(_, _) =>
        (match DirTree(here, cs[0])
         case Err(e) => Err(e)
         case Ok(sub) => Prefixed(Contribution(here, sub), DirsFrom(path, cs[1..])))
      case UnlistableDir(_, _) =>
        (match DirTree(here, cs[0])
         case Err(e) => Err(e)
         case Ok(sub) => Prefixed(Contribution(here, sub), DirsFrom(path, cs[1..])))
  }

  /** One turn of the entry loop of `walk_dir_tree`. */
  lemma DirsStep(path: string, cs: seq<Tree>, i: nat, dirs: seq<string>)
    requires i < |cs|
    ensures var c := cs[i];
      var here := ChildPath(path, Name(c));
      Prefixed(dirs, DirsFrom(path, cs[i..])) ==
        if c.BrokenEntry? || c.Unreadable? then Err(c.msg)
        else if IsDir(c) then
          (match DirTree(here, c)
           case Err(e) => Err(e)
           case Ok(sub) => Prefixed(dirs + Contribution(here, sub), DirsFrom(path, cs[i + 1..])))
        else Prefixed(dirs, DirsFrom(path, cs[i + 1..]))
  {
    assert cs[i..][0] == cs[i] && cs[i..][1..] == cs[i + 1..];
    var rest := DirsFrom(path, cs[i + 1..]);
    if rest.Ok? {
      var here := ChildPath(path, Name(cs[i]));
      if IsDir(cs[i]) && DirTree(here, cs[i]).Ok? {
        var more := Contribution(here, DirTree(here, cs[i]).value);
        assert dirs + (more + rest.value) == (dirs + more) + rest.value;
      }
    }
  }

  /** `walk_dir_tree`: a subdirectory whose walk finds directories is walked a second
      time for the list that is appended. */
  method WalkDirTree(path: string, t: Tree) returns (r: Result<seq<string>>)
    ensures r == DirTree(path, t)
    decreases t
  {
    if !t.DirEntry? {
      return Err(ListError(t));
    }
    var cs := t.children;
    var dirs: seq<string> := [];
    var i := 0;
    assert cs[i..] == cs;
    if DirsFrom(path, cs).Ok? {
      assert dirs + DirsFrom(path, cs).value == DirsFrom(path, cs).value;
    }
    while i < |cs|
      invariant i <= |cs|
      invariant DirTree(path, t) == Prefixed(dirs, DirsFrom(path, cs[i..]))
    {
      DirsStep(path, cs, i, dirs);
      var entry := cs[i];
      if entry.BrokenEntry? || entry.Unreadable? {
        return Err(entry.msg);
      }
      if IsDir(entry) {
        var here := ChildPath(path, Name(entry));
        var recDirTree := WalkDirTree(here, entry);
        if recDirTree.Err? {
          return Err(recDirTree.msg);
        }
        if |recDirTree.value| == 0 {
          dirs := dirs + [here];
        } else {
          // The second walk of the same directory finds the same directories.
          var again := WalkDirTree(here, entry);
          dirs := dirs + again.value;
        }
      }
      i := i + 1;
    }
    assert cs[i..] == [];
    assert dirs + [] == dirs;
    return Ok(dirs);
  }

  /** A successful walk of a listing is empty exactly when none of its entries is a
      directory. */
  lemma {:induction false} DirsFromEmpty(path: string, cs: seq<Tree>)
    requires DirsFrom(path, cs).Ok?
    ensures DirsFrom(path, cs).value == [] <==> forall k :: 0 <= k < |cs| ==> !IsDir(cs[k])
    decreases cs
  {
    if cs != [] {
      DirsFromEmpty(path, cs[1..]);
      assert forall k :: 1 <= k < |cs| ==> cs[k] == cs[1..][k - 1];
    }
  }

  /** `walk_dir_tree` succeeds exactly when `walk_file_tree` does. */
  lemma {:induction false} DirTreeSucceeds(path: string, t: Tree)
    requires t.DirEntry?
    ensures DirTree(path, t).Ok? <==> AllPass(Entries(path, t.children))
    decreases t, 1
  {
    DirsFromSucceeds(path, t.children);
  }

  lemma {:induction false} DirsFromSucceeds(path: string, cs: seq<Tree>)
    ensures DirsFrom(path, cs).Ok? <==> AllPass(Entries(path, cs))
    decreases cs, 0
  {
    if cs != [] {
      var here := ChildPath(path, Name(cs[0]));
      var below := if cs[0].DirEntry? then Entries(here, cs[0].children) else [];
      EntriesCons(path, cs);
      AllPassSplit([(here, cs[0])], below, Entries(path, cs[1..]));
      var one := [(here, cs[0])];
      assert one[0] == (here, cs[0]);
      assert AllPass(one) ==> Passable(one[0]);
      DirsFromSucceeds(path, cs[1..]);
      if cs[0].DirEntry? {
        DirTreeSucceeds(here, cs[0]);
      }
    }
  }

  /** A successful `walk_dir_tree` returns the paths of exactly the leaf directories
      below the start path, in listing order; a directory with subdirectories never
      appears itself. */
  lemma {:induction false} DirTreeExactly(path: string, t: Tree)
    requires t.DirEntry? && DirTree(path, t).Ok?
    ensures DirTree(path, t).value == LeafPaths(Entries(path, t.children))
    decreases t, 1
  {
    DirsFromExactly(path, t.children);
  }

  lemma {:induction false} DirsFromExactly(path: string, cs: seq<Tree>)
    requires DirsFrom(path, cs).Ok?
    ensures DirsFrom(path, cs).value == LeafPaths(Entries(path, cs))
    decreases cs, 0
  {
    if cs != [] {
      var here := ChildPath(path, Name(cs[0]));
      var below := if cs[0].DirEntry? then Entries(here, cs[0].children) else [];
      EntriesCons(path, cs);
      DirsFromExactly(path, cs[1..]);
      LeafPathsAppend([(here, cs[0])] + below, Entries(path, cs[1..]));
      LeafPathsAppend([(here, cs[0])], below);
      if cs[0].DirEntry? {
        DirTreeExactly(here, cs[0]);
        DirsFromEmpty(here, cs[0].children);
        LeafDirSelf(here, cs[0], below);
      } else {
        assert LeafPaths([(here, cs[0])]) == [] + LeafPaths([]);
      }
    }
  }

  /** A directory's own contribution: itself when it is a leaf, and then nothing below
      it is a leaf; otherwise the leaves below it. */
  lemma LeafDirSelf(here: string, d: Tree, below: seq<(string, Tree)>)
    requires d.DirEntry? && DirTree(here, d).Ok?
    requires below == Entries(here, d.children)
    requires DirTree(here, d).value == LeafPaths(below)
    requires DirTree(here, d).value == [] <==> Leaf(d)
    ensures LeafPaths([(here, d)]) + LeafPaths(below) == Contribution(here, DirTree(here, d).value)
  {
    assert LeafPaths([(here, d)]) == (if Leaf(d) then [here] else []) + LeafPaths([]);
  }

  // ---- read_files_recursively ----

  /** What `read_files_recursively(path)` returns: as `walk_file_tree`, except that an
      entry the listing cannot give panics (`unimplemented!`). */
  function ReadFiles(path: string, t: Tree): Outcome<Result<seq<string>>>
    decreases t
  {
    match t
    case DirEntry(_, cs) => ReadFilesFrom(path, cs)
    case FileEntry(_, _) => Returned(Err(ListError(t)))
    case UnlistableDir(_, m) => Returned(Err(m))
    case Unreadable(_, m) => Returned(Err(m))
    case BrokenEntry(m) => Returned(Err(m))
  }

  function ReadFilesFrom(path: string, cs: seq<Tree>): Outcome<Result<seq<string>>>
    decreases cs
  {
    if cs == [] then Returned(Ok([]))
    else
      var here := ChildPath(path, Name(cs[0]));
      match cs[0]
      case BrokenEntry(_) => Panicked("not implemented: error case on reading files recursively")
      case Unreadable(_, m) => Returned(Err(m))
      case FileEntry(_, _) => Extended([here], ReadFilesFrom(path, cs[1..]))
      case DirEntry(_, _) =>
        (match ReadFiles(here, cs[0])
         case Panicked(why) => Panicked(why)
         case Returned(Err(e)) => Returned(Err(e))
         case Returned(Ok(sub)) => Extended(sub, ReadFilesFrom(path, cs[1..])))
      case UnlistableDir(_, _) =>
        (match ReadFiles(here, cs[0])
         case Panicked(why) => Panicked(why)
         case Returned(Err(e)) => Returned(Err(e))
         case Returned(Ok(sub)) => Extended(sub, ReadFilesFrom(path, cs[1..])))
  }

  /** The files collected so far followed by what the rest of the loop gives. */
  function Extended(acc: seq<string>, r: Outcome<Result<seq<string>>>): Outcome<Result<seq<string>>> {
    match r
    case Panicked(why) => Panicked(why)
    case Returned(rest) => Returned(Prefixed(acc, rest))
  }

  /** One turn of the entry loop of `read_files_recursively`. */
  lemma ReadStep(path: string, cs: seq<Tree>, i: nat, files: seq<string>)
    requires i < |cs|
    ensures var c := cs[i];
      var here := ChildPath(path, Name(c));
      Extended(files, ReadFilesFrom(path, cs[i..])) ==
        if c.BrokenEntry? then Panicked("not implemented: error case on reading files recursively")
        else if c.Unreadable? then Returned(Err(c.msg))
        else if IsDir(c) then
          (match ReadFiles(here, c)
           case Panicked(why) => Panicked(why)
           case Returned(Err(e)) => Returned(Err(e))
           case Returned(Ok(sub)) => Extended(files + sub, ReadFilesFrom(path, cs[i + 1..])))
        else Extended(files + [here], ReadFilesFrom(path, cs[i + 1..]))
  {
    assert cs[i..][0] == cs[i] && cs[i..][1..] == cs[i + 1..];
    var rest := ReadFilesFrom(path, cs[i + 1..]);
    if rest.Returned? && rest.result.Ok? {
      var here := ChildPath(path, Name(cs[i]));
      assert files + ([here] + rest.result.value) == (files + [here]) + rest.result.value;
      var sub := ReadFiles(here, cs[i]);
      if IsDir(cs[i]) && sub.Returned? && sub.result.Ok? {
        assert files + (sub.result.value + rest.result.value) == (files + sub.result.value) + rest.result.value;
      }
    }
  }

  /** `read_files_recursively`. */
  method ReadFilesRecursively(path: string, t: Tree) returns (r: Outcome<Result<seq<string>>>)
    ensures r == ReadFiles(path, t)
    decreases t
  {
    if !t.DirEntry? {
      return Returned(Err(ListError(t)));
    }
    var cs := t.children;
    var files: seq<string> := [];
    var i := 0;
    assert cs[i..] == cs;
    var all := ReadFilesFrom(path, cs);
    if all.Returned? && all.result.Ok? {
      assert files + all.result.value == all.result.value;
    }
    while i < |cs|
      invariant i <= |cs|
      invariant ReadFiles(path, t) == Extended(files, ReadFilesFrom(path, cs[i..]))
    {
      ReadStep(path, cs, i, files);
      var entry := cs[i];
      if entry.BrokenEntry? {
        return Panicked("not implemented: error case on reading files recursively");
      }
      if entry.Unreadable? {
        return Returned(Err(entry.msg));
      }
      var here := ChildPath(path, Name(entry));
      if IsDir(entry) {
        var sub := ReadFilesRecursively(here, entry);
        if sub.Panicked? {
          return Panicked(sub.reason);
        }
        if sub.result.Err? {
          return Returned(Err(sub.result.msg));
        }
        files := files + sub.result.value;
      } else {
        files := files + [here];
      }
      i := i + 1;
    }
    assert cs[i..] == [];
    assert files + [] == files;
    return Returned(Ok(files));
  }

  /** `read_files_recursively` lists what `walk_file_tree` lists: when it returns, it
      returns the same result, and when it panics, `walk_file_tree` fails. */
  lemma {:induction false} ReadFilesAgrees(path: string, t: Tree)
    ensures ReadFiles(path, t).Returned? ==> ReadFiles(path, t).result == FileTree(path, t)
    ensures ReadFiles(path, t).Panicked? ==> FileTree(path, t).Err?
    decreases t, 1
  {
    if t.DirEntry? {
      ReadFilesFromAgrees(path, t.children);
    }
  }

  lemma {:induction false} ReadFilesFromAgrees(path: string, cs: seq<Tree>)
    ensures ReadFilesFrom(path, cs).Returned? ==> ReadFilesFrom(path, cs).result == FilesFrom(path, cs)
    ensures ReadFilesFrom(path, cs).Panicked? ==> FilesFrom(path, cs).Err?
    decreases cs, 0
  {
    if cs != [] {
      var here := ChildPath(path, Name(cs[0]));
      ReadFilesFromAgrees(path, cs[1..]);
      if IsDir(cs[0]) {
        ReadFilesAgrees(here, cs[0]);
      }
    }
  }
}
