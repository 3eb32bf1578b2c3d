/** Archive extraction with its zip-slip guard (`Unzip` in core/util/fs.go and the same loop
    as `unzip` in core/dependency/registry.go), and `CopyFile`. The archive reader is a
    parameter: it turns the bytes of the archive file into its entries, in archive order. */
module Extract {

  import opened Wrappers
  import opened Strs
  import opened Utf8
  import opened Lexical
  import opened Files

  /** One archive entry: its name as stored, whether it is a directory, the bytes `f.Open`
      and `io.Copy` deliver into the created file, and the error one of them reports after
      delivering those bytes (a damaged entry), if any. */
  datatype Entry = Entry(name: string, isDir: bool, data: seq<byte>, failure: Option<string>)

  /** The zip-slip test the loop runs: `AsWritten` is the string-prefix test of the
      source (`EntryAllowed`); `Corrected` also refuses entries that add a `..` element
      (`EntryInside`). */
  datatype Guard = AsWritten | Corrected

  predicate Admits(g: Guard, dest: string, name: string) {
    match g
    case AsWritten => EntryAllowed(dest, name)
    case Corrected => EntryInside(dest, name)
  }

  /** `zip.OpenReader` applied to the bytes of the archive file. */
  type ZipReader = seq<byte> -> Result<seq<Entry>>

  function IllegalPath(fpath: string): string {
    "illegal file path: " + fpath
  }

  /** Nothing outside `d` was created or changed between `before` and `after`: nothing is
      removed, and every key that is new or different lies below `d`, except directories
      that did not exist and lead up to `d` (what `MkdirAll` creates on the way). */
  predicate NothingOutside(before: map<string, Node>, after: map<string, Node>, d: string) {
    (forall k :: k in before ==> k in after)
    && forall k :: k in after ==>
      (k in before && after[k] == before[k]) || HasPrefix(k, d + "/") || (k <= d && k !in before && after[k] == Directory)
  }

  lemma NothingOutsideTrans(a: map<string, Node>, b: map<string, Node>, c: map<string, Node>, d: string)
    requires NothingOutside(a, b, d) && NothingOutside(b, c, d)
    ensures NothingOutside(a, c, d)
  {
  }

  /** A prefix of a path below `d + "/"` is either a prefix of `d` or itself below it. */
  lemma PrefixSplit(k: string, f: string, d: string)
    requires k <= f && HasPrefix(f, d + "/")
    ensures k <= d || HasPrefix(k, d + "/")
  {
    if |k| <= |d| {
      assert k == f[..|k|] && d == f[..|d|];
      assert k == d[..|k|];
    } else {
      assert k[..|d| + 1] == f[..|d| + 1];
    }
  }

  /** `MkdirAll` of a path that is `d` or lies below it changes nothing outside `d`. */
  lemma MkdirAllInside(nodes: map<string, Node>, failing: set<string>, path: string, d: string)
    requires path == d || HasPrefix(path, d + "/")
    ensures NothingOutside(nodes, MkdirAllOn(nodes, failing, path).nodes, d)
  {
    var after := MkdirAllOn(nodes, failing, path).nodes;
    forall k | k in after && k !in nodes
      ensures k <= d || HasPrefix(k, d + "/")
    {
      if path != d {
        PrefixSplit(k, path, d);
      }
    }
  }

  /** One entry of the loop: its path is `filepath.Join(dest, name)`; a refused entry
      stops everything with `illegal file path`; a directory entry is `MkdirAll`ed and its
      error ignored; a file entry needs its directory made and is then created and
      filled, and an error of any of these stops everything, a failed copy after the
      bytes it delivered. */
  function ExtractEntry(nodes: map<string, Node>, failing: set<string>, g: Guard, dest: string, e: Entry): (c: Change)
    ensures NothingOutside(nodes, c.nodes, Clean(dest))
    ensures c.err.None? ==> Admits(g, dest, e.name)
  {
    var fpath := Join(dest, e.name);
    if !Admits(g, dest, e.name) then Change(nodes, Some(IllegalPath(fpath)))
    else
      var d := Clean(dest);
      assert HasPrefix(fpath, d + "/");
      if e.isDir then
        MkdirAllInside(nodes, failing, fpath, d);
        Change(MkdirAllOn(nodes, failing, fpath).nodes, None)
      else
        var made := MkdirAllOn(nodes, failing, Dir(fpath));
        AcceptedDir(dest, e.name);
        MkdirAllInside(nodes, failing, Dir(fpath), d);
        if made.err.Some? then made
        else match WriteOn(made.nodes, failing, fpath, e.data)
          case Err(m) => Change(made.nodes, Some(m))
          case Ok(written) =>
            NothingOutsideTrans(nodes, made.nodes, written, d);
            Change(written, e.failure)
  }

  /** The extraction of `entries` into `dest`, from the file system `nodes`: entry after
      entry until one of them stops the loop. */
  function ExtractAll(nodes: map<string, Node>, failing: set<string>, g: Guard, dest: string, entries: seq<Entry>): (c: Change)
    ensures NothingOutside(nodes, c.nodes, Clean(dest))
    decreases |entries|
  {
    if entries == [] then Change(nodes, None)
    else
      var step := ExtractEntry(nodes, failing, g, dest, entries[0]);
      if step.err.Some? then step
      else
        var rest := ExtractAll(step.nodes, failing, g, dest, entries[1..]);
        NothingOutsideTrans(nodes, step.nodes, rest.nodes, Clean(dest));
        rest
  }

  /** What `Unzip(src, dest)` does to the file system and what it returns, with the guard
      `g`: the source runs `AsWritten`. */
  function UnzipOn(nodes: map<string, Node>, failing: set<string>, g: Guard, src: string, dest: string, read: ZipReader): (c: Change)
    ensures NothingOutside(nodes, c.nodes, Clean(dest))
  {
    match ReadOn(nodes, failing, src)
    case Err(e) => Change(nodes, Some(e))
    case Ok(bytes) =>
      match read(bytes)
      case Err(e) => Change(nodes, Some(e))
      case Ok(entries) => ExtractAll(nodes, failing, g, dest, entries)
  }

  /** `Unzip`: the entry loop, with the prefix test against entries that leave `dest`.
      Creating a file and copying into it are one write of the bytes copied. */
  method Unzip(disk: Disk, src: string, dest: string, read: ZipReader) returns (err: Option<string>)
    modifies disk
    ensures disk.nodes == UnzipOn(old(disk.nodes), disk.failing, AsWritten, src, dest, read).nodes
    ensures err == UnzipOn(old(disk.nodes), disk.failing, AsWritten, src, dest, read).err
    ensures NothingOutside(old(disk.nodes), disk.nodes, Clean(dest))
    ensures disk.failing == old(disk.failing) && disk.fetched == old(disk.fetched)
  {
    var archive := disk.Read(src);
    if archive.Err? {
      return Some(archive.msg);
    }
    var listing := read(archive.value);
    if listing.Err? {
      return Some(listing.msg);
    }
    var entries := listing.value;
    var i := 0;
    while i < |entries|
      invariant i <= |entries|
      invariant disk.failing == old(disk.failing) && disk.fetched == old(disk.fetched)
      invariant ExtractAll(old(disk.nodes), disk.failing, AsWritten, dest, entries) == ExtractAll(disk.nodes, disk.failing, AsWritten, dest, entries[i..])
    {
      var f := entries[i];
      assert entries[i..][0] == f && entries[i..][1..] == entries[i + 1..];
      var fpath := Join(dest, f.name);
      if !EntryAllowed(dest, f.name) {
        return Some(IllegalPath(fpath));
      }
      if f.isDir {
        var ignored := disk.MkdirAll(fpath);
        i := i + 1;
        continue;
      }
      err := disk.MkdirAll(Dir(fpath));
      if err.Some? {
        return;
      }
      err := disk.WriteFile(fpath, f.data);
      if err.Some? {
        return;
      }
      if f.failure.Some? {
        return f.failure;
      }
      i := i + 1;
    }
    return None;
  }

  /** Extracting `a + b` is extracting `a`, then, unless that failed, `b` on the result. */
  lemma {:induction false} ExtractAppend(nodes: map<string, Node>, failing: set<string>, g: Guard, dest: string, a: seq<Entry>, b: seq<Entry>)
    ensures ExtractAll(nodes, failing, g, dest, a + b)
      == (var c := ExtractAll(nodes, failing, g, dest, a);
          if c.err.Some? then c else ExtractAll(c.nodes, failing, g, dest, b))
    decreases |a|
  {
    if a == [] {
      assert a + b == b;
    } else {
      assert (a + b)[0] == a[0] && (a + b)[1..] == a[1..] + b;
      var s := ExtractEntry(nodes, failing, g, dest, a[0]);
      if s.err.None? {
        ExtractAppend(s.nodes, failing, g, dest, a[1..], b);
      }
    }
  }

  /** An extraction that completes without error only ever accepted entries its guard
      admits: with the corrected guard, entries that stay inside the destination. */
  lemma {:induction false} CompletedEntriesInside(nodes: map<string, Node>, failing: set<string>, g: Guard, dest: string, entries: seq<Entry>)
    requires ExtractAll(nodes, failing, g, dest, entries).err.None?
    ensures forall e :: e in entries ==> Admits(g, dest, e.name)
    ensures g == Corrected ==> forall e :: e in entries ==> EntryInside(dest, e.name)
    decreases |entries|
  {
    if entries != [] {
      var s := ExtractEntry(nodes, failing, g, dest, entries[0]);
      CompletedEntriesInside(s.nodes, failing, g, dest, entries[1..]);
      assert entries == [entries[0]] + entries[1..];
    }
  }

  /** A refused entry ends the extraction: whatever the entries before it did stays done,
      it is reported with its joined path (unless an earlier entry already failed), and no
      later entry is looked at. */
  lemma RefusedEntryStops(nodes: map<string, Node>, failing: set<string>, g: Guard, dest: string, before: seq<Entry>, bad: Entry, after: seq<Entry>)
    requires !Admits(g, dest, bad.name)
    ensures var c := ExtractAll(nodes, failing, g, dest, before);
      ExtractAll(nodes, failing, g, dest, before + [bad] + after)
        == if c.err.Some? then c else Change(c.nodes, Some(IllegalPath(Join(dest, bad.name))))
  {
    ExtractAppend(nodes, failing, g, dest, before, [bad] + after);
    assert before + [bad] + after == before + ([bad] + after);
  }

  /** A file entry that is extracted without error passed the guard, was copied whole and
      holds exactly the entry's bytes afterwards. */
  lemma EntryWritten(nodes: map<string, Node>, failing: set<string>, g: Guard, dest: string, e: Entry)
    requires ExtractAll(nodes, failing, g, dest, [e]).err.None?
    ensures Admits(g, dest, e.name)
    ensures var after := ExtractAll(nodes, failing, g, dest, [e]).nodes;
      !e.isDir ==> e.failure.None? && Join(dest, e.name) in after && after[Join(dest, e.name)] == File(e.data)
  {
  }

  /** A copy that fails after the file was created leaves the bytes it delivered in the
      file and stops the extraction with its error; what earlier entries wrote stays. */
  lemma FailedCopyKeepsFile(nodes: map<string, Node>, failing: set<string>, g: Guard, dest: string, e: Entry)
    requires !e.isDir && e.failure.Some? && Admits(g, dest, e.name)
    requires MkdirAllOn(nodes, failing, Dir(Join(dest, e.name))).err.None?
    requires WriteOn(MkdirAllOn(nodes, failing, Dir(Join(dest, e.name))).nodes, failing, Join(dest, e.name), e.data).Ok?
    ensures var c := ExtractEntry(nodes, failing, g, dest, e);
      c.err == e.failure && Join(dest, e.name) in c.nodes && c.nodes[Join(dest, e.name)] == File(e.data)
  {
  }

  /** `Dir` of `../../x` is `../..`. */
  lemma UpUpDir()
    ensures Render(false, ["..", ".."]) == "../.."
    ensures Dir("../../x") == "../.."
  {
    UpUpX();
    var b: seq<string> := ["..", ".."];
    assert b[1..] == [".."];
    assert JoinWith(b, '/') == ".." + "/" + "..";
    DirOfRender(false, b, "x");
    assert b + ["x"] == ["..", "..", "x"];
  }

  /** Extracting a single entry is that entry's step. */
  lemma ExtractOne(nodes: map<string, Node>, failing: set<string>, g: Guard, dest: string, e: Entry)
    ensures ExtractAll(nodes, failing, g, dest, [e]) == ExtractEntry(nodes, failing, g, dest, e)
  {
    assert [e][1..] == [];
  }

  /** A disk holding an archive `a.zip` and the directories `..` and `../..`. */
  const EscapeDisk: map<string, Node> := map["a.zip" := File([]), ".." := Directory, "../.." := Directory]

  lemma EscapeWrite(data: seq<byte>)
    ensures MkdirAllOn(EscapeDisk, {}, Dir("../../x")) == Change(EscapeDisk, None)
    ensures WriteOn(EscapeDisk, {}, "../../x", data) == Ok(EscapeDisk["../../x" := File(data)])
  {
    UpUpDir();
    assert "../.." in EscapeDisk && EscapeDisk["../.."] == Directory;
    LastSlashAt("../..", "x");
    assert "../.." + "/" + "x" == "../../x";
    assert ("../../x")[..5] == "../..";
    assert "../../x" !in EscapeDisk;
  }

  lemma EscapeEntry(data: seq<byte>)
    ensures ExtractEntry(EscapeDisk, {}, AsWritten, "..", Entry("../x", false, data, None)) == Change(EscapeDisk["../../x" := File(data)], None)
    ensures ExtractEntry(EscapeDisk, {}, Corrected, "..", Entry("../x", false, data, None)) == Change(EscapeDisk, Some(IllegalPath("../../x")))
  {
    ParentDestEscapes();
    EscapeWrite(data);
  }

  /** The guard as written lets an archive leave a destination made of `..`: extracting an
      archive whose one entry is the file `../x` into `..` succeeds and writes `../../x`,
      although that adds a `..` to the destination; the corrected guard refuses the entry
      and changes nothing. */
  lemma ParentDestUnzipEscapes(read: ZipReader, data: seq<byte>)
    requires read([]) == Ok([Entry("../x", false, data, None)])
    ensures UnzipOn(EscapeDisk, {}, AsWritten, "a.zip", "..", read) == Change(EscapeDisk["../../x" := File(data)], None)
    ensures !EntryInside("..", "../x")
    ensures UnzipOn(EscapeDisk, {}, Corrected, "a.zip", "..", read) == Change(EscapeDisk, Some(IllegalPath("../../x")))
  {
    var e := Entry("../x", false, data, None);
    ParentDestEscapes();
    EscapeEntry(data);
    assert ReadOn(EscapeDisk, {}, "a.zip") == Ok([]);
    ExtractOne(EscapeDisk, {}, AsWritten, "..", e);
    ExtractOne(EscapeDisk, {}, Corrected, "..", e);
  }

  /** What `CopyFile(src, dst)` does: open `src`, create (truncate) `dst`, copy what `src`
      holds at that moment. */
  function CopyOn(nodes: map<string, Node>, failing: set<string>, src: string, dst: string): (c: Change)
    ensures (src in failing || src !in nodes) ==> c.nodes == nodes && c.err.Some?
    ensures c.err.None? ==> dst in c.nodes && src in nodes && nodes[src].File?
    ensures c.err.None? && src != dst ==> c.nodes == nodes[dst := nodes[src]]
    ensures forall k :: k != dst ==> (k in c.nodes <==> k in nodes) && (k in nodes ==> c.nodes[k] == nodes[k])
  {
    if src in failing then Change(nodes, Some("could not open source file: " + Denied("open", src)))
    else if src !in nodes then Change(nodes, Some("could not open source file: " + NoSuchFile("open", src)))
    else match WriteOn(nodes, failing, dst, [])
      case Err(e) => Change(nodes, Some("could not create destination file: " + e))
      case Ok(created) =>
        match created[src]
        case Directory => Change(created, Some("error while copying file: " + IsADirectory("read", src)))
        case File(bytes) => Change(created[dst := File(bytes)], None)
  }

  /** `CopyFile`. */
  method CopyFile(disk: Disk, src: string, dst: string) returns (err: Option<string>)
    modifies disk
    ensures disk.nodes == CopyOn(old(disk.nodes), disk.failing, src, dst).nodes
    ensures err == CopyOn(old(disk.nodes), disk.failing, src, dst).err
    ensures disk.failing == old(disk.failing) && disk.fetched == old(disk.fetched)
  {
    if src in disk.failing {
      return Some("could not open source file: " + Denied("open", src));
    }
    if src !in disk.nodes {
      return Some("could not open source file: " + NoSuchFile("open", src));
    }
    var created := disk.WriteFile(dst, []);
    if created.Some? {
      return Some("could not create destination file: " + created.value);
    }
    match disk.nodes[src]
    case Directory =>
      return Some("error while copying file: " + IsADirectory("read", src));
    case File(bytes) =>
      var ignored := disk.WriteFile(dst, bytes);
      return None;
  }

  /** Copying a file onto itself empties it: `os.Create` truncates it before it is read. */
  lemma CopyOntoItselfEmpties(nodes: map<string, Node>, failing: set<string>, path: string)
    requires path !in failing && path in nodes && nodes[path].File? && ParentReady(nodes, path)
    ensures CopyOn(nodes, failing, path, path) == Change(nodes[path := File([])], None)
  {
  }
}
