/** Directory trees as the operating system reports them, and `filepath.Walk` over them.
    A `View` says what is found at each path; a walk looks only at the tree found at its
    start path, and reading a file looks its path up again. */
module Walks {

  import opened Wrappers
  import Lexical

  /** What is found at a path, or one entry of a directory listing. */
  datatype Tree =
    | FileEntry(name: string, content: Result<string>)
    | DirEntry(name: string, children: seq<Tree>)
    | UnlistableDir(name: string, msg: string)
    | Unreadable(name: string, msg: string)
    | BrokenEntry(msg: string)
  // FileEntry: a file; reading it gives `content`.
  // DirEntry: a directory and its entries, in the order the walk takes them (for
  //   `filepath.Walk`, sorted by name).
  // UnlistableDir: a directory whose listing fails.
  // Unreadable: an entry whose metadata (`Lstat`, `file_type`) cannot be read.
  // BrokenEntry: an error a listing yields in place of an entry.

  /** What the operating system reports at each path. */
  type View = string -> Tree

  /** `os.ReadFile(path)` / `fs::read_to_string(path)`. */
  function ReadText(view: View, path: string): (r: Result<string>)
    ensures view(path).FileEntry? ==> r == view(path).content
    ensures !view(path).FileEntry? ==> r.Err?
  {
    match view(path)
    case FileEntry(_, c) => c
    case DirEntry(_, _) => Err("read " + path + ": is a directory")
    case UnlistableDir(_, _) => Err("read " + path + ": is a directory")
    case Unreadable(_, m) => Err(m)
    case BrokenEntry(m) => Err(m)
  }

  /** The name `os.Lstat(path)` reports: the last element of the path once trailing
      slashes are dropped (a lone `/` stays). */
  function Base(path: string): (r: string)
    ensures '/' in r ==> r == "/"
    decreases |path|
  {
    if |path| > 1 && path[|path| - 1] == '/' then Base(path[..|path| - 1])
    else if |path| <= 1 then path
    else path[Lexical.LastSlash(path) + 1..]
  }

  /** The base of `dir/x` is `x` when `x` is a plain name. */
  lemma BaseOfChild(dir: string, x: string)
    requires x != "" && '/' !in x
    ensures Base(dir + "/" + x) == x
  {
    var s := dir + "/" + x;
    assert s[|s| - 1] == x[|x| - 1];
    assert x[|x| - 1] in x;
    Lexical.LastSlashAt(dir, x);
    assert s[|dir| + 1..] == x;
  }

  /** One call of a walk function: an entry reached without error, with its path and what
      `Lstat` found there (whose `Name()` is `Base(path)`), or the error the walk hands
      over for a path. */
  datatype Event = Visit(path: string, node: Tree) | Failure(path: string, msg: string)

  /** The first error a listing yields in place of an entry. Go reads a directory's names
      in one go, so such an error fails the listing as a whole. */
  function ListingError(cs: seq<Tree>): (r: Option<string>)
    ensures r.None? <==> forall k :: 0 <= k < |cs| ==> !cs[k].BrokenEntry?
    decreases |cs|
  {
    if cs == [] then None
    else if cs[0].BrokenEntry? then Some(cs[0].msg)
    else ListingError(cs[1..])
  }

  /** The calls `filepath.Walk(path, fn)` makes, in order, while `fn` returns nil: the
      entry itself, then, for a directory whose names can be read, the walk of each entry
      at `filepath.Join(path, name)`. A path whose `Lstat` fails and a directory whose
      listing fails make one call each, with the error, and are not descended into. */
  function GoWalk(path: string, t: Tree): (evs: seq<Event>)
    ensures evs != []
    ensures evs[0].path == path
    decreases t
  {
    match t
    case FileEntry(_, _) => [Visit(path, t)]
    case DirEntry(_, cs) =>
      (match ListingError(cs)
       case Some(m) => [Failure(path, m)]
       case None => [Visit(path, t)] + GoWalkAll(path, cs))
    case UnlistableDir(_, m) => [Failure(path, m)]
    case Unreadable(_, m) => [Failure(path, m)]
    case BrokenEntry(m) => [Failure(path, m)]
  }

  /** The walks of the entries of a listing, one after the other. */
  function GoWalkAll(path: string, cs: seq<Tree>): seq<Event>
    requires ListingError(cs).None?
    decreases cs
  {
    if cs == [] then [] else GoWalk(Lexical.Join(path, cs[0].name), cs[0]) + GoWalkAll(path, cs[1..])
  }

  /** A walk only visits files and directories: everything else is reported as an error. */
  lemma {:induction false} VisitsAreEntries(path: string, t: Tree)
    ensures forall k :: 0 <= k < |GoWalk(path, t)| && GoWalk(path, t)[k].Visit? ==>
      GoWalk(path, t)[k].node.FileEntry? || GoWalk(path, t)[k].node.DirEntry?
    decreases t
  {
    if t.DirEntry? && ListingError(t.children).None? {
      VisitsAreEntriesAll(path, t.children);
      var rest := GoWalkAll(path, t.children);
      assert GoWalk(path, t) == [Visit(path, t)] + rest;
      forall k | 1 <= k < |GoWalk(path, t)|
        ensures GoWalk(path, t)[k] == rest[k - 1]
      {
      }
    }
  }

  lemma {:induction false} VisitsAreEntriesAll(path: string, cs: seq<Tree>)
    requires ListingError(cs).None?
    ensures forall k :: 0 <= k < |GoWalkAll(path, cs)| && GoWalkAll(path, cs)[k].Visit? ==>
      GoWalkAll(path, cs)[k].node.FileEntry? || GoWalkAll(path, cs)[k].node.DirEntry?
    decreases cs
  {
    if cs != [] {
      var first := GoWalk(Lexical.Join(path, cs[0].name), cs[0]);
      VisitsAreEntries(Lexical.Join(path, cs[0].name), cs[0]);
      VisitsAreEntriesAll(path, cs[1..]);
      var rest := GoWalkAll(path, cs[1..]);
      forall k | |first| <= k < |first| + |rest|
        ensures (first + rest)[k] == rest[k - |first|]
      {
      }
    }
  }

  /** What a walk callback makes of one call: an error, which ends the walk and is what
      the walk returns, or nil, possibly after appending an item to the caller's slice. */
  type Callback<T> = Event -> Result<Option<T>>

  /** The items a walk appends, or the error of the first failing call. */
  function Collected<T>(evs: seq<Event>, cb: Callback<T>): Result<seq<T>>
    decreases |evs|
  {
    if evs == [] then Ok([])
    else match cb(evs[0])
      case Err(e) => Err(e)
      case Ok(kept) =>
        match Collected(evs[1..], cb)
        case Err(e) => Err(e)
        case Ok(items) => Ok((if kept.Some? then [kept.value] else []) + items)
  }

  /** A walk succeeds exactly when none of its calls fails, and then it holds exactly the
      items the calls kept; otherwise it returns the error of the first failing call. */
  lemma {:induction false} CollectedSpec<T>(evs: seq<Event>, cb: Callback<T>)
    ensures Collected(evs, cb).Ok? <==> forall k :: 0 <= k < |evs| ==> cb(evs[k]).Ok?
    ensures Collected(evs, cb).Ok? ==>
      forall x :: x in Collected(evs, cb).value <==> exists k :: 0 <= k < |evs| && cb(evs[k]) == Ok(Some(x))
    ensures Collected(evs, cb).Err? ==>
      exists k :: 0 <= k < |evs| && cb(evs[k]) == Err(Collected(evs, cb).msg) && forall l :: 0 <= l < k ==> cb(evs[l]).Ok?
    decreases |evs|
  {
    if evs != [] {
      CollectedSpec(evs[1..], cb);
      var tail := evs[1..];
      assert forall k :: 1 <= k < |evs| ==> evs[k] == tail[k - 1];
      var c := Collected(evs, cb);
      if cb(evs[0]).Ok? && Collected(tail, cb).Ok? {
        var kept := cb(evs[0]).value;
        var items := Collected(tail, cb).value;
        assert c.value == (if kept.Some? then [kept.value] else []) + items;
        forall x
          ensures x in c.value <==> exists k :: 0 <= k < |evs| && cb(evs[k]) == Ok(Some(x))
        {
          if x in items {
            var k :| 0 <= k < |tail| && cb(tail[k]) == Ok(Some(x));
            assert cb(evs[k + 1]) == Ok(Some(x));
          }
          if exists k :: 0 <= k < |evs| && cb(evs[k]) == Ok(Some(x)) {
            var k :| 0 <= k < |evs| && cb(evs[k]) == Ok(Some(x));
            if k > 0 {
              assert cb(tail[k - 1]) == Ok(Some(x));
            }
          }
        }
      } else if cb(evs[0]).Ok? {
        var k :| 0 <= k < |tail| && cb(tail[k]) == Err(Collected(tail, cb).msg) && forall l :: 0 <= l < k ==> cb(tail[l]).Ok?;
        assert cb(evs[k + 1]) == Err(c.msg);
        assert forall l :: 1 <= l < k + 1 ==> cb(evs[l]) == cb(tail[l - 1]);
      } else {
        assert cb(evs[0]) == Err(c.msg);
      }
    }
  }

  /** The items appended so far followed by what the rest of the walk gives. */
  function Prefixed<T>(acc: seq<T>, r: Result<seq<T>>): Result<seq<T>> {
    match r
    case Err(e) => Err(e)
    case Ok(items) => Ok(acc + items)
  }

  /** `filepath.Walk(root, fn)` with a callback that appends what it keeps: the calls are
      made in order and the first error ends the walk and is returned. */
  method Walk<T>(view: View, root: string, cb: Callback<T>) returns (r: Result<seq<T>>)
    ensures r == Collected(GoWalk(root, view(root)), cb)
  {
    var evs := GoWalk(root, view(root));
    var acc: seq<T> := [];
    var i := 0;
    assert evs[i..] == evs;
    if Collected(evs, cb).Ok? {
      assert acc + Collected(evs, cb).value == Collected(evs, cb).value;
    }
    while i < |evs|
      invariant i <= |evs|
      invariant Collected(evs, cb) == Prefixed(acc, Collected(evs[i..], cb))
    {
      assert evs[i..][0] == evs[i] && evs[i..][1..] == evs[i + 1..];
      var step := cb(evs[i]);
      if step.Err? {
        return Err(step.msg);
      }
      if step.value.Some? {
        var rest := Collected(evs[i + 1..], cb);
        if rest.Ok? {
          assert acc + ([step.value.value] + rest.value) == acc + [step.value.value] + rest.value;
        }
        acc := acc + [step.value.value];
      } else {
        var rest := Collected(evs[i + 1..], cb);
        if rest.Ok? {
          assert [] + rest.value == rest.value;
        }
      }
      i := i + 1;
    }
    assert evs[i..] == [];
    assert acc + [] == acc;
    return Ok(acc);
  }
}
