/** The part of the operating system the build tool changes: a file system of directories
    and files keyed by path, plus the HTTP fetches it makes. The operations follow Go's
    `os.MkdirAll`, `os.RemoveAll`, `os.Create`/`os.OpenFile(O_TRUNC)`, `os.ReadFile`,
    `os.Stat` and `util.DownloadFile` (core/util/net.go). A path is a key exactly as it is
    spelled; the tool only ever builds them by concatenation or `filepath.Join`. */
module Files {

  import opened Wrappers
  import opened Strs
  import opened Utf8
  import Lexical
  import Environment

  /** What lives at a path. */
  datatype Node = Directory | File(data: seq<byte>)

  /** The answer to an HTTP GET: a transport failure, or a status code and a body. */
  datatype Response = Unreachable(msg: string) | Status(code: int, body: seq<byte>)

  /** The network, as the answer it gives to a GET of each URL. */
  type Network = string -> Response

  /** A file system after an operation, and the error the operation returned (`None` for
      Go's `nil`): Go's operations may leave partial changes behind when they fail. */
  datatype Change = Change(nodes: map<string, Node>, err: Option<string>)

  function NoSuchFile(op: string, path: string): string {
    op + " " + path + ": no such file or directory"
  }

  function NotADirectory(op: string, path: string): string {
    op + " " + path + ": not a directory"
  }

  function IsADirectory(op: string, path: string): string {
    op + " " + path + ": is a directory"
  }

  function Denied(op: string, path: string): string {
    op + " " + path + ": permission denied"
  }

  /** The directory that must hold `path` before it can be created: the text before the
      last `/`. The root and the working directory (no `/`, or only a leading one) always
      exist. */
  predicate ParentReady(nodes: map<string, Node>, path: string) {
    var j := Lexical.LastSlash(path);
    j <= 0 || (path[..j] in nodes && nodes[path[..j]].Directory?)
  }

  /** `os.MkdirAll(path)`: nothing to do for an existing directory, `not a directory` for
      an existing file; otherwise the parent is made first and then `path` itself. Paths
      in `failing` cannot be inspected or created. */
  function MkdirAllOn(nodes: map<string, Node>, failing: set<string>, path: string): (c: Change)
    ensures forall k :: k in nodes ==> k in c.nodes && c.nodes[k] == nodes[k]
    ensures forall k :: k in c.nodes && k !in nodes ==> k <= path && c.nodes[k] == Directory
    ensures c.err.None? ==> path in c.nodes && c.nodes[path] == Directory
    decreases |path|
  {
    if path in nodes && path !in failing then
      (if nodes[path].Directory? then Change(nodes, None) else Change(nodes, Some(NotADirectory("mkdir", path))))
    else
      var j := Lexical.LastSlash(path);
      var up := if j > 0 then MkdirAllOn(nodes, failing, path[..j]) else Change(nodes, None);
      if up.err.Some? then up
      else if path == "" then Change(up.nodes, Some(NoSuchFile("mkdir", path)))
      else if path in failing then Change(up.nodes, Some(Denied("mkdir", path)))
      else Change(up.nodes[path := Directory], None)
  }

  /** A path is `root` or lies below it. */
  predicate Under(k: string, root: string) {
    k == root || HasPrefix(k, root + "/")
  }

  /** `os.RemoveAll(path)`: `path` and everything below it disappear; an empty path is a
      no-op; a path that cannot be inspected fails and removes nothing. */
  function RemoveAllOn(nodes: map<string, Node>, failing: set<string>, path: string): (r: Result<map<string, Node>>)
    ensures r.Err? <==> path != "" && path in failing
    ensures r.Ok? ==> forall k :: k in r.value <==> k in nodes && (path == "" || !Under(k, path))
    ensures r.Ok? ==> forall k :: k in r.value ==> r.value[k] == nodes[k]
  {
    if path == "" then Ok(nodes)
    else if path in failing then Err(Denied("unlinkat", path))
    else Ok(map k | k in nodes && !Under(k, path) :: nodes[k])
  }

  /** `os.Create(path)` / `os.OpenFile(path, O_WRONLY|O_CREATE|O_TRUNC)` followed by
      writing `data`: the file is created or truncated and then holds `data`. */
  function WriteOn(nodes: map<string, Node>, failing: set<string>, path: string, data: seq<byte>): (r: Result<map<string, Node>>)
    ensures r.Err? <==> path in failing || (path in nodes && nodes[path].Directory?) || !ParentReady(nodes, path)
    ensures r.Ok? ==> r.value == nodes[path := File(data)]
  {
    if path in failing then Err(Denied("open", path))
    else if path in nodes && nodes[path].Directory? then Err(IsADirectory("open", path))
    else if !ParentReady(nodes, path) then Err(NoSuchFile("open", path))
    else Ok(nodes[path := File(data)])
  }

  /** `os.ReadFile(path)`. */
  function ReadOn(nodes: map<string, Node>, failing: set<string>, path: string): (r: Result<seq<byte>>)
    ensures r.Ok? <==> path !in failing && path in nodes && nodes[path].File?
    ensures r.Ok? ==> r.value == nodes[path].data
  {
    if path in failing then Err(Denied("open", path))
    else if path !in nodes then Err(NoSuchFile("open", path))
    else match nodes[path]
      case Directory => Err(IsADirectory("read", path))
      case File(d) => Ok(d)
  }

  /** What `os.Stat(path)` finds. */
  function StatOn(nodes: map<string, Node>, failing: set<string>, path: string): (s: Environment.Stat)
    ensures s.NotExist? <==> path !in failing && path !in nodes
    ensures s.Found? <==> path !in failing && path in nodes
  {
    if path in failing then Environment.StatError(Denied("stat", path))
    else if path in nodes then Environment.Found
    else Environment.NotExist
  }

  /** `util.DownloadFile(path, url)`: create (truncate) the file, then GET the URL. A
      transport error is returned with the file left empty; any status other than 200 is
      NOT an error (the function returns the `nil` it holds at that point) and also leaves
      the file empty; a 200 answer's body becomes the file. */
  function DownloadOn(nodes: map<string, Node>, failing: set<string>, path: string, answer: Response): (c: Change)
    ensures WriteOn(nodes, failing, path, []).Err? ==> c == Change(nodes, Some(WriteOn(nodes, failing, path, []).msg))
    ensures WriteOn(nodes, failing, path, []).Ok? && answer.Unreachable? ==> c == Change(nodes[path := File([])], Some(answer.msg))
    ensures WriteOn(nodes, failing, path, []).Ok? && answer.Status? ==> c.err.None?
    ensures c.err.None? ==> path in c.nodes && c.nodes[path] == File(if answer.code == 200 then answer.body else [])
    ensures forall k :: k != path ==> (k in c.nodes <==> k in nodes) && (k in nodes ==> c.nodes[k] == nodes[k])
  {
    match WriteOn(nodes, failing, path, [])
    case Err(e) => Change(nodes, Some(e))
    case Ok(created) =>
      match answer
      case Unreachable(msg) => Change(created, Some(msg))
      case Status(code, body) =>
        if code != 200 then Change(created, None) else Change(created[path := File(body)], None)
  }

  /** The disk the tool works on. `failing` are the paths whose inspection fails (a
      permission problem, say); `fetched` records every URL requested, in order. */
  class Disk {
    var nodes: map<string, Node>
    var failing: set<string>
    var fetched: seq<string>

    constructor (nodes0: map<string, Node>, failing0: set<string>)
      ensures nodes == nodes0 && failing == failing0 && fetched == []
    {
      nodes := nodes0;
      failing := failing0;
      fetched := [];
    }

    function Stat(path: string): Environment.Stat
      reads this
    {
      StatOn(nodes, failing, path)
    }

    function Read(path: string): Result<seq<byte>>
      reads this
    {
      ReadOn(nodes, failing, path)
    }

    method MkdirAll(path: string) returns (err: Option<string>)
      modifies this
      ensures nodes == MkdirAllOn(old(nodes), failing, path).nodes
      ensures err == MkdirAllOn(old(nodes), failing, path).err
      ensures failing == old(failing) && fetched == old(fetched)
    {
      var c := MkdirAllOn(nodes, failing, path);
      nodes := c.nodes;
      err := c.err;
    }

    method RemoveAll(path: string) returns (err: Option<string>)
      modifies this
      ensures var r := RemoveAllOn(old(nodes), failing, path);
        (r.Ok? ==> nodes == r.value && err.None?) && (r.Err? ==> nodes == old(nodes) && err == Some(r.msg))
      ensures failing == old(failing) && fetched == old(fetched)
    {
      match RemoveAllOn(nodes, failing, path)
      case Ok(m) =>
        nodes := m;
        err := None;
      case Err(e) =>
        err := Some(e);
    }

    method WriteFile(path: string, data: seq<byte>) returns (err: Option<string>)
      modifies this
      ensures var r := WriteOn(old(nodes), failing, path, data);
        (r.Ok? ==> nodes == r.value && err.None?) && (r.Err? ==> nodes == old(nodes) && err == Some(r.msg))
      ensures failing == old(failing) && fetched == old(fetched)
    {
      match WriteOn(nodes, failing, path, data)
      case Ok(m) =>
        nodes := m;
        err := None;
      case Err(e) =>
        err := Some(e);
    }

    /** `util.DownloadFile(path, url)`; the GET happens only once the file was created. */
    method Download(path: string, url: string, net: Network) returns (err: Option<string>)
      modifies this
      ensures nodes == DownloadOn(old(nodes), failing, path, net(url)).nodes
      ensures err == DownloadOn(old(nodes), failing, path, net(url)).err
      ensures fetched == old(fetched) + (if WriteOn(old(nodes), failing, path, []).Ok? then [url] else [])
      ensures failing == old(failing)
    {
      match WriteOn(nodes, failing, path, [])
      case Err(e) =>
        err := Some(e);
      case Ok(created) =>
        nodes := created;
        fetched := fetched + [url];
        var answer := net(url);
        match answer
        case Unreachable(msg) =>
          err := Some(msg);
        case Status(code, body) =>
          if code == 200 {
            nodes := nodes[path := File(body)];
          }
          err := None;
    }
  }

  /** Making a directory twice is making it once. */
  lemma MkdirAllIdempotent(nodes: map<string, Node>, failing: set<string>, path: string)
    requires MkdirAllOn(nodes, failing, path).err.None?
    ensures path !in failing
    ensures MkdirAllOn(MkdirAllOn(nodes, failing, path).nodes, failing, path) == Change(MkdirAllOn(nodes, failing, path).nodes, None)
  {
  }

  /** `MkdirAll` below an existing file fails with `not a directory`. */
  lemma MkdirAllUnderFile(nodes: map<string, Node>, failing: set<string>, file: string, rest: string)
    requires file in nodes && nodes[file].File? && file !in failing && file != ""
    requires '/' !in rest && file + "/" + rest !in nodes
    ensures MkdirAllOn(nodes, failing, file + "/" + rest).err.Some?
  {
    Lexical.LastSlashAt(file, rest);
    assert (file + "/" + rest)[..|file|] == file;
  }
}
