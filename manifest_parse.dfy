/** Reading a `MANIFEST.MF` (src/backend/dependency/manifest.rs): the file's lines as
    `str::lines` gives them, each split at its first `": "` into a key and a value, later
    keys overwriting earlier ones. */
module ManifestParse {

  import opened Wrappers
  import opened Strs

  /** The header names `CommonFields` knows. */
  datatype CommonField = ManifestVersion | PreMainClass | MainClass | LombokVersion | AgentClass | CanRedefineClasses

  /** `CommonFields::as_str`. */
  function AsStr(f: CommonField): (r: string)
    ensures r != [] && ':' !in r && ' ' !in r
  {
    match f
    case ManifestVersion => "Manifest-Version"
    case PreMainClass => "Premain-Class"
    case MainClass => "Main-Class"
    case LombokVersion => "Lombok-Version"
    case AgentClass => "Agent-Class"
    case CanRedefineClasses => "Can-Redefine-Classes"
  }

  /** The six fields have six different header names. */
  lemma AsStrInjective(f: CommonField, g: CommonField)
    requires AsStr(f) == AsStr(g)
    ensures f == g
  {
  }

  /** A line without the carriage return that preceded its newline. */
  function TrimReturn(s: string): string {
    if s != [] && s[|s| - 1] == '\r' then s[..|s| - 1] else s
  }

  /** `str::lines`: the pieces between newlines, a `\r` before a newline dropped; a final
      newline does not start another line, so the empty text has no lines. */
  function Lines(s: string): (ls: seq<string>)
    ensures forall i :: 0 <= i < |ls| ==> '\n' !in ls[i]
  {
    var pieces := Split(s, '\n');
    SplitPieces(s, '\n');
    var kept := if pieces[|pieces| - 1] == "" then pieces[..|pieces| - 1] else pieces;
    seq(|kept|, i requires 0 <= i < |kept| => if i < |pieces| - 1 then TrimReturn(kept[i]) else kept[i])
  }

  /** Text made of lines, each followed by a newline. */
  function Written(ls: seq<string>): string
    decreases |ls|
  {
    if ls == [] then "" else ls[0] + "\n" + Written(ls[1..])
  }

  lemma {:induction false} SplitWritten(ls: seq<string>)
    requires forall i :: 0 <= i < |ls| ==> '\n' !in ls[i]
    ensures Split(Written(ls), '\n') == ls + [""]
    decreases |ls|
  {
    if ls != [] {
      SplitWritten(ls[1..]);
      SplitCons(ls[0], '\n', Written(ls[1..]));
      assert ls[0] + "\n" + Written(ls[1..]) == ls[0] + ['\n'] + Written(ls[1..]);
      assert [ls[0]] + (ls[1..] + [""]) == ls + [""];
    }
  }

  /** Reading back lines written one per line gives them again, as long as none holds a
      newline or ends in a carriage return. */
  lemma LinesOfWritten(ls: seq<string>)
    requires forall i :: 0 <= i < |ls| ==> '\n' !in ls[i] && (ls[i] == [] || ls[i][|ls[i]| - 1] != '\r')
    ensures Lines(Written(ls)) == ls
  {
    SplitWritten(ls);
    var pieces := ls + [""];
    assert pieces[..|pieces| - 1] == ls;
    var r := Lines(Written(ls));
    assert |r| == |ls|;
    forall i | 0 <= i < |ls|
      ensures r[i] == ls[i]
    {
      assert r[i] == TrimReturn(ls[i]);
    }
  }

  /** `line.find(": ")` followed by `split_at` and dropping the separator. */
  function ParseLine(line: string): (r: Option<(string, string)>)
    ensures r.Some? ==> line == r.value.0 + ": " + r.value.1
  {
    match Find(line, ": ")
    case None => None
    case Some(i) =>
      assert line == line[..i] + line[i..i + 2] + line[i + 2..];
      Some((line[..i], line[i + 2..]))
  }

  /** The map built from the lines in order: each line with a separator inserts its key
      and value, over any earlier value of that key. */
  function Parsed(lines: seq<string>): map<string, string>
    decreases |lines|
  {
    if lines == [] then map[]
    else
      var m := Parsed(lines[..|lines| - 1]);
      match ParseLine(lines[|lines| - 1])
      case None => m
      case Some(kv) => m[kv.0 := kv.1]
  }

  /** `parse`, with `fs::read_to_string` as the read result it gets. */
  method Parse(read: Result<string>) returns (r: Result<map<string, string>>)
    ensures read.Err? ==> r == Err(read.msg)
    ensures read.Ok? ==> r == Ok(Parsed(Lines(read.value)))
  {
    if read.Err? {
      return Err(read.msg);
    }
    var lines := Lines(read.value);
    var manifest: map<string, string> := map[];
    var i := 0;
    while i < |lines|
      invariant i <= |lines|
      invariant manifest == Parsed(lines[..i])
    {
      assert lines[..i + 1][..i] == lines[..i];
      var line := lines[i];
      var found := Find(line, ": ");
      if found.Some? {
        var key := line[..found.value];
        var value := line[found.value..][2..];
        assert value == line[found.value + 2..];
        manifest := manifest[key := value];
      }
      i := i + 1;
    }
    assert lines[..i] == lines;
    return Ok(manifest);
  }

  /** `Find` gives the first occurrence. */
  lemma {:induction false} FindIsFirst(s: string, sub: string)
    ensures Find(s, sub).Some? ==> forall j :: 0 <= j < Find(s, sub).value ==> !(sub <= s[j..])
    ensures Find(s, sub).None? ==> forall j :: 0 <= j <= |s| ==> !(sub <= s[j..])
    decreases |s|
  {
    if !(sub <= s) && s != [] {
      FindIsFirst(s[1..], sub);
      forall j | 1 <= j <= |s|
        ensures s[j..] == s[1..][j - 1..]
      {
      }
    }
  }

  /** A line's key holds no `": "`: only the first occurrence splits, and the value may
      hold more of them. */
  lemma KeyHasNoSeparator(line: string)
    requires ParseLine(line).Some?
    ensures var key := ParseLine(line).value.0;
      forall j :: 0 <= j && j + 2 <= |key| ==> !(": " <= key[j..])
  {
    FindIsFirst(line, ": ");
    var i := Find(line, ": ").value;
    var key := line[..i];
    forall j | 0 <= j && j + 2 <= |key|
      ensures !(": " <= key[j..])
    {
      assert !(": " <= line[j..]);
      assert key[j..j + 2] == line[j..j + 2];
      assert (": " <= key[j..]) == (key[j..j + 2] == ": ");
      assert (": " <= line[j..]) == (line[j..j + 2] == ": ");
    }
  }

  /** Finding a separator past a prefix that holds no `:`. */
  lemma {:induction false} FindAfter(head: string, rest: string)
    requires ':' !in head && ": " <= rest
    ensures Find(head + rest, ": ") == Some(|head|)
    decreases |head|
  {
    if head == [] {
      assert head + rest == rest;
    } else {
      var s := head + rest;
      assert s[0] == head[0];
      assert !(": " <= s);
      FindAfter(head[1..], rest);
      assert s[1..] == head[1..] + rest;
    }
  }

  /** The line sets key `k`. */
  predicate Sets(line: string, k: string) {
    ParseLine(line).Some? && ParseLine(line).value.0 == k
  }

  /** One more line: the map of all lines is the map of the earlier ones, updated by the
      last line if it has a separator. */
  lemma ParsedSnoc(lines: seq<string>, k: string)
    requires lines != []
    ensures var init := lines[..|lines| - 1];
      var last := lines[|lines| - 1];
      (Sets(last, k) ==> k in Parsed(lines) && Parsed(lines)[k] == ParseLine(last).value.1)
      && (!Sets(last, k) ==>
            (k in Parsed(lines) <==> k in Parsed(init)) && (k in Parsed(init) ==> Parsed(lines)[k] == Parsed(init)[k]))
  {
  }

  /** The index of the last line that sets key `k`, or -1 when none does. */
  function LastSetter(lines: seq<string>, k: string): (r: int)
    ensures -1 <= r < |lines|
    ensures r >= 0 ==> Sets(lines[r], k)
    ensures forall j :: r < j < |lines| ==> !Sets(lines[j], k)
    decreases |lines|
  {
    if lines == [] then -1
    else if Sets(lines[|lines| - 1], k) then |lines| - 1
    else LastSetter(lines[..|lines| - 1], k)
  }

  /** A key is in the map exactly when some line sets it, and its value is the one of
      the last line that does: a later line overwrites an earlier one. */
  lemma {:induction false} ParsedByLastSetter(lines: seq<string>, k: string)
    ensures k in Parsed(lines) <==> LastSetter(lines, k) >= 0
    ensures k in Parsed(lines) ==> Parsed(lines)[k] == ParseLine(lines[LastSetter(lines, k)]).value.1
    decreases |lines|
  {
    if lines != [] {
      var init := lines[..|lines| - 1];
      ParsedSnoc(lines, k);
      ParsedByLastSetter(init, k);
      var r := LastSetter(init, k);
      if r >= 0 {
        assert lines[r] == init[r];
      }
    }
  }

  /** A key appears in the map exactly when some line sets it. */
  lemma ParsedKeys(lines: seq<string>, k: string)
    ensures k in Parsed(lines) <==> exists i :: 0 <= i < |lines| && Sets(lines[i], k)
  {
    ParsedByLastSetter(lines, k);
    var r := LastSetter(lines, k);
    if r >= 0 {
      assert Sets(lines[r], k);
    }
  }
}
