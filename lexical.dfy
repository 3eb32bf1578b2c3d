/** Go's lexical path functions (`path/filepath` on a system whose separator is `/`):
    `Clean`, `Join` of two elements and `Dir`, as the zip extractor uses them. A path is
    split at every `/`; `Clean` drops empty and `.` elements, lets `..` remove the element
    before it, drops `..` right after the root, and prints the result back with single
    slashes (`.` for nothing, `/` for the bare root). */
module Lexical {

  import opened Strs

  /** One element applied to the stack of elements kept so far. */
  function Step(rooted: bool, st: seq<string>, p: string): seq<string> {
    if p == "" || p == "." then st
    else if p == ".." then
      (if |st| > 0 && st[|st| - 1] != ".." then st[..|st| - 1]
       else if rooted then st
       else st + [".."])
    else st + [p]
  }

  /** The elements `ps` applied in order to the stack `st`. */
  function Normalize(rooted: bool, st: seq<string>, ps: seq<string>): seq<string>
    decreases |ps|
  {
    if ps == [] then st else Normalize(rooted, Step(rooted, st, ps[0]), ps[1..])
  }

  /** The path printed from its elements. */
  function Render(rooted: bool, st: seq<string>): string {
    if rooted then "/" + JoinWith(st, '/')
    else if st == [] then "."
    else JoinWith(st, '/')
  }

  /** The path starts at the root. */
  predicate Rooted(s: string) {
    |s| > 0 && s[0] == '/'
  }

  /** The elements of `s` after cleaning. */
  function Elements(s: string): seq<string> {
    Normalize(Rooted(s), [], Split(s, '/'))
  }

  /** `filepath.Clean`. */
  function Clean(s: string): string {
    Render(Rooted(s), Elements(s))
  }

  /** `filepath.Join(dir, name)`: the non-empty arguments joined by `/` and cleaned, or the
      empty string when both are empty. */
  function Join(dir: string, name: string): string {
    if dir != "" then Clean(dir + "/" + name)
    else if name != "" then Clean(name)
    else ""
  }

  /** Position of the last `/` in `s`, or -1. */
  function LastSlash(s: string): (r: int)
    ensures -1 <= r < |s|
    ensures r >= 0 ==> s[r] == '/'
    ensures forall k :: r < k < |s| ==> s[k] != '/'
    decreases |s|
  {
    if s == [] then -1
    else if s[|s| - 1] == '/' then |s| - 1
    else LastSlash(s[..|s| - 1])
  }

  /** `filepath.Dir`: everything up to the last `/`, cleaned. */
  function Dir(s: string): string {
    Clean(s[..LastSlash(s) + 1])
  }

  /** A stack `Clean` can produce: no empty, `.` or slashed element, and `..` only at the
      front of a relative path. */
  predicate Normal(rooted: bool, st: seq<string>) {
    (forall k :: 0 <= k < |st| ==> st[k] != "" && st[k] != "." && '/' !in st[k])
    && (forall k, l :: 0 <= l < k < |st| && st[k] == ".." ==> st[l] == "..")
    && (rooted ==> ".." !in st)
  }

  lemma StepNormal(rooted: bool, st: seq<string>, p: string)
    requires Normal(rooted, st) && '/' !in p
    ensures Normal(rooted, Step(rooted, st, p))
  {
    if p == ".." && !(|st| > 0 && st[|st| - 1] != "..") && !rooted {
      var s2 := st + [".."];
      forall k, l | 0 <= l < k < |s2| && s2[k] == ".."
        ensures s2[l] == ".."
      {
        if k < |st| {
        } else if |st| > 0 {
          assert st[|st| - 1] == "..";
        }
      }
    } else if p != "" && p != "." && p != ".." {
      var s2 := st + [p];
      assert forall k :: 0 <= k < |st| ==> s2[k] == st[k];
    }
  }

  /** Cleaning any element list gives a normal stack. */
  lemma {:induction false} NormalizeNormal(rooted: bool, st: seq<string>, ps: seq<string>)
    requires Normal(rooted, st)
    requires forall k :: 0 <= k < |ps| ==> '/' !in ps[k]
    ensures Normal(rooted, Normalize(rooted, st, ps))
    decreases |ps|
  {
    if ps != [] {
      StepNormal(rooted, st, ps[0]);
      NormalizeNormal(rooted, Step(rooted, st, ps[0]), ps[1..]);
    }
  }

  /** Elements that are already normal pass through unchanged. */
  lemma {:induction false} NormalizeKeeps(rooted: bool, st: seq<string>, ps: seq<string>)
    requires Normal(rooted, st + ps)
    ensures Normalize(rooted, st, ps) == st + ps
    decreases |ps|
  {
    if ps != [] {
      var p := ps[0];
      assert (st + ps)[|st|] == p;
      if p == ".." {
        assert !rooted;
        if |st| > 0 {
          assert (st + ps)[|st| - 1] == "..";
        }
      }
      assert Step(rooted, st, p) == st + [p];
      assert st + [p] + ps[1..] == st + ps;
      NormalizeKeeps(rooted, st + [p], ps[1..]);
    }
  }

  /** Applying two lists one after the other is applying their concatenation. */
  lemma {:induction false} NormalizeAppend(rooted: bool, st: seq<string>, a: seq<string>, b: seq<string>)
    ensures Normalize(rooted, st, a + b) == Normalize(rooted, Normalize(rooted, st, a), b)
    decreases |a|
  {
    if a != [] {
      assert (a + b)[0] == a[0] && (a + b)[1..] == a[1..] + b;
      NormalizeAppend(rooted, Step(rooted, st, a[0]), a[1..], b);
    } else {
      assert a + b == b;
    }
  }

  /** Splitting at a separator splits the two sides independently. */
  lemma {:induction false} SplitConcat(a: string, sep: char, b: string)
    ensures Split(a + [sep] + b, sep) == Split(a, sep) + Split(b, sep)
    decreases |a|
  {
    var s := a + [sep] + b;
    if a == [] {
      assert s == [sep] + b;
      SplitHead(sep, b, sep);
    } else {
      var c, tail := a[0], a[1..] + [sep] + b;
      assert s == [c] + tail;
      assert a == [c] + a[1..];
      SplitHead(c, tail, sep);
      SplitHead(c, a[1..], sep);
      SplitConcat(a[1..], sep, b);
      PiecesCons(c, sep, Split(a[1..], sep), Split(b, sep), Split(a, sep), Split(s, sep));
    }
  }

  /** The sequence step of `SplitConcat`: the pieces of `c` in front of a text whose
      pieces are `ra + sb`, against those of `c` in front of a text whose pieces are `ra`. */
  lemma PiecesCons(c: char, sep: char, ra: seq<string>, sb: seq<string>, sa: seq<string>, ss: seq<string>)
    requires |ra| >= 1
    requires ss == if c == sep then [""] + (ra + sb) else [[c] + (ra + sb)[0]] + (ra + sb)[1..]
    requires sa == if c == sep then [""] + ra else [[c] + ra[0]] + ra[1..]
    ensures ss == sa + sb
  {
    if c != sep {
      assert (ra + sb)[0] == ra[0] && (ra + sb)[1..] == ra[1..] + sb;
    }
  }

  /** Splitting text that starts with `c`: a separator starts an empty first piece,
      anything else joins the first piece of the rest. */
  lemma SplitHead(c: char, rest: string, sep: char)
    ensures Split([c] + rest, sep)
      == if c == sep then [""] + Split(rest, sep) else [[c] + Split(rest, sep)[0]] + Split(rest, sep)[1..]
  {
    assert ([c] + rest)[0] == c && ([c] + rest)[1..] == rest;
  }

  lemma {:induction false} JoinSnoc(parts: seq<string>, x: string, sep: char)
    requires parts != []
    ensures JoinWith(parts + [x], sep) == JoinWith(parts, sep) + [sep] + x
    decreases |parts|
  {
    if |parts| == 1 {
      assert (parts + [x])[1..] == [x];
    } else {
      assert (parts + [x])[1..] == parts[1..] + [x];
      JoinSnoc(parts[1..], x, sep);
    }
  }

  /** Splitting joined pieces that hold no separator gives the pieces back. */
  lemma {:induction false} SplitJoin(parts: seq<string>, sep: char)
    requires parts != []
    requires forall k :: 0 <= k < |parts| ==> sep !in parts[k]
    ensures Split(JoinWith(parts, sep), sep) == parts
    decreases |parts|
  {
    if |parts| == 1 {
      SplitNone(parts[0], sep);
    } else {
      SplitJoin(parts[1..], sep);
      SplitCons(parts[0], sep, JoinWith(parts[1..], sep));
      assert [parts[0]] + parts[1..] == parts;
    }
  }

  /** A rendered normal stack starts at the root exactly when it is rooted, and its
      elements are the stack. */
  lemma ElementsOfRender(rooted: bool, st: seq<string>)
    requires Normal(rooted, st)
    ensures Rooted(Render(rooted, st)) == rooted
    ensures Elements(Render(rooted, st)) == st
    ensures Render(rooted, st) != ""
  {
    var s := Render(rooted, st);
    if st != [] {
      SplitJoin(st, '/');
      assert JoinWith(st, '/') != [] && JoinWith(st, '/')[0] == st[0][0] by {
        JoinFront(st, '/');
      }
      assert st[0][0] != '/' by {
        assert '/' !in st[0];
      }
    }
    if rooted {
      assert s == [] + ['/'] + JoinWith(st, '/');
      SplitConcat([], '/', JoinWith(st, '/'));
      if st == [] {
        assert Split(s, '/') == ["", ""];
        var e: seq<string> := [""];
        assert ["", ""][1..] == e && e[1..] == [];
        assert Normalize(rooted, [], e) == [];
      } else {
        assert Split(s, '/') == [""] + st;
        NormalizeKeeps(rooted, [], st);
        assert [] + st == st;
      }
    } else if st == [] {
      var dot := ".";
      assert dot[1..] == [] && dot[0] == '.';
      assert Split(dot[1..], '/') == [""];
      assert ['.'] + "" == dot;
      assert Split(dot, '/') == [dot];
    } else {
      NormalizeKeeps(rooted, [], st);
      assert [] + st == st;
    }
  }

  lemma {:induction false} JoinFront(parts: seq<string>, sep: char)
    requires parts != [] && parts[0] != []
    ensures JoinWith(parts, sep) != [] && JoinWith(parts, sep)[0] == parts[0][0]
  {
  }

  /** `Clean` is idempotent, and what it returns is a rendered normal stack. */
  lemma CleanIdempotent(s: string)
    ensures Normal(Rooted(s), Elements(s))
    ensures Elements(Clean(s)) == Elements(s) && Rooted(Clean(s)) == Rooted(s)
    ensures Clean(Clean(s)) == Clean(s)
    ensures Clean(s) != ""
  {
    SplitPieces(s, '/');
    NormalizeNormal(Rooted(s), [], Split(s, '/'));
    ElementsOfRender(Rooted(s), Elements(s));
  }

  /** The elements of `dir + "/" + name` are those of `name` applied on top of the
      elements of `dir`. */
  lemma JoinElements(dir: string, name: string)
    requires dir != ""
    ensures Rooted(dir + "/" + name) == Rooted(dir)
    ensures Elements(dir + "/" + name) == Normalize(Rooted(dir), Elements(dir), Split(name, '/'))
  {
    SplitConcat(dir, '/', name);
    NormalizeAppend(Rooted(dir), [], Split(dir, '/'), Split(name, '/'));
  }

  lemma {:induction false} LastSlashAt(a: string, x: string)
    requires '/' !in x
    ensures LastSlash(a + "/" + x) == |a|
    decreases |x|
  {
    var s := a + "/" + x;
    if x != [] {
      var y := x[..|x| - 1];
      assert x[|x| - 1] in x;
      assert s[..|s| - 1] == a + "/" + y;
      assert '/' !in y by {
        assert forall k :: 0 <= k < |y| ==> y[k] == x[k];
      }
      LastSlashAt(a, y);
    }
  }

  lemma RenderSnoc(rooted: bool, st: seq<string>, x: string)
    requires Normal(rooted, st + [x]) && st != []
    ensures Normal(rooted, st)
    ensures Render(rooted, st + [x]) == Render(rooted, st) + "/" + x
  {
    NormalInit(rooted, st, x);
    var j := JoinWith(st, '/');
    JoinSnoc(st, x, '/');
    assert j + ['/'] + x == j + "/" + x;
    if rooted {
      assert "/" + (j + "/" + x) == ("/" + j) + "/" + x;
    }
  }

  /** Dropping the last element keeps a path normal. */
  lemma NormalInit(rooted: bool, st: seq<string>, x: string)
    requires Normal(rooted, st + [x])
    ensures Normal(rooted, st)
  {
    assert forall k :: 0 <= k < |st| ==> st[k] == (st + [x])[k];
  }

  /** A trailing slash on a clean path cleans away. */
  lemma CleanTrailingSlash(rooted: bool, st: seq<string>)
    requires Normal(rooted, st)
    ensures Clean(Render(rooted, st) + "/") == Render(rooted, st)
  {
    var p := Render(rooted, st);
    ElementsOfRender(rooted, st);
    assert p + "/" == p + "/" + "";
    JoinElements(p, "");
    assert Split("", '/') == [""];
  }

  /** The directory of a clean path with at least two elements is the path without its
      last element. */
  lemma DirOfRender(rooted: bool, st: seq<string>, x: string)
    requires Normal(rooted, st + [x]) && st != []
    ensures Normal(rooted, st)
    ensures Render(rooted, st + [x]) == Render(rooted, st) + "/" + x
    ensures Dir(Render(rooted, st + [x])) == Render(rooted, st)
  {
    RenderSnoc(rooted, st, x);
    var p := Render(rooted, st);
    assert '/' !in x by {
      assert (st + [x])[|st|] == x;
    }
    LastSlashAt(p, x);
    assert (p + "/" + x)[..|p| + 1] == p + "/";
    CleanTrailingSlash(rooted, st);
  }

  /** `filepath.Clean` never yields a path beginning `./` or `//`. */
  lemma CleanShape(s: string)
    ensures !HasPrefix(Clean(s), "./") && !HasPrefix(Clean(s), "//")
  {
    var st := Elements(s);
    CleanIdempotent(s);
    if st != [] {
      JoinFront(st, '/');
      assert '/' !in st[0];
      if |st[0]| == 1 {
        assert st[0] == [st[0][0]];
      } else {
        assert JoinWith(st, '/')[1] == st[0][1] by {
          JoinPrefix(st, '/');
        }
      }
    }
  }

  lemma {:induction false} JoinPrefix(parts: seq<string>, sep: char)
    requires parts != []
    ensures parts[0] <= JoinWith(parts, sep)
  {
  }

  /** The zip-slip guard as the extractor writes it: the joined path must start with the
      cleaned destination followed by `/`. */
  predicate EntryAllowed(dest: string, name: string) {
    HasPrefix(Join(dest, name), Clean(dest) + "/")
  }

  /** The guard with the evidently intended meaning: besides the prefix test, none of the
      elements the entry adds to the destination's is `..`. On a destination that starts
      at the root this is the prefix test alone (see `RootedGuardAgrees`). */
  predicate EntryInside(dest: string, name: string) {
    EntryAllowed(dest, name)
    && forall k :: |Elements(dest)| <= k < |Elements(Join(dest, name))| ==> Elements(Join(dest, name))[k] != ".."
  }

  /** Once a relative stack starts with `..`, it keeps it. */
  lemma {:induction false} DotDotSticks(st: seq<string>, ps: seq<string>)
    requires st != [] && st[0] == ".."
    ensures Normalize(false, st, ps) != [] && Normalize(false, st, ps)[0] == ".."
    decreases |ps|
  {
    if ps != [] {
      DotDotSticks(Step(false, st, ps[0]), ps[1..]);
    }
  }

  /** Elements that never climb out of where they start simply extend any stack. */
  lemma {:induction false} ExtendsBase(rooted: bool, base: seq<string>, st: seq<string>, ps: seq<string>)
    requires ".." !in st && ".." !in Normalize(false, st, ps)
    ensures Normalize(rooted, base + st, ps) == base + Normalize(false, st, ps)
    decreases |ps|
  {
    if ps != [] {
      var p := ps[0];
      if p == ".." && st == [] {
        assert Step(false, st, p) == [".."];
        DotDotSticks([".."], ps[1..]);
        assert false;
      }
      if p == ".." {
        assert (base + st)[|base + st| - 1] == st[|st| - 1];
        assert (base + st)[..|base + st| - 1] == base + st[..|st| - 1];
      } else if p != "" && p != "." {
        assert base + st + [p] == base + (st + [p]);
      }
      ExtendsBase(rooted, base, Step(false, st, p), ps[1..]);
    }
  }

  /** An entry that stays below extends the destination's elements. */
  lemma JoinInside(dest: string, name: string)
    requires dest != "" && ".." !in Normalize(false, [], Split(name, '/'))
    ensures Rooted(Join(dest, name)) == Rooted(dest)
    ensures Elements(Join(dest, name)) == Elements(dest) + Normalize(false, [], Split(name, '/'))
  {
    JoinElements(dest, name);
    ExtendsBase(Rooted(dest), Elements(dest), [], Split(name, '/'));
    assert Elements(dest) + [] == Elements(dest);
    CleanIdempotent(dest + "/" + name);
  }

  /** The prefix test refuses every entry of an empty destination: `Clean("")` is `.`,
      and no cleaned path starts with `./`. */
  lemma AllowedDestNonEmpty(dest: string, name: string)
    requires EntryAllowed(dest, name)
    ensures dest != ""
  {
    if dest == "" {
      assert Clean(dest) == "." by {
        ElementsOfRender(false, []);
      }
      CleanShape(name);
      assert false;
    }
  }

  lemma PrefixAfter(pre: string, s: string, p: string)
    requires HasPrefix(pre + s, pre + p)
    ensures HasPrefix(s, p)
  {
    forall k | 0 <= k < |p|
      ensures s[k] == p[k]
    {
      assert (pre + s)[|pre| + k] == (pre + p)[|pre| + k];
    }
  }

  /** One rendered normal stack starts with another followed by `/` only when its elements
      start with the other's elements and go on. */
  lemma RenderPrefix(rooted: bool, D: seq<string>, E: seq<string>)
    requires Normal(rooted, D) && Normal(rooted, E) && D != []
    requires HasPrefix(Render(rooted, E), Render(rooted, D) + "/")
    ensures |D| < |E| && E[..|D|] == D
  {
    var jd, je := JoinWith(D, '/'), JoinWith(E, '/');
    assert E != [] by {
      JoinFront(D, '/');
    }
    assert HasPrefix(je, jd + "/") by {
      var pre := if rooted then "/" else "";
      assert Render(rooted, D) + "/" == pre + (jd + "/") && Render(rooted, E) == pre + je;
      PrefixAfter(pre, je, jd + "/");
    }
    var t := je[|jd| + 1..];
    assert je == jd + "/" + t;
    assert E == D + Split(t, '/') by {
      SplitJoin(D, '/');
      SplitJoin(E, '/');
      SplitConcat(jd, '/', t);
    }
  }

  /** The prefix test lines up with elements: the elements of an accepted path are those
      of the destination followed by at least one more. */
  lemma AllowedExtends(dest: string, name: string)
    requires EntryAllowed(dest, name)
    ensures dest != ""
    ensures Rooted(Join(dest, name)) == Rooted(dest)
    ensures |Elements(dest)| < |Elements(Join(dest, name))|
    ensures Elements(Join(dest, name))[..|Elements(dest)|] == Elements(dest)
  {
    AllowedDestNonEmpty(dest, name);
    var s := dest + "/" + name;
    CleanIdempotent(dest);
    CleanIdempotent(s);
    JoinElements(dest, name);
    if Elements(dest) == [] {
      CleanShape(s);
      assert false;
    }
    RenderPrefix(Rooted(dest), Elements(dest), Elements(s));
  }

  /** What the corrected guard guarantees: the cleaned path of an accepted entry is the
      destination's elements followed by at least one more element, none of them `..`. */
  lemma EntryInsideExtends(dest: string, name: string)
    requires EntryInside(dest, name)
    ensures dest != ""
    ensures Rooted(Join(dest, name)) == Rooted(Clean(dest))
    ensures var e := Elements(Join(dest, name)); var d := Elements(Clean(dest));
      |d| < |e| && e[..|d|] == d && ".." !in e[|d|..]
  {
    AllowedExtends(dest, name);
    CleanIdempotent(dest);
    var e := Elements(Join(dest, name));
    var n := |Elements(dest)|;
    forall k | 0 <= k < |e[n..]|
      ensures e[n..][k] != ".."
    {
      assert e[n..][k] == e[n + k];
    }
  }

  /** On a destination that starts at the root the corrected guard accepts exactly what the
      prefix test accepts: a rooted clean path holds no `..`. */
  lemma RootedGuardAgrees(dest: string, name: string)
    requires Rooted(dest)
    ensures EntryInside(dest, name) <==> EntryAllowed(dest, name)
  {
    if EntryAllowed(dest, name) {
      AllowedExtends(dest, name);
      CleanIdempotent(dest + "/" + name);
      JoinElements(dest, name);
    }
  }

  /** Names that clean away to nothing (`""`, `.`, `a/..`) join to the destination
      itself and are refused. */
  lemma VanishingNameRefused(dest: string, name: string)
    requires Normalize(false, [], Split(name, '/')) == []
    ensures !EntryAllowed(dest, name)
  {
    if dest != "" {
      JoinInside(dest, name);
      CleanIdempotent(dest + "/" + name);
      CleanIdempotent(dest);
      assert Elements(dest) + [] == Elements(dest);
      assert Join(dest, name) == Clean(dest);
    } else {
      CleanShape(name);
    }
  }

  lemma SelfNamesVanish()
    ensures Normalize(false, [], Split("", '/')) == []
    ensures Normalize(false, [], Split(".", '/')) == []
    ensures Normalize(false, [], Split("a/..", '/')) == []
  {
    var dot := ".";
    assert dot[1..] == [] && dot[0] == '.';
    assert Split(dot[1..], '/') == [""];
    assert ['.'] + "" == dot;
    assert Split(dot, '/') == [dot];
    var up := "a/..";
    assert up == "a" + ['/'] + "..";
    SplitCons("a", '/', "..");
    SplitNone("..", '/');
    assert Split(up, '/') == ["a", ".."];
  }

  /** A destination of `/` or `.` refuses every entry: no cleaned path starts with `//`
      or `./`. */
  lemma DegenerateDestRefusesAll(name: string)
    ensures !EntryAllowed("/", name) && !EntryAllowed(".", name)
  {
    CleanShape("/" + "/" + name);
    CleanShape("." + "/" + name);
    assert Clean("/") == "/" by {
      assert Split("/", '/') == Split([] + ['/'] + [], '/');
      SplitConcat([], '/', []);
      ElementsOfRender(true, []);
    }
    assert Clean(".") == "." by {
      ElementsOfRender(false, []);
    }
  }

  /** A cleaned path with a `/` after its first character is a directory part, a `/`
      and a last element, and `Dir` returns the directory part. */
  lemma CleanLast(t: string, k: nat) returns (p: string, x: string)
    requires 1 <= k < |Clean(t)| && Clean(t)[k] == '/'
    ensures Clean(t) == p + "/" + x && '/' !in x && Dir(Clean(t)) == p
  {
    var rooted, st := Rooted(t), Elements(t);
    CleanIdempotent(t);
    var f := Clean(t);
    if st == [] {
      assert false;
    }
    var st' := st[..|st| - 1];
    x := st[|st| - 1];
    LastSplit(st);
    assert '/' !in x;
    if st' == [] {
      assert false;
    }
    DirOfRender(rooted, st', x);
    p := Render(rooted, st');
  }

  /** A non-empty sequence is its init followed by its last element. */
  lemma LastSplit<T>(s: seq<T>)
    requires s != []
    ensures s == s[..|s| - 1] + [s[|s| - 1]]
  {
  }

  /** If `p + "/" + x` (with no `/` in `x`) starts with `d + "/"`, then `p` is `d` or
      lies below it. */
  lemma PrefixBeforeLast(d: string, p: string, x: string)
    requires d != "" && '/' !in x && HasPrefix(p + "/" + x, d + "/")
    ensures p == d || HasPrefix(p, d + "/")
  {
    var f := p + "/" + x;
    assert f[|d|] == '/';
    if |d| > |p| {
      assert false;
    }
    assert p[..|d|] == f[..|d|];
    if |d| < |p| {
      assert p[..|d| + 1] == f[..|d| + 1];
    }
  }

  /** The directory of an accepted entry's path is the cleaned destination itself or lies
      below it. */
  lemma AcceptedDir(dest: string, name: string)
    requires EntryAllowed(dest, name)
    ensures dest != ""
    ensures Dir(Join(dest, name)) == Clean(dest) || HasPrefix(Dir(Join(dest, name)), Clean(dest) + "/")
  {
    var d := Clean(dest);
    CleanIdempotent(dest);
    AllowedDestNonEmpty(dest, name);
    var f := Join(dest, name);
    assert f == Clean(dest + "/" + name);
    assert f[|d|] == '/';
    var p, x := CleanLast(dest + "/" + name, |d|);
    PrefixBeforeLast(d, p, x);
  }

  lemma SplitUpX()
    ensures Split("..", '/') == [".."] && Split("x", '/') == ["x"]
    ensures Split("../x", '/') == ["..", "x"]
  {
    SplitNone("..", '/');
    SplitNone("x", '/');
    assert "../x" == ".." + ['/'] + "x";
    SplitCons("..", '/', "x");
  }

  lemma UpElements()
    ensures Elements("..") == [".."] && Clean("..") == ".."
  {
    SplitNone("..", '/');
    assert Normalize(false, [], [".."]) == Normalize(false, [".."], []);
    ElementsOfRender(false, [".."]);
  }

  lemma UpUpX()
    ensures Normalize(false, [".."], ["..", "x"]) == ["..", "..", "x"]
    ensures Normalize(false, [], ["..", "x"]) == ["..", "x"]
    ensures Render(false, ["..", "..", "x"]) == "../../x"
  {
    var a: seq<string> := ["..", "x"];
    assert a[1..] == ["x"];
    assert Normalize(false, [".."], a) == Normalize(false, ["..", ".."], ["x"]);
    assert Normalize(false, [], a) == Normalize(false, [".."], ["x"]);
    var b: seq<string> := ["..", "..", "x"];
    assert b[1..] == ["..", "x"] && b[1..][1..] == ["x"];
    assert JoinWith(b, '/') == ".." + "/" + (".." + "/" + "x");
  }

  /** The guard as written lets a destination made of `..` be left: with destination `..`
      the entry `../x` is accepted and lands at `../../x`, which is not below `..`. */
  lemma ParentDestEscapes()
    ensures EntryAllowed("..", "../x")
    ensures Join("..", "../x") == "../../x"
    ensures Elements(Join("..", "../x")) == ["..", "..", "x"] && Elements("..") == [".."]
    ensures !EntryInside("..", "../x")
  {
    SplitUpX();
    UpElements();
    UpUpX();
    JoinElements("..", "../x");
    ElementsOfRender(false, ["..", "..", "x"]);
  }

  lemma SplitAB()
    ensures Split("/a/b", '/') == ["", "a", "b"]
  {
    SplitNone("a", '/');
    SplitNone("b", '/');
    assert "a/b" == "a" + ['/'] + "b";
    SplitCons("a", '/', "b");
    assert "/a/b" == [] + ['/'] + "a/b";
    SplitConcat([], '/', "a/b");
    assert Split("", '/') == [""];
  }

  lemma SplitBCX()
    ensures Split("../bc/x", '/') == ["..", "bc", "x"]
  {
    SplitNone("bc", '/');
    SplitNone("x", '/');
    SplitNone("..", '/');
    assert "bc/x" == "bc" + ['/'] + "x";
    SplitCons("bc", '/', "x");
    assert "../bc/x" == ".." + ['/'] + "bc/x";
    SplitCons("..", '/', "bc/x");
  }

  lemma ABElements()
    ensures Elements("/a/b") == ["a", "b"] && Clean("/a/b") == "/a/b"
  {
    SplitAB();
    var ps: seq<string> := ["", "a", "b"];
    assert ps[1..] == ["a", "b"] && ps[1..][1..] == ["b"];
    assert Normalize(true, [], ps) == Normalize(true, ["a"], ["b"]);
    ElementsOfRender(true, ["a", "b"]);
    assert JoinWith(["a", "b"], '/') == "a" + "/" + "b";
  }

  lemma ABCXRender()
    ensures Normalize(true, ["a", "b"], ["..", "bc", "x"]) == ["a", "bc", "x"]
    ensures Render(true, ["a", "bc", "x"]) == "/a/bc/x"
  {
    var ps: seq<string> := ["..", "bc", "x"];
    assert ps[1..] == ["bc", "x"] && ps[1..][1..] == ["x"];
    assert Step(true, ["a", "b"], "..") == ["a"];
    assert Normalize(true, ["a", "b"], ps) == Normalize(true, ["a"], ["bc", "x"]);
    var st: seq<string> := ["a", "bc", "x"];
    assert st[1..] == ["bc", "x"] && st[1..][1..] == ["x"];
    assert JoinWith(st, '/') == "a" + "/" + ("bc" + "/" + "x");
  }

  /** The trailing `/` of the guard refuses a sibling that shares the destination's
      name as a prefix: destination `/a/b`, entry `../bc/x` joins to `/a/bc/x`. */
  lemma SiblingPrefixRefused()
    ensures Join("/a/b", "../bc/x") == "/a/bc/x"
    ensures !EntryAllowed("/a/b", "../bc/x")
  {
    SplitAB();
    SplitBCX();
    ABElements();
    ABCXRender();
    JoinElements("/a/b", "../bc/x");
    var f := Join("/a/b", "../bc/x");
    assert f[4] == 'c';
  }
}
