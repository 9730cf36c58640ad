/** Discovery: the recursive walk `getAllMdxFiles` over a directory tree.
    The file system is replaced by a tree of entries; a directory's children are listed in the
    order `readdir` returns them. */
module Discovery {
  import opened Text

  /** One entry of a directory listing. `File` stands for every entry whose `isDirectory()` is
      false (a regular file, a symbolic link, ...). */
  datatype Node = File(name: string) | Directory(name: string, children: seq<Node>)

  const MdxExtension := ".mdx"

  /** `path.join` for the paths the walk builds: one leading "./" of the directory is dropped,
      then the entry's name is appended after a "/". */
  function Normalize(dir: string): (r: string)
    ensures dir == r || dir == "./" + r
    ensures Normal(dir) ==> r == dir
  {
    if "./" <= dir then dir[2..] else dir
  }

  function PathJoin(dir: string, name: string): string {
    Normalize(dir) + "/" + name
  }

  /** A directory path that `Normalize` leaves as it is, and whose joins stay so. */
  predicate Normal(dir: string) {
    dir != "." && !("./" <= dir)
  }

  lemma PathJoinNormal(dir: string, name: string)
    requires Normal(Normalize(dir))
    ensures Normal(PathJoin(dir, name)) && Normalize(PathJoin(dir, name)) == PathJoin(dir, name)
  {
    var d := Normalize(dir);
    var p := PathJoin(dir, name);
    assert p[|d|] == '/';
    if |d| == 0 {
      assert p[0] == '/';
    } else if |d| == 1 {
      assert d == [d[0]];
      assert p[0] == d[0] && d[0] != '.';
    } else {
      assert p[..2] == d[..2];
    }
  }

  /** Size measure for the (mutual) recursion over entries and lists of entries. */
  function Size(e: Node): nat {
    match e
    case File(_) => 1
    case Directory(_, cs) => 1 + SizeAll(cs)
  }

  function SizeAll(es: seq<Node>): nat {
    if es == [] then 0 else Size(es[0]) + SizeAll(es[1..])
  }

  lemma {:induction false} SizeAllElement(es: seq<Node>, i: nat)
    requires i < |es|
    ensures Size(es[i]) <= SizeAll(es)
  {
    if i > 0 { SizeAllElement(es[1..], i - 1); }
  }

  /** The files the walk collects for one entry of directory `dir`. */
  function EntryFiles(dir: string, e: Node): seq<string>
    decreases Size(e), 0
  {
    match e
    case Directory(n, cs) => MdxFiles(PathJoin(dir, n), cs)
    case File(n) => if EndsWith(n, MdxExtension) then [PathJoin(dir, n)] else []
  }

  /** `getAllMdxFiles(dir)` when `readdir(dir)` lists `es`. */
  function MdxFiles(dir: string, es: seq<Node>): seq<string>
    decreases SizeAll(es), 1
  {
    if es == [] then [] else EntryFiles(dir, es[0]) + MdxFiles(dir, es[1..])
  }

  /** Entries keep their listing order: the walk of a listing is the walk of its first part
      followed by the walk of the rest. */
  lemma {:induction false} MdxFilesAppend(dir: string, es: seq<Node>, fs: seq<Node>)
    ensures MdxFiles(dir, es + fs) == MdxFiles(dir, es) + MdxFiles(dir, fs)
  {
    if es == [] {
      assert es + fs == fs;
    } else {
      assert (es + fs)[0] == es[0];
      assert (es + fs)[1..] == es[1..] + fs;
      MdxFilesAppend(dir, es[1..], fs);
    }
  }

  /** The walk as the source runs it: a loop over the listing that pushes each qualifying file,
      and splices in the results of a recursive call for each subdirectory. */
  method GetAllMdxFiles(dir: string, entries: seq<Node>) returns (files: seq<string>)
    ensures files == MdxFiles(dir, entries)
    decreases SizeAll(entries)
  {
    files := [];
    for i := 0 to |entries|
      invariant files == MdxFiles(dir, entries[..i])
    {
      var entry := entries[i];
      var fullPath := PathJoin(dir, entry.name);
      if entry.Directory? {
        SizeAllElement(entries, i);
        var subFiles := GetAllMdxFiles(fullPath, entry.children);
        files := files + subFiles;
      } else if EndsWith(entry.name, MdxExtension) {
        files := files + [fullPath];
      }
      assert entries[..i + 1] == entries[..i] + [entries[i]];
      MdxFilesAppend(dir, entries[..i], [entries[i]]);
    }
    assert entries[..|entries|] == entries;
  }

  // ----- An independent description: the pre-order listing of every entry -----

  /** A visited entry with the full path the walk gives it. */
  datatype Visit = Visit(path: string, node: Node)

  /** Every entry of the tree, directories included, in pre-order: an entry, then (for a
      directory) everything below it, then its later siblings. */
  function EntryListing(dir: string, e: Node): seq<Visit>
    decreases Size(e), 0
  {
    [Visit(PathJoin(dir, e.name), e)] +
    (match e
     case Directory(n, cs) => Listing(PathJoin(dir, n), cs)
     case File(_) => [])
  }

  function Listing(dir: string, es: seq<Node>): seq<Visit>
    decreases SizeAll(es), 1
  {
    if es == [] then [] else EntryListing(dir, es[0]) + Listing(dir, es[1..])
  }

  /** A visit the walk should report: a non-directory whose name ends in ".mdx". */
  predicate Qualifies(v: Visit) {
    v.node.File? && EndsWith(v.node.name, MdxExtension)
  }

  /** The paths of the qualifying visits, in order. */
  function Select(vs: seq<Visit>): seq<string> {
    if vs == [] then [] else (if Qualifies(vs[0]) then [vs[0].path] else []) + Select(vs[1..])
  }

  lemma {:induction false} SelectAppend(vs: seq<Visit>, ws: seq<Visit>)
    ensures Select(vs + ws) == Select(vs) + Select(ws)
  {
    if vs == [] {
      assert vs + ws == ws;
    } else {
      var h := if Qualifies(vs[0]) then [vs[0].path] else [];
      assert (vs + ws)[0] == vs[0];
      assert (vs + ws)[1..] == vs[1..] + ws;
      assert Select(vs + ws) == h + Select(vs[1..] + ws);
      SelectAppend(vs[1..], ws);
      assert h + (Select(vs[1..]) + Select(ws)) == (h + Select(vs[1..])) + Select(ws);
    }
  }

  /** Discovery returns exactly the non-directory entries whose name ends in ".mdx", at any
      depth, in pre-order: directories are never reported themselves (even one named "x.mdx")
      and are always descended into. */
  lemma {:induction false} MdxFilesIsPreorderSelection(dir: string, es: seq<Node>)
    ensures MdxFiles(dir, es) == Select(Listing(dir, es))
    decreases SizeAll(es), 1
  {
    if es != [] {
      assert SizeAll(es) == Size(es[0]) + SizeAll(es[1..]);
      SelectAppend(EntryListing(dir, es[0]), Listing(dir, es[1..]));
      EntryFilesIsPreorderSelection(dir, es[0]);
      MdxFilesIsPreorderSelection(dir, es[1..]);
    }
  }

  /** The same for one entry: a file is reported when it qualifies, a directory never, and
      then what lies below it. */
  lemma {:induction false} EntryFilesIsPreorderSelection(dir: string, e: Node)
    ensures EntryFiles(dir, e) == Select(EntryListing(dir, e))
    decreases Size(e), 0
  {
    var head := [Visit(PathJoin(dir, e.name), e)];
    SelectSingle(head[0]);
    match e {
      case Directory(n, cs) =>
        SelectAppend(head, Listing(PathJoin(dir, n), cs));
        MdxFilesIsPreorderSelection(PathJoin(dir, n), cs);
      case File(_) =>
        assert EntryListing(dir, e) == head;
    }
  }

  lemma SelectSingle(v: Visit)
    ensures Select([v]) == if Qualifies(v) then [v.path] else []
  {
    assert [v][1..] == [];
  }

  /** Every reported path ends in ".mdx" and lies strictly below the (normalised) directory. */
  lemma {:induction false} MdxFilesShape(dir: string, es: seq<Node>, p: string)
    requires Normal(Normalize(dir))
    requires p in MdxFiles(dir, es)
    ensures EndsWith(p, MdxExtension)
    ensures Normalize(dir) + "/" <= p && |p| > |Normalize(dir)| + 1
    decreases SizeAll(es)
  {
    var e := es[0];
    assert SizeAll(es) == Size(e) + SizeAll(es[1..]);
    if p in EntryFiles(dir, e) {
      var d := Normalize(dir);
      match e {
        case Directory(n, cs) =>
          var q := PathJoin(dir, n);
          PathJoinNormal(dir, n);
          MdxFilesShape(q, cs, p);
          BelowJoin(d, n, q, p);
        case File(n) =>
          FileShape(d, n, p);
      }
    } else {
      MdxFilesShape(dir, es[1..], p);
    }
  }

  /** A path below `d + "/" + n + "/"` is below `d + "/"`. */
  lemma BelowJoin(d: string, n: string, q: string, p: string)
    requires q == d + "/" + n && q + "/" <= p && |p| > |q| + 1
    ensures d + "/" <= p && |p| > |d| + 1
  {
    PrefixOfJoin(d + "/", n + "/", q + "/", p);
  }

  /** The path of a ".mdx" file named `n` in `d`. */
  lemma FileShape(d: string, n: string, p: string)
    requires p == d + "/" + n && EndsWith(n, MdxExtension)
    ensures EndsWith(p, MdxExtension) && d + "/" <= p && |p| > |d| + 1
  {
    EndsWithExtend(d + "/", n, MdxExtension);
    assert |n| > 0 && (d + "/") + n == p;
  }

  lemma PrefixOfJoin(a: string, b: string, q: string, p: string)
    requires q == a + b && q <= p
    ensures a <= p
  {
    assert p[..|a|] == q[..|a|];
  }

  /** A directory is never reported, whatever its name: only paths strictly below it are. */
  lemma DirectoryNotReported(dir: string, n: string, cs: seq<Node>)
    requires Normal(Normalize(dir))
    ensures PathJoin(dir, n) !in MdxFiles(dir, [Directory(n, cs)])
  {
    assert [Directory(n, cs)][1..] == [];
    assert MdxFiles(dir, [Directory(n, cs)]) == MdxFiles(PathJoin(dir, n), cs);
    PathJoinNormal(dir, n);
    forall p | p in MdxFiles(PathJoin(dir, n), cs) ensures |p| > |PathJoin(dir, n)| {
      MdxFilesShape(PathJoin(dir, n), cs, p);
    }
  }

  // ----- Each qualifying file exactly once -----

  /** Entry names as a directory holds them: no "/" inside a name, no two siblings alike. */
  predicate WellNamed(es: seq<Node>)
    decreases SizeAll(es)
  {
    (forall i :: 0 <= i < |es| ==> '/' !in es[i].name) &&
    (forall i, j :: 0 <= i < j < |es| ==> es[i].name != es[j].name) &&
    (es != [] ==> WellNamedEntry(es[0]) && WellNamed(es[1..]))
  }

  predicate WellNamedEntry(e: Node)
    decreases Size(e), 2
  {
    e.Directory? ==> WellNamed(e.children)
  }

  /** Every name in the tree is non-empty and holds no "/", as `readdir` names are. */
  predicate Named(es: seq<Node>)
    decreases SizeAll(es)
  {
    es != [] ==> NamedEntry(es[0]) && Named(es[1..])
  }

  predicate NamedEntry(e: Node)
    decreases Size(e), 2
  {
    e.name != "" && '/' !in e.name && (e.Directory? ==> Named(e.children))
  }

  /** In a tree of proper names, a reported path is the directory, then a part `d` that is
      empty or ends in a name, then "/" and the file's "/"-free ".mdx" name. */
  lemma {:induction false} MdxFilesParts(dir: string, es: seq<Node>, p: string)
    returns (d: string, n: string)
    requires Normal(Normalize(dir)) && Named(es)
    requires p in MdxFiles(dir, es)
    ensures p == Normalize(dir) + d + "/" + n
    ensures (d == "" || d[|d| - 1] != '/') && '/' !in n && EndsWith(n, MdxExtension)
    decreases SizeAll(es), 1
  {
    assert SizeAll(es) == Size(es[0]) + SizeAll(es[1..]);
    if p in EntryFiles(dir, es[0]) {
      d, n := EntryFilesParts(dir, es[0], p);
    } else {
      d, n := MdxFilesParts(dir, es[1..], p);
    }
  }

  /** The same for the paths one entry contributes. */
  lemma {:induction false} EntryFilesParts(dir: string, e: Node, p: string)
    returns (d: string, n: string)
    requires Normal(Normalize(dir)) && NamedEntry(e)
    requires p in EntryFiles(dir, e)
    ensures p == Normalize(dir) + d + "/" + n
    ensures (d == "" || d[|d| - 1] != '/') && '/' !in n && EndsWith(n, MdxExtension)
    decreases Size(e), 0
  {
    match e {
      case Directory(n0, cs) =>
        PathJoinNormal(dir, n0);
        var d1, n1 := MdxFilesParts(PathJoin(dir, n0), cs, p);
        d, n := "/" + n0 + d1, n1;
        JoinParts(Normalize(dir), n0, d1, n1, p);
      case File(n0) =>
        d, n := "", n0;
    }
  }

  lemma JoinParts(base: string, n0: string, d1: string, n1: string, p: string)
    requires n0 != "" && '/' !in n0 && (d1 == "" || d1[|d1| - 1] != '/')
    requires p == base + "/" + n0 + d1 + "/" + n1
    ensures p == base + ("/" + n0 + d1) + "/" + n1
    ensures ("/" + n0 + d1)[|"/" + n0 + d1| - 1] != '/'
  {
    var d := "/" + n0 + d1;
    if d1 == "" {
      assert d[|d| - 1] == n0[|n0| - 1];
    } else {
      assert d[|d| - 1] == d1[|d1| - 1];
    }
  }

  predicate NoDuplicates(s: seq<string>) {
    forall i, j :: 0 <= i < j < |s| ==> s[i] != s[j]
  }

  /** `p` is the path `base` itself or a path below it. */
  predicate AtOrBelow(base: string, p: string) {
    p == base || base + "/" <= p
  }

  /** The name right after `d + "/"` in a path at or below `d + "/" + a`. */
  lemma SegmentAfter(d: string, a: string, p: string)
    requires '/' !in a
    requires AtOrBelow(d + "/" + a, p)
    ensures |d| + 1 <= |p| && BeforeFirst(p[|d| + 1..], '/') == a
  {
    var q := p[|d| + 1..];
    if p == d + "/" + a {
      assert q == a;
      BeforeFirstWhole(a, '/');
    } else {
      assert p[..|d| + |a| + 2] == d + "/" + a + "/";
      assert q == a + ['/'] + q[|a| + 1..];
      BeforeFirstSplit(a, '/', q[|a| + 1..]);
    }
  }

  /** Paths below two different "/"-free names of one directory are different paths. */
  lemma DifferentSegments(d: string, a: string, b: string, p: string, p': string)
    requires '/' !in a && '/' !in b && a != b
    requires AtOrBelow(d + "/" + a, p) && AtOrBelow(d + "/" + b, p')
    ensures p != p'
  {
    SegmentAfter(d, a, p);
    SegmentAfter(d, b, p');
  }

  lemma EntryFilesBelow(dir: string, e: Node, p: string)
    requires Normal(Normalize(dir))
    requires p in EntryFiles(dir, e)
    ensures AtOrBelow(Normalize(dir) + "/" + e.name, p)
  {
    if e.Directory? {
      PathJoinNormal(dir, e.name);
      MdxFilesShape(PathJoin(dir, e.name), e.children, p);
    }
  }

  /** With well-named entries, the walk reports every path at most once; together with
      `MdxFilesIsPreorderSelection`, every qualifying file appears exactly once. */
  lemma {:induction false} MdxFilesNoDuplicates(dir: string, es: seq<Node>)
    requires Normal(Normalize(dir))
    requires WellNamed(es)
    ensures NoDuplicates(MdxFiles(dir, es))
    decreases SizeAll(es)
  {
    if es != [] {
      var e := es[0];
      assert SizeAll(es) == Size(e) + SizeAll(es[1..]);
      var head := EntryFiles(dir, e);
      var rest := MdxFiles(dir, es[1..]);
      assert NoDuplicates(head) by {
        if e.Directory? {
          PathJoinNormal(dir, e.name);
          MdxFilesNoDuplicates(PathJoin(dir, e.name), e.children);
        }
      }
      MdxFilesNoDuplicates(dir, es[1..]);
      forall i, j | 0 <= i < |head| && 0 <= j < |rest| ensures head[i] != rest[j] {
        EntryFilesBelow(dir, e, head[i]);
        var k := MdxFilesMember(dir, es[1..], rest[j]);
        EntryFilesBelow(dir, es[1..][k], rest[j]);
        assert es[0].name != es[k + 1].name;
        DifferentSegments(Normalize(dir), e.name, es[1..][k].name, head[i], rest[j]);
      }
      var all := head + rest;
      forall i, j | 0 <= i < j < |all| ensures all[i] != all[j] {
        if j < |head| {
          assert all[i] == head[i] && all[j] == head[j];
        } else if i >= |head| {
          assert all[i] == rest[i - |head|] && all[j] == rest[j - |head|];
        } else {
          assert all[i] == head[i] && all[j] == rest[j - |head|];
        }
      }
    }
  }

  /** The entry of the listing a reported path comes from. */
  lemma {:induction false} MdxFilesMember(dir: string, es: seq<Node>, p: string) returns (k: nat)
    requires p in MdxFiles(dir, es)
    ensures k < |es| && p in EntryFiles(dir, es[k])
  {
    if p in EntryFiles(dir, es[0]) {
      k := 0;
    } else {
      k := MdxFilesMember(dir, es[1..], p);
      k := k + 1;
    }
  }
}
