/**
 * What one input line does to the tree built from piped input, as a function on
 * tree values: walk down the line's directories, reusing the first child with the
 * same name or appending a new empty folder, then append the file as a leaf.
 * The stdin builder class is proved to compute exactly this.
 */
module TreeInsert {
  import opened JsValues
  import opened Strings
  import opened FileTree
  import opened LineParser

  /** The size given to every folder. */
  const DirSize := 4096

  /** The path given to every file leaf: the template has no `${}`, so it is this
      literal text and does not depend on the file. */
  const LeafPath := "$currentPath/$name"

  /** The root the builder starts from: no `children` property yet. */
  const Root := FileType(".", "", Int(DirSize), Absent)

  /** `currentPath += (currentPath ? '/' : '') + dir`. */
  function Extend(cp: string, dir: string): (r: string)
    ensures cp == "" ==> r == dir
    ensures cp != "" ==> r == cp + ['/'] + dir
  {
    if cp != "" then cp + "/" + dir else dir
  }

  /** `currentPath` after walking `dirs` from `cp`. */
  function PathAfter(cp: string, dirs: seq<string>): string
    decreases |dirs|
  {
    if dirs == [] then cp else PathAfter(Extend(cp, dirs[0]), dirs[1..])
  }

  /** The directories from the first non-empty one on. */
  function DropLeadingEmpty(dirs: seq<string>): (r: seq<string>)
    ensures r == [] || r[0] != ""
    ensures |r| <= |dirs| && r == dirs[|dirs| - |r|..]
  {
    if dirs == [] || dirs[0] != "" then dirs else DropLeadingEmpty(dirs[1..])
  }

  /** Once `currentPath` is non-empty, it grows by `/` and the directory each step. */
  lemma {:induction false} PathAfterNonEmpty(cp: string, dirs: seq<string>)
    requires cp != ""
    ensures PathAfter(cp, dirs) == Join([cp] + dirs, '/')
    decreases |dirs|
  {
    if dirs != [] {
      var next := cp + ['/'] + dirs[0];
      PathAfterNonEmpty(next, dirs[1..]);
      assert ([cp] + dirs)[1..] == dirs;
      JoinCons(cp, dirs[0], dirs[1..], '/');
    }
  }

  lemma JoinCons(a: string, b: string, rest: seq<string>, sep: char)
    ensures Join([a + [sep] + b] + rest, sep) == Join([a] + ([b] + rest), sep)
  {
    assert ([a + [sep] + b] + rest)[1..] == rest;
    assert ([a] + ([b] + rest))[1..] == [b] + rest;
    assert ([b] + rest)[1..] == rest;
  }

  /** Starting from `""`, `currentPath` is the directories joined with `/`, except
      that empty directories in front add nothing, so there is no leading `/`
      unless a directory itself starts with one. */
  lemma {:induction false} PathAfterJoin(dirs: seq<string>)
    ensures PathAfter("", dirs) == Join(DropLeadingEmpty(dirs), '/')
    decreases |dirs|
  {
    if dirs != [] {
      if dirs[0] == "" {
        PathAfterJoin(dirs[1..]);
      } else {
        PathAfterNonEmpty(dirs[0], dirs[1..]);
        assert [dirs[0]] + dirs[1..] == dirs;
      }
    }
  }

  /** With no `/` inside any directory, `currentPath` never starts with `/`. */
  lemma NoLeadingSlash(dirs: seq<string>)
    requires forall k :: 0 <= k < |dirs| ==> '/' !in dirs[k]
    ensures PathAfter("", dirs) == "" || PathAfter("", dirs)[0] != '/'
  {
    PathAfterJoin(dirs);
    var d := DropLeadingEmpty(dirs);
    if d != [] {
      assert d[0] == dirs[|dirs| - |d|];
      if |d| > 1 {
        assert Join(d, '/') == d[0] + ['/'] + Join(d[1..], '/');
      }
      assert Join(d, '/')[0] == d[0][0];
    }
  }

  /** `children.find(n => n.name === dir)`: the index of the first child named `dir`. */
  function FirstNamed(cs: seq<FileType>, dir: string): (r: Option<nat>)
    ensures r.Some? ==> r.value < |cs| && cs[r.value].name == dir
    ensures r.Some? ==> forall j :: 0 <= j < r.value ==> cs[j].name != dir
    ensures r.None? ==> forall j :: 0 <= j < |cs| ==> cs[j].name != dir
  {
    if cs == [] then None
    else if cs[0].name == dir then Some(0)
    else match FirstNamed(cs[1..], dir)
      case None => None
      case Some(q) => Some(q + 1)
  }

  /** A folder created on the way down. */
  function NewDir(dir: string, path: string): FileType
  {
    FileType(dir, path, Int(DirSize), Listed([]))
  }

  /** The file leaf appended at the end: no `children` property. */
  function Leaf(name: string, count: Num): FileType
  {
    FileType(name, LeafPath, count, Absent)
  }

  /** `updateTree(node, {dirs, name, count})` continued from `currentPath == cp`. */
  function Insert(t: FileType, dirs: seq<string>, name: string, count: Num, cp: string): FileType
    decreases |dirs|
  {
    var cs := Kids(t);
    if dirs == [] then t.(children := Listed(cs + [Leaf(name, count)]))
    else
      var p := Extend(cp, dirs[0]);
      match FirstNamed(cs, dirs[0])
      case Some(q) => t.(children := Listed(cs[q := Insert(cs[q], dirs[1..], name, count, p)]))
      case None => t.(children := Listed(cs + [Insert(NewDir(dirs[0], p), dirs[1..], name, count, p)]))
  }

  /** One parsed line applied to the tree, from an empty `currentPath`. */
  function Apply(t: FileType, line: ParsedLine): FileType
  {
    Insert(t, line.dirs, line.name, line.count, "")
  }

  /** The tree after feeding it the given lines in order. */
  function AddLines(t: FileType, lines: seq<string>): FileType
    decreases |lines|
  {
    if lines == [] then t else Apply(AddLines(t, lines[..|lines| - 1]), ParseLine(lines[|lines| - 1]))
  }

  /** `readFromStdin` on the given lines. */
  function Build(lines: seq<string>): FileType
  {
    AddLines(Root, lines)
  }

  // ---- Addressing a subtree by child positions ----

  /** A route of child positions that exists in `t`. */
  predicate ValidRoute(t: FileType, route: seq<nat>)
    decreases |route|
  {
    route == [] || (route[0] < |Kids(t)| && ValidRoute(Kids(t)[route[0]], route[1..]))
  }

  /** The subtree at `route`. */
  function Subtree(t: FileType, route: seq<nat>): FileType
    decreases |route|
  {
    if route == [] then t
    else if route[0] < |Kids(t)| then Subtree(Kids(t)[route[0]], route[1..])
    else t
  }

  /** `t` with the subtree at `route` replaced by `s`. */
  function Plug(t: FileType, route: seq<nat>, s: FileType): FileType
    decreases |route|
  {
    if route == [] then s
    else if route[0] < |Kids(t)| then
      t.(children := Listed(Kids(t)[route[0] := Plug(Kids(t)[route[0]], route[1..], s)]))
    else t
  }

  /** Replacing one level further down is replacing inside the subtree. */
  lemma {:induction false} PlugSnoc(t: FileType, route: seq<nat>, q: nat, s: FileType)
    ensures Plug(t, route + [q], s) == Plug(t, route, Plug(Subtree(t, route), [q], s))
    decreases |route|
  {
    if route == [] {
      assert route + [q] == [q];
    } else {
      assert (route + [q])[0] == route[0];
      assert (route + [q])[1..] == route[1..] + [q];
      if route[0] < |Kids(t)| {
        PlugSnoc(Kids(t)[route[0]], route[1..], q, s);
      }
    }
  }

  /** The second replacement at the same place wins. */
  lemma {:induction false} PlugPlug(t: FileType, route: seq<nat>, x: FileType, y: FileType)
    ensures Plug(Plug(t, route, x), route, y) == Plug(t, route, y)
    decreases |route|
  {
    if route != [] && route[0] < |Kids(t)| {
      var cs := Kids(t);
      var q := route[0];
      PlugPlug(cs[q], route[1..], x, y);
      var mid := Plug(t, route, x);
      assert Kids(mid) == cs[q := Plug(cs[q], route[1..], x)];
      assert Kids(mid)[q := Plug(Kids(mid)[q], route[1..], y)] == cs[q := Plug(cs[q], route[1..], y)];
    }
  }

  /** What was plugged in is what is found there. */
  lemma {:induction false} SubPlug(t: FileType, route: seq<nat>, x: FileType)
    requires ValidRoute(t, route)
    ensures ValidRoute(Plug(t, route, x), route)
    ensures Subtree(Plug(t, route, x), route) == x
    decreases |route|
  {
    if route != [] {
      SubPlug(Kids(t)[route[0]], route[1..], x);
    }
  }

  /** Descending into an existing child: the rest of the insertion happens inside
      that child. */
  lemma DescendFound(t: FileType, route: seq<nat>, dirs: seq<string>, name: string, count: Num, cp: string, q: nat)
    requires ValidRoute(t, route) && dirs != []
    requires FirstNamed(Kids(Subtree(t, route)), dirs[0]) == Some(q)
    ensures Plug(t, route, Insert(Subtree(t, route), dirs, name, count, cp)) ==
      Plug(t, route + [q], Insert(Kids(Subtree(t, route))[q], dirs[1..], name, count, Extend(cp, dirs[0])))
  {
    var tc := Subtree(t, route);
    PlugSnoc(t, route, q, Insert(Kids(tc)[q], dirs[1..], name, count, Extend(cp, dirs[0])));
  }

  /** Descending into a folder appended for a missing directory: once it is in
      place, the rest of the insertion happens inside it. */
  lemma DescendNew(t: FileType, route: seq<nat>, dirs: seq<string>, name: string, count: Num, cp: string)
    requires ValidRoute(t, route) && dirs != []
    requires FirstNamed(Kids(Subtree(t, route)), dirs[0]).None?
    ensures var tc := Subtree(t, route);
      var p := Extend(cp, dirs[0]);
      var d := NewDir(dirs[0], p);
      var t2 := Plug(t, route, tc.(children := Listed(Kids(tc) + [d])));
      Plug(t, route, Insert(tc, dirs, name, count, cp)) ==
        Plug(t2, route + [|Kids(tc)|], Insert(d, dirs[1..], name, count, p))
  {
    var tc := Subtree(t, route);
    var p := Extend(cp, dirs[0]);
    var d := NewDir(dirs[0], p);
    var withDir := tc.(children := Listed(Kids(tc) + [d]));
    var t2 := Plug(t, route, withDir);
    var x := Insert(d, dirs[1..], name, count, p);
    PlugSnoc(t2, route, |Kids(tc)|, x);
    SubPlug(t, route, withDir);
    assert Plug(withDir, [|Kids(tc)|], x) == Insert(tc, dirs, name, count, cp) by {
      assert (Kids(tc) + [d])[|Kids(tc)| := x] == Kids(tc) + [x];
    }
    PlugPlug(t, route, withDir, Insert(tc, dirs, name, count, cp));
  }

  // ---- Properties of one insertion ----

  /** The number of the line's directories that do not exist yet: once one is
      missing, every one below it is created too. */
  function Missing(t: FileType, dirs: seq<string>): nat
    decreases |dirs|
  {
    if dirs == [] then 0
    else match FirstNamed(Kids(t), dirs[0])
      case Some(q) => Missing(Kids(t)[q], dirs[1..])
      case None => |dirs|
  }

  /** The node count grows by the number of missing directories plus the leaf. */
  lemma {:induction false} InsertCount(t: FileType, dirs: seq<string>, name: string, count: Num, cp: string)
    ensures Count(Insert(t, dirs, name, count, cp)) == Count(t) + Missing(t, dirs) + 1
    decreases |dirs|
  {
    var cs := Kids(t);
    var u := Insert(t, dirs, name, count, cp);
    CountKids(t);
    CountKids(u);
    if dirs == [] {
      CountAllSnoc(cs, Leaf(name, count));
    } else {
      var p := Extend(cp, dirs[0]);
      match FirstNamed(cs, dirs[0])
      case Some(q) =>
        InsertCount(cs[q], dirs[1..], name, count, p);
        CountAllUpdate(cs, q, Insert(cs[q], dirs[1..], name, count, p));
      case None =>
        var d := NewDir(dirs[0], p);
        InsertCount(d, dirs[1..], name, count, p);
        assert Missing(d, dirs[1..]) == |dirs| - 1;
        CountKids(d);
        CountAllSnoc(cs, Insert(d, dirs[1..], name, count, p));
    }
  }

  /** `a` survives inside `b`: same name, path and size, and the children of `a`
      are the first children of `b`, in the same order, each surviving in turn. */
  predicate Embeds(a: FileType, b: FileType)
    decreases a
  {
    a.name == b.name && a.path == b.path && a.size == b.size &&
    match a.children
    case Absent => true
    case Listed(cs) =>
      b.children.Listed? && |cs| <= |b.children.list| &&
      forall k :: 0 <= k < |cs| ==> Embeds(cs[k], b.children.list[k])
  }

  lemma EmbedsRefl(t: FileType)
    ensures Embeds(t, t)
  {
    match t.children
    case Absent =>
    case Listed(cs) =>
      forall k | 0 <= k < |cs| {
        EmbedsRefl(cs[k]);
      }
  }

  /** Inserting never removes, renames or reorders a node that was there. */
  lemma {:induction false} InsertEmbeds(t: FileType, dirs: seq<string>, name: string, count: Num, cp: string)
    ensures Embeds(t, Insert(t, dirs, name, count, cp))
    decreases |dirs|
  {
    var cs := Kids(t);
    var u := Insert(t, dirs, name, count, cp);
    forall k | 0 <= k < |cs| {
      EmbedsRefl(cs[k]);
    }
    if dirs != [] {
      var p := Extend(cp, dirs[0]);
      match FirstNamed(cs, dirs[0])
      case Some(q) =>
        InsertEmbeds(cs[q], dirs[1..], name, count, p);
      case None =>
    }
  }

  /** The positions the walk takes: the first child with the right name, or the
      new last child, then position 0 of every folder created below it. */
  function Walk(t: FileType, dirs: seq<string>): (r: seq<nat>)
    ensures |r| == |dirs|
    decreases |dirs|
  {
    if dirs == [] then []
    else match FirstNamed(Kids(t), dirs[0])
      case Some(q) => [q] + Walk(Kids(t)[q], dirs[1..])
      case None => [|Kids(t)|] + seq(|dirs| - 1, _ => 0)
  }

  /** The names of the nodes met along a route, below `t`. */
  function NamesAlong(t: FileType, route: seq<nat>): seq<string>
    requires ValidRoute(t, route)
    decreases |route|
  {
    if route == [] then [] else [Kids(t)[route[0]].name] + NamesAlong(Kids(t)[route[0]], route[1..])
  }

  /** The paths of the nodes met along a route, below `t`. */
  function PathsAlong(t: FileType, route: seq<nat>): seq<string>
    requires ValidRoute(t, route)
    decreases |route|
  {
    if route == [] then [] else [Kids(t)[route[0]].path] + PathsAlong(Kids(t)[route[0]], route[1..])
  }

  /** Where the walk goes from `t` for `dir`: the first child named `dir`, or a
      new last child. */
  function Pos(t: FileType, dir: string): nat
  {
    match FirstNamed(Kids(t), dir)
    case Some(q) => q
    case None => |Kids(t)|
  }

  /** The node the walk descends into, as it was before the insertion. */
  function Next(t: FileType, dir: string, p: string): FileType
  {
    match FirstNamed(Kids(t), dir)
    case Some(q) => Kids(t)[q]
    case None => NewDir(dir, p)
  }

  /** One step of the walk: the child at `Pos` is the rest of the insertion done
      inside `Next`, and it carries the directory's name. */
  lemma InsertUnfold(t: FileType, dirs: seq<string>, name: string, count: Num, cp: string)
    requires dirs != []
    ensures var u := Insert(t, dirs, name, count, cp);
      var p := Extend(cp, dirs[0]);
      var q := Pos(t, dirs[0]);
      var v := Insert(Next(t, dirs[0], p), dirs[1..], name, count, p);
      && q < |Kids(u)|
      && Kids(u)[q] == v
      && v.name == dirs[0]
      && Walk(t, dirs) == [q] + Walk(Next(t, dirs[0], p), dirs[1..])
  {
    var p := Extend(cp, dirs[0]);
    var d := Next(t, dirs[0], p);
    assert Insert(d, dirs[1..], name, count, p).name == d.name;
    if FirstNamed(Kids(t), dirs[0]).None? {
      FreshWalk(d, dirs[1..]);
    }
  }

  /** Following a route one child down. */
  lemma RouteCons(u: FileType, q: nat, rv: seq<nat>)
    requires q < |Kids(u)| && ValidRoute(Kids(u)[q], rv)
    ensures ValidRoute(u, [q] + rv)
    ensures Subtree(u, [q] + rv) == Subtree(Kids(u)[q], rv)
    ensures NamesAlong(u, [q] + rv) == [Kids(u)[q].name] + NamesAlong(Kids(u)[q], rv)
    ensures PathsAlong(u, [q] + rv) == [Kids(u)[q].path] + PathsAlong(Kids(u)[q], rv)
  {
    assert ([q] + rv)[0] == q;
    assert ([q] + rv)[1..] == rv;
  }

  /** `route` is valid in `u`, passes through nodes named `names`, and ends at a
      node whose last child is `leaf`. */
  predicate LeafAt(u: FileType, route: seq<nat>, names: seq<string>, leaf: FileType)
  {
    && ValidRoute(u, route)
    && NamesAlong(u, route) == names
    && Kids(Subtree(u, route)) != []
    && Kids(Subtree(u, route))[|Kids(Subtree(u, route))| - 1] == leaf
  }

  /** A route down to a node whose last child is `leaf`, extended by one step above. */
  lemma LeafStep(u: FileType, q: nat, rv: seq<nat>, d: string, ds: seq<string>, leaf: FileType)
    requires q < |Kids(u)| && Kids(u)[q].name == d
    requires LeafAt(Kids(u)[q], rv, ds, leaf)
    ensures LeafAt(u, [q] + rv, [d] + ds, leaf)
  {
    RouteCons(u, q, rv);
  }

  /** The walk in the new tree passes through nodes named by the directories, in
      order, and ends at a node whose last child is the new leaf. */
  lemma {:induction false} InsertLeaf(t: FileType, dirs: seq<string>, name: string, count: Num, cp: string)
    ensures LeafAt(Insert(t, dirs, name, count, cp), Walk(t, dirs), dirs, Leaf(name, count))
    decreases |dirs|
  {
    if dirs != [] {
      var p := Extend(cp, dirs[0]);
      var nt := Next(t, dirs[0], p);
      InsertUnfold(t, dirs, name, count, cp);
      InsertLeaf(nt, dirs[1..], name, count, p);
      LeafStep(Insert(t, dirs, name, count, cp), Pos(t, dirs[0]), Walk(nt, dirs[1..]), dirs[0], dirs[1..], Leaf(name, count));
      assert [dirs[0]] + dirs[1..] == dirs;
    }
  }

  /** Below a fresh folder every directory is created, at position 0. */
  lemma FreshWalk(t: FileType, dirs: seq<string>)
    requires Kids(t) == []
    ensures Walk(t, dirs) == seq(|dirs|, _ => 0)
  {
  }

  /** The values `currentPath` takes on the way down `dirs`, from `cp`. */
  function PathsFrom(cp: string, dirs: seq<string>): (r: seq<string>)
    ensures |r| == |dirs|
    decreases |dirs|
  {
    if dirs == [] then [] else [Extend(cp, dirs[0])] + PathsFrom(Extend(cp, dirs[0]), dirs[1..])
  }

  /** The `k`-th of those values is `currentPath` after the first `k + 1` directories. */
  lemma {:induction false} PathsFromAfter(cp: string, dirs: seq<string>, k: nat)
    requires k < |dirs|
    ensures PathsFrom(cp, dirs)[k] == PathAfter(cp, dirs[..k + 1])
    decreases |dirs|
  {
    assert dirs[..k + 1][0] == dirs[0];
    assert dirs[..k + 1][1..] == dirs[1..][..k];
    if k > 0 {
      PathsFromAfter(Extend(cp, dirs[0]), dirs[1..], k - 1);
    }
  }

  /** Directories created below a node with no children carry, in order, the
      values `currentPath` takes on the way down. */
  lemma {:induction false} InsertFreshRoute(t: FileType, dirs: seq<string>, name: string, count: Num, cp: string)
    requires Kids(t) == []
    ensures var u := Insert(t, dirs, name, count, cp);
      var r := Walk(t, dirs);
      ValidRoute(u, r) && PathsAlong(u, r) == PathsFrom(cp, dirs)
    decreases |dirs|
  {
    InsertLeaf(t, dirs, name, count, cp);
    if dirs != [] {
      var p := Extend(cp, dirs[0]);
      var d := NewDir(dirs[0], p);
      InsertFreshRoute(d, dirs[1..], name, count, p);
      InsertUnfold(t, dirs, name, count, cp);
      assert Next(t, dirs[0], p) == d && Pos(t, dirs[0]) == 0;
      assert Insert(d, dirs[1..], name, count, p).path == p;
      RouteCons(Insert(t, dirs, name, count, cp), 0, Walk(d, dirs[1..]));
    }
  }

  /** Directories created below a node with no children get the paths
      `currentPath` takes on the way down. */
  lemma InsertFreshPaths(t: FileType, dirs: seq<string>, name: string, count: Num, cp: string)
    requires Kids(t) == []
    ensures var u := Insert(t, dirs, name, count, cp);
      var r := Walk(t, dirs);
      && ValidRoute(u, r)
      && |PathsAlong(u, r)| == |dirs|
      && forall k :: 0 <= k < |dirs| ==> PathsAlong(u, r)[k] == PathAfter(cp, dirs[..k + 1])
  {
    InsertFreshRoute(t, dirs, name, count, cp);
    forall k | 0 <= k < |dirs| ensures PathsFrom(cp, dirs)[k] == PathAfter(cp, dirs[..k + 1]) {
      PathsFromAfter(cp, dirs, k);
    }
  }

  /** Every line adds at least its leaf. */
  lemma {:induction false} AddLinesCount(t: FileType, lines: seq<string>)
    ensures Count(AddLines(t, lines)) >= Count(t) + |lines|
    decreases |lines|
  {
    if lines != [] {
      var before := AddLines(t, lines[..|lines| - 1]);
      AddLinesCount(t, lines[..|lines| - 1]);
      var p := ParseLine(lines[|lines| - 1]);
      InsertCount(before, p.dirs, p.name, p.count, "");
    }
  }
}
