/**
 * The tree builder fed by piped input, in its imperative form: one mutable tree
 * grown in place, line by line. Node objects live in an arena (`nodes`); an index
 * into it stands for a reference to a node object, and a node's `children` array
 * is a list of such indices. The ghost `parent` array records who owns each node,
 * which is what makes the arena a tree: no node is shared, so growing one node
 * changes the tree only along the path to it.
 */
module StdinBuilder {
  import opened JsValues
  import opened FileTree
  import opened LineParser
  import opened TreeInsert

  /** One node object: `children` is missing (None) or an array of node references. */
  datatype Entry = Entry(name: string, path: string, size: Num, kids: Option<seq<nat>>)

  /** `node.children ?? []`, as references. */
  function KidsOf(e: Entry): seq<nat>
  {
    if e.kids.Some? then e.kids.value else []
  }

  /** Every child reference of node `i` points further into the arena. */
  predicate KidsAfter(nodes: seq<Entry>, i: nat)
    requires i < |nodes|
  {
    forall k :: 0 <= k < |KidsOf(nodes[i])| ==> i < KidsOf(nodes[i])[k] < |nodes|
  }

  predicate Wf(nodes: seq<Entry>)
  {
    forall i :: 0 <= i < |nodes| ==> KidsAfter(nodes, i)
  }

  /** The tree value of the node object at `i`. */
  function ToTree(nodes: seq<Entry>, i: nat): FileType
    requires Wf(nodes) && i < |nodes|
    decreases |nodes| - i
  {
    var e := nodes[i];
    var ks := KidsOf(e);
    assert KidsAfter(nodes, i);
    FileType(e.name, e.path, e.size,
      if e.kids.None? then Absent
      else Listed(seq(|ks|, k requires 0 <= k < |ks| => ToTree(nodes, ks[k]))))
  }

  lemma KidsToTree(nodes: seq<Entry>, i: nat)
    requires Wf(nodes) && i < |nodes|
    ensures ToTree(nodes, i).children.Absent? <==> nodes[i].kids.None?
    ensures |Kids(ToTree(nodes, i))| == |KidsOf(nodes[i])|
    ensures forall k :: 0 <= k < |KidsOf(nodes[i])| ==>
      KidsOf(nodes[i])[k] < |nodes| && Kids(ToTree(nodes, i))[k] == ToTree(nodes, KidsOf(nodes[i])[k])
  {
    assert KidsAfter(nodes, i);
  }

  /** Every non-root node has one owner below it in the arena. */
  predicate ParentsBelow(parent: seq<nat>)
  {
    forall j :: 0 < j < |parent| ==> parent[j] < j
  }

  /** The arena is a tree rooted at 0: the parent of each child reference is the
      node that holds it, and no node lists the same child twice. */
  ghost predicate Shaped(nodes: seq<Entry>, parent: seq<nat>)
  {
    && |nodes| >= 1
    && |parent| == |nodes|
    && Wf(nodes)
    && ParentsBelow(parent)
    && (forall i, k :: 0 <= i < |nodes| && 0 <= k < |KidsOf(nodes[i])| ==> OwnedBy(nodes, parent, i, k))
    && (forall i, k, l :: 0 <= i < |nodes| && 0 <= k < l < |KidsOf(nodes[i])| ==>
          KidsOf(nodes[i])[k] != KidsOf(nodes[i])[l])
  }

  ghost predicate OwnedBy(nodes: seq<Entry>, parent: seq<nat>, i: nat, k: nat)
    requires i < |nodes| && k < |KidsOf(nodes[i])|
  {
    KidsOf(nodes[i])[k] < |parent| && parent[KidsOf(nodes[i])[k]] == i
  }

  /** `a` is `c` or one of its ancestors. */
  ghost predicate AncOrSelf(parent: seq<nat>, a: nat, c: nat)
    requires ParentsBelow(parent) && c < |parent|
    decreases c
  {
    if c == a then true
    else if c <= a then false
    else AncOrSelf(parent, a, parent[c])
  }

  lemma {:induction false} AncLe(parent: seq<nat>, a: nat, c: nat)
    requires ParentsBelow(parent) && c < |parent|
    requires AncOrSelf(parent, a, c)
    ensures a <= c
    decreases c
  {
    if c != a && c > a {
      AncLe(parent, a, parent[c]);
    }
  }

  /** The owner of an ancestor is an ancestor too. */
  lemma {:induction false} AncStep(parent: seq<nat>, i: nat, j: nat, c: nat)
    requires ParentsBelow(parent) && c < |parent| && j < |parent|
    requires i < j && parent[j] == i
    requires AncOrSelf(parent, j, c)
    ensures AncOrSelf(parent, i, c)
    decreases c
  {
    if c != j {
      AncLe(parent, j, c);
      AncStep(parent, i, j, parent[c]);
    }
  }

  /** Two ancestors of the same node lie on one line. */
  lemma {:induction false} Comparable(parent: seq<nat>, a: nat, b: nat, c: nat)
    requires ParentsBelow(parent) && c < |parent| && a < |parent| && b < |parent|
    requires AncOrSelf(parent, a, c) && AncOrSelf(parent, b, c)
    ensures AncOrSelf(parent, a, b) || AncOrSelf(parent, b, a)
    decreases c
  {
    if c != a && c != b {
      Comparable(parent, a, b, parent[c]);
    }
  }

  /** Different children of one node have no descendant in common. */
  lemma SiblingsApart(parent: seq<nat>, i: nat, a: nat, b: nat, c: nat)
    requires ParentsBelow(parent) && c < |parent| && a < |parent| && b < |parent|
    requires i < a && i < b && a != b && parent[a] == i && parent[b] == i
    requires AncOrSelf(parent, b, c)
    ensures !AncOrSelf(parent, a, c)
  {
    if AncOrSelf(parent, a, c) {
      Comparable(parent, a, b, c);
    }
  }

  /** The node reached from `i` by a route of child positions. */
  function Follow(nodes: seq<Entry>, i: nat, route: seq<nat>): Option<nat>
    requires Wf(nodes) && i < |nodes|
    decreases |route|
  {
    if route == [] then Some(i)
    else
      var ks := KidsOf(nodes[i]);
      assert KidsAfter(nodes, i);
      if route[0] < |ks| then Follow(nodes, ks[route[0]], route[1..]) else None
  }

  lemma {:induction false} FollowIncreasing(nodes: seq<Entry>, i: nat, route: seq<nat>, c: nat)
    requires Wf(nodes) && i < |nodes|
    requires Follow(nodes, i, route) == Some(c)
    ensures i <= c < |nodes|
    ensures route != [] ==> i < c
    decreases |route|
  {
    if route != [] {
      assert KidsAfter(nodes, i);
      FollowIncreasing(nodes, KidsOf(nodes[i])[route[0]], route[1..], c);
    }
  }

  lemma {:induction false} FollowAnc(nodes: seq<Entry>, parent: seq<nat>, i: nat, route: seq<nat>, c: nat)
    requires Shaped(nodes, parent) && i < |nodes|
    requires Follow(nodes, i, route) == Some(c)
    ensures c < |nodes| && AncOrSelf(parent, i, c)
    decreases |route|
  {
    if route != [] {
      assert KidsAfter(nodes, i);
      var j := KidsOf(nodes[i])[route[0]];
      assert OwnedBy(nodes, parent, i, route[0]);
      FollowAnc(nodes, parent, j, route[1..], c);
      AncStep(parent, i, j, c);
    }
  }

  /** A route that reaches a node reaches, one step further, its children. */
  lemma {:induction false} FollowSnoc(nodes: seq<Entry>, i: nat, route: seq<nat>, c: nat, q: nat)
    requires Wf(nodes) && i < |nodes|
    requires Follow(nodes, i, route) == Some(c)
    requires c < |nodes| && q < |KidsOf(nodes[c])|
    ensures Follow(nodes, i, route + [q]) == Some(KidsOf(nodes[c])[q])
    decreases |route|
  {
    if route == [] {
      assert route + [q] == [q];
      assert KidsAfter(nodes, c);
    } else {
      assert (route + [q])[0] == route[0];
      assert (route + [q])[1..] == route[1..] + [q];
      assert KidsAfter(nodes, i);
      FollowSnoc(nodes, KidsOf(nodes[i])[route[0]], route[1..], c, q);
    }
  }

  /** A route keeps reaching `c` when nothing before `c` changes. */
  lemma {:induction false} FollowStable(nodes: seq<Entry>, nodes': seq<Entry>, i: nat, route: seq<nat>, c: nat)
    requires Wf(nodes) && Wf(nodes') && i < |nodes| && c < |nodes| <= |nodes'|
    requires Follow(nodes, i, route) == Some(c)
    requires forall x :: 0 <= x < c ==> nodes'[x] == nodes[x]
    ensures Follow(nodes', i, route) == Some(c)
    decreases |route|
  {
    if route != [] {
      FollowIncreasing(nodes, i, route, c);
      assert KidsAfter(nodes, i);
      var j := KidsOf(nodes[i])[route[0]];
      FollowIncreasing(nodes, j, route[1..], c);
      FollowStable(nodes, nodes', j, route[1..], c);
    }
  }

  /** A route through the arena is a route through the tree, to the same subtree. */
  lemma {:induction false} FollowSub(nodes: seq<Entry>, i: nat, route: seq<nat>, c: nat)
    requires Wf(nodes) && i < |nodes|
    requires Follow(nodes, i, route) == Some(c)
    ensures c < |nodes|
    ensures ValidRoute(ToTree(nodes, i), route)
    ensures Subtree(ToTree(nodes, i), route) == ToTree(nodes, c)
    decreases |route|
  {
    if route != [] {
      KidsToTree(nodes, i);
      FollowSub(nodes, KidsOf(nodes[i])[route[0]], route[1..], c);
    } else {
      FollowIncreasing(nodes, i, route, c);
    }
  }

  /** Adding a node object at the end changes no existing tree value. */
  lemma {:induction false} AppendFrame(nodes: seq<Entry>, e: Entry, i: nat)
    requires Wf(nodes) && Wf(nodes + [e]) && i < |nodes|
    ensures ToTree(nodes + [e], i) == ToTree(nodes, i)
    decreases |nodes| - i
  {
    var ks := KidsOf(nodes[i]);
    assert KidsAfter(nodes, i);
    forall k | 0 <= k < |ks|
      ensures ToTree(nodes + [e], ks[k]) == ToTree(nodes, ks[k])
    {
      AppendFrame(nodes, e, ks[k]);
    }
    KidsToTree(nodes, i);
    KidsToTree(nodes + [e], i);
  }

  /** Changing node `c` leaves the tree value of every node that is not its
      ancestor unchanged. */
  lemma {:induction false} OffPathFrame(nodes: seq<Entry>, parent: seq<nat>, c: nat, e: Entry, i: nat)
    requires Shaped(nodes, parent) && c < |nodes| && i < |nodes|
    requires Wf(nodes[c := e])
    requires !AncOrSelf(parent, i, c)
    ensures ToTree(nodes[c := e], i) == ToTree(nodes, i)
    decreases |nodes| - i
  {
    var nodes' := nodes[c := e];
    var ks := KidsOf(nodes[i]);
    assert KidsAfter(nodes, i);
    forall k | 0 <= k < |ks|
      ensures ToTree(nodes', ks[k]) == ToTree(nodes, ks[k])
    {
      assert OwnedBy(nodes, parent, i, k);
      if AncOrSelf(parent, ks[k], c) {
        AncStep(parent, i, ks[k], c);
      }
      OffPathFrame(nodes, parent, c, e, ks[k]);
    }
    KidsToTree(nodes, i);
    KidsToTree(nodes', i);
  }

  /** Changing node `c`, reached by `route`, changes the tree exactly at `route`. */
  lemma {:induction false} UpdateAlong(nodes: seq<Entry>, parent: seq<nat>, i: nat, route: seq<nat>, c: nat, e: Entry)
    requires Shaped(nodes, parent) && i < |nodes|
    requires Follow(nodes, i, route) == Some(c)
    requires c < |nodes| && Wf(nodes[c := e])
    ensures ToTree(nodes[c := e], i) == Plug(ToTree(nodes, i), route, ToTree(nodes[c := e], c))
    decreases |route|
  {
    if route != [] {
      var nodes' := nodes[c := e];
      var ks := KidsOf(nodes[i]);
      var q := route[0];
      assert KidsAfter(nodes, i);
      var j := ks[q];
      FollowIncreasing(nodes, i, route, c);
      UpdateAlong(nodes, parent, j, route[1..], c, e);
      FollowAnc(nodes, parent, j, route[1..], c);
      assert OwnedBy(nodes, parent, i, q);
      forall k | 0 <= k < |ks| && k != q
        ensures ToTree(nodes', ks[k]) == ToTree(nodes, ks[k])
      {
        assert OwnedBy(nodes, parent, i, k);
        SiblingsApart(parent, i, ks[k], j, c);
        OffPathFrame(nodes, parent, c, e, ks[k]);
      }
      KidsToTree(nodes, i);
      KidsToTree(nodes', i);
      var t := ToTree(nodes, i);
      assert Kids(ToTree(nodes', i)) == Kids(t)[q := Plug(Kids(t)[q], route[1..], ToTree(nodes', c))];
    }
  }

  /** The tree value of a node object that has no child references. */
  function EntryTree(e: Entry): FileType
    requires KidsOf(e) == []
  {
    FileType(e.name, e.path, e.size, if e.kids.None? then Absent else Listed([]))
  }

  /** The arena after `node.children ??= []; node.children.push(e)` on node `c`:
      `e` is stored at the end and `c` gets a reference to it. */
  function Linked(nodes: seq<Entry>, c: nat, e: Entry): seq<Entry>
    requires c < |nodes|
  {
    (nodes + [e])[c := nodes[c].(kids := Some(KidsOf(nodes[c]) + [|nodes|]))]
  }

  /** Storing a childless node at the end keeps the arena a tree. */
  lemma AppendShaped(nodes: seq<Entry>, parent: seq<nat>, c: nat, e: Entry)
    requires Shaped(nodes, parent) && c < |nodes| && KidsOf(e) == []
    ensures Shaped(nodes + [e], parent + [c])
  {
    var nodes1 := nodes + [e];
    var parent1 := parent + [c];
    assert Wf(nodes1) by {
      forall i | 0 <= i < |nodes1| ensures KidsAfter(nodes1, i) {
        if i < |nodes| { assert KidsAfter(nodes, i); }
      }
    }
    forall i, k | 0 <= i < |nodes1| && 0 <= k < |KidsOf(nodes1[i])|
      ensures OwnedBy(nodes1, parent1, i, k)
    {
      assert OwnedBy(nodes, parent, i, k);
      assert KidsAfter(nodes, i);
    }
  }

  /** Linking the last node under `c`, its recorded owner, keeps the arena a tree. */
  lemma LinkShaped(nodes: seq<Entry>, parent: seq<nat>, c: nat, e: Entry)
    requires Shaped(nodes, parent) && c < |nodes| && KidsOf(e) == []
    ensures Shaped(Linked(nodes, c, e), parent + [c])
  {
    AppendShaped(nodes, parent, c, e);
    var nodes1 := nodes + [e];
    var parent1 := parent + [c];
    var n := |nodes|;
    var ks := KidsOf(nodes[c]);
    var nodes2 := Linked(nodes, c, e);
    assert KidsOf(nodes2[c]) == ks + [n];
    assert KidsAfter(nodes, c);
    assert Wf(nodes2) by {
      forall i | 0 <= i < |nodes2| ensures KidsAfter(nodes2, i) {
        if i != c { assert KidsAfter(nodes1, i); }
      }
    }
    forall i, k | 0 <= i < |nodes2| && 0 <= k < |KidsOf(nodes2[i])|
      ensures OwnedBy(nodes2, parent1, i, k)
    {
      if i == c {
        if k < |ks| { assert OwnedBy(nodes1, parent1, c, k); }
      } else {
        assert OwnedBy(nodes1, parent1, i, k);
      }
    }
  }

  /** `node.children ??= []; node.children.push(e)` on node `c`, reached by `route`:
      the new node is reached one step further, and the tree changes only at
      `route`, where `c` gains `e` as its last child. */
  lemma AppendChild(nodes: seq<Entry>, parent: seq<nat>, route: seq<nat>, c: nat, e: Entry)
    requires Shaped(nodes, parent)
    requires Follow(nodes, 0, route) == Some(c)
    requires KidsOf(e) == []
    ensures c < |nodes|
    ensures Shaped(Linked(nodes, c, e), parent + [c])
    ensures Follow(Linked(nodes, c, e), 0, route + [|KidsOf(nodes[c])|]) == Some(|nodes|)
    ensures ToTree(Linked(nodes, c, e), |nodes|) == EntryTree(e)
    ensures ToTree(Linked(nodes, c, e), 0) ==
      Plug(ToTree(nodes, 0), route, ToTree(nodes, c).(children := Listed(Kids(ToTree(nodes, c)) + [EntryTree(e)])))
  {
    FollowIncreasing(nodes, 0, route, c);
    AppendShaped(nodes, parent, c, e);
    LinkShaped(nodes, parent, c, e);
    var n := |nodes|;
    var ks := KidsOf(nodes[c]);
    var nodes1 := nodes + [e];
    var parent1 := parent + [c];
    var e2 := nodes[c].(kids := Some(ks + [n]));
    var nodes2 := Linked(nodes, c, e);
    assert nodes2 == nodes1[c := e2];
    forall i | 0 <= i < n ensures ToTree(nodes1, i) == ToTree(nodes, i) {
      AppendFrame(nodes, e, i);
    }
    FollowStable(nodes, nodes1, 0, route, c);
    UpdateAlong(nodes1, parent1, 0, route, c, e2);
    FollowStable(nodes1, nodes2, 0, route, c);
    FollowSnoc(nodes2, 0, route, c, |ks|);
    assert KidsAfter(nodes, c);
    assert KidsOf(e2) == ks + [n];
    ChildrenKept(nodes1, parent1, c, e2);
    KidsToTree(nodes, c);
    KidsToTree(nodes2, c);
    KidsToTree(nodes1, n);
    assert ToTree(nodes1, n) == EntryTree(e);
    assert Kids(ToTree(nodes2, c)) == Kids(ToTree(nodes, c)) + [EntryTree(e)];
  }

  /** Changing node `c` leaves the trees of the nodes it refers to unchanged. */
  lemma ChildrenKept(nodes: seq<Entry>, parent: seq<nat>, c: nat, e: Entry)
    requires Shaped(nodes, parent) && c < |nodes|
    requires forall k :: 0 <= k < |KidsOf(e)| ==> c < KidsOf(e)[k] < |nodes|
    requires Wf(nodes[c := e])
    ensures forall k :: 0 <= k < |KidsOf(e)| ==>
      ToTree(nodes[c := e], KidsOf(e)[k]) == ToTree(nodes, KidsOf(e)[k])
  {
    forall k | 0 <= k < |KidsOf(e)|
      ensures ToTree(nodes[c := e], KidsOf(e)[k]) == ToTree(nodes, KidsOf(e)[k])
    {
      var j := KidsOf(e)[k];
      if AncOrSelf(parent, j, c) { AncLe(parent, j, c); }
      OffPathFrame(nodes, parent, c, e, j);
    }
  }

  /** The tree being built, held as mutable node objects. */
  class StdinTree {
    var nodes: seq<Entry>
    ghost var parent: seq<nat>

    ghost predicate Valid()
      reads this
    {
      Shaped(nodes, parent)
    }

    /** The tree value of the root object. */
    function Tree(): FileType
      reads this
      requires Valid()
    {
      ToTree(nodes, 0)
    }

    /** `const tree = {name: '.', path: '', size: 4096}`. */
    constructor()
      ensures Valid() && Tree() == Root
    {
      nodes := [Entry(".", "", Int(DirSize), None)];
      parent := [0];
      new;
      assert KidsAfter(nodes, 0);
    }

    /** `node.children.find(n => n.name === dir)`, as a position among the
        children of node object `node`; the number of children when none matches. */
    method Find(node: nat, dir: string) returns (j: nat)
      requires Valid() && node < |nodes|
      ensures j <= |Kids(ToTree(nodes, node))|
      ensures j < |Kids(ToTree(nodes, node))| ==> FirstNamed(Kids(ToTree(nodes, node)), dir) == Some(j)
      ensures j == |Kids(ToTree(nodes, node))| ==> FirstNamed(Kids(ToTree(nodes, node)), dir).None?
    {
      KidsToTree(nodes, node);
      var children := KidsOf(nodes[node]);
      assert KidsAfter(nodes, node);
      j := 0;
      while j < |children| && nodes[children[j]].name != dir
        invariant 0 <= j <= |children|
        invariant forall l :: 0 <= l < j ==> nodes[children[l]].name != dir
      {
        j := j + 1;
      }
    }

    /** `node.children ??= []; node.children.push(e)` on the node object reached
        from the root by `route`. */
    method Push(ghost route: seq<nat>, node: nat, e: Entry)
      requires Valid() && node < |nodes| && Follow(nodes, 0, route) == Some(node)
      requires KidsOf(e) == []
      modifies this
      ensures Valid()
      ensures nodes == Linked(old(nodes), node, e)
      ensures Follow(nodes, 0, route + [|KidsOf(old(nodes)[node])|]) == Some(|old(nodes)|)
      ensures ToTree(nodes, |old(nodes)|) == EntryTree(e)
      ensures Tree() == Plug(old(Tree()), route,
        old(ToTree(nodes, node)).(children := Listed(Kids(old(ToTree(nodes, node))) + [EntryTree(e)])))
    {
      AppendChild(nodes, parent, route, node, e);
      var children := KidsOf(nodes[node]);
      var n := |nodes|;
      ghost var linked := Linked(nodes, node, e);
      nodes := nodes + [e];
      nodes := nodes[node := nodes[node].(kids := Some(children + [n]))];
      parent := parent + [node];
      assert nodes == linked;
    }

    /** One turn of the loop over `dirs` in `updateTree`, from node object `node`
        (reached by `route`) with `currentPath == cp` before the turn: descend into
        the first child named `dirs[0]`, or push a new folder and descend into it.
        What is left of the insertion moves one level down. */
    method Descend(ghost goal: FileType, ghost route: seq<nat>, node: nat, dirs: seq<string>,
                   name: string, count: Num, cp: string) returns (next: nat, ghost route': seq<nat>)
      requires Valid() && node < |nodes| && Follow(nodes, 0, route) == Some(node) && dirs != []
      requires goal == Plug(Tree(), route, Insert(ToTree(nodes, node), dirs, name, count, cp))
      modifies this
      ensures Valid() && next < |nodes| && Follow(nodes, 0, route') == Some(next)
      ensures goal == Plug(Tree(), route', Insert(ToTree(nodes, next), dirs[1..], name, count, Extend(cp, dirs[0])))
    {
      var dir := dirs[0];
      var currentPath := Extend(cp, dir);
      FollowSub(nodes, 0, route, node);
      KidsToTree(nodes, node);
      var j := Find(node, dir);
      if j < |KidsOf(nodes[node])| {
        DescendFound(Tree(), route, dirs, name, count, cp, j);
        FollowSnoc(nodes, 0, route, node, j);
        route' := route + [j];
        next := KidsOf(nodes[node])[j];
      } else {
        // `node.children ??= []` takes effect here: a node without children has
        // nothing to find.
        DescendNew(Tree(), route, dirs, name, count, cp);
        next := |nodes|;
        route' := route + [|KidsOf(nodes[node])|];
        Push(route, node, Entry(dir, currentPath, Int(DirSize), Some([])));
      }
    }

    /** `updateTree(tree, line)`: walk down `dirs`, reusing the first child with
        the same name or pushing a new folder, then push the file leaf. */
    method UpdateTree(line: ParsedLine)
      requires Valid()
      modifies this
      ensures Valid()
      ensures Tree() == Apply(old(Tree()), line)
    {
      ghost var goal := Apply(Tree(), line);
      var dirs := line.dirs;
      var node := 0;
      var currentPath := "";
      ghost var route: seq<nat> := [];
      var k := 0;
      assert dirs[0..] == dirs;
      while k < |dirs|
        invariant 0 <= k <= |dirs|
        invariant Valid() && node < |nodes|
        invariant Follow(nodes, 0, route) == Some(node)
        invariant goal == Plug(Tree(), route, Insert(ToTree(nodes, node), dirs[k..], line.name, line.count, currentPath))
      {
        assert dirs[k..][0] == dirs[k] && dirs[k..][1..] == dirs[k + 1..];
        node, route := Descend(goal, route, node, dirs[k..], line.name, line.count, currentPath);
        currentPath := Extend(currentPath, dirs[k]);
        k := k + 1;
      }
      // `node.children ??= []; node.children.push({name, path, size: count})`
      assert dirs[k..] == [];
      FollowSub(nodes, 0, route, node);
      Push(route, node, Entry(line.name, LeafPath, line.count, None));
    }

    /** The `for await (const line of rl)` loop, over the lines given. */
    method ReadLines(lines: seq<string>)
      requires Valid()
      modifies this
      ensures Valid()
      ensures Tree() == AddLines(old(Tree()), lines)
    {
      ghost var start := Tree();
      var i := 0;
      while i < |lines|
        invariant 0 <= i <= |lines|
        invariant Valid()
        invariant Tree() == AddLines(start, lines[..i])
      {
        assert lines[..i + 1][..i] == lines[..i];
        UpdateTree(ParseLine(lines[i]));
        i := i + 1;
      }
      assert lines[..i] == lines;
    }
  }

  /** `readFromStdin()`, with the input given as its lines. */
  method ReadFromStdin(lines: seq<string>) returns (tree: FileType)
    ensures tree == Build(lines)
  {
    var b := new StdinTree();
    b.ReadLines(lines);
    tree := b.Tree();
  }
}
