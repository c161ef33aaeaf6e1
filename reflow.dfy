/**
 * The bookkeeping around the sibling relaxation in `reflowSiblings`: seeding
 * each sibling from the position cache, carrying a moved circle's subtree along
 * rigidly, and shifting the cached positions of its children before the nested
 * relaxation. The relaxation itself (forces, collisions, clamping) is not part
 * of this model: the items arrive with the centres it produced.
 */
module Reflow {
  import opened JsValues
  import opened Normalizer
  import opened Layout

  type Point = (real, real)

  /** `cached?.[0] || fallback`: a missing coordinate and a cached 0 both fall back. */
  function OrElse(cached: Option<real>, fallback: real): (r: real)
    ensures cached.Some? && cached.value != 0.0 ==> r == cached.value
    ensures cached.None? || cached.value == 0.0 ==> r == fallback
  {
    if cached.Some? && cached.value != 0.0 then cached.value else fallback
  }

  /** A sibling being relaxed, with the centre it had when it was packed. */
  datatype Item = Item(node: Circle, originalX: real, originalY: real)

  /** The cached position stored under a path, if any. */
  function CachedAt(cached: map<string, Point>, path: string): Option<Point>
  {
    if path in cached then Some(cached[path]) else None
  }

  /** `{...d, x: cached?.[0] || d.x, y: cached?.[1] || d.y, originalX: d.x, originalY: d.y}`. */
  function Seed(d: Circle, cached: map<string, Point>): Item
  {
    var c := CachedAt(cached, d.data.path);
    Item(d.(x := OrElse(if c.Some? then Some(c.value.0) else None, d.x),
            y := OrElse(if c.Some? then Some(c.value.1) else None, d.y)),
         d.x, d.y)
  }

  /** A sibling starts from its cached centre, coordinate by coordinate, unless
      that coordinate is missing or 0; its packed centre is kept aside. */
  lemma SeedRule(d: Circle, cached: map<string, Point>)
    ensures var it := Seed(d, cached);
      && it.originalX == d.x && it.originalY == d.y
      && it.node.data == d.data && it.node.children == d.children
      && (d.data.path in cached && cached[d.data.path].0 != 0.0 ==> it.node.x == cached[d.data.path].0)
      && (d.data.path in cached && cached[d.data.path].1 != 0.0 ==> it.node.y == cached[d.data.path].1)
      && (d.data.path in cached && cached[d.data.path].0 == 0.0 ==> it.node.x == d.x)
      && (d.data.path in cached && cached[d.data.path].1 == 0.0 ==> it.node.y == d.y)
      && (d.data.path !in cached ==> it.node.x == d.x && it.node.y == d.y)
  {
  }

  // ---- Rigid translation of a subtree ----

  /** `repositionChildren(d, xDiff, yDiff)`. */
  function Shift(t: Circle, dx: real, dy: real): Circle
    decreases t
  {
    Circle(t.data, t.x + dx, t.y + dy,
           seq(|t.children|, k requires 0 <= k < |t.children| => Shift(t.children[k], dx, dy)))
  }

  function ShiftAll(ts: seq<Circle>, dx: real, dy: real): (r: seq<Circle>)
    ensures |r| == |ts| && forall k :: 0 <= k < |ts| ==> r[k] == Shift(ts[k], dx, dy)
  {
    seq(|ts|, k requires 0 <= k < |ts| => Shift(ts[k], dx, dy))
  }

  /** Two translations in a row are one by the sum. */
  lemma {:induction false} ShiftCompose(t: Circle, a: real, b: real, c: real, d: real)
    ensures Shift(Shift(t, a, b), c, d) == Shift(t, a + c, b + d)
    decreases t
  {
    forall k | 0 <= k < |t.children| {
      ShiftCompose(t.children[k], a, b, c, d);
    }
  }

  /** Translating by nothing changes nothing. */
  lemma {:induction false} ShiftZero(t: Circle)
    ensures Shift(t, 0.0, 0.0) == t
    decreases t
  {
    forall k | 0 <= k < |t.children| {
      ShiftZero(t.children[k]);
    }
  }

  /** The tree with its centres forgotten: shape and data only. */
  function Erase(t: Circle): Circle
    decreases t
  {
    Circle(t.data, 0.0, 0.0, seq(|t.children|, k requires 0 <= k < |t.children| => Erase(t.children[k])))
  }

  /** Translating keeps the shape, the node count and every node's data. */
  lemma {:induction false} ShiftErase(t: Circle, dx: real, dy: real)
    ensures Erase(Shift(t, dx, dy)) == Erase(t)
    decreases t
  {
    forall k | 0 <= k < |t.children| {
      ShiftErase(t.children[k], dx, dy);
    }
  }

  /** Every circle of the translated tree is the translated circle of the tree,
      in the same walk order: each node moves by exactly `(dx, dy)`. */
  lemma {:induction false} ShiftPreorder(t: Circle, dx: real, dy: real)
    ensures Preorder(Shift(t, dx, dy)) == ShiftAll(Preorder(t), dx, dy)
    decreases t, 1
  {
    ShiftPreorderAll(t.children, dx, dy);
    var a := [Shift(t, dx, dy)];
    var b := ShiftAll(PreorderAll(t.children), dx, dy);
    assert Shift(t, dx, dy).children == ShiftAll(t.children, dx, dy);
    assert ShiftAll([t] + PreorderAll(t.children), dx, dy) == a + b;
  }

  lemma {:induction false} ShiftPreorderAll(ts: seq<Circle>, dx: real, dy: real)
    ensures PreorderAll(ShiftAll(ts, dx, dy)) == ShiftAll(PreorderAll(ts), dx, dy)
    decreases ts, 0
  {
    if ts != [] {
      var init := ts[..|ts| - 1];
      var last := ts[|ts| - 1];
      var sts := ShiftAll(ts, dx, dy);
      assert sts[..|sts| - 1] == ShiftAll(init, dx, dy);
      ShiftPreorderAll(init, dx, dy);
      ShiftPreorder(last, dx, dy);
      ShiftAllAppend(PreorderAll(init), Preorder(last), dx, dy);
    }
  }

  lemma ShiftAllAppend(a: seq<Circle>, b: seq<Circle>, dx: real, dy: real)
    ensures ShiftAll(a + b, dx, dy) == ShiftAll(a, dx, dy) + ShiftAll(b, dx, dy)
  {
  }

  /** Node by node: the same number of nodes, the same data, every centre moved. */
  lemma ShiftMovesEveryNode(t: Circle, dx: real, dy: real)
    ensures |Preorder(Shift(t, dx, dy))| == |Preorder(t)|
    ensures forall k :: 0 <= k < |Preorder(t)| ==>
      && Preorder(Shift(t, dx, dy))[k].data == Preorder(t)[k].data
      && Preorder(Shift(t, dx, dy))[k].x == Preorder(t)[k].x + dx
      && Preorder(Shift(t, dx, dy))[k].y == Preorder(t)[k].y + dy
  {
    ShiftPreorder(t, dx, dy);
  }

  // ---- Shifting cached positions before a nested relaxation ----

  /** One turn of the `forEach` over the children: a child with a cached position
      has it moved by `diff`; one without gets its current centre. */
  function ShiftEntry(m: map<string, Point>, c: Circle, diff: Point): map<string, Point>
  {
    var p := c.data.path;
    if p in m then m[p := (m[p].0 + diff.0, m[p].1 + diff.1)] else m[p := (c.x, c.y)]
  }

  /** The copied cache after the `forEach` over `cs`. */
  function ShiftCache(m: map<string, Point>, cs: seq<Circle>, diff: Point): map<string, Point>
    decreases |cs|
  {
    if cs == [] then m else ShiftEntry(ShiftCache(m, cs[..|cs| - 1], diff), cs[|cs| - 1], diff)
  }

  /** An entry whose path no child carries is left as it was. */
  lemma {:induction false} ShiftCacheOthers(m: map<string, Point>, cs: seq<Circle>, diff: Point, key: string)
    requires forall j :: 0 <= j < |cs| ==> cs[j].data.path != key
    ensures key in ShiftCache(m, cs, diff) <==> key in m
    ensures key in m ==> ShiftCache(m, cs, diff)[key] == m[key]
    decreases |cs|
  {
    if cs != [] {
      ShiftCacheOthers(m, cs[..|cs| - 1], diff, key);
    }
  }

  /** A child whose path no sibling shares maps to its cached position moved by
      `diff`, or to its own centre when it had no cached position. */
  lemma {:induction false} ShiftCacheChild(m: map<string, Point>, cs: seq<Circle>, diff: Point, k: nat)
    requires k < |cs|
    requires forall j :: 0 <= j < |cs| && j != k ==> cs[j].data.path != cs[k].data.path
    ensures var p := cs[k].data.path;
      && p in ShiftCache(m, cs, diff)
      && ShiftCache(m, cs, diff)[p] == (if p in m then (m[p].0 + diff.0, m[p].1 + diff.1) else (cs[k].x, cs[k].y))
    decreases |cs|
  {
    var p := cs[k].data.path;
    var init := cs[..|cs| - 1];
    if k == |cs| - 1 {
      ShiftCacheOthers(m, init, diff, p);
    } else {
      ShiftCacheChild(m, init, diff, k);
    }
  }

  /** The loop that fills `repositionedCachedPositions`, on a copy of the cache. */
  method NestedCache(cached: map<string, Point>, children: seq<Circle>, diff: Point) returns (m: map<string, Point>)
    ensures m == ShiftCache(cached, children, diff)
  {
    m := cached;
    var k := 0;
    while k < |children|
      invariant 0 <= k <= |children|
      invariant m == ShiftCache(cached, children[..k], diff)
    {
      assert children[..k + 1][..k] == children[..k];
      var child := children[k];
      var p := child.data.path;
      if p in m {
        m := m[p := (m[p].0 + diff.0, m[p].1 + diff.1)];
      } else {
        m := m[p := (child.x, child.y)];
      }
      k := k + 1;
    }
    assert children[..k] == children;
  }

  // ---- The loop over the relaxed items ----

  /** `item` moved away from its cached centre by this much; by nothing when it
      has no cached centre (`?? [item.x, item.y]`). */
  function CacheDiff(it: Item, cached: map<string, Point>): Point
  {
    var c := if it.node.data.path in cached then cached[it.node.data.path] else (it.node.x, it.node.y);
    (it.node.x - c.0, it.node.y - c.1)
  }

  /** How far the relaxation moved the item from its packed centre. */
  function ReflowDiff(it: Item): Point
  {
    (it.node.x - it.originalX, it.node.y - it.originalY)
  }

  /** The item after `item.children = item.children.map(...)`: its subtrees carried
      along by the relaxation's move. */
  function Repositioned(it: Item): Item
  {
    if it.node.children == [] then it
    else it.(node := it.node.(children := ShiftAll(it.node.children, ReflowDiff(it).0, ReflowDiff(it).1)))
  }

  /** The cache handed to the nested relaxation, which runs only for an item with
      more than 4 children. */
  function NestedInput(it: Item, cached: map<string, Point>): Option<map<string, Point>>
  {
    var r := Repositioned(it);
    if |r.node.children| > 4 then Some(ShiftCache(cached, r.node.children, CacheDiff(it, cached))) else None
  }

  /** The body of `for (const item of items)`: the item with its subtrees carried
      along, and the cache for its nested relaxation when there is one. */
  method RepositionOne(item: Item, cached: map<string, Point>) returns (moved: Item, entry: Option<map<string, Point>>)
    ensures moved == Repositioned(item)
    ensures entry == NestedInput(item, cached)
  {
    var own := if item.node.data.path in cached then cached[item.node.data.path] else (item.node.x, item.node.y);
    var diffFromCached := (item.node.x - own.0, item.node.y - own.1);
    moved := item;
    entry := None;
    if item.node.children != [] {
      var reflowDiff := (item.node.x - item.originalX, item.node.y - item.originalY);
      var children := ShiftAll(item.node.children, reflowDiff.0, reflowDiff.1);
      moved := item.(node := item.node.(children := children));
      if |children| > 4 {
        var m := NestedCache(cached, children, diffFromCached);
        entry := Some(m);
      }
    }
  }

  /** `for (const item of items)`: every item's subtrees are carried along, and
      the caches for the nested relaxations are prepared; the nested relaxations
      themselves are not modelled. */
  method RepositionItems(items: array<Item>, cached: map<string, Point>) returns (nested: seq<Option<map<string, Point>>>)
    modifies items
    ensures forall k :: 0 <= k < items.Length ==> items[k] == Repositioned(old(items[k]))
    ensures |nested| == items.Length
    ensures forall k :: 0 <= k < items.Length ==> nested[k] == NestedInput(old(items[k]), cached)
  {
    nested := [];
    var k := 0;
    while k < items.Length
      invariant 0 <= k <= items.Length
      invariant |nested| == k
      invariant forall j :: 0 <= j < k ==> items[j] == Repositioned(old(items[j]))
      invariant forall j :: 0 <= j < k ==> nested[j] == NestedInput(old(items[j]), cached)
      invariant forall j :: k <= j < items.Length ==> items[j] == old(items[j])
    {
      var moved, entry := RepositionOne(items[k], cached);
      items[k] := moved;
      nested := nested + [entry];
      k := k + 1;
    }
  }
}
