/**
 * The caches kept between two passes of the layout: after each pass they are
 * cleared and refilled, the sort keys by a recursive walk of the laid-out tree
 * and the positions from the packer's list of circles. The next pass reads the
 * sort keys back through `getSortOrder`, which is how keys persist.
 */
module LayoutCache {
  import opened JsValues
  import opened FileTree
  import opened Normalizer
  import opened Layout

  /** The value the walk stores for a circle: its node's sort key. */
  function OrderOf(c: Circle): Option<Num>
  {
    SortKey(c.data)
  }

  /** The value stored for a circle's position: its centre. */
  function PositionOf(c: Circle): (real, real)
  {
    (c.x, c.y)
  }

  /** `cachedOrders` and `cachedPositions`. */
  class Cache {
    var orders: map<string, Option<Num>>
    var positions: map<string, (real, real)>

    constructor()
      ensures orders == map[] && positions == map[]
    {
      orders := map[];
      positions := map[];
    }

    /** `saveCachedPositionForItem(item)`: store the item's sort key under its
        path, then walk the children in order. */
    method SaveOrder(item: Circle)
      modifies this
      ensures orders == Record(old(orders), Preorder(item), OrderOf)
      ensures positions == old(positions)
      decreases item
    {
      orders := orders[item.data.path := OrderOf(item)];
      ghost var start := orders;
      var k := 0;
      while k < |item.children|
        invariant 0 <= k <= |item.children|
        invariant orders == Record(start, PreorderAll(item.children[..k]), OrderOf)
        invariant positions == old(positions)
      {
        ghost var cs := item.children;
        assert cs[..k + 1][..k] == cs[..k];
        RecordAppend(start, PreorderAll(cs[..k]), Preorder(cs[k]), OrderOf);
        SaveOrder(item.children[k]);
        k := k + 1;
      }
      assert item.children[..k] == item.children;
    }

    /** The refill after a pass: both caches cleared, sort keys from the walk of
        the laid-out tree, positions from the packer's list of circles
        (`descendants()`, whose order the packer decides). */
    method Refill(root: Circle, descendants: seq<Circle>)
      requires forall c :: c in descendants <==> c in Preorder(root)
      modifies this
      ensures orders == Record(map[], Preorder(root), OrderOf)
      ensures positions == Record(map[], descendants, PositionOf)
      ensures positions.Keys == orders.Keys
    {
      orders := map[];
      positions := map[];
      SaveOrder(root);
      var k := 0;
      while k < |descendants|
        invariant 0 <= k <= |descendants|
        invariant orders == Record(map[], Preorder(root), OrderOf)
        invariant positions == Record(map[], descendants[..k], PositionOf)
      {
        var d := descendants[k];
        assert descendants[..k + 1] == descendants[..k] + [d];
        RecordAppend(map[], descendants[..k], [d], PositionOf);
        positions := positions[d.data.path := (d.x, d.y)];
        k := k + 1;
      }
      assert descendants[..k] == descendants;
      RefillSameKeys(root, descendants);
    }
  }

  /** When the packer's list holds exactly the circles of the tree, in whatever
      order, the position cache and the sort-key cache have the same paths. */
  lemma RefillSameKeys(root: Circle, descendants: seq<Circle>)
    requires forall c :: c in descendants <==> c in Preorder(root)
    ensures Record(map[], descendants, PositionOf).Keys == Record(map[], Preorder(root), OrderOf).Keys
  {
    RecordKeys(map[], descendants, PositionOf);
    RecordKeys(map[], Preorder(root), OrderOf);
    var a := set j | 0 <= j < |descendants| :: descendants[j].data.path;
    var b := set j | 0 <= j < |Preorder(root)| :: Preorder(root)[j].data.path;
    forall p | p in a ensures p in b {
      var j :| 0 <= j < |descendants| && descendants[j].data.path == p;
      assert descendants[j] in descendants;
      var l :| 0 <= l < |Preorder(root)| && Preorder(root)[l] == descendants[j];
    }
    forall p | p in b ensures p in a {
      var j :| 0 <= j < |Preorder(root)| && Preorder(root)[j].data.path == p;
      assert Preorder(root)[j] in Preorder(root);
      var l :| 0 <= l < |descendants| && descendants[l] == Preorder(root)[j];
    }
    assert a == b;
  }

  /** After the refill, the cache holds exactly the paths of the laid-out tree. */
  lemma RefillKeys(root: Circle)
    ensures Record(map[], Preorder(root), OrderOf).Keys ==
      set j | 0 <= j < |Preorder(root)| :: Preorder(root)[j].data.path
  {
    RecordKeys(map[], Preorder(root), OrderOf);
  }

  /** After the refill, a path carried by one circle only maps to that circle's
      sort key; with repeated paths, the last circle of the walk wins. */
  lemma RefillEntry(root: Circle, k: nat)
    requires k < |Preorder(root)|
    requires forall j :: k < j < |Preorder(root)| ==> Preorder(root)[j].data.path != Preorder(root)[k].data.path
    ensures var c := Preorder(root)[k];
      c.data.path in Record(map[], Preorder(root), OrderOf) &&
      Record(map[], Preorder(root), OrderOf)[c.data.path] == SortKey(c.data)
  {
    RecordLastWins(map[], Preorder(root), OrderOf, k);
  }

  /** A sort key survives to the next pass: a node of the next pass with the same
      path as a circle that held a nonzero key gets that key back, whatever its
      name, weight or position among its siblings. */
  lemma KeyPersists(root: Circle, k: nat, child: FileType, env: Env, i: nat)
    requires k < |Preorder(root)|
    requires forall j :: k < j < |Preorder(root)| ==> Preorder(root)[j].data.path != Preorder(root)[k].data.path
    requires Truthy(SortKey(Preorder(root)[k].data))
    requires env.orders == Record(map[], Preorder(root), OrderOf)
    requires ProcessChild(child, env, i).path == Preorder(root)[k].data.path
    ensures ProcessChild(child, env, i).meta.value.sortOrder == Preorder(root)[k].data.meta.value.sortOrder
  {
    RefillEntry(root, k);
  }
}
