/**
 * The hierarchy normaliser that runs before the circle packing: a post-order
 * rewrite of the input tree that collapses single-child chains, derives each
 * node's extension, moves the root's loose files into one synthetic bucket,
 * and gives every node a capped weight, a colour and a sort key.
 */
module Normalizer {
  import opened JsValues
  import opened Strings
  import opened FileTree

  /** Name and path of the synthetic node that holds the root's loose files. */
  const LooseFilesId := "__structure_loose_file__"

  /** Colour of a node whose (main) extension has no entry in the colour table. */
  const DefaultColor := "#CED6E0"

  /** Extensions whose files get the small fixed weight. */
  const HeavyExtensions: seq<string> := ["woff", "woff2", "ttf", "png", "jpg", "svg"]

  /** The fields the normaliser adds to a node. */
  datatype Meta = Meta(labelText: string, extension: string, pathWithoutExtension: string,
                       value: Num, color: string, sortOrder: Num)

  /** A node of the normalised tree. The bucket is the one node built without
      running the normaliser on it, so it carries no `Meta`. */
  datatype Processed = Processed(name: string, path: string, size: Num, meta: Option<Meta>, children: PChildren)

  /** A `children` property that is missing or is an array. */
  datatype PChildren = NoChildren | ChildList(items: seq<Processed>)

  /** What the normaliser reads besides the tree: the colour table, the label
      truncation (`truncateString(name, 13)`, defined elsewhere) and the sort keys
      cached by the previous pass (`undefined` entries are None). */
  datatype Env = Env(colors: map<string, string>, truncate: string -> string, orders: map<string, Option<Num>>)

  /** `d.children?.length` is truthy. */
  predicate HasKids(p: Processed)
  {
    p.children.ChildList? && |p.children.items| > 0
  }

  /** `children.filter((d) => d.children?.length)`. */
  function Branches(ps: seq<Processed>): (r: seq<Processed>)
    ensures forall k :: 0 <= k < |r| ==> HasKids(r[k])
  {
    if ps == [] then [] else (if HasKids(ps[0]) then [ps[0]] else []) + Branches(ps[1..])
  }

  /** `children.filter((d) => !d.children?.length)`. */
  function Loose(ps: seq<Processed>): (r: seq<Processed>)
    ensures forall k :: 0 <= k < |r| ==> !HasKids(r[k])
  {
    if ps == [] then [] else (if HasKids(ps[0]) then [] else [ps[0]]) + Loose(ps[1..])
  }

  /** The synthetic node holding the loose files. */
  function Bucket(loose: seq<Processed>): Processed
  {
    Processed(LooseFilesId, LooseFilesId, Int(0), None, ChildList(loose))
  }

  /** The root's children after bucketing: the branches, then the bucket. */
  function Bucketed(ps: seq<Processed>): seq<Processed>
  {
    Branches(ps) + [Bucket(Loose(ps))]
  }

  /** `a` is `b` with some elements left out, the rest in their order. */
  predicate IsSubsequence(a: seq<Processed>, b: seq<Processed>)
    decreases |b|
  {
    if a == [] then true
    else if b == [] then false
    else (a[0] == b[0] && IsSubsequence(a[1..], b[1..])) || IsSubsequence(a, b[1..])
  }

  /** Bucketing loses and duplicates nothing: the branches and the bucket's files
      are, between them, exactly the children. */
  lemma {:induction false} BucketPartition(ps: seq<Processed>)
    ensures multiset(Branches(ps)) + multiset(Loose(ps)) == multiset(ps)
    ensures |Branches(ps)| + |Loose(ps)| == |ps|
  {
    if ps != [] {
      BucketPartition(ps[1..]);
      assert ps == [ps[0]] + ps[1..];
      assert multiset(ps) == multiset([ps[0]]) + multiset(ps[1..]);
    }
  }

  /** Both halves keep their elements in the original order. */
  lemma {:induction false} BucketOrder(ps: seq<Processed>)
    ensures IsSubsequence(Branches(ps), ps) && IsSubsequence(Loose(ps), ps)
  {
    if ps != [] {
      BucketOrder(ps[1..]);
      if HasKids(ps[0]) {
        assert Branches(ps)[1..] == Branches(ps[1..]);
        assert Loose(ps) == Loose(ps[1..]);
        if Loose(ps) != [] { SubsequenceSkip(Loose(ps), ps); }
      } else {
        assert Loose(ps)[1..] == Loose(ps[1..]);
        assert Branches(ps) == Branches(ps[1..]);
        if Branches(ps) != [] { SubsequenceSkip(Branches(ps), ps); }
      }
    }
  }

  /** Leaving out the first element of `b` keeps `a` a subsequence. */
  lemma SubsequenceSkip(a: seq<Processed>, b: seq<Processed>)
    requires a != [] && b != [] && IsSubsequence(a, b[1..])
    ensures IsSubsequence(a, b)
  {
  }

  /** The bucketed list: only branches before the bucket, the bucket last,
      holding only entries without children. */
  lemma BucketedShape(ps: seq<Processed>)
    ensures var r := Bucketed(ps);
      && r != []
      && r[|r| - 1] == Processed(LooseFilesId, LooseFilesId, Int(0), None, ChildList(Loose(ps)))
      && (forall k :: 0 <= k < |r| - 1 ==> HasKids(r[k]))
      && (forall k :: 0 <= k < |Loose(ps)| ==> !HasKids(Loose(ps)[k]))
  {
  }

  /** `d.sortOrder`: the bucket has none (`undefined`). */
  function SortKey(p: Processed): (r: Option<Num>)
    ensures r.Some? <==> p.meta.Some?
    ensures r.Some? ==> r.value == p.meta.value.sortOrder
  {
    if p.meta.Some? then Some(p.meta.value.sortOrder) else None
  }

  // ---- Weight ----

  predicate IsHeavy(extension: string)
  {
    extension in HeavyExtensions
  }

  /** `value`: a fixed 100 for font and image files, otherwise the size capped at
      15000 for a known extension and at 9000 for an unknown one, plus the
      sibling index `i`. */
  function Value(extension: string, hasExtension: bool, size: Num, i: nat): (r: Num)
    ensures IsHeavy(extension) ==> r == Int(100 + i)
    ensures r.NaN? <==> !IsHeavy(extension) && size.NaN?
    ensures r.Int? ==> r.n - i <= 15000
    ensures r.Int? && !IsHeavy(extension) && !hasExtension ==> r.n - i <= 9000
    ensures r.Int? && !IsHeavy(extension) ==> r.n - i <= size.n
    ensures r.Int? && !IsHeavy(extension) && hasExtension && size.n <= 15000 ==> r.n == size.n + i
    ensures r.Int? && !IsHeavy(extension) && !hasExtension && size.n <= 9000 ==> r.n == size.n + i
    ensures r.Int? && !IsHeavy(extension) && hasExtension && size.n > 15000 ==> r.n == 15000 + i
    ensures r.Int? && !IsHeavy(extension) && !hasExtension && size.n > 9000 ==> r.n == 9000 + i
  {
    Add(if IsHeavy(extension) then Int(100)
        else Min(Int(15000), if hasExtension then size else Min(size, Int(9000))),
        Int(i))
  }

  // ---- Sort key ----

  /** `cachedOrders[k]`: a missing key and an `undefined` entry read the same. */
  function Cached(orders: map<string, Option<Num>>, k: string): (r: Option<Num>)
    ensures k in orders ==> r == orders[k]
    ensures k !in orders ==> r == None
  {
    if k in orders then orders[k] else None
  }

  /** `getSortOrder(item, cachedOrders, i)`. */
  function GetSortOrder(path: string, name: string, value: Num, orders: map<string, Option<Num>>, i: nat): (r: Num)
    ensures Truthy(Cached(orders, path)) ==> r == Cached(orders, path).value
    ensures !Truthy(Cached(orders, path)) && Truthy(Cached(orders, DropLastSegment(path, '/'))) ==> r == Int(-100000000)
    ensures !Truthy(Cached(orders, path)) && !Truthy(Cached(orders, DropLastSegment(path, '/'))) && name == "public" ==>
      r == Int(-1000000)
    ensures !Truthy(Cached(orders, path)) && !Truthy(Cached(orders, DropLastSegment(path, '/'))) && name != "public" ==>
      r == Add(value, Int(0 - i))
  {
    if Truthy(Cached(orders, path)) then Cached(orders, path).value
    else if Truthy(Cached(orders, DropLastSegment(path, '/'))) then Int(-100000000)
    else if name == "public" then Int(-1000000)
    else Add(value, Int(0 - i))
  }

  /** A key the cache holds for the node's own path wins whatever else holds:
      name, weight and position among siblings do not matter. */
  lemma CachedKeyWins(path: string, name: string, name': string, value: Num, value': Num,
                      orders: map<string, Option<Num>>, i: nat, i': nat)
    requires Truthy(Cached(orders, path))
    ensures GetSortOrder(path, name, value, orders, i) == GetSortOrder(path, name', value', orders, i')
    ensures GetSortOrder(path, name, value, orders, i).Int? && GetSortOrder(path, name, value, orders, i).n != 0
  {
  }

  /** Without any cached key the sort key is the weight minus the index, which
      undoes the index tie-break that the weight carries. */
  lemma UncachedKey(extension: string, hasExtension: bool, size: Num, path: string, name: string,
                    orders: map<string, Option<Num>>, i: nat)
    requires !Truthy(Cached(orders, path)) && !Truthy(Cached(orders, DropLastSegment(path, '/')))
    requires name != "public" && !IsHeavy(extension)
    ensures GetSortOrder(path, name, Value(extension, hasExtension, size, i), orders, i) ==
      Min(Int(15000), if hasExtension then size else Min(size, Int(9000)))
  {
  }

  // ---- Colour ----

  /** How many times `k` occurs in `keys`. */
  function Occurrences(keys: seq<string>, k: string): nat
  {
    if keys == [] then 0 else (if keys[0] == k then 1 else 0) + Occurrences(keys[1..], k)
  }

  /** The index of the first largest element. */
  function FirstMax(s: seq<nat>): (r: nat)
    requires s != []
    ensures r < |s|
    ensures forall j :: 0 <= j < |s| ==> s[j] <= s[r]
    ensures forall j :: 0 <= j < r ==> s[j] < s[r]
  {
    if |s| == 1 then 0
    else
      var b := FirstMax(s[..|s| - 1]);
      assert forall j :: 0 <= j < |s| - 1 ==> s[..|s| - 1][j] == s[j];
      if s[|s| - 1] > s[b] then |s| - 1 else b
  }

  /** `c.extension` as an object key: the bucket has none and counts as "undefined". */
  function ExtensionKey(p: Processed): string
  {
    if p.meta.Some? then p.meta.value.extension else "undefined"
  }

  function ExtensionKeys(items: seq<Processed>): (r: seq<string>)
    ensures |r| == |items|
    ensures forall j :: 0 <= j < |items| ==> r[j] == ExtensionKey(items[j])
  {
    seq(|items|, j requires 0 <= j < |items| => ExtensionKey(items[j]))
  }

  /** `maxBy(entries(countBy(children, c => c.extension)), ([k, v]) => v)?.[0]`:
      the most frequent extension among the children; of several equally
      frequent ones, the one that occurs first. No children gives `undefined`,
      which reads the colour table under the key "undefined". */
  function MainExtension(items: seq<Processed>): (r: string)
    ensures items == [] ==> r == "undefined"
    ensures items != [] ==> exists j :: 0 <= j < |items| && ExtensionKey(items[j]) == r
    ensures forall j :: 0 <= j < |items| ==>
      Occurrences(ExtensionKeys(items), ExtensionKey(items[j])) <= Occurrences(ExtensionKeys(items), r)
  {
    if items == [] then "undefined"
    else
      var keys := ExtensionKeys(items);
      var counts := seq(|keys|, j requires 0 <= j < |keys| => Occurrences(keys, keys[j]));
      assert forall j :: 0 <= j < |items| ==> counts[j] == Occurrences(keys, ExtensionKey(items[j]));
      keys[FirstMax(counts)]
  }

  /** Of several equally frequent extensions, the main one is the one seen first. */
  lemma MainExtensionFirst(items: seq<Processed>, j: nat)
    requires j < |items|
    requires Occurrences(ExtensionKeys(items), ExtensionKey(items[j])) == Occurrences(ExtensionKeys(items), MainExtension(items))
    ensures exists m :: 0 <= m <= j && ExtensionKey(items[m]) == MainExtension(items)
  {
    var keys := ExtensionKeys(items);
    var counts := seq(|keys|, l requires 0 <= l < |keys| => Occurrences(keys, keys[l]));
    var b := FirstMax(counts);
    assert counts[j] == counts[b];
    assert b <= j;
  }

  /** `fileColors[k] ?? "#CED6E0"`: only a missing key falls back. */
  function ColorOf(colors: map<string, string>, k: string): (r: string)
    ensures k in colors ==> r == colors[k]
    ensures k !in colors ==> r == DefaultColor
  {
    if k in colors then colors[k] else DefaultColor
  }

  /** `getColor(d)`: a node with a `children` array (even an empty one) takes
      the colour of its children's main extension, any other its own. */
  function GetColor(children: PChildren, extension: string, colors: map<string, string>): string
  {
    match children
    case ChildList(items) => ColorOf(colors, MainExtension(items))
    case NoChildren => ColorOf(colors, extension)
  }

  // ---- The rewrite ----

  /** `child?.children?.map((c, i) => processChild(c, getColor, cachedOrders, i))`. */
  function Mapped(child: FileType, env: Env): PChildren
    decreases child, 0
  {
    match child.children
    case Absent => NoChildren
    case Listed(cs) => ChildList(seq(|cs|, k requires 0 <= k < |cs| => ProcessChild(cs[k], env, k)))
  }

  /** `children?.length === 1`. */
  predicate Single(m: PChildren)
  {
    m.ChildList? && |m.items| == 1
  }

  /** The name after collapsing a single-child chain. */
  function CollapsedName(child: FileType, m: PChildren): string
  {
    if Single(m) then child.name + "/" + m.items[0].name else child.name
  }

  function CollapsedPath(child: FileType, m: PChildren): string
  {
    if Single(m) then m.items[0].path else child.path
  }

  function CollapsedChildren(m: PChildren): PChildren
  {
    if Single(m) then m.items[0].children else m
  }

  /** The children after collapsing and, at the root, bucketing. The root is the
      node whose own `path` is empty, and it is bucketed only when it has a
      `children` array. */
  function FinalChildren(child: FileType, m: PChildren): PChildren
  {
    var c := CollapsedChildren(m);
    if child.path == "" && c.ChildList? then ChildList(Bucketed(c.items)) else c
  }

  /** `processChild(child, getColor, cachedOrders, i)`. */
  function ProcessChild(child: FileType, env: Env, i: nat): Processed
    decreases child, 1
  {
    var m := Mapped(child, env);
    var name := CollapsedName(child, m);
    var path := CollapsedPath(child, m);
    var children := FinalChildren(child, m);
    var extension := LastSegment(name, '.');
    var value := Value(extension, TruthyString(env.colors, extension), child.size, i);
    Processed(name, path, child.size,
      Some(Meta(env.truncate(name), extension, DropLastSegment(path, '.'), value,
                GetColor(children, extension, env.colors),
                GetSortOrder(path, name, value, env.orders, i))),
      children)
  }

  /** A folder whose only child survives the rewrite is merged with it: the names
      are joined by `/`, and the child's path and children are taken over. */
  lemma CollapseRule(child: FileType, env: Env, i: nat)
    requires Single(Mapped(child, env))
    ensures var m := Mapped(child, env).items[0];
      var r := ProcessChild(child, env, i);
      && r.name == child.name + ['/'] + m.name
      && r.path == m.path
      && (child.path != "" ==> r.children == m.children)
      && r.size == child.size
  {
  }

  /** Without a single child nothing is merged: name, path and size stay, and a
      non-root node keeps its rewritten children. */
  lemma NoCollapseRule(child: FileType, env: Env, i: nat)
    requires !Single(Mapped(child, env))
    ensures var r := ProcessChild(child, env, i);
      && r.name == child.name && r.path == child.path && r.size == child.size
      && (child.path != "" ==> r.children == Mapped(child, env))
      && (child.children.Absent? <==> r.children.NoChildren?)
  {
  }

  /** Every child of the input is rewritten with its own sibling index. */
  lemma MappedChildren(child: FileType, env: Env)
    ensures child.children.Absent? ==> Mapped(child, env) == NoChildren
    ensures child.children.Listed? ==>
      && Mapped(child, env).ChildList?
      && |Mapped(child, env).items| == |child.children.list|
      && forall k :: 0 <= k < |child.children.list| ==>
           Mapped(child, env).items[k] == ProcessChild(child.children.list[k], env, k)
  {
  }

  /** At the root, the children (after any collapse) are split into the branches,
      in order, followed by one bucket of everything else, in order. */
  lemma RootBucketing(child: FileType, env: Env, i: nat)
    requires child.path == ""
    requires CollapsedChildren(Mapped(child, env)).ChildList?
    ensures var ps := CollapsedChildren(Mapped(child, env)).items;
      var r := ProcessChild(child, env, i).children;
      && r == ChildList(Branches(ps) + [Bucket(Loose(ps))])
      && multiset(Branches(ps)) + multiset(Loose(ps)) == multiset(ps)
      && IsSubsequence(Branches(ps), ps) && IsSubsequence(Loose(ps), ps)
  {
    BucketPartition(CollapsedChildren(Mapped(child, env)).items);
    BucketOrder(CollapsedChildren(Mapped(child, env)).items);
  }

  /** The extension is what follows the last `.` of the final name (the whole name
      when there is none), and the path without extension is the path up to its
      last `.` (empty when there is none). */
  lemma ExtensionRule(child: FileType, env: Env, i: nat)
    ensures var r := ProcessChild(child, env, i);
      var ext := r.meta.value.extension;
      var stem := r.meta.value.pathWithoutExtension;
      && '.' !in ext
      && ('.' in r.name ==> r.name == DropLastSegment(r.name, '.') + ['.'] + ext)
      && ('.' !in r.name ==> ext == r.name)
      && ('.' in r.path ==> r.path == stem + ['.'] + LastSegment(r.path, '.'))
      && ('.' !in r.path ==> stem == "")
  {
    var r := ProcessChild(child, env, i);
    LastSegmentSplit(r.name, '.');
    LastSegmentSplit(r.path, '.');
  }

  /** The weight and its caps, with `i` the node's index among its siblings. */
  lemma ValueRule(child: FileType, env: Env, i: nat)
    ensures var r := ProcessChild(child, env, i);
      var ext := r.meta.value.extension;
      var v := r.meta.value.value;
      && (IsHeavy(ext) ==> v == Int(100 + i))
      && (!IsHeavy(ext) && TruthyString(env.colors, ext) ==> v == Add(Min(Int(15000), child.size), Int(i)))
      && (!IsHeavy(ext) && !TruthyString(env.colors, ext) ==> v == Add(Min(child.size, Int(9000)), Int(i)))
      && (v.Int? ==> v.n - i <= 15000)
      && (v.Int? && !TruthyString(env.colors, ext) ==> v.n - i <= 9000)
  {
    var r := ProcessChild(child, env, i);
    var ext := r.meta.value.extension;
    if !IsHeavy(ext) && !TruthyString(env.colors, ext) && child.size.Int? {
      assert Min(Int(15000), Min(child.size, Int(9000))) == Min(child.size, Int(9000));
    }
  }

  /** A node without a `children` array takes the colour of its own extension; a
      node with one takes the colour of an extension that occurs among its
      children at least as often as any other, the bucket counting as
      `"undefined"`; a colourless extension gets the default colour. */
  lemma ColorRule(child: FileType, env: Env, i: nat)
    ensures var r := ProcessChild(child, env, i);
      var color := r.meta.value.color;
      && (r.children.NoChildren? ==>
            color == (if r.meta.value.extension in env.colors then env.colors[r.meta.value.extension] else DefaultColor))
      && (r.children.ChildList? ==>
            exists k: string ::
              && color == (if k in env.colors then env.colors[k] else DefaultColor)
              && (r.children.items == [] ==> k == "undefined")
              && (r.children.items != [] ==> exists j :: 0 <= j < |r.children.items| && ExtensionKey(r.children.items[j]) == k)
              && forall j :: 0 <= j < |r.children.items| ==>
                   Occurrences(ExtensionKeys(r.children.items), ExtensionKey(r.children.items[j]))
                   <= Occurrences(ExtensionKeys(r.children.items), k))
  {
    var r := ProcessChild(child, env, i);
    if r.children.ChildList? {
      var k := MainExtension(r.children.items);
      assert r.meta.value.color == (if k in env.colors then env.colors[k] else DefaultColor);
    }
  }

  /** The sort key of a node follows the precedence of `getSortOrder` on its
      final path and name: its own cached key when truthy, then a cached key of
      its parent folder, then the `public` folder, then its weight minus `i`. */
  lemma SortOrderRule(child: FileType, env: Env, i: nat)
    ensures var r := ProcessChild(child, env, i);
      var key := r.meta.value.sortOrder;
      var own := Cached(env.orders, r.path);
      var parent := Cached(env.orders, DropLastSegment(r.path, '/'));
      && (Truthy(own) ==> key == own.value)
      && (!Truthy(own) && Truthy(parent) ==> key == Int(-100000000))
      && (!Truthy(own) && !Truthy(parent) && r.name == "public" ==> key == Int(-1000000))
      && (!Truthy(own) && !Truthy(parent) && r.name != "public" ==> key == Add(r.meta.value.value, Int(0 - i)))
  {
  }

  // ---- No chains ----

  /** Every node of the input has a non-empty path: nothing below the root is
      taken for a root. */
  predicate PathsNonEmpty(t: FileType)
    decreases t
  {
    t.path != "" &&
    match t.children
    case Absent => true
    case Listed(cs) => forall k :: 0 <= k < |cs| ==> PathsNonEmpty(cs[k])
  }

  /** No node the normaliser produced has exactly one child, at any depth; the
      bucket, which it did not produce, may. */
  predicate NoChains(p: Processed)
    decreases p
  {
    match p.children
    case NoChildren => true
    case ChildList(items) =>
      (p.meta.Some? ==> |items| != 1) && forall k :: 0 <= k < |items| ==> NoChains(items[k])
  }

  /** Below the root, chains of single children are gone after the rewrite. */
  lemma {:induction false} ProcessNoChains(child: FileType, env: Env, i: nat)
    requires PathsNonEmpty(child)
    ensures NoChains(ProcessChild(child, env, i))
    decreases child
  {
    match child.children
    case Absent =>
    case Listed(cs) =>
      forall k | 0 <= k < |cs| ensures NoChains(ProcessChild(cs[k], env, k)) {
        ProcessNoChains(cs[k], env, k);
      }
      MappedChildren(child, env);
  }

  /** At the root, every child (and the bucket's every file) is chain-free; the
      root itself may be left with the bucket alone. */
  lemma {:induction false} RootNoChains(child: FileType, env: Env, i: nat)
    requires child.path == ""
    requires child.children.Listed?
    requires forall k :: 0 <= k < |child.children.list| ==> PathsNonEmpty(child.children.list[k])
    ensures var r := ProcessChild(child, env, i);
      r.children.ChildList? ==> forall k :: 0 <= k < |r.children.items| ==> NoChains(r.children.items[k])
  {
    var cs := child.children.list;
    forall k | 0 <= k < |cs| ensures NoChains(ProcessChild(cs[k], env, k)) {
      ProcessNoChains(cs[k], env, k);
    }
    MappedChildren(child, env);
    var m := Mapped(child, env);
    var c := CollapsedChildren(m);
    if c.ChildList? {
      var ps := c.items;
      if Single(m) {
        assert NoChains(m.items[0]);
      }
      assert forall k :: 0 <= k < |ps| ==> NoChains(ps[k]);
      FilterKeeps(ps);
      var loose := Loose(ps);
      assert NoChains(Bucket(loose));
      var r := Bucketed(ps);
      assert forall k :: 0 <= k < |r| ==> NoChains(r[k]) by {
        forall k | 0 <= k < |r| ensures NoChains(r[k]) {
          if k < |Branches(ps)| { assert r[k] == Branches(ps)[k]; }
        }
      }
    }
  }

  /** Both filters keep only elements of the list. */
  lemma {:induction false} FilterKeeps(ps: seq<Processed>)
    ensures forall k :: 0 <= k < |Branches(ps)| ==> Branches(ps)[k] in ps
    ensures forall k :: 0 <= k < |Loose(ps)| ==> Loose(ps)[k] in ps
  {
    if ps != [] {
      FilterKeeps(ps[1..]);
    }
  }
}
