/**
 * The input tree shared by both tree builders and the layout: a node with a name,
 * a slash-delimited path (empty for the root), a size, and children that are either
 * absent (a file) or an ordered list (a folder, possibly empty, which is still truthy).
 */
module FileTree {
  import opened JsValues

  datatype FileType = FileType(name: string, path: string, size: Num, children: Children)

  /** The `children` property: missing, or an array. */
  datatype Children = Absent | Listed(list: seq<FileType>)

  /** `node.children ?? []`. */
  function Kids(t: FileType): (r: seq<FileType>)
    ensures t.children.Listed? ==> r == t.children.list
    ensures t.children.Absent? ==> r == []
  {
    if t.children.Listed? then t.children.list else []
  }

  /** Number of nodes of a tree, the root included. */
  function Count(t: FileType): nat
  {
    match t.children
    case Absent => 1
    case Listed(cs) => 1 + Sum(seq(|cs|, k requires 0 <= k < |cs| => Count(cs[k])))
  }

  function Sum(s: seq<nat>): nat
  {
    if s == [] then 0 else Sum(s[..|s| - 1]) + s[|s| - 1]
  }

  /** Node count of a list of sibling trees. */
  function CountAll(cs: seq<FileType>): nat
  {
    Sum(seq(|cs|, k requires 0 <= k < |cs| => Count(cs[k])))
  }

  lemma CountKids(t: FileType)
    ensures Count(t) == 1 + CountAll(Kids(t))
  {
  }

  lemma {:induction false} SumSnoc(s: seq<nat>, x: nat)
    ensures Sum(s + [x]) == Sum(s) + x
  {
    assert (s + [x])[..|s|] == s;
  }

  /** Replacing one element changes the sum by the difference. */
  lemma {:induction false} SumUpdate(s: seq<nat>, q: nat, x: nat)
    requires q < |s|
    ensures Sum(s[q := x]) == Sum(s) - s[q] + x
    decreases |s|
  {
    if q == |s| - 1 {
      assert s[q := x][..|s| - 1] == s[..|s| - 1];
    } else {
      SumUpdate(s[..|s| - 1], q, x);
      assert s[q := x][..|s| - 1] == s[..|s| - 1][q := x];
    }
  }

  lemma CountAllSnoc(cs: seq<FileType>, x: FileType)
    ensures CountAll(cs + [x]) == CountAll(cs) + Count(x)
  {
    var a := seq(|cs|, k requires 0 <= k < |cs| => Count(cs[k]));
    assert seq(|cs + [x]|, k requires 0 <= k < |cs + [x]| => Count((cs + [x])[k])) == a + [Count(x)];
    SumSnoc(a, Count(x));
  }

  lemma CountAllUpdate(cs: seq<FileType>, q: nat, x: FileType)
    requires q < |cs|
    ensures CountAll(cs[q := x]) == CountAll(cs) - Count(cs[q]) + Count(x)
  {
    var a := seq(|cs|, k requires 0 <= k < |cs| => Count(cs[k]));
    assert seq(|cs[q := x]|, k requires 0 <= k < |cs[q := x]| => Count(cs[q := x][k])) == a[q := Count(x)];
    SumUpdate(a, q, Count(x));
  }
}
