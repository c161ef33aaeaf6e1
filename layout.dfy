/**
 * The laid-out tree the layout code walks after circle packing: every circle
 * carries the normalised node it stands for (`data`) and its centre. A circle
 * with an empty child list is one without a `children` property (the packer does
 * not create empty child arrays).
 */
module Layout {
  import opened JsValues
  import opened Normalizer

  datatype Circle = Circle(data: Processed, x: real, y: real, children: seq<Circle>)

  /** The circles of a tree, each before its children, children in order: the
      order of the recursive cache walk. */
  function Preorder(t: Circle): (r: seq<Circle>)
    ensures r != [] && r[0] == t
    decreases t, 1
  {
    [t] + PreorderAll(t.children)
  }

  function PreorderAll(ts: seq<Circle>): seq<Circle>
    decreases ts, 0
  {
    if ts == [] then [] else PreorderAll(ts[..|ts| - 1]) + Preorder(ts[|ts| - 1])
  }

  /** Writing `key -> f(c)` for every circle `c` of `cs` in turn, the key being the
      node's path: later writes to the same path win. */
  function Record<V>(m: map<string, V>, cs: seq<Circle>, f: Circle -> V): map<string, V>
    decreases |cs|
  {
    if cs == [] then m else Record(m[cs[0].data.path := f(cs[0])], cs[1..], f)
  }

  /** Writing two lists in turn is writing their concatenation. */
  lemma {:induction false} RecordAppend<V>(m: map<string, V>, a: seq<Circle>, b: seq<Circle>, f: Circle -> V)
    ensures Record(m, a + b, f) == Record(Record(m, a, f), b, f)
    decreases |a|
  {
    if a != [] {
      assert (a + b)[0] == a[0];
      assert (a + b)[1..] == a[1..] + b;
      RecordAppend(m[a[0].data.path := f(a[0])], a[1..], b, f);
    } else {
      assert a + b == b;
    }
  }

  /** The entry of a circle that no later circle overwrites is its own. */
  lemma {:induction false} RecordLastWins<V>(m: map<string, V>, cs: seq<Circle>, f: Circle -> V, k: nat)
    requires k < |cs|
    requires forall j :: k < j < |cs| ==> cs[j].data.path != cs[k].data.path
    ensures cs[k].data.path in Record(m, cs, f)
    ensures Record(m, cs, f)[cs[k].data.path] == f(cs[k])
    decreases |cs|
  {
    if k == 0 {
      RecordUntouched(m[cs[0].data.path := f(cs[0])], cs[1..], f, cs[0].data.path);
    } else {
      RecordLastWins(m[cs[0].data.path := f(cs[0])], cs[1..], f, k - 1);
    }
  }

  /** A path no circle carries keeps its entry, or its absence. */
  lemma {:induction false} RecordUntouched<V>(m: map<string, V>, cs: seq<Circle>, f: Circle -> V, key: string)
    requires forall j :: 0 <= j < |cs| ==> cs[j].data.path != key
    ensures key in Record(m, cs, f) <==> key in m
    ensures key in m ==> Record(m, cs, f)[key] == m[key]
    decreases |cs|
  {
    if cs != [] {
      RecordUntouched(m[cs[0].data.path := f(cs[0])], cs[1..], f, key);
    }
  }

  /** The keys after writing are the old keys and the circles' paths. */
  lemma {:induction false} RecordKeys<V>(m: map<string, V>, cs: seq<Circle>, f: Circle -> V)
    ensures Record(m, cs, f).Keys == m.Keys + set j | 0 <= j < |cs| :: cs[j].data.path
    decreases |cs|
  {
    if cs != [] {
      RecordKeys(m[cs[0].data.path := f(cs[0])], cs[1..], f);
      var rest := set j | 0 <= j < |cs[1..]| :: cs[1..][j].data.path;
      var all := set j | 0 <= j < |cs| :: cs[j].data.path;
      assert all == {cs[0].data.path} + rest by {
        forall p | p in all ensures p in {cs[0].data.path} + rest {
          var j :| 0 <= j < |cs| && cs[j].data.path == p;
          if j > 0 { assert cs[1..][j - 1].data.path == p; }
        }
      }
    }
  }
}
