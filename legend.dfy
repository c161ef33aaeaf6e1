/**
 * The list of file types shown beside the chart: the extensions of the laid-out
 * nodes that have a colour, each once, in sorted order. A node whose
 * extension has no colour contributes a falsy value, and so does a node with
 * the empty extension (`color && ""` is `""`) and the bucket (its extension is
 * `undefined`); all of those are filtered out.
 */
module Legend {
  import opened JsValues
  import opened Strings
  import opened Normalizer
  import opened Layout

  /** `fileColors[d.data.extension] && d.data.extension`, when it is truthy. */
  function Contribution(d: Circle, colors: map<string, string>): Option<string>
  {
    if d.data.meta.Some? && TruthyString(colors, d.data.meta.value.extension)
       && d.data.meta.value.extension != ""
    then Some(d.data.meta.value.extension) else None
  }

  predicate StrictlySorted(s: seq<string>) {
    forall i, j :: 0 <= i < j < |s| ==> Less(s[i], s[j])
  }

  /** `x` placed into a sorted list without duplicates, unless it is there already. */
  function InsertSorted(s: seq<string>, x: string): (r: seq<string>)
    requires StrictlySorted(s)
    ensures StrictlySorted(r)
    ensures forall e :: e in r <==> e in s || e == x
    decreases |s|
  {
    if s == [] then [x]
    else if s[0] == x then s
    else if Less(x, s[0]) then
      assert forall j :: 0 < j < |s| ==> Less(x, s[j]) by {
        forall j | 0 < j < |s| ensures Less(x, s[j]) { LessTransitive(x, s[0], s[j]); }
      }
      [x] + s
    else
      LessTrichotomy(x, s[0]);
      var rest := InsertSorted(s[1..], x);
      assert forall e :: e in rest ==> Less(s[0], e);
      [s[0]] + rest
  }

  /** `uniqBy(...).sort().filter(Boolean)` over the laid-out nodes. */
  function FileTypes(ds: seq<Circle>, colors: map<string, string>): (r: seq<string>)
    ensures StrictlySorted(r)
    ensures forall e :: e in r <==> exists k :: 0 <= k < |ds| && Contribution(ds[k], colors) == Some(e)
    decreases |ds|
  {
    if ds == [] then []
    else
      var init := FileTypes(ds[..|ds| - 1], colors);
      var c := Contribution(ds[|ds| - 1], colors);
      var r := if c.Some? then InsertSorted(init, c.value) else init;
      assert forall e :: (exists k :: 0 <= k < |ds| && Contribution(ds[k], colors) == Some(e))
                         ==> e in r by {
        forall e | exists k :: 0 <= k < |ds| && Contribution(ds[k], colors) == Some(e)
          ensures e in r
        {
          var k :| 0 <= k < |ds| && Contribution(ds[k], colors) == Some(e);
          if k < |ds| - 1 { assert ds[..|ds| - 1][k] == ds[k]; }
        }
      }
      assert forall e :: e in r ==> exists k :: 0 <= k < |ds| && Contribution(ds[k], colors) == Some(e) by {
        forall e | e in r
          ensures exists k :: 0 <= k < |ds| && Contribution(ds[k], colors) == Some(e)
        {
          if e in init {
            var k :| 0 <= k < |ds| - 1 && Contribution(ds[..|ds| - 1][k], colors) == Some(e);
            assert ds[..|ds| - 1][k] == ds[k];
          } else {
            assert Contribution(ds[|ds| - 1], colors) == Some(e);
          }
        }
      }
      r
  }

  /** The head of a sorted list is below every other element of it. */
  lemma HeadLeast(s: seq<string>, e: string)
    requires StrictlySorted(s) && e in s
    ensures e == s[0] || Less(s[0], e)
  {
  }

  lemma HeadIn(s: seq<string>)
    ensures s != [] ==> s[0] in s
  {
  }

  /** A sorted list without duplicates is fixed by its elements. */
  lemma {:induction false} SortedUnique(a: seq<string>, b: seq<string>)
    requires StrictlySorted(a) && StrictlySorted(b)
    requires forall e :: e in a <==> e in b
    ensures a == b
    decreases |a|
  {
    if a != [] && b != [] {
      assert a[0] in a && b[0] in b;
      HeadLeast(b, a[0]);
      HeadLeast(a, b[0]);
      LessTrichotomy(a[0], b[0]);
      assert a[0] == b[0];
      forall e ensures e in a[1..] <==> e in b[1..] {
        if e in a[1..] {
          var i :| 1 <= i < |a| && a[i] == e;
          LessIrreflexive(e);
          assert e in a && e in b;
          var j :| 0 <= j < |b| && b[j] == e;
          assert j != 0 && b[1..][j - 1] == e;
        }
        if e in b[1..] {
          var i :| 1 <= i < |b| && b[i] == e;
          LessIrreflexive(e);
          assert e in a && e in b;
          var j :| 0 <= j < |a| && a[j] == e;
          assert j != 0 && a[1..][j - 1] == e;
        }
      }
      SortedUnique(a[1..], b[1..]);
      assert a == [a[0]] + a[1..] && b == [b[0]] + b[1..];
    } else {
      HeadIn(a);
      HeadIn(b);
    }
  }

  /** Every file type found among `ds` is found among `es` when every node of
      `ds` occurs in `es`. */
  lemma FileTypesCovered(ds: seq<Circle>, es: seq<Circle>, colors: map<string, string>, e: string)
    requires forall d :: d in ds ==> d in es
    requires e in FileTypes(ds, colors)
    ensures e in FileTypes(es, colors)
  {
    var k :| 0 <= k < |ds| && Contribution(ds[k], colors) == Some(e);
    assert ds[k] in ds;
    var j :| 0 <= j < |es| && es[j] == ds[k];
  }

  /** The legend does not depend on the order in which the nodes are visited, nor
      on how often a node occurs. */
  lemma FileTypesOrderFree(ds: seq<Circle>, es: seq<Circle>, colors: map<string, string>)
    requires forall d :: d in ds <==> d in es
    ensures FileTypes(ds, colors) == FileTypes(es, colors)
  {
    var a := FileTypes(ds, colors);
    var b := FileTypes(es, colors);
    forall e ensures e in a <==> e in b {
      if e in a { FileTypesCovered(ds, es, colors, e); }
      if e in b { FileTypesCovered(es, ds, colors, e); }
    }
    SortedUnique(a, b);
  }
}
