/**
 * The comparator the hierarchy is sorted with before packing: siblings with a
 * larger sort key come first, and a tie (or a key that is missing or NaN, which
 * makes the difference NaN and so falsy) is broken by name, larger name first.
 */
module SiblingOrder {
  import opened JsValues
  import opened Strings
  import opened Normalizer

  /** `(b.sortOrder - a.sortOrder) || (b.name > a.name ? 1 : -1)`: negative when
      `a` goes before `b`. */
  function Compare(a: Processed, b: Processed): (r: int)
    ensures r != 0
  {
    var d := Sub(SortKey(b), SortKey(a));
    if d.Int? && d.n != 0 then d.n
    else if Less(a.name, b.name) then 1 else -1
  }

  /** A sibling whose sort key is an integer. */
  predicate Keyed(p: Processed) {
    p.meta.Some? && p.meta.value.sortOrder.Int?
  }

  function Key(p: Processed): int
    requires Keyed(p)
  {
    p.meta.value.sortOrder.n
  }

  /** `a` goes before `b`. */
  predicate Before(a: Processed, b: Processed) {
    Compare(a, b) < 0
  }

  /** Between keyed siblings: the larger key first; on equal keys the larger
      name first, and a name that is not larger puts `a` first. */
  lemma KeyedOrder(a: Processed, b: Processed)
    requires Keyed(a) && Keyed(b)
    ensures Key(a) > Key(b) ==> Before(a, b)
    ensures Key(a) < Key(b) ==> Before(b, a)
    ensures Key(a) == Key(b) ==> (Before(a, b) <==> !Less(a.name, b.name))
  {
  }

  /** Without an integer key on either side, only the names decide. */
  lemma UnkeyedOrder(a: Processed, b: Processed)
    requires !Keyed(a) || !Keyed(b)
    ensures Before(a, b) <==> !Less(a.name, b.name)
  {
  }

  /** Swapping the arguments flips the sign, unless the two siblings tie on
      their keys and have the same name. */
  lemma CompareAntisymmetric(a: Processed, b: Processed)
    requires a.name != b.name || (Keyed(a) && Keyed(b) && Key(a) != Key(b))
    ensures Before(a, b) <==> !Before(b, a)
  {
    LessTrichotomy(a.name, b.name);
  }

  /** Two siblings with the same name and the same key (or no usable key) each
      claim to go after the other: the comparator is not consistent on them. */
  lemma SameNameTie(a: Processed, b: Processed)
    requires a.name == b.name
    requires !Keyed(a) || !Keyed(b) || Key(a) == Key(b)
    ensures Compare(a, b) == -1 && Compare(b, a) == -1
  {
    LessIrreflexive(a.name);
  }

  /** Among keyed siblings with distinct names the comparator is a strict order. */
  lemma BeforeTransitive(a: Processed, b: Processed, c: Processed)
    requires Keyed(a) && Keyed(b) && Keyed(c)
    requires a.name != b.name && b.name != c.name && a.name != c.name
    requires Before(a, b) && Before(b, c)
    ensures Before(a, c)
  {
    LessTrichotomy(a.name, b.name);
    LessTrichotomy(b.name, c.name);
    LessTrichotomy(a.name, c.name);
    if Key(a) == Key(b) && Key(b) == Key(c) {
      assert Less(b.name, a.name) && Less(c.name, b.name);
      LessTransitive(c.name, b.name, a.name);
    }
  }
}
