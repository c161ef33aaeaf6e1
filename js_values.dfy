/**
 * The few JavaScript value rules the layout code relies on: numbers that may be
 * NaN, `undefined` entries, and truthiness (`0`, `NaN`, `undefined` and `""` are falsy).
 * JavaScript numbers are doubles; every number in this model is an integer (a byte
 * count, a capped weight, a sort key) or NaN (what `parseInt` returns on no digits).
 */
module JsValues {

  datatype Option<+T> = None | Some(value: T)

  /** An integer-valued JavaScript number, or NaN. */
  datatype Num = Int(n: int) | NaN

  /** `Math.min(a, b)`: NaN as soon as one argument is NaN. */
  function Min(a: Num, b: Num): (r: Num)
    ensures r.NaN? <==> a.NaN? || b.NaN?
    ensures r.Int? ==> r.n <= a.n && r.n <= b.n && (r.n == a.n || r.n == b.n)
  {
    if a.NaN? || b.NaN? then NaN
    else if a.n <= b.n then a else b
  }

  /** `a + b` on numbers: NaN is absorbing. */
  function Add(a: Num, b: Num): (r: Num)
    ensures r.NaN? <==> a.NaN? || b.NaN?
    ensures r.Int? ==> r.n == a.n + b.n
  {
    if a.NaN? || b.NaN? then NaN else Int(a.n + b.n)
  }

  /** `a - b` on numbers, where an `undefined` operand (None) converts to NaN. */
  function Sub(a: Option<Num>, b: Option<Num>): (r: Num)
    ensures r.Int? <==> a.Some? && a.value.Int? && b.Some? && b.value.Int?
    ensures r.Int? ==> r.n == a.value.n - b.value.n
  {
    if a.Some? && a.value.Int? && b.Some? && b.value.Int? then Int(a.value.n - b.value.n) else NaN
  }

  /** Truthiness of a number that may be `undefined`: only a nonzero integer is truthy. */
  predicate Truthy(v: Option<Num>) {
    v.Some? && v.value.Int? && v.value.n != 0
  }

  /** `m[k]` on a plain object: `undefined` when the key is missing. */
  function Get<V>(m: map<string, V>, k: string): (r: Option<V>)
    ensures r.Some? <==> k in m
    ensures r.Some? ==> r.value == m[k]
  {
    if k in m then Some(m[k]) else None
  }

  /** Truthiness of a string read from an object: present and not `""`. */
  predicate TruthyString(m: map<string, string>, k: string) {
    k in m && m[k] != ""
  }
}
