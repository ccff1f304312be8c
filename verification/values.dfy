/**
 * Request and column values as the PHP controllers see them, and the PHP
 * conversions the controllers rely on: string casts, `empty()` and the
 * truthiness test behind the query builder's `when`.
 */
module Values {
  import opened Text

  datatype Option<+T> = None | Some(value: T)

  /** A decoded JSON or query value: null, a string or an integer. */
  datatype Value = Null | Text(s: string) | Number(n: int)

  /** PHP's `(string)` cast: null is "", integers print in decimal. */
  function StringForm(v: Value): string {
    match v
    case Null => ""
    case Text(s) => s
    case Number(n) => IntToDecimal(n)
  }

  /**
   * A missing key reads as null: a request field that was not sent, or a
   * column a row was created without (the database holds NULL there).
   */
  function ValueOf(m: map<string, Value>, field: string): Value {
    if field in m then m[field] else Null
  }

  /** PHP's `empty()`: null, "", "0" and 0 are empty. */
  predicate PhpEmpty(v: Value) {
    v == Null || v == Text("") || v == Text("0") || v == Number(0)
  }

  /** PHP truthiness of an optional query string, as `->when($search, …)` tests it. */
  predicate Truthy(q: Option<string>) {
    q.Some? && q.value != "" && q.value != "0"
  }

  /** Integers and integer literals count as numeric (`is_numeric`). */
  predicate IsNumeric(v: Value) {
    v.Number? || (v.Text? && IntLiteral(v.s))
  }

  function NumericValue(v: Value): int
    requires IsNumeric(v)
  {
    if v.Number? then v.n else IntLiteralValue(v.s)
  }

  /**
   * Eloquent's test of whether an attribute kept its original value: the same
   * value, or two numeric values with the same string form.
   */
  predicate Equivalent(now: Value, original: Value) {
    now == original || (IsNumeric(now) && IsNumeric(original) && StringForm(now) == StringForm(original))
  }

  /** An attribute Eloquent leaves unwritten reads the same as the value sent. */
  lemma EquivalentSameString(now: Value, original: Value)
    requires Equivalent(now, original)
    ensures StringForm(now) == StringForm(original)
  {
  }

  /** PHP's `(int)` cast of a value. */
  function IntCast(v: Value): int {
    match v
    case Null => 0
    case Text(s) => PhpIntCast(s)
    case Number(n) => n
  }

  /** A 64-bit integer sent as its decimal text casts back to itself. */
  lemma IntCastRendered(n: int)
    ensures IntMin <= n <= IntMax ==> IntCast(Text(IntToDecimal(n))) == n
  {
    PhpIntCastDecimal(n);
  }
}
