/** Scalars as the fairness script sees them: attribute values of a person,
    the configured majority and minority classes, and the fields of a result row. */
module Values {

  datatype Option<T> = None | Some(value: T)

  /** A Python scalar: a string, an int, or a float (held as an exact real). */
  datatype Datum = Str(s: string) | Int(i: int) | Real(r: real)

  predicate IsNumber(x: Datum) {
    x.Int? || x.Real?
  }

  /** The numeric value of an int or a float. */
  function AsReal(x: Datum): real
    requires IsNumber(x)
  {
    if x.Int? then x.i as real else x.r
  }

  /** Python's `==` on two scalars: an int and a float compare by value,
      two strings by content, and a string never equals a number. */
  predicate Same(x: Datum, y: Datum) {
    if IsNumber(x) && IsNumber(y) then AsReal(x) == AsReal(y)
    else x.Str? && y.Str? && x.s == y.s
  }

  /** `==` between scalars is an equivalence relation, and it tells an int
      from a string but not an int from the float of the same value. */
  lemma SameIsEquivalence(x: Datum, y: Datum, z: Datum)
    ensures Same(x, x)
    ensures Same(x, y) ==> Same(y, x)
    ensures Same(x, y) && Same(y, z) ==> Same(x, z)
    ensures Same(Int(30), Real(30.0)) && !Same(Int(30), Str("30"))
  {
  }
}
