/** Optional values, as the source's `None`. */
module Wrappers {
  datatype Option<+T> = None | Some(value: T)
}

/**
 * The JSON scalars a listing item can carry in one of its fields, and the
 * few Python operations the scraper applies to them: `dict.get` with a
 * default, truthiness (`if x:`), `isinstance(x, (int, float))` and the
 * element-wise comparisons `x == True` / `x == False` of the final filter.
 */
module Values {
  import opened Wrappers

  /** `Absent` is a key the item's dictionary does not have; `Null` is JSON `null`. */
  datatype Value = Absent | Null | Bool(b: bool) | Num(x: real) | Str(s: string)

  /** `d.get(key, default)`. */
  function Get(v: Value, default: Value): (r: Value)
    ensures default != Absent ==> r != Absent
  {
    if v.Absent? then default else v
  }

  /** Python truthiness; a missing key read with `d.get(key)` is `None`, hence false. */
  predicate Truthy(v: Value)
  {
    match v
    case Bool(b) => b
    case Num(x) => x != 0.0
    case Str(s) => s != ""
    case _ => false
  }

  /** `isinstance(v, (int, float))`; in Python `bool` is a subclass of `int`. */
  predicate IsNumber(v: Value)
  {
    v.Bool? || v.Num?
  }

  /** The numeric value of a number; `True` is 1 and `False` is 0. */
  function AsReal(v: Value): real
    requires IsNumber(v)
  {
    if v.Bool? then (if v.b then 1.0 else 0.0) else v.x
  }

  /**
   * The argument that reaches the vote estimator: `None` for JSON null, the
   * numeric value for numbers and booleans.
   */
  function Numeric(v: Value): (r: Option<real>)
    ensures r.Some? <==> IsNumber(v)
  {
    if IsNumber(v) then Some(AsReal(v)) else None
  }

  /** Python's `v == False`: true of `False`, `0` and `0.0` only. */
  predicate EqualsFalse(v: Value)
  {
    v == Bool(false) || v == Num(0.0)
  }

  /** Python's `v == True`: true of `True`, `1` and `1.0` only. */
  predicate EqualsTrue(v: Value)
  {
    v == Bool(true) || v == Num(1.0)
  }

  /** The comparisons of the final filter are stricter than truthiness. */
  lemma EqualityImpliesTruthiness(v: Value)
    ensures EqualsTrue(v) ==> Truthy(v)
    ensures EqualsFalse(v) ==> !Truthy(v)
  {
  }

  /** On genuine booleans the two agree. */
  lemma BooleansAgree(v: Value)
    requires v.Bool?
    ensures EqualsTrue(v) <==> Truthy(v)
    ensures EqualsFalse(v) <==> !Truthy(v)
  {
  }
}
