/** The two checking adapters: `enum`, which accepts only one of a fixed
    set of choices (colander's `OneOf`), and `intrange`, which coerces to an
    integer and accepts it only within inclusive bounds (colander's
    `Range`). Both let `colander.null` through unchecked. */
module Validators {
  import opened Wrappers

  /** `OneOf` failing: the value is not among the choices. */
  datatype EnumError<T> = NotOneOf(value: T, choices: seq<T>)

  /** `enum(*choices).deserialize(node, data)`; `None` is `colander.null`.
      The input comes back unchanged when it is accepted. */
  function EnumDeserialize<T(==)>(choices: seq<T>, data: Option<T>): (r: Result<Option<T>, EnumError<T>>)
    ensures data.None? ==> r == Success(None)
    ensures data.Some? ==> (r.Success? <==> data.value in choices)
    ensures r.Success? ==> r.value == data
    ensures r.Failure? ==> r.error == NotOneOf(data.value, choices)
  {
    match data
    case None => Success(None)
    case Some(v) => if v in choices then Success(data) else Failure(NotOneOf(v, choices))
  }

  /** Why `intrange` rejects: the integer coercion failed, or the value is
      below the minimum (checked first) or above the maximum. */
  datatype RangeError<E> = NotANumber(cause: E) | BelowMin(value: int, min: int) | AboveMax(value: int, max: int)

  /** The inclusive bounds; an absent bound does not restrict. */
  predicate InBounds(v: int, min: Option<int>, max: Option<int>) {
    (min.None? || min.value <= v) && (max.None? || v <= max.value)
  }

  /** `intrange(min, max).deserialize(node, data)`. `toInt` is colander's
      `Integer` coercion, answering `Success(None)` for `colander.null`. */
  function IntRangeDeserialize<C, E>(min: Option<int>, max: Option<int>,
                                     toInt: C -> Result<Option<int>, E>, data: C): (r: Result<Option<int>, RangeError<E>>)
    ensures toInt(data).Failure? ==> r == Failure(NotANumber(toInt(data).error))
    ensures toInt(data) == Success(None) ==> r == Success(None)
    ensures toInt(data).Success? && toInt(data).value.Some? ==>
      (var v := toInt(data).value.value;
       (r.Success? <==> InBounds(v, min, max)) &&
       (r.Success? ==> r.value == Some(v)) &&
       (r.Failure? && r.error.BelowMin? <==> min.Some? && v < min.value) &&
       (r.Failure? ==> r.error.BelowMin? || r.error.AboveMax?))
  {
    match toInt(data)
    case Failure(e) => Failure(NotANumber(e))
    case Success(None) => Success(None)
    case Success(Some(v)) =>
      if min.Some? && v < min.value then Failure(BelowMin(v, min.value))
      else if max.Some? && v > max.value then Failure(AboveMax(v, max.value))
      else Success(Some(v))
  }

  function AsInt(x: int): Result<Option<int>, string> { Success(Some(x)) }

  /** `intrange(1, 5)` accepts 3 and rejects 0 and 6. */
  lemma IntRangeOneToFive()
    ensures IntRangeDeserialize(Some(1), Some(5), AsInt, 3) == Success(Some(3))
    ensures IntRangeDeserialize(Some(1), Some(5), AsInt, 0) == Failure(BelowMin(0, 1))
    ensures IntRangeDeserialize(Some(1), Some(5), AsInt, 6) == Failure(AboveMax(6, 5))
  {
  }

  /** `enum("a", "b")` accepts `"a"` and rejects `"c"`. */
  lemma EnumAB()
    ensures EnumDeserialize(["a", "b"], Some("a")) == Success(Some("a"))
    ensures EnumDeserialize(["a", "b"], Some("c")).Failure?
  {
  }
}
