/**
 Number fields of a JSON object that nothing has checked: a field may be missing or null.

 `Number` is what comparing and subtracting make of such a field, `None` standing for NaN, with which
 every comparison is false. Numbers are reals; infinities and the rounding of doubles are not modelled.
 */
module JsonNumbers {
  import opened Wrappers

  datatype Value = Absent | Null | Num(x: real)

  function Number(v: Value): Option<real>
  {
    match v
    case Absent => None
    case Null => Some(0.0)
    case Num(x) => Some(x)
  }

  function Whole(n: int): Value
  {
    Num(n as real)
  }

  predicate Less(a: Option<real>, b: Option<real>)
  {
    a.Some? && b.Some? && a.value < b.value
  }

  predicate AtMost(a: Option<real>, b: Option<real>)
  {
    a.Some? && b.Some? && a.value <= b.value
  }

  function Minus(a: Option<real>, b: Option<real>): Option<real>
  {
    if a.Some? && b.Some? then Some(a.value - b.value) else None
  }

  /** `v + 1` as it is sent on: JSON writes a number that is not one as null. */
  function PlusOne(v: Value): Value
  {
    match Number(v)
    case None => Null
    case Some(x) => Num(x + 1.0)
  }

  predicate IsWhole(v: Value)
  {
    Number(v).Some? && Number(v).value == Number(v).value.Floor as real
  }
}
