/** The checked additions of zic.c. A failed check ends the program there; here it is None. */
module ZicArith {
  import opened CInt

  datatype Option<T> = None | Some(value: T)

  const MIN_TIME := LONG_MIN
  const MAX_TIME := LONG_MAX

  /** oadd: the comparison of the wrapped sum with an operand detects overflow exactly. */
  function Oadd(t1: int, t2: int): (r: Option<int>)
    requires IsLong(t1) && IsLong(t2)
    ensures r == if IsLong(t1 + t2) then Some(t1 + t2) else None
  {
    var t := Wrap(t1 + t2);
    if (t2 > 0 && t <= t1) || (t2 < 0 && t >= t1) then None else Some(t)
  }

  /** tadd: the extreme times stand for "for ever" and stay where they are. */
  function Tadd(t1: int, t2: int): (r: Option<int>)
    requires IsLong(t1) && IsLong(t2)
    ensures IsLong(t1 + t2) ==> r == Some(t1 + t2)
    ensures !IsLong(t1 + t2) ==> r == if (t1 == MAX_TIME && t2 > 0) || (t1 == MIN_TIME && t2 < 0) then Some(t1) else None
  {
    if t1 == MAX_TIME && t2 > 0 then Some(MAX_TIME)
    else if t1 == MIN_TIME && t2 < 0 then Some(MIN_TIME)
    else
      var t := Wrap(t1 + t2);
      if (t2 > 0 && t <= t1) || (t2 < 0 && t >= t1) then None else Some(t)
  }
}
