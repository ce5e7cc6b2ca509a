/** Optional values: Python's `None` versus a present value. */
module Wrappers {

  datatype Option<+T> = None | Some(value: T)

  /** `max(n, 0)`: how many iterations `range(n)` runs in Python. */
  function RangeLength(n: int): (k: nat)
    ensures n <= 0 ==> k == 0
    ensures n >= 0 ==> k == n
  {
    if n <= 0 then 0 else n
  }
}
