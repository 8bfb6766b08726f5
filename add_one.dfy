/** The `add_one` library crate of the workspace exercise. */
module AddOneCrate {
  import opened Common

  /** `add_one(x)`: the successor of `x`. The addition is not checked by the
      library itself; a debug build panics and a release build wraps at
      `i32::MAX`, so the model asks its callers to stay below it. */
  function AddOne(x: i32): (r: i32)
    requires x as int < I32_MAX
    ensures r as int == x as int + 1
    ensures r > x
  {
    x + 1
  }

  /** The examples of the crate's documentation and its unit test. */
  lemma AddOneExamples()
    ensures AddOne(5) == 6 && AddOne(-1) == 0 && AddOne(0) == 1
    ensures AddOne(2) == 3
  {
  }

  /** `add_one(x)` as a release build computes it: the addition wraps
      modulo 2^32, so it agrees with `AddOne` below `i32::MAX` and gives
      `i32::MIN` at it. */
  function AddOneWrapping(x: i32): (r: i32)
    ensures (r as int - (x as int + 1)) % 0x1_0000_0000 == 0
    ensures x as int < I32_MAX ==> r == AddOne(x)
    ensures x as int == I32_MAX ==> r as int == I32_MIN
  {
    if x as int == I32_MAX then I32_MIN as i32 else AddOne(x)
  }
}
