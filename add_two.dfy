/** The `add_two` library crate of the workspace exercise, built on
    `add_one`. */
module AddTwoCrate {
  import opened Common
  import opened AddOneCrate

  /** `add_two(x)` is `add_one(add_one(x))`; both inner additions must stay
      in range, which is exactly `x <= i32::MAX - 2`. */
  function AddTwo(x: i32): (r: i32)
    requires x as int <= I32_MAX - 2
    ensures r as int == x as int + 2
  {
    AddOne(AddOne(x))
  }

  /** The examples of the crate's documentation and its unit test. */
  lemma AddTwoExamples()
    ensures AddTwo(5) == 7 && AddTwo(-2) == 0 && AddTwo(0) == 2
    ensures AddTwo(2) == 4
  {
  }
}
