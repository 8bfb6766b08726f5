/** The Fibonacci exercise: read a term number `n` and report the `n`-th
    Fibonacci term, computed with two running `u32` values. The term number
    read from standard input is a parameter here. */
module Fibonacci {
  import opened Common

  /** The Fibonacci sequence with F(0) = 0 and F(1) = F(2) = 1. */
  function Fib(n: nat): nat {
    if n == 0 then 0 else if n <= 2 then 1 else Fib(n - 1) + Fib(n - 2)
  }

  /** What the program does for a term number: it prints a term, or a debug
      build panics because `a + b` overflowed `u32`. */
  datatype Report = Term(value: nat) | Overflow

  /** The program's `main` after the term number is read. For `n` of 1 or
      2 it reports 1; otherwise it runs `2..n`, so for `n` = 0 the loop is
      empty and the initial `c` = 0 is reported. */
  method NthTerm(n: u32) returns (r: Report)
    ensures n <= 47 ==> r == Term(Fib(n as nat))
    ensures n >= 48 ==> r == Overflow
  {
    var a: u32 := 1;
    var b: u32 := 1;
    if n == 1 || n == 2 {
      return Term(1);
    }
    var c: u32 := 0;
    var i: u32 := 2;
    while i < n
      invariant 2 <= i <= 47
      invariant i == 2 || i <= n
      invariant a as nat == Fib(i as nat - 1) && b as nat == Fib(i as nat)
      invariant c as nat == if i == 2 then 0 else Fib(i as nat)
    {
      NextTerm(i as nat, a as nat, b as nat);
      if a as int + b as int > U32_MAX {
        return Overflow;
      }
      c := a + b;
      a := b;
      b := c;
      i := i + 1;
    }
    return Term(c as nat);
  }

  /** One step of the loop: the next term is `a + b`, and it fits in
      `u32` exactly while the step goes up to F(47). */
  lemma NextTerm(i: nat, a: nat, b: nat)
    requires i >= 2 && a == Fib(i - 1) && b == Fib(i)
    ensures a + b == Fib(i + 1)
    ensures a + b <= U32_MAX <==> i + 1 <= 47
  {
    if i + 1 <= 47 {
      FibFits(i + 1);
    } else {
      FibOverflows(i + 1);
    }
  }

  /** F is non-decreasing. */
  lemma {:induction false} FibMonotone(i: nat, j: nat)
    requires i <= j
    ensures Fib(i) <= Fib(j)
    decreases j - i
  {
    if i < j {
      FibMonotone(i, j - 1);
      if j >= 3 {
        assert Fib(j) == Fib(j - 1) + Fib(j - 2);
      }
    }
  }

  /** F(47) is the last term that fits in `u32`. */
  lemma FibAtOverflow()
    ensures Fib(47) <= U32_MAX < Fib(48)
  {
    assert Fib(3) == 2;
    assert Fib(4) == 3;
    assert Fib(5) == 5;
    assert Fib(6) == 8;
    assert Fib(7) == 13;
    assert Fib(8) == 21;
    assert Fib(9) == 34;
    assert Fib(10) == 55;
    assert Fib(11) == 89;
    assert Fib(12) == 144;
    assert Fib(13) == 233;
    assert Fib(14) == 377;
    assert Fib(15) == 610;
    assert Fib(16) == 987;
    assert Fib(17) == 1597;
    assert Fib(18) == 2584;
    assert Fib(19) == 4181;
    assert Fib(20) == 6765;
    assert Fib(21) == 10946;
    assert Fib(22) == 17711;
    assert Fib(23) == 28657;
    assert Fib(24) == 46368;
    assert Fib(25) == 75025;
    assert Fib(26) == 121393;
    assert Fib(27) == 196418;
    assert Fib(28) == 317811;
    assert Fib(29) == 514229;
    assert Fib(30) == 832040;
    assert Fib(31) == 1346269;
    assert Fib(32) == 2178309;
    assert Fib(33) == 3524578;
    assert Fib(34) == 5702887;
    assert Fib(35) == 9227465;
    assert Fib(36) == 14930352;
    assert Fib(37) == 24157817;
    assert Fib(38) == 39088169;
    assert Fib(39) == 63245986;
    assert Fib(40) == 102334155;
    assert Fib(41) == 165580141;
    assert Fib(42) == 267914296;
    assert Fib(43) == 433494437;
    assert Fib(44) == 701408733;
    assert Fib(45) == 1134903170;
    assert Fib(46) == 1836311903;
    assert Fib(47) == 2971215073;
    assert Fib(48) == 4807526976;
  }

  /** Every term up to F(47) fits in `u32`. */
  lemma FibFits(k: nat)
    requires k <= 47
    ensures Fib(k) <= U32_MAX
  {
    var last: nat := 47;
    assert Fib(last) <= U32_MAX by {
      FibAtOverflow();
    }
    FibMonotone(k, last);
  }

  /** Every term from F(48) on overflows `u32`. */
  lemma FibOverflows(k: nat)
    requires k >= 48
    ensures Fib(k) > U32_MAX
  {
    FibAtOverflow();
    FibMonotone(48, k);
  }
}
