/** `factorial(n)`: the product 1 * 2 * ... * n, accumulated in a loop over
    unbounded integers. The loop range `range(1, n + 1)` is empty whenever
    n <= 0, so every such n yields the initial accumulator 1. */
module Factorials {

  /** What the Python function may hand back: an int, or (on a path that the
      loop never reaches) the message string. */
  datatype Answer = Number(value: int) | Message(text: string)

  /** n! for n >= 1, and 1 (the empty product) for every n <= 0. */
  ghost function Fact(n: int): (r: int)
    ensures r >= 1
  {
    if n <= 0 then 1 else n * Fact(n - 1)
  }

  /** The accumulator loop, with its two guarded early returns. Both guards
      are false inside the loop (the loop body runs only when n >= 1), so
      the answer is always the number Fact(n), never the message. */
  method Factorial(n: int) returns (r: Answer)
    ensures r == Number(Fact(n))
    ensures n <= 0 ==> r == Number(1)
  {
    var fact := 1;
    var i := 1;
    while i < n + 1
      invariant 1 <= i && (i == 1 || i <= n + 1)
      invariant fact == Fact(i - 1)
    {
      if n < 0 {
        // unreachable: the loop is entered only when n >= 1
        assert false;
        return Message("input positive number");
      }
      if n == 0 {
        // unreachable for the same reason
        assert false;
        return Number(1);
      } else {
        fact := fact * i;
      }
      i := i + 1;
    }
    return Number(fact);
  }

  /** Fact never decreases. */
  lemma {:induction false} FactMonotone(a: int, b: int)
    requires a <= b
    ensures Fact(a) <= Fact(b)
  {
    if a < b && b >= 1 {
      FactMonotone(a, b - 1);
      assert Fact(b) == b * Fact(b - 1);
    }
  }

  /** From 2 on, Fact grows strictly. */
  lemma {:induction false} FactStrictlyGrows(a: int, b: int)
    requires a < b && b >= 2
    ensures Fact(a) < Fact(b)
  {
    FactMonotone(a, b - 1);
    assert Fact(b) == b * Fact(b - 1);
  }

  /** Fact(n) is 1 exactly when n <= 1. */
  lemma {:induction false} FactIsOne(n: int)
    ensures Fact(n) == 1 <==> n <= 1
  {
    if n >= 2 {
      FactStrictlyGrows(1, n);
    }
  }

  /** factorial(0) and factorial(5). */
  lemma FactExamples()
    ensures Fact(0) == 1 && Fact(5) == 120
  {
  }
}
