/** `generate_row(row_num, row_pos)`: the binomial coefficient computed as
    `factorial(n) // (factorial(k) * factorial(n - k))` with Python's floor
    division. All three factorials are at least 1, so both operands are
    positive and floor division agrees with Dafny's `/`. */
module Binomials {
  import opened Factorials

  /** The value `generate_row(n, k)` returns, for any ints n and k. */
  ghost function Binomial(n: int, k: int): (r: int)
    ensures r >= 0
  {
    assert Fact(k) * Fact(n - k) >= 1 by { PositiveProduct(Fact(k), Fact(n - k)); }
    Fact(n) / (Fact(k) * Fact(n - k))
  }

  lemma PositiveProduct(x: int, y: int)
    requires x >= 1 && y >= 1
    ensures x * y >= 1 && x * y >= x
  {
  }

  /** The three calls to `factorial` and the floor division. Row entries
      come out exact: quotient times divisor is n!. */
  method GenerateRow(rowNum: int, rowPos: int) returns (r: int)
    ensures r == Binomial(rowNum, rowPos)
    ensures 0 <= rowPos <= rowNum ==> r * (Fact(rowPos) * Fact(rowNum - rowPos)) == Fact(rowNum)
  {
    var whole := Factorial(rowNum);
    var left := Factorial(rowPos);
    var right := Factorial(rowNum - rowPos);
    PositiveProduct(left.value, right.value);
    r := whole.value / (left.value * right.value);
    if 0 <= rowPos <= rowNum {
      DivisionIsExact(rowNum, rowPos);
    }
  }

  /** The independent reference: the binomial coefficient defined by
      Pascal's recurrence. */
  ghost function Choose(n: nat, k: nat): nat {
    if k == 0 then 1
    else if n == 0 then 0
    else Choose(n - 1, k - 1) + Choose(n - 1, k)
  }

  lemma {:induction false} ChooseAbove(n: nat, k: nat)
    requires k > n
    ensures Choose(n, k) == 0
  {
    if n > 0 {
      ChooseAbove(n - 1, k - 1);
      ChooseAbove(n - 1, k);
    }
  }

  /** The factorial formula for Choose: C(n, k) * k! * (n - k)! == n!. */
  lemma {:induction false} ChooseTimesFactorials(n: nat, k: nat)
    requires k <= n
    ensures Choose(n, k) * (Fact(k) * Fact(n - k)) == Fact(n)
  {
    if k == n {
      ChooseDiagonal(n);
      assert Fact(n - k) == 1;
    } else if k > 0 {
      var m := n - 1;
      var a, b := Choose(m, k - 1), Choose(m, k);
      assert Choose(n, k) == a + b;
      assert Fact(k) == k * Fact(k - 1);
      assert Fact(n - k) == (n - k) * Fact(m - k);
      assert a * (Fact(k - 1) * ((n - k) * Fact(m - k))) == Fact(m) by {
        ChooseTimesFactorials(m, k - 1);
      }
      assert b * ((k * Fact(k - 1)) * Fact(m - k)) == Fact(m) by {
        ChooseTimesFactorials(m, k);
      }
      PascalArith(a, b, k, n - k, Fact(k - 1), Fact(m - k), Fact(m));
    }
  }

  lemma {:induction false} ChooseDiagonal(n: nat)
    ensures Choose(n, n) == 1
  {
    if n > 0 {
      ChooseDiagonal(n - 1);
      ChooseAbove(n - 1, n);
    }
  }

  lemma MulAssoc(x: int, y: int, z: int)
    ensures (x * y) * z == x * (y * z)
  {
  }

  /** The arithmetic step of the factorial formula: the two Pascal terms
      contribute k * (n-1)! and (n-k) * (n-1)!. */
  lemma PascalArith(a: int, b: int, k: int, j: int, x: int, y: int, fm: int)
    requires a * (x * (j * y)) == fm
    requires b * ((k * x) * y) == fm
    ensures (a + b) * ((k * x) * (j * y)) == (k + j) * fm
  {
    var p := x * (j * y);
    var q := (k * x) * y;
    var t := (k * x) * (j * y);
    assert t == k * p by { MulAssoc(k, x, j * y); }
    assert t == j * q by {
      calc {
        (k * x) * (j * y);
        (k * x) * (y * j);
        { MulAssoc(k * x, y, j); }
        ((k * x) * y) * j;
      }
    }
    calc {
      (a + b) * t;
      a * t + b * t;
      a * (k * p) + b * (j * q);
      { MulAssoc(a, k, p); MulAssoc(k, a, p); MulAssoc(b, j, q); MulAssoc(j, b, q); }
      k * (a * p) + j * (b * q);
      k * fm + j * fm;
    }
  }

  /** For 0 <= k <= n the floor division is exact and equals Choose(n, k). */
  lemma DivisionIsExact(n: int, k: int)
    requires 0 <= k <= n
    ensures Fact(n) % (Fact(k) * Fact(n - k)) == 0
    ensures Binomial(n, k) == Choose(n, k)
    ensures Binomial(n, k) * (Fact(k) * Fact(n - k)) == Fact(n)
  {
    ChooseTimesFactorials(n, k);
    var d := Fact(k) * Fact(n - k);
    PositiveProduct(Fact(k), Fact(n - k));
    DivideProduct(Choose(n, k), d);
  }

  lemma DivideProduct(c: int, d: int)
    requires d >= 1
    ensures (c * d) / d == c && (c * d) % d == 0
  {
    var q, r := (c * d) / d, (c * d) % d;
    assert c * d == q * d + r && 0 <= r < d;
    assert (c - q) * d == c * d - q * d;
    MulSign(c - q, d);
  }

  lemma {:induction false} MulSign(x: int, d: int)
    requires d >= 1
    ensures x >= 1 ==> x * d >= d
    ensures x <= -1 ==> x * d <= -d
    decreases if x < 0 then -x else x
  {
    if x > 1 {
      MulSign(x - 1, d);
      assert x * d == (x - 1) * d + d;
    } else if x < -1 {
      MulSign(x + 1, d);
      assert x * d == (x + 1) * d - d;
    }
  }

  /** Pascal's rule, "(n-1, k-1) + (n-1, k)", for every entry of every row
      from row 2 on, the two ends included. In rows 0 and 1 it fails for the
      program's function, because generate_row(0, 1), generate_row(0, -1),
      generate_row(-1, 0) and generate_row(-1, -1) are all 1. */
  lemma PascalRule(n: int, k: int)
    requires n >= 2 && 0 <= k <= n
    ensures Binomial(n, k) == Binomial(n - 1, k - 1) + Binomial(n - 1, k)
  {
    if k == 0 {
      RowEnds(n);
      RowEnds(n - 1);
      OutsideRow(n - 1, -1);
    } else if k == n {
      RowEnds(n);
      RowEnds(n - 1);
      OutsideRow(n - 1, n);
    } else {
      DivisionIsExact(n, k);
      DivisionIsExact(n - 1, k - 1);
      DivisionIsExact(n - 1, k);
    }
  }

  /** A row reads the same from both ends; since n - (n - k) == k this holds
      for every pair of ints, not only inside the row. */
  lemma Symmetry(n: int, k: int)
    ensures Binomial(n, k) == Binomial(n, n - k)
  {
  }

  /** Both ends of every row are 1; in particular generate_row(0, 0) == 1. */
  lemma RowEnds(n: int)
    ensures Binomial(n, 0) == 1 && Binomial(n, n) == 1
  {
  }

  /** Outside the row (k < 0 or k > n, with n >= 0) the result is 0, except
      for the two neighbours of the apex, (0, 1) and (0, -1), where all
      three factorials are 1 and the quotient is 1. */
  lemma OutsideRow(n: int, k: int)
    requires n >= 0 && (k < 0 || k > n)
    ensures Binomial(n, k) == if n == 0 && (k == 1 || k == -1) then 1 else 0
  {
    if k > n {
      AboveRow(n, k);
    } else {
      Symmetry(n, k);
      AboveRow(n, n - k);
    }
  }

  lemma AboveRow(n: int, k: int)
    requires 0 <= n < k
    ensures Binomial(n, k) == if n == 0 && k == 1 then 1 else 0
  {
    assert Fact(n - k) == 1;
    if k >= 2 {
      FactStrictlyGrows(n, k);
    }
  }

  /** A negative row index makes the dividend 0! == 1, so the result is 1
      when both factorials in the divisor are 1 and 0 otherwise. */
  lemma NegativeRow(n: int, k: int)
    requires n < 0
    ensures Binomial(n, k) == if k <= 1 && n - k <= 1 then 1 else 0
  {
    FactIsOne(k);
    FactIsOne(n - k);
    PositiveProduct(Fact(k), Fact(n - k));
    PositiveProduct(Fact(n - k), Fact(k));
  }

  /** Row n of the triangle, C(n, 0) .. C(n, n). */
  ghost function Row(n: nat): (row: seq<int>)
    ensures |row| == n + 1
  {
    seq(n + 1, k => Binomial(n, k))
  }

  function Sum(s: seq<int>): int {
    if s == [] then 0 else Sum(s[..|s| - 1]) + s[|s| - 1]
  }

  function Pow2(n: nat): nat {
    if n == 0 then 1 else 2 * Pow2(n - 1)
  }

  /** C(n, 0) + ... + C(n, m - 1). */
  ghost function ChooseSum(n: nat, m: nat): nat {
    if m == 0 then 0 else ChooseSum(n, m - 1) + Choose(n, m - 1)
  }

  lemma {:induction false} ChooseSumStep(n: nat, m: nat)
    ensures ChooseSum(n + 1, m + 1) == ChooseSum(n, m) + ChooseSum(n, m + 1)
  {
    if m > 0 {
      ChooseSumStep(n, m - 1);
    }
  }

  lemma {:induction false} ChooseRowTotal(n: nat)
    ensures ChooseSum(n, n + 1) == Pow2(n)
  {
    if n > 0 {
      ChooseRowTotal(n - 1);
      ChooseSumStep(n - 1, n);
      ChooseAbove(n - 1, n);
    }
  }

  lemma {:induction false} RowPrefixSum(n: nat, m: nat)
    requires m <= n + 1
    ensures Sum(Row(n)[..m]) == ChooseSum(n, m)
  {
    if m > 0 {
      RowPrefixSum(n, m - 1);
      assert Row(n)[..m][..m - 1] == Row(n)[..m - 1];
      DivisionIsExact(n, m - 1);
    }
  }

  /** The entries of row n add up to 2^n. */
  lemma RowSum(n: nat)
    ensures Sum(Row(n)) == Pow2(n)
  {
    RowPrefixSum(n, n + 1);
    assert Row(n)[..n + 1] == Row(n);
    ChooseRowTotal(n);
  }
}
