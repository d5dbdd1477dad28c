# Pascal's Triangle, modelled in Dafny

This project models `pascal_triangle.py`, a small script that prints the
first rows of Pascal's Triangle. It has three parts, and each is one module:

- `factorial(n)` (module `Factorials`, `factorials.dfy`) multiplies an
  accumulator by 1, 2, ..., n in a `for` loop over unbounded integers. It is
  modelled as the method `Factorial` with a `while` loop. The loop is proved
  against the recursive ghost function `Fact`. The two guarded early returns
  inside the loop are kept: one returns the message `"input positive number"`
  when n < 0, the other returns 1 when n == 0. The loop body runs only when
  n >= 1, so neither guard can ever fire. The proof shows that the answer is
  always the number `Fact(n)`. For every n <= 0 that number is 1.
- `generate_row(n, k)` (module `Binomials`, `binomials.dfy`) computes
  `factorial(n) // (factorial(k) * factorial(n - k))`. `Binomial` gives the
  value for every pair of ints. The method `GenerateRow` makes the three
  factorial calls and the floor division, and is proved to return
  `Binomial`. Every factorial is at least 1, so both operands are positive
  and Python's `//` agrees with Dafny's `/`. `Choose` is an independent
  reference: the binomial coefficient defined by Pascal's recurrence. Inside
  the row the division is exact and `Binomial` equals `Choose`; from this
  follow the inner entries of Pascal's rule and the row sum 2^n; the two
  ends of the rule follow from `RowEnds` and `OutsideRow`. Symmetry and the
  1s at both ends of each row follow directly from the factorial formula.
  Outside the row the model states exactly what the code returns.
- `print_centered_triangle(rows)` (module `Triangle`, `triangle.dfy`) is two
  nested loops of `print` calls. The method `PrintCenteredTriangle` keeps
  both loops but appends to a string that stands for stdout. It is proved
  to produce `Output(rows)`, and the shape of that text is proved about the
  specification functions:
  - The text splits at its newlines into exactly `rows` lines.
  - Line n starts with exactly `rows - n` blanks.
  - The rest of line n, cut at its blanks, reads back as C(n, 0) .. C(n, n).

Module `Strings` (`strings.dfy`) holds the pieces of text the printer writes,
each with the reading that undoes it:
- Python's `str` of a non-negative int (`DecimalString`), read back by
  `DecimalValue`.
- A run of blanks (`Spaces`).
- Pieces each followed by a separator (`Terminated`), which is what
  `print(x, end=" ")` and `print()` leave on stdout. `Split` cuts them apart
  again.

What the code does at its edges, as modelled:
- The early return at pascal_triangle.py:31-32 suggests that a negative
  argument to `factorial` yields the message "input positive number". That
  return never runs: for n < 0 the loop is empty and the code returns 1.
- `generate_row` has a definite value for every pair of ints:
  - 0 for k > n >= 0 and for k < 0 <= n, except at (0, 1) and (0, -1).
  - At (0, 1) and (0, -1) it returns 1, because all three factorials are 1.
  - For a negative n it returns 1 or 0 (see `NegativeRow`).
  - For n >= 2 Pascal's rule holds for every 0 <= k <= n; it fails only in
    rows 0 and 1, at (0, 0), (1, 0) and (1, 1), where the right-hand side
    is 1 + 1.
- The first line of the five-row run carries five blanks, one for each of
  the `rows - n` the code prints (`FiveRows`).

## Model

| member | source | states |
|---|---|---|
| `Factorials.Fact` | pascal_triangle.py:30-37 | the value `factorial` computes: n! for n >= 1, the empty product 1 for every n <= 0; at least 1 for every int |
| `Factorials.Factorial` | pascal_triangle.py:22-37 | the accumulator loop (with both guarded early returns) always answers the number Fact(n) and never the message string; for every n <= 0 it answers 1 |
| `Factorials.FactMonotone` | pascal_triangle.py:30-36 | the factorial never decreases as its argument grows |
| `Factorials.FactIsOne` | pascal_triangle.py:30-37 | the factorial is 1 exactly when its argument is at most 1 |
| `Factorials.FactExamples` | pascal_triangle.py:22-37 | factorial(0) == 1 and factorial(5) == 120 |
| `Binomials.Binomial` | pascal_triangle.py:40-42 | the divisor k! * (n-k)! is at least 1, so the quotient is defined for every pair of ints and is never negative |
| `Binomials.GenerateRow` | pascal_triangle.py:40-42 | the three factorial calls and the floor division return Binomial(n, k); inside the row, quotient times divisor is exactly n! |
| `Binomials.ChooseTimesFactorials` | pascal_triangle.py:42 | C(n, k) * (k! * (n-k)!) == n! for the combinatorial C defined by Pascal's rule |
| `Binomials.DivisionIsExact` | pascal_triangle.py:42 | for 0 <= k <= n the divisor divides n! with no remainder and generate_row(n, k) equals C(n, k) |
| `Binomials.PascalRule` | pascal_triangle.py:42 | generate_row(n, k) == generate_row(n-1, k-1) + generate_row(n-1, k) for every n >= 2 and 0 <= k <= n, the recurrence written in the comment on line 20 |
| `Binomials.Symmetry` | pascal_triangle.py:42 | generate_row(n, k) == generate_row(n, n-k) for every pair of ints |
| `Binomials.RowEnds` | pascal_triangle.py:42 | generate_row(n, 0) == generate_row(n, n) == 1 for every n, so generate_row(0, 0) == 1 |
| `Binomials.OutsideRow` | pascal_triangle.py:30-42 | for n >= 0 and k outside 0..n the result is 0, except 1 at (0, 1) and (0, -1) |
| `Binomials.NegativeRow` | pascal_triangle.py:30-42 | for n < 0 the result is 1 when k <= 1 and n - k <= 1, and 0 otherwise |
| `Binomials.ChooseAbove` | pascal_triangle.py:42 | the Pascal-recurrence reference C(n, k) is 0 for k > n |
| `Binomials.RowSum` | pascal_triangle.py:47-48 | the entries generate_row(n, 0..n) of a row add up to 2^n |
| `Strings.DecimalString` | pascal_triangle.py:48 | `str` of a non-negative int: at least one character, all decimal digits, a leading '0' only for the number 0 |
| `Strings.DecimalRoundTrip` | pascal_triangle.py:48 | reading the printed digits back gives the printed number |
| `Strings.Spaces` | pascal_triangle.py:46 | `" " * width` is exactly `width` blanks |
| `Strings.Split` | pascal_triangle.py:46-49 | the inverse reading of the text lines 46-49 write (the program itself never splits text): no piece cut from a text contains the separator |
| `Strings.TerminatedSnoc` | pascal_triangle.py:47-49 | printing one more piece with `end=sep` appends the piece and one separator |
| `Strings.SplitTerminated` | pascal_triangle.py:46-49 | text printed piece by piece, each followed by a separator, splits back into the same pieces |
| `Triangle.PrintCenteredTriangle` | pascal_triangle.py:44-49 | the nested loops write exactly Output(rows): for each row in order its blanks, its entries each followed by a blank, and a newline |
| `Triangle.OutputLines` | pascal_triangle.py:45-49 | the output splits at its newlines into exactly rows lines (none when rows <= 0), row 0 first |
| `Triangle.LineShape` | pascal_triangle.py:46-49 | line n begins with exactly rows - n blanks followed by a digit and ends with the blank printed after its last entry, and the rest, cut at blanks, reads back as generate_row(n, 0..n) in increasing k, each equal to C(n, k) |
| `Triangle.FiveRows` | pascal_triangle.py:54 | the five-row call prints "     1 ", "    1 1 ", "   1 2 1 ", "  1 3 3 1 ", " 1 4 6 4 1 " |

## Left out

- Writing to stdout (pascal_triangle.py:46, 48, 49): the model appends to a
  string instead, so buffering and flushing are not modelled.
- The `int(n)` conversion in `factorial` and the `ValueError` raised when it
  fails (pascal_triangle.py:25-28): the model takes ints directly. Python's
  dynamic typing, with its coercion of floats, strings and booleans, is not
  modelled.
- The module-level call `print_centered_triangle(5)` (pascal_triangle.py:54)
  is not executed. `FiveRows` states the five lines it prints; `OutputLines`
  joins them to the printed text.
- The commented-out alternatives (pascal_triangle.py:2-20) have no behaviour.
  Line 20 only names the recurrence that `PascalRule` proves.
- test_pascal_triangle.py: its single test calls `generate_row` with one
  argument and expects a list. Against the two-argument function that
  returns an int, this call would fail with a type error, so it states no
  contract to model.
- Strings.DecimalString: renders only non-negative ints. The printer never
  prints a negative value, since every entry is at least 0 (`Binomial`).
  It renders ints of any length, whereas CPython 3.11+ by default raises
  ValueError when converting an int of more than 4300 digits (the
  `sys.int_max_str_digits` limit). The printer first meets such an entry at
  C(14292, 7098) in row 14292, the first of the 97 entries C(14292, 7098) ..
  C(14292, 7194) that exceed 4300 digits. So `Output(rows)` is the
  program's text only for rows < 14293, or when that limit is lifted.
- Repeated computation of the same factorials is not modelled: it affects
  running time only.
