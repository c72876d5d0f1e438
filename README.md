# Comparison of running times (CLRS problem 1-1), modelled in Dafny

The program takes eight growth functions (log n, √n, n, n log n, n², n³, 2ⁿ, n!)
and seven time budgets (1 second to 1 century, in microseconds). For each pair it
finds the largest problem size n whose cost f(n) microseconds fits the budget t,
then prints a table of the results.

This project models the budget table `TIMES`, every inverse solver `solve_*`, and
the `FUNCTIONS` dispatch table. With the float operations read as their exact
integer meanings (see below and "## Left out"), it proves that every solver returns
the largest n with f(n) ≤ t. Modules:

- `Arith` (arith.dfy): `Pow`, `Factorial`, the floor log2 `Log2`, the floor square
  root `ISqrt` and the floor cube root `ICbrt`. Each is characterised by its bracket,
  e.g. 2^r ≤ t < 2^(r+1). Each also has a uniqueness lemma, plus the monotonicity
  lemmas the solvers need.
- `Decimal` (decimal.dfy): Python's `str` of an integer (used in the f-string of
  `solve_logn`) and a parser that reads it back.
- `Budgets` (budgets.dfy): `TIMES`, kept in declaration order like the Python dict.
- `Solvers` (solvers.dfy): the solvers. `solve_nlogn` and `solve_fact` are loops in
  the source, so they are methods with loop invariants. The rest are functions.
  Python's exceptions are values of `Result`: `Err(ValueError)` when `math.sqrt` or
  `math.log2` leaves its domain, and `Err(TypeError)` when a negative `t ** (1/3)`
  gives a complex number and `int()` rejects it.
- `ComplexityMap` (complexity_map.dfy): the `FUNCTIONS` table as a datatype
  `Growth`, the result type `Bound` (symbolic text or exact number), the relation
  `Within(g, n, t)`, meaning f(n) ≤ t over the integers, and `Solve`, which
  dispatches to a solver.

The float operations become their exact integer meanings. `int(math.sqrt(t))` is
`ISqrt`, `int(math.log2(t))` is `Log2` and `int(t ** (1/3))` is `ICbrt`. The test
`mid * math.log2(mid) <= t` becomes `FitsNLogN(mid, t)`, defined as
mid^mid ≤ 2^t, which is the same inequality once 2 is raised to both sides.

Edge cases, as the code handles them:

- `solve_fact` returns 0 for t < 1, because its loop body never runs.
- `solve_nlogn` returns 1 for t < 1, because its loop never runs.
- `solve_sqrtn` returns `t ** 2`, an exact integer, for every t.
- For a negative or zero budget, the errors are the ones Python raises.

## Model

| member | source | states |
|---|---|---|
| `Budgets.TimesShape` | comparison_of_running_times.py:15-23 | seven budgets, from "1 second" = 1,000,000 µs to "1 century" = 3,153,600,000,000,000 µs; each is ≥ 1,000,000 and a whole multiple of 1,000,000; they strictly increase in declaration order; labels are distinct |
| `Solvers.SolveLogN` | comparison_of_running_times.py:29-30 | the result is the text "2^" followed by a decimal numeral that parses back to exactly t. The numeral is canonical, as `str(t)` prints it: a leading '0' only for t = 0 (the text is then "2^0"), and a '-' only for negative t, never followed by '0' (for abs(t) < 10^4300; see Left out) |
| `Solvers.SolveLogNLength` | comparison_of_running_times.py:29-30 | for t ≥ 1 the text has ⌊log10 t⌋ + 3 characters (10^(len−3) ≤ t < 10^(len−2)), so 2^t is never written out |
| `Decimal.NatToDecimalRoundTrip` | comparison_of_running_times.py:30 | the decimal digits of n are non-empty, all digits, have no leading zero, and parse back to n |
| `Decimal.IntToDecimal` | comparison_of_running_times.py:30 | `str(t)`: the text parses back to t; it starts with '-' exactly when t < 0; only "0" starts with a zero; no "-0" prefix occurs, so it is the one canonical numeral for t (for abs(t) < 10^4300; see Left out) |
| `Decimal.NatToDecimalLength` | comparison_of_running_times.py:30 | a positive n has k digits exactly when 10^(k−1) ≤ n < 10^k |
| `Solvers.SolveSqrtN` | comparison_of_running_times.py:32-33 | `int(t ** 2)` is exactly the integer abs(t)², and its floor square root gives abs(t) back |
| `ComplexityMap.SqrtNLargest` | comparison_of_running_times.py:32-33 | for t ≥ 0, t·t is the largest n with √n ≤ t, i.e. with n ≤ t² |
| `Solvers.SolveN` | comparison_of_running_times.py:35-36 | `int(t)` of an int budget is t exactly |
| `ComplexityMap.NLargest` | comparison_of_running_times.py:35-36 | for t ≥ 0, `solve_n(t)` = t is the largest n with n ≤ t |
| `Solvers.FitsNLogN` | comparison_of_running_times.py:42 | the exact test mid^mid ≤ 2^t for `mid * log2(mid) <= t`. For n ≥ 1 it implies n·⌊log2 n⌋ ≤ t, it follows from n·(⌊log2 n⌋+1) ≤ t, and for n a power of two it is exactly n·log2 n ≤ t |
| `Solvers.NLogNBounds` | comparison_of_running_times.py:42 | the same three bounds, stated on n^n ≤ 2^t: n^n lies between 2^(n·⌊log2 n⌋) and 2^(n·(⌊log2 n⌋+1)) |
| `Solvers.FitsNLogNOne` | comparison_of_running_times.py:39 | n = 1 always passes the test (1·log2 1 = 0 ≤ t), so `lo = 1` starts valid |
| `Solvers.FitsNLogNDownward` | comparison_of_running_times.py:42 | the test is closed downwards: if m passes and 1 ≤ n ≤ m then n passes |
| `Solvers.FitsNLogNAbove` | comparison_of_running_times.py:39 | for 1 ≤ t < n the test fails (2^t < 2^n ≤ n^n), so starting with `hi = t` loses nothing |
| `Solvers.LargestFitUpToIsLargest` | comparison_of_running_times.py:38-46 | the brute-force scan downward from k returns the largest n in [1, k] that passes the test |
| `Solvers.SolveNLogN` | comparison_of_running_times.py:38-46 | binary search, midpoint rounded up. Invariant: lo passes the test, nothing above hi passes, 1 ≤ lo ≤ hi ≤ t. Terminates because lo < mid ≤ hi, so hi − lo shrinks. For t ≥ 1 the result is the largest n ≥ 1 with n·log2 n ≤ t, and it equals the brute-force scan. For t < 1 it is 1 |
| `Arith.ISqrt` | comparison_of_running_times.py:49 | r² ≤ t < (r+1)² |
| `Arith.ISqrtUnique` | comparison_of_running_times.py:49 | only one r satisfies r² ≤ t < (r+1)² |
| `Solvers.SolveN2` | comparison_of_running_times.py:48-49 | succeeds exactly when t ≥ 0, and then r² ≤ t < (r+1)². A negative t raises ValueError (abs(t) within the float range; see Left out) |
| `Solvers.SolveN2Inverse` | comparison_of_running_times.py:48-49 | floor(√(k²)) = k for every k ≥ 0 |
| `ComplexityMap.NSquaredLargest` | comparison_of_running_times.py:48-49 | for t ≥ 0 the result is the largest n with n² ≤ t |
| `Arith.ICbrt` | comparison_of_running_times.py:52 | r³ ≤ t < (r+1)³ |
| `Arith.ICbrtUnique` | comparison_of_running_times.py:52 | only one r satisfies r³ ≤ t < (r+1)³ |
| `Solvers.SolveN3` | comparison_of_running_times.py:51-52 | idealised: succeeds exactly when t ≥ 0, with r³ ≤ t < (r+1)³. A negative t raises TypeError (abs(t) within the float range; see Left out) |
| `Solvers.SolveN3Inverse` | comparison_of_running_times.py:51-52 | the idealised solver returns k for k³ |
| `ComplexityMap.NCubedLargest` | comparison_of_running_times.py:51-52 | for t ≥ 0 the idealised result is the largest n with n³ ≤ t |
| `Arith.Log2` | comparison_of_running_times.py:55 | for t ≥ 1, 2^r ≤ t < 2^(r+1) |
| `Arith.Log2Unique` | comparison_of_running_times.py:55 | any r with 2^r ≤ t < 2^(r+1) forces t ≥ 1 and equals floor(log2 t) |
| `Solvers.SolveTwoN` | comparison_of_running_times.py:54-55 | succeeds exactly when t ≥ 1, and then 2^r ≤ t < 2^(r+1). Otherwise it raises ValueError |
| `Solvers.SolveTwoNInverse` | comparison_of_running_times.py:54-55 | floor(log2(2^k)) = k |
| `ComplexityMap.TwoNLargest` | comparison_of_running_times.py:54-55 | for t ≥ 1 the result is the largest n with 2^n ≤ t |
| `Arith.Factorial` | comparison_of_running_times.py:58-62 | n! ≥ 1, so the product `fact` stays positive and the loop makes progress |
| `Arith.FactorialBracketUnique` | comparison_of_running_times.py:57-63 | only one r satisfies r! ≤ t < (r+1)! |
| `Solvers.SolveFact` | comparison_of_running_times.py:57-63 | loop invariant: fact = n!, and (n−1)! ≤ t once n > 1. Terminates because fact strictly grows while fact ≤ t. For t ≥ 1 the result r satisfies r ≥ 1 and r! ≤ t < (r+1)!. For t < 1 the body never runs and the result is 0 |
| `Solvers.SolveFactAnswers` | comparison_of_running_times.py:57-63 | the bracket fixes the answer: k for t = k! with k ≥ 1, and 9 for t = 1,000,000 (9! = 362880 ≤ 10^6 < 10! = 3628800) |
| `ComplexityMap.NFactorialLargest` | comparison_of_running_times.py:57-63 | r! ≤ t < (r+1)! makes r the largest n with n! ≤ t |
| `ComplexityMap.LogNLargest` | comparison_of_running_times.py:29-30 | the symbolic text stands for exactly 2^t, the largest n with log2 n ≤ t |
| `Solvers.OneSecondAnswers` | comparison_of_running_times.py:32-55 | at t = 1,000,000: n gives 1000000, √n gives 1000000000000, n² gives 1000, the idealised n³ gives 100, 2ⁿ gives 19 |
| `Solvers.OneSecondN2` | comparison_of_running_times.py:48-49 | floor(√(10^6)) = 1000 |
| `Solvers.OneSecondN3` | comparison_of_running_times.py:51-52 | the exact floor cube root of 10^6 is 100 |
| `Solvers.OneSecondTwoN` | comparison_of_running_times.py:54-55 | floor(log2(10^6)) = 19 (2^19 = 524288 ≤ 10^6 < 2^20 = 1048576) |
| `ComplexityMap.FunctionsShape` | comparison_of_running_times.py:69-78 | eight entries, each growth function exactly once, in declaration order, with distinct labels |
| `ComplexityMap.Solve` | comparison_of_running_times.py:69-78 | the FUNCTIONS lookup. It succeeds exactly on the solver's domain and otherwise raises the solver's exception (for budgets within the float range; see Left out). Only log n gives a symbolic bound. For every t ≥ 1 the bound's value is the largest n with f(n) ≤ t, with the float operations of n log n, n², n³ and 2ⁿ read as their exact integer meanings (see Left out) |
| `ComplexityMap.BudgetsInDomain` | comparison_of_running_times.py:92-96 | every budget in `TIMES` is positive and inside every solver's domain, so no table cell raises |

## Left out

- The table printing (lines 84-97): the title, the headers padded to widths 12 and 16, the 125-dash rule and the cells written to standard output. It is output only, and nothing uses its result. Only the claim that each cell is defined, `ComplexityMap.BudgetsInDomain`, is kept.
- Solvers.SolveN3: it states the exact floor cube root. The source's `int(t ** (1/3))` works in floating point and can fall one short near perfect cubes. For 10^6, the float cube root is just below 100, so the source prints 99 where the model gives 100. The model proves the idealised statement only.
- Solvers.SolveN2: it states the exact floor square root. `math.sqrt` works on a double, and for very large t its rounding can break the bracket. The budgets here lie below 2^52, but the model does not reason about IEEE rounding.
- Solvers.SolveTwoN: it states the exact floor log2. `math.log2` rounds, so for an input just below a large power of two (2^k − 1 with k near 50) the float code can return k where the exact answer is k − 1. The model does not capture that rounding.
- Solvers.SolveNLogN: the test `mid * math.log2(mid) <= t` is modelled exactly as mid^mid ≤ 2^t. Near the boundary the float product may round the other way, and the model does not capture that.
- Solvers.SolveN2: `math.sqrt(t)` first converts t to a float, which raises OverflowError once |t| is beyond the float range (about 2^1024). The model returns `Ok` or `ValueError` there instead.
- Solvers.SolveN3: `t ** (1/3)` converts t to a float the same way, so for |t| beyond about 2^1024 the source raises OverflowError. The model returns `Ok` or `TypeError` there instead.
- Solvers.SolveNLogN: `mid * math.log2(mid)` converts mid to a float, so once mid is beyond about 2^1024 the source raises OverflowError. The model keeps searching with the exact test.
- Solvers.SolveLogN: the f-string `f"2^{t}"` renders t with `str`, and Python 3.11 and later (and the 3.7–3.10 security releases of September 2022) raise ValueError when an int has more than 4300 decimal digits, i.e. once abs(t) ≥ 10^4300. The model returns the text for every t. No budget in `TIMES` comes near that size.
- Decimal.IntToDecimal: it renders every integer, whereas Python's `str` of an int refuses more than 4300 digits (abs(t) ≥ 10^4300) and raises ValueError. The digit limit is a runtime setting, not part of the number's decimal form, so the model leaves it out.
- ComplexityMap.Solve: it takes on all the idealisations of the solvers it dispatches to. Its "largest n" law holds for the exact integer readings of `SolveNLogN`, `SolveN2`, `SolveN3` and `SolveTwoN`, not for their float code: for n³ at the first budget, 10^6, the source's table cell is 99 while the largest n with n³ ≤ 10^6 is 100. For a budget beyond the float range it does not report OverflowError, and for log n with abs(t) ≥ 10^4300 it does not report the ValueError of the digit limit (so `InDomain(LogN, t)` being always true is the idealised domain). No budget in `TIMES` comes near either range.
- The n log n answer for a concrete budget (62746 at one second) is not stated. Checking it through the exact test would mean evaluating powers with hundreds of thousands of digits.
- Python's unbounded integers need no modelling of integer overflow, and the model uses unbounded `int` and `nat` throughout.
