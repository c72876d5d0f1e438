/** The per-function inverse solvers: for a budget t (microseconds), the
    largest n whose cost f(n) does not exceed t. */
module Solvers {
  import opened Arith
  import opened Decimal

  /** The Python exception a solver raises outside its domain. */
  datatype Failure =
    | ValueError  // math.sqrt or math.log2 of a number outside its domain
    | TypeError   // int() of the complex number that a negative ** (1/3) yields

  datatype Result<T> = Ok(value: T) | Err(failure: Failure)

  function Abs(t: int): nat
  {
    if t < 0 then -t else t
  }

  /** log n: the bound 2^t, kept as the text "2^" followed by the decimal digits of t. */
  function SolveLogN(t: int): (s: string)
    ensures |s| > 2 && s[..2] == "2^"
    ensures IsDecimalInt(s[2..]) && ParseInt(s[2..]) == t
    ensures s[2] == '0' ==> t == 0 && |s| == 3
    ensures s[2] == '-' ==> t < 0 && s[3] != '0'
  {
    var s := "2^" + IntToDecimal(t);
    assert s[2..] == IntToDecimal(t) && s[2] == IntToDecimal(t)[0];
    s
  }

  /** The symbolic text is short: it has as many characters as t has digits, plus two. */
  lemma SolveLogNLength(t: int)
    requires t >= 1
    ensures Pow(10, |SolveLogN(t)| - 3) <= t < Pow(10, |SolveLogN(t)| - 2)
  {
    NatToDecimalLength(t);
    assert SolveLogN(t) == "2^" + NatToDecimal(t);
  }

  /** sqrt n: the bound t ** 2, an exact integer; the floor square root gives |t| back. */
  function SolveSqrtN(t: int): (r: nat)
    ensures r == Abs(t) * Abs(t)
    ensures ISqrt(r) == Abs(t)
  {
    var a := Abs(t);
    assert t * t == a * a;
    assert (a + 1) * (a + 1) == a * a + 2 * a + 1;
    ISqrtUnique(a * a, a);
    t * t
  }

  /** n: int() of an int budget is the budget itself. */
  function SolveN(t: int): (r: int)
    ensures r == t
  {
    t
  }

  /** The exact meaning of the test `n * log2(n) <= t` for n >= 1:
      n * log2(n) <= t  iff  log2(n^n) <= t  iff  n^n <= 2^t.
      It lies between the floor and ceiling readings of log2 n, and matches
      n * log2(n) <= t exactly when n is a power of two. */
  predicate FitsNLogN(n: nat, t: nat)
    ensures n >= 1 && FitsNLogN(n, t) ==> n * Log2(n) <= t
    ensures n >= 1 && n * (Log2(n) + 1) <= t ==> FitsNLogN(n, t)
    ensures n >= 1 && Pow(2, Log2(n)) == n ==> (FitsNLogN(n, t) <==> n * Log2(n) <= t)
  {
    NLogNBounds(n, t);
    Pow(n, n) <= Pow(2, t)
  }

  /** n^n <= 2^t is bracketed by n * floor(log2 n) <= t and n * (floor(log2 n) + 1) <= t. */
  lemma NLogNBounds(n: nat, t: nat)
    ensures n >= 1 && Pow(n, n) <= Pow(2, t) ==> n * Log2(n) <= t
    ensures n >= 1 && n * (Log2(n) + 1) <= t ==> Pow(n, n) <= Pow(2, t)
    ensures n >= 1 && Pow(2, Log2(n)) == n && n * Log2(n) <= t ==> Pow(n, n) <= Pow(2, t)
  {
    if n >= 1 {
      var k := Log2(n);
      if Pow(n, n) <= Pow(2, t) {
        NLogNLower(n, k, t);
      }
      if n * (k + 1) <= t {
        NLogNUpper(n, k + 1, t);
      }
      if Pow(2, k) == n && n * k <= t {
        NLogNUpper(n, k, t);
      }
    }
  }

  /** If 2^k <= n and n^n <= 2^t, then n * k <= t. */
  lemma NLogNLower(n: nat, k: nat, t: nat)
    requires Pow(2, k) <= n && Pow(n, n) <= Pow(2, t)
    ensures n * k <= t
  {
    PowMul(2, k, n);
    PowMonoBase(Pow(2, k), n, n);
    assert Pow(2, k * n) <= Pow(2, t);
    if k * n > t {
      PowStrictExp(2, t, k * n);
    }
  }

  /** If n <= 2^k and n * k <= t, then n^n <= 2^t. */
  lemma NLogNUpper(n: nat, k: nat, t: nat)
    requires n <= Pow(2, k) && n * k <= t
    ensures Pow(n, n) <= Pow(2, t)
  {
    PowMul(2, k, n);
    PowMonoBase(n, Pow(2, k), n);
    PowMonoExp(2, k * n, t);
  }

  /** log2(1) = 0, so n = 1 always fits. */
  lemma FitsNLogNOne(t: nat)
    ensures FitsNLogN(1, t)
  {
    PowPositive(2, t);
  }

  /** n * log2(n) grows with n, so fitting is closed downwards. */
  lemma FitsNLogNDownward(m: nat, n: nat, t: nat)
    requires 1 <= m <= n && FitsNLogN(n, t)
    ensures FitsNLogN(m, t)
  {
    PowMonoBase(m, n, m);
    PowMonoExp(n, m, n);
  }

  /** Above t nothing fits, since 2^t < 2^n <= n^n when 1 <= t < n. */
  lemma FitsNLogNAbove(n: nat, t: nat)
    requires 1 <= t < n
    ensures !FitsNLogN(n, t)
  {
    PowMonoBase(2, n, n);
    PowStrictExp(2, t, n);
  }

  /** The reference answer for n log n: scan k, k-1, ..., 1 for the first n that fits. */
  function LargestFitUpTo(t: nat, k: nat): nat
    requires k >= 1
    decreases k
  {
    if k == 1 || FitsNLogN(k, t) then k else LargestFitUpTo(t, k - 1)
  }

  lemma {:induction false} LargestFitUpToIsLargest(t: nat, k: nat)
    requires k >= 1
    ensures 1 <= LargestFitUpTo(t, k) <= k
    ensures FitsNLogN(LargestFitUpTo(t, k), t)
    ensures forall m: nat :: LargestFitUpTo(t, k) < m <= k ==> !FitsNLogN(m, t)
    decreases k
  {
    if k == 1 {
      FitsNLogNOne(t);
    } else if !FitsNLogN(k, t) {
      LargestFitUpToIsLargest(t, k - 1);
    }
  }

  /** n log n: binary search over [1, t] with the midpoint rounded up; lo always
      fits and nothing above hi does. */
  method SolveNLogN(t: int) returns (lo: int)
    ensures t < 1 ==> lo == 1
    ensures t >= 1 ==> 1 <= lo <= t && FitsNLogN(lo, t)
    ensures t >= 1 ==> forall n: nat :: lo < n ==> !FitsNLogN(n, t)
    ensures t >= 1 ==> lo == LargestFitUpTo(t, t)
  {
    var hi: int;
    lo, hi := 1, t;
    if t >= 1 {
      FitsNLogNOne(t);
      forall n: nat | t < n
        ensures !FitsNLogN(n, t)
      {
        FitsNLogNAbove(n, t);
      }
    }
    while lo < hi
      invariant 1 <= lo
      invariant t < 1 ==> lo == 1 && hi == t
      invariant t >= 1 ==> lo <= hi <= t && FitsNLogN(lo, t)
      invariant t >= 1 ==> forall n: nat :: hi < n ==> !FitsNLogN(n, t)
      decreases hi - lo
    {
      var mid := (lo + hi + 1) / 2;
      assert lo < mid <= hi;
      if FitsNLogN(mid, t) {
        lo := mid;
      } else {
        forall n: nat | mid <= n
          ensures !FitsNLogN(n, t)
        {
          if FitsNLogN(n, t) {
            FitsNLogNDownward(mid, n, t);
          }
        }
        hi := mid - 1;
      }
    }
    if t >= 1 {
      LargestFitUpToIsLargest(t, t);
    }
  }

  /** n^2: floor(sqrt(t)); math.sqrt rejects a negative t. */
  function SolveN2(t: int): (r: Result<nat>)
    ensures r.Ok? <==> t >= 0
    ensures r.Err? ==> r.failure == ValueError
    ensures r.Ok? ==> r.value * r.value <= t < (r.value + 1) * (r.value + 1)
  {
    if t < 0 then Err(ValueError) else Ok(ISqrt(t))
  }

  /** n^3, idealised: the exact floor of the cube root of t. A negative t has a
      complex cube root in Python, which int() rejects. */
  function SolveN3(t: int): (r: Result<nat>)
    ensures r.Ok? <==> t >= 0
    ensures r.Err? ==> r.failure == TypeError
    ensures r.Ok? ==> Cube(r.value) <= t < Cube(r.value + 1)
  {
    if t < 0 then Err(TypeError) else Ok(ICbrt(t))
  }

  /** 2^n: floor(log2(t)); math.log2 rejects t <= 0. */
  function SolveTwoN(t: int): (r: Result<nat>)
    ensures r.Ok? <==> t >= 1
    ensures r.Err? ==> r.failure == ValueError
    ensures r.Ok? ==> Pow(2, r.value) <= t < Pow(2, r.value + 1)
  {
    if t < 1 then Err(ValueError) else Ok(Log2(t))
  }

  /** n!: multiply 1 * 2 * ... until the product exceeds t, then step back one. */
  method SolveFact(t: int) returns (r: nat)
    ensures t < 1 ==> r == 0
    ensures t >= 1 ==> r >= 1 && Factorial(r) <= t < Factorial(r + 1)
  {
    var n: nat := 1;
    var fact: nat := 1;
    while fact <= t
      invariant n >= 1 && fact == Factorial(n)
      invariant n == 1 || Factorial(n - 1) <= t
      decreases t - fact
    {
      n := n + 1;
      fact := fact * n;
    }
    r := n - 1;
  }

  /** The 2^n solver undoes exponentiation: floor(log2(2^k)) == k. */
  lemma SolveTwoNInverse(k: nat)
    ensures SolveTwoN(Pow(2, k)) == Ok(k)
  {
    PowStrictExp(2, k, k + 1);
    Log2Unique(Pow(2, k), k);
  }

  /** The n^2 solver undoes squaring: floor(sqrt(k * k)) == k. */
  lemma SolveN2Inverse(k: nat)
    ensures SolveN2(k * k) == Ok(k)
  {
    assert (k + 1) * (k + 1) == k * k + 2 * k + 1;
    ISqrtUnique(k * k, k);
  }

  /** The idealised n^3 solver undoes cubing. */
  lemma SolveN3Inverse(k: nat)
    ensures SolveN3(Cube(k)) == Ok(k)
  {
    CubeStrictMono(k, k + 1);
    ICbrtUnique(Cube(k), k);
  }

  /** The n! solver's answer is fixed by its bracket: for k! with k >= 1 it is k,
      and for one second (10^6 microseconds) it is 9, since 9! = 362880 and 10! = 3628800. */
  lemma SolveFactAnswers(t: int, r: nat)
    requires t >= 1 && Factorial(r) <= t < Factorial(r + 1)
    ensures forall k: nat :: k >= 1 && t == Factorial(k) ==> r == k
    ensures t == 1_000_000 ==> r == 9
  {
    forall k: nat | k >= 1 && t == Factorial(k)
      ensures r == k
    {
      assert Factorial(k + 1) == (k + 1) * Factorial(k);
      MulMono(2, Factorial(k), k + 1, Factorial(k));
      FactorialBracketUnique(t, r, k);
    }
    if t == 1_000_000 {
      assert Factorial(9) == 362880 && Factorial(10) == 3628800;
      FactorialBracketUnique(t, r, 9);
    }
  }

  /** The closed-form solvers at one second (10^6 microseconds). */
  lemma OneSecondAnswers()
    ensures SolveN(1_000_000) == 1_000_000
    ensures SolveSqrtN(1_000_000) == 1_000_000_000_000
    ensures SolveN2(1_000_000) == Ok(1000)
    ensures SolveN3(1_000_000) == Ok(100)
    ensures SolveTwoN(1_000_000) == Ok(19)
  {
    OneSecondN2();
    OneSecondN3();
    OneSecondTwoN();
  }

  lemma OneSecondN2()
    ensures SolveN2(1_000_000) == Ok(1000)
  {
    SolveN2Inverse(1000);
  }

  lemma OneSecondN3()
    ensures SolveN3(1_000_000) == Ok(100)
  {
    assert Cube(100) == 1_000_000;
    SolveN3Inverse(100);
  }

  lemma OneSecondTwoN()
    ensures SolveTwoN(1_000_000) == Ok(19)
  {
    assert Pow(2, 10) == 1024 && Pow(2, 9) == 512;
    PowAdd(2, 10, 9);
    PowAdd(2, 10, 10);
    Log2Unique(1_000_000, 19);
  }
}
