/** The `FUNCTIONS` table: each growth function paired with its solver, and the
    one law every solver obeys once its float operations are read exactly: it
    returns the largest n with f(n) <= t. */
module ComplexityMap {
  import opened Arith
  import opened Decimal
  import opened Budgets
  import opened Solvers

  datatype Growth = LogN | SqrtN | N | NLogN | NSquared | NCubed | TwoN | NFactorial

  /** The growth functions in declaration order. */
  const FUNCTIONS: seq<Growth> := [LogN, SqrtN, N, NLogN, NSquared, NCubed, TwoN, NFactorial]

  /** The row label of each growth function. */
  function Name(g: Growth): string
  {
    match g
    case LogN => "log n"
    case SqrtN => "\U{221A}n"
    case N => "n"
    case NLogN => "n log n"
    case NSquared => "n\U{00B2}"
    case NCubed => "n\U{00B3}"
    case TwoN => "2\U{207F}"
    case NFactorial => "n!"
  }

  /** Eight rows, every growth function once, with distinct labels. */
  lemma FunctionsShape()
    ensures |FUNCTIONS| == 8
    ensures forall g: Growth :: g in FUNCTIONS
    ensures forall i, j :: 0 <= i < j < |FUNCTIONS| ==> FUNCTIONS[i] != FUNCTIONS[j]
    ensures forall i, j :: 0 <= i < j < |FUNCTIONS| ==> Name(FUNCTIONS[i]) != Name(FUNCTIONS[j])
  {
    forall g: Growth
      ensures g in FUNCTIONS
    {
      match g
      case LogN => assert FUNCTIONS[0] == g;
      case SqrtN => assert FUNCTIONS[1] == g;
      case N => assert FUNCTIONS[2] == g;
      case NLogN => assert FUNCTIONS[3] == g;
      case NSquared => assert FUNCTIONS[4] == g;
      case NCubed => assert FUNCTIONS[5] == g;
      case TwoN => assert FUNCTIONS[6] == g;
      case NFactorial => assert FUNCTIONS[7] == g;
    }
  }

  /** What a solver returns: a number, or for log n the symbolic text "2^t". */
  datatype Bound = Symbolic(text: string) | Exact(n: int)

  /** The number a bound stands for; the text "2^k" stands for 2^k. */
  function Value(b: Bound): int
  {
    match b
    case Exact(n) => n
    case Symbolic(text) =>
      if |text| > 2 && text[..2] == "2^" && IsDecimalInt(text[2..]) && ParseInt(text[2..]) >= 0
      then Pow(2, ParseInt(text[2..]))
      else -1
  }

  /** f(n) <= t for the growth function g, stated over the integers. */
  predicate Within(g: Growth, n: nat, t: int)
  {
    match g
    case LogN => t >= 0 && n <= Pow(2, t)      // log2 n <= t
    case SqrtN => t >= 0 && n <= t * t          // sqrt n <= t
    case N => n <= t
    case NLogN => t >= 0 && FitsNLogN(n, t)     // n log2 n <= t
    case NSquared => n * n <= t
    case NCubed => Cube(n) <= t
    case TwoN => Pow(2, n) <= t
    case NFactorial => Factorial(n) <= t
  }

  /** n is the largest problem size that fits the budget t. */
  ghost predicate IsLargest(g: Growth, t: int, n: int)
  {
    n >= 0 && Within(g, n, t) && forall m: nat :: n < m ==> !Within(g, m, t)
  }

  /** The budgets for which the solver of g raises no exception. */
  predicate InDomain(g: Growth, t: int)
  {
    match g
    case NSquared => t >= 0
    case NCubed => t >= 0
    case TwoN => t >= 1
    case _ => true
  }

  lemma LogNLargest(t: int)
    requires t >= 0
    ensures Value(Symbolic(SolveLogN(t))) == Pow(2, t)
    ensures IsLargest(LogN, t, Pow(2, t))
  {
  }

  lemma SqrtNLargest(t: int)
    requires t >= 0
    ensures IsLargest(SqrtN, t, SolveSqrtN(t))
  {
  }

  lemma NLargest(t: int)
    requires t >= 0
    ensures IsLargest(N, t, SolveN(t))
  {
  }

  lemma NSquaredLargest(t: int)
    requires t >= 0
    ensures SolveN2(t).Ok? && IsLargest(NSquared, t, SolveN2(t).value)
  {
    var r := SolveN2(t).value;
    forall m: nat | r < m
      ensures !Within(NSquared, m, t)
    {
      SquareMono(r + 1, m);
    }
  }

  lemma NCubedLargest(t: int)
    requires t >= 0
    ensures SolveN3(t).Ok? && IsLargest(NCubed, t, SolveN3(t).value)
  {
    var r := SolveN3(t).value;
    forall m: nat | r < m
      ensures !Within(NCubed, m, t)
    {
      CubeMono(r + 1, m);
    }
  }

  lemma TwoNLargest(t: int)
    requires t >= 1
    ensures SolveTwoN(t).Ok? && IsLargest(TwoN, t, SolveTwoN(t).value)
  {
    var r := SolveTwoN(t).value;
    forall m: nat | r < m
      ensures !Within(TwoN, m, t)
    {
      PowMonoExp(2, r + 1, m);
    }
  }

  /** The bracket r! <= t < (r+1)! makes r the largest n with n! <= t. */
  lemma NFactorialLargest(t: int, r: nat)
    requires Factorial(r) <= t < Factorial(r + 1)
    ensures IsLargest(NFactorial, t, r)
  {
    forall m: nat | r < m
      ensures !Within(NFactorial, m, t)
    {
      FactorialMono(r + 1, m);
    }
  }

  /** Look up the solver of g and apply it to the budget t. */
  method Solve(g: Growth, t: int) returns (r: Result<Bound>)
    ensures r.Ok? <==> InDomain(g, t)
    ensures r.Err? ==> r.failure == (if g == NCubed then TypeError else ValueError)
    ensures r.Ok? ==> (r.value.Symbolic? <==> g == LogN)
    ensures g == NLogN && t < 1 ==> r == Ok(Exact(1))
    ensures g == NFactorial && t < 1 ==> r == Ok(Exact(0))
    ensures t >= 1 ==> r.Ok? && IsLargest(g, t, Value(r.value))
  {
    match g
    case LogN =>
      r := Ok(Symbolic(SolveLogN(t)));
      if t >= 1 {
        LogNLargest(t);
      }
    case SqrtN =>
      r := Ok(Exact(SolveSqrtN(t)));
      if t >= 0 {
        SqrtNLargest(t);
      }
    case N =>
      r := Ok(Exact(SolveN(t)));
      if t >= 0 {
        NLargest(t);
      }
    case NLogN =>
      var n := SolveNLogN(t);
      r := Ok(Exact(n));
    case NSquared =>
      r := match SolveN2(t) case Ok(n) => Ok(Exact(n)) case Err(e) => Err(e);
      if t >= 0 {
        NSquaredLargest(t);
      }
    case NCubed =>
      r := match SolveN3(t) case Ok(n) => Ok(Exact(n)) case Err(e) => Err(e);
      if t >= 0 {
        NCubedLargest(t);
      }
    case TwoN =>
      r := match SolveTwoN(t) case Ok(n) => Ok(Exact(n)) case Err(e) => Err(e);
      if t >= 1 {
        TwoNLargest(t);
      }
    case NFactorial =>
      var n := SolveFact(t);
      r := Ok(Exact(n));
      if t >= 1 {
        NFactorialLargest(t, n);
      }
  }

  /** Every budget of the table lies in every solver's domain, so no cell of the
      table raises an exception. */
  lemma BudgetsInDomain()
    ensures forall i, g :: 0 <= i < |TIMES| ==> TIMES[i].micros >= 1 && InDomain(g, TIMES[i].micros)
  {
    TimesShape();
  }
}
