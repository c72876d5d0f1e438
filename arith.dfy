/** Exact integer meanings of the numeric operations the solvers rely on:
    powers, factorials, floor log2, floor square root and floor cube root. */
module Arith {

  /** b raised to the power e. */
  function Pow(b: nat, e: nat): nat
  {
    if e == 0 then 1 else b * Pow(b, e - 1)
  }

  /** n! */
  function Factorial(n: nat): (f: nat)
    ensures f >= 1
  {
    if n == 0 then 1 else n * Factorial(n - 1)
  }

  function Cube(x: int): int
  {
    x * x * x
  }

  lemma MulMono(a: nat, x: nat, b: nat, y: nat)
    requires a <= b && x <= y
    ensures a * x <= b * y
  {
    assert a * x <= b * x;
    assert b * x <= b * y;
  }

  lemma SquareMono(a: nat, b: nat)
    requires a <= b
    ensures a * a <= b * b
  {
    MulMono(a, a, b, b);
  }

  lemma CubeMono(a: nat, b: nat)
    requires a <= b
    ensures Cube(a) <= Cube(b)
  {
    MulMono(a, a, b, b);
    MulMono(a * a, a, b * b, b);
  }

  lemma CubeStrictMono(a: nat, b: nat)
    requires a < b
    ensures Cube(a) < Cube(b)
  {
    SquareMono(a, b);
    MulMono(a * a, a, b * b, a);
    assert b * b >= 1;
    assert (b * b) * a < (b * b) * b;
  }

  lemma {:induction false} PowPositive(b: nat, e: nat)
    requires b >= 1
    ensures Pow(b, e) >= 1
  {
    if e > 0 {
      PowPositive(b, e - 1);
      MulMono(1, 1, b, Pow(b, e - 1));
    }
  }

  lemma {:induction false} PowAdd(b: nat, i: nat, j: nat)
    ensures Pow(b, i + j) == Pow(b, i) * Pow(b, j)
    decreases j
  {
    if j > 0 {
      PowAdd(b, i, j - 1);
      assert Pow(b, i + j) == b * Pow(b, i + j - 1);
      assert Pow(b, i) * Pow(b, j) == Pow(b, i) * (b * Pow(b, j - 1));
    }
  }

  lemma {:induction false} PowMul(b: nat, i: nat, j: nat)
    ensures Pow(b, i * j) == Pow(Pow(b, i), j)
    decreases j
  {
    if j > 0 {
      PowMul(b, i, j - 1);
      assert i * j == i * (j - 1) + i;
      PowAdd(b, i * (j - 1), i);
    }
  }

  /** A larger base gives a larger power. */
  lemma {:induction false} PowMonoBase(a: nat, b: nat, e: nat)
    requires a <= b
    ensures Pow(a, e) <= Pow(b, e)
  {
    if e > 0 {
      PowMonoBase(a, b, e - 1);
      MulMono(a, Pow(a, e - 1), b, Pow(b, e - 1));
    }
  }

  /** A larger exponent gives a larger power, for a positive base. */
  lemma {:induction false} PowMonoExp(b: nat, i: nat, j: nat)
    requires b >= 1 && i <= j
    ensures Pow(b, i) <= Pow(b, j)
  {
    if i < j {
      PowMonoExp(b, i, j - 1);
      PowPositive(b, j - 1);
      MulMono(1, Pow(b, j - 1), b, Pow(b, j - 1));
    }
  }

  /** A larger exponent gives a strictly larger power, for a base of at least 2. */
  lemma {:induction false} PowStrictExp(b: nat, i: nat, j: nat)
    requires b >= 2 && i < j
    ensures Pow(b, i) < Pow(b, j)
  {
    PowMonoExp(b, i, j - 1);
    PowPositive(b, j - 1);
    MulMono(2, Pow(b, j - 1), b, Pow(b, j - 1));
  }

  lemma {:induction false} FactorialMono(i: nat, j: nat)
    requires i <= j
    ensures Factorial(i) <= Factorial(j)
  {
    if i < j {
      FactorialMono(i, j - 1);
      MulMono(1, Factorial(j - 1), j, Factorial(j - 1));
    }
  }

  /** At most one r satisfies r! <= t < (r+1)!. */
  lemma FactorialBracketUnique(t: int, r: nat, s: nat)
    requires Factorial(r) <= t < Factorial(r + 1)
    requires Factorial(s) <= t < Factorial(s + 1)
    ensures r == s
  {
    if s < r {
      FactorialMono(s + 1, r);
    } else if r < s {
      FactorialMono(r + 1, s);
    }
  }

  /** Floor of log2 t: the exponent of the largest power of two not above t. */
  function Log2(t: nat): (r: nat)
    requires t >= 1
    ensures Pow(2, r) <= t < Pow(2, r + 1)
    decreases t
  {
    if t == 1 then 0 else 1 + Log2(t / 2)
  }

  /** At most one r satisfies 2^r <= t < 2^(r+1). */
  lemma PowBracketUnique(t: nat, r: nat, s: nat)
    requires Pow(2, r) <= t < Pow(2, r + 1)
    requires Pow(2, s) <= t < Pow(2, s + 1)
    ensures r == s
  {
    if s < r {
      PowMonoExp(2, s + 1, r);
    } else if r < s {
      PowMonoExp(2, r + 1, s);
    }
  }

  lemma Log2Unique(t: nat, r: nat)
    requires Pow(2, r) <= t < Pow(2, r + 1)
    ensures t >= 1 && Log2(t) == r
  {
    PowPositive(2, r);
    PowBracketUnique(t, r, Log2(t));
  }

  /** Floor of the square root of t. */
  function ISqrt(t: nat): (r: nat)
    ensures r * r <= t < (r + 1) * (r + 1)
    decreases t
  {
    if t == 0 then 0
    else
      var s := ISqrt(t / 4);
      assert (2 * s) * (2 * s) == 4 * (s * s);
      assert (2 * s + 2) * (2 * s + 2) == 4 * ((s + 1) * (s + 1));
      if (2 * s + 1) * (2 * s + 1) <= t then 2 * s + 1 else 2 * s
  }

  lemma ISqrtUnique(t: nat, r: nat)
    requires r * r <= t < (r + 1) * (r + 1)
    ensures ISqrt(t) == r
  {
    var s := ISqrt(t);
    if s < r {
      SquareMono(s + 1, r);
    } else if r < s {
      SquareMono(r + 1, s);
    }
  }

  /** Floor of the cube root of t. */
  function ICbrt(t: nat): (r: nat)
    ensures Cube(r) <= t < Cube(r + 1)
    decreases t
  {
    if t == 0 then 0
    else
      var s := ICbrt(t / 8);
      assert Cube(2 * s) == 8 * Cube(s);
      assert Cube(2 * s + 2) == 8 * Cube(s + 1);
      if Cube(2 * s + 1) <= t then 2 * s + 1 else 2 * s
  }

  lemma ICbrtUnique(t: nat, r: nat)
    requires Cube(r) <= t < Cube(r + 1)
    ensures ICbrt(t) == r
  {
    var s := ICbrt(t);
    if s < r {
      CubeMono(s + 1, r);
      assert false;
    } else if r < s {
      CubeMono(r + 1, s);
      assert false;
    }
  }
}
