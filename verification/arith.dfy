/**
  The four type-level operations built on the unary encoding: `Add`, `Sub`,
  `Mul` and `Div`. Each resolves to a number, to `never`, or (for `Div` with a
  zero divisor) to an expansion that never reaches a base case.
 */
module Arith {
  import opened Unary

  /** What the type checker makes of a type-level number expression: a number
      literal, `never`, or nothing at all because the recursive alias keeps
      expanding without ever reaching its base case. */
  datatype Resolution = Number(n: nat) | Never | Diverges

  /** The number an argument stands for; the recursive aliases shrink it. */
  function Rank(x: Resolution): (r: nat)
  {
    if x.Number? then x.n else 0
  }

  /** `Add<A, B>`: the length of the two encodings laid end to end. */
  function Add(a: nat, b: nat): (r: nat)
    ensures r == a + b
  {
    |NewArray(a) + NewArray(b)|
  }

  /** Laying two encodings end to end, in either order, gives the encoding of
      the sum; in particular `Add<A, 0>` is A and `Add` commutes. */
  lemma AddEncodesSum(a: nat, b: nat)
    ensures NewArray(a) + NewArray(b) == NewArray(a + b)
    ensures NewArray(a) + NewArray(b) == NewArray(b) + NewArray(a)
  {
    SameLengthSame(NewArray(a) + NewArray(b), NewArray(a + b));
    SameLengthSame(NewArray(b) + NewArray(a), NewArray(a + b));
  }

  /** `Sub<A, B>`: strip the encoding of B off the front of the encoding of A and
      read the rest; `never` when the pattern does not match. */
  function Sub(a: nat, b: nat): (r: Resolution)
    ensures r == if b <= a then Number(a - b) else Never
  {
    PrefixByLength(NewArray(b), NewArray(a));
    match Split(NewArray(a), NewArray(b))
    case Some(rest) => Number(|rest|)
    case None => Never
  }

  /** `Mul<A, B, Count>`: while B is not 0, append A placeholders to Count and
      continue with `Sub<B, 1>`; at 0, read Count. A `never` or unresolved B
      distributes through the conditional unchanged. */
  function MulFrom(a: nat, b: Resolution, count: Tuple): (r: Resolution)
    decreases Rank(b)
    ensures b.Number? ==> r == Number(|count| + a * b.n)
    ensures !b.Number? ==> r == b
  {
    match b
    case Never => Never
    case Diverges => Diverges
    case Number(k) =>
      if k == 0 then Number(|count|)
      else
        var r := MulFrom(a, Sub(k, 1), count + NewArray(a));
        assert a * k == a + a * (k - 1);
        r
  }

  /** `Mul<A, B>` with the default empty accumulator. */
  function Mul(a: nat, b: nat): (r: Resolution)
    ensures r == Number(a * b)
  {
    MulFrom(a, Number(b), [])
  }

  /** A positive multiple of b is at least b; `DivModUnique` rules out a second
      quotient with it. */
  lemma MulAtLeast(b: nat, d: int)
    requires d >= 1
    ensures b * d >= b
  {
  }

  /** Euclidean division has one quotient and one remainder. */
  lemma DivModUnique(n: int, b: int, q: int, m: int)
    requires b > 0 && 0 <= m < b && n == b * q + m
    ensures n / b == q && n % b == m
  {
    var q0, m0 := n / b, n % b;
    assert b * (q - q0) == m0 - m;
    if q > q0 {
      MulAtLeast(b, q - q0);
    } else if q < q0 {
      MulAtLeast(b, q0 - q);
    }
  }

  /** Taking b away from k keeps the remainder and lowers the quotient by one. */
  lemma SubDivMod(k: nat, b: nat)
    requires 0 < b <= k
    ensures (k - b) % b == k % b
    ensures (k - b) / b == k / b - 1
  {
    var q, m := k / b, k % b;
    assert k - b == b * (q - 1) + m;
    DivModUnique(k - b, b, q - 1, m);
  }

  /** One `Div` step that makes progress: B is positive, and either `Sub<A, B>`
      fails, in which case B does not divide A, or it leaves a smaller rest with
      the same remainder mod B and a quotient one lower. */
  lemma DivStep(k: nat, b: nat)
    requires 0 < k && Sub(k, b) != Number(k)
    ensures b > 0
    ensures Sub(k, b).Never? ==> k % b != 0
    ensures Sub(k, b).Number? ==>
      && Sub(k, b).n < k
      && Sub(k, b).n % b == k % b
      && Sub(k, b).n / b + 1 == k / b
  {
    if b <= k {
      SubDivMod(k, b);
    } else {
      DivModUnique(k, b, 0, k);
    }
  }

  /** `Div<A, B, Count>`: while A is not 0, add one placeholder to Count and
      continue with `Sub<A, B>`; at 0, read Count. When `Sub<A, B>` fails the
      `never` distributes through the conditional, so the result is `never`.
      When `Sub<A, B>` gives A back (B is 0) every later step sees the same A,
      so the base case is never reached. */
  function DivFrom(a: Resolution, b: nat, count: Tuple): (r: Resolution)
    decreases Rank(a)
    ensures !a.Number? ==> r == a
    ensures a.Number? && a.n == 0 ==> r == Number(|count|)
    ensures a.Number? && a.n > 0 && b == 0 ==> r == Diverges
    ensures a.Number? && b > 0 ==>
      r == if a.n % b == 0 then Number(|count| + a.n / b) else Never
  {
    match a
    case Never => Never
    case Diverges => Diverges
    case Number(k) =>
      if k == 0 then Number(|count|)
      else
        var next := Sub(k, b);
        if next == a then Diverges
        else
          DivStep(k, b);
          DivFrom(next, b, count + [()])
  }

  /** `Div<A, B>` with the default empty accumulator. */
  function Div(a: nat, b: nat): (r: Resolution)
    ensures r.Number? <==> a == 0 || (b > 0 && a % b == 0)
    ensures r.Diverges? <==> a > 0 && b == 0
    ensures a == 0 ==> r == Number(0)
    ensures r.Number? ==> r.n * b == a
  {
    DivFrom(Number(a), b, [])
  }

  /** The alias `a` at the end of the file: `Div<30, 5>` is 6. */
  lemma DivThirtyByFive()
    ensures Div(30, 5) == Number(6)
  {
  }

  /** Stripping B off A + B gives A back, and adding B back to A - B gives A. */
  lemma AddSubInverse(a: nat, b: nat)
    ensures Sub(Add(a, b), b) == Number(a)
    ensures Sub(a, b).Number? ==> Add(Sub(a, b).n, b) == a
  {
  }

  /** Dividing a product by a nonzero factor gives the other factor back. */
  lemma DivOfMul(a: nat, b: nat)
    requires b > 0
    ensures Div(Mul(a, b).n, b) == Number(a)
  {
    DivModUnique(a * b, b, a, 0);
  }

  /** Whenever `Div<A, B>` yields a count, multiplying it back by B gives A. */
  lemma MulOfDiv(a: nat, b: nat)
    requires Div(a, b).Number?
    ensures Mul(Div(a, b).n, b) == Number(a)
  {
  }

  /** The literal expansion of `Div<A, B, Count>`, at most `fuel` steps deep and
      without the no-progress shortcut of `DivFrom`: `None` when the fuel runs
      out before a base case is reached. */
  function DivUnfold(a: Resolution, b: nat, count: Tuple, fuel: nat): (r: Option<Resolution>)
    decreases fuel
  {
    if fuel == 0 then None
    else
      match a
      case Never => Some(Never)
      case Diverges => None
      case Number(k) =>
        if k == 0 then Some(Number(|count|))
        else DivUnfold(Sub(k, b), b, count + [()], fuel - 1)
  }

  /** When `DivFrom` resolves, the literal expansion reaches the same answer
      within A + 1 steps. */
  lemma {:induction false} DivUnfoldAgrees(a: Resolution, b: nat, count: Tuple, fuel: nat)
    requires !DivFrom(a, b, count).Diverges?
    requires fuel > Rank(a)
    decreases fuel
    ensures DivUnfold(a, b, count, fuel) == Some(DivFrom(a, b, count))
  {
    match a
    case Never =>
    case Number(k) =>
      if k > 0 {
        DivUnfoldAgrees(Sub(k, b), b, count + [()], fuel - 1);
      }
  }

  /** When `DivFrom` reports divergence, no amount of expansion reaches a base
      case. */
  lemma {:induction false} DivUnfoldRunsOut(a: Resolution, b: nat, count: Tuple, fuel: nat)
    requires DivFrom(a, b, count).Diverges?
    decreases fuel
    ensures DivUnfold(a, b, count, fuel) == None
  {
    if fuel > 0 && a.Number? {
      DivUnfoldRunsOut(a, b, count + [()], fuel - 1);
    }
  }
}
