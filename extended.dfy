/** The weights of the covering code are rationals, except that a degenerate
    coset has Sage's `Infinity` as weight.  `ExtReal` makes that sentinel an
    explicit case instead of a number. */
module Extended {
  import opened NumberTheory

  datatype ExtReal = Finite(value: real) | Infinity

  /** Sage's `+` on rationals and `+Infinity`. */
  function Plus(x: ExtReal, y: ExtReal): (r: ExtReal)
    ensures r.Finite? <==> x.Finite? && y.Finite?
    ensures r.Finite? ==> r.value == x.value + y.value
  {
    if x.Finite? && y.Finite? then Finite(x.value + y.value) else Infinity
  }

  /** `x < r` for a rational r: never true of Infinity. */
  predicate Below(x: ExtReal, r: real) {
    x.Finite? && x.value < r
  }

  /** `2*(w-1)`, which stays Infinity when w is. */
  function TwiceExcess(w: ExtReal): (r: ExtReal)
    ensures r.Finite? <==> w.Finite?
    ensures r.Finite? ==> r.value == 2.0 * (w.value - 1.0)
  {
    match w
    case Finite(v) => Finite(2.0 * (v - 1.0))
    case Infinity => Infinity
  }

  /** `x > y` on the extended rationals: Infinity exceeds every rational
      and does not exceed itself. */
  predicate Exceeds(x: ExtReal, y: ExtReal) {
    match (x, y)
    case (Finite(a), Finite(b)) => a > b
    case (Infinity, Finite(_)) => true
    case (_, Infinity) => false
  }

  // ---------------------------------------------------------------------
  // Rational weights 1/n and their sums

  /** 1/n. */
  function Recip(n: nat): (r: real)
    requires n > 0
    ensures r > 0.0 && r * (n as real) == 1.0
  {
    1.0 / (n as real)
  }

  /** k copies of x added up.  Sums of weights are stated with it, which
      keeps the reasoning about them linear. */
  function Times(x: real, k: nat): real {
    if k == 0 then 0.0 else Times(x, k - 1) + x
  }

  lemma {:induction false} TimesAdd(x: real, a: nat, b: nat)
    ensures Times(x, a + b) == Times(x, a) + Times(x, b)
    decreases b
  {
    if b > 0 {
      TimesAdd(x, a, b - 1);
    }
  }

  lemma {:induction false} TimesIsProduct(x: real, k: nat)
    ensures Times(x, k) == x * (k as real)
    decreases k
  {
    if k > 0 {
      TimesIsProduct(x, k - 1);
      assert (k as real) == ((k - 1) as real) + 1.0;
      assert x * (((k - 1) as real) + 1.0) == x * ((k - 1) as real) + x;
    }
  }

  /** 1/N is k copies of 1/(N*k). */
  lemma RecipSplit(n: nat, k: nat)
    requires n > 0 && k > 0
    ensures n * k > 0 && Recip(n) == Times(Recip(n * k), k)
  {
    MulSigns(n, k);
    var m: nat := n * k;
    var q := Recip(m);
    TimesIsProduct(q, k);
    CastMul(n, k);
    assert q * ((n as real) * (k as real)) == 1.0;
    assert (q * (k as real)) * (n as real) == 1.0;
    var p := Recip(n);
    assert (q * (k as real) - p) * (n as real) == 0.0;
  }

  lemma CastMul(a: int, b: int)
    ensures (a * b) as real == (a as real) * (b as real)
  {
  }

  /** n units of 1/n make 1. */
  lemma TimesRecip(n: nat)
    requires n > 0
    ensures Times(Recip(n), n) == 1.0
  {
    TimesIsProduct(Recip(n), n);
  }

  /** At least M units of 1/M make at least 1. */
  lemma TimesAtLeastOne(M: nat, s: nat)
    requires M > 0 && s >= M
    ensures Times(Recip(M), s) >= 1.0
  {
    TimesAdd(Recip(M), M, s - M);
    TimesIsProduct(Recip(M), M);
    TimesIsProduct(Recip(M), s - M);
    MulSigns(0, 0);
    assert Recip(M) * ((s - M) as real) >= 0.0;
  }

  lemma {:induction false} TimesNonneg(x: real, k: nat)
    requires x >= 0.0
    ensures Times(x, k) >= 0.0
    decreases k
  {
    if k > 0 {
      TimesNonneg(x, k - 1);
    }
  }

}
