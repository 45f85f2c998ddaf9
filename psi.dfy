/** The Dedekind psi function, psi(N) = N * prod_{p | N} (1 + 1/p), which is the
    index of Gamma_0(N) in SL_2(Z) and the number of cyclic sublattices of
    index N in Z^2.  Sage computes it as `Gamma0(N).index()`. */
module DedekindPsi {
  import opened NumberTheory

  /** The smallest divisor of n that is at least d. */
  function MinFactor(n: nat, d: nat): (p: nat)
    requires 2 <= d <= n
    ensures d <= p <= n && n % p == 0
    ensures forall e :: d <= e < p ==> n % e != 0
    decreases n - d
  {
    if n % d == 0 then d else MinFactor(n, d + 1)
  }

  /** Splits n as q * m where q is the full power of p dividing n. */
  function SplitPower(n: nat, p: nat): (r: (nat, nat))
    requires n >= 1 && p >= 2
    ensures r.0 * r.1 == n && r.0 >= 1 && r.1 >= 1 && r.1 % p != 0
    ensures n % p == 0 ==> r.0 >= p
    decreases n
  {
    if n % p == 0 then
      assert n == p * (n / p);
      var t := SplitPower(n / p, p);
      assert p * t.0 * t.1 == p * (t.0 * t.1);
      MulSigns(p - 1, t.0);
      (p * t.0, t.1)
    else
      (1, n)
  }

  /** psi(N) for N >= 1, one prime power at a time:
      psi(p^k * m) = (p^k + p^(k-1)) * psi(m) when p does not divide m.
      Every N >= 2 has psi(N) > N; only psi(1) = 1. */
  function Psi(n: nat): (r: nat)
    requires n >= 1
    ensures r >= n
    ensures n >= 2 ==> r > n
    decreases n
  {
    if n == 1 then 1
    else
      var p := MinFactor(n, 2);
      var t := SplitPower(n, p);
      var q, m := t.0, t.1;
      MulSigns(q - 2, m);
      assert m < n;
      var rest := Psi(m);
      StepBound(q, q / p, m, rest);
      (q + q / p) * rest
  }

  lemma StepBound(q: nat, k: nat, m: nat, rest: nat)
    requires k >= 1 && rest >= m
    ensures (q + k) * rest >= q * m + m
  {
    var d := rest - m;
    MulSigns(q + k, d);
    MulSigns(k - 1, m);
    DistribLeft(q + k, d, m);
    DistribRight(q, k, m);
    DistribRight(k - 1, 1, m);
  }

  lemma DistribLeft(a: int, b: int, c: int)
    ensures a * (b + c) == a * b + a * c
  {
  }

  lemma DistribRight(a: int, b: int, c: int)
    ensures (a + b) * c == a * c + b * c
  {
  }

  /** psi(p) = p + 1 for a prime p. */
  lemma PsiPrime(p: nat)
    requires IsPrime(p)
    ensures Psi(p) == p + 1
  {
    var f := MinFactor(p, 2);
    assert f == p;
    var t := SplitPower(p, p);
    assert SplitPower(1, p) == (1, 1);
    assert t == (p, 1);
  }
}
