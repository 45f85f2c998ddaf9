/** The search for index sequences of strongly minimal coverings: the weight
    equation sum 1/psi(N_i) = 1 is solved over values of psi below a bound,
    the solutions are expanded to indices through an inverse table of psi,
    and the index lists that fail one of several necessary conditions are
    discarded. */
module Weights {
  import opened NumberTheory
  import opened Extended
  import opened DedekindPsi

  /** psi extended to 0 with the value 1, as the search uses it. */
  function PsiW(n: nat): (r: nat)
    ensures r >= 1 && r >= n
    ensures n >= 2 ==> r > n
  {
    if n == 0 then 1 else Psi(n)
  }

  /** psi is not increasing: psi(6) = 12 but psi(7) = 8. */
  lemma PsiNotIncreasing()
    ensures PsiW(0) == 1
    ensures PsiW(6) == 12 && PsiW(7) == 8
  {
    assert MinFactor(6, 2) == 2;
    assert SplitPower(3, 2) == (1, 3);
    assert SplitPower(6, 2) == (2, 3);
    assert MinFactor(3, 2) == 3;
    assert SplitPower(1, 3) == (1, 1);
    assert SplitPower(3, 3) == (3, 1);
    assert Psi(3) == 4;
    assert MinFactor(7, 2) == 7;
    assert SplitPower(1, 7) == (1, 1);
    assert SplitPower(7, 7) == (7, 1);
  }

  // ---------------------------------------------------------------------
  // The inverse table of psi

  /** Only values of psi below this bound are tabulated. */
  const PsiMax: nat := 100

  predicate Increasing(r: seq<nat>) {
    forall i, j :: 0 <= i < j < |r| ==> r[i] < r[j]
  }

  /** r lists, in increasing order, exactly the N in [1, hi) with
      psi(N) = M. */
  ghost predicate ListsPreimage(r: seq<nat>, M: nat, hi: nat) {
    (forall x :: x in r <==> 1 <= x < hi && Psi(x) == M) && Increasing(r)
  }

  /** The table the search looks values of psi up in: every key below the
      bound is present and lists the preimage of psi at that key. */
  ghost predicate TableOk(tab: map<nat, seq<nat>>) {
    forall M: nat :: M < PsiMax ==> M in tab && ListsPreimage(tab[M], M, PsiMax)
  }

  /** Builds the inverse table by scanning N = 1 .. PsiMax - 1 once and
      appending N to the entry of psi(N) when that value is tabulated. */
  method BuildPsiInvTab() returns (tab: map<nat, seq<nat>>)
    ensures forall M: nat :: M in tab <==> M < PsiMax
    ensures TableOk(tab)
  {
    tab := map[];
    var m := 0;
    while m < PsiMax
      invariant 0 <= m <= PsiMax
      invariant forall M: nat :: M in tab <==> M < m
      invariant forall M :: M in tab ==> tab[M] == []
    {
      tab := tab[m := []];
      m := m + 1;
    }
    var n := 1;
    while n < PsiMax
      invariant 1 <= n <= PsiMax
      invariant forall M: nat :: M in tab <==> M < PsiMax
      invariant forall M :: M in tab ==> ListsPreimage(tab[M], M, n)
    {
      var psiN := Psi(n);
      if psiN < PsiMax {
        AppendPreimage(tab[psiN], psiN, n);
        tab := tab[psiN := tab[psiN] + [n]];
      }
      n := n + 1;
    }
  }

  lemma AppendPreimage(r: seq<nat>, M: nat, n: nat)
    requires n >= 1 && ListsPreimage(r, M, n) && Psi(n) == M
    ensures ListsPreimage(r + [n], M, n + 1)
  {
    var r' := r + [n];
    forall i, j | 0 <= i < j < |r'| ensures r'[i] < r'[j] {
      assert r'[i] in r;
      if j < |r| {
        assert r'[j] == r[j];
      }
    }
  }

  /** Since psi(N) >= N, a tabulated entry lists every solution of
      psi(N) = M, not only those below the bound. */
  lemma TableComplete(tab: map<nat, seq<nat>>, M: nat, x: nat)
    requires TableOk(tab) && M < PsiMax
    ensures x in tab[M] <==> x >= 1 && Psi(x) == M
  {
    if x >= 1 && Psi(x) == M {
      assert x <= Psi(x);
    }
  }

  /** M is a value of psi at an argument below the bound. */
  ghost predicate IsPsiValue(M: nat) {
    exists x :: 1 <= x < PsiMax && Psi(x) == M
  }

  /** An entry of the table is empty exactly when its key is not a value
      of psi. */
  lemma TableLookup(tab: map<nat, seq<nat>>, M: nat)
    requires TableOk(tab) && M < PsiMax
    ensures M in tab && (tab[M] == [] <==> !IsPsiValue(M))
  {
    var r := tab[M];
    assert ListsPreimage(r, M, PsiMax);
    if IsPsiValue(M) {
      var x :| 1 <= x < PsiMax && Psi(x) == M;
      assert x in r;
    }
    if r != [] {
      assert r[0] in r;
    }
  }

  lemma PsiValuePositive(M: nat)
    requires IsPsiValue(M)
    ensures M >= 1
  {
  }

  // ---------------------------------------------------------------------
  // Sums of reciprocals

  /** sum of 1/s[i]. */
  function SumRecip(s: seq<nat>): real
    requires forall i :: 0 <= i < |s| ==> s[i] >= 1
  {
    if s == [] then 0.0 else Recip(s[0]) + SumRecip(s[1..])
  }

  function Repeat(m: nat, n: nat): (r: seq<nat>)
    ensures |r| == n && forall i :: 0 <= i < n ==> r[i] == m
  {
    seq(n, i => m)
  }

  /** A solution of the weight equation as the search enumerates it: n
      weakly increasing values of psi in [lo, PsiMax) whose reciprocals add
      up to total. */
  ghost predicate WeightSolution(s: seq<nat>, n: nat, total: real, lo: nat) {
    n >= 1 && |s| == n
    && (forall i :: 0 <= i < n ==> 1 <= s[i] && lo <= s[i] < PsiMax && IsPsiValue(s[i]))
    && (forall i, j :: 0 <= i <= j < n ==> s[i] <= s[j])
    && SumRecip(s) == total
  }

  /** 1/x <= 1/m when m <= x, with equality only at x = m. */
  lemma RecipAntitone(m: nat, x: nat)
    requires 1 <= m <= x
    ensures Recip(x) <= Recip(m)
    ensures Recip(x) == Recip(m) ==> m == x
  {
    var rx, rm := Recip(x), Recip(m);
    var d := (x - m) as real;
    assert rx * (m as real) + rx * d == 1.0;
    assert rx * d >= 0.0;
    assert rx * (m as real) <= rm * (m as real);
    if rx == rm {
      assert rx * d == 0.0;
    }
  }

  /** m * total compared with n is total compared with n copies of 1/m. */
  lemma ScaleBound(m: nat, total: real, n: nat)
    requires m >= 1
    ensures total <= Times(Recip(m), n) <==> (m as real) * total <= n as real
    ensures total == Times(Recip(m), n) <==> (m as real) * total == n as real
  {
    TimesIsProduct(Recip(m), n);
    var r := Recip(m);
    var mr := m as real;
    var q := r * (n as real);
    assert q == Times(Recip(m), n);
    assert mr * q == (mr * r) * (n as real);
    assert mr * q == n as real;
    var d := total - q;
    MulPos(mr, d);
    var md := mr * d;
    assert md == mr * total - mr * q;
    assert md == mr * total - n as real;
    assert total <= q <==> md <= 0.0;
    assert total == q <==> md == 0.0;
  }

  lemma MulPos(m: real, d: real)
    requires m > 0.0
    ensures d > 0.0 ==> m * d > 0.0
    ensures d == 0.0 ==> m * d == 0.0
    ensures d < 0.0 ==> m * d < 0.0
  {
  }

  /** Values that are all at least m have reciprocals adding up to at most
      |s| copies of 1/m, with equality only when every value is m. */
  lemma {:induction false} SumBound(s: seq<nat>, m: nat)
    requires m >= 1 && forall i :: 0 <= i < |s| ==> s[i] >= m
    ensures SumRecip(s) <= Times(Recip(m), |s|)
    ensures SumRecip(s) == Times(Recip(m), |s|) ==> forall i :: 0 <= i < |s| ==> s[i] == m
  {
    if s != [] {
      var rest := s[1..];
      assert forall i :: 0 <= i < |rest| ==> rest[i] == s[i + 1];
      SumBound(rest, m);
      RecipAntitone(m, s[0]);
      if SumRecip(s) == Times(Recip(m), |s|) {
        forall i | 0 <= i < |s| ensures s[i] == m {
          if i > 0 {
            assert s[i] == rest[i - 1];
          }
        }
      }
    }
  }

  lemma {:induction false} SumPositive(s: seq<nat>)
    requires |s| >= 1 && forall i :: 0 <= i < |s| ==> s[i] >= 1
    ensures SumRecip(s) > 0.0
  {
    if |s| > 1 {
      SumPositive(s[1..]);
    }
  }

  lemma {:induction false} RepeatSum(m: nat, k: nat)
    requires m >= 1
    ensures SumRecip(Repeat(m, k)) == Times(Recip(m), k)
    decreases k
  {
    if k > 0 {
      var s := Repeat(m, k);
      assert s[1..] == Repeat(m, k - 1);
      RepeatSum(m, k - 1);
    }
  }

  // ---------------------------------------------------------------------
  // What the loop of the solver relies on

  /** The smallest value s[0] of a solution is at most n/total: the total
      is at most n copies of 1/s[0], and only the constant solution reaches
      that. */
  lemma FirstBound(s: seq<nat>, n: nat, total: real, lo: nat)
    requires WeightSolution(s, n, total, lo)
    ensures total <= Times(Recip(s[0]), n)
    ensures total == Times(Recip(s[0]), n) ==> s == Repeat(s[0], n)
  {
    SumBound(s, s[0]);
    if total == Times(Recip(s[0]), n) {
      assert s == Repeat(s[0], n);
    }
  }

  lemma {:induction false} TimesMono(x: real, y: real, n: nat)
    requires x <= y
    ensures Times(x, n) <= Times(y, n)
  {
    if n > 0 {
      TimesMono(x, y, n - 1);
    }
  }

  /** Once n copies of 1/p fall short of the total, no solution starts at p
      or beyond. */
  lemma NoSolutionFrom(s: seq<nat>, n: nat, total: real, lo: nat, p: nat)
    requires WeightSolution(s, n, total, lo)
    requires p >= 1 && total > Times(Recip(p), n)
    ensures s[0] < p
  {
    FirstBound(s, n, total, lo);
    if p <= s[0] {
      RecipAntitone(p, s[0]);
      TimesMono(Recip(s[0]), Recip(p), n);
    }
  }

  /** When the total is n copies of 1/m, the constant list of m is the only
      solution starting at m. */
  lemma ExactFit(n: nat, total: real, lo: nat, m: nat)
    requires n >= 1 && lo <= m < PsiMax && IsPsiValue(m)
    requires total == Times(Recip(m), n)
    ensures WeightSolution(Repeat(m, n), n, total, lo)
    ensures forall s :: WeightSolution(s, n, total, lo) && s[0] == m ==> s == Repeat(m, n)
  {
    PsiValuePositive(m);
    RepeatSum(m, n);
    forall s | WeightSolution(s, n, total, lo) && s[0] == m
      ensures s == Repeat(m, n)
    {
      FirstBound(s, n, total, lo);
    }
  }

  /** A single value m solves the equation only when total = 1/m. */
  lemma SingleSolution(s: seq<nat>, total: real, lo: nat)
    requires WeightSolution(s, 1, total, lo)
    ensures total == Recip(s[0])
  {
    assert s[1..] == [];
    assert SumRecip(s[1..]) == 0.0;
  }

  /** A solution starting at m is m followed by a solution of one term
      less, for the rest of the total, with values at least m. */
  lemma SplitSolution(s: seq<nat>, n: nat, total: real, lo: nat, m: nat)
    requires n >= 2 && |s| >= 1 && s[0] == m
    requires 1 <= m && lo <= m < PsiMax && IsPsiValue(m)
    ensures WeightSolution(s, n, total, lo) <==> WeightSolution(s[1..], n - 1, total - Recip(m), m)
  {
    var rest := s[1..];
    assert forall i :: 0 <= i < |rest| ==> rest[i] == s[i + 1];
    if WeightSolution(rest, n - 1, total - Recip(m), m) {
      forall i | 0 <= i < n ensures 1 <= s[i] && lo <= s[i] < PsiMax && IsPsiValue(s[i]) {
        if i > 0 {
          assert s[i] == rest[i - 1];
        }
      }
      forall i, j | 0 <= i <= j < n ensures s[i] <= s[j] {
        if i > 0 {
          assert s[i] == rest[i - 1] && s[j] == rest[j - 1];
        } else if j > 0 {
          assert s[j] == rest[j - 1];
        }
      }
    }
  }

  /** `[m] + t` for every t of ts, in order. */
  function Prefixed(m: nat, ts: seq<seq<nat>>): (r: seq<seq<nat>>)
    ensures |r| == |ts| && forall j :: 0 <= j < |ts| ==> r[j] == [m] + ts[j]
  {
    if ts == [] then [] else [[m] + ts[0]] + Prefixed(m, ts[1..])
  }

  lemma PrefixedMembers(m: nat, ts: seq<seq<nat>>, x: seq<nat>)
    ensures x in Prefixed(m, ts) <==> |x| >= 1 && x[0] == m && x[1..] in ts
  {
    var r := Prefixed(m, ts);
    if |x| >= 1 && x[0] == m && x[1..] in ts {
      var j :| 0 <= j < |ts| && ts[j] == x[1..];
      assert r[j] == x;
    }
    if x in r {
      var j :| 0 <= j < |r| && r[j] == x;
      assert x[1..] == ts[j];
    }
  }

  lemma PrefixedStep(m: nat, ts: seq<seq<nat>>, k: nat)
    requires k < |ts|
    ensures Prefixed(m, ts[..k + 1]) == Prefixed(m, ts[..k]) + [[m] + ts[k]]
  {
  }

  // ---------------------------------------------------------------------
  // The solver, one smallest value at a time

  /** ans holds exactly the solutions whose smallest value is below bound. */
  ghost predicate FoundBelow(ans: seq<seq<nat>>, n: nat, total: real, lo: nat, bound: nat) {
    forall s :: s in ans <==> WeightSolution(s, n, total, lo) && s[0] < bound
  }

  /** With no terms, or nothing left to make up, there is no solution. */
  lemma NothingToSolve(n: nat, total: real, lo: nat)
    requires n == 0 || total <= 0.0
    ensures forall s :: !WeightSolution(s, n, total, lo)
  {
    forall s | WeightSolution(s, n, total, lo) ensures false {
      SumPositive(s);
    }
  }

  lemma FoundAll(ans: seq<seq<nat>>, n: nat, total: real, lo: nat, bound: nat)
    requires FoundBelow(ans, n, total, lo, bound) && bound >= PsiMax
    ensures forall s :: s in ans <==> WeightSolution(s, n, total, lo)
  {
  }

  /** A value that is not a value of psi starts no solution. */
  lemma SkipValue(ans: seq<seq<nat>>, n: nat, total: real, lo: nat, m: nat)
    requires FoundBelow(ans, n, total, lo, m) && !IsPsiValue(m)
    ensures FoundBelow(ans, n, total, lo, m + 1)
  {
    forall s | WeightSolution(s, n, total, lo) ensures s[0] != m {
    }
  }

  /** Once m * total exceeds n, every solution has been found. */
  lemma StopAt(ans: seq<seq<nat>>, n: nat, total: real, lo: nat, m: nat)
    requires FoundBelow(ans, n, total, lo, m) && m >= 1 && total > Times(Recip(m), n)
    ensures FoundBelow(ans, n, total, lo, PsiMax)
  {
    forall s | WeightSolution(s, n, total, lo) ensures s[0] < m {
      NoSolutionFrom(s, n, total, lo, m);
    }
  }

  lemma ExactStep(ans: seq<seq<nat>>, n: nat, total: real, lo: nat, m: nat)
    requires FoundBelow(ans, n, total, lo, m)
    requires n >= 1 && lo <= m < PsiMax && IsPsiValue(m)
    requires total == Times(Recip(m), n)
    ensures FoundBelow(ans + [Repeat(m, n)], n, total, lo, m + 1)
  {
    ExactFit(n, total, lo, m);
  }

  /** A single value m below 1/total solves nothing. */
  lemma SingleStep(ans: seq<seq<nat>>, total: real, lo: nat, m: nat)
    requires FoundBelow(ans, 1, total, lo, m)
    requires m >= 1 && total < Times(Recip(m), 1)
    ensures FoundBelow(ans, 1, total, lo, m + 1)
  {
    forall s | WeightSolution(s, 1, total, lo) ensures s[0] != m {
      SingleSolution(s, total, lo);
    }
  }

  lemma RecurseStep(ans: seq<seq<nat>>, tails: seq<seq<nat>>, n: nat, total: real, lo: nat, m: nat)
    requires FoundBelow(ans, n, total, lo, m)
    requires n >= 2 && 1 <= m && lo <= m < PsiMax && IsPsiValue(m)
    requires forall t :: t in tails <==> WeightSolution(t, n - 1, total - Recip(m), m)
    ensures FoundBelow(ans + Prefixed(m, tails), n, total, lo, m + 1)
  {
    forall s ensures s in Prefixed(m, tails) <==> WeightSolution(s, n, total, lo) && s[0] == m {
      PrefixedMembers(m, tails, s);
      if |s| >= 1 && s[0] == m {
        SplitSolution(s, n, total, lo, m);
      }
    }
  }

  /** Appends `[m] + t` to ans for every t of ts in turn. */
  method AppendPrefixed(ans: seq<seq<nat>>, m: nat, ts: seq<seq<nat>>) returns (r: seq<seq<nat>>)
    ensures r == ans + Prefixed(m, ts)
  {
    r := ans;
    var k := 0;
    while k < |ts|
      invariant 0 <= k <= |ts|
      invariant r == ans + Prefixed(m, ts[..k])
    {
      PrefixedStep(m, ts, k);
      r := r + [[m] + ts[k]];
      k := k + 1;
    }
    assert ts[..k] == ts;
  }

  /** Every weakly increasing list of n values of psi in [minpsi, PsiMax)
      whose reciprocals add up to total, found by trying each admissible
      smallest value and solving for the rest recursively.  The loop stops
      at the first value whose n copies already exceed the total. */
  method SolveWeights(tab: map<nat, seq<nat>>, n: nat, total: real, minpsi: nat)
    returns (ans: seq<seq<nat>>)
    requires TableOk(tab)
    ensures forall s :: s in ans <==> WeightSolution(s, n, total, minpsi)
    decreases n
  {
    ans := [];
    if n == 0 || total <= 0.0 {
      NothingToSolve(n, total, minpsi);
      return;
    }
    var psiN := minpsi;
    while psiN < PsiMax
      invariant minpsi <= psiN
      invariant FoundBelow(ans, n, total, minpsi, psiN)
    {
      TableLookup(tab, psiN);
      if tab[psiN] == [] {
        SkipValue(ans, n, total, minpsi, psiN);
      } else {
        PsiValuePositive(psiN);
        var t := (psiN as real) * total - (n as real);
        ScaleBound(psiN, total, n);
        if t > 0.0 {
          StopAt(ans, n, total, minpsi, psiN);
          psiN := PsiMax;
          break;
        }
        if t == 0.0 {
          ExactStep(ans, n, total, minpsi, psiN);
          ans := ans + [Repeat(psiN, n)];
        } else if n == 1 {
          SingleStep(ans, total, minpsi, psiN);
        } else {
          var tails := SolveWeights(tab, n - 1, total - Recip(psiN), psiN);
          RecurseStep(ans, tails, n, total, minpsi, psiN);
          ans := AppendPrefixed(ans, psiN, tails);
        }
      }
      psiN := psiN + 1;
    }
    FoundAll(ans, n, total, minpsi, psiN);
  }

  // ---------------------------------------------------------------------
  // From values of psi to indices

  /** Every `[a] + t` with a from heads and t from ts, a varying slowest. */
  function Prepend(heads: seq<nat>, ts: seq<seq<nat>>): seq<seq<nat>> {
    if heads == [] then [] else Prefixed(heads[0], ts) + Prepend(heads[1..], ts)
  }

  lemma {:induction false} PrependMembers(heads: seq<nat>, ts: seq<seq<nat>>, x: seq<nat>)
    ensures x in Prepend(heads, ts) <==> |x| >= 1 && x[0] in heads && x[1..] in ts
  {
    if heads != [] {
      PrependMembers(heads[1..], ts, x);
      PrefixedMembers(heads[0], ts, x);
      if |x| >= 1 && x[0] in heads && x[0] != heads[0] {
        assert x[0] in heads[1..];
      }
    }
  }

  /** The cartesian product of the lists in Ns, in lexicographic order. */
  function Product(Ns: seq<seq<nat>>): seq<seq<nat>> {
    if Ns == [] then [[]] else Prepend(Ns[0], Product(Ns[1..]))
  }

  /** The product holds exactly the lists that pick one entry from each
      factor. */
  lemma {:induction false} ProductMembers(Ns: seq<seq<nat>>, x: seq<nat>)
    ensures x in Product(Ns) <==> |x| == |Ns| && forall i :: 0 <= i < |Ns| ==> x[i] in Ns[i]
  {
    if Ns != [] {
      var rest := Product(Ns[1..]);
      PrependMembers(Ns[0], rest, x);
      if |x| >= 1 {
        ProductMembers(Ns[1..], x[1..]);
        if |x| == |Ns| && forall i :: 0 <= i < |Ns| ==> x[i] in Ns[i] {
          forall i | 0 <= i < |Ns| - 1 ensures x[1..][i] in Ns[1..][i] {
            assert x[1..][i] == x[i + 1];
          }
        }
        if x in Product(Ns) {
          forall i | 0 <= i < |Ns| ensures x[i] in Ns[i] {
            if i > 0 {
              assert x[i] == x[1..][i - 1];
            }
          }
        }
      }
    }
  }

  /** The indices N with psi(N) = psis[i] at every position i, heads lists;
      none at all when some value has no preimage. */
  function NlistFromPsiNlist(tab: map<nat, seq<nat>>, psis: seq<nat>): seq<seq<nat>>
    requires TableOk(tab)
    requires forall i :: 0 <= i < |psis| ==> psis[i] < PsiMax
  {
    var Ns := seq(|psis|, i requires 0 <= i < |psis| => tab[psis[i]]);
    if exists i :: 0 <= i < |Ns| && Ns[i] == [] then [] else Product(Ns)
  }

  /** A list comes out of the expansion exactly when it has one index per
      value and each index maps to its value under psi. */
  lemma NlistFromPsiNlistMeans(tab: map<nat, seq<nat>>, psis: seq<nat>, x: seq<nat>)
    requires TableOk(tab)
    requires forall i :: 0 <= i < |psis| ==> psis[i] < PsiMax
    ensures x in NlistFromPsiNlist(tab, psis) <==>
            |x| == |psis| && forall i :: 0 <= i < |psis| ==> x[i] >= 1 && Psi(x[i]) == psis[i]
  {
    var Ns := seq(|psis|, i requires 0 <= i < |psis| => tab[psis[i]]);
    ProductMembers(Ns, x);
    forall i, y | 0 <= i < |psis| ensures y in Ns[i] <==> y >= 1 && Psi(y) == psis[i] {
      TableComplete(tab, psis[i], y);
    }
    if |x| == |psis| && forall i :: 0 <= i < |psis| ==> x[i] >= 1 && Psi(x[i]) == psis[i] {
      forall i | 0 <= i < |Ns| ensures Ns[i] != [] {
        assert x[i] in Ns[i];
      }
    }
  }

  /** The expansion is empty exactly when some value is not a value of
      psi. */
  lemma NlistFromPsiNlistEmpty(tab: map<nat, seq<nat>>, psis: seq<nat>)
    requires TableOk(tab)
    requires forall i :: 0 <= i < |psis| ==> psis[i] < PsiMax
    ensures NlistFromPsiNlist(tab, psis) == [] <==> exists i :: 0 <= i < |psis| && !IsPsiValue(psis[i])
  {
    forall i | 0 <= i < |psis| ensures tab[psis[i]] == [] <==> !IsPsiValue(psis[i]) {
      TableLookup(tab, psis[i]);
    }
    if forall i :: 0 <= i < |psis| ==> IsPsiValue(psis[i]) {
      var x := seq(|psis|, i requires 0 <= i < |psis| => tab[psis[i]][0]);
      forall i | 0 <= i < |psis| ensures x[i] >= 1 && Psi(x[i]) == psis[i] {
        assert x[i] in tab[psis[i]];
        TableComplete(tab, psis[i], x[i]);
      }
      NlistFromPsiNlistMeans(tab, psis, x);
      assert x in NlistFromPsiNlist(tab, psis);
    } else {
      var i :| 0 <= i < |psis| && !IsPsiValue(psis[i]);
      var Ns := seq(|psis|, i requires 0 <= i < |psis| => tab[psis[i]]);
      assert Ns[i] == [];
    }
  }

  // ---------------------------------------------------------------------
  // Necessary conditions on an index list

  /** psi of every index. */
  function PsiList(xs: seq<nat>): (r: seq<nat>)
    ensures |r| == |xs| && forall i :: 0 <= i < |xs| ==> r[i] == PsiW(xs[i]) && r[i] >= 1
  {
    seq(|xs|, i requires 0 <= i < |xs| => PsiW(xs[i]))
  }

  /** The weight sum 1/psi(N) of an index list. */
  function WeightOf(xs: seq<nat>): real {
    SumRecip(PsiList(xs))
  }

  /** Some two entries, or one entry with itself, are coprime. */
  predicate AnyCoprime(xs: seq<nat>) {
    exists i, j :: 0 <= i < |xs| && 0 <= j < |xs| && Gcd(xs[i], xs[j]) == 1
  }

  /** How many entries equal v. */
  function Count(xs: seq<nat>, v: nat): nat {
    multiset(xs)[v]
  }

  /** How many entries p divides. */
  function CountMultiples(xs: seq<nat>, p: nat): nat {
    if xs == [] then 0
    else (if Divides(p, xs[0]) then 1 else 0) + CountMultiples(xs[1..], p)
  }

  /** N/p for the entries N that are multiples of p other than p itself. */
  function Cofactors(xs: seq<nat>, p: nat): seq<nat>
    requires p > 0
  {
    if xs == [] then []
    else (if xs[0] % p == 0 && xs[0] != p then [xs[0] / p] else []) + Cofactors(xs[1..], p)
  }

  /** The entries outside ex, in order. */
  function Drop(xs: seq<nat>, ex: set<nat>): seq<nat> {
    if xs == [] then []
    else (if xs[0] in ex then [] else [xs[0]]) + Drop(xs[1..], ex)
  }

  function Quotients(xs: seq<nat>, m: nat): (r: seq<nat>)
    requires m > 0
    ensures |r| == |xs| && forall i :: 0 <= i < |xs| ==> r[i] == xs[i] / m
  {
    seq(|xs|, i requires 0 <= i < |xs| => xs[i] / m)
  }

  function MaxOf(xs: seq<nat>): (r: nat)
    ensures forall i :: 0 <= i < |xs| ==> xs[i] <= r
  {
    if xs == [] then 0 else var m := MaxOf(xs[1..]); if xs[0] > m then xs[0] else m
  }

  /** p is a prime factor of some entry, that is, of the lcm of the list. */
  predicate InSupport(xs: seq<nat>, p: nat) {
    IsPrime(p) && exists k :: 0 <= k < |xs| && Divides(p, xs[k])
  }

  /** The tests for one prime p of the support: more than p entries are
      multiples of p, and, in the strong case with exactly p entries equal
      to p, no two cofactors of the other multiples are coprime. */
  predicate PrimeTestOk(xs: seq<nat>, p: nat, strong: bool)
    requires p > 0
  {
    CountMultiples(xs, p) > p
    && (strong && Count(xs, p) == p ==> !AnyCoprime(Cofactors(xs, p)))
  }

  predicate PrimeTests(xs: seq<nat>, strong: bool) {
    forall p :: 0 < p <= MaxOf(xs) && InSupport(xs, p) ==> PrimeTestOk(xs, p, strong)
  }

  /** The entries outside ex are all multiples of m, and no two of their
      cofactors are coprime. */
  predicate RestOk(xs: seq<nat>, ex: set<nat>, m: nat)
    requires m > 0
  {
    var rest := Drop(xs, ex);
    (forall i :: 0 <= i < |rest| ==> rest[i] % m == 0) && !AnyCoprime(Quotients(rest, m))
  }

  /** The special configurations of small indices 2, 3, 4 and 6 that cannot
      occur in a strongly minimal covering. */
  predicate PatternTests(xs: seq<nat>) {
    var n2, n3, n4, n6 := Count(xs, 2), Count(xs, 3), Count(xs, 4), Count(xs, 6);
    !(n2 > 0 && n4 > 0 && n6 > 4)
    && ((n2 == 2 && n4 == 1) || (n2 == 1 && n4 == 3) ==> RestOk(xs, {2, 4}, 4))
    && (n2 == 1 && n4 == 2 ==> RestOk(xs, {2, 4}, 2))
    && (n2 == 2 && n6 == 3 ==> RestOk(xs, {2, 6}, 6))
    && (n2 == 1 && n4 == 2 && n6 == 3 ==> RestOk(xs, {2, 4, 6}, 6))
    && (n3 == 3 && n6 == 2 ==> RestOk(xs, {3, 6}, 6))
    && (n3 == 2 && n6 >= 4 ==> RestOk(xs, {3, 6}, 6))
  }

  /** The necessary conditions for an index list of a (strongly) minimal
      covering: the weight equation (or inequality), no coprime indices,
      enough multiples of every prime of the support, and the special
      configurations. */
  predicate IsValidNlist(xs: seq<nat>, strong: bool)
    requires forall i :: 0 <= i < |xs| ==> xs[i] >= 1
  {
    (if strong then WeightOf(xs) == 1.0 else WeightOf(xs) >= 1.0)
    && (strong ==> !AnyCoprime(xs))
    && PrimeTests(xs, strong)
    && (strong ==> PatternTests(xs))
  }

  /** psi(N) >= 3 for every N >= 2. */
  lemma PsiAtLeastThree(xs: seq<nat>)
    requires forall i :: 0 <= i < |xs| ==> xs[i] >= 2
    ensures forall i :: 0 <= i < |xs| ==> PsiList(xs)[i] >= 3
  {
  }

  /** The strong test rules out the index 1, which is coprime to itself. */
  lemma StrongValidNoOne(xs: seq<nat>)
    requires forall i :: 0 <= i < |xs| ==> xs[i] >= 1
    requires IsValidNlist(xs, true)
    ensures forall i, j :: 0 <= i < |xs| && 0 <= j < |xs| ==> Gcd(xs[i], xs[j]) != 1
    ensures forall i :: 0 <= i < |xs| ==> xs[i] >= 2
  {
    assert Gcd(1, 1) == 1;
    forall i | 0 <= i < |xs| ensures xs[i] >= 2 {
      assert Gcd(xs[i], xs[i]) != 1;
    }
  }

  /** Every prime dividing an index divides more than p indices. */
  lemma ValidSupportCounts(xs: seq<nat>, strong: bool, p: nat)
    requires forall i :: 0 <= i < |xs| ==> xs[i] >= 1
    requires IsValidNlist(xs, strong) && InSupport(xs, p)
    ensures CountMultiples(xs, p) > p
  {
    var k :| 0 <= k < |xs| && Divides(p, xs[k]);
    DividesLe(p, xs[k]);
  }

  /** A list passing the strong test has at least three indices: every
      index is at least 2, so every weight is at most 1/3. */
  lemma StrongValidLength(xs: seq<nat>)
    requires forall i :: 0 <= i < |xs| ==> xs[i] >= 1
    requires IsValidNlist(xs, true)
    ensures WeightOf(xs) == 1.0
    ensures |xs| >= 3
  {
    StrongValidNoOne(xs);
    PsiAtLeastThree(xs);
    SumBound(PsiList(xs), 3);
    ThirdsBelowOne(|xs|);
  }

  /** Fewer than three thirds add up to less than 1. */
  lemma ThirdsBelowOne(k: nat)
    ensures k < 3 ==> Times(Recip(3), k) < 1.0
  {
    TimesIsProduct(Recip(3), k);
    TimesRecip(3);
    TimesIsProduct(Recip(3), 3);
  }

  /** The strong test implies the weak one. */
  lemma StrongImpliesWeak(xs: seq<nat>)
    requires forall i :: 0 <= i < |xs| ==> xs[i] >= 1
    ensures IsValidNlist(xs, true) ==> IsValidNlist(xs, false)
  {
  }

  lemma PsiOfTwo()
    ensures Psi(2) == 3
  {
    assert MinFactor(2, 2) == 2;
    assert SplitPower(1, 2) == (1, 1);
    assert SplitPower(2, 2) == (2, 1);
  }

  /** The three indices 2, 2, 2 pass the strong test. */
  lemma TwoTwoTwoValid()
    ensures IsValidNlist([2, 2, 2], true)
  {
    PsiOfTwo();
    var xs: seq<nat> := [2, 2, 2];
    assert PsiList(xs) == [3, 3, 3];
    TimesRecip(3);
    assert SumRecip([3, 3, 3]) == Times(Recip(3), 3);
    assert Gcd(2, 2) == 2;
    assert !AnyCoprime(xs);
    TwoTwoTwoPrimes();
    assert multiset(xs)[4] == 0 && multiset(xs)[3] == 0 && multiset(xs)[6] == 0;
  }

  lemma TwoTwoTwoPrimes()
    ensures PrimeTests([2, 2, 2], true)
  {
    var xs: seq<nat> := [2, 2, 2];
    forall p | 0 < p <= MaxOf(xs) && InSupport(xs, p) ensures PrimeTestOk(xs, p, true) {
      assert p == 2;
      assert CountMultiples(xs, 2) == 3;
      assert multiset(xs)[2] == 3;
    }
  }

  /** The single index 1 fails the strong test, since 1 is coprime to
      itself. */
  lemma OneInvalid()
    ensures !IsValidNlist([1], true)
  {
    var xs: seq<nat> := [1];
    assert Gcd(xs[0], xs[0]) == 1;
    assert AnyCoprime(xs);
  }

  // ---------------------------------------------------------------------
  // The search for index sequences

  predicate Sorted(xs: seq<nat>) {
    forall i, j :: 0 <= i < j < |xs| ==> xs[i] <= xs[j]
  }

  function Insert(x: nat, xs: seq<nat>): (r: seq<nat>)
    requires Sorted(xs)
    ensures Sorted(r) && multiset(r) == multiset(xs) + multiset{x}
  {
    if xs == [] || x <= xs[0] then [x] + xs
    else
      var t := Insert(x, xs[1..]);
      assert xs == [xs[0]] + xs[1..];
      HeadBelow(xs[0], t, x, xs[1..]);
      [xs[0]] + t
  }

  lemma HeadBelow(h: nat, t: seq<nat>, x: nat, rest: seq<nat>)
    requires Sorted(t) && Sorted([h] + rest) && h <= x
    requires multiset(t) == multiset(rest) + multiset{x}
    ensures Sorted([h] + t)
  {
    forall j | 0 <= j < |t| ensures h <= t[j] {
      assert t[j] in multiset(t);
      if t[j] != x {
        assert t[j] in multiset(rest);
        assert t[j] in rest;
        var i :| 0 <= i < |rest| && rest[i] == t[j];
        var hr := [h] + rest;
        assert hr[0] == h && hr[i + 1] == t[j];
        assert hr[0] <= hr[i + 1];
      }
    }
    var r := [h] + t;
    forall i, j | 0 <= i < j < |r| ensures r[i] <= r[j] {
      if i > 0 {
        assert r[i] == t[i - 1] && r[j] == t[j - 1];
      } else {
        assert r[j] == t[j - 1];
      }
    }
  }

  /** Python's `sorted` on a list of indices: the sorted rearrangement. */
  function SortSeq(xs: seq<nat>): (r: seq<nat>)
    ensures Sorted(r) && multiset(r) == multiset(xs)
  {
    if xs == [] then []
    else
      assert xs == [xs[0]] + xs[1..];
      Insert(xs[0], SortSeq(xs[1..]))
  }

  /** The expansions of every list of W, one after the other. */
  function ExpandAll(tab: map<nat, seq<nat>>, W: seq<seq<nat>>): seq<seq<nat>>
    requires TableOk(tab)
    requires forall k, i :: 0 <= k < |W| && 0 <= i < |W[k]| ==> W[k][i] < PsiMax
  {
    if W == [] then [] else NlistFromPsiNlist(tab, W[0]) + ExpandAll(tab, W[1..])
  }

  lemma {:induction false} ExpandAllMembers(tab: map<nat, seq<nat>>, W: seq<seq<nat>>, L: seq<nat>)
    requires TableOk(tab)
    requires forall k, i :: 0 <= k < |W| && 0 <= i < |W[k]| ==> W[k][i] < PsiMax
    ensures L in ExpandAll(tab, W) <==> exists k :: 0 <= k < |W| && L in NlistFromPsiNlist(tab, W[k])
  {
    if W != [] {
      ExpandAllMembers(tab, W[1..], L);
      if exists k :: 0 <= k < |W| && L in NlistFromPsiNlist(tab, W[k]) {
        var k :| 0 <= k < |W| && L in NlistFromPsiNlist(tab, W[k]);
        if k > 0 {
          assert W[k] == W[1..][k - 1];
        }
      }
      if exists k :: 0 <= k < |W[1..]| && L in NlistFromPsiNlist(tab, W[1..][k]) {
        var k :| 0 <= k < |W[1..]| && L in NlistFromPsiNlist(tab, W[1..][k]);
        assert W[1..][k] == W[k + 1];
      }
    }
  }

  /** An index list the search considers before the validity test: n
      indices whose values of psi, in the given order, are weakly
      increasing, at least 3, below the bound, and satisfy the weight
      equation. */
  ghost predicate Candidate(L: seq<nat>, n: nat) {
    |L| == n && (forall i :: 0 <= i < |L| ==> L[i] >= 1) && WeightSolution(PsiList(L), n, 1.0, 3)
  }

  /** Expanding every solution of the weight equation yields exactly the
      candidates. */
  lemma CandidatesExpanded(tab: map<nat, seq<nat>>, W: seq<seq<nat>>, n: nat, L: seq<nat>)
    requires TableOk(tab)
    requires forall w :: w in W <==> WeightSolution(w, n, 1.0, 3)
    requires forall k, i :: 0 <= k < |W| && 0 <= i < |W[k]| ==> W[k][i] < PsiMax
    ensures L in ExpandAll(tab, W) <==> Candidate(L, n)
  {
    ExpandAllMembers(tab, W, L);
    if L in ExpandAll(tab, W) {
      var k :| 0 <= k < |W| && L in NlistFromPsiNlist(tab, W[k]);
      NlistFromPsiNlistMeans(tab, W[k], L);
      assert forall i :: 0 <= i < |L| ==> PsiList(L)[i] == W[k][i];
      assert PsiList(L) == W[k];
      assert W[k] in W;
    }
    if Candidate(L, n) {
      var w := PsiList(L);
      assert w in W;
      var k :| 0 <= k < |W| && W[k] == w;
      NlistFromPsiNlistMeans(tab, w, L);
    }
  }

  /** s is the sorted form of some candidate. */
  ghost predicate SortedCandidate(s: seq<nat>, n: nat) {
    exists L :: Candidate(L, n) && s == SortSeq(L)
  }

  /** The sorted form of every list, in order. */
  function SortAll(Nlists: seq<seq<nat>>): (r: seq<seq<nat>>)
    ensures |r| == |Nlists| && forall j :: 0 <= j < |Nlists| ==> r[j] == SortSeq(Nlists[j])
  {
    seq(|Nlists|, j requires 0 <= j < |Nlists| => SortSeq(Nlists[j]))
  }

  predicate Positive(s: seq<nat>) {
    forall i :: 0 <= i < |s| ==> s[i] >= 1
  }

  predicate NoDuplicates(ans: seq<seq<nat>>) {
    forall i, j :: 0 <= i < j < |ans| ==> ans[i] != ans[j]
  }

  /** ans holds, once each, the lists among the first k of sorts that are
      in good (the lists passing the strong test); each has length n and is
      sorted. */
  ghost predicate Kept(ans: seq<seq<nat>>, sorts: seq<seq<nat>>, k: nat, n: nat, good: iset<seq<nat>>)
    requires k <= |sorts|
  {
    (forall s :: s in ans <==> s in good && s in sorts[..k])
    && (forall s :: s in ans ==> |s| == n && Sorted(s))
    && NoDuplicates(ans)
  }

  lemma DedupStep(ans: seq<seq<nat>>, sorts: seq<seq<nat>>, k: nat, n: nat, good: iset<seq<nat>>)
    requires k < |sorts| && |sorts[k]| == n && Sorted(sorts[k])
    requires Kept(ans, sorts, k, n, good)
    ensures sorts[k] in ans || sorts[k] !in good ==> Kept(ans, sorts, k + 1, n, good)
    ensures sorts[k] !in ans && sorts[k] in good ==> Kept(ans + [sorts[k]], sorts, k + 1, n, good)
  {
    assert sorts[..k + 1] == sorts[..k] + [sorts[k]];
  }

  /** The sorted forms of the expanded solutions are the sorted forms of
      the candidates. */
  lemma SortedCandidates(tab: map<nat, seq<nat>>, W: seq<seq<nat>>, n: nat, s: seq<nat>)
    requires TableOk(tab)
    requires forall w :: w in W <==> WeightSolution(w, n, 1.0, 3)
    requires forall k, i :: 0 <= k < |W| && 0 <= i < |W[k]| ==> W[k][i] < PsiMax
    ensures s in SortAll(ExpandAll(tab, W)) <==> SortedCandidate(s, n)
  {
    var Nlists := ExpandAll(tab, W);
    var sorts := SortAll(Nlists);
    if SortedCandidate(s, n) {
      var L :| Candidate(L, n) && s == SortSeq(L);
      CandidatesExpanded(tab, W, n, L);
      var j :| 0 <= j < |Nlists| && Nlists[j] == L;
      assert sorts[j] == s;
    }
    if s in sorts {
      var j :| 0 <= j < |sorts| && sorts[j] == s;
      assert Nlists[j] in Nlists;
      CandidatesExpanded(tab, W, n, Nlists[j]);
    }
  }

  lemma ExpandedShape(tab: map<nat, seq<nat>>, W: seq<seq<nat>>, n: nat)
    requires TableOk(tab)
    requires forall w :: w in W <==> WeightSolution(w, n, 1.0, 3)
    requires forall k, i :: 0 <= k < |W| && 0 <= i < |W[k]| ==> W[k][i] < PsiMax
    ensures forall L :: L in ExpandAll(tab, W) ==> Positive(L) && |L| == n
  {
    forall L | L in ExpandAll(tab, W) ensures Positive(L) && |L| == n {
      CandidatesExpanded(tab, W, n, L);
    }
  }

  lemma SolutionsBounded(W: seq<seq<nat>>, n: nat)
    requires forall w :: w in W <==> WeightSolution(w, n, 1.0, 3)
    ensures forall k, i :: 0 <= k < |W| && 0 <= i < |W[k]| ==> W[k][i] < PsiMax
  {
    forall k, i | 0 <= k < |W| && 0 <= i < |W[k]| ensures W[k][i] < PsiMax {
      assert W[k] in W;
    }
  }

  lemma SortKeepsPositive(L: seq<nat>)
    requires Positive(L)
    ensures Positive(SortSeq(L)) && |SortSeq(L)| == |L|
  {
    var s := SortSeq(L);
    assert |s| == |multiset(s)| == |multiset(L)| == |L|;
    forall i | 0 <= i < |s| ensures s[i] >= 1 {
      assert s[i] in multiset(L);
      var j :| 0 <= j < |L| && L[j] == s[i];
    }
  }

  /** The possible sorted index sequences of strongly minimal coverings
      with n lattices: written down for n = 1, 2, 3, and otherwise the
      sorted candidates that pass the strong test, each once. */
  method AllIndexSequences(tab: map<nat, seq<nat>>, n: nat) returns (ans: seq<seq<nat>>)
    requires TableOk(tab)
    ensures n == 1 ==> ans == [[1]]
    ensures n == 2 ==> ans == []
    ensures n == 3 ==> ans == [[2, 2, 2]]
    ensures n == 0 || n >= 4 ==> forall s :: s in ans <==>
      Positive(s) && IsValidNlist(s, true) && SortedCandidate(s, n)
    ensures forall s :: s in ans ==> |s| == n && Sorted(s)
    ensures NoDuplicates(ans)
  {
    if n == 1 {
      return [[1]];
    }
    if n == 2 {
      return [];
    }
    if n == 3 {
      return [[2, 2, 2]];
    }
    ans := SearchIndexSequences(tab, n);
  }

  /** The general case of the search: solve the weight equation with values
      of psi at least 3, expand to indices, sort each list and keep, once,
      the ones that pass the strong test. */
  method SearchIndexSequences(tab: map<nat, seq<nat>>, n: nat) returns (ans: seq<seq<nat>>)
    requires TableOk(tab)
    ensures forall s :: s in ans <==> Positive(s) && IsValidNlist(s, true) && SortedCandidate(s, n)
    ensures forall s :: s in ans ==> |s| == n && Sorted(s)
    ensures NoDuplicates(ans)
  {
    var psiNlist := SolveWeights(tab, n, 1.0, 3);
    SolutionsBounded(psiNlist, n);
    var Nlists := ExpandAll(tab, psiNlist);
    ExpandedShape(tab, psiNlist, n);
    ghost var sorts := SortAll(Nlists);
    ghost var good := iset s: seq<nat> | Positive(s) && IsValidNlist(s, true);
    ans := [];
    var k := 0;
    while k < |Nlists|
      invariant 0 <= k <= |Nlists|
      invariant Kept(ans, sorts, k, n, good)
    {
      var L := Nlists[k];
      assert L in Nlists;
      var s := SortSeq(L);
      SortKeepsPositive(L);
      assert s in good <==> IsValidNlist(s, true);
      DedupStep(ans, sorts, k, n, good);
      if s !in ans && IsValidNlist(s, true) {
        ans := ans + [s];
      }
      k := k + 1;
    }
    assert sorts[..k] == sorts;
    forall s ensures s in sorts <==> SortedCandidate(s, n) {
      SortedCandidates(tab, psiNlist, n, s);
    }
  }
}
