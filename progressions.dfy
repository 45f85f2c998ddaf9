/** Residue classes a + N*Z ("APs") and the covering engine over lists of them:
    weight, covering test, deletion test, fullness and the minimality tests.
    An AP is an immutable value, so it is a datatype here. */
module Progressions {
  import opened NumberTheory
  import opened Extended

  /** `Trivial` is the zero subgroup (N = None in the source);
      `Class(0, a)` is the singleton {a}; `Class(N, a)` with N > 0 is a + N*Z. */
  datatype AP = Trivial | Class(N: nat, a: int)

  /** What the constructor establishes: a representative in [0, N) when N > 0. */
  predicate Normalized(A: AP) {
    A.Class? && A.N > 0 ==> 0 <= A.a < A.N
  }

  /** `AP(N, a)`: the representative is reduced modulo N when N > 0. */
  function Make(N: nat, a: int): (A: AP)
    ensures A.Class? && A.N == N && Normalized(A)
    ensures Divides(N, A.a - a)
  {
    if N > 0 then
      ModCongruent(N, a);
      Class(N, a % N)
    else
      Class(0, a)
  }

  predicate IsTrivial(A: AP) {
    A.Trivial?
  }

  /** `weight()`: 1/N, or Infinity when N is 0 or None. */
  function Weight(A: AP): (w: ExtReal)
    ensures w.Finite? <==> A.Class? && A.N > 0
    ensures w.Finite? ==> w.value * (A.N as real) == 1.0
  {
    if A.Class? && A.N > 0 then Finite(Recip(A.N)) else Infinity
  }

  /** `contains1(x)`: the trivial AP contains nothing, otherwise N | a - x. */
  predicate Contains1(A: AP, x: int) {
    A.Class? && Divides(A.N, A.a - x)
  }

  /** `contains(other)` (the source fails on a trivial operand). */
  predicate Contains(A: AP, B: AP)
    requires A.Class? && B.Class?
  {
    Divides(A.N, B.N) && Contains1(A, B.a)
  }

  /** `add_one(x)`: the smallest AP containing this one and x. */
  function AddOne(A: AP, x: int): (B: AP)
    ensures B.Class? && Contains1(B, x)
    ensures A.Class? ==> Divides(B.N, A.N) && Contains(B, A)
  {
    if A.Trivial? then
      Make(0, x)
    else
      var g := Gcd(A.N, x - A.a);
      var B := Make(g, x);
      GcdDivides(A.N, x - A.a);
      DividesAdd(g, B.a - x, x - A.a);
      assert B.a - x + (x - A.a) == B.a - A.a;
      B
  }

  /** `__eq__`: different moduli are unequal, the trivial AP equals only itself,
      otherwise the other AP must contain this representative. */
  predicate Eq(A: AP, B: AP) {
    match (A, B)
    case (Trivial, Trivial) => true
    case (Trivial, Class(_, _)) => false
    case (Class(_, _), Trivial) => false
    case (Class(n1, a1), Class(n2, _)) => n1 == n2 && Contains1(B, a1)
  }

  /** `__lt__`: the trivial AP comes first, then ascending modulus,
      then ascending representative. */
  predicate Lt(A: AP, B: AP) {
    if A.Trivial? then !B.Trivial?
    else if B.Trivial? then false
    else if B.N - A.N != 0 then B.N - A.N > 0
    else A.a < B.a
  }

  // ---------------------------------------------------------------------
  // Properties of the single-AP operations

  /** Membership is periodic with period N. */
  lemma Periodic(A: AP, x: int, k: int)
    requires A.Class?
    ensures Contains1(A, x + A.N * k) <==> Contains1(A, x)
  {
    DividesIntro(A.N, k);
    if Contains1(A, x) { DividesAdd(A.N, A.a - x, A.N * k); }
    if Contains1(A, x + A.N * k) { DividesAdd(A.N, A.a - (x + A.N * k), A.N * k); }
  }

  /** `contains` is exactly inclusion of the sets of integers. */
  lemma ContainsIsInclusion(A: AP, B: AP)
    requires A.Class? && B.Class?
    ensures Contains(A, B) <==> forall x :: Contains1(B, x) ==> Contains1(A, x)
  {
    if Contains(A, B) {
      forall x | Contains1(B, x) ensures Contains1(A, x) {
        DividesTrans(A.N, B.N, B.a - x);
        DividesAdd(A.N, A.a - B.a, B.a - x);
      }
    }
    if forall x :: Contains1(B, x) ==> Contains1(A, x) {
      DividesRefl(B.N);
      assert Contains1(B, B.a);
      Periodic(B, B.a, 1);
      assert Contains1(A, B.a + B.N);
      DividesAdd(A.N, A.a - B.a, A.a - (B.a + B.N));
    }
  }

  /** `add_one(x)` is the least AP containing both: any AP that contains this
      one (or any AP at all, when this one is trivial) and x contains it. */
  lemma AddOneLeast(A: AP, B: AP, x: int)
    requires B.Class? && Contains1(B, x)
    requires A.Class? ==> Contains(B, A)
    ensures Contains(B, AddOne(A, x))
  {
    var R := AddOne(A, x);
    if A.Trivial? {
      DividesRefl(B.N);
    } else {
      DividesAdd(B.N, B.a - A.a, B.a - x);
      assert (B.a - A.a) - (B.a - x) == x - A.a;
      GcdGreatest(A.N, x - A.a, B.N);
      assert Divides(R.N, R.a - x);
      DividesTrans(B.N, R.N, R.a - x);
      DividesAdd(B.N, B.a - x, R.a - x);
      assert (B.a - x) - (R.a - x) == B.a - R.a;
    }
  }

  /** A singleton contains exactly its point. */
  lemma SingletonContains(a: int, x: int)
    ensures Contains1(Class(0, a), x) <==> x == a
  {
  }

  /** `__eq__` holds exactly when both are trivial or both describe the same set. */
  lemma EqIsSameSet(A: AP, B: AP)
    ensures Eq(A, B) <==>
      (A.Trivial? && B.Trivial?) ||
      (A.Class? && B.Class? && forall x :: Contains1(A, x) <==> Contains1(B, x))
  {
    if A.Class? && B.Class? {
      if Eq(A, B) {
        DividesRefl(A.N);
        assert Contains(B, A);
        DividesNeg(A.N, B.a - A.a);
        assert Contains(A, B);
        ContainsIsInclusion(A, B);
        ContainsIsInclusion(B, A);
      }
      if forall x :: Contains1(A, x) <==> Contains1(B, x) {
        ContainsIsInclusion(A, B);
        ContainsIsInclusion(B, A);
        DividesAntisym(A.N, B.N);
      }
    }
  }

  /** On constructed (normalized) APs, `__eq__` is equality of the stored pair. */
  lemma EqIsIdentity(A: AP, B: AP)
    requires Normalized(A) && Normalized(B)
    ensures Eq(A, B) <==> A == B
  {
    if A.Class? && B.Class? && Eq(A, B) && A.N > 0 {
      DividesNeg(A.N, B.a - A.a);
      ResidueUnique(A.N, A.a, B.a);
    }
    if A == B && A.Class? {
      DividesRefl(A.N);
    }
  }

  /** Constructing from any representative of the same class gives the same value. */
  lemma MakeCanonical(N: nat, a: int, b: int)
    requires Divides(N, a - b)
    ensures Make(N, a) == Make(N, b)
  {
    var A, B := Make(N, a), Make(N, b);
    DividesAdd(N, A.a - a, a - b);
    assert (A.a - a) + (a - b) == A.a - b;
    DividesNeg(N, B.a - b);
    DividesAdd(N, A.a - b, b - B.a);
    assert (A.a - b) + (b - B.a) == A.a - B.a;
    DividesNeg(N, A.a - B.a);
    assert Eq(A, B);
    EqIsIdentity(A, B);
  }

  /** `__lt__` is a strict total order on constructed APs. */
  lemma LtIsStrictTotalOrder(A: AP, B: AP, C: AP)
    requires Normalized(A) && Normalized(B) && Normalized(C)
    ensures !Lt(A, A)
    ensures Lt(A, B) && Lt(B, C) ==> Lt(A, C)
    ensures A == B || Lt(A, B) || Lt(B, A)
    ensures !(Lt(A, B) && Lt(B, A))
  {
  }

  /** A genuine AP has a positive modulus (the source's `if A.N` filter). */
  predicate IsGenuine(A: AP) {
    A.Class? && A.N > 0
  }

  predicate AllGenuine(C: seq<AP>) {
    forall A | A in C :: IsGenuine(A)
  }

  lemma AllGenuineCons(C: seq<AP>)
    requires C != []
    ensures AllGenuine(C) <==> IsGenuine(C[0]) && AllGenuine(C[1..])
  {
    assert C == [C[0]] + C[1..];
  }

  predicate NoTrivial(C: seq<AP>) {
    forall A | A in C :: A.Class?
  }

  // ---------------------------------------------------------------------
  // Lists of APs

  /** `moduli(C)`. */
  function Moduli(C: seq<AP>): (ms: seq<nat>)
    requires NoTrivial(C)
    ensures |ms| == |C| && forall i | 0 <= i < |C| :: ms[i] == C[i].N
  {
    seq<nat>(|C|, i requires 0 <= i < |C| => C[i].N)
  }

  /** `modulus_lcm(C)`: the least common multiple of the moduli, positive for
      a genuine list and 0 as soon as a singleton is present. */
  function ModulusLcm(C: seq<AP>): (M: nat)
    requires NoTrivial(C)
    ensures AllGenuine(C) ==> M > 0 && forall A | A in C :: Divides(A.N, M)
    ensures (exists A | A in C :: A.N == 0) ==> M == 0
    ensures forall m: int :: (forall A | A in C :: Divides(A.N, m)) ==> Divides(M, m)
  {
    var ms := Moduli(C);
    assert forall A | A in C :: exists i :: 0 <= i < |C| && C[i] == A && ms[i] == A.N;
    assert forall m: int :: (forall A | A in C :: Divides(A.N, m)) ==> Divides(LcmList(ms), m) by {
      forall m: int | forall A | A in C :: Divides(A.N, m)
        ensures Divides(LcmList(ms), m)
      {
        assert forall i :: 0 <= i < |ms| ==> Divides(ms[i], m) by {
          forall i | 0 <= i < |ms| ensures Divides(ms[i], m) {
            assert C[i] in C;
          }
        }
        LcmListLeast(ms, m);
      }
    }
    LcmList(ms)
  }

  /** `weight(C)`: the sum of the weights, Infinity as soon as one is. */
  function ListWeight(C: seq<AP>): (w: ExtReal)
    ensures w.Finite? <==> AllGenuine(C)
  {
    if C == [] then Finite(0.0)
    else
      AllGenuineCons(C);
      Plus(Weight(C[0]), ListWeight(C[1..]))
  }

  /** `is_in_union(x, C)`. */
  predicate IsInUnion(x: int, C: seq<AP>) {
    exists A | A in C :: Contains1(A, x)
  }

  /** The list covers every integer. */
  ghost predicate CoversZ(C: seq<AP>) {
    forall x :: IsInUnion(x, C)
  }

  /** `full_cover(N)`: the N classes modulo N. */
  function FullCover(N: nat): (C: seq<AP>)
    ensures |C| == N && forall A | A in C :: A.Class? && A.N == N && Normalized(A)
  {
    seq(N, x => Make(N, x))
  }

  /** The genuine members, in order (`[A for A in C if A.N]`). */
  function GenuineOnly(C: seq<AP>): (G: seq<AP>)
    ensures forall A :: A in G <==> A in C && IsGenuine(A)
  {
    if C == [] then []
    else
      assert C == [C[0]] + C[1..];
      (if IsGenuine(C[0]) then [C[0]] else []) + GenuineOnly(C[1..])
  }

  /** The list with its i'th member deleted (unchanged when i is out of range). */
  function Without(C: seq<AP>, i: int): (R: seq<AP>)
    ensures 0 <= i < |C| ==> |R| == |C| - 1
    ensures !(0 <= i < |C|) ==> R == C
  {
    if 0 <= i < |C| then C[..i] + C[i + 1..] else C
  }

  /** `isCover_rank2(C)` on a genuine list: weight at least 1, then every
      residue modulo the lcm of the moduli is covered. */
  predicate IsCoverRank2(C: seq<AP>)
    requires AllGenuine(C)
  {
    !Below(ListWeight(C), 1.0) && forall x | 0 <= x < ModulusLcm(C) :: IsInUnion(x, C)
  }

  /** `isCover(C)`: the genuine members cover. */
  predicate IsCover(C: seq<AP>) {
    IsCoverRank2(GenuineOnly(C))
  }

  /** `isCover_without1(C, i)`. */
  predicate IsCoverWithout1(C: seq<AP>, i: int) {
    IsCoverRank2(GenuineOnly(Without(C, i)))
  }

  /** `isFull(C, check)`: no singleton member, and either the weight is exactly 1
      or no single deletion leaves a cover. */
  predicate IsFull(C: seq<AP>, check: bool) {
    (!check || IsCover(C)) &&
    (forall A | A in C :: !(A.Class? && A.N == 0)) &&
    (ListWeight(C) == Finite(1.0) || forall i | 0 <= i < |C| :: !IsCoverWithout1(C, i))
  }

  /** No member other than C[i] describes the same class as C[i]. */
  predicate NoDuplicateOf(C: seq<AP>, i: int)
    requires 0 <= i < |C|
  {
    forall j | 0 <= j < |C| && j != i :: !Eq(C[j], C[i])
  }

  /** B is a genuine AP strictly inside the genuine AP A. */
  predicate ProperSub(A: AP, B: AP) {
    IsGenuine(A) && IsGenuine(B) && Contains(A, B) && B.N != A.N
  }

  /** x is covered by no member of C other than (copies of) A. */
  predicate Private(C: seq<AP>, A: AP, x: int) {
    !exists A1 | A1 in C :: !Eq(A1, A) && Contains1(A1, x)
  }

  /** The private points of A in [0, n), ascending. */
  function PrivatePoints(C: seq<AP>, A: AP, n: nat): (S: seq<int>)
    ensures forall x :: x in S <==> 0 <= x < n && Private(C, A, x)
  {
    if n == 0 then []
    else PrivatePoints(C, A, n - 1) + (if Private(C, A, n - 1) then [n - 1] else [])
  }

  /** `[x - y for y in S[1:]]` with x = S[0]. */
  function Differences(S: seq<int>): (ds: seq<int>)
    requires |S| > 0
    ensures |ds| == |S| - 1 && forall k | 0 <= k < |ds| :: ds[k] == S[0] - S[k + 1]
  {
    seq(|S| - 1, k requires 0 <= k < |S| - 1 => S[0] - S[k + 1])
  }

  /** `isOneMinimal(C, A)`: the weight shortcut, then the private points of A
      modulo the lcm M; A is one-minimal when the smallest AP through them,
      of modulus gcd(M, differences), is A itself. */
  predicate IsOneMinimal(C: seq<AP>, A: AP)
    requires NoTrivial(C)
  {
    if Exceeds(Weight(A), TwiceExcess(ListWeight(C))) then true
    else
      var M := ModulusLcm(C);
      var S := PrivatePoints(C, A, M);
      |S| != 0 && A.Class? && GcdList([M as int] + Differences(S)) == A.N
  }

  /** `isMinimal(C, check)`. */
  predicate IsMinimal(C: seq<AP>, check: bool)
    requires NoTrivial(C)
  {
    (!check || IsCover(C)) && forall A | A in C :: IsOneMinimal(C, A)
  }

  /** `isStronglyMinimal(C, check)`: for rank 1 the same test as minimality. */
  function IsStronglyMinimal(C: seq<AP>, check: bool): (r: bool)
    requires NoTrivial(C)
    ensures r == IsMinimal(C, check)
  {
    (!check || IsCover(C)) && forall A | A in C :: IsOneMinimal(C, A)
  }

  // ---------------------------------------------------------------------
  // Counting: a genuine AP of modulus N meets every window of N consecutive
  // integers exactly once, so a cover of [0, M) has weight at least 1.

  /** Number of x in [lo, lo + n) that lie in A. */
  function CountIn(A: AP, lo: int, n: nat): nat {
    if n == 0 then 0 else CountIn(A, lo, n - 1) + (if Contains1(A, lo + n - 1) then 1 else 0)
  }

  lemma {:induction false} CountSplit(A: AP, lo: int, m: nat, n: nat)
    ensures CountIn(A, lo, m + n) == CountIn(A, lo, m) + CountIn(A, lo + m, n)
    decreases n
  {
    if n > 0 {
      CountSplit(A, lo, m, n - 1);
    }
  }

  lemma {:induction false} CountShift(A: AP, lo: int, n: nat, k: int)
    requires A.Class?
    ensures CountIn(A, lo + A.N * k, n) == CountIn(A, lo, n)
    decreases n
  {
    if n > 0 {
      CountShift(A, lo, n - 1, k);
      Periodic(A, lo + n - 1, k);
      assert lo + A.N * k + n - 1 == lo + n - 1 + A.N * k;
    }
  }

  /** In [0, N) a genuine AP has exactly one point, its reduced representative. */
  lemma MemberInPeriod(A: AP, x: int)
    requires IsGenuine(A) && 0 <= x < A.N
    ensures Contains1(A, x) <==> x == A.a % A.N
  {
    ModCongruent(A.N, A.a);
    if Contains1(A, x) {
      DividesAdd(A.N, A.a % A.N - A.a, A.a - x);
      assert (A.a % A.N - A.a) + (A.a - x) == A.a % A.N - x;
      ResidueUnique(A.N, A.a % A.N, x);
    }
    if x == A.a % A.N {
      DividesNeg(A.N, A.a % A.N - A.a);
    }
  }

  lemma {:induction false} CountFirstPeriod(A: AP, n: nat)
    requires IsGenuine(A) && n <= A.N
    ensures CountIn(A, 0, n) == if n > A.a % A.N then 1 else 0
    decreases n
  {
    if n > 0 {
      CountFirstPeriod(A, n - 1);
      MemberInPeriod(A, n - 1);
    }
  }

  lemma {:induction false} CountPeriods(A: AP, k: nat)
    requires IsGenuine(A)
    ensures CountIn(A, 0, A.N * k) == k
    decreases k
  {
    if k > 0 {
      CountPeriods(A, k - 1);
      MulSigns(A.N, k - 1);
      var m: nat := A.N * (k - 1);
      assert A.N * k == m + A.N;
      CountSplit(A, 0, m, A.N);
      CountShift(A, 0, A.N, k - 1);
      CountFirstPeriod(A, A.N);
    }
  }

  /** How many members contain x. */
  function Hits(C: seq<AP>, x: int): nat {
    if C == [] then 0 else (if Contains1(C[0], x) then 1 else 0) + Hits(C[1..], x)
  }

  lemma {:induction false} HitsPositive(C: seq<AP>, x: int)
    ensures Hits(C, x) > 0 <==> IsInUnion(x, C)
    decreases |C|
  {
    if C != [] {
      HitsPositive(C[1..], x);
      assert C == [C[0]] + C[1..];
    }
  }

  /** Sum of Hits over [0, n). */
  function TotalHits(C: seq<AP>, n: nat): nat {
    if n == 0 then 0 else TotalHits(C, n - 1) + Hits(C, n - 1)
  }

  /** Sum over the members of their number of points in [0, n). */
  function SumCounts(C: seq<AP>, n: nat): nat {
    if C == [] then 0 else CountIn(C[0], 0, n) + SumCounts(C[1..], n)
  }

  lemma {:induction false} SumCountsStep(C: seq<AP>, n: nat)
    ensures SumCounts(C, 0) == 0
    ensures SumCounts(C, n + 1) == SumCounts(C, n) + Hits(C, n)
    decreases |C|
  {
    if C != [] {
      SumCountsStep(C[1..], n);
    }
  }

  /** Counting incidences by points or by members gives the same total. */
  lemma {:induction false} DoubleCount(C: seq<AP>, n: nat)
    ensures TotalHits(C, n) == SumCounts(C, n)
    decreases n
  {
    SumCountsStep(C, if n == 0 then 0 else n - 1);
    if n > 0 {
      DoubleCount(C, n - 1);
    }
  }

  lemma {:induction false} TotalHitsLower(C: seq<AP>, n: nat)
    requires forall x | 0 <= x < n :: IsInUnion(x, C)
    ensures TotalHits(C, n) >= n
    decreases n
  {
    if n > 0 {
      TotalHitsLower(C, n - 1);
      HitsPositive(C, n - 1);
    }
  }

  /** The weight of a genuine list is its number of incidences in [0, M)
      counted in units of 1/M, for any common multiple M of the moduli. */
  lemma {:induction false} RecipSum(C: seq<AP>, M: nat)
    requires AllGenuine(C) && M > 0 && forall A | A in C :: Divides(A.N, M)
    ensures ListWeight(C).Finite? && ListWeight(C).value == Times(Recip(M), SumCounts(C, M))
    decreases |C|
  {
    if C != [] {
      var A := C[0];
      AllGenuineCons(C);
      assert forall B | B in C[1..] :: B in C;
      RecipSum(C[1..], M);
      var k := DividesElim(A.N, M);
      MulSigns(A.N, k);
      CountPeriods(A, k);
      RecipSplit(A.N, k);
      TimesAdd(Recip(M), k, SumCounts(C[1..], M));
    }
  }

  /** A genuine list covering [0, M) for M the lcm of its moduli has weight at
      least 1: the weight test of `isCover_rank2` never rejects a cover. */
  lemma CoverForcesWeight(C: seq<AP>)
    requires AllGenuine(C) && forall x | 0 <= x < ModulusLcm(C) :: IsInUnion(x, C)
    ensures !Below(ListWeight(C), 1.0)
  {
    var M := ModulusLcm(C);
    RecipSum(C, M);
    TotalHitsLower(C, M);
    DoubleCount(C, M);
    TimesAtLeastOne(M, SumCounts(C, M));
  }

  /** Membership in an AP whose modulus divides M depends only on x mod M. */
  lemma ModReduce(A: AP, M: int, x: int)
    requires A.Class? && M != 0 && Divides(A.N, M)
    ensures Contains1(A, x) <==> Contains1(A, x % M)
  {
    ModCongruent(M, x);
    DividesTrans(A.N, M, x - x % M);
    DividesTrans(A.N, M, x % M - x);
    if Contains1(A, x) {
      DividesAdd(A.N, A.a - x, x - x % M);
      assert (A.a - x) + (x - x % M) == A.a - x % M;
    }
    if Contains1(A, x % M) {
      DividesAdd(A.N, A.a - x % M, x % M - x);
      assert (A.a - x % M) + (x % M - x) == A.a - x;
    }
  }

  /** Covering one period of a common multiple of the moduli covers Z. */
  lemma PeriodicCover(C: seq<AP>, M: nat)
    requires AllGenuine(C) && M > 0 && forall A | A in C :: Divides(A.N, M)
    requires forall x | 0 <= x < M :: IsInUnion(x, C)
    ensures CoversZ(C)
  {
    forall x ensures IsInUnion(x, C) {
      assert IsInUnion(x % M, C);
      var A :| A in C && Contains1(A, x % M);
      ModReduce(A, M, x);
    }
  }

  /** `isCover_rank2` decides whether a genuine list covers every integer. */
  lemma CoverRank2Iff(C: seq<AP>)
    requires AllGenuine(C)
    ensures IsCoverRank2(C) <==> CoversZ(C)
  {
    if IsCoverRank2(C) {
      PeriodicCover(C, ModulusLcm(C));
    }
    if CoversZ(C) {
      CoverForcesWeight(C);
    }
  }

  lemma {:induction false} GenuineOnlyOfGenuine(C: seq<AP>)
    requires AllGenuine(C)
    ensures GenuineOnly(C) == C
    decreases |C|
  {
    if C != [] {
      AllGenuineCons(C);
      GenuineOnlyOfGenuine(C[1..]);
      assert C == [C[0]] + C[1..];
    }
  }

  predicate GenuinelyCovered(x: int, C: seq<AP>) {
    exists A | A in C :: IsGenuine(A) && Contains1(A, x)
  }

  /** `isCover(C)` holds exactly when the genuine members cover every integer
      (singletons and trivial members are ignored). */
  lemma IsCoverMeans(C: seq<AP>)
    ensures IsCover(C) <==> forall x :: GenuinelyCovered(x, C)
  {
    CoverRank2Iff(GenuineOnly(C));
    if IsCover(C) {
      forall x ensures GenuinelyCovered(x, C) {
        assert IsInUnion(x, GenuineOnly(C));
      }
    }
    if forall x :: GenuinelyCovered(x, C) {
      forall x ensures IsInUnion(x, GenuineOnly(C)) {
        assert GenuinelyCovered(x, C);
        var A :| A in C && IsGenuine(A) && Contains1(A, x);
        assert A in GenuineOnly(C);
      }
    }
  }

  /** The full modulus-N covering is a cover of weight exactly 1 whose members
      are the N distinct classes modulo N. */
  lemma FullCoverIsExactCover(N: nat)
    requires N > 0
    ensures IsCover(FullCover(N)) && ListWeight(FullCover(N)) == Finite(1.0)
    ensures forall i, j | 0 <= i < j < N :: FullCover(N)[i] != FullCover(N)[j]
  {
    var C := FullCover(N);
    FullCoverCovers(N);
    UniformWeight(C, N);
    TimesRecip(N);
    assert ListWeight(C).value == 1.0;
    FullCoverDistinct(N);
  }

  lemma FullCoverDistinct(N: nat)
    ensures forall i, j | 0 <= i < j < N :: FullCover(N)[i] != FullCover(N)[j]
  {
    forall i, j | 0 <= i < j < N ensures FullCover(N)[i] != FullCover(N)[j] {
      FullCoverMember(N, i);
      FullCoverMember(N, j);
    }
  }

  lemma ModSmall(x: int, n: int)
    requires 0 <= x < n
    ensures x % n == x
  {
    ModCongruent(n, x);
    ResidueUnique(n, x % n, x);
  }

  lemma FullCoverMember(N: nat, i: int)
    requires 0 <= i < N
    ensures FullCover(N)[i] == Class(N, i)
  {
    ModSmall(i, N);
  }

  lemma FullCoverCovers(N: nat)
    requires N > 0
    ensures IsCover(FullCover(N))
  {
    var C := FullCover(N);
    assert AllGenuine(C);
    GenuineOnlyOfGenuine(C);
    forall x ensures IsInUnion(x, C) {
      FullCoverContains(N, x);
    }
    CoverRank2Iff(C);
  }

  lemma FullCoverContains(N: nat, x: int)
    requires N > 0
    ensures IsInUnion(x, FullCover(N))
  {
    var C := FullCover(N);
    var y := x % N;
    ModCongruent(N, x);
    FullCoverMember(N, y);
    assert C[y] in C && Contains1(C[y], x);
  }

  lemma {:induction false} UniformWeight(C: seq<AP>, N: nat)
    requires N > 0 && forall A | A in C :: A.Class? && A.N == N
    ensures ListWeight(C).Finite? && ListWeight(C).value == Times(Recip(N), |C|)
    decreases |C|
  {
    if C != [] {
      assert C[0] in C;
      AllGenuineCons(C);
      assert forall B | B in C[1..] :: B in C;
      UniformWeight(C[1..], N);
    }
  }

  // ---------------------------------------------------------------------
  // Deleting and replacing a member

  lemma WithoutMembers(C: seq<AP>, i: int)
    requires 0 <= i < |C|
    ensures forall A :: A in Without(C, i) <==> exists j | 0 <= j < |C| && j != i :: C[j] == A
  {
    var R := Without(C, i);
    forall A ensures A in R <==> exists j | 0 <= j < |C| && j != i :: C[j] == A {
      if A in R {
        var k :| 0 <= k < |R| && R[k] == A;
        if k < i {
          assert R[k] == C[k];
        } else {
          assert R[k] == C[k + 1];
        }
      }
      if exists j | 0 <= j < |C| && j != i :: C[j] == A {
        var j :| 0 <= j < |C| && j != i && C[j] == A;
        if j < i {
          assert R[j] == A;
        } else {
          assert R[j - 1] == A;
        }
      }
    }
  }

  /** Deleting member i removes exactly its weight. */
  lemma {:induction false} WeightWithout(C: seq<AP>, i: int)
    requires AllGenuine(C) && 0 <= i < |C|
    ensures IsGenuine(C[i]) && AllGenuine(Without(C, i)) && ListWeight(Without(C, i)).Finite?
    ensures ListWeight(Without(C, i)).value + Weight(C[i]).value == ListWeight(C).value
    decreases |C|
  {
    assert C[i] in C;
    AllGenuineCons(C);
    var R := Without(C, i);
    if i > 0 {
      var R' := Without(C[1..], i - 1);
      assert R == [C[0]] + R';
      WeightWithout(C[1..], i - 1);
      assert C[1..][i - 1] == C[i];
      assert R[0] == C[0] && R[1..] == R';
      AllGenuineCons(R);
      assert ListWeight(R) == Plus(Weight(C[0]), ListWeight(R'));
      assert ListWeight(C) == Plus(Weight(C[0]), ListWeight(C[1..]));
    } else {
      assert R == C[1..];
    }
  }

  /** Replacing member i by B trades its weight for the weight of B. */
  lemma {:induction false} WeightReplace(C: seq<AP>, i: int, B: AP)
    requires AllGenuine(C) && IsGenuine(B) && 0 <= i < |C|
    ensures IsGenuine(C[i]) && AllGenuine(C[i := B]) && ListWeight(C[i := B]).Finite?
    ensures ListWeight(C[i := B]).value + Weight(C[i]).value == ListWeight(C).value + Weight(B).value
    decreases |C|
  {
    assert C[i] in C;
    var R := C[i := B];
    forall A | A in R ensures IsGenuine(A) {
      var k :| 0 <= k < |R| && R[k] == A;
      assert k != i ==> R[k] in C;
    }
    AllGenuineCons(C);
    if i > 0 {
      assert R[1..] == C[1..][i - 1 := B];
      WeightReplace(C[1..], i - 1, B);
    } else {
      assert R[1..] == C[1..];
    }
  }

  /** `isCover_without1(C, i)` holds exactly when the genuine members other
      than the i'th cover every integer. */
  lemma IsCoverWithout1Means(C: seq<AP>, i: int)
    requires 0 <= i < |C|
    ensures IsCoverWithout1(C, i) <==> forall x :: GenuinelyCoveredBut(x, C, i)
  {
    IsCoverMeans(Without(C, i));
    WithoutMembers(C, i);
    forall x ensures GenuinelyCovered(x, Without(C, i)) <==> GenuinelyCoveredBut(x, C, i) {
      if GenuinelyCoveredBut(x, C, i) {
        var j :| 0 <= j < |C| && j != i && IsGenuine(C[j]) && Contains1(C[j], x);
        assert C[j] in Without(C, i);
      }
    }
  }

  predicate GenuinelyCoveredBut(x: int, C: seq<AP>, i: int) {
    exists j | 0 <= j < |C| && j != i :: IsGenuine(C[j]) && Contains1(C[j], x)
  }

  /** On a genuine list `isFull` holds exactly when no single deletion leaves
      a cover; the weight-1 shortcut is sound because a deletion from a list
      of weight 1 leaves weight below 1. */
  lemma IsFullMeans(C: seq<AP>)
    requires AllGenuine(C)
    ensures IsFull(C, false) <==> forall i | 0 <= i < |C| :: !CoversZ(Without(C, i))
  {
    forall i | 0 <= i < |C|
      ensures IsCoverWithout1(C, i) <==> CoversZ(Without(C, i))
      ensures ListWeight(C) == Finite(1.0) ==> !CoversZ(Without(C, i))
    {
      WeightWithout(C, i);
      GenuineOnlyOfGenuine(Without(C, i));
      CoverRank2Iff(Without(C, i));
      assert C[i] in C;
      assert Weight(C[i]).value > 0.0;
    }
  }

  // ---------------------------------------------------------------------
  // One-minimality: A cannot be replaced by a proper sub-AP

  lemma EqRefl(A: AP)
    ensures Eq(A, A)
  {
    if A.Class? {
      DividesRefl(A.N);
    }
  }

  lemma DividesAntisymImp(a: nat, b: nat)
    ensures Divides(a, b) && Divides(b, a) ==> a == b
  {
    if Divides(a, b) && Divides(b, a) {
      DividesAntisym(a, b);
    }
  }

  /** Being private depends only on x modulo a common multiple of the moduli. */
  lemma PrivateReduce(C: seq<AP>, A: AP, M: nat, x: int)
    requires M > 0 && forall A1 | A1 in C :: A1.Class? && Divides(A1.N, M)
    ensures Private(C, A, x) <==> Private(C, A, x % M)
  {
    forall A1 | A1 in C ensures Contains1(A1, x) <==> Contains1(A1, x % M) {
      ModReduce(A1, M, x);
    }
  }

  /** A private point of C[i] is a private point in [0, M). */
  lemma PrivateInPeriod(C: seq<AP>, A: AP, x: int)
    requires AllGenuine(C)
    ensures Private(C, A, x) <==> x % ModulusLcm(C) in PrivatePoints(C, A, ModulusLcm(C))
  {
    PrivateReduce(C, A, ModulusLcm(C), x);
  }

  /** When C[i] has no copy in C, the only member of C[i := B] that can cover
      a private point of C[i] is B. */
  lemma PrivateOnlyIn(C: seq<AP>, i: int, B: AP, y: int)
    requires 0 <= i < |C| && NoDuplicateOf(C, i)
    requires Private(C, C[i], y) && IsInUnion(y, C[i := B])
    ensures Contains1(B, y)
  {
    var R := C[i := B];
    var A1 :| A1 in R && Contains1(A1, y);
    var j :| 0 <= j < |R| && R[j] == A1;
    assert C[j] in C;
    assert j == i;
  }

  /** A point that is not private to C[i] is covered by another member. */
  lemma NotPrivateElsewhere(C: seq<AP>, i: int, y: int)
    requires 0 <= i < |C| && !Private(C, C[i], y)
    ensures exists j | 0 <= j < |C| && j != i :: Contains1(C[j], y)
  {
    var A1 :| A1 in C && !Eq(A1, C[i]) && Contains1(A1, y);
    var j :| 0 <= j < |C| && C[j] == A1;
    EqRefl(C[i]);
  }

  /** Any B through all private points of C[i] can take its place. */
  lemma ReplaceCovers(C: seq<AP>, i: int, B: AP)
    requires 0 <= i < |C|
    requires forall x :: Private(C, C[i], x) ==> Contains1(B, x)
    ensures CoversZ(C[i := B])
  {
    var R := C[i := B];
    forall x ensures IsInUnion(x, R) {
      if Private(C, C[i], x) {
        assert R[i] in R;
      } else {
        NotPrivateElsewhere(C, i, x);
        var j :| 0 <= j < |C| && j != i && Contains1(C[j], x);
        assert R[j] in R;
      }
    }
  }

  lemma ModShiftSmall(s: int, M: int)
    requires 0 <= s < M
    ensures (s + M) % M == s
  {
    ModCongruent(M, s + M);
    DividesRefl(M);
    DividesAdd(M, (s + M) % M - (s + M), M);
    assert (s + M) % M - (s + M) + M == (s + M) % M - s;
    ResidueUnique(M, (s + M) % M, s);
  }

  /** The weight shortcut of `isOneMinimal`: when the weight of C[i] exceeds
      twice the excess weight of C, replacing C[i] by a proper sub-AP (whose
      weight is at most half) leaves weight below 1, so no cover. */
  lemma FastPathSound(C: seq<AP>, i: int, B: AP)
    requires AllGenuine(C) && 0 <= i < |C|
    requires Exceeds(Weight(C[i]), TwiceExcess(ListWeight(C)))
    requires ProperSub(C[i], B)
    ensures !CoversZ(C[i := B])
  {
    WeightReplace(C, i, B);
    RecipHalf(C[i].N, B.N);
    CoverRank2Iff(C[i := B]);
  }

  /** A proper multiple n of N has 1/n at most half of 1/N. */
  lemma RecipHalf(N: nat, n: nat)
    requires N > 0 && n > 0 && Divides(N, n) && n != N
    ensures 2.0 * Recip(n) <= Recip(N)
  {
    var k := DividesElim(N, n);
    MulSigns(N, k);
    assert k >= 2;
    RecipSplit(N, k);
    TimesAdd(Recip(n), 2, k - 2);
    TimesNonneg(Recip(n), k - 2);
  }

  /** With no private points, C[i] is redundant: a proper sub-AP (indeed any
      AP) can take its place. */
  lemma NoPrivateRedundant(C: seq<AP>, i: int)
    requires AllGenuine(C) && 0 <= i < |C|
    requires |PrivatePoints(C, C[i], ModulusLcm(C))| == 0
    ensures ProperSub(C[i], Class(2 * C[i].N, C[i].a))
    ensures CoversZ(C[i := Class(2 * C[i].N, C[i].a)])
  {
    var A := C[i];
    assert A in C;
    forall x ensures !Private(C, A, x) {
      PrivateInPeriod(C, A, x);
    }
    ReplaceCovers(C, i, Class(2 * A.N, A.a));
    DividesIntro(A.N, 2);
    DividesRefl(A.N);
  }

  /** All private points of C[i] lie in C[i] when C covers and C[i] has no copy. */
  lemma PrivateInside(C: seq<AP>, i: int, y: int)
    requires 0 <= i < |C| && NoDuplicateOf(C, i) && CoversZ(C) && Private(C, C[i], y)
    ensures Contains1(C[i], y)
  {
    assert C[i := C[i]] == C;
    PrivateOnlyIn(C, i, C[i], y);
  }

  /** The divisors of the gcd D computed by `isOneMinimal` are the moduli of
      the APs through all private points whose modulus divides M. */
  lemma DifferencesDivisor(M: nat, S: seq<int>, d: int)
    requires |S| > 0 && Divides(d, M)
    requires forall k | 0 <= k < |S| :: Divides(d, S[0] - S[k])
    ensures Divides(d, GcdList([M as int] + Differences(S)))
  {
    var L := [M as int] + Differences(S);
    forall k | 0 <= k < |L| ensures Divides(d, L[k]) {
      if k > 0 {
        assert L[k] == S[0] - S[k];
      }
    }
    GcdListGreatest(L, d);
  }

  lemma DifferencesDivided(M: nat, S: seq<int>)
    requires |S| > 0
    ensures Divides(GcdList([M as int] + Differences(S)), M)
    ensures forall k | 0 <= k < |S| :: Divides(GcdList([M as int] + Differences(S)), S[0] - S[k])
  {
    var L := [M as int] + Differences(S);
    var D := GcdList(L);
    assert L[0] == M;
    forall k | 0 <= k < |S| ensures Divides(D, S[0] - S[k]) {
      if k > 0 {
        assert L[k] == S[0] - S[k];
      } else {
        DividesRefl(D);
      }
    }
  }

  /** When D differs from the modulus of C[i], the AP S[0] + D*Z is a proper
      sub-AP of C[i] through all its private points, so it can replace C[i]. */
  lemma SmallerApReplaces(C: seq<AP>, i: int)
    requires AllGenuine(C) && 0 <= i < |C| && CoversZ(C) && NoDuplicateOf(C, i)
    requires |PrivatePoints(C, C[i], ModulusLcm(C))| > 0
    requires GcdList([ModulusLcm(C) as int] + Differences(PrivatePoints(C, C[i], ModulusLcm(C)))) != C[i].N
    ensures
      var S := PrivatePoints(C, C[i], ModulusLcm(C));
      var D := GcdList([ModulusLcm(C) as int] + Differences(S));
      ProperSub(C[i], Class(D, S[0])) && CoversZ(C[i := Class(D, S[0])])
  {
    var A, M := C[i], ModulusLcm(C);
    var S := PrivatePoints(C, A, M);
    var D := GcdList([M as int] + Differences(S));
    var B := Class(D, S[0]);
    assert A in C;
    DifferencesDivided(M, S);
    forall k | 0 <= k < |S| ensures Contains1(A, S[k]) {
      assert S[k] in S;
      PrivateInside(C, i, S[k]);
    }
    forall k | 0 <= k < |S| ensures Divides(A.N, S[0] - S[k]) {
      DividesAdd(A.N, A.a - S[k], A.a - S[0]);
      assert (A.a - S[k]) - (A.a - S[0]) == S[0] - S[k];
    }
    DifferencesDivisor(M, S, A.N);
    forall x | Private(C, A, x) ensures Contains1(B, x) {
      PrivateInPeriod(C, A, x);
      ThroughResidues(S, M, D, x);
    }
    ReplaceCovers(C, i, B);
  }

  /** An AP through all of S whose modulus divides M passes through every x
      whose residue modulo M is in S. */
  lemma ThroughResidues(S: seq<int>, M: nat, D: nat, x: int)
    requires M > 0 && |S| > 0 && Divides(D, M) && x % M in S
    requires forall k | 0 <= k < |S| :: Divides(D, S[0] - S[k])
    ensures Divides(D, S[0] - x)
  {
    var k :| 0 <= k < |S| && S[k] == x % M;
    ModCongruent(M, x);
    DividesTrans(D, M, x % M - x);
    DividesAdd(D, S[0] - S[k], x % M - x);
  }

  /** A replacement B of C[i] that keeps a cover passes through every private
      point p and through p + M, so its modulus divides D. */
  lemma ReplacementDivides(C: seq<AP>, i: int, B: AP)
    requires AllGenuine(C) && 0 <= i < |C| && NoDuplicateOf(C, i) && IsGenuine(B)
    requires |PrivatePoints(C, C[i], ModulusLcm(C))| > 0
    ensures CoversZ(C[i := B]) ==>
      Divides(B.N, GcdList([ModulusLcm(C) as int] + Differences(PrivatePoints(C, C[i], ModulusLcm(C)))))
  {
    var A, M := C[i], ModulusLcm(C);
    var S := PrivatePoints(C, A, M);
    if CoversZ(C[i := B]) {
      forall k | 0 <= k < |S| ensures Contains1(B, S[k]) && Contains1(B, S[k] + M) {
        assert S[k] in S;
        ReplacementThrough(C, i, B, S[k], M);
      }
      DividesAdd(B.N, B.a - S[0], B.a - (S[0] + M));
      assert (B.a - S[0]) - (B.a - (S[0] + M)) == M;
      forall k | 0 <= k < |S| ensures Divides(B.N, S[0] - S[k]) {
        DividesAdd(B.N, B.a - S[k], B.a - S[0]);
        assert (B.a - S[k]) - (B.a - S[0]) == S[0] - S[k];
      }
      DifferencesDivisor(M, S, B.N);
    }
  }

  lemma ReplacementThrough(C: seq<AP>, i: int, B: AP, p: int, M: nat)
    requires AllGenuine(C) && 0 <= i < |C| && NoDuplicateOf(C, i) && CoversZ(C[i := B])
    requires M == ModulusLcm(C) && 0 <= p < M && Private(C, C[i], p)
    ensures Contains1(B, p) && Contains1(B, p + M)
  {
    PrivateReduce(C, C[i], M, p + M);
    ModShiftSmall(p, M);
    ReplacementAtPrivate(C, i, B, p);
    ReplacementAtPrivate(C, i, B, p + M);
  }

  lemma ReplacementAtPrivate(C: seq<AP>, i: int, B: AP, y: int)
    requires 0 <= i < |C| && NoDuplicateOf(C, i) && CoversZ(C[i := B]) && Private(C, C[i], y)
    ensures Contains1(B, y)
  {
    assert IsInUnion(y, C[i := B]);
    PrivateOnlyIn(C, i, B, y);
  }

  /** `isOneMinimal(C, C[i])`, for a genuine cover C in which C[i] has no copy,
      holds exactly when no proper sub-AP of C[i] can replace it in a cover. */
  lemma OneMinimalIff(C: seq<AP>, i: int)
    requires AllGenuine(C) && 0 <= i < |C| && CoversZ(C) && NoDuplicateOf(C, i)
    ensures IsOneMinimal(C, C[i]) <==> forall B | ProperSub(C[i], B) :: !CoversZ(C[i := B])
  {
    var A := C[i];
    assert A in C;
    if Exceeds(Weight(A), TwiceExcess(ListWeight(C))) {
      forall B | ProperSub(A, B) ensures !CoversZ(C[i := B]) {
        FastPathSound(C, i, B);
      }
    } else {
      var M := ModulusLcm(C);
      var S := PrivatePoints(C, A, M);
      if |S| == 0 {
        NoPrivateRedundant(C, i);
      } else {
        var D := GcdList([M as int] + Differences(S));
        if D != A.N {
          SmallerApReplaces(C, i);
        } else {
          forall B | ProperSub(A, B) ensures !CoversZ(C[i := B]) {
            ReplacementDivides(C, i, B);
            DividesAntisymImp(A.N, B.N);
          }
        }
      }
    }
  }

  /** `isMinimal(C)`, for a cover without repeated classes, holds exactly when
      no member can be shrunk.  With a singleton present every member fails
      the test (`SingletonFailsTest`), and the singleton is indeed redundant. */
  lemma MinimalIff(C: seq<AP>)
    requires NoTrivial(C) && CoversZ(C)
    requires forall i | 0 <= i < |C| :: NoDuplicateOf(C, i)
    ensures IsMinimal(C, false) <==>
      forall i | 0 <= i < |C| :: forall B | ShrinksTo(C[i], B) :: !CoversZ(C[i := B])
  {
    if AllGenuine(C) {
      GenuineMinimalIff(C);
    } else {
      var A :| A in C && !IsGenuine(A);
      var s :| 0 <= s < |C| && C[s] == A;
      var B := Shrinkable(C, s);
      SingletonFailsTest(C, C[0]);
      assert C[0] in C;
    }
  }

  lemma GenuineMinimalIff(C: seq<AP>)
    requires AllGenuine(C) && CoversZ(C)
    requires forall i | 0 <= i < |C| :: NoDuplicateOf(C, i)
    ensures IsMinimal(C, false) <==>
      forall i | 0 <= i < |C| :: forall B | ShrinksTo(C[i], B) :: !CoversZ(C[i := B])
  {
    forall i | 0 <= i < |C|
      ensures IsOneMinimal(C, C[i]) <==> forall B | ShrinksTo(C[i], B) :: !CoversZ(C[i := B])
    {
      assert C[i] in C;
      OneMinimalIff(C, i);
      assert forall B :: ShrinksTo(C[i], B) <==> ProperSub(C[i], B);
    }
    assert forall A | A in C :: exists i | 0 <= i < |C| :: C[i] == A;
  }

  // ---------------------------------------------------------------------
  // Repeated classes

  /** As written, `isOneMinimal` passes over every class equal to A when it
      collects the private points, so a class repeated in the list is judged
      as if it stood alone: in [Z, Z] the first copy passes the test, although
      replacing it by 2Z leaves a list that still covers Z. */
  lemma DuplicateJudgedOneMinimal()
    ensures IsOneMinimal([Class(1, 0), Class(1, 0)], Class(1, 0))
    ensures ProperSub(Class(1, 0), Class(2, 0))
    ensures CoversZ([Class(1, 0), Class(1, 0)][0 := Class(2, 0)])
    ensures !IsOneMinimalAt([Class(1, 0), Class(1, 0)], 0)
  {
    var A := Class(1, 0);
    var C := [A, A];
    assert AllGenuine(C);
    UniformWeight(C, 1);
    assert Recip(1) == 1.0;
    assert ListWeight(C) == Finite(2.0);
    var M := ModulusLcm(C);
    assert Divides(M, 1);
    DividesLe(M, 1);
    EqRefl(A);
    assert Private(C, A, 0);
    var S := PrivatePoints(C, A, M);
    assert 0 in S;
    GcdListWithOne(Differences(S));
    assert !NoDuplicateOf(C, 0) by {
      assert Eq(C[1], C[0]);
    }
    var R := C[0 := Class(2, 0)];
    forall x ensures IsInUnion(x, R) {
      assert Contains1(R[1], x);
    }
    DividesIntro(1, 2);
    DividesRefl(1);
  }

  /** One-minimality of the i-th member as `isOneMinimal` documents it.  A
      class with an equal copy elsewhere in the list is redundant; a genuine
      class is judged by the code's test run on the genuine members alone (as
      `isCover` does); a singleton is one-minimal when no other member holds
      its point, for otherwise the trivial AP can take its place. */
  predicate IsOneMinimalAt(C: seq<AP>, i: int)
    requires NoTrivial(C) && 0 <= i < |C|
  {
    NoDuplicateOf(C, i) &&
    if IsGenuine(C[i]) then IsOneMinimal(GenuineOnly(C), C[i])
    else !IsInUnion(C[i].a, Without(C, i))
  }

  /** `isMinimal` built on the corrected one-minimality. */
  predicate IsMinimalAt(C: seq<AP>, check: bool)
    requires NoTrivial(C)
  {
    (!check || IsCover(C)) && forall i | 0 <= i < |C| :: IsOneMinimalAt(C, i)
  }

  /** The replacements a proper sub-AP stands for: a genuine proper subclass
      of a genuine class, and the trivial AP in place of a singleton. */
  predicate ShrinksTo(A: AP, B: AP) {
    ProperSub(A, B) || (A.Class? && A.N == 0 && B.Trivial?)
  }

  /** Doubling the modulus of a genuine class gives a proper subclass. */
  lemma HalfIsProperSub(A: AP)
    requires IsGenuine(A)
    ensures ProperSub(A, Class(2 * A.N, A.a))
  {
    DividesIntro(A.N, 2);
    DividesRefl(A.N);
  }

  /** A member with an equal copy elsewhere can be replaced by anything and
      the list still covers Z. */
  lemma CopyRedundant(C: seq<AP>, i: int, j: int, B: AP)
    requires 0 <= i < |C| && 0 <= j < |C| && i != j && Eq(C[j], C[i]) && CoversZ(C)
    ensures CoversZ(C[i := B])
  {
    EqIsSameSet(C[j], C[i]);
    var R := C[i := B];
    forall x ensures IsInUnion(x, R) {
      assert IsInUnion(x, C);
      var A1 :| A1 in C && Contains1(A1, x);
      var k :| 0 <= k < |C| && C[k] == A1;
      if k == i {
        assert R[j] == C[j];
      } else {
        assert R[k] == C[k];
      }
    }
  }

  // ---------------------------------------------------------------------
  // Singleton members

  /** As written, one singleton anywhere in the list makes the weight Infinity,
      so the short-cut never fires, and the lcm 0, so no residue is examined:
      `isOneMinimal` is False for every class. */
  lemma SingletonFailsTest(C: seq<AP>, A: AP)
    requires NoTrivial(C) && !AllGenuine(C)
    ensures ModulusLcm(C) == 0 && !IsOneMinimal(C, A)
  {
    var A0 :| A0 in C && !IsGenuine(A0);
    assert PrivatePoints(C, A, 0) == [];
  }

  /** On [Z, {0}] the as-written test rejects Z, since no residue is examined
      modulo the lcm 0, although no proper subclass of Z can replace it; the
      corrected test accepts Z. */
  lemma SingletonVoidsOneMinimal()
    ensures CoversZ([Class(1, 0), Class(0, 0)])
    ensures |PrivatePoints([Class(1, 0), Class(0, 0)], Class(1, 0), ModulusLcm([Class(1, 0), Class(0, 0)]))| == 0
    ensures !IsOneMinimal([Class(1, 0), Class(0, 0)], Class(1, 0))
    ensures IsOneMinimalAt([Class(1, 0), Class(0, 0)], 0)
    ensures forall B | ProperSub(Class(1, 0), B) :: !CoversZ([Class(1, 0), Class(0, 0)][0 := B])
  {
    var C := [Class(1, 0), Class(0, 0)];
    forall x ensures IsInUnion(x, C) {
      DividesRefl(-x);
      assert Contains1(C[0], x);
    }
    assert C[1] in C;
    SingletonFailsTest(C, C[0]);
    assert !Eq(C[1], C[0]);
    assert C[1..] == [Class(0, 0)] && C[1..][1..] == [];
    assert GenuineOnly(C) == [Class(1, 0)];
    assert Recip(1) == 1.0;
    assert ListWeight([Class(1, 0)]) == Finite(1.0);
    OneMinimalAtIff(C, 0);
    forall B | ProperSub(Class(1, 0), B) ensures !CoversZ(C[0 := B]) {
      assert ShrinksTo(C[0], B);
    }
  }

  /** A bound above the point of every singleton member. */
  function SingletonBound(C: seq<AP>): (b: int)
    ensures forall A | A in C && A.Class? && A.N == 0 :: A.a < b
  {
    if C == [] then 0
    else
      assert C == [C[0]] + C[1..];
      var b := SingletonBound(C[1..]);
      if C[0].Class? && C[0].N == 0 && C[0].a >= b then C[0].a + 1 else b
  }

  /** Singletons hold finitely many points, so in a cover every integer lies
      in a genuine member: x + M*t, with M the lcm of the genuine moduli and t
      large enough to pass every singleton, lies in a genuine class, and that
      class then holds x. */
  lemma CoverIsGenuine(C: seq<AP>, x: int)
    requires NoTrivial(C) && CoversZ(C)
    ensures GenuinelyCovered(x, C)
  {
    var M := ModulusLcm(GenuineOnly(C));
    var b := SingletonBound(C);
    var t: nat := Abs(b) + Abs(x);
    MulSigns(M - 1, t);
    assert M * t == (M - 1) * t + t;
    var y := x + M * t;
    assert IsInUnion(y, C);
    var A :| A in C && Contains1(A, y);
    assert IsGenuine(A);
    assert A in GenuineOnly(C);
    DividesIntro(M, t);
    DividesTrans(A.N, M, M * t);
    DividesAdd(A.N, A.a - y, M * t);
    assert A.a - y + M * t == A.a - x;
  }

  /** A list without trivial members covers Z exactly when its genuine
      members do. */
  lemma CoversIffGenuine(C: seq<AP>)
    requires NoTrivial(C)
    ensures CoversZ(C) <==> CoversZ(GenuineOnly(C))
  {
    var G := GenuineOnly(C);
    if CoversZ(C) {
      forall x ensures IsInUnion(x, G) {
        CoverIsGenuine(C, x);
        var A :| A in C && IsGenuine(A) && Contains1(A, x);
        assert A in G;
      }
    }
    if CoversZ(G) {
      forall x ensures IsInUnion(x, C) {
        assert IsInUnion(x, G);
      }
    }
  }

  /** In a cover a singleton member is redundant: another (genuine) member
      holds its point, and the trivial AP can take its place. */
  lemma SingletonRedundant(C: seq<AP>, i: int)
    requires NoTrivial(C) && CoversZ(C) && 0 <= i < |C| && !IsGenuine(C[i])
    ensures C[i].Class? && C[i].N == 0
    ensures IsInUnion(C[i].a, Without(C, i))
    ensures CoversZ(C[i := Trivial])
  {
    assert C[i] in C;
    var R := C[i := Trivial];
    forall x ensures IsInUnion(x, R) {
      CoverIsGenuine(C, x);
      var A :| A in C && IsGenuine(A) && Contains1(A, x);
      var k :| 0 <= k < |C| && C[k] == A;
      assert R[k] == A;
    }
    CoverIsGenuine(C, C[i].a);
    var A :| A in C && IsGenuine(A) && Contains1(A, C[i].a);
    var k :| 0 <= k < |C| && C[k] == A;
    WithoutMembers(C, i);
    assert A in Without(C, i);
  }

  /** The position of the genuine member C[i] in `GenuineOnly(C)`. */
  function GenuineIndex(C: seq<AP>, i: int): nat
    requires 0 <= i < |C|
    decreases i
  {
    if i == 0 then 0 else (if IsGenuine(C[0]) then 1 else 0) + GenuineIndex(C[1..], i - 1)
  }

  /** C[i] sits at `GenuineIndex(C, i)` among the genuine members. */
  lemma {:induction false} GenuineIndexAt(C: seq<AP>, i: int)
    requires 0 <= i < |C| && IsGenuine(C[i])
    ensures GenuineIndex(C, i) < |GenuineOnly(C)| && GenuineOnly(C)[GenuineIndex(C, i)] == C[i]
    decreases |C|
  {
    var T := C[1..];
    assert C == [C[0]] + T;
    if i > 0 {
      GenuineIndexAt(T, i - 1);
    }
  }

  /** Keeping the genuine members commutes with replacing a genuine member by
      a genuine AP. */
  lemma {:induction false} GenuineOnlyUpdate(C: seq<AP>, i: int, B: AP)
    requires 0 <= i < |C| && IsGenuine(C[i]) && IsGenuine(B)
    ensures GenuineIndex(C, i) < |GenuineOnly(C)|
    ensures GenuineOnly(C[i := B]) == GenuineOnly(C)[GenuineIndex(C, i) := B]
    decreases |C|
  {
    GenuineIndexAt(C, i);
    var T, R := C[1..], C[i := B];
    assert C == [C[0]] + T && R == [R[0]] + R[1..];
    if i == 0 {
      assert R[1..] == T;
    } else {
      GenuineOnlyUpdate(T, i - 1, B);
      assert R[0] == C[0] && R[1..] == T[i - 1 := B];
    }
  }

  /** Every other genuine member comes from another position of C. */
  lemma {:induction false} GenuineIndexOthers(C: seq<AP>, i: int)
    requires 0 <= i < |C| && IsGenuine(C[i])
    ensures forall k | 0 <= k < |GenuineOnly(C)| && k != GenuineIndex(C, i) ::
      exists l | 0 <= l < |C| && l != i :: C[l] == GenuineOnly(C)[k]
    decreases |C|
  {
    if i > 0 {
      GenuineIndexOthers(C[1..], i - 1);
    }
    forall k | 0 <= k < |GenuineOnly(C)| && k != GenuineIndex(C, i)
      ensures exists l | 0 <= l < |C| && l != i :: C[l] == GenuineOnly(C)[k]
    {
      var l := GenuineIndexOther(C, i, k);
      assert 0 <= l < |C| && l != i && C[l] == GenuineOnly(C)[k];
    }
    assert forall k | 0 <= k < |GenuineOnly(C)| && k != GenuineIndex(C, i) ::
      exists l | 0 <= l < |C| && l != i :: C[l] == GenuineOnly(C)[k];
  }

  /** One step of `GenuineIndexOthers`, for a single position k. */
  lemma GenuineIndexOther(C: seq<AP>, i: int, k: int) returns (l: int)
    requires 0 <= i < |C| && IsGenuine(C[i])
    requires 0 <= k < |GenuineOnly(C)| && k != GenuineIndex(C, i)
    requires i > 0 ==> forall k' | 0 <= k' < |GenuineOnly(C[1..])| && k' != GenuineIndex(C[1..], i - 1) ::
      exists l' | 0 <= l' < |C[1..]| && l' != i - 1 :: C[1..][l'] == GenuineOnly(C[1..])[k']
    ensures 0 <= l < |C| && l != i && C[l] == GenuineOnly(C)[k]
  {
    var T := C[1..];
    var P: seq<AP> := if IsGenuine(C[0]) then [C[0]] else [];
    assert C == [C[0]] + T;
    assert GenuineOnly(C) == P + GenuineOnly(T);
    if k < |P| {
      l := 0;
    } else {
      var A := GenuineOnly(T)[k - |P|];
      assert A == GenuineOnly(C)[k];
      if i == 0 {
        assert A in GenuineOnly(T);
        var l' :| 0 <= l' < |T| && T[l'] == A;
        l := l' + 1;
      } else {
        assert k - |P| != GenuineIndex(T, i - 1);
        var l' :| 0 <= l' < |T| && l' != i - 1 && T[l'] == A;
        l := l' + 1;
      }
    }
  }

  /** For a genuine member without copy, the code's test run on the genuine
      members decides whether a proper subclass can replace it. */
  lemma GenuineOneMinimalIff(C: seq<AP>, i: int)
    requires NoTrivial(C) && 0 <= i < |C| && CoversZ(C) && NoDuplicateOf(C, i) && IsGenuine(C[i])
    ensures IsOneMinimal(GenuineOnly(C), C[i]) <==> forall B | ProperSub(C[i], B) :: !CoversZ(C[i := B])
  {
    var G, j := GenuineOnly(C), GenuineIndex(C, i);
    GenuineIndexAt(C, i);
    GenuineIndexOthers(C, i);
    forall k | 0 <= k < |G| && k != j ensures !Eq(G[k], G[j]) {
      var l :| 0 <= l < |C| && l != i && C[l] == G[k];
    }
    CoversIffGenuine(C);
    OneMinimalIff(G, j);
    forall B | ProperSub(C[i], B) ensures CoversZ(C[i := B]) <==> CoversZ(G[j := B]) {
      GenuineOnlyUpdate(C, i, B);
      var R := C[i := B];
      forall A | A in R ensures A.Class? {
        var k :| 0 <= k < |R| && R[k] == A;
        if k != i { assert C[k] in C; }
      }
      CoversIffGenuine(R);
    }
  }

  /** A member with a copy, or a singleton, can be shrunk in a cover. */
  lemma Shrinkable(C: seq<AP>, i: int) returns (B: AP)
    requires NoTrivial(C) && 0 <= i < |C| && CoversZ(C)
    requires !NoDuplicateOf(C, i) || !IsGenuine(C[i])
    ensures ShrinksTo(C[i], B) && CoversZ(C[i := B])
  {
    var A := C[i];
    assert A in C;
    if !IsGenuine(A) {
      SingletonRedundant(C, i);
      B := Trivial;
    } else {
      var j :| 0 <= j < |C| && j != i && Eq(C[j], C[i]);
      B := Class(2 * A.N, A.a);
      HalfIsProperSub(A);
      CopyRedundant(C, i, j, B);
    }
  }

  /** The corrected one-minimality holds exactly when C[i] cannot be shrunk
      in the cover, repeated classes and singletons included. */
  lemma OneMinimalAtIff(C: seq<AP>, i: int)
    requires NoTrivial(C) && 0 <= i < |C| && CoversZ(C)
    ensures IsOneMinimalAt(C, i) <==> forall B | ShrinksTo(C[i], B) :: !CoversZ(C[i := B])
  {
    if NoDuplicateOf(C, i) && IsGenuine(C[i]) {
      GenuineOneMinimalIff(C, i);
      assert forall B :: ShrinksTo(C[i], B) <==> ProperSub(C[i], B);
    } else {
      if !IsGenuine(C[i]) { SingletonRedundant(C, i); }
      var B := Shrinkable(C, i);
    }
  }

  /** The corrected minimality holds exactly when no member of the cover can
      be shrunk. */
  lemma MinimalAtIff(C: seq<AP>)
    requires NoTrivial(C) && CoversZ(C)
    ensures IsMinimalAt(C, false) <==>
      forall i | 0 <= i < |C| :: forall B | ShrinksTo(C[i], B) :: !CoversZ(C[i := B])
  {
    forall i | 0 <= i < |C|
      ensures IsOneMinimalAt(C, i) <==> forall B | ShrinksTo(C[i], B) :: !CoversZ(C[i := B])
    {
      OneMinimalAtIff(C, i);
    }
  }
}
