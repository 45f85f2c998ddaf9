/** Rank-2 analogue of the residue classes: subgroups L(c:d;N) of Z^2 given
    by an index N and a vector (c, d), and the covering engine over lists of
    them.  Sage's enumeration of the projective line P^1(Z/NZ), its
    normalisation of pairs and the position of a normalised pair in the
    enumeration are parameters (`P1Provider`), constrained only by what the
    covering engine relies on. */
module Lattices {
  import opened NumberTheory
  import opened Extended
  import opened DedekindPsi

  type Vec = (int, int)

  /** `wedge(v, w)`: the determinant with rows v and w. */
  function Wedge(v: Vec, w: Vec): int {
    v.0 * w.1 - v.1 * w.0
  }

  function Scale(a: int, v: Vec): Vec {
    (a * v.0, a * v.1)
  }

  function AddVec(v: Vec, w: Vec): Vec {
    (v.0 + w.0, v.1 + w.1)
  }

  predicate Primitive(v: Vec) {
    Gcd(v.0, v.1) == 1
  }

  /** gcd(v0, v1, N) = 1: v names a point of P^1(Z/NZ).  For N = 0 this says
      that v is primitive. */
  predicate CoprimeTo(N: nat, v: Vec) {
    Gcd(Gcd(v.0, v.1), N) == 1
  }

  /** `lattice(N, c, d)`: index N > 0 for L(c:d;N) = {v : N | wedge(v, (c, d))},
      index 0 for the rank-1 lattice spanned by (c, d), and (0, 0, 0) for the
      zero subgroup.  `p1Index` is the position of (c, d) in P^1(Z/NZ); it is
      only set, and only read, when N > 0. */
  datatype Lattice = Lattice(N: nat, c: int, d: int, p1Index: nat)

  /** `v()`. */
  function V(L: Lattice): Vec {
    (L.c, L.d)
  }

  /** Sage's `P1(N)`, `P1(N).normalize` and `P1(N).index_of_normalized_pair`. */
  datatype P1Provider = P1Provider(
    list: nat -> seq<Vec>,
    normalize: (nat, Vec) -> Vec,
    indexOf: (nat, Vec) -> nat)

  /** The normal form of v names the same point and is listed where its index says. */
  predicate NormalForm(P: P1Provider, N: nat, v: Vec)
    requires N > 0
  {
    var e := P.normalize(N, v);
    CoprimeTo(N, e) && Divides(N, Wedge(v, e)) &&
    P.indexOf(N, e) < |P.list(N)| && P.list(N)[P.indexOf(N, e)] == e
  }

  /** `P1(N)` lists points of P^1(Z/NZ), psi(N) of them, and every point has
      a normal form in the list. */
  predicate ListedPoints(P: P1Provider, N: nat)
    requires N > 0
  {
    |P.list(N)| == Psi(N) &&
    (forall k | 0 <= k < |P.list(N)| :: CoprimeTo(N, P.list(N)[k])) &&
    forall j, k | 0 <= j < k < |P.list(N)| :: !Divides(N, Wedge(P.list(N)[j], P.list(N)[k]))
  }

  ghost predicate Valid(P: P1Provider) {
    (forall N: nat, v: Vec {:trigger NormalForm(P, N, v)} | N > 0 && CoprimeTo(N, v) :: NormalForm(P, N, v)) &&
    (forall N: nat {:trigger ListedPoints(P, N)} | N > 0 :: ListedPoints(P, N))
  }

  lemma UseValid(P: P1Provider, N: nat, v: Vec)
    requires Valid(P) && N > 0
    ensures CoprimeTo(N, v) ==> NormalForm(P, N, v)
    ensures ListedPoints(P, N)
  {
  }

  /** The vector of a nonzero lattice names a point modulo its index. */
  predicate WellFormed(L: Lattice) {
    if L.N == 0 then Primitive(V(L)) || V(L) == (0, 0) else CoprimeTo(L.N, V(L))
  }

  /** The lattice was produced by `__init__`: a rank-2 lattice stores the
      normalised pair and its position in P^1(Z/NZ). */
  predicate Normal(P: P1Provider, L: Lattice) {
    L.N > 0 ==> L.p1Index < |P.list(L.N)| && P.list(L.N)[L.p1Index] == V(L)
  }

  // ---------------------------------------------------------------------
  // Vector arithmetic

  lemma WedgeAntisym(a: Vec, b: Vec)
    ensures Wedge(a, b) == -Wedge(b, a) && Wedge(a, a) == 0
  {
  }

  lemma WedgeScale(g: int, u: Vec, w: Vec)
    ensures Wedge(Scale(g, u), w) == g * Wedge(u, w)
  {
    calc {
      Wedge(Scale(g, u), w);
      (g * u.0) * w.1 - (g * u.1) * w.0;
      g * (u.0 * w.1) - g * (u.1 * w.0);
      g * Wedge(u, w);
    }
  }

  lemma WedgeShift(a: Vec, k: int, t: Vec, w: Vec)
    ensures Wedge(AddVec(a, Scale(k, t)), w) == Wedge(a, w) + k * Wedge(t, w)
  {
    WedgeScale(k, t, w);
  }

  /** wedge(a, b) m = wedge(m, b) a + wedge(a, m) b, coordinatewise. */
  lemma WedgeIdentity(a: Vec, b: Vec, m: Vec)
    ensures Wedge(a, b) * m.0 == Wedge(m, b) * a.0 + Wedge(a, m) * b.0
    ensures Wedge(a, b) * m.1 == Wedge(m, b) * a.1 + Wedge(a, m) * b.1
  {
  }

  /** A Bezout relation for gcd(v0, v1, N) = 1. */
  lemma CoprimeBezout(N: nat, v: Vec) returns (x: int, y: int, z: int)
    requires CoprimeTo(N, v)
    ensures v.0 * x + v.1 * y + N * z == 1
  {
    var r1 := Xgcd(v.0, v.1);
    var r2 := Xgcd(Gcd(v.0, v.1), N);
    x, y, z := r1.1 * r2.1, r1.2 * r2.1, r2.2;
    Distrib(v.0, v.1, r1.1, r1.2, r2.1);
  }

  /** The Bezout relation read as a wedge with (y, -x). */
  lemma BezoutWedge(N: nat, v: Vec, x: int, y: int, z: int)
    requires v.0 * x + v.1 * y + N * z == 1
    ensures Wedge((y, -x), v) == 1 - N * z
  {
    assert Wedge((y, -x), v) == y * v.1 - (-x) * v.0;
    assert (-x) * v.0 == -(v.0 * x) && y * v.1 == v.1 * y;
  }

  lemma Distrib(a: int, b: int, p: int, q: int, s: int)
    ensures a * (p * s) + b * (q * s) == (a * p + b * q) * s
  {
  }

  lemma CoprimeFromBezout(N: nat, v: Vec, x: int, y: int, z: int)
    requires v.0 * x + v.1 * y + N * z == 1
    ensures CoprimeTo(N, v)
  {
    var g := Gcd(v.0, v.1);
    var h := Gcd(g, N);
    GcdDivides(v.0, v.1);
    GcdDivides(g, N);
    DividesTrans(h, g, v.0);
    DividesTrans(h, g, v.1);
    DividesLinear(h, v.0, v.1, x, y);
    DividesLinear(h, v.0 * x + v.1 * y, N, 1, z);
    assert (v.0 * x + v.1 * y) * 1 + N * z == 1;
    DividesRefl(h);
    if h != 1 {
      DividesLe(h, 1);
    }
  }

  /** Being a point modulo N passes to every divisor of N. */
  lemma CoprimeToDivisor(N: nat, n: nat, v: Vec)
    requires CoprimeTo(N, v) && Divides(n, N)
    ensures CoprimeTo(n, v)
  {
    var x, y, z := CoprimeBezout(N, v);
    var k := DividesElim(n, N);
    assert N * z == n * (k * z);
    CoprimeFromBezout(n, v, x, y, k * z);
  }

  lemma PrimitiveCoprime(N: nat, v: Vec)
    requires Primitive(v)
    ensures CoprimeTo(N, v)
  {
    var r := Xgcd(v.0, v.1);
    CoprimeFromBezout(N, v, r.1, r.2, 0);
  }

  /** If m is a point modulo N, congruence modulo N along m is transitive:
      N | wedge(a, m) and N | wedge(m, b) give N | wedge(a, b). */
  lemma WedgeTrans(N: nat, a: Vec, m: Vec, b: Vec)
    requires CoprimeTo(N, m) && Divides(N, Wedge(a, m)) && Divides(N, Wedge(m, b))
    ensures Divides(N, Wedge(a, b))
  {
    var x, y, z := CoprimeBezout(N, m);
    var W := Wedge(a, b);
    WedgeTransComponents(N, a, m, b);
    DividesLinear(N, W * m.0, W * m.1, x, y);
    DividesIntro(N, z * W);
    DividesAdd(N, (W * m.0) * x + (W * m.1) * y, N * (z * W));
    BezoutScale(W, m.0, m.1, N, x, y, z);
  }

  lemma WedgeTransComponents(N: nat, a: Vec, m: Vec, b: Vec)
    requires Divides(N, Wedge(a, m)) && Divides(N, Wedge(m, b))
    ensures Divides(N, Wedge(a, b) * m.0) && Divides(N, Wedge(a, b) * m.1)
  {
    WedgeIdentity(a, b, m);
    DividesLinear(N, Wedge(m, b), Wedge(a, m), a.0, b.0);
    DividesLinear(N, Wedge(m, b), Wedge(a, m), a.1, b.1);
  }

  lemma BezoutScale(W: int, m0: int, m1: int, N: int, x: int, y: int, z: int)
    requires m0 * x + m1 * y + N * z == 1
    ensures (W * m0) * x + (W * m1) * y + N * (z * W) == W
  {
    calc {
      (W * m0) * x + (W * m1) * y + N * (z * W);
      W * (m0 * x + m1 * y + N * z);
      W;
    }
  }

  /** Every nonzero vector is a positive multiple of a primitive one. */
  lemma PrimitivePart(v: Vec) returns (g: int, u: Vec)
    requires v != (0, 0)
    ensures g > 0 && Primitive(u) && v == Scale(g, u)
  {
    g := Gcd(v.0, v.1);
    GcdZero(v.0, v.1);
    GcdDivides(v.0, v.1);
    var k0 := DividesElim(g, v.0);
    var k1 := DividesElim(g, v.1);
    u := (k0, k1);
    var r := Xgcd(v.0, v.1);
    Factor(g, k0, k1, r.1, r.2);
    MulCancel(g, k0 * r.1 + k1 * r.2, 1);
    BezoutOneCoprime(k0, k1, r.1, r.2);
  }

  lemma Factor(g: int, k0: int, k1: int, x: int, y: int)
    ensures (g * k0) * x + (g * k1) * y == g * (k0 * x + k1 * y) && g == g * 1
  {
  }

  lemma MulCancel(g: int, a: int, b: int)
    requires g != 0 && g * a == g * b
    ensures a == b
  {
    assert g * (a - b) == 0;
    MulSigns(g, a - b);
    if a - b > 0 || a - b < 0 {
      MulNonzero(g, a - b);
    }
  }

  lemma MulNonzero(a: int, b: int)
    requires a != 0 && b != 0
    ensures a * b != 0
  {
    MulSigns(a, b);
    if a > 0 && b > 0 {
      assert a * b >= b;
    } else if a > 0 {
      assert a * b <= b;
    } else if b > 0 {
      assert a * b <= a;
    } else {
      assert a * b >= -a;
    }
  }

  // ---------------------------------------------------------------------
  // One lattice

  /** `lattice(N, v)`: a rank-2 lattice stores the normal form of v and its
      position in P^1(Z/NZ); otherwise v is stored as given. */
  function Make(P: P1Provider, N: nat, v: Vec): (L: Lattice)
    requires Valid(P)
    requires N > 0 ==> CoprimeTo(N, v)
    requires N == 0 ==> Primitive(v) || v == (0, 0)
    ensures L.N == N && WellFormed(L) && Normal(P, L)
    ensures Divides(N, Wedge(v, V(L)))
  {
    if N > 0 then
      UseValid(P, N, v);
      var e := P.normalize(N, v);
      Lattice(N, e.0, e.1, P.indexOf(N, e))
    else
      WedgeAntisym(v, v);
      Lattice(0, v.0, v.1, 0)
  }

  /** `is_trivial()`. */
  predicate IsTrivial(L: Lattice) {
    L.N == 0 && L.c == 0 && L.d == 0
  }

  /** `rank()`. */
  function Rank(L: Lattice): (r: nat)
    ensures r <= 2
    ensures r == 2 <==> L.N > 0
    ensures r == 0 <==> IsTrivial(L)
  {
    if L.N > 0 then 2 else if L.c == 0 && L.d == 0 then 0 else 1
  }

  /** `basis()`: no vector for the zero subgroup, (c, d) for rank 1, and
      (c, d), (N*y, -N*x) with c*x + d*y = 1 for rank 2. */
  function Basis(L: Lattice): (B: seq<Vec>)
    requires L.N > 0 ==> Primitive(V(L))
    ensures |B| == Rank(L)
    ensures |B| > 0 ==> B[0] == V(L)
    ensures |B| == 2 ==> Wedge(B[0], B[1]) == 0 - L.N
  {
    if IsTrivial(L) then []
    else if L.N == 0 then [V(L)]
    else
      var t := Xgcd(L.c, L.d);
      var n: int := L.N;
      BasisDeterminant(L.c, L.d, n, t.1, t.2);
      [V(L), (n * t.2, -n * t.1)]
  }

  lemma BasisDeterminant(c: int, d: int, N: int, x: int, y: int)
    requires c * x + d * y == 1
    ensures Wedge((c, d), (N * y, -N * x)) == -N
  {
    calc {
      Wedge((c, d), (N * y, -N * x));
      c * (-N * x) - d * (N * y);
      -N * (c * x + d * y);
    }
  }

  /** `weight()`: 1/psi(N) for rank 2, Infinity otherwise. */
  function Weight(L: Lattice): (w: ExtReal)
    ensures w.Finite? <==> L.N > 0
    ensures w.Finite? ==> w.value == Recip(Psi(L.N))
  {
    if L.N > 0 then Finite(Recip(Psi(L.N))) else Infinity
  }

  /** `contains1(v)`: the zero subgroup contains only 0; otherwise
      N | wedge(v, (c, d)), which for N = 0 says that v is a multiple of (c, d). */
  predicate Contains1(L: Lattice, v: Vec) {
    if Rank(L) == 0 then v == (0, 0) else Divides(L.N, Wedge(v, V(L)))
  }

  /** `contains(other)`. */
  predicate Contains(L: Lattice, K: Lattice) {
    Divides(L.N, K.N) && Contains1(L, V(K))
  }

  /** `contains1(v)` as written for a pair v = (c, d): on the zero subgroup
      it compares the pair with the integer 0, which never holds. */
  predicate Contains1AsWritten(L: Lattice, v: Vec) {
    if Rank(L) == 0 then false else Divides(L.N, Wedge(v, V(L)))
  }

  /** `contains(other)` on top of the as-written `contains1`. */
  predicate ContainsAsWritten(L: Lattice, K: Lattice) {
    Divides(L.N, K.N) && Contains1AsWritten(L, V(K))
  }

  /** As written, the zero subgroup does not contain itself; with the zero
      test that `contains1` intends, it does. */
  lemma TrivialExcludesItself(T: Lattice)
    requires IsTrivial(T)
    ensures !ContainsAsWritten(T, T) && !Contains1AsWritten(T, (0, 0))
    ensures Contains(T, T)
  {
  }

  /** With the intended zero test, containment is reflexive on every lattice. */
  lemma ContainsReflexive(L: Lattice)
    ensures Contains(L, L)
  {
    DividesRefl(L.N);
    assert Wedge(V(L), V(L)) == 0;
  }

  /** `add_one(w)`: the lattice spanned by this one and w. */
  function AddOne(P: P1Provider, L: Lattice, w: Vec): (R: Lattice)
    requires Valid(P) && WellFormed(L)
    requires IsTrivial(L) ==> Primitive(w) || w == (0, 0)
    ensures WellFormed(R) && Normal(P, R)
    ensures Rank(R) != 0 ==> Contains1(R, w)
    ensures !IsTrivial(L) ==> Rank(R) != 0 && Divides(R.N, L.N) && Contains(R, L)
  {
    if IsTrivial(L) then
      Make(P, 0, w)
    else
      var g := Gcd(L.N, Wedge(V(L), w));
      AddOneFacts(L, w);
      var R := Make(P, g, V(L));
      AddOneContains(L, w, R);
      R
  }

  lemma AddOneFacts(L: Lattice, w: Vec)
    requires WellFormed(L) && !IsTrivial(L)
    ensures var g := Gcd(L.N, Wedge(V(L), w));
      Divides(g, L.N) && Divides(g, Wedge(V(L), w)) && CoprimeTo(g, V(L)) &&
      (g == 0 ==> Primitive(V(L)))
  {
    var g := Gcd(L.N, Wedge(V(L), w));
    GcdDivides(L.N, Wedge(V(L), w));
    if L.N > 0 {
      CoprimeToDivisor(L.N, g, V(L));
    } else {
      PrimitiveCoprime(g, V(L));
    }
  }

  lemma AddOneContains(L: Lattice, w: Vec, R: Lattice)
    requires !IsTrivial(L) && R.N == Gcd(L.N, Wedge(V(L), w))
    requires Divides(R.N, Wedge(V(L), w)) && CoprimeTo(R.N, V(L))
    requires Divides(R.N, Wedge(V(L), V(R)))
    ensures Divides(R.N, Wedge(w, V(R)))
  {
    WedgeAntisym(V(L), w);
    DividesNeg(R.N, Wedge(V(L), w));
    WedgeTrans(R.N, w, V(L), V(R));
  }

  /** `__eq__`. */
  predicate Eq(L1: Lattice, L2: Lattice) {
    if L1.N != L2.N then false
    else if IsTrivial(L1) then IsTrivial(L2)
    else if Rank(L1) != Rank(L2) then false
    else Contains1(L2, V(L1))
  }

  /** `__lt__`: ascending rank, then ascending index, then position in
      P^1(Z/NZ) (the source reads a missing position for two lattices of
      rank below 2 with the same rank and index). */
  predicate Lt(L1: Lattice, L2: Lattice)
    requires Rank(L1) != Rank(L2) || L1.N != L2.N || L1.N > 0
  {
    if Rank(L2) - Rank(L1) != 0 then Rank(L2) - Rank(L1) > 0
    else if L2.N - L1.N != 0 then L2.N - L1.N > 0
    else L1.p1Index < L2.p1Index
  }

  // ---------------------------------------------------------------------
  // Properties of one lattice

  /** The vector of a nonzero lattice is a point modulo its index. */
  lemma PointOf(L: Lattice)
    requires WellFormed(L) && !IsTrivial(L)
    ensures CoprimeTo(L.N, V(L))
  {
    if L.N == 0 {
      PrimitiveCoprime(0, V(L));
    }
  }

  lemma EqRefl(L: Lattice)
    ensures Eq(L, L)
  {
    if !IsTrivial(L) {
      WedgeAntisym(V(L), V(L));
      DividesRefl(L.N);
    }
  }

  /** v is an integer combination of the vectors of B. */
  ghost predicate InSpan(B: seq<Vec>, v: Vec)
    requires |B| <= 2
  {
    if |B| == 0 then v == (0, 0)
    else if |B| == 1 then exists a: int :: v == Scale(a, B[0])
    else exists a: int, b: int :: v == AddVec(Scale(a, B[0]), Scale(b, B[1]))
  }

  lemma SpanCoeffs(c: int, d: int, x: int, y: int, n: int, k: int, v0: int, v1: int)
    requires c * x + d * y == 1 && v0 * d - v1 * c == n * k
    ensures (x * v0 + y * v1) * c + k * (n * y) == v0
    ensures (x * v0 + y * v1) * d + k * (-n * x) == v1
  {
    calc {
      (x * v0 + y * v1) * c + k * (n * y);
      x * c * v0 + y * (v1 * c + n * k);
      x * c * v0 + y * (v0 * d);
      v0 * (c * x + d * y);
      v0;
    }
    calc {
      (x * v0 + y * v1) * d + k * (-n * x);
      y * d * v1 + x * (v0 * d - n * k);
      y * d * v1 + x * (v1 * c);
      v1 * (c * x + d * y);
      v1;
    }
  }

  /** `basis()` spans the lattice: v lies in L exactly when it is an integer
      combination of the basis vectors. */
  lemma BasisSpans(L: Lattice, v: Vec)
    requires WellFormed(L) && !IsTrivial(L) && (L.N > 0 ==> Primitive(V(L)))
    ensures Contains1(L, v) <==> InSpan(Basis(L), v)
  {
    if Contains1(L, v) {
      MemberInSpan(L, v);
    }
    if InSpan(Basis(L), v) {
      SpanInMember(L, v);
    }
  }

  lemma MemberInSpan(L: Lattice, v: Vec)
    requires WellFormed(L) && !IsTrivial(L) && (L.N > 0 ==> Primitive(V(L)))
    requires Contains1(L, v)
    ensures InSpan(Basis(L), v)
  {
    var B := Basis(L);
    var t := Xgcd(L.c, L.d);
    var n: int := L.N;
    var k := DividesElim(L.N, Wedge(v, V(L)));
    SpanCoeffs(L.c, L.d, t.1, t.2, n, k, v.0, v.1);
    var a := t.1 * v.0 + t.2 * v.1;
    if L.N == 0 {
      assert v == Scale(a, B[0]);
    } else {
      assert v == AddVec(Scale(a, B[0]), Scale(k, B[1]));
    }
  }

  lemma SpanInMember(L: Lattice, v: Vec)
    requires WellFormed(L) && !IsTrivial(L) && (L.N > 0 ==> Primitive(V(L)))
    requires InSpan(Basis(L), v)
    ensures Contains1(L, v)
  {
    var B := Basis(L);
    if L.N == 0 {
      var a :| v == Scale(a, B[0]);
      WedgeScale(a, V(L), V(L));
      WedgeAntisym(V(L), V(L));
      DividesRefl(0);
    } else {
      assert exists a: int, b: int :: v == AddVec(Scale(a, B[0]), Scale(b, B[1]));
      CombinationMember(L.N, B[0], B[1], v);
    }
  }

  /** Integer combinations of u and w lie in {v : n | wedge(v, u)} when
      wedge(u, w) = -n. */
  lemma CombinationMember(n: int, u: Vec, w: Vec, v: Vec)
    requires Wedge(u, w) == -n
    requires exists a: int, b: int :: v == AddVec(Scale(a, u), Scale(b, w))
    ensures Divides(n, Wedge(v, u))
  {
    var a, b :| v == AddVec(Scale(a, u), Scale(b, w));
    WedgeShift(Scale(a, u), b, w, u);
    WedgeScale(a, u, u);
    WedgeAntisym(u, u);
    WedgeAntisym(w, u);
    var wu := Wedge(w, u);
    assert wu == n;
    assert Wedge(Scale(a, u), u) == 0;
    assert Wedge(v, u) == b * wu;
    DividesIntro(n, b);
  }

  /** `contains(other)` is sound: every vector of `other` lies in `self`. */
  lemma ContainsMember(L: Lattice, K: Lattice, v: Vec)
    requires WellFormed(K) && Rank(L) != 0 && Rank(K) != 0
    requires Contains(L, K) && Contains1(K, v)
    ensures Contains1(L, v)
  {
    DividesTrans(L.N, K.N, Wedge(v, V(K)));
    PointOf(K);
    CoprimeToDivisor(K.N, L.N, V(K));
    WedgeTrans(L.N, v, V(K), V(L));
  }

  /** `contains(other)` decides inclusion of the subgroups. */
  lemma ContainsIsInclusion(L: Lattice, K: Lattice)
    requires WellFormed(L) && WellFormed(K)
    ensures Contains(L, K) <==> forall v :: Contains1(K, v) ==> Contains1(L, v)
  {
    if Rank(L) != 0 && Rank(K) != 0 {
      NontrivialInclusion(L, K);
    } else if Rank(K) == 0 {
      DividesRefl(L.N);
      assert Wedge((0, 0), V(L)) == 0;
    } else {
      var w := NonzeroMember(K);
    }
  }

  /** A nonzero lattice has a nonzero vector: (N, 0) at rank 2, (c, d) at rank 1. */
  lemma NonzeroMember(K: Lattice) returns (w: Vec)
    requires WellFormed(K) && !IsTrivial(K)
    ensures Contains1(K, w) && w != (0, 0)
  {
    if K.N > 0 {
      w := (K.N, 0);
      assert Wedge(w, V(K)) == K.N * K.d;
      DividesIntro(K.N, K.d);
    } else {
      w := V(K);
      WedgeAntisym(w, w);
    }
  }

  lemma NontrivialInclusion(L: Lattice, K: Lattice)
    requires WellFormed(L) && WellFormed(K) && Rank(L) != 0 && Rank(K) != 0
    ensures Contains(L, K) <==> forall v :: Contains1(K, v) ==> Contains1(L, v)
  {
    if Contains(L, K) {
      forall v | Contains1(K, v) ensures Contains1(L, v) {
        ContainsMember(L, K, v);
      }
    }
    if forall v :: Contains1(K, v) ==> Contains1(L, v) {
      WedgeAntisym(V(K), V(K));
      DividesRefl(K.N);
      assert Contains1(K, V(K));
      IndexDivides(L, K);
    }
  }

  lemma IndexDivides(L: Lattice, K: Lattice)
    requires WellFormed(L) && Rank(L) != 0 && Rank(K) != 0
    requires forall v :: Contains1(K, v) ==> Contains1(L, v)
    ensures Divides(L.N, K.N)
  {
    var n: int := K.N;
    var e1: Vec := (n, 0);
    var e2: Vec := (0, n);
    DividesIntro(K.N, K.d);
    DividesIntro(K.N, -K.c);
    assert Wedge(e1, V(K)) == n * K.d;
    assert Wedge(e2, V(K)) == n * -K.c;
    assert Contains1(K, e1) && Contains1(K, e2);
    assert Wedge(e1, V(L)) == n * L.d;
    assert Wedge(e2, V(L)) == -(n * L.c);
    DividesNeg(L.N, n * L.c);
    PointOf(L);
    var x, y, z := CoprimeBezout(L.N, V(L));
    DividesLinear(L.N, n * L.c, n * L.d, x, y);
    DividesIntro(L.N, z * n);
    DividesAdd(L.N, (n * L.c) * x + (n * L.d) * y, L.N * (z * n));
    BezoutScale(n, L.c, L.d, L.N, x, y, z);
  }

  /** `__eq__` is equality of the subgroups. */
  lemma EqIsSameSet(L: Lattice, K: Lattice)
    requires WellFormed(L) && WellFormed(K)
    ensures Eq(L, K) <==> forall v :: Contains1(L, v) <==> Contains1(K, v)
  {
    if !IsTrivial(L) && !IsTrivial(K) {
      NontrivialEq(L, K);
    } else if !IsTrivial(L) {
      var w := NonzeroMember(L);
    } else if !IsTrivial(K) {
      var w := NonzeroMember(K);
    }
  }

  lemma NontrivialEq(L: Lattice, K: Lattice)
    requires WellFormed(L) && WellFormed(K) && !IsTrivial(L) && !IsTrivial(K)
    ensures Eq(L, K) <==> forall v :: Contains1(L, v) <==> Contains1(K, v)
  {
    ContainsIsInclusion(L, K);
    ContainsIsInclusion(K, L);
    if Eq(L, K) {
      DividesRefl(L.N);
      WedgeAntisym(V(L), V(K));
      DividesNeg(L.N, Wedge(V(L), V(K)));
      assert Contains(K, L) && Contains(L, K);
    }
    if forall v :: Contains1(L, v) <==> Contains1(K, v) {
      DividesAntisym(L.N, K.N);
      WedgeAntisym(V(L), V(L));
      DividesRefl(L.N);
      assert Contains1(L, V(L));
    }
  }

  /** Two lattices built by `__init__` are equal exactly when they are the
      same record: the stored pair and position are canonical. */
  lemma EqIsIdentity(P: P1Provider, L: Lattice, K: Lattice)
    requires Valid(P) && Normal(P, L) && Normal(P, K) && L.N > 0 && K.N > 0
    ensures Eq(L, K) <==> L == K
  {
    EqRefl(L);
    if Eq(L, K) {
      UseValid(P, L.N, V(L));
      assert Divides(L.N, Wedge(V(L), V(K)));
      SameIndex(P, L, K);
    }
  }

  lemma SameIndex(P: P1Provider, L: Lattice, K: Lattice)
    requires L.N > 0 && K.N == L.N && ListedPoints(P, L.N)
    requires Normal(P, L) && Normal(P, K) && Divides(L.N, Wedge(V(L), V(K)))
    ensures L.p1Index == K.p1Index
  {
    var xs := P.list(L.N);
    var j, k := L.p1Index, K.p1Index;
    WedgeAntisym(V(K), V(L));
    DividesNeg(L.N, Wedge(V(L), V(K)));
  }

  /** `add_one(w)` is the least lattice containing this one and w. */
  lemma AddOneLeast(P: P1Provider, L: Lattice, w: Vec, K: Lattice)
    requires Valid(P) && WellFormed(L) && WellFormed(K) && !IsTrivial(K)
    requires IsTrivial(L) ==> Primitive(w) || w == (0, 0)
    requires Contains1(K, w) && (!IsTrivial(L) ==> Contains(K, L))
    ensures Contains(K, AddOne(P, L, w))
  {
    var R := AddOne(P, L, w);
    if IsTrivial(L) {
      DividesRefl(K.N);
    } else {
      AddOneFacts(L, w);
      assert R.N == Gcd(L.N, Wedge(V(L), w));
      assert Divides(R.N, Wedge(V(L), V(R)));
      SpanLeast(L, w, K, R);
    }
  }

  lemma SpanLeast(L: Lattice, w: Vec, K: Lattice, R: Lattice)
    requires WellFormed(L) && WellFormed(K) && !IsTrivial(K) && !IsTrivial(L)
    requires Contains1(K, w) && Contains(K, L)
    requires R.N == Gcd(L.N, Wedge(V(L), w)) && Divides(R.N, Wedge(V(L), V(R)))
    ensures Contains(K, R)
  {
    PointOf(K);
    PointOf(L);
    WedgeAntisym(w, V(K));
    DividesNeg(K.N, Wedge(w, V(K)));
    WedgeTrans(K.N, V(L), V(K), w);
    GcdGreatest(L.N, Wedge(V(L), w), K.N);
    DividesTrans(K.N, R.N, Wedge(V(L), V(R)));
    WedgeAntisym(V(L), V(R));
    DividesNeg(K.N, Wedge(V(L), V(R)));
    CoprimeToDivisor(L.N, K.N, V(L));
    WedgeAntisym(V(L), V(K));
    DividesNeg(K.N, Wedge(V(K), V(L)));
    WedgeTrans(K.N, V(R), V(L), V(K));
  }

  /** `__lt__` is a strict total order on rank-2 lattices built by `__init__`. */
  lemma LtIsStrictTotalOrder(P: P1Provider, L1: Lattice, L2: Lattice, L3: Lattice)
    requires Normal(P, L1) && Normal(P, L2) && Normal(P, L3)
    requires L1.N > 0 && L2.N > 0 && L3.N > 0
    ensures !Lt(L1, L1)
    ensures Lt(L1, L2) && Lt(L2, L3) ==> Lt(L1, L3)
    ensures L1 == L2 || Lt(L1, L2) || Lt(L2, L1)
    ensures !(Lt(L1, L2) && Lt(L2, L1))
  {
  }

  // ---------------------------------------------------------------------
  // Lists of lattices

  predicate AllRank2(LL: seq<Lattice>) {
    forall L | L in LL :: L.N > 0
  }

  predicate AllWellFormed(LL: seq<Lattice>) {
    forall L | L in LL :: WellFormed(L)
  }

  lemma AllRank2Cons(LL: seq<Lattice>)
    requires LL != []
    ensures AllRank2(LL) <==> LL[0].N > 0 && AllRank2(LL[1..])
  {
    assert LL == [LL[0]] + LL[1..];
  }

  /** `indices(LL)` for rank-2 lattices (rank below 2 has index Infinity). */
  function Indices(LL: seq<Lattice>): (ns: seq<nat>)
    requires AllRank2(LL)
    ensures |ns| == |LL| && forall i | 0 <= i < |LL| :: ns[i] == LL[i].N
  {
    seq<nat>(|LL|, i requires 0 <= i < |LL| => LL[i].N)
  }

  /** `index_lcm(LL)`: the least common multiple of the indices. */
  function IndexLcm(LL: seq<Lattice>): (M: nat)
    requires AllRank2(LL)
    ensures M > 0 && forall L | L in LL :: Divides(L.N, M)
    ensures forall m: int :: (forall L | L in LL :: Divides(L.N, m)) ==> Divides(M, m)
  {
    var ns := Indices(LL);
    assert forall i | 0 <= i < |ns| :: ns[i] > 0 by {
      forall i | 0 <= i < |ns| ensures ns[i] > 0 {
        assert LL[i] in LL;
      }
    }
    assert forall L | L in LL :: exists i :: 0 <= i < |LL| && LL[i] == L && ns[i] == L.N;
    assert forall m: int :: (forall L | L in LL :: Divides(L.N, m)) ==> Divides(LcmList(ns), m) by {
      forall m: int | forall L | L in LL :: Divides(L.N, m)
        ensures Divides(LcmList(ns), m)
      {
        assert forall i :: 0 <= i < |ns| ==> Divides(ns[i], m) by {
          forall i | 0 <= i < |ns| ensures Divides(ns[i], m) {
            assert LL[i] in LL;
          }
        }
        LcmListLeast(ns, m);
      }
    }
    LcmList(ns)
  }

  /** `weight(LL)`: the sum of the weights, Infinity as soon as one member
      has rank below 2. */
  function ListWeight(LL: seq<Lattice>): (w: ExtReal)
    ensures w.Finite? <==> AllRank2(LL)
  {
    if LL == [] then Finite(0.0)
    else
      AllRank2Cons(LL);
      Plus(Weight(LL[0]), ListWeight(LL[1..]))
  }

  /** `is_in_union(v, LL)`. */
  predicate IsInUnion(v: Vec, LL: seq<Lattice>) {
    exists L | L in LL :: Contains1(L, v)
  }

  /** The list covers Z^2. */
  ghost predicate CoversZ2(LL: seq<Lattice>) {
    forall v: Vec :: IsInUnion(v, LL)
  }

  /** `full_cover(N)`: one lattice of index N per point of P^1(Z/NZ). */
  function FullCover(P: P1Provider, N: nat): (LL: seq<Lattice>)
    requires Valid(P) && N > 0
    ensures |LL| == |P.list(N)| == Psi(N)
    ensures forall k | 0 <= k < |LL| :: MadeFrom(P, LL[k], N, P.list(N)[k])
  {
    UseValid(P, N, (0, 0));
    MakeAll(P, N, P.list(N))
  }

  /** L has index N and names the same point as v modulo N. */
  predicate MadeFrom(P: P1Provider, L: Lattice, N: nat, v: Vec) {
    L.N == N && WellFormed(L) && Normal(P, L) && Divides(N, Wedge(v, V(L)))
  }

  function MakeAll(P: P1Provider, N: nat, xs: seq<Vec>): (LL: seq<Lattice>)
    requires Valid(P) && N > 0 && forall k | 0 <= k < |xs| :: CoprimeTo(N, xs[k])
    ensures |LL| == |xs| && forall k | 0 <= k < |LL| :: MadeFrom(P, LL[k], N, xs[k])
  {
    if xs == [] then []
    else
      assert CoprimeTo(N, xs[0]);
      [Make(P, N, xs[0])] + MakeAll(P, N, xs[1..])
  }

  /** The rank-2 members, in order (`[L for L in LL if L.rank()==2]`). */
  function Rank2Only(LL: seq<Lattice>): (R: seq<Lattice>)
    ensures forall L :: L in R <==> L in LL && L.N > 0
  {
    if LL == [] then []
    else
      assert LL == [LL[0]] + LL[1..];
      (if LL[0].N > 0 then [LL[0]] else []) + Rank2Only(LL[1..])
  }

  /** The list with its i'th member deleted (unchanged when i is out of range). */
  function Without(LL: seq<Lattice>, i: int): (R: seq<Lattice>)
    ensures 0 <= i < |LL| ==> |R| == |LL| - 1
    ensures !(0 <= i < |LL|) ==> R == LL
  {
    if 0 <= i < |LL| then LL[..i] + LL[i + 1..] else LL
  }

  /** `isCover_rank2(LL)`: weight at least 1, then every point of
      P^1(Z/MZ) lies in some member, M the lcm of the indices. */
  predicate IsCoverRank2(P: P1Provider, LL: seq<Lattice>)
    requires AllRank2(LL)
  {
    !Below(ListWeight(LL), 1.0) &&
    var M := IndexLcm(LL);
    forall k | 0 <= k < |P.list(M)| :: IsInUnion(P.list(M)[k], LL)
  }

  /** `isCover(LL)`: the rank-2 members cover. */
  predicate IsCover(P: P1Provider, LL: seq<Lattice>) {
    IsCoverRank2(P, Rank2Only(LL))
  }

  /** `isCover_without1(LL, i)`. */
  predicate IsCoverWithout1(P: P1Provider, LL: seq<Lattice>, i: int) {
    IsCoverRank2(P, Rank2Only(Without(LL, i)))
  }

  /** `isFull(LL, check)`: every member has rank 2, and either the weight is
      exactly 1 or no single deletion leaves a cover. */
  predicate IsFull(P: P1Provider, LL: seq<Lattice>, check: bool) {
    (!check || IsCover(P, LL)) &&
    (forall L | L in LL :: Rank(L) == 2) &&
    (ListWeight(LL) == Finite(1.0) || forall i | 0 <= i < |LL| :: !IsCoverWithout1(P, LL, i))
  }

  /** No member other than LL[i] is equal to LL[i]. */
  predicate NoDuplicateOf(LL: seq<Lattice>, i: int)
    requires 0 <= i < |LL|
  {
    forall j | 0 <= j < |LL| && j != i :: !Eq(LL[j], LL[i])
  }

  /** B is a rank-2 lattice strictly inside the rank-2 lattice L. */
  predicate ProperSub(L: Lattice, B: Lattice) {
    L.N > 0 && B.N > 0 && WellFormed(B) && Contains(L, B) && B.N != L.N
  }

  /** v lies in no member of LL other than (copies of) L. */
  predicate Private(LL: seq<Lattice>, L: Lattice, v: Vec) {
    !exists L1 | L1 in LL :: !Eq(L1, L) && Contains1(L1, v)
  }

  /** The private vectors of L among xs, in order. */
  function PrivateOf(LL: seq<Lattice>, L: Lattice, xs: seq<Vec>): (S: seq<Vec>)
    ensures forall v :: v in S <==> v in xs && Private(LL, L, v)
  {
    if xs == [] then []
    else
      assert xs == [xs[0]] + xs[1..];
      (if Private(LL, L, xs[0]) then [xs[0]] else []) + PrivateOf(LL, L, xs[1..])
  }

  /** `[wedge(v, w) for w in S[1:]]` with v = S[0]. */
  function Wedges(S: seq<Vec>): (ws: seq<int>)
    requires |S| > 0
    ensures |ws| == |S| - 1 && forall k | 0 <= k < |ws| :: ws[k] == Wedge(S[0], S[k + 1])
  {
    seq(|S| - 1, k requires 0 <= k < |S| - 1 => Wedge(S[0], S[k + 1]))
  }

  /** `isOneMinimal(LL, L)`: the weight shortcut, then the vectors of
      P^1(Z/MZ) private to L; L is one-minimal when the smallest lattice
      through them, of index gcd(M, wedges), is L itself. */
  predicate IsOneMinimal(P: P1Provider, LL: seq<Lattice>, L: Lattice)
    requires AllRank2(LL)
  {
    if Exceeds(Weight(L), TwiceExcess(ListWeight(LL))) then true
    else
      var M := IndexLcm(LL);
      var S := PrivateOf(LL, L, P.list(M));
      |S| != 0 && GcdList([M as int] + Wedges(S)) == L.N
  }

  /** `isMinimal(LL, check)`. */
  predicate IsMinimal(P: P1Provider, LL: seq<Lattice>, check: bool)
    requires AllRank2(LL)
  {
    (!check || IsCover(P, LL)) && forall L | L in LL :: IsOneMinimal(P, LL, L)
  }

  /** `isStronglyMinimal(LL, check)`: weight exactly 1 first, then the
      minimality test. */
  function IsStronglyMinimal(P: P1Provider, LL: seq<Lattice>, check: bool): (r: bool)
    ensures r <==> ListWeight(LL) == Finite(1.0) && IsMinimal(P, LL, check)
  {
    if ListWeight(LL) != Finite(1.0) then false
    else (!check || IsCover(P, LL)) && forall L | L in LL :: IsOneMinimal(P, LL, L)
  }

  // ---------------------------------------------------------------------
  // Covering: a point of P^1(Z/MZ) stands for every vector it names

  /** Every point modulo M has a normal form in `P1(M)`. */
  lemma NormalizeInto(P: P1Provider, M: nat, u: Vec) returns (k: nat)
    requires Valid(P) && M > 0 && CoprimeTo(M, u)
    ensures k < |P.list(M)| && CoprimeTo(M, P.list(M)[k]) && Divides(M, Wedge(u, P.list(M)[k]))
  {
    UseValid(P, M, u);
    k := P.indexOf(M, P.normalize(M, u));
  }

  /** Membership in a lattice whose index divides M only depends on the
      point modulo M. */
  lemma EquivMember(n: nat, M: nat, u: Vec, e: Vec, w: Vec)
    requires Divides(n, M) && Divides(M, Wedge(u, e)) && CoprimeTo(M, e)
    requires Divides(n, Wedge(e, w))
    ensures Divides(n, Wedge(u, w))
  {
    DividesTrans(n, M, Wedge(u, e));
    CoprimeToDivisor(M, n, e);
    WedgeTrans(n, u, e, w);
  }

  lemma ScaleMember(L: Lattice, g: int, u: Vec)
    requires Rank(L) != 0 && Contains1(L, u)
    ensures Contains1(L, Scale(g, u))
  {
    WedgeScale(g, u, V(L));
    DividesMul(L.N, Wedge(u, V(L)), g);
  }

  lemma ZeroMember(L: Lattice)
    ensures Contains1(L, (0, 0))
  {
    DividesRefl(L.N);
  }

  /** Covering the points of P^1(Z/MZ), M a common multiple of the indices,
      covers Z^2. */
  lemma PointsCover(P: P1Provider, LL: seq<Lattice>, M: nat)
    requires Valid(P) && AllRank2(LL) && LL != [] && M > 0
    requires forall L | L in LL :: Divides(L.N, M)
    requires forall k | 0 <= k < |P.list(M)| :: IsInUnion(P.list(M)[k], LL)
    ensures CoversZ2(LL)
  {
    forall v: Vec ensures IsInUnion(v, LL) {
      if v == (0, 0) {
        ZeroMember(LL[0]);
        assert LL[0] in LL;
      } else {
        var g, u := PrimitivePart(v);
        PrimitiveCoprime(M, u);
        var k := NormalizeInto(P, M, u);
        var e := P.list(M)[k];
        assert IsInUnion(e, LL);
        var L1 :| L1 in LL && Contains1(L1, e);
        EquivMember(L1.N, M, u, e, V(L1));
        ScaleMember(L1, g, u);
      }
    }
  }

  /** `isCover_rank2` decides whether a list of rank-2 lattices of weight at
      least 1 covers Z^2. */
  lemma CoverRank2Means(P: P1Provider, LL: seq<Lattice>)
    requires Valid(P) && AllRank2(LL)
    ensures IsCoverRank2(P, LL) <==> !Below(ListWeight(LL), 1.0) && CoversZ2(LL)
  {
    if IsCoverRank2(P, LL) {
      assert LL != [];
      PointsCover(P, LL, IndexLcm(LL));
    }
  }

  predicate CoveredAtRank2(v: Vec, LL: seq<Lattice>) {
    exists L | L in LL :: L.N > 0 && Contains1(L, v)
  }

  lemma {:induction false} Rank2OnlyOfRank2(LL: seq<Lattice>)
    requires AllRank2(LL)
    ensures Rank2Only(LL) == LL
    decreases |LL|
  {
    if LL != [] {
      AllRank2Cons(LL);
      Rank2OnlyOfRank2(LL[1..]);
      assert LL == [LL[0]] + LL[1..];
    }
  }

  /** `isCover(LL)` holds exactly when the rank-2 members have weight at
      least 1 and cover Z^2 (members of lower rank are ignored). */
  lemma IsCoverMeans(P: P1Provider, LL: seq<Lattice>)
    requires Valid(P)
    ensures IsCover(P, LL) <==>
      !Below(ListWeight(Rank2Only(LL)), 1.0) && forall v :: CoveredAtRank2(v, LL)
  {
    var R := Rank2Only(LL);
    CoverRank2Means(P, R);
    if CoversZ2(R) {
      forall v ensures CoveredAtRank2(v, LL) {
        assert IsInUnion(v, R);
      }
    }
    if forall v :: CoveredAtRank2(v, LL) {
      forall v ensures IsInUnion(v, R) {
        assert CoveredAtRank2(v, LL);
        var L :| L in LL && L.N > 0 && Contains1(L, v);
        assert L in R;
      }
    }
  }

  /** Every member of index N weighs 1/psi(N). */
  lemma {:induction false} UniformWeight(LL: seq<Lattice>, N: nat)
    requires N > 0 && forall L | L in LL :: L.N == N
    ensures ListWeight(LL) == Finite(Times(Recip(Psi(N)), |LL|))
    decreases |LL|
  {
    if LL != [] {
      assert LL == [LL[0]] + LL[1..];
      assert LL[0] in LL;
      UniformWeight(LL[1..], N);
    }
  }

  /** The full index-N covering covers Z^2 with weight exactly 1, and no two
      of its members are equal. */
  lemma FullCoverIsExactCover(P: P1Provider, N: nat)
    requires Valid(P) && N > 0
    ensures IsCover(P, FullCover(P, N)) && ListWeight(FullCover(P, N)) == Finite(1.0)
    ensures forall j, k | 0 <= j < k < |FullCover(P, N)| :: !Eq(FullCover(P, N)[j], FullCover(P, N)[k])
  {
    var LL := FullCover(P, N);
    FullCoverWeight(P, N);
    FullCoverCovers(P, N);
    Rank2OnlyOfRank2(LL);
    CoverRank2Means(P, LL);
    forall j, k | 0 <= j < k < |LL| ensures !Eq(LL[j], LL[k]) {
      FullCoverDistinct(P, N, j, k);
    }
  }

  lemma FullCoverWeight(P: P1Provider, N: nat)
    requires Valid(P) && N > 0
    ensures AllRank2(FullCover(P, N)) && ListWeight(FullCover(P, N)) == Finite(1.0)
  {
    var LL := FullCover(P, N);
    assert forall L | L in LL :: L.N == N by {
      forall L | L in LL ensures L.N == N {
        var k :| 0 <= k < |LL| && LL[k] == L;
        assert MadeFrom(P, LL[k], N, P.list(N)[k]);
      }
    }
    UniformWeight(LL, N);
    TimesRecip(Psi(N));
  }

  lemma FullCoverCovers(P: P1Provider, N: nat)
    requires Valid(P) && N > 0
    ensures AllRank2(FullCover(P, N)) && CoversZ2(FullCover(P, N))
  {
    var LL := FullCover(P, N);
    FullCoverWeight(P, N);
    UseValid(P, N, (0, 0));
    forall v: Vec ensures IsInUnion(v, LL) {
      if v == (0, 0) {
        ZeroMember(LL[0]);
        assert LL[0] in LL;
      } else {
        var g, u := PrimitivePart(v);
        PrimitiveCoprime(N, u);
        var k := NormalizeInto(P, N, u);
        assert MadeFrom(P, LL[k], N, P.list(N)[k]);
        DividesRefl(N);
        EquivMember(N, N, u, P.list(N)[k], V(LL[k]));
        ScaleMember(LL[k], g, u);
        assert LL[k] in LL;
      }
    }
  }

  lemma FullCoverDistinct(P: P1Provider, N: nat, j: int, k: int)
    requires Valid(P) && N > 0 && 0 <= j < k < |FullCover(P, N)|
    ensures !Eq(FullCover(P, N)[j], FullCover(P, N)[k])
  {
    var LL := FullCover(P, N);
    var xs := P.list(N);
    UseValid(P, N, (0, 0));
    assert MadeFrom(P, LL[j], N, xs[j]) && MadeFrom(P, LL[k], N, xs[k]);
    assert !Divides(N, Wedge(xs[j], xs[k]));
    EqIsIdentity(P, LL[j], LL[k]);
    SamePoint(N, xs[j], xs[k], V(LL[j]), V(LL[k]));
  }

  /** Two vectors congruent to the same point are congruent to each other. */
  lemma SamePoint(N: nat, a: Vec, b: Vec, va: Vec, vb: Vec)
    requires Divides(N, Wedge(a, va)) && Divides(N, Wedge(b, vb)) && CoprimeTo(N, vb)
    ensures va == vb ==> Divides(N, Wedge(a, b))
  {
    if va == vb {
      WedgeAntisym(b, vb);
      DividesNeg(N, Wedge(b, vb));
      WedgeTrans(N, a, vb, b);
    }
  }

  // ---------------------------------------------------------------------
  // Full coverings

  lemma WithoutMembers(LL: seq<Lattice>, i: int)
    requires 0 <= i < |LL|
    ensures forall L :: L in Without(LL, i) <==> exists j | 0 <= j < |LL| && j != i :: LL[j] == L
  {
    var R := Without(LL, i);
    forall L ensures L in R <==> exists j | 0 <= j < |LL| && j != i :: LL[j] == L {
      if L in R {
        var k :| 0 <= k < |R| && R[k] == L;
        if k < i {
          assert R[k] == LL[k];
        } else {
          assert R[k] == LL[k + 1];
        }
      }
      if exists j | 0 <= j < |LL| && j != i :: LL[j] == L {
        var j :| 0 <= j < |LL| && j != i && LL[j] == L;
        if j < i {
          assert R[j] == L;
        } else {
          assert R[j - 1] == L;
        }
      }
    }
  }

  /** Deleting member i removes exactly its weight. */
  lemma {:induction false} WeightWithout(LL: seq<Lattice>, i: int)
    requires AllRank2(LL) && 0 <= i < |LL|
    ensures LL[i].N > 0 && AllRank2(Without(LL, i)) && ListWeight(Without(LL, i)).Finite?
    ensures ListWeight(Without(LL, i)).value + Weight(LL[i]).value == ListWeight(LL).value
    decreases |LL|
  {
    assert LL[i] in LL;
    AllRank2Cons(LL);
    var R := Without(LL, i);
    if i > 0 {
      var R' := Without(LL[1..], i - 1);
      assert R == [LL[0]] + R';
      WeightWithout(LL[1..], i - 1);
      assert LL[1..][i - 1] == LL[i];
      assert R[0] == LL[0] && R[1..] == R';
      AllRank2Cons(R);
      assert ListWeight(R) == Plus(Weight(LL[0]), ListWeight(R'));
      assert ListWeight(LL) == Plus(Weight(LL[0]), ListWeight(LL[1..]));
    } else {
      assert R == LL[1..];
    }
  }

  /** On a list of rank-2 lattices `isFull` holds exactly when no single
      deletion leaves a cover of weight at least 1; the weight-1 shortcut is
      sound because a deletion from a list of weight 1 leaves weight below 1. */
  lemma IsFullMeans(P: P1Provider, LL: seq<Lattice>)
    requires Valid(P) && AllRank2(LL)
    ensures IsFull(P, LL, false) <==>
      forall i | 0 <= i < |LL| :: Below(ListWeight(Without(LL, i)), 1.0) || !CoversZ2(Without(LL, i))
  {
    forall i | 0 <= i < |LL|
      ensures IsCoverWithout1(P, LL, i) <==>
        !Below(ListWeight(Without(LL, i)), 1.0) && CoversZ2(Without(LL, i))
      ensures ListWeight(LL) == Finite(1.0) ==> Below(ListWeight(Without(LL, i)), 1.0)
    {
      WeightWithout(LL, i);
      Rank2OnlyOfRank2(Without(LL, i));
      CoverRank2Means(P, Without(LL, i));
    }
  }

  // ---------------------------------------------------------------------
  // One-minimality: L cannot be replaced by a proper sublattice

  /** When LL[i] has no copy in LL, the only member of LL[i := B] that can
      contain a private vector of LL[i] is B. */
  lemma PrivateOnlyIn(LL: seq<Lattice>, i: int, B: Lattice, y: Vec)
    requires 0 <= i < |LL| && NoDuplicateOf(LL, i)
    requires Private(LL, LL[i], y) && IsInUnion(y, LL[i := B])
    ensures Contains1(B, y)
  {
    var R := LL[i := B];
    var L1 :| L1 in R && Contains1(L1, y);
    var j :| 0 <= j < |R| && R[j] == L1;
    assert LL[j] in LL;
    assert j == i;
  }

  /** A vector that is not private to LL[i] lies in another member. */
  lemma NotPrivateElsewhere(LL: seq<Lattice>, i: int, y: Vec)
    requires 0 <= i < |LL| && !Private(LL, LL[i], y)
    ensures exists j | 0 <= j < |LL| && j != i :: Contains1(LL[j], y)
  {
    var L1 :| L1 in LL && !Eq(L1, LL[i]) && Contains1(L1, y);
    var j :| 0 <= j < |LL| && LL[j] == L1;
    EqRefl(LL[i]);
  }

  /** Any B through all private vectors of LL[i] can take its place. */
  lemma ReplaceCovers(LL: seq<Lattice>, i: int, B: Lattice)
    requires 0 <= i < |LL|
    requires forall v :: Private(LL, LL[i], v) ==> Contains1(B, v)
    ensures CoversZ2(LL[i := B])
  {
    var R := LL[i := B];
    forall v ensures IsInUnion(v, R) {
      if Private(LL, LL[i], v) {
        assert R[i] in R;
      } else {
        NotPrivateElsewhere(LL, i, v);
        var j :| 0 <= j < |LL| && j != i && Contains1(LL[j], v);
        assert R[j] in R;
      }
    }
  }

  /** In a cover, a private vector of a member lies in that member. */
  lemma PrivateInside(LL: seq<Lattice>, i: int, v: Vec)
    requires AllRank2(LL) && AllWellFormed(LL) && 0 <= i < |LL|
    requires IsInUnion(v, LL) && Private(LL, LL[i], v)
    ensures Contains1(LL[i], v)
  {
    var L1 :| L1 in LL && Contains1(L1, v);
    assert Eq(L1, LL[i]);
    assert LL[i] in LL;
    EqIsSameSet(L1, LL[i]);
  }

  /** A vector whose multiple is private is private. */
  lemma PrivateOfMultiple(LL: seq<Lattice>, L: Lattice, g: int, u: Vec)
    requires AllRank2(LL)
    ensures Private(LL, L, Scale(g, u)) ==> Private(LL, L, u)
  {
    if !Private(LL, L, u) {
      var L1 :| L1 in LL && !Eq(L1, L) && Contains1(L1, u);
      ScaleMember(L1, g, u);
    }
  }

  /** Privacy only depends on the point modulo a common multiple M of the
      indices. */
  lemma PrivateOfPoint(LL: seq<Lattice>, L: Lattice, M: nat, u: Vec, e: Vec)
    requires AllRank2(LL) && forall L1 | L1 in LL :: Divides(L1.N, M)
    requires Divides(M, Wedge(u, e)) && CoprimeTo(M, e)
    ensures Private(LL, L, u) ==> Private(LL, L, e)
  {
    if !Private(LL, L, e) {
      var L1 :| L1 in LL && !Eq(L1, L) && Contains1(L1, e);
      EquivMember(L1.N, M, u, e, V(L1));
    }
  }

  /** Privacy is invariant under translation by M Z^2. */
  lemma PrivateShift(LL: seq<Lattice>, L: Lattice, M: nat, s: Vec, t: Vec)
    requires AllRank2(LL) && forall L1 | L1 in LL :: Divides(L1.N, M)
    ensures Private(LL, L, s) ==> Private(LL, L, AddVec(s, Scale(M, t)))
  {
    var w := AddVec(s, Scale(M, t));
    if !Private(LL, L, w) {
      var L1 :| L1 in LL && !Eq(L1, L) && Contains1(L1, w);
      WedgeShift(s, M, t, V(L1));
      DividesMul(L1.N, M, Wedge(t, V(L1)));
      DividesAdd(L1.N, Wedge(w, V(L1)), M * Wedge(t, V(L1)));
      assert Contains1(L1, s);
    }
  }

  /** The private points of L in P^1(Z/MZ). */
  function PrivatePoints(P: P1Provider, LL: seq<Lattice>, L: Lattice): seq<Vec>
    requires AllRank2(LL)
  {
    PrivateOf(LL, L, P.list(IndexLcm(LL)))
  }

  /** The index gcd(M, wedges) computed by `isOneMinimal`. */
  function ThroughIndex(P: P1Provider, LL: seq<Lattice>, L: Lattice): int
    requires AllRank2(LL) && |PrivatePoints(P, LL, L)| > 0
  {
    var S := PrivatePoints(P, LL, L);
    GcdList([IndexLcm(LL) as int] + Wedges(S))
  }

  lemma OneMinimalUnfold(P: P1Provider, LL: seq<Lattice>, L: Lattice)
    requires AllRank2(LL) && !Exceeds(Weight(L), TwiceExcess(ListWeight(LL)))
    ensures IsOneMinimal(P, LL, L) <==>
      |PrivatePoints(P, LL, L)| > 0 && ThroughIndex(P, LL, L) == L.N
  {
  }

  /** Every member of S is on the smallest lattice through S[0] of index D. */
  lemma InWedges(M: int, S: seq<Vec>, e: Vec)
    requires |S| > 0 && e in S
    ensures Divides(GcdList([M] + Wedges(S)), Wedge(S[0], e))
  {
    var xs := [M] + Wedges(S);
    var m :| 0 <= m < |S| && S[m] == e;
    if m == 0 {
      WedgeAntisym(e, e);
      DividesRefl(GcdList(xs));
    } else {
      assert xs[m] == Wedge(S[0], e);
    }
  }

  /** gcd(g, N) = 1 survives multiplying N by g + 1, g = gcd(v0, v1). */
  lemma CoprimeLift(N: nat, v: Vec)
    requires CoprimeTo(N, v)
    ensures CoprimeTo(N * (Gcd(v.0, v.1) + 1), v)
  {
    var g := Gcd(v.0, v.1);
    var r1 := Xgcd(v.0, v.1);
    var r2 := Xgcd(g, N);
    var q := r2.1 - N * r2.2;
    Distrib(v.0, v.1, r1.1, r1.2, q);
    LiftAlgebra(g, N, r2.1, r2.2);
    CoprimeFromBezout(N * (g + 1), v, r1.1 * q, r1.2 * q, r2.2);
  }

  lemma LiftAlgebra(g: int, N: int, r: int, s: int)
    requires g * r + N * s == 1
    ensures g * (r - N * s) + (N * (g + 1)) * s == 1
  {
    calc {
      g * (r - N * s) + (N * (g + 1)) * s;
      g * r - g * (N * s) + N * g * s + N * s;
      g * r + N * s;
    }
  }

  /** A proper sublattice of a rank-2 lattice: index N(g + 1) with the same
      vector, or index 2 when the vector is 0 (then N = 1). */
  function Shrink(L: Lattice): (B: Lattice)
    requires L.N > 0 && WellFormed(L)
    ensures ProperSub(L, B)
  {
    if V(L) == (0, 0) then
      ShrinkZero(L);
      Lattice(2, 1, 0, 0)
    else
      ShrinkLift(L);
      Lattice(L.N * (Gcd(L.c, L.d) + 1), L.c, L.d, 0)
  }

  lemma ShrinkZero(L: Lattice)
    requires L.N > 0 && WellFormed(L) && V(L) == (0, 0)
    ensures ProperSub(L, Lattice(2, 1, 0, 0))
  {
    assert Gcd(0, 0) == 0;
    assert GcdNat(0, L.N) == GcdNat(L.N, 0) == L.N;
    BezoutOneCoprime(1, 0, 1, 0);
    PrimitiveCoprime(2, (1, 0));
    DividesRefl(2);
    DividesRefl(Wedge((1, 0), V(L)));
  }

  lemma ShrinkLift(L: Lattice)
    requires L.N > 0 && WellFormed(L) && V(L) != (0, 0)
    ensures ProperSub(L, Lattice(L.N * (Gcd(L.c, L.d) + 1), L.c, L.d, 0))
  {
    var g := Gcd(L.c, L.d);
    var B := Lattice(L.N * (g + 1), L.c, L.d, 0);
    GcdZero(L.c, L.d);
    CoprimeLift(L.N, V(L));
    DividesIntro(L.N, g + 1);
    WedgeAntisym(V(L), V(L));
    DividesRefl(L.N);
    MulSigns(L.N, g);
    assert B.N == L.N * g + L.N;
  }

  /** Without private points in P^1(Z/MZ), L is redundant: any proper
      sublattice can replace it. */
  lemma NoPrivateRedundant(P: P1Provider, LL: seq<Lattice>, i: int)
    requires Valid(P) && AllRank2(LL) && AllWellFormed(LL) && 0 <= i < |LL|
    requires |PrivatePoints(P, LL, LL[i])| == 0
    ensures ProperSub(LL[i], Shrink(LL[i])) && CoversZ2(LL[i := Shrink(LL[i])])
  {
    var L := LL[i];
    assert L in LL;
    forall v ensures !Private(LL, L, v) {
      NotPrivateAnywhere(P, LL, L, v);
    }
    ReplaceCovers(LL, i, Shrink(L));
  }

  lemma NotPrivateAnywhere(P: P1Provider, LL: seq<Lattice>, L: Lattice, v: Vec)
    requires Valid(P) && AllRank2(LL) && |PrivatePoints(P, LL, L)| == 0
    ensures !Private(LL, L, v)
  {
    var M := IndexLcm(LL);
    var xs := P.list(M);
    UseValid(P, M, (0, 0));
    assert xs[0] in xs;
    assert !Private(LL, L, xs[0]);
    if v == (0, 0) {
      var L1 :| L1 in LL && !Eq(L1, L) && Contains1(L1, xs[0]);
      ZeroMember(L1);
    } else {
      var g, u := PrimitivePart(v);
      PrimitiveCoprime(M, u);
      var k := NormalizeInto(P, M, u);
      assert xs[k] in xs;
      PrivateOfPoint(LL, L, M, u, xs[k]);
      PrivateOfMultiple(LL, L, g, u);
    }
  }

  lemma ThroughFacts(P: P1Provider, LL: seq<Lattice>, L: Lattice)
    requires Valid(P) && AllRank2(LL) && |PrivatePoints(P, LL, L)| > 0
    ensures var D := ThroughIndex(P, LL, L); var s0 := PrivatePoints(P, LL, L)[0];
      D > 0 && Divides(D, IndexLcm(LL)) && CoprimeTo(IndexLcm(LL), s0) && CoprimeTo(D, s0)
  {
    var M := IndexLcm(LL);
    var S := PrivatePoints(P, LL, L);
    var D := ThroughIndex(P, LL, L);
    assert ([M as int] + Wedges(S))[0] == M;
    assert S[0] in S;
    var xs := P.list(M);
    var k :| 0 <= k < |xs| && xs[k] == S[0];
    UseValid(P, M, S[0]);
    CoprimeToDivisor(M, D, S[0]);
  }

  /** `L(S[0]; D)`: the smallest lattice through the private points of L. */
  function Through(P: P1Provider, LL: seq<Lattice>, L: Lattice): (B: Lattice)
    requires Valid(P) && AllRank2(LL) && |PrivatePoints(P, LL, L)| > 0
    ensures B.N == ThroughIndex(P, LL, L) && B.N > 0 && WellFormed(B)
    ensures Divides(B.N, Wedge(PrivatePoints(P, LL, L)[0], V(B)))
  {
    ThroughFacts(P, LL, L);
    Make(P, ThroughIndex(P, LL, L) as nat, PrivatePoints(P, LL, L)[0])
  }

  /** Every private vector of L lies on `L(S[0]; D)`. */
  lemma ThroughContainsPrivate(P: P1Provider, LL: seq<Lattice>, L: Lattice, v: Vec)
    requires Valid(P) && AllRank2(LL) && |PrivatePoints(P, LL, L)| > 0
    requires Private(LL, L, v)
    ensures Contains1(Through(P, LL, L), v)
  {
    var B := Through(P, LL, L);
    if v == (0, 0) {
      ZeroMember(B);
    } else {
      var M := IndexLcm(LL);
      var S := PrivatePoints(P, LL, L);
      var D := B.N;
      ThroughFacts(P, LL, L);
      var g, u := PrimitivePart(v);
      PrivateOfMultiple(LL, L, g, u);
      PrimitiveCoprime(M, u);
      var k := NormalizeInto(P, M, u);
      var e := P.list(M)[k];
      PrivateOfPoint(LL, L, M, u, e);
      assert e in S;
      InWedges(M, S, e);
      WedgeAntisym(S[0], e);
      DividesNeg(D, Wedge(S[0], e));
      WedgeTrans(D, e, S[0], V(B));
      EquivMember(D, M, u, e, V(B));
      ScaleMember(B, g, u);
    }
  }

  /** In a cover, `L(S[0]; D)` is a sublattice of L. */
  lemma ThroughInside(P: P1Provider, LL: seq<Lattice>, i: int)
    requires Valid(P) && AllRank2(LL) && AllWellFormed(LL) && 0 <= i < |LL| && CoversZ2(LL)
    requires |PrivatePoints(P, LL, LL[i])| > 0
    ensures Contains(LL[i], Through(P, LL, LL[i]))
  {
    var L := LL[i];
    assert L in LL;
    var M := IndexLcm(LL);
    var S := PrivatePoints(P, LL, L);
    var B := Through(P, LL, L);
    ThroughFacts(P, LL, L);
    PointOf(L);
    forall k | 0 <= k < |S| ensures Contains1(L, S[k]) {
      assert S[k] in S;
      PrivateInside(LL, i, S[k]);
    }
    var xs := [M as int] + Wedges(S);
    forall k | 0 <= k < |xs| ensures Divides(L.N, xs[k]) {
      if k > 0 {
        WedgeAntisym(V(L), S[k]);
        DividesNeg(L.N, Wedge(S[k], V(L)));
        WedgeTrans(L.N, S[0], V(L), S[k]);
      }
    }
    GcdListGreatest(xs, L.N);
    CoprimeToDivisor(M, L.N, S[0]);
    DividesTrans(L.N, B.N, Wedge(S[0], V(B)));
    WedgeAntisym(S[0], V(B));
    DividesNeg(L.N, Wedge(S[0], V(B)));
    WedgeTrans(L.N, V(B), S[0], V(L));
  }

  /** When D differs from the index of L, `L(S[0]; D)` replaces L. */
  lemma SmallerReplaces(P: P1Provider, LL: seq<Lattice>, i: int)
    requires Valid(P) && AllRank2(LL) && AllWellFormed(LL) && 0 <= i < |LL| && CoversZ2(LL)
    requires |PrivatePoints(P, LL, LL[i])| > 0 && ThroughIndex(P, LL, LL[i]) != LL[i].N
    ensures ProperSub(LL[i], Through(P, LL, LL[i]))
    ensures CoversZ2(LL[i := Through(P, LL, LL[i])])
  {
    var B := Through(P, LL, LL[i]);
    assert LL[i] in LL;
    ThroughInside(P, LL, i);
    forall v | Private(LL, LL[i], v) ensures Contains1(B, v) {
      ThroughContainsPrivate(P, LL, LL[i], v);
    }
    ReplaceCovers(LL, i, B);
  }

  /** A replacement B that keeps the cover contains the private points and
      their translates by M Z^2, so its index divides D. */
  lemma ReplacementDivides(P: P1Provider, LL: seq<Lattice>, i: int, B: Lattice)
    requires Valid(P) && AllRank2(LL) && 0 <= i < |LL| && NoDuplicateOf(LL, i)
    requires |PrivatePoints(P, LL, LL[i])| > 0
    requires B.N > 0 && WellFormed(B) && CoversZ2(LL[i := B])
    ensures Divides(B.N, ThroughIndex(P, LL, LL[i]))
  {
    var L := LL[i];
    var M := IndexLcm(LL);
    var S := PrivatePoints(P, LL, L);
    var n := B.N;
    PointOf(B);
    forall k | 0 <= k < |S| ensures Contains1(B, S[k]) {
      assert S[k] in S;
      assert IsInUnion(S[k], LL[i := B]);
      PrivateOnlyIn(LL, i, B, S[k]);
    }
    var xs := [M as int] + Wedges(S);
    forall k | 0 <= k < |xs| ensures Divides(n, xs[k]) {
      if k == 0 {
        ReplacementDividesM(P, LL, i, B);
      } else {
        WedgeAntisym(V(B), S[k]);
        DividesNeg(n, Wedge(S[k], V(B)));
        WedgeTrans(n, S[0], V(B), S[k]);
      }
    }
    GcdListGreatest(xs, n);
  }

  lemma ReplacementDividesM(P: P1Provider, LL: seq<Lattice>, i: int, B: Lattice)
    requires Valid(P) && AllRank2(LL) && 0 <= i < |LL| && NoDuplicateOf(LL, i)
    requires |PrivatePoints(P, LL, LL[i])| > 0
    requires B.N > 0 && WellFormed(B) && CoversZ2(LL[i := B])
    ensures Divides(B.N, IndexLcm(LL))
  {
    var L := LL[i];
    var M := IndexLcm(LL);
    var S := PrivatePoints(P, LL, L);
    var n := B.N;
    var s0 := S[0];
    assert s0 in S;
    var x, y, z := CoprimeBezout(n, V(B));
    var t: Vec := (y, -x);
    BezoutWedge(n, V(B), x, y, z);
    var w := AddVec(s0, Scale(M, t));
    PrivateShift(LL, L, M, s0, t);
    assert IsInUnion(s0, LL[i := B]) && IsInUnion(w, LL[i := B]);
    PrivateOnlyIn(LL, i, B, s0);
    PrivateOnlyIn(LL, i, B, w);
    WedgeShift(s0, M, t, V(B));
    DividesAdd(n, Wedge(w, V(B)), Wedge(s0, V(B)));
    assert Wedge(t, V(B)) == 1 - n * z;
    TranslateDivides(n, M, z);
  }

  lemma TranslateDivides(n: int, M: int, z: int)
    requires Divides(n, M * (1 - n * z))
    ensures Divides(n, M)
  {
    DividesIntro(n, M * z);
    DividesAdd(n, M * (1 - n * z), n * (M * z));
    assert M * (1 - n * z) + n * (M * z) == M;
  }

  /** For a cover without repeated members and outside the weight shortcut,
      `isOneMinimal(LL, L)` holds exactly when no proper sublattice of L can
      replace it. */
  lemma OneMinimalIff(P: P1Provider, LL: seq<Lattice>, i: int)
    requires Valid(P) && AllRank2(LL) && AllWellFormed(LL) && 0 <= i < |LL|
    requires CoversZ2(LL) && NoDuplicateOf(LL, i)
    requires !Exceeds(Weight(LL[i]), TwiceExcess(ListWeight(LL)))
    ensures IsOneMinimal(P, LL, LL[i]) <==> forall B | ProperSub(LL[i], B) :: !CoversZ2(LL[i := B])
  {
    var L := LL[i];
    assert L in LL;
    OneMinimalUnfold(P, LL, L);
    if |PrivatePoints(P, LL, L)| == 0 {
      NoPrivateRedundant(P, LL, i);
    } else if ThroughIndex(P, LL, L) != L.N {
      SmallerReplaces(P, LL, i);
    } else {
      forall B | ProperSub(L, B) ensures !CoversZ2(LL[i := B]) {
        ProperSubIndex(P, LL, i, B);
      }
    }
  }

  lemma ProperSubIndex(P: P1Provider, LL: seq<Lattice>, i: int, B: Lattice)
    requires Valid(P) && AllRank2(LL) && 0 <= i < |LL| && NoDuplicateOf(LL, i)
    requires |PrivatePoints(P, LL, LL[i])| > 0 && ThroughIndex(P, LL, LL[i]) == LL[i].N
    requires ProperSub(LL[i], B)
    ensures !CoversZ2(LL[i := B])
  {
    if CoversZ2(LL[i := B]) {
      ReplacementDivides(P, LL, i, B);
    }
    DividesAntisymImp(LL[i].N, B.N);
  }

  lemma DividesAntisymImp(a: nat, b: nat)
    ensures Divides(a, b) && Divides(b, a) ==> a == b
  {
    if Divides(a, b) && Divides(b, a) {
      DividesAntisym(a, b);
    }
  }

  /** `isMinimal(LL)`, for a cover without repeated members in which no
      member passes the weight shortcut, holds exactly when no member can be
      replaced by a proper sublattice. */
  lemma MinimalIff(P: P1Provider, LL: seq<Lattice>)
    requires Valid(P) && AllRank2(LL) && AllWellFormed(LL) && CoversZ2(LL)
    requires forall i | 0 <= i < |LL| :: NoDuplicateOf(LL, i)
    requires forall i | 0 <= i < |LL| :: !Exceeds(Weight(LL[i]), TwiceExcess(ListWeight(LL)))
    ensures IsMinimal(P, LL, false) <==>
      forall i | 0 <= i < |LL| :: forall B | ProperSub(LL[i], B) :: !CoversZ2(LL[i := B])
  {
    forall i | 0 <= i < |LL|
      ensures IsOneMinimal(P, LL, LL[i]) <==> forall B | ProperSub(LL[i], B) :: !CoversZ2(LL[i := B])
    {
      OneMinimalIff(P, LL, i);
    }
    assert forall L | L in LL :: exists i | 0 <= i < |LL| :: LL[i] == L;
  }

  // ---------------------------------------------------------------------
  // Repeated lattices

  /** As written, `isOneMinimal` passes over every lattice equal to L when it
      collects the private points, so a lattice repeated in the list is judged
      as if it stood alone: in [Z², Z²] the first copy passes the test,
      although a proper sublattice can replace it and the list still covers. */
  lemma DuplicateJudgedOneMinimal(P: P1Provider, L: Lattice)
    requires Valid(P) && L.N == 1 && WellFormed(L)
    ensures IsOneMinimal(P, [L, L], L)
    ensures ProperSub(L, Shrink(L)) && CoversZ2([L, L][0 := Shrink(L)])
    ensures !IsOneMinimalAt(P, [L, L], 0)
  {
    var LL := [L, L];
    assert AllRank2(LL);
    UniformWeight(LL, 1);
    assert Psi(1) == 1;
    assert Recip(1) == 1.0;
    assert ListWeight(LL) == Finite(2.0);
    var M := IndexLcm(LL);
    assert Divides(M, 1);
    DividesLe(M, 1);
    UseValid(P, 1, (0, 0));
    EqRefl(L);
    var S := PrivateOf(LL, L, P.list(M));
    assert P.list(M)[0] in S;
    GcdListWithOne(Wedges(S));
    assert !NoDuplicateOf(LL, 0) by {
      assert Eq(LL[1], LL[0]);
    }
    var R := LL[0 := Shrink(L)];
    forall v: Vec ensures IsInUnion(v, R) {
      assert Contains1(R[1], v);
    }
  }

  /** One-minimality of the i-th member as `isOneMinimal` documents it: a
      lattice with an equal copy elsewhere in the list is redundant and so
      never one-minimal; otherwise the code's test decides. */
  predicate IsOneMinimalAt(P: P1Provider, LL: seq<Lattice>, i: int)
    requires AllRank2(LL) && 0 <= i < |LL|
  {
    NoDuplicateOf(LL, i) && IsOneMinimal(P, LL, LL[i])
  }

  /** `isMinimal` built on the corrected one-minimality. */
  predicate IsMinimalAt(P: P1Provider, LL: seq<Lattice>, check: bool)
    requires AllRank2(LL)
  {
    (!check || IsCover(P, LL)) && forall i | 0 <= i < |LL| :: IsOneMinimalAt(P, LL, i)
  }

  /** A member with an equal copy elsewhere can be replaced by anything and
      the list still covers Z². */
  lemma CopyRedundant(LL: seq<Lattice>, i: int, j: int, B: Lattice)
    requires AllRank2(LL) && AllWellFormed(LL) && CoversZ2(LL)
    requires 0 <= i < |LL| && 0 <= j < |LL| && i != j && Eq(LL[j], LL[i])
    ensures CoversZ2(LL[i := B])
  {
    assert LL[i] in LL && LL[j] in LL;
    EqIsSameSet(LL[j], LL[i]);
    var R := LL[i := B];
    forall v: Vec ensures IsInUnion(v, R) {
      assert IsInUnion(v, LL);
      var L1 :| L1 in LL && Contains1(L1, v);
      var k :| 0 <= k < |LL| && LL[k] == L1;
      if k == i {
        assert R[j] == LL[j];
      } else {
        assert R[k] == LL[k];
      }
    }
  }

  /** Without the weight shortcut, the corrected one-minimality holds exactly
      when no proper sublattice of LL[i] can replace it in the cover, repeated
      lattices included. */
  lemma OneMinimalAtIff(P: P1Provider, LL: seq<Lattice>, i: int)
    requires Valid(P) && AllRank2(LL) && AllWellFormed(LL) && 0 <= i < |LL| && CoversZ2(LL)
    requires !Exceeds(Weight(LL[i]), TwiceExcess(ListWeight(LL)))
    ensures IsOneMinimalAt(P, LL, i) <==> forall B | ProperSub(LL[i], B) :: !CoversZ2(LL[i := B])
  {
    if NoDuplicateOf(LL, i) {
      OneMinimalIff(P, LL, i);
    } else {
      var j :| 0 <= j < |LL| && j != i && Eq(LL[j], LL[i]);
      assert LL[i] in LL;
      CopyRedundant(LL, i, j, Shrink(LL[i]));
    }
  }

  /** The corrected minimality, for a cover in which no member passes the
      weight shortcut, holds exactly when no member can be shrunk to a proper
      sublattice. */
  lemma MinimalAtIff(P: P1Provider, LL: seq<Lattice>)
    requires Valid(P) && AllRank2(LL) && AllWellFormed(LL) && CoversZ2(LL)
    requires forall i | 0 <= i < |LL| :: !Exceeds(Weight(LL[i]), TwiceExcess(ListWeight(LL)))
    ensures IsMinimalAt(P, LL, false) <==>
      forall i | 0 <= i < |LL| :: forall B | ProperSub(LL[i], B) :: !CoversZ2(LL[i := B])
  {
    forall i | 0 <= i < |LL|
      ensures IsOneMinimalAt(P, LL, i) <==> forall B | ProperSub(LL[i], B) :: !CoversZ2(LL[i := B])
    {
      OneMinimalAtIff(P, LL, i);
    }
  }
}
