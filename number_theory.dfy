/** Exact integer arithmetic that the covering code takes from its host
    computer-algebra system: divisibility, gcd, extended gcd, lcm and
    gcd/lcm of lists, all with the conventions of Sage's integers. */
module NumberTheory {

  function Abs(x: int): nat { if x < 0 then -x else x }

  /** `d.divides(n)`: 0 divides only 0. */
  predicate Divides(d: int, n: int) {
    if d == 0 then n == 0 else n % d == 0
  }

  predicate IsPrime(p: int) {
    p >= 2 && forall d :: 2 <= d < p ==> p % d != 0
  }

  // ---------------------------------------------------------------------
  // Divisibility

  /** Signs of products, without case splits in the callers. */
  lemma MulSigns(a: int, b: int)
    ensures a >= 0 && b >= 0 ==> a * b >= 0
    ensures a >= 0 && b <= 0 ==> a * b <= 0
    ensures a <= 0 && b >= 0 ==> a * b <= 0
    ensures a <= 0 && b <= 0 ==> a * b >= 0
  {
  }

  lemma ModOfMultiple(d: int, k: int)
    requires d != 0
    ensures (d * k) % d == 0
  {
    var q, r := (d * k) / d, (d * k) % d;
    assert d * k == q * d + r;
    var e := k - q;
    assert d * e == r;
    MulSigns(d, e - 1);
    MulSigns(d, e + 1);
    assert d * (e - 1) == d * e - d && d * (e + 1) == d * e + d;
    assert e == 0;
  }

  lemma DividesIntro(d: int, k: int)
    ensures Divides(d, d * k)
  {
    if d != 0 { ModOfMultiple(d, k); }
  }

  /** The quotient of an exact division. */
  lemma DividesElim(d: int, n: int) returns (k: int)
    requires Divides(d, n)
    ensures n == d * k
  {
    if d == 0 {
      k := 0;
    } else {
      k := n / d;
      assert n == (n / d) * d + n % d;
    }
  }

  lemma DividesLinear(d: int, a: int, b: int, x: int, y: int)
    requires Divides(d, a) && Divides(d, b)
    ensures Divides(d, a * x + b * y)
  {
    var k1 := DividesElim(d, a);
    var k2 := DividesElim(d, b);
    assert a * x + b * y == d * (k1 * x + k2 * y);
    DividesIntro(d, k1 * x + k2 * y);
  }

  lemma DividesAdd(d: int, a: int, b: int)
    requires Divides(d, a) && Divides(d, b)
    ensures Divides(d, a + b) && Divides(d, a - b)
  {
    DividesLinear(d, a, b, 1, 1);
    DividesLinear(d, a, b, 1, -1);
  }

  lemma DividesMul(d: int, a: int, x: int)
    requires Divides(d, a)
    ensures Divides(d, a * x) && Divides(d, x * a)
  {
    DividesLinear(d, a, 0, x, 0);
    assert x * a == a * x;
  }

  lemma DividesNeg(d: int, a: int)
    ensures Divides(d, a) <==> Divides(d, -a)
  {
    if Divides(d, a) { DividesMul(d, a, -1); }
    if Divides(d, -a) { DividesMul(d, -a, -1); }
  }

  lemma DividesTrans(a: int, b: int, c: int)
    requires Divides(a, b) && Divides(b, c)
    ensures Divides(a, c)
  {
    var k := DividesElim(b, c);
    DividesMul(a, b, k);
  }

  lemma DividesRefl(d: int)
    ensures Divides(d, d) && Divides(d, 0) && Divides(1, d)
  {
    DividesIntro(d, 1);
    DividesIntro(d, 0);
    DividesIntro(1, d);
  }

  /** A positive divisor is at most the (positive) number it divides. */
  lemma DividesLe(d: int, n: int)
    requires d > 0 && n > 0 && Divides(d, n)
    ensures d <= n
  {
    var k := DividesElim(d, n);
    MulSigns(d, k);
    MulSigns(d, k - 1);
    assert d * (k - 1) == d * k - d;
  }

  lemma DividesAntisym(a: nat, b: nat)
    requires Divides(a, b) && Divides(b, a)
    ensures a == b
  {
    if a == 0 || b == 0 {
    } else {
      DividesLe(a, b);
      DividesLe(b, a);
    }
  }

  /** Divisibility by a non-zero d only depends on the residue modulo d. */
  lemma DividesMod(d: int, n: int)
    requires d != 0
    ensures Divides(d, n) <==> Divides(d, n % d)
  {
    assert n == (n / d) * d + n % d;
    DividesIntro(d, n / d);
    assert (n / d) * d == d * (n / d);
    if Divides(d, n) { DividesAdd(d, n, d * (n / d)); assert n - d * (n / d) == n % d; }
    if Divides(d, n % d) { DividesAdd(d, n % d, d * (n / d)); assert n % d + d * (n / d) == n; }
  }

  /** Two numbers of [0, d) that agree modulo d are equal. */
  lemma ResidueUnique(d: int, x: int, y: int)
    requires d > 0 && 0 <= x < d && 0 <= y < d && Divides(d, x - y)
    ensures x == y
  {
    var k := DividesElim(d, x - y);
    MulSigns(d, k - 1);
    MulSigns(d, k + 1);
    assert d * (k - 1) == d * k - d && d * (k + 1) == d * k + d;
    assert k == 0;
  }

  /** n is congruent to n % d. */
  lemma ModCongruent(d: int, n: int)
    requires d != 0
    ensures Divides(d, n - n % d) && Divides(d, n % d - n)
  {
    assert n == (n / d) * d + n % d;
    assert n - n % d == d * (n / d);
    DividesIntro(d, n / d);
    DividesNeg(d, n - n % d);
  }

  // ---------------------------------------------------------------------
  // Gcd, extended gcd

  function GcdNat(a: nat, b: nat): nat
    decreases b
  {
    if b == 0 then a else GcdNat(b, a % b)
  }

  /** Sage's `gcd`: non-negative, and gcd(0, 0) = 0. */
  function Gcd(a: int, b: int): nat {
    GcdNat(Abs(a), Abs(b))
  }

  /** Extended Euclid on natural numbers: the gcd with Bezout coefficients. */
  function XgcdNat(a: nat, b: nat): (r: (nat, int, int))
    ensures r.0 == GcdNat(a, b) && a * r.1 + b * r.2 == r.0
    decreases b
  {
    if b == 0 then (a, 1, 0)
    else
      var t := XgcdNat(b, a % b);
      var q := a / b;
      assert a == b * q + a % b;
      assert a * t.2 + b * (t.1 - q * t.2) == b * t.1 + (a - b * q) * t.2;
      (t.0, t.2, t.1 - q * t.2)
  }

  /** Sage's `xgcd(a, b)`: (g, x, y) with g = gcd(a, b) = a*x + b*y.
      (Sage's particular choice of x and y is not modelled; any Bezout pair is returned.) */
  function Xgcd(a: int, b: int): (r: (nat, int, int))
    ensures r.0 == Gcd(a, b) && a * r.1 + b * r.2 == r.0
  {
    var t := XgcdNat(Abs(a), Abs(b));
    var x := SignTo(a, t.1);
    var y := SignTo(b, t.2);
    (t.0, x, y)
  }

  /** u with the sign of a moved onto it: a * SignTo(a, u) == |a| * u. */
  function SignTo(a: int, u: int): (x: int)
    ensures a * x == Abs(a) * u
  {
    if a < 0 then
      assert a * -u == (-a) * u;
      -u
    else u
  }

  lemma {:induction false} GcdNatDivides(a: nat, b: nat)
    ensures Divides(GcdNat(a, b), a) && Divides(GcdNat(a, b), b)
    decreases b
  {
    if b == 0 {
      DividesRefl(a);
    } else {
      GcdNatDivides(b, a % b);
      var g := GcdNat(a, b);
      assert a == b * (a / b) + a % b;
      DividesLinear(g, b, a % b, a / b, 1);
    }
  }

  lemma DividesAbs(d: int, n: int)
    ensures Divides(d, n) <==> Divides(d, Abs(n))
  {
    DividesNeg(d, n);
  }

  lemma GcdDivides(a: int, b: int)
    ensures Divides(Gcd(a, b), a) && Divides(Gcd(a, b), b)
  {
    GcdNatDivides(Abs(a), Abs(b));
    DividesAbs(Gcd(a, b), a);
    DividesAbs(Gcd(a, b), b);
  }

  /** Every common divisor divides the gcd. */
  lemma GcdGreatest(a: int, b: int, d: int)
    requires Divides(d, a) && Divides(d, b)
    ensures Divides(d, Gcd(a, b))
  {
    var r := Xgcd(a, b);
    DividesLinear(d, a, b, r.1, r.2);
  }

  lemma GcdZero(a: int, b: int)
    ensures Gcd(a, b) == 0 <==> a == 0 && b == 0
  {
    GcdDivides(a, b);
  }

  lemma GcdSymmetric(a: int, b: int)
    ensures Gcd(a, b) == Gcd(b, a) && Gcd(a, b) == Gcd(-a, b) && Gcd(a, b) == Gcd(a, -b)
  {
    GcdDivides(a, b);
    GcdDivides(b, a);
    GcdGreatest(a, b, Gcd(b, a));
    GcdGreatest(b, a, Gcd(a, b));
    DividesAntisym(Gcd(a, b), Gcd(b, a));
    assert Abs(-a) == Abs(a) && Abs(-b) == Abs(b);
  }

  /** A Bezout identity equal to 1 makes the pair coprime. */
  lemma BezoutOneCoprime(a: int, b: int, x: int, y: int)
    requires a * x + b * y == 1
    ensures Gcd(a, b) == 1
  {
    var g := Gcd(a, b);
    GcdDivides(a, b);
    DividesLinear(g, a, b, x, y);
    GcdZero(a, b);
    DividesLe(g, 1);
  }

  // ---------------------------------------------------------------------
  // Lcm and lists

  /** Sage's `lcm(a, b)` on natural numbers (0 if either is 0). */
  function Lcm(a: nat, b: nat): (r: nat)
    ensures a > 0 && b > 0 ==> r > 0 && Divides(a, r) && Divides(b, r)
    ensures a == 0 || b == 0 ==> r == 0
  {
    if a == 0 || b == 0 then 0
    else
      LcmMultiple(a, b);
      a * (b / Gcd(a, b))
  }

  lemma LcmMultiple(a: nat, b: nat)
    requires a > 0 && b > 0
    ensures Gcd(a, b) > 0
    ensures a * (b / Gcd(a, b)) > 0
    ensures Divides(a, a * (b / Gcd(a, b))) && Divides(b, a * (b / Gcd(a, b)))
  {
    var g := Gcd(a, b);
    GcdDivides(a, b);
    GcdZero(a, b);
    var ka := DividesElim(g, a);
    var kb := DividesElim(g, b);
    assert kb > 0 && ka > 0;
    assert b / g == kb by { assert b == kb * g; }
    assert a * kb == ka * b;
    DividesIntro(a, kb);
    DividesIntro(b, ka);
    assert a * kb > 0;
  }

  /** The lcm divides every common multiple. */
  lemma LcmLeast(a: nat, b: nat, m: int)
    requires Divides(a, m) && Divides(b, m)
    ensures Divides(Lcm(a, b), m)
  {
    if a == 0 || b == 0 {
      DividesIntro(0, 0);
    } else {
      var g := Gcd(a, b);
      GcdDivides(a, b);
      GcdZero(a, b);
      var ka := DividesElim(g, a);
      var kb := DividesElim(g, b);
      assert b / g == kb by { assert b == kb * g; }
      var r := Xgcd(a, b);
      CofactorsCoprime(g, ka, kb, r.1, r.2);
      var s := DividesElim(a, m);
      var t := DividesElim(b, m);
      var l := a * kb;
      LcmCofactor(g, ka, kb, m, s, t);
      CombineMultiples(l, ka, kb, r.1, r.2, m, s, t);
      DividesIntro(l, t * r.1 + s * r.2);
    }
  }

  /** Dividing a Bezout identity by the gcd leaves one equal to 1. */
  lemma CofactorsCoprime(g: int, ka: int, kb: int, x: int, y: int)
    requires g > 0 && (g * ka) * x + (g * kb) * y == g
    ensures ka * x + kb * y == 1
  {
    assert (g * ka) * x + (g * kb) * y == g * (ka * x + kb * y);
    MulCancelNat(g, ka * x + kb * y, 1);
  }

  /** With a = g*ka and b = g*kb, a common multiple m = a*s = b*t gives
      m*kb and m*ka as multiples of a*kb. */
  lemma LcmCofactor(g: int, ka: int, kb: int, m: int, s: int, t: int)
    requires m == (g * ka) * s && m == (g * kb) * t
    ensures m * kb == ((g * ka) * kb) * s && m * ka == ((g * ka) * kb) * t
  {
    assert m * ka == ((g * kb) * t) * ka;
  }

  lemma CombineMultiples(l: int, ka: int, kb: int, x: int, y: int, m: int, s: int, t: int)
    requires ka * x + kb * y == 1 && m * kb == l * s && m * ka == l * t
    ensures m == l * (t * x + s * y)
  {
    calc {
      m;
      m * (ka * x + kb * y);
      (m * ka) * x + (m * kb) * y;
      (l * t) * x + (l * s) * y;
      l * (t * x + s * y);
    }
  }

  lemma MulCancelNat(g: int, a: int, b: int)
    requires g > 0 && g * a == g * b
    ensures a == b
  {
    assert g * (a - b) == 0;
  }

  /** The lcm of a list divides every common multiple of its entries. */
  lemma {:induction false} LcmListLeast(xs: seq<nat>, m: int)
    requires forall i :: 0 <= i < |xs| ==> Divides(xs[i], m)
    ensures Divides(LcmList(xs), m)
  {
    if xs == [] {
      assert m % 1 == 0;
    } else {
      forall i | 0 <= i < |xs[1..]| ensures Divides(xs[1..][i], m) {
        assert xs[1..][i] == xs[i + 1];
      }
      LcmListLeast(xs[1..], m);
      LcmLeast(xs[0], LcmList(xs[1..]), m);
    }
  }

  /** Sage's `LCM(list)`; the lcm of the empty list is 1. */
  function LcmList(xs: seq<nat>): (r: nat)
    ensures (forall i :: 0 <= i < |xs| ==> xs[i] > 0) ==>
              r > 0 && forall i :: 0 <= i < |xs| ==> Divides(xs[i], r)
    ensures (exists i :: 0 <= i < |xs| && xs[i] == 0) ==> r == 0
  {
    if xs == [] then 1
    else
      var rest := LcmList(xs[1..]);
      var r := Lcm(xs[0], rest);
      assert forall i :: 1 <= i < |xs| ==> xs[i] == xs[1..][i - 1];
      if forall i :: 0 <= i < |xs| ==> xs[i] > 0 then
        assert forall i :: 1 <= i < |xs| ==> Divides(xs[i], r) by {
          forall i | 1 <= i < |xs| ensures Divides(xs[i], r) {
            DividesTrans(xs[i], rest, r);
          }
        }
        r
      else
        r
  }

  /** Sage's `GCD(list)`; the gcd of the empty list is 0. */
  function GcdList(xs: seq<int>): (r: nat)
    ensures forall i :: 0 <= i < |xs| ==> Divides(r, xs[i])
  {
    if xs == [] then 0
    else
      var rest := GcdList(xs[1..]);
      var r := Gcd(xs[0], rest);
      GcdDivides(xs[0], rest);
      assert forall i :: 1 <= i < |xs| ==> Divides(r, xs[i]) by {
        forall i | 1 <= i < |xs| ensures Divides(r, xs[i]) {
          assert xs[i] == xs[1..][i - 1];
          DividesTrans(r, rest, xs[i]);
        }
      }
      r
  }

  /** A list holding 1 has gcd 1. */
  lemma GcdListWithOne(ws: seq<int>)
    ensures GcdList([1] + ws) == 1
  {
    assert ([1] + ws)[1..] == ws;
    var g := Gcd(1, GcdList(ws));
    GcdDivides(1, GcdList(ws));
    GcdZero(1, GcdList(ws));
    DividesLe(g, 1);
  }

  /** The gcd of a list is the greatest common divisor: every common divisor divides it. */
  lemma {:induction false} GcdListGreatest(xs: seq<int>, d: int)
    requires forall i :: 0 <= i < |xs| ==> Divides(d, xs[i])
    ensures Divides(d, GcdList(xs))
  {
    if xs == [] {
      DividesRefl(d);
    } else {
      forall i | 0 <= i < |xs[1..]| ensures Divides(d, xs[1..][i]) {
        assert xs[1..][i] == xs[i + 1];
      }
      GcdListGreatest(xs[1..], d);
      assert Divides(d, xs[0]);
      GcdGreatest(xs[0], GcdList(xs[1..]), d);
    }
  }
}
