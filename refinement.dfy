/** Refinement of nested index sequences by a prime p: one entry N of the
    sequence, at any depth, is replaced by the list of p copies of p*N when
    p divides N, or of p+1 copies of p*N when it does not. */
module Refinement {
  import opened NumberTheory

  /** An entry of a nested index sequence: an index or a list of entries. */
  datatype Tree = Leaf(n: int) | Node(kids: seq<Tree>)

  /** A one-element list stands for its element; everything else for
      itself. */
  function Unwrap(t: Tree): Tree {
    if t.Node? && |t.kids| == 1 then t.kids[0] else t
  }

  /** The list of k copies of the index v. */
  function Copies(v: int, k: nat): (r: seq<Tree>)
    ensures |r| == k && forall i :: 0 <= i < k ==> r[i] == Leaf(v)
  {
    seq(k, _ => Leaf(v))
  }

  /** Every top-level entry unwrapped once. */
  function Flatten(a: seq<Tree>): (r: seq<Tree>)
    ensures |r| == |a| && forall i :: 0 <= i < |a| ==> r[i] == Unwrap(a[i])
  {
    seq(|a|, i requires 0 <= i < |a| => Unwrap(a[i]))
  }

  /** No earlier entry is the same once unwrapped. */
  predicate FirstOccurrence(S: seq<Tree>, i: nat)
    requires i < |S|
  {
    forall j :: 0 <= j < i ==> Unwrap(S[j]) != Unwrap(S[i])
  }

  // ---------------------------------------------------------------------
  // What a refinement is

  /** T is a p-refinement of S: S with one entry refined in place, every
      top-level entry then unwrapped once. */
  ghost predicate IsRefinement(S: seq<Tree>, T: seq<Tree>, p: nat, div: int, norepeats: bool)
    decreases Node(S), 2
  {
    exists j, R :: RawFrom(S, j, R, p, div, norepeats) && T == Flatten(R)
  }

  /** R is S with its entry j, taken once unwrapped, refined; with
      norepeats, only the first of equal entries is refined. */
  ghost predicate RawFrom(S: seq<Tree>, j: int, R: seq<Tree>, p: nat, div: int, norepeats: bool)
    decreases Node(S), 1
  {
    0 <= j < |S| && (!norepeats || FirstOccurrence(S, j))
    && |R| == |S| && R == S[j := R[j]] && Step(Unwrap(S[j]), R[j], p, div, norepeats)
  }

  /** X refines the entry e: an index N becomes p copies of p*N when p
      divides N (allowed unless div < 0) and p+1 copies otherwise (allowed
      unless div > 0); a list becomes one of its own refinements. */
  ghost predicate Step(e: Tree, X: Tree, p: nat, div: int, norepeats: bool)
    decreases e, 3
  {
    match e
    case Leaf(N) =>
      if Divides(p, N) then div >= 0 && X == Node(Copies(p * N, p))
      else div <= 0 && X == Node(Copies(p * N, p + 1))
    case Node(ks) => X.Node? && IsRefinement(ks, X.kids, p, div, norepeats)
  }

  /** raw holds exactly the raw refinements at the first i entries. */
  ghost predicate RawBelow(S: seq<Tree>, raw: seq<seq<Tree>>, i: nat, p: nat, div: int, norepeats: bool) {
    forall R :: R in raw <==> exists j :: 0 <= j < i && RawFrom(S, j, R, p, div, norepeats)
  }

  // ---------------------------------------------------------------------
  // Steps of the refinement loop

  /** A repeated entry contributes nothing. */
  lemma RepeatStep(S: seq<Tree>, raw: seq<seq<Tree>>, i: nat, p: nat, div: int, norepeats: bool, done: seq<Tree>)
    requires i < |S| && RawBelow(S, raw, i, p, div, norepeats)
    requires forall x :: x in done <==> exists j :: 0 <= j < i && Unwrap(S[j]) == x
    requires norepeats && Unwrap(S[i]) in done
    ensures RawBelow(S, raw, i + 1, p, div, norepeats)
  {
    var j :| 0 <= j < i && Unwrap(S[j]) == Unwrap(S[i]);
    assert !FirstOccurrence(S, i);
  }

  lemma LeafStep(S: seq<Tree>, raw: seq<seq<Tree>>, i: nat, p: nat, div: int, norepeats: bool, N: int)
    requires i < |S| && RawBelow(S, raw, i, p, div, norepeats)
    requires Unwrap(S[i]) == Leaf(N) && (!norepeats || FirstOccurrence(S, i))
    ensures Divides(p, N) && div >= 0 ==>
      RawBelow(S, raw + [S[i := Node(Copies(p * N, p))]], i + 1, p, div, norepeats)
    ensures Divides(p, N) && div < 0 ==> RawBelow(S, raw, i + 1, p, div, norepeats)
    ensures !Divides(p, N) && div <= 0 ==>
      RawBelow(S, raw + [S[i := Node(Copies(p * N, p + 1))]], i + 1, p, div, norepeats)
    ensures !Divides(p, N) && div > 0 ==> RawBelow(S, raw, i + 1, p, div, norepeats)
  {
    var X := if Divides(p, N) then Node(Copies(p * N, p)) else Node(Copies(p * N, p + 1));
    var R := S[i := X];
    if Step(Leaf(N), X, p, div, norepeats) {
      assert RawFrom(S, i, R, p, div, norepeats);
    }
    forall R' | RawFrom(S, i, R', p, div, norepeats) ensures R' == R {
      assert Step(Leaf(N), R'[i], p, div, norepeats);
    }
  }

  /** The lists S with entry i replaced by each of subs, in order. */
  function Replaced(S: seq<Tree>, i: nat, subs: seq<seq<Tree>>): (r: seq<seq<Tree>>)
    requires i < |S|
    ensures |r| == |subs| && forall k :: 0 <= k < |subs| ==> r[k] == S[i := Node(subs[k])]
  {
    seq(|subs|, k requires 0 <= k < |subs| => S[i := Node(subs[k])])
  }

  lemma NodeStep(S: seq<Tree>, raw: seq<seq<Tree>>, i: nat, p: nat, div: int, norepeats: bool,
                 ks: seq<Tree>, subs: seq<seq<Tree>>)
    requires i < |S| && RawBelow(S, raw, i, p, div, norepeats)
    requires Unwrap(S[i]) == Node(ks) && (!norepeats || FirstOccurrence(S, i))
    requires forall T :: T in subs <==> IsRefinement(ks, T, p, div, norepeats)
    ensures RawBelow(S, raw + Replaced(S, i, subs), i + 1, p, div, norepeats)
  {
    var rs := Replaced(S, i, subs);
    forall R: seq<Tree> ensures R in rs <==> RawFrom(S, i, R, p, div, norepeats) {
      if R in rs {
        var k :| 0 <= k < |rs| && rs[k] == R;
        assert subs[k] in subs;
        assert R[i] == Node(subs[k]);
        assert Step(Node(ks), R[i], p, div, norepeats);
      }
      if RawFrom(S, i, R, p, div, norepeats) {
        assert Step(Node(ks), R[i], p, div, norepeats);
        assert R[i].kids in subs;
        var k :| 0 <= k < |subs| && subs[k] == R[i].kids;
        assert rs[k] == R;
      }
    }
  }

  /** The answers are the raw refinements, each flattened. */
  lemma FlattenedAll(S: seq<Tree>, raw: seq<seq<Tree>>, ans: seq<seq<Tree>>, p: nat, div: int, norepeats: bool)
    requires RawBelow(S, raw, |S|, p, div, norepeats)
    requires |ans| == |raw| && forall k :: 0 <= k < |raw| ==> ans[k] == Flatten(raw[k])
    ensures forall T :: T in ans <==> IsRefinement(S, T, p, div, norepeats)
  {
    forall T: seq<Tree> ensures T in ans <==> IsRefinement(S, T, p, div, norepeats) {
      if T in ans {
        var k :| 0 <= k < |ans| && ans[k] == T;
        assert raw[k] in raw;
        var j :| 0 <= j < |S| && RawFrom(S, j, raw[k], p, div, norepeats);
      }
      if IsRefinement(S, T, p, div, norepeats) {
        var j, R := RawOf(S, T, p, div, norepeats);
        assert R in raw;
        var k :| 0 <= k < |raw| && raw[k] == R;
        assert ans[k] == T;
      }
    }
  }

  /** The entry refined to obtain T, and T before flattening. */
  lemma RawOf(S: seq<Tree>, T: seq<Tree>, p: nat, div: int, norepeats: bool) returns (j: int, R: seq<Tree>)
    requires IsRefinement(S, T, p, div, norepeats)
    ensures RawFrom(S, j, R, p, div, norepeats) && T == Flatten(R)
  {
    j, R :| RawFrom(S, j, R, p, div, norepeats) && T == Flatten(R);
  }

  /** A refinement has as many top-level entries as the sequence. */
  lemma RefinementLength(S: seq<Tree>, T: seq<Tree>, p: nat, div: int, norepeats: bool)
    requires IsRefinement(S, T, p, div, norepeats)
    ensures |T| == |S|
  {
    var j, R := RawOf(S, T, p, div, norepeats);
  }

  /** Appends, for each sub in turn, a copy of S with entry i replaced by
      the list sub. */
  method AppendReplaced(raw: seq<seq<Tree>>, S: seq<Tree>, i: nat, subs: seq<seq<Tree>>) returns (r: seq<seq<Tree>>)
    requires i < |S|
    ensures r == raw + Replaced(S, i, subs)
  {
    r := raw;
    var k := 0;
    while k < |subs|
      invariant 0 <= k <= |subs|
      invariant r == raw + Replaced(S, i, subs[..k])
    {
      assert Replaced(S, i, subs[..k + 1]) == Replaced(S, i, subs[..k]) + [S[i := Node(subs[k])]];
      r := r + [S[i := Node(subs[k])]];
      k := k + 1;
    }
    assert subs[..k] == subs;
  }

  /** Replaces each top-level one-element list of a by its element. */
  method UnwrapSingletons(a: seq<Tree>) returns (b: seq<Tree>)
    ensures b == Flatten(a)
  {
    b := a;
    var j := 0;
    while j < |b|
      invariant 0 <= j <= |b| && |b| == |a|
      invariant forall m :: 0 <= m < j ==> b[m] == Unwrap(a[m])
      invariant forall m :: j <= m < |b| ==> b[m] == a[m]
    {
      if b[j].Node? && |b[j].kids| == 1 {
        b := b[j := b[j].kids[0]];
      }
      j := j + 1;
    }
  }

  // ---------------------------------------------------------------------
  // The refinement

  /** All p-refinements of S, found by refining each entry in turn (each
      distinct entry once when norepeats) and, for a list entry, each of
      its own refinements; one-element lists at the top level of an
      answer are then unwrapped once. */
  method RefineSequence(S: seq<Tree>, p: nat, div: int, norepeats: bool) returns (ans: seq<seq<Tree>>)
    ensures forall T :: T in ans <==> IsRefinement(S, T, p, div, norepeats)
    ensures forall T :: T in ans ==> |T| == |S|
    decreases Node(S)
  {
    var raw: seq<seq<Tree>> := [];
    var done: seq<Tree> := [];
    var i := 0;
    while i < |S|
      invariant 0 <= i <= |S|
      invariant forall x :: x in done <==> exists j :: 0 <= j < i && Unwrap(S[j]) == x
      invariant RawBelow(S, raw, i, p, div, norepeats)
    {
      var Si := S[i];
      if Si.Node? && |Si.kids| == 1 {
        Si := Si.kids[0];
      }
      if norepeats && Si in done {
        RepeatStep(S, raw, i, p, div, norepeats, done);
        i := i + 1;
        continue;
      }
      done := done + [Si];
      match Si {
      case Leaf(N) =>
        LeafStep(S, raw, i, p, div, norepeats, N);
        if Divides(p, N) {
          if div >= 0 {
            raw := raw + [S[i := Node(Copies(p * N, p))]];
          }
        } else {
          if div <= 0 {
            raw := raw + [S[i := Node(Copies(p * N, p + 1))]];
          }
        }
      case Node(ks) =>
        var subs := RefineSequence(ks, p, div, norepeats);
        NodeStep(S, raw, i, p, div, norepeats, ks, subs);
        raw := AppendReplaced(raw, S, i, subs);
      }
      i := i + 1;
    }
    ans := raw;
    var k := 0;
    while k < |ans|
      invariant 0 <= k <= |ans| && |ans| == |raw|
      invariant forall m :: 0 <= m < k ==> ans[m] == Flatten(raw[m])
      invariant forall m :: k <= m < |raw| ==> ans[m] == raw[m]
    {
      var a := UnwrapSingletons(ans[k]);
      ans := ans[k := a];
      k := k + 1;
    }
    FlattenedAll(S, raw, ans, p, div, norepeats);
    forall T | T in ans ensures |T| == |S| {
      RefinementLength(S, T, p, div, norepeats);
    }
  }

  // ---------------------------------------------------------------------
  // Properties of refinements

  /** An index N divisible by p, when div >= 0, yields the answer with
      that entry replaced by p copies of p*N, all other entries kept. */
  lemma RefineMultiple(S: seq<Tree>, i: nat, N: int, p: nat, div: int, norepeats: bool)
    requires i < |S| && Unwrap(S[i]) == Leaf(N) && (!norepeats || FirstOccurrence(S, i))
    requires p >= 2 && Divides(p, N) && div >= 0
    ensures IsRefinement(S, Flatten(S[i := Node(Copies(p * N, p))]), p, div, norepeats)
    ensures Flatten(S[i := Node(Copies(p * N, p))])[i] == Node(Copies(p * N, p))
  {
    var R := S[i := Node(Copies(p * N, p))];
    assert Step(Leaf(N), R[i], p, div, norepeats);
    assert RawFrom(S, i, R, p, div, norepeats);
  }

  /** An index N not divisible by p, when div <= 0, yields the answer with
      that entry replaced by p+1 copies of p*N, all other entries kept. */
  lemma RefineNonMultiple(S: seq<Tree>, i: nat, N: int, p: nat, div: int, norepeats: bool)
    requires i < |S| && Unwrap(S[i]) == Leaf(N) && (!norepeats || FirstOccurrence(S, i))
    requires p >= 1 && !Divides(p, N) && div <= 0
    ensures IsRefinement(S, Flatten(S[i := Node(Copies(p * N, p + 1))]), p, div, norepeats)
    ensures Flatten(S[i := Node(Copies(p * N, p + 1))])[i] == Node(Copies(p * N, p + 1))
  {
    var R := S[i := Node(Copies(p * N, p + 1))];
    assert Step(Leaf(N), R[i], p, div, norepeats);
    assert RawFrom(S, i, R, p, div, norepeats);
  }

  /** With div = 1 a sequence of indices none of which p divides has no
      refinement, and with div = -1 one of multiples of p has none. */
  lemma DivRestricts(S: seq<Tree>, T: seq<Tree>, p: nat, div: int, norepeats: bool)
    requires forall m :: 0 <= m < |S| ==> Unwrap(S[m]).Leaf?
    requires div > 0 ==> forall m :: 0 <= m < |S| ==> !Divides(p, Unwrap(S[m]).n)
    requires div < 0 ==> forall m :: 0 <= m < |S| ==> Divides(p, Unwrap(S[m]).n)
    requires div != 0
    ensures !IsRefinement(S, T, p, div, norepeats)
  {
    if IsRefinement(S, T, p, div, norepeats) {
      var j, R := RawOf(S, T, p, div, norepeats);
    }
  }

  /** With norepeats, an entry equal (once unwrapped) to an earlier one
      adds nothing: the refinements of S + [e] are those of S with the
      unwrapped e appended. */
  lemma RepeatAddsNothing(S: seq<Tree>, e: Tree, j: nat, T: seq<Tree>, p: nat, div: int)
    requires j < |S| && Unwrap(S[j]) == Unwrap(e)
    ensures IsRefinement(S + [e], T, p, div, true) <==>
      |T| == |S| + 1 && T[|S|] == Unwrap(e) && IsRefinement(S, T[..|S|], p, div, true)
  {
    var S' := S + [e];
    if IsRefinement(S', T, p, div, true) {
      var k, R := RawOf(S', T, p, div, true);
      assert S'[j] == S[j];
      assert k < |S|;
      var R' := R[..|S|];
      assert R'[k] == R[k] && S'[k] == S[k];
      assert FirstOccurrence(S, k) by {
        forall m | 0 <= m < k ensures Unwrap(S[m]) != Unwrap(S[k]) {
          assert S'[m] == S[m];
        }
      }
      assert R' == S[k := R'[k]];
      assert RawFrom(S, k, R', p, div, true);
      assert T[..|S|] == Flatten(R');
      assert R[|S|] == e;
    }
    if |T| == |S| + 1 && T[|S|] == Unwrap(e) && IsRefinement(S, T[..|S|], p, div, true) {
      var k, R' := RawOf(S, T[..|S|], p, div, true);
      var R := R' + [e];
      assert S'[k] == S[k] && R[k] == R'[k];
      assert FirstOccurrence(S', k) by {
        forall m | 0 <= m < k ensures Unwrap(S'[m]) != Unwrap(S'[k]) {
          assert S'[m] == S[m];
        }
      }
      assert R == S'[k := R[k]];
      assert RawFrom(S', k, R, p, div, true);
      assert T == Flatten(R);
    }
  }

  /** Each refinement of a list entry gives an answer holding that
      refinement at the entry's position. */
  lemma RefineInsideList(S: seq<Tree>, i: nat, ks: seq<Tree>, sub: seq<Tree>, p: nat, div: int, norepeats: bool)
    requires i < |S| && Unwrap(S[i]) == Node(ks) && (!norepeats || FirstOccurrence(S, i))
    requires IsRefinement(ks, sub, p, div, norepeats)
    ensures IsRefinement(S, Flatten(S[i := Node(sub)]), p, div, norepeats)
    ensures |ks| != 1 ==> Flatten(S[i := Node(sub)])[i] == Node(sub)
  {
    var R := S[i := Node(sub)];
    RefinementLength(ks, sub, p, div, norepeats);
    assert Step(Node(ks), R[i], p, div, norepeats);
    assert RawFrom(S, i, R, p, div, norepeats);
  }

  /** Every answer is S, unwrapped, except at the one refined entry. */
  lemma RefinementShape(S: seq<Tree>, T: seq<Tree>, p: nat, div: int, norepeats: bool) returns (j: nat)
    requires IsRefinement(S, T, p, div, norepeats)
    ensures j < |S| && |T| == |S|
    ensures forall m :: 0 <= m < |S| && m != j ==> T[m] == Unwrap(S[m])
  {
    var k, R := RawOf(S, T, p, div, norepeats);
    j := k;
  }

  /** A list whose only element is a one-element list. */
  predicate DoublySingleton(t: Tree) {
    t.Node? && |t.kids| == 1 && t.kids[0].Node? && |t.kids[0].kids| == 1
  }

  /** The final unwrapping removes every one-element list from the top
      level of an answer, provided p >= 2 and no entry of S is a
      one-element list of a one-element list. */
  lemma NoTopSingletons(S: seq<Tree>, T: seq<Tree>, p: nat, div: int, norepeats: bool, m: nat)
    requires IsRefinement(S, T, p, div, norepeats) && p >= 2
    requires forall k :: 0 <= k < |S| ==> !DoublySingleton(S[k])
    requires m < |T|
    ensures !(T[m].Node? && |T[m].kids| == 1)
  {
    var j, R := RawOf(S, T, p, div, norepeats);
    if m != j {
      assert R[m] == S[m] && !DoublySingleton(S[m]);
    } else {
      var e := Unwrap(S[j]);
      assert Step(e, R[j], p, div, norepeats);
      if e.Node? {
        assert |e.kids| != 1 by { assert !DoublySingleton(S[j]); }
        RefinementLength(e.kids, R[j].kids, p, div, norepeats);
      }
    }
  }

  /** Without that proviso a one-element list can survive: in [3, [[5]]]
      refined by 2, the answer refining 3 keeps [5] at the top level. */
  lemma TopSingletonSurvives()
    ensures IsRefinement([Leaf(3), Node([Node([Leaf(5)])])],
                         [Node(Copies(6, 3)), Node([Leaf(5)])], 2, 0, true)
  {
    var S := [Leaf(3), Node([Node([Leaf(5)])])];
    var R := S[0 := Node(Copies(6, 3))];
    assert Step(Leaf(3), R[0], 2, 0, true);
    assert RawFrom(S, 0, R, 2, 0, true);
    assert Flatten(R) == [Node(Copies(6, 3)), Node([Leaf(5)])];
  }
}
