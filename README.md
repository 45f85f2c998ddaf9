# Coverings of Z and Z² by residue classes and lattices

This project models the core of a Sage research code about **coverings**.
A rank-1 covering is a finite list of residue classes `a mod N` (arithmetic
progressions) whose union is all of Z. A rank-2 covering is a finite list of
sublattices of Z² whose union is all of Z². The model covers four parts of
the code:

- **Residue classes** (`Progressions`, from `AP.py`). A class is a value
  `Class(N, a)` or the trivial class. The module models its constructor,
  weight `1/N`, membership, containment, `add_one`, equality and ordering.
  On lists of classes it models the modulus lcm, the total weight, the full
  cover `{a mod N}` and the tests for cover, full cover, one-minimal,
  minimal and strongly minimal.
- **Lattices** (`Lattices`, from `lattices.py`, plus `wedge` from
  `pvg.py`). A lattice is given by its index `N` and a point `(c, d)` of the
  projective line P¹(Z/NZ); its weight is `1/psi(N)`. The module models the
  same operations and tests for lattices. The P¹ enumeration of Sage is an
  abstract provider (`P1Provider`). `Valid(P)` states what the code relies
  on: every point coprime to `N` has a normal form, and the list of points
  is complete, free of repeats and has length `psi(N)`.
- **Index sequences** (`Weights`, from `weights.py`; `DedekindPsi`). The
  module models:
  - the Dedekind psi function and the inverse table `psi_inv_tab`
    (built by a loop);
  - `solve_weights`: a loop with `break`, `continue` and recursion, solving
    `sum 1/M_i = total` over values of psi;
  - the Cartesian expansion `Nlist_from_psiNlist`;
  - the validity test `is_valid_Nlist`;
  - the driver `all_index_sequences`: sorting and de-duplication.
- **Refinement of nested sequences** (`Refinement`, from
  `refine_sequences.py`). `refine_sequence` is a method over
  `datatype Tree = Leaf(n) | Node(kids)`. Its answer set is characterised
  exactly by a recursive specification, `IsRefinement`.

Points worth knowing about the code as written:
- `Lattice.__lt__` orders lattices by **ascending** rank: it computes
  `other.rank - self.rank` and answers `True` when that is positive. Only
  `lattice_sort_key` (lattices.py:210-211), which the model leaves out, puts
  higher rank first.
- The rank-1 `isFull` only rejects classes with `N == 0`, so a trivial
  class passes it, as written.
- `all_index_sequences(1)` returns `[[1]]`, although
  `is_valid_Nlist([1])` is `False` (`Weights.OneInvalid`).
- The post-pass of `refine_sequence` (refine_sequences.py:46-49) unwraps
  one-element lists one level deep. So a top-level entry of a refinement is
  a one-element list only when the input has a doubly nested singleton:
  - `Refinement.NoTopSingletons` states the exact condition;
  - `Refinement.TopSingletonSurvives` exhibits `[3, [[5]]]`, which keeps a
    top-level `[5]`.

Shared arithmetic sits in `NumberTheory`: divisibility, gcd, the extended
gcd, lcm and the gcd of a list. `Extended` holds the weights: rationals
extended by Sage's `Infinity`, and the sums `Times` used to keep weight
reasoning linear.

## Model

| member | source | states |
|---|---|---|
| Progressions.Make | AP.py:17-34 | `AP(N, a)` is a class of modulus N whose residue is congruent to a mod N and reduced into [0, N) when N > 0 |
| Progressions.MakeCanonical | AP.py:17-34 | two residues congruent mod N build the identical class, so the stored residue is canonical |
| Progressions.Weight | AP.py:51-52 | the weight is finite exactly for a genuine class (N > 0), and then it is the reciprocal of N |
| Progressions.Periodic | AP.py:54-60 | membership is invariant under shifting by any multiple of the modulus |
| Progressions.SingletonContains | AP.py:54-60 | the class of modulus 0 contains exactly its residue |
| Progressions.ContainsIsInclusion | AP.py:62-66 | the divisibility test `contains` holds iff every member of B is a member of A |
| Progressions.AddOne | AP.py:74-81 | `add_one(x)` contains x, and it contains the old class, with a modulus dividing the old one |
| Progressions.AddOneLeast | AP.py:74-81 | every class containing the old class and x contains `add_one(x)`: it is the least such class |
| Progressions.EqIsSameSet | AP.py:86-91 | `==` holds iff both are trivial or both are classes with the same members |
| Progressions.EqIsIdentity | AP.py:86-91 | on normalised classes, `==` is structural equality |
| Progressions.LtIsStrictTotalOrder | AP.py:96-106 | `<` is irreflexive, transitive, asymmetric and total on normalised classes |
| Progressions.ModulusLcm | AP.py:122-132 | the least common multiple of the moduli: a multiple of every modulus that divides every common multiple; positive for genuine classes, 0 when a modulus is 0 |
| Progressions.ListWeight | AP.py:134-144 | the total weight is finite exactly when every class is genuine |
| Progressions.WeightWithout | AP.py:134-144 | dropping class i lowers the weight by exactly that class's weight |
| Progressions.WeightReplace | AP.py:134-144 | replacing class i by B changes the weight by weight(B) minus weight(C[i]) |
| Progressions.FullCover | AP.py:152-156 | `full_cover(N)` has N normalised classes, all of modulus N |
| Progressions.FullCoverIsExactCover | AP.py:152-156 | the full cover covers Z, has weight exactly 1 and has no two equal classes |
| Progressions.FullCoverContains | AP.py:146-156 | every integer lies in the union of `full_cover(N)` |
| Progressions.CoverForcesWeight | AP.py:158-170 | a list covering [0, lcm) has weight at least 1, which justifies the weight short-cut |
| Progressions.CoverRank2Iff | AP.py:158-170 | for genuine classes, `isCover_rank2` holds iff the union is all of Z |
| Progressions.IsCoverMeans | AP.py:172-176 | `isCover` holds iff every integer lies in some genuine class of the list |
| Progressions.IsCoverWithout1Means | AP.py:178-183 | `isCover_without1(C, i)` holds iff every integer lies in a genuine class other than the i-th |
| Progressions.IsFullMeans | AP.py:185-195 | for genuine classes, `isFull` holds iff no class can be dropped with the rest still covering Z |
| Progressions.FastPathSound | AP.py:203-207 | when the weight short-cut fires, no strictly smaller class can replace C[i] and keep a cover |
| Progressions.NoPrivateRedundant | AP.py:209-215 | for genuine classes, a class with no private residues is not one-minimal: halving it still covers |
| Progressions.SmallerApReplaces | AP.py:209-219 | when the gcd of the private residues' differences is not N, the class through them is strictly smaller and still covers |
| Progressions.ReplacementDivides | AP.py:209-219 | every genuine class that can replace C[i] in a cover has a modulus dividing that gcd |
| Progressions.OneMinimalIff | AP.py:197-219 | for genuine classes and a member with no equal copy in the cover, `isOneMinimal(C, A)` holds iff no proper subclass of A can replace it and keep a cover |
| Progressions.DuplicateJudgedOneMinimal | AP.py:209-219 | in `[Z, Z]` the test passes the first copy, yet 2Z can replace it and the list still covers; the corrected test rejects it |
| Progressions.CopyRedundant | AP.py:197-201 | a member with an equal copy elsewhere can be replaced by anything and the list still covers |
| Progressions.SingletonFailsTest | AP.py:203-215 | with a singleton anywhere in the list, the lcm is 0 and `isOneMinimal` is False for every class |
| Progressions.SingletonVoidsOneMinimal | AP.py:209-215 | on `[Z, {0}]`, which covers, the test rejects Z although no proper subclass of Z can replace it; the corrected test accepts Z |
| Progressions.CoverIsGenuine | AP.py:172-176 | in a cover, every integer lies in a genuine class: singletons hold finitely many points, so `isCover` loses nothing by dropping them |
| Progressions.CoversIffGenuine | AP.py:172-176 | a list covers Z exactly when its genuine members do |
| Progressions.SingletonRedundant | AP.py:197-201 | in a cover, a singleton's point lies in another member, and the trivial AP can take the singleton's place |
| Progressions.GenuineOneMinimalIff | AP.py:197-219 | for a genuine member with no copy, in any cover, the code's test run on the genuine members holds iff no proper subclass can replace the member |
| Progressions.OneMinimalAtIff | AP.py:197-219 | in any cover, repeated classes and singletons allowed, the corrected one-minimality holds iff the i-th member cannot be shrunk (a genuine class to a proper subclass, a singleton to the trivial AP) and keep a cover |
| Progressions.MinimalAtIff | AP.py:221-230 | in any cover, repeated classes and singletons allowed, the corrected minimality holds iff no member can be shrunk |
| Progressions.MinimalIff | AP.py:221-230 | for a cover with no repeated classes, singletons allowed, `isMinimal` holds iff no member can be shrunk (a genuine class to a proper subclass, a singleton to the trivial AP) |
| Progressions.IsStronglyMinimal | AP.py:232-240 | for rank 1, strong minimality is exactly the minimality test |
| Lattices.WedgeAntisym | pvg.py:8-14 | `wedge` is antisymmetric and vanishes on equal vectors |
| Lattices.WedgeShift | pvg.py:8-14 | `wedge` is linear in its first argument |
| Lattices.Make | lattices.py:25-49 | the constructor keeps N and normalises the point to the listed P¹ point equivalent to it mod N |
| Lattices.Rank | lattices.py:86-92 | rank 2 iff N > 0, rank 0 iff trivial, never above 2 |
| Lattices.Basis | lattices.py:63-72 | the basis has `rank` vectors, starts with the point, and for rank 2 has determinant -N |
| Lattices.BasisSpans | lattices.py:63-72 | a vector is in the lattice iff it is an integer combination of the basis |
| Lattices.Weight | lattices.py:100-101 | the weight is finite iff N > 0, and then equals 1/psi(N) |
| Lattices.ContainsIsInclusion | lattices.py:103-116 | for all lattices, the zero subgroup included, `contains` holds iff every vector of K lies in L |
| Lattices.TrivialExcludesItself | lattices.py:103-116 | as written, the zero subgroup contains neither the zero pair nor itself; with the intended zero test it contains itself |
| Lattices.ContainsReflexive | lattices.py:103-116 | with the intended zero test, every lattice contains itself |
| Lattices.AddOne | lattices.py:124-131 | `add_one(w)` contains w and the old lattice, with an index dividing the old one |
| Lattices.AddOneLeast | lattices.py:124-131 | every lattice containing the old one and w contains `add_one(w)` |
| Lattices.EqIsSameSet | lattices.py:136-144 | for all lattices, the zero subgroup included, `==` holds iff the two lattices have the same vectors |
| Lattices.EqIsIdentity | lattices.py:136-144 | on normalised rank-2 lattices, `==` is structural equality |
| Lattices.LtIsStrictTotalOrder | lattices.py:149-159 | `<` is a strict total order on normalised rank-2 lattices |
| Lattices.IndexLcm | lattices.py:197-207 | the least common multiple of the indices: positive, a multiple of every index, and a divisor of every common multiple |
| Lattices.ListWeight | lattices.py:213-223 | the total weight is finite exactly when all lattices have rank 2 |
| Lattices.WeightWithout | lattices.py:213-223 | dropping lattice i lowers the weight by exactly its weight |
| Lattices.FullCover | lattices.py:231-235 | `full_cover(N)` has psi(N) lattices of index N, one through each point of P¹(Z/NZ) |
| Lattices.FullCoverIsExactCover | lattices.py:231-235 | the full cover covers Z², has weight exactly 1 and has no two equal lattices |
| Lattices.CoverRank2Means | lattices.py:237-249 | `isCover_rank2` holds iff the weight is at least 1 and the union is Z² |
| Lattices.IsCoverMeans | lattices.py:251-255 | `isCover` holds iff the rank-2 members cover Z² with weight at least 1 |
| Lattices.IsFullMeans | lattices.py:264-274 | `isFull` holds iff dropping any lattice leaves weight below 1 or an uncovered vector |
| Lattices.NoPrivateRedundant | lattices.py:288-293 | a lattice with no private points can be shrunk to a proper sublattice keeping the cover |
| Lattices.Shrink | lattices.py:288-293 | the sublattice used there is a proper sublattice |
| Lattices.SmallerReplaces | lattices.py:288-299 | when the gcd of index and private wedges is not N, the lattice through the private points is smaller and still covers |
| Lattices.ReplacementDivides | lattices.py:288-299 | every lattice that can replace L in a cover has an index dividing that gcd |
| Lattices.ReplacementDividesM | lattices.py:288-299 | every such replacement has an index dividing the lcm of the indices |
| Lattices.OneMinimalIff | lattices.py:276-299 | for a cover by rank-2 lattices, a member with no equal copy and the weight short-cut not firing, `isOneMinimal` holds iff no proper sublattice can replace L in the cover |
| Lattices.DuplicateJudgedOneMinimal | lattices.py:288-299 | in `[Z², Z²]` the test passes the first copy, yet a proper sublattice can replace it and the list still covers; the corrected test rejects it |
| Lattices.CopyRedundant | lattices.py:277-280 | a member with an equal copy elsewhere can be replaced by anything and the list still covers |
| Lattices.OneMinimalAtIff | lattices.py:276-299 | for a cover by rank-2 lattices, repeated lattices allowed and the short-cut not firing, the corrected one-minimality holds iff no proper sublattice can replace the i-th member |
| Lattices.MinimalAtIff | lattices.py:301-310 | for a cover by rank-2 lattices with no member passing the short-cut, repeated lattices allowed, the corrected minimality holds iff no member can be shrunk to a proper sublattice |
| Lattices.MinimalIff | lattices.py:301-310 | for a cover with no repeated lattices and no member passing the short-cut, `isMinimal` holds iff no lattice can be shrunk to a proper sublattice |
| Lattices.IsStronglyMinimal | lattices.py:312-322 | strong minimality is weight exactly 1 together with minimality |
| DedekindPsi.Psi | pvg.py:63-67 | psi(N) ≥ N for N ≥ 1, with strict inequality for N ≥ 2 |
| DedekindPsi.PsiPrime | pvg.py:63-67 | psi(p) = p + 1 for a prime p |
| Weights.PsiW | weights.py:11-13 | psi with psi(0) = 1; at least 1 and at least N |
| Weights.PsiNotIncreasing | weights.py:11-15 | psi(0) = 1, psi(6) = 12 and psi(7) = 8, so psi is not increasing |
| Weights.BuildPsiInvTab | weights.py:21-26 | the table has keys 0..99; each entry lists, increasing, exactly the N in [1, 100) with psi(N) = M |
| Weights.TableComplete | weights.py:17-26 | N appears under M iff psi(N) = M, since every solution of psi(N) = M lies below 100 when M < 100 |
| Weights.TableLookup | weights.py:21-26 | an entry is empty iff M is not a value of psi |
| Weights.SolveWeights | weights.py:35-80 | the answer is exactly the weakly increasing lists of n psi-values ≥ minpsi whose reciprocals sum to total |
| Weights.FirstBound | weights.py:58-61 | a solution's first value m satisfies total ≤ n/m, with equality only for the constant list |
| Weights.NoSolutionFrom | weights.py:59-61 | once total > n/m, every solution starts below m: the `break` loses nothing |
| Weights.ExactFit | weights.py:64-67 | when total = n/m, `[m]*n` is a solution and the only one starting with m |
| Weights.SingleSolution | weights.py:69-70 | a one-term solution is exactly 1/m = total, so `n == 1` with t < 0 has none |
| Weights.SplitSolution | weights.py:73-77 | a list starting with m solves (n, total) iff its tail solves (n-1, total-1/m) from m |
| Weights.SumBound | weights.py:41-43 | a sum of reciprocals of values ≥ m is at most k/m, with equality only when all are m |
| Weights.ProductMembers | weights.py:93 | the Cartesian product holds exactly the lists choosing entry i from the i-th list |
| Weights.NlistFromPsiNlistMeans | weights.py:82-96 | a list is in the expansion iff it has the same length and each entry's psi is the given value |
| Weights.NlistFromPsiNlistEmpty | weights.py:91-92 | the expansion is empty iff some value is not a psi-value |
| Weights.StrongValidNoOne | weights.py:118-123 | a strongly valid list has no coprime pair, so no entry 1 |
| Weights.ValidSupportCounts | weights.py:127-138 | in a valid list, more than p entries are divisible by each prime p in the support |
| Weights.StrongValidLength | weights.py:109-114 | a strongly valid list has weight exactly 1 and length at least 3 |
| Weights.StrongImpliesWeak | weights.py:109-158 | strong validity implies weak validity |
| Weights.TwoTwoTwoValid | weights.py:99-228 | `[2, 2, 2]` is strongly valid |
| Weights.OneInvalid | weights.py:99-228 | `[1]` is not strongly valid |
| Weights.SortSeq | weights.py:266 | `sorted` returns a sorted permutation |
| Weights.ExpandAllMembers | weights.py:259 | the concatenated expansion holds exactly the expansions of some psi-list |
| Weights.CandidatesExpanded | weights.py:256-259 | the expansion of all weight solutions holds exactly the lists of n indices whose psi values, in list order, are weakly increasing, lie in [3, 100) and have reciprocals summing to 1 |
| Weights.SortedCandidates | weights.py:256-266 | after sorting, the candidates are exactly the sorted forms of such lists |
| Weights.SearchIndexSequences | weights.py:255-271 | for n ≥ 4 the answer is exactly the valid sorted candidates of length n, without repeats |
| Weights.AllIndexSequences | weights.py:232-271 | n = 1, 2, 3 give `[[1]]`, `[]`, `[[2,2,2]]`; otherwise the answer of the search |
| Refinement.UnwrapSingletons | refine_sequences.py:46-49 | the post-pass loop replaces each one-element list by its only entry and leaves every other entry as it was |
| Refinement.AppendReplaced | refine_sequences.py:41-45 | appends one copy of S per sub-refinement, with entry i replaced by it |
| Refinement.RefineSequence | refine_sequences.py:2-51 | the answers are exactly the refinements of S, each the same length as S |
| Refinement.RefinementLength | refine_sequences.py:28-45 | every refinement has the length of S |
| Refinement.RefinementShape | refine_sequences.py:28-45 | a refinement changes one entry; every other entry is the original with a one-element list unwrapped |
| Refinement.RefineMultiple | refine_sequences.py:26-31 | for p ∣ N and div ≥ 0, replacing N by p copies of pN is a refinement |
| Refinement.RefineNonMultiple | refine_sequences.py:32-39 | for p ∤ N and div ≤ 0, replacing N by p+1 copies of pN is a refinement |
| Refinement.DivRestricts | refine_sequences.py:26-39 | div = 1 on a list with no multiples of p, or div = -1 on a list of multiples, gives no refinement |
| Refinement.RepeatAddsNothing | refine_sequences.py:16-22 | with `norepeats`, a repeated entry adds no refinement of its own |
| Refinement.RefineInsideList | refine_sequences.py:40-45 | a refinement of a nested list, put back at position i, is a refinement of S |
| Refinement.NoTopSingletons | refine_sequences.py:46-49 | for p ≥ 2 and no doubly nested singleton in S, no top-level entry of a refinement is a one-element list |
| Refinement.TopSingletonSurvives | refine_sequences.py:46-49 | `[3, [[5]]]` with p = 2 has a refinement keeping the one-element list `[5]` |

## Findings

| source | as written | input that shows it | evidently intended | confidence | as-written member | corrected member |
|---|---|---|---|---|---|---|
| AP.py:212 | private points skip every class equal to A, so a class repeated in the list is judged as if alone | `isOneMinimal([AP(1,0), AP(1,0)], AP(1,0))` is True, though replacing one copy by 2Z still covers | "A cannot be replaced by a proper subAP" (AP.py:198-201): a repeated class is never one-minimal | not executed; high | Progressions.DuplicateJudgedOneMinimal | Progressions.OneMinimalAtIff |
| lattices.py:292 | private points skip every lattice equal to L, so a lattice repeated in the list is judged as if alone | `isOneMinimal([Z², Z²], Z²)` is True, though a proper sublattice can replace one copy and the list still covers | "L cannot be replaced by a proper sublattice" (lattices.py:277-280): a repeated lattice is never one-minimal | not executed; high | Lattices.DuplicateJudgedOneMinimal | Lattices.OneMinimalAtIff |
| AP.py:210-215 | a singleton in the list makes the lcm of the moduli 0, so `srange(0)` is empty, `nS==0` and every class is judged redundant | `isOneMinimal([AP(1,0), AP(0,0)], AP(1,0))` is False, though no proper subAP of Z can replace it in that cover | "A cannot be replaced by a proper subAP" (AP.py:198-201): compute on the genuine members, as `isCover` does; a singleton is one-minimal only when no other member holds its point | not executed; high | Progressions.SingletonVoidsOneMinimal | Progressions.OneMinimalAtIff |
| lattices.py:107-108 | on the zero subgroup, `contains1` compares the pair `v` with the integer 0, which is never equal | `T.contains(T)` is False for the trivial lattice T, since `T.v()` is the pair `(0, 0)` | the zero subgroup contains exactly the zero vector, so containment is reflexive | not executed; high (`v()` returns a Python tuple, lattices.py:60-61) | Lattices.TrivialExcludesItself | Lattices.ContainsReflexive |

The model's `Lattices.Contains1` uses the intended zero test, and the
corrected one-minimality (`IsOneMinimalAt`, `IsMinimalAt`) sits beside the
as-written `IsOneMinimal` and `IsMinimal` in both modules. On covers with a
singleton, the as-written rank-1 `isMinimal` still answers correctly: it
answers False, and such a cover is never minimal, since the singleton can
be dropped (`Progressions.MinimalIff`). Only the per-class answer of
`isOneMinimal` is wrong there.

## Left out

- Sage's P¹(Z/NZ), `Gamma0`, `primitive_vector_generator` and `PointList` (`pvg.py`) are not modelled. P¹ is an abstract provider whose required properties are stated in `Lattices.Valid`.
- `encode_lattice`, `lattice_sort_key`, the `lattice()` span method and the Sage `Matrix` return type of `basis()` are not modelled.
- Every `print` and `debug` branch is left out: they are output only.
- Progressions.Contains: the trivial AP (`AP()`, N = None) as either operand makes the code crash at `self.N.divides` (AP.py:66). The model excludes it by the precondition `A.Class? && B.Class?`.
- Progressions.ModulusLcm: a trivial AP in the list makes `LCM` receive `None` (AP.py:128-132), and the code crashes. The model excludes it by the precondition `NoTrivial(C)`.
- Progressions.IsOneMinimal: crashes on a list holding a trivial AP, through `modulus_lcm` (AP.py:210). The model excludes that list by `NoTrivial(C)`.
- Progressions.IsMinimal: crashes on a list holding a trivial AP, through `isOneMinimal` (AP.py:229). The model excludes that list by `NoTrivial(C)`.
- Progressions.IsStronglyMinimal: crashes on a list holding a trivial AP, through `isOneMinimal` (AP.py:240). The model excludes that list by `NoTrivial(C)`.
- Progressions.NoPrivateRedundant: stated for genuine classes only. With a singleton present the lcm is 0, no residue is examined, and the conclusion fails: in `[Z, {0}]` halving Z loses the cover (Findings row AP.py:210-215).
- Progressions.OneMinimalIff: stated for genuine classes only, because with a singleton present the as-written test is False for every class (`Progressions.SingletonFailsTest`) even when the class cannot be shrunk. The corrected test and its iff for every cover are `IsOneMinimalAt` and `Progressions.OneMinimalAtIff`.
- Lattices.Basis: `basis()` asserts that the point is primitive. The model makes this a precondition. The second basis vector is built from the model's own extended gcd (`NumberTheory.Xgcd`), which need not be the coefficient pair Sage's `xgcd` returns. So `basis()` may return a different second vector than lattices.py:69-71, one spanning the same lattice (`Lattices.BasisSpans`).
- Lattices.OneMinimalIff: the weight short-cut (`2*(w-1)` against the lattice weight) is not proved sound for lattices. The lemma requires the short-cut not to fire; its rank-1 analogue is `Progressions.FastPathSound`. It also requires every lattice to have rank 2. For a member of lower rank, `index()` returns Infinity (lattices.py:84), and `index_lcm` takes the `LCM` of the indices (lattices.py:201-207, called at lattices.py:289). Sage cannot compute an lcm involving Infinity, so the code has no answer there. The model's `Lattices.IndexLcm` is defined for rank-2 lists only.
- Lattices.OneMinimalAtIff: requires the weight short-cut not to fire on the i-th member, and every lattice to have rank 2, for the same reasons as `Lattices.OneMinimalIff`.
- Lattices.MinimalAtIff: requires that no member passes the weight short-cut, and that every lattice has rank 2, for the same reasons.
- Lattices.MinimalIff: inherits the same restriction, and requires all lattices to have rank 2.
- Lattices.CoverRank2Means: the bound "a cover of Z² has weight at least 1" is not proved for lattices. That bound needs a count of the P¹ points lying on each lattice, which the abstract provider does not give. So `isCover_rank2` is shown to accept exactly the covers of weight at least 1, not every cover. The rank-1 bound is proved (`Progressions.CoverForcesWeight`).
- Lattices.IsCoverMeans: inherits the same unproved weight bound.
- Lattices.IsFullMeans: inherits the same unproved weight bound.
- Weights.SolveWeights: the `strong` flag is dropped, because every caller passes `True`. The table is a parameter satisfying `TableOk` rather than a module-level global. Exact rationals are modelled as `real`.
- Weights.PsiW: `psi(0) = 1` is kept as in `weights.py`. The `pvg.py` psi returns 0 there; the model does not use that value.
- Weights.AllIndexSequences: the validity test `is_valid_Nlist` is modelled for entries ≥ 1 only; an entry 0 makes `lcm(...).support()` fail in the code. The prime loop is bounded by the largest entry, which contains the support of the lcm.
- Refinement.RefineSequence: its contract characterises the set of answers and their length, not their order or multiplicity.
- Refinement.RefineSequence: `deepcopy` and the in-place post-pass are modelled by value semantics.
- Refinement.RefineSequence: `p` is any natural number, since the code never uses primality.
- `all_sequences.py` is not part of this model.
