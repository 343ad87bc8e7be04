# Flat-elimination cap search in F_q^n

This project models the search engine of `flat-elim-search.py`. The engine
looks for large d-caps in the affine space F_q^n. A d-cap is a set of points
with no d + 2 of them on a common d-flat. The search keeps a *validity list*
with one entry per point of F_q^n. An entry is true while the point can still
join the cap. Each time a point joins, every point on a flat through that point
and d other cap points is marked invalid.

The model has five modules, one per layer of the engine:

- `AffineSpace` (`affine_space.dfy`) stands in for the helpers imported from
  `affine_space_core`. That module is not part of this model. It provides:
  - points as coordinate sequences;
  - `add_affine` as a sum mod q, in scalar and vector form;
  - `vector_to_index` and `index_to_vector` as the base-q bijection between
    F_q^n and [0, q^n), least significant digit first;
  - the origin and the standard basis (`generate_basis`).
- `Combinatorics` (`combinatorics.dfy`) holds `itertools.permutations` and
  `itertools.combinations` as lists in itertools order. It proves what
  membership in each list means.
- `Coefficients` (`coefficients.dfy`) holds `generate_coeffs`.
- `Validset` (`validset.dfy`) holds `mark_visible`, `update_validset` and
  `complete_update_validset`:
  - the shared integer array is a Dafny `array<bool>` (1 is true, 0 is false)
    that `mark_visible` writes in place;
  - each update copies the input list into a fresh array, runs `mark_visible`
    once per point group, and returns a fresh list;
  - the source starts one process per group, but every write is a 0, so the
    groups are visited one after another.
- `Search` (`search.dfy`) holds `find_maximum_cap` and the search part of
  `save_caps`:
  - the current cap is the class `Cap`, a list that the search appends to,
    copies and pops in place;
  - `find_maximum_cap` is a recursive method with the source's cursor loop
    and its best-cap bookkeeping;
  - `save_caps` keeps its `d == n` shortcut and its starting cap: the origin
    followed by the n basis vectors.

Three behaviours of the code worth knowing; the model follows the code:

- The docstrings describe finding the maximum cap and saving every cap
  found (`flat-elim-search.py:94`, `flat-elim-search.py:127`). The returned
  list is not every cap of maximum size.
  - A recursive call's list is discarded at `flat-elim-search.py:116`.
  - So the list holds at most one cap per top-level branch.
  - `FindMaximumCap` states this outright: the first indices of the listed
    caps strictly ascend (`TiedCaps`).
  - Among several longest caps, the best is the first one the depth-first
    loop meets: its index list is the lexicographically least (`Least`).
- `save_caps` takes its shortcut only when `d == n`
  (`flat-elim-search.py:141`). For d > n it would search, but the command
  line clamps d to n before calling (`flat-elim-search.py:194-195`).
- When fewer than d + 1 points are passed to `mark_visible`, `zip` truncates
  every coefficient tuple (`flat-elim-search.py:88`).
  - The model keeps this behaviour.
  - `TruncationMarksOrigin` shows its effect: the unit tuple whose 1 is in
    the dropped last position weights every point by 0, so `mark_visible`
    writes 0 at index 0, the origin.

## Model

| member | source | states |
|---|---|---|
| AffineSpace.AddAffine | flat-elim-search.py:28 | the scalar affine sum of a coefficient tuple is a residue in [0, q) |
| AffineSpace.VectorToIndex | flat-elim-search.py:90 | the index of a point of F_q^n lies in [0, q^n), so the write in mark_visible stays inside the validity list |
| AffineSpace.IndexToVector | flat-elim-search.py:102 | the point for an index has n coordinates, each a residue mod q |
| AffineSpace.IndexRoundTrip | flat-elim-search.py:100-102 | every index in [0, q^n) that the search decodes to a point encodes back to itself |
| AffineSpace.VectorRoundTrip | flat-elim-search.py:90 | every point with residue coordinates decodes back from its index |
| AffineSpace.IndexToVectorInjective | flat-elim-search.py:100-102 | distinct indices below q^n give distinct points |
| AffineSpace.ZipScale | flat-elim-search.py:88 | zip stops at the shorter of the coefficient tuple and the point list, and each product keeps its point's dimension |
| AffineSpace.AddAffineVec | flat-elim-search.py:89 | the vector affine sum of n-dimensional terms is a point of F_q^n: n coordinates, each a residue mod q |
| AffineSpace.ZeroIndex | flat-elim-search.py:152 | the origin of the starting cap has index 0, which is why the search starts at index 1 |
| Combinatorics.PermutationsMember | flat-elim-search.py:27 | a tuple is produced by permutations(l, r) exactly when it has length r and uses no value more often than l holds it |
| Combinatorics.CombinationsMember | flat-elim-search.py:68 | a tuple is produced by combinations(s, k) exactly when it has length k and is a subsequence of s |
| Combinatorics.CombinationsCount | flat-elim-search.py:49 | combinations(s, k) yields C(\|s\|, k) tuples |
| Coefficients.PoolCount | flat-elim-search.py:22-24 | the pool l holds every value 0..q-1 exactly d + 1 times and nothing else |
| Coefficients.GenerateCoeffs | flat-elim-search.py:21-31 | every kept tuple has d + 1 entries in [0, q) and affine sum 1 mod q |
| Coefficients.PoolPermutationsSound | flat-elim-search.py:22-28 | a (d + 1)-permutation of the pool with affine sum 1 is a tuple of residues mod q: the pool holds nothing outside 0..q-1 |
| Coefficients.CoeffsComplete | flat-elim-search.py:22-29 | every (d + 1)-tuple of residues mod q summing to 1 mod q is kept: the d + 1 copies of each value allow any repetition |
| Coefficients.CoeffsCharacterised | flat-elim-search.py:21-31 | a tuple is in generate_coeffs(d, q, n) exactly when it has length d + 1, entries in [0, q) and affine sum 1 mod q; n plays no part |
| Coefficients.UnitIsCoeff | flat-elim-search.py:23-29 | for q >= 2 every unit tuple (one 1, the rest 0) of length d + 1 is a coefficient |
| Validset.Target | flat-elim-search.py:88-90 | the index one coefficient tuple reaches from the given points lies in [0, q^n) |
| Validset.MarkVisible | flat-elim-search.py:86-91 | afterwards an entry is true exactly when it was true and no coefficient tuple reaches its index from the points; nothing else changes |
| Validset.UnitTarget | flat-elim-search.py:88-90 | the unit tuple with its 1 at position k reaches exactly the k-th point |
| Validset.MarkVisibleHitsPoints | flat-elim-search.py:86-91 | with q >= 2, mark_visible marks invalid each of its first d + 1 points |
| Validset.TruncationMarksOrigin | flat-elim-search.py:88 | with q >= 2 and fewer than d + 1 points, the truncated tuples mark the origin (index 0) invalid |
| Validset.UpdateValidset | flat-elim-search.py:45-60 | returns a fresh list of the same length whose entry j is true exactly when it was true and j is not reached from any group of d earlier cap points plus the newest point |
| Validset.IncrementalGroupsShape | flat-elim-search.py:49-51 | the groups update_validset visits are exactly the d-subsequences of cap[:-1] followed by cap[-1] |
| Validset.IncrementalGroupsCount | flat-elim-search.py:49-51 | update_validset visits C(\|cap\| - 1, d) groups, one per d-subset of the earlier points |
| Validset.NewestPointEliminated | flat-elim-search.py:45-51 | with q >= 2 and at least d + 1 cap points, the incremental update marks the newest cap point invalid |
| Validset.MarkEach | flat-elim-search.py:68-69 | running mark_visible over a list of groups clears exactly the indices those groups reach |
| Validset.CompleteUpdateValidset | flat-elim-search.py:64-77 | returns a fresh list of the same length whose entry j is true exactly when it was true and j is not reached from any 2..d+1 cap points, in combinations order |
| Validset.CompleteGroupsShape | flat-elim-search.py:67-68 | the groups complete_update_validset visits are exactly the subsequences of the cap of length 2..d+1 |
| Validset.CompleteUpdateCoversCap | flat-elim-search.py:64-69 | with q >= 2, d >= 1 and at least two cap points, the full recomputation marks every cap point invalid |
| Search.Cap.constructor | flat-elim-search.py:152 | a new list holding the given points |
| Search.Cap.Append | flat-elim-search.py:111 | the point is added at the end of the cap |
| Search.Cap.Pop | flat-elim-search.py:117 | the last point is removed and returned, the rest is unchanged |
| Search.Cap.Copy | flat-elim-search.py:116 | a fresh list with the same points |
| Search.AscendingPair | flat-elim-search.py:100 | indices chosen in the order of the cursor loop, each above the one before, ascend pairwise |
| Search.Reach | flat-elim-search.py:99-122 | the length the search reaches from a cap is never less than the cap's own length (the best cap starts as the current cap) |
| Search.Branch | flat-elim-search.py:110-116 | a branch at a valid index reaches a cap strictly longer than the one it started from |
| Search.ExtendValidset | flat-elim-search.py:112-115 | the validity update after an append: the incremental update once the cap holds more than d points, else the full recomputation with the cap length as its d; it is the list `Updated` that the search paths follow, and no entry becomes valid |
| Search.FindMaximumCap | flat-elim-search.py:95-125 | the cap is restored on return; the best cap is the entry cap grown along a search path: ascending indices from the cursor on, each valid in the list as updated after the appends before it; its length is `Reach`, the longest such growth, so a strictly longer branch replaces the best; it is longer exactly when some index from the cursor on is valid, otherwise it is the entry cap and the list is the accumulator (or the entry cap alone at top level when the accumulator is empty); when longer, the list starts with the best, every listed cap is as long as the best and grown along a search path, their first indices strictly ascend, and every valid index whose branch ties with the best is the first index of a listed cap; the best cap's index list is lexicographically least among all longest search paths, and each listed cap's index list is least among the longest paths with its first index: the first longest cap the depth-first loop meets wins |
| Search.ValidBetweenExists | flat-elim-search.py:100-110 | the loop invariant's recursive test over lo..hi-1 holds exactly when some index in lo..hi-1 is valid |
| Search.TryIndex | flat-elim-search.py:100-122 | one pass of the loop restores the cap and carries the loop invariant from index i to i + 1: the best so far and its path, the running maximum of the reach, every branch so far at most the best, and the list holding exactly one cap per tying branch so far |
| Search.Record | flat-elim-search.py:118-122 | a strictly longer result becomes the best and restarts the list with itself alone; an equally long one joins the list; a shorter one changes nothing; the loop invariant then covers index i |
| Search.ScanStart | flat-elim-search.py:99-100 | before the loop the best cap is the entry cap and the list is the accumulator |
| Search.ScanDone | flat-elim-search.py:100-125 | after the loop the best cap has the length of the longest reach, is longer exactly when some index was valid, its index list is lexicographically least among the longest search paths, and the list ties with it |
| Search.LeastFound | flat-elim-search.py:100-122 | the first tie's index list, least among the longest paths through its first index, is least among all the longest paths: every longest path starts at a tying index, and none ties before the first |
| Search.PathBranch | flat-elim-search.py:100-116 | a non-empty search path starts at a valid index whose branch reaches at least the length of the cap the path grows |
| Search.SkipStep | flat-elim-search.py:110 | an index that is not valid leaves the best cap and the list unchanged |
| Search.SearchBranch | flat-elim-search.py:110-117 | one branch over a valid index i restores the cap and returns a cap grown from i along a search path whose deeper indices are valid in the updated list; its length is `Branch`, the longest such growth, and `maximal` is the recursive call's best: its index list is lexicographically least among the longest paths that start with i |
| Search.BranchLeast | flat-elim-search.py:116 | the recursive call's least longest path, behind i, is least among the paths of that length from the entry cap that start with i |
| Search.BranchStep | flat-elim-search.py:111-116 | what the recursive call returns from the extended cap through the updated list is a path and a length for the branch at i from the entry cap |
| Search.GrowStep | flat-elim-search.py:116 | a cap the recursive call grew through indices valid in the updated list is grown from the entry cap through indices valid in the caller's list |
| Search.PathStep | flat-elim-search.py:110-116 | index i followed by the recursive call's path through the updated list is a search path from the entry cap |
| Search.PathTail | flat-elim-search.py:110-116 | a non-empty search path starts at a valid index from the cursor on, and the rest is a search path from the extended cap through the updated list |
| Search.PathValid | flat-elim-search.py:100-116 | every index on a search path is at least the cursor and valid in the list the path starts from |
| Search.PrunedFromRest | flat-elim-search.py:111-116 | a path whose rest escapes the updates after its own earlier appends, and is valid in the list updated for the first append, escapes them as a whole |
| Search.PathPruned | flat-elim-search.py:111-116 | no index on a search path is cleared by the update after appending the points of any earlier part of that path |
| Search.ReachStep | flat-elim-search.py:100-122 | the reach from index i is the larger of the reach from i + 1 and, if i is valid, the branch at i |
| Search.ReachMonotone | flat-elim-search.py:100 | starting the loop later never reaches further |
| Search.BranchCoversPath | flat-elim-search.py:100-122 | a path that stays within the branch at a valid index i stays within the reach from the cursor |
| Search.ReachCoversBranch | flat-elim-search.py:100-122 | the reach from the cursor is at least the branch at any valid index from the cursor on |
| Search.ReachBound | flat-elim-search.py:95-125 | no search path grows the cap beyond `Reach`, so the best cap is at least as long as any cap reachable by valid choices |
| Search.TieStep | flat-elim-search.py:121-122 | appending a cap as long as the best keeps every invariant of the list |
| Search.CapsShapeStep | flat-elim-search.py:121-122 | appending a cap of the listed length, grown along a search path from index i, keeps the listed caps grown along search paths with ascending first indices below i + 1 |
| Search.CapsLeastStep | flat-elim-search.py:121-122 | appending an index list that is least among the longest paths with its first index keeps every listed one least |
| Search.ResetStep | flat-elim-search.py:118-122 | a strictly longer cap restarts the list with itself alone, and the list invariant holds for it |
| Search.TiedCapsBoundStep | flat-elim-search.py:110-122 | an index whose branch does not tie with the best keeps every invariant of the list |
| Search.TiesListedStep | flat-elim-search.py:110-122 | an index whose branch does not reach the best length adds no tie to list |
| Search.TieListed | flat-elim-search.py:121-122 | appending the cap of the branch at i lists the tie at i |
| Search.ResetListed | flat-elim-search.py:118-122 | after a reset the only tie up to i is i itself, since every earlier branch reached at most the previous best |
| Search.BranchesBelowStep | flat-elim-search.py:118-120 | once index i is covered, every branch so far reaches at most the new best length |
| Search.FirstTieIsBest | flat-elim-search.py:118-122 | the best cap is the first listed cap, and no valid index before that cap's first appended index has a branch as long as the best |
| Search.LeastUnique | flat-elim-search.py:95-125 | two search paths of the same length that are each lexicographically least among the paths of that length are equal, so the least-path contracts single out one cap |
| Search.FirstIndexLeast | flat-elim-search.py:100 | the first indices of the listed caps, taken in loop order, have their least at the head |
| Search.InitialCap | flat-elim-search.py:152-154 | the starting cap has n + 1 points of n coordinates |
| Search.SaveCaps | flat-elim-search.py:141-157 | with d == n the result is the starting cap alone; otherwise the best cap's length is the reach from the starting cap, from index 1, through the list the first full recomputation leaves, so no search path from the starting cap is longer; the best cap is grown along the lexicographically least of the longest search paths; when the best is longer than the starting cap, the list holds one cap per tying top-level branch, in ascending order of first index, each least among the longest paths with that index; every returned cap is as long as the best, starts with the starting cap, is grown by indices from 1 on left valid by the starting recomputation, none of them cleared by the updates after earlier appends, and for q >= 2 and d >= 1 repeats no point |
| Search.StarterIsStartList | flat-elim-search.py:156 | the first full recomputation on the all-true list yields exactly the list of indices no group of the starting cap reaches |
| Search.StartSearchBound | flat-elim-search.py:152-157 | a best cap as long as the reach from the starting cap is at least as long as every search path from it |
| Search.TiedCapsSearched | flat-elim-search.py:152-157 | every cap the top-level search lists starts with the starting cap, is grown along a path valid in the starting list and escaping every later update, and for q >= 2 and d >= 1 repeats no point |
| Search.InitialCapNoRepeats | flat-elim-search.py:141-143 | the origin and the n basis vectors are n + 1 distinct points |
| Search.BasisIndex | flat-elim-search.py:153-154 | the i-th basis vector has index q^i |
| Search.StarterExcludesInitialCap | flat-elim-search.py:156 | with q >= 2 and d >= 1 the first full recomputation marks every point of the starting cap invalid |
| Search.StartingPointNotAppended | flat-elim-search.py:156-157 | a point whose index is valid in the starting list is none of the starting points |
| Search.ExtensionNoRepeats | flat-elim-search.py:152-157 | a cap grown from the starting cap through ascending indices valid in the starting list has no repeated point |
| Search.ExtensionPairDistinct | flat-elim-search.py:152-157 | any two positions of such a cap hold different points |
| Search.TailPairDistinct | flat-elim-search.py:100-111 | two appended points at different positions differ |
| Search.MixedPairDistinct | flat-elim-search.py:156-157 | positions a <= n < b of the starting cap followed by the decoded points hold different points whenever the decoded point differs from the starting point at a (that difference is what StartingPointNotAppended supplies) |
| Search.DecodeDistinct | flat-elim-search.py:100-111 | the points one search appends, taken at ascending indices, are pairwise distinct |

## Left out

- Multiprocessing (`Array`, `Process`, `start`, `join`): the groups are visited sequentially. Every write is a 0, so the result does not depend on the order.
- The order in which `mark_visible` iterates the coefficient set: the model picks tuples in an unspecified order, and the contract holds for every order.
- `affine_space_core` is not part of this model. `add_affine` is taken to be the sum mod q. `vector_to_index` is taken to be the little-endian base-q encoding, with `index_to_vector` its inverse. numpy arrays are integer sequences.
- The `cache` memo table: each index is decoded by a direct `index_to_vector` call.
- Loading and saving results with pickle, the result file names, the "solution previously found" path and the final report.
- Progress printing, the debug log and timing.
- Command-line parsing and the endless sweep over d and n.
- The lower-dimension embedding at `flat-elim-search.py:146-151`: it is dead code, because line 152 overwrites `initial_cap`.
- The GUI in `affineGUI.py`.
- Search.FindMaximumCap: the shared mutable default `maximum_caps=[]` becomes the explicit accumulator parameter `caps`. Recursive calls receive the same accumulator the caller received, as the source's default does; none of them appends to it.
- Search.SaveCaps: passes an empty accumulator. So it does not model the list an earlier top-level search with no valid index leaves in the shared default for later calls in the same process.
- Search.SaveCaps: promises no repeated point only for d >= 1. With d = 0, which the command line accepts (`flat-elim-search.py:190-195`), the first full recomputation visits no group (`range(1, d + 1)` is empty at `flat-elim-search.py:67`). So it clears none of the starting points, and the search appends the basis vectors again.
- Search.SaveCaps: returns the best cap and the list. The source returns only the list and writes the best cap to a file.
- Search.Cap.Pop: requires a non-empty cap, where the source raises `IndexError`. Every pop follows an append.
- Validset.UpdateValidset: requires a non-empty cap or d > 0. Otherwise `cap[-1]` raises `IndexError` in the source, and the search never calls it that way.
- Global optimality of the returned caps, and the geometric fact that they are d-caps: both rest on field arithmetic in `affine_space_core` and on an exhaustive-search argument.
