/** The validity set and its maintenance: mark_visible eliminates every point a
    group of cap points reaches through the coefficient set, update_validset
    runs it over the groups that contain the newest cap point and
    complete_update_validset over every group of 2..d+1 cap points. The source
    starts one process per group on a shared integer array; each only writes 0,
    so the order is immaterial and the groups are visited one after another
    here, over an array of booleans (1 is true, 0 is false). */
module Validset {
  import opened AffineSpace
  import opened Combinatorics
  import opened Coefficients

  /** The index of the point that coeff weights points to: the body of one
      iteration of mark_visible. */
  function Target(q: nat, n: nat, coeff: seq<int>, points: seq<Vec>): (i: nat)
    requires q >= 1 && WellFormed(points, n)
    ensures i < Pow(q, n)
  {
    VectorToIndex(AddAffineVec(q, n, ZipScale(coeff, points)), q)
  }

  /** Every index mark_visible(points) sets to 0. */
  function Targets(q: nat, n: nat, coeffs: set<seq<int>>, points: seq<Vec>): set<nat>
    requires q >= 1 && WellFormed(points, n)
  {
    set c | c in coeffs :: Target(q, n, c, points)
  }

  predicate GroupsWellFormed(groups: seq<seq<Vec>>, n: nat) {
    forall k :: 0 <= k < |groups| ==> WellFormed(groups[k], n)
  }

  /** Every index set to 0 when mark_visible runs over each group in turn. */
  function EliminatedBy(q: nat, n: nat, coeffs: set<seq<int>>, groups: seq<seq<Vec>>): set<nat>
    requires q >= 1 && GroupsWellFormed(groups, n)
  {
    if groups == [] then {}
    else EliminatedBy(q, n, coeffs, groups[..|groups| - 1]) + Targets(q, n, coeffs, groups[|groups| - 1])
  }

  /** The groups update_validset visits: each d-combination of the cap
      without its last point, followed by that last point. */
  function IncrementalGroups(cap: seq<Vec>, d: nat): seq<seq<Vec>> {
    if cap == [] then []
    else
      var combos := Combinations(cap[..|cap| - 1], d);
      seq(|combos|, k requires 0 <= k < |combos| => combos[k] + [cap[|cap| - 1]])
  }

  /** The groups complete_update_validset visits for i in range(1, m + 1):
      the combinations of the cap of size 2, then of size 3, ..., then m + 1. */
  function CompleteGroups(cap: seq<Vec>, m: nat): seq<seq<Vec>> {
    if m == 0 then [] else CompleteGroups(cap, m - 1) + Combinations(cap, m + 1)
  }

  /** mark_visible: for each coefficient tuple, sets the entry at the index of
      the weighted sum of points to false; the coefficient set is a set, so it
      is visited in an unspecified order. */
  method MarkVisible(shared: array<bool>, points: seq<Vec>, coeffs: set<seq<int>>, q: nat, n: nat)
    requires q >= 1 && shared.Length == Pow(q, n) && WellFormed(points, n)
    modifies shared
    ensures forall j :: 0 <= j < shared.Length ==>
              shared[j] == (old(shared[j]) && j !in Targets(q, n, coeffs, points))
  {
    var rest := coeffs;
    ghost var done: set<seq<int>> := {};
    while rest != {}
      invariant done + rest == coeffs
      invariant forall j :: 0 <= j < shared.Length ==>
                  shared[j] == (old(shared[j]) && j !in Targets(q, n, done, points))
      decreases |rest|
    {
      var coeff :| coeff in rest;
      var index := Target(q, n, coeff, points);
      shared[index] := false;
      TargetsAdd(q, n, done, coeff, points);
      rest := rest - {coeff};
      done := done + {coeff};
    }
  }

  /** One more coefficient tuple reaches one more index. */
  lemma TargetsAdd(q: nat, n: nat, done: set<seq<int>>, coeff: seq<int>, points: seq<Vec>)
    requires q >= 1 && WellFormed(points, n)
    ensures Targets(q, n, done + {coeff}, points) == Targets(q, n, done, points) + {Target(q, n, coeff, points)}
  {
  }

  /** update_validset: a fresh validity list in which every index reached from
      a group holding the newest cap point is false; nothing becomes valid. */
  method UpdateValidset(cap: seq<Vec>, validset: seq<bool>, d: nat, q: nat, n: nat, coeffs: set<seq<int>>)
    returns (out: seq<bool>)
    requires q >= 1 && |validset| == Pow(q, n) && WellFormed(cap, n)
    requires cap != [] || d > 0
    ensures GroupsWellFormed(IncrementalGroups(cap, d), n)
    ensures |out| == |validset|
    ensures forall j :: 0 <= j < |out| ==>
              (out[j] <==> validset[j] && j !in EliminatedBy(q, n, coeffs, IncrementalGroups(cap, d)))
  {
    IncrementalGroupsWellFormed(cap, d, n);
    var shared := new bool[|validset|](j requires 0 <= j < |validset| => validset[j]);
    var front := if cap == [] then [] else cap[..|cap| - 1];
    var combos := Combinations(front, d);
    ghost var groups := IncrementalGroups(cap, d);
    for k := 0 to |combos|
      invariant forall j :: 0 <= j < shared.Length ==>
                  (shared[j] <==> validset[j] && j !in EliminatedBy(q, n, coeffs, groups[..k]))
    {
      var g := combos[k] + [cap[|cap| - 1]];
      assert g == groups[k];
      EliminatedStep(q, n, coeffs, groups, k);
      MarkVisible(shared, g, coeffs, q, n);
    }
    assert groups[..|combos|] == groups;
    out := shared[..];
  }

  /** The loop for comb in combinations(...): mark_visible(comb) of
      complete_update_validset, for one combination size. */
  method MarkEach(shared: array<bool>, groups: seq<seq<Vec>>, coeffs: set<seq<int>>, q: nat, n: nat)
    requires q >= 1 && shared.Length == Pow(q, n) && GroupsWellFormed(groups, n)
    modifies shared
    ensures forall j :: 0 <= j < shared.Length ==>
              shared[j] == (old(shared[j]) && j !in EliminatedBy(q, n, coeffs, groups))
  {
    for k := 0 to |groups|
      invariant forall j :: 0 <= j < shared.Length ==>
                  shared[j] == (old(shared[j]) && j !in EliminatedBy(q, n, coeffs, groups[..k]))
    {
      EliminatedStep(q, n, coeffs, groups, k);
      MarkVisible(shared, groups[k], coeffs, q, n);
    }
    assert groups[..|groups|] == groups;
  }

  /** complete_update_validset: a fresh validity list in which every index
      reached from any 2..d+1 points of the cap is false; nothing becomes
      valid. */
  method CompleteUpdateValidset(cap: seq<Vec>, validset: seq<bool>, d: nat, q: nat, n: nat, coeffs: set<seq<int>>)
    returns (out: seq<bool>)
    requires q >= 1 && |validset| == Pow(q, n) && WellFormed(cap, n)
    ensures GroupsWellFormed(CompleteGroups(cap, d), n)
    ensures |out| == |validset|
    ensures forall j :: 0 <= j < |out| ==>
              (out[j] <==> validset[j] && j !in EliminatedBy(q, n, coeffs, CompleteGroups(cap, d)))
  {
    CompleteGroupsWellFormed(cap, d, n);
    var shared := new bool[|validset|](j requires 0 <= j < |validset| => validset[j]);
    for i := 1 to d + 1
      invariant GroupsWellFormed(CompleteGroups(cap, i - 1), n)
      invariant forall j :: 0 <= j < shared.Length ==>
                  (shared[j] <==> validset[j] && j !in EliminatedBy(q, n, coeffs, CompleteGroups(cap, i - 1)))
    {
      var combos := Combinations(cap, i + 1);
      CombinationsWellFormed(cap, i + 1, n);
      MarkEach(shared, combos, coeffs, q, n);
      EliminatedConcat(q, n, coeffs, CompleteGroups(cap, i - 1), combos);
    }
    out := shared[..];
  }

  // ---------------------------------------------------------------------
  // The groups each update visits

  lemma SubseqWellFormed(c: seq<Vec>, s: seq<Vec>, n: nat)
    requires Subseq(c, s) && WellFormed(s, n)
    ensures WellFormed(c, n)
  {
    forall k | 0 <= k < |c|
      ensures |c[k]| == n
    {
      SubseqElements(c, s, c[k]);
    }
  }

  /** update_validset visits one group per d-subset of the earlier cap
      points: C(|cap| - 1, d) groups. */
  lemma IncrementalGroupsCount(cap: seq<Vec>, d: nat)
    requires cap != []
    ensures |IncrementalGroups(cap, d)| == Binomial(|cap| - 1, d)
  {
    CombinationsCount(cap[..|cap| - 1], d);
  }

  /** Each group update_validset visits is d earlier cap points in cap order
      followed by the newest point, and each such choice is visited. */
  lemma IncrementalGroupsShape(cap: seq<Vec>, d: nat, g: seq<Vec>)
    requires cap != []
    ensures g in IncrementalGroups(cap, d) <==>
              |g| == d + 1 && g[d] == cap[|cap| - 1] && Subseq(g[..d], cap[..|cap| - 1])
  {
    var groups := IncrementalGroups(cap, d);
    if g in groups {
      var k :| 0 <= k < |groups| && groups[k] == g;
      IncrementalGroupSound(cap, d, k);
    }
    if |g| == d + 1 && g[d] == cap[|cap| - 1] && Subseq(g[..d], cap[..|cap| - 1]) {
      IncrementalGroupComplete(cap, d, g);
    }
  }

  lemma IncrementalGroupSound(cap: seq<Vec>, d: nat, k: nat)
    requires cap != [] && k < |IncrementalGroups(cap, d)|
    ensures var g := IncrementalGroups(cap, d)[k];
            |g| == d + 1 && g[d] == cap[|cap| - 1] && Subseq(g[..d], cap[..|cap| - 1])
  {
    var front := cap[..|cap| - 1];
    var combos := Combinations(front, d);
    var g := IncrementalGroups(cap, d)[k];
    assert g == combos[k] + [cap[|cap| - 1]];
    CombinationsMember(front, d, combos[k]);
    assert g[..d] == combos[k];
  }

  lemma IncrementalGroupComplete(cap: seq<Vec>, d: nat, g: seq<Vec>)
    requires cap != []
    requires |g| == d + 1 && g[d] == cap[|cap| - 1] && Subseq(g[..d], cap[..|cap| - 1])
    ensures g in IncrementalGroups(cap, d)
  {
    var front := cap[..|cap| - 1];
    var combos := Combinations(front, d);
    var groups := IncrementalGroups(cap, d);
    assert g[..d] in combos by { CombinationsMember(front, d, g[..d]); }
    var k :| 0 <= k < |combos| && combos[k] == g[..d];
    assert groups[k] == g by {
      assert groups[k] == combos[k] + [cap[|cap| - 1]];
      assert g == g[..d] + [g[d]];
    }
  }

  lemma IncrementalGroupsWellFormed(cap: seq<Vec>, d: nat, n: nat)
    requires WellFormed(cap, n)
    ensures GroupsWellFormed(IncrementalGroups(cap, d), n)
  {
    var groups := IncrementalGroups(cap, d);
    forall k | 0 <= k < |groups|
      ensures WellFormed(groups[k], n)
    {
      IncrementalGroupsShape(cap, d, groups[k]);
      SubseqWellFormed(groups[k][..d], cap[..|cap| - 1], n);
      assert groups[k] == groups[k][..d] + [cap[|cap| - 1]];
    }
  }

  /** complete_update_validset with argument m visits exactly the
      subsequences of the cap of length 2 to m + 1. */
  lemma {:induction false} CompleteGroupsShape(cap: seq<Vec>, m: nat, g: seq<Vec>)
    ensures g in CompleteGroups(cap, m) <==> 2 <= |g| <= m + 1 && Subseq(g, cap)
  {
    if m > 0 {
      var earlier, combos := CompleteGroups(cap, m - 1), Combinations(cap, m + 1);
      var sub := Subseq(g, cap);
      assert g in earlier <==> 2 <= |g| <= m && sub by { CompleteGroupsShape(cap, m - 1, g); }
      assert g in combos <==> |g| == m + 1 && sub by { CombinationsMember(cap, m + 1, g); }
      assert CompleteGroups(cap, m) == earlier + combos;
    }
  }

  lemma CombinationsWellFormed(cap: seq<Vec>, m: nat, n: nat)
    requires WellFormed(cap, n)
    ensures GroupsWellFormed(Combinations(cap, m), n)
  {
    var combos := Combinations(cap, m);
    forall k | 0 <= k < |combos|
      ensures WellFormed(combos[k], n)
    {
      CombinationsMember(cap, m, combos[k]);
      SubseqWellFormed(combos[k], cap, n);
    }
  }

  lemma CompleteGroupsWellFormed(cap: seq<Vec>, m: nat, n: nat)
    requires WellFormed(cap, n)
    ensures GroupsWellFormed(CompleteGroups(cap, m), n)
  {
    var groups := CompleteGroups(cap, m);
    forall k | 0 <= k < |groups|
      ensures WellFormed(groups[k], n)
    {
      CompleteGroupsShape(cap, m, groups[k]);
      SubseqWellFormed(groups[k], cap, n);
    }
  }

  /** Running over one more group adds exactly that group's targets. */
  lemma EliminatedStep(q: nat, n: nat, coeffs: set<seq<int>>, groups: seq<seq<Vec>>, m: nat)
    requires q >= 1 && GroupsWellFormed(groups, n) && m < |groups|
    ensures EliminatedBy(q, n, coeffs, groups[..m + 1])
         == EliminatedBy(q, n, coeffs, groups[..m]) + Targets(q, n, coeffs, groups[m])
  {
    assert groups[..m + 1][..m] == groups[..m];
  }

  /** Running over two lists of groups in turn eliminates what each does. */
  lemma {:induction false} EliminatedConcat(q: nat, n: nat, coeffs: set<seq<int>>, a: seq<seq<Vec>>, b: seq<seq<Vec>>)
    requires q >= 1 && GroupsWellFormed(a, n) && GroupsWellFormed(b, n)
    ensures GroupsWellFormed(a + b, n)
    ensures EliminatedBy(q, n, coeffs, a + b) == EliminatedBy(q, n, coeffs, a) + EliminatedBy(q, n, coeffs, b)
  {
    assert forall k :: 0 <= k < |a + b| ==> (a + b)[k] == if k < |a| then a[k] else b[k - |a|];
    if b != [] {
      var init := b[..|b| - 1];
      assert (a + b)[..|a + b| - 1] == a + init;
      EliminatedConcat(q, n, coeffs, a, init);
    } else {
      assert a + b == a;
    }
  }

  /** What one group eliminates, the whole run over the groups eliminates. */
  lemma {:induction false} EliminatedIncludes(q: nat, n: nat, coeffs: set<seq<int>>, groups: seq<seq<Vec>>, k: nat)
    requires q >= 1 && GroupsWellFormed(groups, n) && k < |groups|
    ensures Targets(q, n, coeffs, groups[k]) <= EliminatedBy(q, n, coeffs, groups)
  {
    if k < |groups| - 1 {
      var init := groups[..|groups| - 1];
      assert init[k] == groups[k];
      EliminatedIncludes(q, n, coeffs, init, k);
    }
  }

  // ---------------------------------------------------------------------
  // What mark_visible eliminates

  /** Coordinate j of the points weighted by the unit tuple with its 1 at
      position k sums to coordinate j of point k. */
  lemma UnitColumn(d: nat, n: nat, points: seq<Vec>, k: nat, j: nat)
    requires WellFormed(points, n) && k <= d && k < |points| && j < n
    ensures Sum(Column(ZipScale(Basis(d + 1, k), points), j)) == points[k][j]
  {
    var e := Basis(d + 1, k);
    var terms := ZipScale(e, points);
    var col := Column(terms, j);
    forall i | 0 <= i < |col|
      ensures col[i] == if i == k then points[k][j] else 0
    {
      assert col[i] == terms[i][j] == e[i] * points[i][j];
    }
    SumOneHot(col, k);
  }

  lemma SmallMod(x: int, q: nat)
    requires 0 <= x < q
    ensures x % q == x
  {
  }

  /** The unit tuple with its 1 at position k weights the points to point k. */
  lemma UnitTarget(d: nat, q: nat, n: nat, points: seq<Vec>, k: nat)
    requires q >= 1 && WellFormed(points, n) && k <= d && k < |points|
    requires Reduced(points[k], q)
    ensures Target(q, n, Basis(d + 1, k), points) == VectorToIndex(points[k], q)
  {
    var terms := ZipScale(Basis(d + 1, k), points);
    var sum := AddAffineVec(q, n, terms);
    forall j | 0 <= j < n
      ensures sum[j] == points[k][j]
    {
      UnitColumn(d, n, points, k, j);
      var x := points[k][j];
      assert sum[j] == Sum(Column(terms, j)) % q == x % q;
      assert 0 <= x < q;
      SmallMod(x, q);
    }
    assert sum == points[k];
  }

  /** For q >= 2, mark_visible marks each of the first d + 1 points it is given. */
  lemma MarkVisibleHitsPoints(d: nat, q: nat, n: nat, points: seq<Vec>, k: nat)
    requires q >= 2 && WellFormed(points, n) && k <= d && k < |points|
    requires Reduced(points[k], q)
    ensures VectorToIndex(points[k], q) in Targets(q, n, GenerateCoeffs(d, q), points)
  {
    UnitIsCoeff(d, q, k);
    UnitTarget(d, q, n, points, k);
  }

  /** With at most d points, zip truncates each (d + 1)-tuple; the unit tuple
      whose 1 is in the dropped last position weights every point by 0, so the
      origin (index 0) is always marked. */
  lemma TruncationMarksOrigin(d: nat, q: nat, n: nat, points: seq<Vec>)
    requires q >= 2 && WellFormed(points, n) && |points| <= d
    ensures 0 in Targets(q, n, GenerateCoeffs(d, q), points)
  {
    var e := Basis(d + 1, d);
    UnitIsCoeff(d, q, d);
    var terms := ZipScale(e, points);
    var sum := AddAffineVec(q, n, terms);
    forall j | 0 <= j < n
      ensures sum[j] == 0
    {
      var col := Column(terms, j);
      forall i | 0 <= i < |col|
        ensures col[i] == 0
      {
        assert terms[i] == Scale(0, points[i]);
      }
      SumZeros(col);
    }
    assert sum == Zero(n);
    ZeroIndex(n, q);
  }

  /** After update_validset on a cap with at least d earlier points, the newest
      point itself is invalid. */
  lemma NewestPointEliminated(cap: seq<Vec>, d: nat, q: nat, n: nat)
    requires q >= 2 && WellFormed(cap, n) && |cap| >= d + 1
    requires Reduced(cap[|cap| - 1], q)
    ensures GroupsWellFormed(IncrementalGroups(cap, d), n)
    ensures VectorToIndex(cap[|cap| - 1], q) in EliminatedBy(q, n, GenerateCoeffs(d, q), IncrementalGroups(cap, d))
  {
    var groups := IncrementalGroups(cap, d);
    IncrementalGroupsWellFormed(cap, d, n);
    BinomialPositive(|cap| - 1, d);
    IncrementalGroupsCount(cap, d);
    IncrementalGroupsShape(cap, d, groups[0]);
    MarkVisibleHitsPoints(d, q, n, groups[0], d);
    EliminatedIncludes(q, n, GenerateCoeffs(d, q), groups, 0);
  }

  lemma {:induction false} SubseqSingle(s: seq<Vec>, j: nat)
    requires j < |s|
    ensures Subseq([s[j]], s)
  {
    if j > 0 {
      SubseqSingle(s[1..], j - 1);
    }
  }

  lemma {:induction false} SubseqPair(s: seq<Vec>, i: nat, j: nat)
    requires i < j < |s|
    ensures Subseq([s[i], s[j]], s)
  {
    if i == 0 {
      SubseqSingle(s[1..], j - 1);
      assert [s[i], s[j]][1..] == [s[1..][j - 1]];
    } else {
      SubseqPair(s[1..], i - 1, j - 1);
    }
  }

  /** After complete_update_validset with d >= 1 on a cap of two or more
      points, every cap point is invalid. */
  lemma CompleteUpdateCoversCap(cap: seq<Vec>, d: nat, q: nat, n: nat, i: nat)
    requires q >= 2 && d >= 1 && WellFormed(cap, n) && |cap| >= 2 && i < |cap|
    requires Reduced(cap[i], q)
    ensures GroupsWellFormed(CompleteGroups(cap, d), n)
    ensures VectorToIndex(cap[i], q) in EliminatedBy(q, n, GenerateCoeffs(d, q), CompleteGroups(cap, d))
  {
    var groups := CompleteGroups(cap, d);
    CompleteGroupsWellFormed(cap, d, n);
    var pair, k;
    if i == 0 {
      pair, k := [cap[0], cap[1]], 0;
      SubseqPair(cap, 0, 1);
    } else {
      pair, k := [cap[0], cap[i]], 1;
      SubseqPair(cap, 0, i);
    }
    CompleteGroupsShape(cap, d, pair);
    var at :| 0 <= at < |groups| && groups[at] == pair;
    MarkVisibleHitsPoints(d, q, n, pair, k);
    EliminatedIncludes(q, n, GenerateCoeffs(d, q), groups, at);
  }
}
