/** find_maximum_cap and the search part of save_caps: a depth-first search
    that extends the cap only through indices still valid, in ascending order,
    keeps the cap as a stack (append, recurse on a copy, pop) and keeps the
    longest cap found with the list of caps of that length. */
module Search {
  import opened AffineSpace
  import opened Coefficients
  import opened Validset

  /** The Python list holding the current cap, which the search appends to
      and pops from in place. */
  class Cap {
    var points: seq<Vec>

    constructor (init: seq<Vec>)
      ensures points == init
    {
      points := init;
    }

    /** current_cap.append(v) */
    method Append(v: Vec)
      modifies this
      ensures points == old(points) + [v]
    {
      points := points + [v];
    }

    /** current_cap.pop(): removes the last point and returns it. */
    method Pop() returns (v: Vec)
      requires points != []
      modifies this
      ensures points == old(points)[..|old(points)| - 1] && v == old(points)[|old(points)| - 1]
    {
      v := points[|points| - 1];
      points := points[..|points| - 1];
    }

    /** current_cap.copy(): a new list with the same points. */
    method Copy() returns (c: Cap)
      ensures fresh(c) && c.points == points
    {
      c := new Cap(points);
    }
  }

  /** The points with indices js, in order. */
  function Decode(n: nat, q: nat, js: seq<nat>): seq<Vec>
    requires q >= 1
  {
    seq(|js|, k requires 0 <= k < |js| => IndexToVector(n, q, js[k]))
  }

  /** Each index of js is smaller than the next. */
  predicate Ascending(js: seq<nat>)
    decreases |js|
  {
    |js| <= 1 || (js[0] < js[1] && Ascending(js[1..]))
  }

  /** In an ascending sequence every earlier index is smaller than every
      later one. */
  lemma {:induction false} AscendingPair(js: seq<nat>, a: nat, b: nat)
    requires Ascending(js) && a < b < |js|
    ensures js[a] < js[b]
    decreases |js|
  {
    if a == 0 {
      if b > 1 {
        AscendingPair(js[1..], 0, b - 1);
      }
    } else {
      AscendingPair(js[1..], a - 1, b - 1);
    }
  }

  /** c is base extended by the points with the ascending indices js, each at
      least cursor and valid in the validity list valid. */
  predicate Grown(base: seq<Vec>, js: seq<nat>, c: seq<Vec>, cursor: nat, valid: seq<bool>, n: nat, q: nat)
    requires q >= 1
  {
    && c == base + Decode(n, q, js)
    && Ascending(js)
    && forall k :: 0 <= k < |js| ==> cursor <= js[k] < |valid| && valid[js[k]]
  }

  /** The list of caps kept beside the best cap once the search has found an
      extension: it starts with the best cap, all its caps are as long as the
      best and were grown from entry through valid ascending indices (listed
      in capsIdx) along a path the search takes, their first indices ascend
      and lie below bound, every tie is listed, and each listed index list is
      the lexicographically least of the longest paths with its first index. */
  ghost predicate TiedCaps(entry: seq<Vec>, best: seq<Vec>, bestCaps: seq<seq<Vec>>, capsIdx: seq<seq<nat>>,
                     cursor: nat, bound: nat, hashset: seq<bool>, d: nat, q: nat, n: nat, coeffs: set<seq<int>>)
    requires q >= 1 && WellFormed(entry, n)
  {
    && |bestCaps| == |capsIdx| >= 1
    && bestCaps[0] == best
    && CapsShape(entry, |best|, bestCaps, capsIdx, cursor, bound, hashset, d, q, n, coeffs)
    && TiesListed(entry, |best|, capsIdx, cursor, bound, hashset, d, q, n, coeffs)
    && CapsLeast(entry, capsIdx, hashset, cursor, |best|, d, q, n, coeffs)
  }

  /** a comes no later than b in lexicographic order. */
  predicate LexLeq(a: seq<nat>, b: seq<nat>)
    decreases |a|
  {
    a == [] || (b != [] && (a[0] < b[0] || (a[0] == b[0] && LexLeq(a[1..], b[1..]))))
  }

  /** idx is lexicographically least among the search paths from entry that
      grow it to length len. */
  ghost predicate Least(entry: seq<Vec>, idx: seq<nat>, hs: seq<bool>, cursor: nat, len: nat,
                        d: nat, q: nat, n: nat, coeffs: set<seq<int>>)
    requires q >= 1 && WellFormed(entry, n)
  {
    forall js :: SearchPath(entry, js, hs, cursor, d, q, n, coeffs) && |entry| + |js| == len ==> LexLeq(idx, js)
  }

  /** Two search paths of the same length, each least among the paths of
      that length, are the same path: Least picks out one index list. */
  lemma LeastUnique(entry: seq<Vec>, a: seq<nat>, b: seq<nat>, hs: seq<bool>, cursor: nat, len: nat,
                    d: nat, q: nat, n: nat, coeffs: set<seq<int>>)
    requires q >= 1 && WellFormed(entry, n)
    requires SearchPath(entry, a, hs, cursor, d, q, n, coeffs) && |entry| + |a| == len
    requires SearchPath(entry, b, hs, cursor, d, q, n, coeffs) && |entry| + |b| == len
    requires Least(entry, a, hs, cursor, len, d, q, n, coeffs) && Least(entry, b, hs, cursor, len, d, q, n, coeffs)
    ensures a == b
  {
    LexAntisymmetric(a, b);
  }

  /** Lexicographic order on lists of one length is antisymmetric. */
  lemma {:induction false} LexAntisymmetric(a: seq<nat>, b: seq<nat>)
    requires |a| == |b| && LexLeq(a, b) && LexLeq(b, a)
    ensures a == b
    decreases |a|
  {
    if a != [] {
      LexAntisymmetric(a[1..], b[1..]);
      assert a == [a[0]] + a[1..] && b == [b[0]] + b[1..];
    }
  }

  /** idx is lexicographically least among the search paths from entry that
      grow it to length len and start with the same index as idx. */
  ghost predicate LeastFrom(entry: seq<Vec>, idx: seq<nat>, hs: seq<bool>, cursor: nat, len: nat,
                            d: nat, q: nat, n: nat, coeffs: set<seq<int>>)
    requires q >= 1 && WellFormed(entry, n)
  {
    forall js :: (SearchPath(entry, js, hs, cursor, d, q, n, coeffs) && |entry| + |js| == len &&
                  js != [] && idx != [] && js[0] == idx[0]) ==> LexLeq(idx, js)
  }

  /** Every listed index list is least among the paths of length len with its
      first index. */
  ghost predicate CapsLeast(entry: seq<Vec>, capsIdx: seq<seq<nat>>, hs: seq<bool>, cursor: nat, len: nat,
                            d: nat, q: nat, n: nat, coeffs: set<seq<int>>)
    requires q >= 1 && WellFormed(entry, n)
  {
    forall k :: 0 <= k < |capsIdx| ==> LeastFrom(entry, capsIdx[k], hs, cursor, len, d, q, n, coeffs)
  }

  /** Each listed cap has length len and was grown from entry along a search
      path whose first index lies below bound; the first indices ascend. */
  predicate CapsShape(entry: seq<Vec>, len: nat, bestCaps: seq<seq<Vec>>, capsIdx: seq<seq<nat>>,
                      cursor: nat, bound: nat, hashset: seq<bool>, d: nat, q: nat, n: nat, coeffs: set<seq<int>>)
    requires q >= 1 && WellFormed(entry, n)
  {
    && |bestCaps| == |capsIdx|
    && (forall k :: 0 <= k < |bestCaps| ==>
          |bestCaps[k]| == len && Grown(entry, capsIdx[k], bestCaps[k], cursor, hashset, n, q))
    && (forall k :: 0 <= k < |capsIdx| ==> SearchPath(entry, capsIdx[k], hashset, cursor, d, q, n, coeffs))
    && (forall k :: 0 <= k < |capsIdx| ==> capsIdx[k] != [] && capsIdx[k][0] < bound)
    && (forall k :: 0 <= k < |capsIdx| - 1 ==> capsIdx[k][0] < capsIdx[k + 1][0])
  }

  /** Every valid index in [cursor, bound) whose branch reaches exactly len
      is the first index of one of the listed caps: no tie is dropped. */
  predicate TiesListed(entry: seq<Vec>, len: nat, capsIdx: seq<seq<nat>>, cursor: nat, bound: nat,
                       hashset: seq<bool>, d: nat, q: nat, n: nat, coeffs: set<seq<int>>)
    requires q >= 1 && WellFormed(entry, n)
  {
    forall j :: cursor <= j < bound && j < |hashset| && hashset[j] && Branch(entry, j, hashset, d, q, n, coeffs) == len ==>
      exists k :: 0 <= k < |capsIdx| && capsIdx[k] != [] && capsIdx[k][0] == j
  }

  /** Every branch at a valid index in [cursor, bound) reaches at most len. */
  predicate BranchesBelow(entry: seq<Vec>, len: nat, cursor: nat, bound: nat, hashset: seq<bool>,
                          d: nat, q: nat, n: nat, coeffs: set<seq<int>>)
    requires q >= 1 && WellFormed(entry, n)
  {
    forall j :: cursor <= j < bound && j < |hashset| && hashset[j] ==> Branch(entry, j, hashset, d, q, n, coeffs) <= len
  }

  /** The groups whose eliminations the search applies after appending the
      last point of cap: the incremental groups once the cap holds more than
      d points, else every group of 2..|cap|+1 cap points. */
  function SearchGroups(cap: seq<Vec>, d: nat): seq<seq<Vec>> {
    if |cap| > d then IncrementalGroups(cap, d) else CompleteGroups(cap, |cap|)
  }

  lemma SearchGroupsWellFormed(cap: seq<Vec>, d: nat, n: nat)
    requires WellFormed(cap, n)
    ensures GroupsWellFormed(SearchGroups(cap, d), n)
  {
    if |cap| > d {
      IncrementalGroupsWellFormed(cap, d, n);
    } else {
      CompleteGroupsWellFormed(cap, |cap|, n);
    }
  }

  /** The indices the update for the last point of cap clears: those some
      group of SearchGroups(cap, d) reaches. */
  function Pruning(cap: seq<Vec>, d: nat, q: nat, n: nat, coeffs: set<seq<int>>): set<nat>
    requires q >= 1 && WellFormed(cap, n)
  {
    SearchGroupsWellFormed(cap, d, n);
    EliminatedBy(q, n, coeffs, SearchGroups(cap, d))
  }

  /** The validity list hs once the update for the last point of cap has
      run: an entry stays true unless a group of SearchGroups(cap, d)
      reaches its index. */
  function Updated(cap: seq<Vec>, hs: seq<bool>, d: nat, q: nat, n: nat, coeffs: set<seq<int>>): (r: seq<bool>)
    requires q >= 1 && WellFormed(cap, n)
    ensures |r| == |hs|
  {
    seq(|hs|, j requires 0 <= j < |hs| => hs[j] && j !in Pruning(cap, d, q, n, coeffs))
  }

  /** cap extended by the points with indices js, in order. */
  function Grow(cap: seq<Vec>, js: seq<nat>, n: nat, q: nat): (c: seq<Vec>)
    requires q >= 1 && WellFormed(cap, n)
    ensures WellFormed(c, n) && |c| == |cap| + |js|
  {
    cap + Decode(n, q, js)
  }

  /** Every index of js after the first escapes the indices cleared after
      each earlier append: no point appended along js is reached from a group
      of the cap as it stood after an earlier append. */
  predicate Pruned(cap: seq<Vec>, js: seq<nat>, d: nat, q: nat, n: nat, coeffs: set<seq<int>>)
    requires q >= 1 && WellFormed(cap, n)
  {
    forall p, k :: 1 <= p <= k < |js| ==> js[k] !in Pruning(Grow(cap, js[..p], n, q), d, q, n, coeffs)
  }

  /** The cap followed by the point with index i. */
  function Extended(cap: seq<Vec>, i: nat, n: nat, q: nat): (c: seq<Vec>)
    requires q >= 1 && WellFormed(cap, n)
    ensures WellFormed(c, n) && |c| == |cap| + 1
  {
    cap + [IndexToVector(n, q, i)]
  }

  /** js is a path the search takes from cap: its first index is at least
      cursor and valid in hs, and the rest is a path from the extended cap,
      from the next index on, through the list updated for that extension. */
  predicate SearchPath(cap: seq<Vec>, js: seq<nat>, hs: seq<bool>, cursor: nat,
                       d: nat, q: nat, n: nat, coeffs: set<seq<int>>)
    requires q >= 1 && WellFormed(cap, n)
    decreases |js|, 1
  {
    js == [] || (cursor <= js[0] < |hs| && hs[js[0]] && PathRest(cap, js, hs, d, q, n, coeffs))
  }

  /** The rest of a search path: js[1..] is a path from cap + [point js[0]],
      from js[0] + 1 on, through the list updated for that point. */
  predicate PathRest(cap: seq<Vec>, js: seq<nat>, hs: seq<bool>, d: nat, q: nat, n: nat, coeffs: set<seq<int>>)
    requires q >= 1 && WellFormed(cap, n) && js != []
    decreases |js|, 0
  {
    var next := Extended(cap, js[0], n, q);
    SearchPath(next, js[1..], Updated(next, hs, d, q, n, coeffs), js[0] + 1, d, q, n, coeffs)
  }

  function Max(a: int, b: int): int {
    if a < b then b else a
  }

  /** The length of the longest cap the search reaches from cap when it
      tries the indices from cursor on against the validity list hs: the
      cap itself when no index is valid, else the longest of the branches
      at the valid indices. */
  function Reach(cap: seq<Vec>, cursor: nat, hs: seq<bool>, d: nat, q: nat, n: nat, coeffs: set<seq<int>>): (r: nat)
    requires q >= 1 && WellFormed(cap, n)
    ensures r >= |cap|
    decreases |hs| - cursor, 1
  {
    if cursor >= |hs| then |cap|
    else
      var rest := Reach(cap, cursor + 1, hs, d, q, n, coeffs);
      if hs[cursor] then Max(rest, Branch(cap, cursor, hs, d, q, n, coeffs)) else rest
  }

  /** The length the branch at index i reaches: what the search reaches from
      cap + [point i], from i + 1 on, through the list updated for that
      point. */
  function Branch(cap: seq<Vec>, i: nat, hs: seq<bool>, d: nat, q: nat, n: nat, coeffs: set<seq<int>>): (r: nat)
    requires q >= 1 && WellFormed(cap, n) && i < |hs|
    ensures r > |cap|
    decreases |hs| - i, 0
  {
    var next := Extended(cap, i, n, q);
    Reach(next, i + 1, Updated(next, hs, d, q, n, coeffs), d, q, n, coeffs)
  }

  /** The validity update find_maximum_cap makes after an append. */
  method ExtendValidset(cap: seq<Vec>, hashset: seq<bool>, d: nat, q: nat, n: nat, coeffs: set<seq<int>>)
    returns (vsNew: seq<bool>)
    requires q >= 1 && |hashset| == Pow(q, n) && WellFormed(cap, n) && cap != []
    ensures GroupsWellFormed(SearchGroups(cap, d), n)
    ensures |vsNew| == |hashset|
    ensures forall j :: 0 <= j < |vsNew| ==>
              (vsNew[j] <==> hashset[j] && j !in EliminatedBy(q, n, coeffs, SearchGroups(cap, d)))
    ensures vsNew == Updated(cap, hashset, d, q, n, coeffs)
  {
    if |cap| > d {
      vsNew := UpdateValidset(cap, hashset, d, q, n, coeffs);
    } else {
      vsNew := CompleteUpdateValidset(cap, hashset, |cap|, q, n, coeffs);
    }
  }

  /** find_maximum_cap. Tries every index from cursor upwards; for each one
      valid in hashset it appends the point, updates the validity list (the
      incremental update once the cap holds more than d points, else the full
      recomputation with the cap length as its d), searches on from the next
      index over a copy of the cap and pops the point again. A strictly longer
      result replaces the best cap and restarts the list of caps; a result at
      least as long as the best is appended to that list. The ghost results
      give the indices each returned cap was grown by. */
  method FindMaximumCap(n: nat, q: nat, d: nat, coeffs: set<seq<int>>, cap: Cap, cursor: nat,
                        hashset: seq<bool>, caps: seq<seq<Vec>>, depth: seq<nat>)
    returns (best: seq<Vec>, bestCaps: seq<seq<Vec>>, ghost bestIdx: seq<nat>, ghost capsIdx: seq<seq<nat>>)
    requires q >= 1 && |hashset| == Pow(q, n) && WellFormed(cap.points, n)
    modifies cap
    decreases Pow(q, n) - cursor, 2
    ensures cap.points == old(cap.points)
    ensures Grown(old(cap.points), bestIdx, best, cursor, hashset, n, q)
    ensures |best| > |old(cap.points)| <==> exists i :: cursor <= i < |hashset| && hashset[i]
    ensures |best| == |old(cap.points)| ==>
              best == old(cap.points) && bestCaps == if |depth| == 0 && caps == [] then [best] else caps
    ensures SearchPath(old(cap.points), bestIdx, hashset, cursor, d, q, n, coeffs)
    ensures |best| == Reach(old(cap.points), cursor, hashset, d, q, n, coeffs)
    ensures Least(old(cap.points), bestIdx, hashset, cursor, |best|, d, q, n, coeffs)
    ensures |best| > |old(cap.points)| ==>
              TiedCaps(old(cap.points), best, bestCaps, capsIdx, cursor, |hashset|, hashset, d, q, n, coeffs)
  {
    ghost var entry := cap.points;
    best, bestCaps := cap.points, caps;
    bestIdx, capsIdx := [], [];
    var i := cursor;
    ScanStart(entry, cursor, hashset, caps, d, q, n, coeffs);
    while i < Pow(q, n)
      invariant cap.points == entry
      invariant cursor <= i && (i <= Pow(q, n) || i == cursor)
      invariant Scanned(entry, best, bestCaps, bestIdx, capsIdx, cursor, i, hashset, caps, d, q, n, coeffs)
    {
      best, bestCaps, bestIdx, capsIdx :=
        TryIndex(n, q, d, coeffs, cap, cursor, i, hashset, caps, depth, best, bestCaps, bestIdx, capsIdx);
      i := i + 1;
    }
    ScanDone(entry, best, bestCaps, bestIdx, capsIdx, cursor, i, hashset, caps, d, q, n, coeffs);
    if |depth| == 0 && bestCaps == [] {
      bestCaps := bestCaps + [best];
    }
  }

  /** Some index in [lo, hi) is valid in hs, checked from the top down. */
  predicate ValidBetween(hs: seq<bool>, lo: nat, hi: nat)
    decreases hi
  {
    lo < hi && ((hi - 1 < |hs| && hs[hi - 1]) || ValidBetween(hs, lo, hi - 1))
  }

  lemma {:induction false} ValidBetweenExists(hs: seq<bool>, lo: nat, hi: nat)
    ensures ValidBetween(hs, lo, hi) <==> exists j :: lo <= j < hi && j < |hs| && hs[j]
    decreases hi
  {
    if lo < hi {
      ValidBetweenExists(hs, lo, hi - 1);
    }
  }

  /** One pass of the loop of find_maximum_cap, at index i: a valid index
      is searched as a branch and its result recorded; any other index is
      passed over. */
  method TryIndex(n: nat, q: nat, d: nat, coeffs: set<seq<int>>, cap: Cap, cursor: nat, i: nat,
                  hashset: seq<bool>, caps: seq<seq<Vec>>, depth: seq<nat>, best: seq<Vec>,
                  bestCaps: seq<seq<Vec>>, ghost bestIdx: seq<nat>, ghost capsIdx: seq<seq<nat>>)
    returns (newBest: seq<Vec>, newCaps: seq<seq<Vec>>, ghost newIdx: seq<nat>, ghost newCapsIdx: seq<seq<nat>>)
    requires q >= 1 && |hashset| == Pow(q, n) && WellFormed(cap.points, n) && cursor <= i < |hashset|
    requires Scanned(cap.points, best, bestCaps, bestIdx, capsIdx, cursor, i, hashset, caps, d, q, n, coeffs)
    modifies cap
    decreases Pow(q, n) - i, 1
    ensures cap.points == old(cap.points)
    ensures Scanned(old(cap.points), newBest, newCaps, newIdx, newCapsIdx, cursor, i + 1, hashset, caps, d, q, n, coeffs)
  {
    if hashset[i] {
      var maximal, idx := SearchBranch(n, q, d, coeffs, cap, cursor, i, hashset, caps, depth);
      newBest, newCaps, newIdx, newCapsIdx :=
        Record(cap.points, best, bestCaps, bestIdx, capsIdx, maximal, idx, cursor, i, hashset, caps, d, q, n, coeffs);
    } else {
      newBest, newCaps, newIdx, newCapsIdx := best, bestCaps, bestIdx, capsIdx;
      SkipStep(cap.points, best, bestCaps, bestIdx, capsIdx, cursor, i, hashset, caps, d, q, n, coeffs);
    }
  }

  /** What the loop of find_maximum_cap knows once it has tried the indices
      cursor .. i - 1: the best cap is grown along a search path, it is
      longer than the entry cap exactly when one of those indices was valid,
      together with the reach from i it gives the reach from cursor, and the
      list of caps is the accumulator until a longer cap is found. */
  ghost predicate Scanned(entry: seq<Vec>, best: seq<Vec>, bestCaps: seq<seq<Vec>>, bestIdx: seq<nat>,
                          capsIdx: seq<seq<nat>>, cursor: nat, i: nat, hashset: seq<bool>,
                          caps: seq<seq<Vec>>, d: nat, q: nat, n: nat, coeffs: set<seq<int>>)
    requires q >= 1 && WellFormed(entry, n)
  {
    && Grown(entry, bestIdx, best, cursor, hashset, n, q)
    && (|best| > |entry| <==> ValidBetween(hashset, cursor, i))
    && (|best| == |entry| ==> bestCaps == caps)
    && SearchPath(entry, bestIdx, hashset, cursor, d, q, n, coeffs)
    && Max(|best|, Reach(entry, i, hashset, d, q, n, coeffs)) == Reach(entry, cursor, hashset, d, q, n, coeffs)
    && (|best| > |entry| ==> TiedCaps(entry, best, bestCaps, capsIdx, cursor, i, hashset, d, q, n, coeffs))
    && (|best| > |entry| ==> capsIdx != [] && capsIdx[0] == bestIdx)
    && BranchesBelow(entry, |best|, cursor, i, hashset, d, q, n, coeffs)
  }

  /** The bookkeeping after the branch at the valid index i returned maximal:
      a strictly longer cap becomes the best and restarts the list of caps, a
      cap at least as long as the best joins the list, a shorter one changes
      nothing. The loop state then covers index i too. */
  method Record(ghost entry: seq<Vec>, best: seq<Vec>, bestCaps: seq<seq<Vec>>, ghost bestIdx: seq<nat>,
                ghost capsIdx: seq<seq<nat>>, maximal: seq<Vec>, ghost idx: seq<nat>, cursor: nat, i: nat,
                hashset: seq<bool>, caps: seq<seq<Vec>>, d: nat, q: nat, n: nat, coeffs: set<seq<int>>)
    returns (newBest: seq<Vec>, newCaps: seq<seq<Vec>>, ghost newIdx: seq<nat>, ghost newCapsIdx: seq<seq<nat>>)
    requires q >= 1 && WellFormed(entry, n) && cursor <= i < |hashset| && hashset[i]
    requires Scanned(entry, best, bestCaps, bestIdx, capsIdx, cursor, i, hashset, caps, d, q, n, coeffs)
    requires idx != [] && idx[0] == i && Grown(entry, idx, maximal, cursor, hashset, n, q)
    requires SearchPath(entry, idx, hashset, cursor, d, q, n, coeffs)
    requires |maximal| == Branch(entry, i, hashset, d, q, n, coeffs)
    requires LeastFrom(entry, idx, hashset, cursor, |maximal|, d, q, n, coeffs)
    ensures newBest == if |maximal| > |best| then maximal else best
    ensures newCaps == if |maximal| > |best| then [maximal]
                       else if |maximal| == |best| then bestCaps + [maximal] else bestCaps
    ensures Scanned(entry, newBest, newCaps, newIdx, newCapsIdx, cursor, i + 1, hashset, caps, d, q, n, coeffs)
  {
    newBest, newCaps, newIdx, newCapsIdx := best, bestCaps, bestIdx, capsIdx;
    ReachStep(entry, i, hashset, d, q, n, coeffs);
    if |maximal| > |best| {
      newCaps, newBest := [], maximal;
      newCapsIdx, newIdx := [], idx;
    }
    if |maximal| >= |best| {
      if newCaps != [] {
        TieStep(entry, newBest, newCaps, newCapsIdx, cursor, i, hashset, d, q, n, coeffs, maximal, idx);
      } else {
        ResetStep(entry, best, maximal, cursor, i, hashset, d, q, n, coeffs, idx);
      }
      newCaps := newCaps + [maximal];
      newCapsIdx := newCapsIdx + [idx];
    } else {
      TiedCapsBoundStep(entry, best, bestCaps, capsIdx, cursor, i, hashset, d, q, n, coeffs);
    }
    BranchesBelowStep(entry, |best|, |newBest|, cursor, i, hashset, d, q, n, coeffs);
    MaxStep(|best|, |newBest|, |maximal|, Reach(entry, i + 1, hashset, d, q, n, coeffs),
            Reach(entry, i, hashset, d, q, n, coeffs), Reach(entry, cursor, hashset, d, q, n, coeffs));
  }

  /** Before any index is tried the best cap is the entry cap and the list
      of caps is the accumulator. */
  lemma ScanStart(entry: seq<Vec>, cursor: nat, hashset: seq<bool>, caps: seq<seq<Vec>>,
                  d: nat, q: nat, n: nat, coeffs: set<seq<int>>)
    requires q >= 1 && WellFormed(entry, n)
    ensures Scanned(entry, entry, caps, [], [], cursor, cursor, hashset, caps, d, q, n, coeffs)
  {
    assert entry + Decode(n, q, []) == entry;
  }

  /** Once every index is tried, the loop state gives what find_maximum_cap
      promises: the best cap is the longest reach, longer than the entry cap
      exactly when some index was valid, and the list of caps ties with it. */
  lemma ScanDone(entry: seq<Vec>, best: seq<Vec>, bestCaps: seq<seq<Vec>>, bestIdx: seq<nat>,
                 capsIdx: seq<seq<nat>>, cursor: nat, i: nat, hashset: seq<bool>,
                 caps: seq<seq<Vec>>, d: nat, q: nat, n: nat, coeffs: set<seq<int>>)
    requires q >= 1 && WellFormed(entry, n) && cursor <= i && |hashset| <= i && (i == |hashset| || i == cursor)
    requires Scanned(entry, best, bestCaps, bestIdx, capsIdx, cursor, i, hashset, caps, d, q, n, coeffs)
    ensures Grown(entry, bestIdx, best, cursor, hashset, n, q)
    ensures |best| > |entry| <==> exists j :: cursor <= j < |hashset| && hashset[j]
    ensures |best| == |entry| ==> best == entry && bestCaps == caps
    ensures SearchPath(entry, bestIdx, hashset, cursor, d, q, n, coeffs)
    ensures |best| == Reach(entry, cursor, hashset, d, q, n, coeffs)
    ensures Least(entry, bestIdx, hashset, cursor, |best|, d, q, n, coeffs)
    ensures |best| > |entry| ==> TiedCaps(entry, best, bestCaps, capsIdx, cursor, |hashset|, hashset, d, q, n, coeffs)
  {
    ValidBetweenExists(hashset, cursor, i);
    if |best| == |entry| {
      assert Decode(n, q, bestIdx) == [];
    } else {
      FirstTieIsBest(entry, best, bestCaps, capsIdx, cursor, i, hashset, d, q, n, coeffs);
      LeastFound(entry, bestIdx, |best|, cursor, i, hashset, d, q, n, coeffs);
    }
  }

  /** The first tie's index list, least among the longest paths through its
      first index, is least among all the longest paths: every longest path
      starts with a tying index, and none ties before the first. */
  lemma LeastFound(entry: seq<Vec>, bestIdx: seq<nat>, len: nat, cursor: nat, bound: nat, hashset: seq<bool>,
                   d: nat, q: nat, n: nat, coeffs: set<seq<int>>)
    requires q >= 1 && WellFormed(entry, n) && |entry| < len && |hashset| <= bound && bestIdx != []
    requires LeastFrom(entry, bestIdx, hashset, cursor, len, d, q, n, coeffs)
    requires BranchesBelow(entry, len, cursor, bound, hashset, d, q, n, coeffs)
    requires forall j :: cursor <= j < bestIdx[0] && j < |hashset| && hashset[j] ==>
               Branch(entry, j, hashset, d, q, n, coeffs) != len
    ensures Least(entry, bestIdx, hashset, cursor, len, d, q, n, coeffs)
  {
    forall js | SearchPath(entry, js, hashset, cursor, d, q, n, coeffs) && |entry| + |js| == len
      ensures LexLeq(bestIdx, js)
    {
      var j := js[0];
      PathBranch(entry, js, hashset, cursor, d, q, n, coeffs);
      assert Branch(entry, j, hashset, d, q, n, coeffs) <= len;
      if j != bestIdx[0] {
        assert bestIdx[0] < j;
      }
    }
  }

  /** A non-empty search path starts at a valid index whose branch reaches
      at least the length of the cap the path grows. */
  lemma PathBranch(cap: seq<Vec>, js: seq<nat>, hs: seq<bool>, cursor: nat,
                   d: nat, q: nat, n: nat, coeffs: set<seq<int>>)
    requires q >= 1 && WellFormed(cap, n) && js != [] && SearchPath(cap, js, hs, cursor, d, q, n, coeffs)
    ensures cursor <= js[0] < |hs| && hs[js[0]]
    ensures |cap| + |js| <= Branch(cap, js[0], hs, d, q, n, coeffs)
  {
    PathTail(cap, js, hs, cursor, d, q, n, coeffs);
    var next := Extended(cap, js[0], n, q);
    ReachBound(next, js[1..], Updated(next, hs, d, q, n, coeffs), js[0] + 1, d, q, n, coeffs);
  }

  /** An index that is not valid leaves the loop state as it was, now
      covering that index too. */
  lemma SkipStep(entry: seq<Vec>, best: seq<Vec>, bestCaps: seq<seq<Vec>>, bestIdx: seq<nat>,
                 capsIdx: seq<seq<nat>>, cursor: nat, i: nat, hashset: seq<bool>,
                 caps: seq<seq<Vec>>, d: nat, q: nat, n: nat, coeffs: set<seq<int>>)
    requires q >= 1 && WellFormed(entry, n) && cursor <= i < |hashset| && !hashset[i]
    requires Scanned(entry, best, bestCaps, bestIdx, capsIdx, cursor, i, hashset, caps, d, q, n, coeffs)
    ensures Scanned(entry, best, bestCaps, bestIdx, capsIdx, cursor, i + 1, hashset, caps, d, q, n, coeffs)
  {
    ReachStep(entry, i, hashset, d, q, n, coeffs);
    if |best| > |entry| {
      TiedCapsBoundStep(entry, best, bestCaps, capsIdx, cursor, i, hashset, d, q, n, coeffs);
    }
    BranchesBelowStep(entry, |best|, |best|, cursor, i, hashset, d, q, n, coeffs);
  }

  /** One branch of find_maximum_cap, for a valid index i: appends point i,
      updates the validity list, searches on from i + 1 over a copy of the
      cap and pops the point again. The ghost result gives the indices the
      returned cap was grown by. */
  method SearchBranch(n: nat, q: nat, d: nat, coeffs: set<seq<int>>, cap: Cap, cursor: nat, i: nat,
                      hashset: seq<bool>, caps: seq<seq<Vec>>, depth: seq<nat>)
    returns (maximal: seq<Vec>, ghost idx: seq<nat>)
    requires q >= 1 && |hashset| == Pow(q, n) && WellFormed(cap.points, n)
    requires cursor <= i < |hashset| && hashset[i]
    modifies cap
    decreases Pow(q, n) - i, 0
    ensures cap.points == old(cap.points)
    ensures idx != [] && idx[0] == i && Grown(old(cap.points), idx, maximal, cursor, hashset, n, q)
    ensures SearchPath(old(cap.points), idx, hashset, cursor, d, q, n, coeffs)
    ensures |maximal| == Branch(old(cap.points), i, hashset, d, q, n, coeffs)
    ensures LeastFrom(old(cap.points), idx, hashset, cursor, |maximal|, d, q, n, coeffs)
  {
    ghost var entry := cap.points;
    var vec := IndexToVector(n, q, i);
    cap.Append(vec);
    var vsNew := ExtendValidset(cap.points, hashset, d, q, n, coeffs);
    var child := cap.Copy();
    var childMax, _, childIdx, _ := FindMaximumCap(n, q, d, coeffs, child, i + 1, vsNew, caps, depth + [i]);
    maximal := childMax;
    var _ := cap.Pop();
    assert (entry + [vec])[..|entry|] == entry;
    idx := [i] + childIdx;
    BranchStep(entry, i, childIdx, maximal, cursor, hashset, vsNew, d, q, n, coeffs);
    BranchLeast(entry, i, childIdx, |maximal|, cursor, hashset, vsNew, d, q, n, coeffs);
  }

  /** The least longest path of the recursive call, behind i, is least among
      the paths from entry of that length that start with i. */
  lemma BranchLeast(entry: seq<Vec>, i: nat, childIdx: seq<nat>, len: nat, cursor: nat,
                    hashset: seq<bool>, vsNew: seq<bool>, d: nat, q: nat, n: nat, coeffs: set<seq<int>>)
    requires q >= 1 && WellFormed(entry, n)
    requires vsNew == Updated(entry + [IndexToVector(n, q, i)], hashset, d, q, n, coeffs)
    requires Least(entry + [IndexToVector(n, q, i)], childIdx, vsNew, i + 1, len, d, q, n, coeffs)
    ensures LeastFrom(entry, [i] + childIdx, hashset, cursor, len, d, q, n, coeffs)
  {
    assert Extended(entry, i, n, q) == entry + [IndexToVector(n, q, i)];
    forall js | SearchPath(entry, js, hashset, cursor, d, q, n, coeffs) && |entry| + |js| == len &&
                js != [] && js[0] == i
      ensures LexLeq([i] + childIdx, js)
    {
      PathTail(entry, js, hashset, cursor, d, q, n, coeffs);
      assert ([i] + childIdx)[1..] == childIdx;
    }
  }

  /** What the recursive call returns for the branch at i, from
      entry + [point i] through the list updated for that point, is what the
      branch promises from entry through the list before the update. */
  lemma BranchStep(entry: seq<Vec>, i: nat, childIdx: seq<nat>, maximal: seq<Vec>, cursor: nat,
                   hashset: seq<bool>, vsNew: seq<bool>, d: nat, q: nat, n: nat, coeffs: set<seq<int>>)
    requires q >= 1 && WellFormed(entry, n) && cursor <= i < |hashset| && hashset[i]
    requires vsNew == Updated(entry + [IndexToVector(n, q, i)], hashset, d, q, n, coeffs)
    requires Grown(entry + [IndexToVector(n, q, i)], childIdx, maximal, i + 1, vsNew, n, q)
    requires SearchPath(entry + [IndexToVector(n, q, i)], childIdx, vsNew, i + 1, d, q, n, coeffs)
    requires |maximal| == Reach(entry + [IndexToVector(n, q, i)], i + 1, vsNew, d, q, n, coeffs)
    ensures Grown(entry, [i] + childIdx, maximal, cursor, hashset, n, q)
    ensures SearchPath(entry, [i] + childIdx, hashset, cursor, d, q, n, coeffs)
    ensures |maximal| == Branch(entry, i, hashset, d, q, n, coeffs)
  {
    assert Extended(entry, i, n, q) == entry + [IndexToVector(n, q, i)];
    GrowStep(entry, i, childIdx, maximal, cursor, hashset, vsNew, n, q);
    PathStep(entry, i, childIdx, cursor, hashset, d, q, n, coeffs);
  }

  /** A cap the recursive call grew from entry + [point i] through indices
      valid in the updated list was grown from entry through i and those
      indices, all valid in the list before the update. */
  lemma GrowStep(entry: seq<Vec>, i: nat, childIdx: seq<nat>, maximal: seq<Vec>,
                 cursor: nat, hashset: seq<bool>, vsNew: seq<bool>, n: nat, q: nat)
    requires q >= 1 && cursor <= i < |hashset| && hashset[i] && |vsNew| == |hashset|
    requires forall j :: 0 <= j < |vsNew| && vsNew[j] ==> hashset[j]
    requires Grown(entry + [IndexToVector(n, q, i)], childIdx, maximal, i + 1, vsNew, n, q)
    ensures Grown(entry, [i] + childIdx, maximal, cursor, hashset, n, q)
    ensures |maximal| > |entry|
  {
    assert Decode(n, q, [i] + childIdx) == [IndexToVector(n, q, i)] + Decode(n, q, childIdx);
    assert ([i] + childIdx)[1..] == childIdx;
  }

  /** The recursive call's path from entry + [point i], through the list
      updated for that point, makes [i] followed by it a path from entry. */
  lemma PathStep(entry: seq<Vec>, i: nat, childIdx: seq<nat>, cursor: nat, hashset: seq<bool>,
                 d: nat, q: nat, n: nat, coeffs: set<seq<int>>)
    requires q >= 1 && WellFormed(entry, n) && cursor <= i < |hashset| && hashset[i]
    requires var next := Extended(entry, i, n, q);
             SearchPath(next, childIdx, Updated(next, hashset, d, q, n, coeffs), i + 1, d, q, n, coeffs)
    ensures SearchPath(entry, [i] + childIdx, hashset, cursor, d, q, n, coeffs)
  {
    assert ([i] + childIdx)[1..] == childIdx;
  }

  /** Growing by the first p indices of js is growing the cap extended by
      the first index by the p - 1 indices after it. */
  lemma GrowPrefix(cap: seq<Vec>, js: seq<nat>, p: nat, n: nat, q: nat)
    requires q >= 1 && WellFormed(cap, n) && 1 <= p <= |js|
    ensures Grow(cap, js[..p], n, q) == Grow(Extended(cap, js[0], n, q), js[1..][..p - 1], n, q)
  {
    assert Decode(n, q, js[..p]) == [IndexToVector(n, q, js[0])] + Decode(n, q, js[1..][..p - 1]);
  }

  /** A non-empty search path starts with a valid index from the cursor on,
      and its rest is a search path from the extended cap through the
      updated list. */
  lemma PathTail(cap: seq<Vec>, js: seq<nat>, hs: seq<bool>, cursor: nat,
                 d: nat, q: nat, n: nat, coeffs: set<seq<int>>)
    requires q >= 1 && WellFormed(cap, n) && js != [] && SearchPath(cap, js, hs, cursor, d, q, n, coeffs)
    ensures cursor <= js[0] < |hs| && hs[js[0]]
    ensures var next := Extended(cap, js[0], n, q);
            SearchPath(next, js[1..], Updated(next, hs, d, q, n, coeffs), js[0] + 1, d, q, n, coeffs)
  {
    assert PathRest(cap, js, hs, d, q, n, coeffs);
  }

  /** Along a search path every index is at least the cursor and valid in
      the list the path starts from. */
  lemma {:induction false} PathValid(cap: seq<Vec>, js: seq<nat>, hs: seq<bool>, cursor: nat,
                                     d: nat, q: nat, n: nat, coeffs: set<seq<int>>)
    requires q >= 1 && WellFormed(cap, n) && SearchPath(cap, js, hs, cursor, d, q, n, coeffs)
    ensures forall k :: 0 <= k < |js| ==> cursor <= js[k] < |hs| && hs[js[k]]
    decreases |js|
  {
    if js != [] {
      var i, rest := js[0], js[1..];
      var next := Extended(cap, i, n, q);
      var hsNext := Updated(next, hs, d, q, n, coeffs);
      PathTail(cap, js, hs, cursor, d, q, n, coeffs);
      PathValid(next, rest, hsNext, i + 1, d, q, n, coeffs);
      forall k | 0 <= k < |js|
        ensures cursor <= js[k] < |hs| && hs[js[k]]
      {
        if k > 0 {
          assert js[k] == rest[k - 1];
        }
      }
    }
  }

  /** Along a search path no index is cleared by the update after an
      earlier append. */
  lemma {:induction false} PathPruned(cap: seq<Vec>, js: seq<nat>, hs: seq<bool>, cursor: nat,
                                      d: nat, q: nat, n: nat, coeffs: set<seq<int>>)
    requires q >= 1 && WellFormed(cap, n) && SearchPath(cap, js, hs, cursor, d, q, n, coeffs)
    ensures Pruned(cap, js, d, q, n, coeffs)
    decreases |js|
  {
    if js != [] {
      var i, rest := js[0], js[1..];
      var next := Extended(cap, i, n, q);
      var hsNext := Updated(next, hs, d, q, n, coeffs);
      PathTail(cap, js, hs, cursor, d, q, n, coeffs);
      PathPruned(next, rest, hsNext, i + 1, d, q, n, coeffs);
      PathValid(next, rest, hsNext, i + 1, d, q, n, coeffs);
      PrunedFromRest(cap, js, hs, d, q, n, coeffs);
    }
  }

  /** A path whose rest is valid in the updated list and escapes the later
      updates escapes them as a whole. */
  lemma PrunedFromRest(cap: seq<Vec>, js: seq<nat>, hs: seq<bool>, d: nat, q: nat, n: nat, coeffs: set<seq<int>>)
    requires q >= 1 && WellFormed(cap, n) && js != []
    requires var next := Extended(cap, js[0], n, q);
             var hsNext := Updated(next, hs, d, q, n, coeffs);
             && (forall m :: 0 <= m < |js| - 1 ==> js[1..][m] < |hsNext| && hsNext[js[1..][m]])
             && Pruned(next, js[1..], d, q, n, coeffs)
    ensures Pruned(cap, js, d, q, n, coeffs)
  {
    forall p, k | 1 <= p <= k < |js|
      ensures js[k] !in Pruning(Grow(cap, js[..p], n, q), d, q, n, coeffs)
    {
      PrunedStep(cap, js, hs, p, k, d, q, n, coeffs);
    }
  }

  /** The pruning of one later index of js by the cap after its first p
      indices, from the same fact about the rest of the path. */
  lemma PrunedStep(cap: seq<Vec>, js: seq<nat>, hs: seq<bool>, p: nat, k: nat,
                   d: nat, q: nat, n: nat, coeffs: set<seq<int>>)
    requires q >= 1 && WellFormed(cap, n) && 1 <= p <= k < |js|
    requires var next := Extended(cap, js[0], n, q);
             var hsNext := Updated(next, hs, d, q, n, coeffs);
             && (forall m :: 0 <= m < |js| - 1 ==> js[1..][m] < |hsNext| && hsNext[js[1..][m]])
             && Pruned(next, js[1..], d, q, n, coeffs)
    ensures js[k] !in Pruning(Grow(cap, js[..p], n, q), d, q, n, coeffs)
  {
    var next, rest := Extended(cap, js[0], n, q), js[1..];
    var hsNext := Updated(next, hs, d, q, n, coeffs);
    assert js[k] == rest[k - 1];
    GrowPrefix(cap, js, p, n, q);
    if p == 1 {
      assert Grow(next, rest[..0], n, q) == next;
      assert hsNext[rest[k - 1]];
    } else {
      assert rest[k - 1] !in Pruning(Grow(next, rest[..p - 1], n, q), d, q, n, coeffs);
    }
  }

  /** One step of the loop of find_maximum_cap: the reach from index i is
      the larger of the reach from i + 1 and what the branch at i reaches. */
  lemma ReachStep(cap: seq<Vec>, i: nat, hs: seq<bool>, d: nat, q: nat, n: nat, coeffs: set<seq<int>>)
    requires q >= 1 && WellFormed(cap, n) && i < |hs|
    ensures Reach(cap, i, hs, d, q, n, coeffs)
              == Max(Reach(cap, i + 1, hs, d, q, n, coeffs), if hs[i] then Branch(cap, i, hs, d, q, n, coeffs) else |cap|)
  {
  }

  /** Starting later never reaches further. */
  lemma {:induction false} ReachMonotone(cap: seq<Vec>, c1: nat, c2: nat, hs: seq<bool>,
                                         d: nat, q: nat, n: nat, coeffs: set<seq<int>>)
    requires q >= 1 && WellFormed(cap, n) && c1 <= c2
    ensures Reach(cap, c2, hs, d, q, n, coeffs) <= Reach(cap, c1, hs, d, q, n, coeffs)
    decreases c2 - c1
  {
    if c1 < c2 && c1 < |hs| {
      ReachMonotone(cap, c1 + 1, c2, hs, d, q, n, coeffs);
    }
  }

  /** No search path from cap, from cursor on, grows it beyond Reach: the
      length Reach gives, which find_maximum_cap's best cap attains, is the
      longest any sequence of valid choices reaches. */
  lemma {:induction false} ReachBound(cap: seq<Vec>, js: seq<nat>, hs: seq<bool>, cursor: nat,
                                      d: nat, q: nat, n: nat, coeffs: set<seq<int>>)
    requires q >= 1 && WellFormed(cap, n) && SearchPath(cap, js, hs, cursor, d, q, n, coeffs)
    ensures |cap| + |js| <= Reach(cap, cursor, hs, d, q, n, coeffs)
    decreases |js|
  {
    if js != [] {
      var i := js[0];
      var next := Extended(cap, i, n, q);
      var hsNext := Updated(next, hs, d, q, n, coeffs);
      PathTail(cap, js, hs, cursor, d, q, n, coeffs);
      ReachBound(next, js[1..], hsNext, i + 1, d, q, n, coeffs);
      BranchCoversPath(cap, cursor, i, |js| - 1, hs, d, q, n, coeffs);
    }
  }

  /** A path of m more indices after a valid index i, reaching at most what
      the branch at i reaches, stays within the reach from cursor. */
  lemma BranchCoversPath(cap: seq<Vec>, cursor: nat, i: nat, m: nat, hs: seq<bool>,
                         d: nat, q: nat, n: nat, coeffs: set<seq<int>>)
    requires q >= 1 && WellFormed(cap, n) && cursor <= i < |hs| && hs[i]
    requires var next := Extended(cap, i, n, q);
             |next| + m <= Reach(next, i + 1, Updated(next, hs, d, q, n, coeffs), d, q, n, coeffs)
    ensures |cap| + 1 + m <= Reach(cap, cursor, hs, d, q, n, coeffs)
  {
    ReachCoversBranch(cap, cursor, i, hs, d, q, n, coeffs);
  }

  /** The reach from cursor is at least what the branch at any valid index
      from cursor on reaches. */
  lemma ReachCoversBranch(cap: seq<Vec>, cursor: nat, i: nat, hs: seq<bool>,
                          d: nat, q: nat, n: nat, coeffs: set<seq<int>>)
    requires q >= 1 && WellFormed(cap, n) && cursor <= i < |hs| && hs[i]
    ensures Branch(cap, i, hs, d, q, n, coeffs) <= Reach(cap, cursor, hs, d, q, n, coeffs)
  {
    ReachStep(cap, i, hs, d, q, n, coeffs);
    ReachMonotone(cap, cursor, i, hs, d, q, n, coeffs);
  }

  /** The best length after one more branch is the larger of the best so
      far and that branch's length, so the loop's running maximum holds. */
  lemma MaxStep(before: int, after: int, branch: int, restNext: int, rest: int, total: int)
    requires Max(before, rest) == total && rest == Max(restNext, branch) && after == Max(before, branch)
    ensures Max(after, restNext) == total
  {
  }

  /** Appending a tie at index i keeps the list of caps in shape. */
  lemma TieStep(entry: seq<Vec>, best: seq<Vec>, bestCaps: seq<seq<Vec>>, capsIdx: seq<seq<nat>>,
                cursor: nat, i: nat, hashset: seq<bool>, d: nat, q: nat, n: nat, coeffs: set<seq<int>>,
                maximal: seq<Vec>, idx: seq<nat>)
    requires q >= 1 && WellFormed(entry, n)
    requires TiedCaps(entry, best, bestCaps, capsIdx, cursor, i, hashset, d, q, n, coeffs)
    requires idx != [] && idx[0] == i && |maximal| == |best| && Grown(entry, idx, maximal, cursor, hashset, n, q)
    requires SearchPath(entry, idx, hashset, cursor, d, q, n, coeffs)
    requires LeastFrom(entry, idx, hashset, cursor, |best|, d, q, n, coeffs)
    ensures TiedCaps(entry, best, bestCaps + [maximal], capsIdx + [idx], cursor, i + 1, hashset, d, q, n, coeffs)
  {
    CapsShapeStep(entry, |best|, bestCaps, capsIdx, cursor, i, hashset, d, q, n, coeffs, maximal, idx);
    TieListed(entry, |best|, capsIdx, idx, cursor, i, hashset, d, q, n, coeffs);
    CapsLeastStep(entry, capsIdx, idx, hashset, cursor, |best|, d, q, n, coeffs);
  }

  /** Listing an index list least among the paths with its first index keeps
      every listed one least. */
  lemma CapsLeastStep(entry: seq<Vec>, capsIdx: seq<seq<nat>>, idx: seq<nat>, hs: seq<bool>, cursor: nat,
                      len: nat, d: nat, q: nat, n: nat, coeffs: set<seq<int>>)
    requires q >= 1 && WellFormed(entry, n)
    requires CapsLeast(entry, capsIdx, hs, cursor, len, d, q, n, coeffs)
    requires LeastFrom(entry, idx, hs, cursor, len, d, q, n, coeffs)
    ensures CapsLeast(entry, capsIdx + [idx], hs, cursor, len, d, q, n, coeffs)
  {
    forall k | 0 <= k < |capsIdx| + 1
      ensures LeastFrom(entry, (capsIdx + [idx])[k], hs, cursor, len, d, q, n, coeffs)
    {
      if k < |capsIdx| {
        assert (capsIdx + [idx])[k] == capsIdx[k];
      }
    }
  }

  /** Appending a cap of length len grown along a search path from index i
      keeps the listed caps in shape up to i + 1. */
  lemma CapsShapeStep(entry: seq<Vec>, len: nat, bestCaps: seq<seq<Vec>>, capsIdx: seq<seq<nat>>,
                      cursor: nat, i: nat, hashset: seq<bool>, d: nat, q: nat, n: nat, coeffs: set<seq<int>>,
                      maximal: seq<Vec>, idx: seq<nat>)
    requires q >= 1 && WellFormed(entry, n)
    requires CapsShape(entry, len, bestCaps, capsIdx, cursor, i, hashset, d, q, n, coeffs)
    requires idx != [] && idx[0] == i && |maximal| == len && Grown(entry, idx, maximal, cursor, hashset, n, q)
    requires SearchPath(entry, idx, hashset, cursor, d, q, n, coeffs)
    ensures CapsShape(entry, len, bestCaps + [maximal], capsIdx + [idx], cursor, i + 1, hashset, d, q, n, coeffs)
  {
    var caps', idxs' := bestCaps + [maximal], capsIdx + [idx];
    forall k | 0 <= k < |caps'|
      ensures |caps'[k]| == len && Grown(entry, idxs'[k], caps'[k], cursor, hashset, n, q)
      ensures SearchPath(entry, idxs'[k], hashset, cursor, d, q, n, coeffs)
      ensures idxs'[k] != [] && idxs'[k][0] < i + 1
    {
      if k < |bestCaps| {
        assert caps'[k] == bestCaps[k] && idxs'[k] == capsIdx[k];
      }
    }
    forall k | 0 <= k < |idxs'| - 1
      ensures idxs'[k][0] < idxs'[k + 1][0]
    {
      if k + 1 < |capsIdx| {
        assert idxs'[k] == capsIdx[k] && idxs'[k + 1] == capsIdx[k + 1];
      }
    }
  }

  /** Listing a cap whose first index is i covers a tie at i. */
  lemma TieListed(entry: seq<Vec>, len: nat, capsIdx: seq<seq<nat>>, idx: seq<nat>, cursor: nat, i: nat,
                  hashset: seq<bool>, d: nat, q: nat, n: nat, coeffs: set<seq<int>>)
    requires q >= 1 && WellFormed(entry, n) && idx != [] && idx[0] == i
    requires TiesListed(entry, len, capsIdx, cursor, i, hashset, d, q, n, coeffs)
    ensures TiesListed(entry, len, capsIdx + [idx], cursor, i + 1, hashset, d, q, n, coeffs)
  {
    var idxs' := capsIdx + [idx];
    forall j | cursor <= j < i + 1 && j < |hashset| && hashset[j] && Branch(entry, j, hashset, d, q, n, coeffs) == len
      ensures exists k :: 0 <= k < |idxs'| && idxs'[k] != [] && idxs'[k][0] == j
    {
      if j == i {
        assert idxs'[|capsIdx|] == idx;
      } else {
        var k :| 0 <= k < |capsIdx| && capsIdx[k] != [] && capsIdx[k][0] == j;
        assert idxs'[k] == capsIdx[k];
      }
    }
  }

  /** The first cap strictly longer than the previous best starts a new list
      of caps holding it alone. */
  lemma ResetStep(entry: seq<Vec>, best: seq<Vec>, maximal: seq<Vec>, cursor: nat, i: nat, hashset: seq<bool>,
                  d: nat, q: nat, n: nat, coeffs: set<seq<int>>, idx: seq<nat>)
    requires q >= 1 && WellFormed(entry, n) && |best| < |maximal|
    requires BranchesBelow(entry, |best|, cursor, i, hashset, d, q, n, coeffs)
    requires idx != [] && idx[0] == i && Grown(entry, idx, maximal, cursor, hashset, n, q)
    requires SearchPath(entry, idx, hashset, cursor, d, q, n, coeffs)
    requires LeastFrom(entry, idx, hashset, cursor, |maximal|, d, q, n, coeffs)
    ensures TiedCaps(entry, maximal, [] + [maximal], [] + [idx], cursor, i + 1, hashset, d, q, n, coeffs)
  {
    ResetListed(entry, |best|, |maximal|, idx, cursor, i, hashset, d, q, n, coeffs);
    CapsShapeStep(entry, |maximal|, [], [], cursor, i, hashset, d, q, n, coeffs, maximal, idx);
    CapsLeastStep(entry, [], idx, hashset, cursor, |maximal|, d, q, n, coeffs);
  }

  /** After a reset to a cap of length len with first index i, the only tie
      up to i is i itself, since every earlier branch reached at most the
      shorter previous best. */
  lemma ResetListed(entry: seq<Vec>, before: nat, len: nat, idx: seq<nat>, cursor: nat, i: nat,
                    hashset: seq<bool>, d: nat, q: nat, n: nat, coeffs: set<seq<int>>)
    requires q >= 1 && WellFormed(entry, n) && before < len && idx != [] && idx[0] == i
    requires BranchesBelow(entry, before, cursor, i, hashset, d, q, n, coeffs)
    ensures TiesListed(entry, len, [] + [idx], cursor, i + 1, hashset, d, q, n, coeffs)
  {
    forall j | cursor <= j < i + 1 && j < |hashset| && hashset[j] && Branch(entry, j, hashset, d, q, n, coeffs) == len
      ensures exists k :: 0 <= k < 1 && ([] + [idx])[k] != [] && ([] + [idx])[k][0] == j
    {
      assert ([] + [idx])[0] == idx;
    }
  }

  /** An index whose branch does not tie with the best keeps the list of
      caps in shape. */
  lemma TiedCapsBoundStep(entry: seq<Vec>, best: seq<Vec>, bestCaps: seq<seq<Vec>>, capsIdx: seq<seq<nat>>,
                          cursor: nat, i: nat, hashset: seq<bool>, d: nat, q: nat, n: nat, coeffs: set<seq<int>>)
    requires q >= 1 && WellFormed(entry, n)
    requires TiedCaps(entry, best, bestCaps, capsIdx, cursor, i, hashset, d, q, n, coeffs)
    requires i < |hashset| && hashset[i] ==> Branch(entry, i, hashset, d, q, n, coeffs) != |best|
    ensures TiedCaps(entry, best, bestCaps, capsIdx, cursor, i + 1, hashset, d, q, n, coeffs)
  {
    TiesListedStep(entry, |best|, capsIdx, cursor, i, hashset, d, q, n, coeffs);
  }

  /** An index whose branch does not reach len adds no tie to list. */
  lemma TiesListedStep(entry: seq<Vec>, len: nat, capsIdx: seq<seq<nat>>, cursor: nat, i: nat,
                       hashset: seq<bool>, d: nat, q: nat, n: nat, coeffs: set<seq<int>>)
    requires q >= 1 && WellFormed(entry, n)
    requires TiesListed(entry, len, capsIdx, cursor, i, hashset, d, q, n, coeffs)
    requires i < |hashset| && hashset[i] ==> Branch(entry, i, hashset, d, q, n, coeffs) != len
    ensures TiesListed(entry, len, capsIdx, cursor, i + 1, hashset, d, q, n, coeffs)
  {
    forall j | cursor <= j < i + 1 && j < |hashset| && hashset[j] && Branch(entry, j, hashset, d, q, n, coeffs) == len
      ensures exists k :: 0 <= k < |capsIdx| && capsIdx[k] != [] && capsIdx[k][0] == j
    {
      assert j < i;
    }
  }

  /** Once the branch at i is covered too, every branch so far reaches at
      most the new best length. */
  lemma BranchesBelowStep(entry: seq<Vec>, len: nat, newLen: nat, cursor: nat, i: nat, hashset: seq<bool>,
                          d: nat, q: nat, n: nat, coeffs: set<seq<int>>)
    requires q >= 1 && WellFormed(entry, n) && len <= newLen
    requires BranchesBelow(entry, len, cursor, i, hashset, d, q, n, coeffs)
    requires i < |hashset| && hashset[i] ==> Branch(entry, i, hashset, d, q, n, coeffs) <= newLen
    ensures BranchesBelow(entry, newLen, cursor, i + 1, hashset, d, q, n, coeffs)
  {
    forall j | cursor <= j < i + 1 && j < |hashset| && hashset[j]
      ensures Branch(entry, j, hashset, d, q, n, coeffs) <= newLen
    {
      if j != i {
        assert j < i;
      }
    }
  }

  /** The starting cap of save_caps: the origin followed by the n standard
      basis vectors. */
  function InitialCap(n: nat): (cap: seq<Vec>)
    ensures |cap| == n + 1 && WellFormed(cap, n)
  {
    [Zero(n)] + seq(n, i requires 0 <= i < n => Basis(n, i))
  }

  /** The indices the full recomputation for the starting cap clears. */
  function StartPruning(d: nat, q: nat, n: nat): set<nat>
    requires q >= 1
  {
    CompleteGroupsWellFormed(InitialCap(n), d, n);
    EliminatedBy(q, n, GenerateCoeffs(d, q), CompleteGroups(InitialCap(n), d))
  }

  /** The validity list the first full recomputation leaves: an index is
      valid exactly when no group of the starting cap reaches it. */
  function StartList(d: nat, q: nat, n: nat): (r: seq<bool>)
    requires q >= 1
    ensures |r| == Pow(q, n)
  {
    seq(Pow(q, n), j => j !in StartPruning(d, q, n))
  }

  /** A cap the search returns from the starting cap: grown by indices from
      1 on that the starting recomputation left valid, each escaping the
      updates after the earlier appends. */
  ghost predicate SearchedFromStart(c: seq<Vec>, d: nat, q: nat, n: nat)
    requires q >= 1
  {
    exists js :: c == Grow(InitialCap(n), js, n, q) && Pruned(InitialCap(n), js, d, q, n, GenerateCoeffs(d, q)) &&
                 forall m :: 0 <= m < |js| ==> 1 <= js[m] && js[m] !in StartPruning(d, q, n)
  }

  /** The search part of save_caps(d, q, n): with d == n the starting cap is
      returned without searching; otherwise the validity list is recomputed
      in full for the starting cap and find_maximum_cap runs from index 1.
      The ghost results give the indices the returned caps were grown by. */
  method SaveCaps(d: nat, q: nat, n: nat)
    returns (best: seq<Vec>, caps: seq<seq<Vec>>, ghost bestIdx: seq<nat>, ghost capsIdx: seq<seq<nat>>)
    requires q >= 1
    ensures d == n ==> best == InitialCap(n) && caps == [best]
    ensures |caps| >= 1 && caps[0] == best && |best| >= n + 1
    ensures forall k :: 0 <= k < |caps| ==> |caps[k]| == |best| && caps[k][..n + 1] == InitialCap(n)
    ensures q >= 2 && d >= 1 ==> forall k :: 0 <= k < |caps| ==> NoRepeats(caps[k])
    ensures d != n ==> forall k :: 0 <= k < |caps| ==> SearchedFromStart(caps[k], d, q, n)
    ensures d != n ==> |best| == Reach(InitialCap(n), 1, StartList(d, q, n), d, q, n, GenerateCoeffs(d, q))
    ensures d != n ==> forall js :: SearchPath(InitialCap(n), js, StartList(d, q, n), 1, d, q, n, GenerateCoeffs(d, q)) ==>
                         n + 1 + |js| <= |best|
    ensures d != n ==> Grown(InitialCap(n), bestIdx, best, 1, StartList(d, q, n), n, q) &&
                       SearchPath(InitialCap(n), bestIdx, StartList(d, q, n), 1, d, q, n, GenerateCoeffs(d, q)) &&
                       Least(InitialCap(n), bestIdx, StartList(d, q, n), 1, |best|, d, q, n, GenerateCoeffs(d, q))
    ensures d != n && |best| > n + 1 ==>
              TiedCaps(InitialCap(n), best, caps, capsIdx, 1, Pow(q, n), StartList(d, q, n), d, q, n, GenerateCoeffs(d, q))
  {
    var validSet := seq(Pow(q, n), _ => true);
    var coeffs := GenerateCoeffs(d, q);
    var initial := InitialCap(n);
    if d == n {
      best := initial;
      caps := [best];
      bestIdx, capsIdx := [], [[]];
    } else {
      var starter := CompleteUpdateValidset(initial, validSet, d, q, n, coeffs);
      var cap := new Cap(initial);
      best, caps, bestIdx, capsIdx := FindMaximumCap(n, q, d, coeffs, cap, 1, starter, [], []);
      StarterIsStartList(d, q, n, validSet, starter);
      StartSearchBound(d, q, n, best);
      if |best| == |initial| {
        assert caps[0] == Grow(initial, [], n, q);
        if q >= 2 {
          InitialCapNoRepeats(n);
        }
      } else {
        TiedCapsSearched(d, q, n, starter, best, caps, capsIdx);
      }
    }
    if d == n && q >= 2 {
      InitialCapNoRepeats(n);
    }
  }

  // ---------------------------------------------------------------------
  // Lemmas

  /** The list the first full recomputation returns from the all-true list
      is StartList. */
  lemma StarterIsStartList(d: nat, q: nat, n: nat, validSet: seq<bool>, starter: seq<bool>)
    requires q >= 1 && validSet == seq(Pow(q, n), _ => true) && |starter| == |validSet|
    requires forall j :: 0 <= j < |starter| ==>
               (starter[j] <==> validSet[j] && j !in StartPruning(d, q, n))
    ensures starter == StartList(d, q, n)
  {
    forall j | 0 <= j < |starter|
      ensures starter[j] == StartList(d, q, n)[j]
    {
      assert validSet[j];
    }
  }

  /** No search path from the starting cap through the starting list grows
      it beyond a cap as long as the reach: the cap save_caps gets back is
      a longest one. */
  lemma StartSearchBound(d: nat, q: nat, n: nat, best: seq<Vec>)
    requires q >= 1 && |best| == Reach(InitialCap(n), 1, StartList(d, q, n), d, q, n, GenerateCoeffs(d, q))
    ensures forall js :: SearchPath(InitialCap(n), js, StartList(d, q, n), 1, d, q, n, GenerateCoeffs(d, q)) ==>
              n + 1 + |js| <= |best|
  {
    forall js | SearchPath(InitialCap(n), js, StartList(d, q, n), 1, d, q, n, GenerateCoeffs(d, q))
      ensures n + 1 + |js| <= |best|
    {
      ReachBound(InitialCap(n), js, StartList(d, q, n), 1, d, q, n, GenerateCoeffs(d, q));
    }
  }

  /** The best cap is the first tying branch found: no valid index before
      the first index of the first listed cap has a branch as long as the
      best, so later ties only join the list. */
  lemma FirstTieIsBest(entry: seq<Vec>, best: seq<Vec>, bestCaps: seq<seq<Vec>>, capsIdx: seq<seq<nat>>,
                       cursor: nat, bound: nat, hashset: seq<bool>, d: nat, q: nat, n: nat, coeffs: set<seq<int>>)
    requires q >= 1 && WellFormed(entry, n)
    requires TiedCaps(entry, best, bestCaps, capsIdx, cursor, bound, hashset, d, q, n, coeffs)
    ensures bestCaps[0] == best
    ensures forall j :: cursor <= j < capsIdx[0][0] && j < |hashset| && hashset[j] ==>
              Branch(entry, j, hashset, d, q, n, coeffs) != |best|
  {
    forall k | 0 <= k < |capsIdx|
      ensures capsIdx[0][0] <= capsIdx[k][0]
    {
      FirstIndexLeast(capsIdx, k);
    }
  }

  /** Consecutive first indices ascend, so the first is the least. */
  lemma {:induction false} FirstIndexLeast(capsIdx: seq<seq<nat>>, k: nat)
    requires forall m :: 0 <= m < |capsIdx| ==> capsIdx[m] != []
    requires forall m :: 0 <= m < |capsIdx| - 1 ==> capsIdx[m][0] < capsIdx[m + 1][0]
    requires k < |capsIdx|
    ensures capsIdx[0][0] <= capsIdx[k][0]
  {
    if k > 0 {
      FirstIndexLeast(capsIdx, k - 1);
    }
  }

  /** Every cap the top-level search lists was reached from the starting cap
      along a search path through the starting list, so it escapes every
      update the search made on the way. */
  lemma TiedCapsSearched(d: nat, q: nat, n: nat, starter: seq<bool>, best: seq<Vec>,
                         caps: seq<seq<Vec>>, capsIdx: seq<seq<nat>>)
    requires q >= 1 && |starter| == Pow(q, n)
    requires forall j :: 0 <= j < |starter| && starter[j] ==> j !in StartPruning(d, q, n)
    requires CapsShape(InitialCap(n), |best|, caps, capsIdx, 1, |starter|, starter, d, q, n, GenerateCoeffs(d, q))
    ensures forall k :: 0 <= k < |caps| ==> caps[k][..n + 1] == InitialCap(n)
    ensures forall k :: 0 <= k < |caps| ==> SearchedFromStart(caps[k], d, q, n)
    ensures q >= 2 && d >= 1 ==> forall k :: 0 <= k < |caps| ==> NoRepeats(caps[k])
  {
    CompleteGroupsWellFormed(InitialCap(n), d, n);
    assert StartPruning(d, q, n) == EliminatedBy(q, n, GenerateCoeffs(d, q), CompleteGroups(InitialCap(n), d));
    forall k | 0 <= k < |caps|
      ensures caps[k][..n + 1] == InitialCap(n)
      ensures SearchedFromStart(caps[k], d, q, n)
      ensures q >= 2 && d >= 1 ==> NoRepeats(caps[k])
    {
      PathValid(InitialCap(n), capsIdx[k], starter, 1, d, q, n, GenerateCoeffs(d, q));
      PathPruned(InitialCap(n), capsIdx[k], starter, 1, d, q, n, GenerateCoeffs(d, q));
      assert caps[k] == Grow(InitialCap(n), capsIdx[k], n, q);
      if q >= 2 && d >= 1 {
        ExtensionNoRepeats(d, q, n, starter, capsIdx[k]);
      }
    }
  }

  /** No point occurs twice in c. */
  predicate NoRepeats(c: seq<Vec>) {
    forall a, b :: 0 <= a < b < |c| ==> c[a] != c[b]
  }

  /** The origin and the n basis vectors are n + 1 distinct points. */
  lemma InitialCapNoRepeats(n: nat)
    ensures NoRepeats(InitialCap(n))
  {
    var cap := InitialCap(n);
    forall a, b | 0 <= a < b < |cap|
      ensures cap[a] != cap[b]
    {
      assert cap[b][b - 1] == 1;
      assert cap[a][b - 1] == 0;
    }
  }

  /** A cap the search grows from the starting cap through indices valid in
      the starter validity list repeats no point: the appended points are
      distinct by ascending index, and none of them is a starting point,
      because the full recomputation marked every starting point invalid. */
  lemma ExtensionNoRepeats(d: nat, q: nat, n: nat, starter: seq<bool>, js: seq<nat>)
    requires q >= 2 && d >= 1 && |starter| == Pow(q, n)
    requires GroupsWellFormed(CompleteGroups(InitialCap(n), d), n)
    requires forall j :: 0 <= j < |starter| && starter[j] ==>
               j !in EliminatedBy(q, n, GenerateCoeffs(d, q), CompleteGroups(InitialCap(n), d))
    requires Grown(InitialCap(n), js, InitialCap(n) + Decode(n, q, js), 1, starter, n, q)
    ensures NoRepeats(InitialCap(n) + Decode(n, q, js))
  {
    var c := InitialCap(n) + Decode(n, q, js);
    forall a, b | 0 <= a < b < |c|
      ensures c[a] != c[b]
    {
      ExtensionPairDistinct(d, q, n, starter, js, a, b);
    }
  }

  lemma ExtensionPairDistinct(d: nat, q: nat, n: nat, starter: seq<bool>, js: seq<nat>, a: nat, b: nat)
    requires q >= 2 && d >= 1 && |starter| == Pow(q, n)
    requires GroupsWellFormed(CompleteGroups(InitialCap(n), d), n)
    requires forall j :: 0 <= j < |starter| && starter[j] ==>
               j !in EliminatedBy(q, n, GenerateCoeffs(d, q), CompleteGroups(InitialCap(n), d))
    requires Grown(InitialCap(n), js, InitialCap(n) + Decode(n, q, js), 1, starter, n, q)
    requires a < b < n + 1 + |js|
    ensures (InitialCap(n) + Decode(n, q, js))[a] != (InitialCap(n) + Decode(n, q, js))[b]
  {
    var init := InitialCap(n);
    if b <= n {
      assert (init + Decode(n, q, js))[a] == init[a] && (init + Decode(n, q, js))[b] == init[b];
      InitialCapNoRepeats(n);
    } else if a > n {
      TailPairDistinct(n, q, init, js, a, b);
    } else {
      var j := js[b - n - 1];
      assert 1 <= j < |starter| && starter[j];
      StartingPointNotAppended(d, q, n, starter, j, a);
      MixedPairDistinct(n, q, init, js, a, b);
    }
  }

  /** Two appended points of a cap grown through ascending indices differ. */
  lemma TailPairDistinct(n: nat, q: nat, init: seq<Vec>, js: seq<nat>, a: nat, b: nat)
    requires q >= 1 && |init| == n + 1 && Ascending(js) && forall k :: 0 <= k < |js| ==> js[k] < Pow(q, n)
    requires n < a < b < n + 1 + |js|
    ensures (init + Decode(n, q, js))[a] != (init + Decode(n, q, js))[b]
  {
    var tail := Decode(n, q, js);
    AppendIndex(init, tail, a);
    AppendIndex(init, tail, b);
    DecodeDistinct(n, q, js, a - |init|, b - |init|);
  }

  /** Indexing past the first part of a concatenation indexes the second. */
  lemma AppendIndex<T>(x: seq<T>, y: seq<T>, k: nat)
    requires |x| <= k < |x| + |y|
    ensures (x + y)[k] == y[k - |x|]
  {
  }

  /** A starting point and an appended point differ when the appended point
      is not that starting point. */
  lemma MixedPairDistinct(n: nat, q: nat, init: seq<Vec>, js: seq<nat>, a: nat, b: nat)
    requires q >= 1 && |init| == n + 1 && a <= n < b < n + 1 + |js|
    requires IndexToVector(n, q, js[b - n - 1]) != init[a]
    ensures (init + Decode(n, q, js))[a] != (init + Decode(n, q, js))[b]
  {
    AppendIndex(init, Decode(n, q, js), b);
  }

  /** The points a search appends are pairwise distinct: their indices
      ascend and index_to_vector is injective below q^n. */
  lemma DecodeDistinct(n: nat, q: nat, js: seq<nat>, a: nat, b: nat)
    requires q >= 1 && Ascending(js) && forall k :: 0 <= k < |js| ==> js[k] < Pow(q, n)
    requires a < b < |js|
    ensures Decode(n, q, js)[a] != Decode(n, q, js)[b]
  {
    AscendingPair(js, a, b);
    IndexToVectorInjective(n, q, js[a], js[b]);
  }

  /** The i-th basis vector has index q^i, so with the origin at index 0 the
      starting cap holds index 0 and the search starts at index 1. */
  lemma {:induction false} BasisIndex(n: nat, q: nat, i: nat)
    requires q >= 2 && i < n
    ensures Reduced(Basis(n, i), q) && VectorToIndex(Basis(n, i), q) == Pow(q, i)
  {
    if i == 0 {
      assert Basis(n, 0)[1..] == Zero(n - 1);
      ZeroIndex(n - 1, q);
    } else {
      assert Basis(n, i)[1..] == Basis(n - 1, i - 1);
      BasisIndex(n - 1, q, i - 1);
    }
  }

  /** With d >= 1 and q >= 2, the full recomputation save_caps starts from
      marks every point of the starting cap invalid, so the search never
      appends one of them again. */
  lemma StarterExcludesInitialCap(d: nat, q: nat, n: nat, k: nat)
    requires q >= 2 && d >= 1 && n >= 1 && k <= n
    ensures GroupsWellFormed(CompleteGroups(InitialCap(n), d), n)
    ensures Reduced(InitialCap(n)[k], q)
    ensures VectorToIndex(InitialCap(n)[k], q) in EliminatedBy(q, n, GenerateCoeffs(d, q), CompleteGroups(InitialCap(n), d))
  {
    var cap := InitialCap(n);
    if k > 0 {
      BasisIndex(n, q, k - 1);
    }
    CompleteUpdateCoversCap(cap, d, q, n, k);
  }

  /** A point whose index is valid in the starter validity list is none of
      the starting points. */
  lemma StartingPointNotAppended(d: nat, q: nat, n: nat, starter: seq<bool>, j: nat, a: nat)
    requires q >= 2 && d >= 1 && |starter| == Pow(q, n) && 1 <= j < |starter| && starter[j] && a <= n
    requires GroupsWellFormed(CompleteGroups(InitialCap(n), d), n)
    requires j !in EliminatedBy(q, n, GenerateCoeffs(d, q), CompleteGroups(InitialCap(n), d))
    ensures IndexToVector(n, q, j) != InitialCap(n)[a]
  {
    if n == 0 {
      assert false;
    }
    if IndexToVector(n, q, j) == InitialCap(n)[a] {
      StarterExcludesInitialCap(d, q, n, a);
      IndexRoundTrip(n, q, j);
      assert false;
    }
  }
}
