/** The two enumerations the search takes from itertools, as lists in the order
    itertools produces them (lexicographic in the positions chosen), together
    with what membership in them means. */
module Combinatorics {

  /** s without its element at position i. */
  function RemoveAt<T>(s: seq<T>, i: nat): (r: seq<T>)
    requires i < |s|
    ensures multiset(s) == multiset(r) + multiset{s[i]}
  {
    assert s == s[..i] + [s[i]] + s[i + 1..];
    s[..i] + s[i + 1..]
  }

  /** Every sequence of xs with h in front. */
  function Prepend<T>(h: T, xs: seq<seq<T>>): (r: seq<seq<T>>)
    ensures |r| == |xs|
  {
    seq(|xs|, k requires 0 <= k < |xs| => [h] + xs[k])
  }

  /** permutations(s, r): every way to pick r of the positions of s in order,
      listed by the picked positions in lexicographic order. */
  function Permutations<T>(s: seq<T>, r: nat): seq<seq<T>>
    decreases r, |s| + 1
  {
    if r == 0 then [[]] else PermutationsFrom(s, r, 0)
  }

  /** The part of Permutations(s, r) whose first position is at least i. */
  function PermutationsFrom<T>(s: seq<T>, r: nat, i: nat): seq<seq<T>>
    requires 0 < r && i <= |s|
    decreases r, |s| - i
  {
    if i == |s| then []
    else Prepend(s[i], Permutations(RemoveAt(s, i), r - 1)) + PermutationsFrom(s, r, i + 1)
  }

  /** combinations(s, k): every way to pick k of the positions of s keeping
      their order, listed in lexicographic order of the picked positions. */
  function Combinations<T>(s: seq<T>, k: nat): seq<seq<T>>
  {
    if k == 0 then [[]]
    else if s == [] then []
    else Prepend(s[0], Combinations(s[1..], k - 1)) + Combinations(s[1..], k)
  }

  /** c can be obtained from s by deleting elements. */
  predicate Subseq<T(==)>(c: seq<T>, s: seq<T>) {
    if c == [] then true
    else if s == [] then false
    else (c[0] == s[0] && Subseq(c[1..], s[1..])) || Subseq(c, s[1..])
  }

  function Binomial(n: nat, k: nat): nat {
    if k == 0 then 1 else if n == 0 then 0 else Binomial(n - 1, k - 1) + Binomial(n - 1, k)
  }

  lemma PrependMember<T>(h: T, xs: seq<seq<T>>, t: seq<T>)
    ensures t in Prepend(h, xs) <==> t != [] && t[0] == h && t[1..] in xs
  {
    if t in Prepend(h, xs) {
      var k :| 0 <= k < |xs| && Prepend(h, xs)[k] == t;
      assert t[1..] == xs[k];
    }
    if t != [] && t[0] == h && t[1..] in xs {
      var k :| 0 <= k < |xs| && xs[k] == t[1..];
      assert Prepend(h, xs)[k] == t;
    }
  }

  /** Where a member of PermutationsFrom(s, r, i) took its first element. */
  lemma {:induction false} PermutationsFromPick<T>(s: seq<T>, r: nat, i: nat, t: seq<T>) returns (j: nat)
    requires 0 < r && i <= |s| && t in PermutationsFrom(s, r, i)
    ensures i <= j < |s| && t != [] && t[0] == s[j] && t[1..] in Permutations(RemoveAt(s, j), r - 1)
    decreases |s| - i
  {
    PrependMember(s[i], Permutations(RemoveAt(s, i), r - 1), t);
    if t in Prepend(s[i], Permutations(RemoveAt(s, i), r - 1)) {
      j := i;
    } else {
      j := PermutationsFromPick(s, r, i + 1, t);
    }
  }

  lemma {:induction false} PermutationsFromHas<T>(s: seq<T>, r: nat, i: nat, j: nat, t: seq<T>)
    requires 0 < r && i <= j < |s| && t != [] && t[0] == s[j]
    requires t[1..] in Permutations(RemoveAt(s, j), r - 1)
    ensures t in PermutationsFrom(s, r, i)
    decreases |s| - i
  {
    if i == j {
      PrependMember(s[i], Permutations(RemoveAt(s, i), r - 1), t);
    } else {
      PermutationsFromHas(s, r, i + 1, j, t);
    }
  }

  /** A tuple is produced by permutations(s, r) exactly when it has length r
      and uses no value more often than s holds it. */
  lemma PermutationsMember<T>(s: seq<T>, r: nat, t: seq<T>)
    ensures t in Permutations(s, r) <==> |t| == r && multiset(t) <= multiset(s)
  {
    if t in Permutations(s, r) {
      PermutationsSound(s, r, t);
    }
    if |t| == r && multiset(t) <= multiset(s) {
      PermutationsComplete(s, r, t);
    }
  }

  lemma {:induction false} PermutationsSound<T>(s: seq<T>, r: nat, t: seq<T>)
    requires t in Permutations(s, r)
    ensures |t| == r && multiset(t) <= multiset(s)
    decreases r
  {
    if r > 0 {
      var j := PermutationsFromPick(s, r, 0, t);
      PermutationsSound(RemoveAt(s, j), r - 1, t[1..]);
      MultisetConsBound(s, j, t);
    }
  }

  /** Taking s[j] in front of a tail drawn from the rest of s draws from s. */
  lemma MultisetConsBound<T>(s: seq<T>, j: nat, t: seq<T>)
    requires j < |s| && t != [] && t[0] == s[j] && multiset(t[1..]) <= multiset(RemoveAt(s, j))
    ensures multiset(t) <= multiset(s)
  {
    assert t == [t[0]] + t[1..];
    assert multiset(t) == multiset(t[1..]) + multiset{t[0]};
  }

  lemma {:induction false} PermutationsComplete<T>(s: seq<T>, r: nat, t: seq<T>)
    requires |t| == r && multiset(t) <= multiset(s)
    ensures t in Permutations(s, r)
    decreases r
  {
    if r > 0 {
      assert t == [t[0]] + t[1..];
      assert multiset(t) == multiset(t[1..]) + multiset{t[0]};
      assert t[0] in multiset(s);
      var j :| 0 <= j < |s| && s[j] == t[0];
      var rest := RemoveAt(s, j);
      assert multiset(s) == multiset(rest) + multiset{t[0]};
      forall v
        ensures multiset(t[1..])[v] <= multiset(rest)[v]
      {
        assert multiset(t)[v] <= multiset(s)[v];
      }
      PermutationsComplete(rest, r - 1, t[1..]);
      PermutationsFromHas(s, r, 0, j, t);
    }
  }

  /** A tuple is produced by combinations(s, k) exactly when it has length k
      and is a subsequence of s. */
  lemma {:induction false} CombinationsMember<T>(s: seq<T>, k: nat, c: seq<T>)
    ensures c in Combinations(s, k) <==> |c| == k && Subseq(c, s)
    decreases |s|
  {
    if k > 0 && s != [] {
      var picked, skipped := Prepend(s[0], Combinations(s[1..], k - 1)), Combinations(s[1..], k);
      assert Combinations(s, k) == picked + skipped;
      PrependMember(s[0], Combinations(s[1..], k - 1), c);
      CombinationsMember(s[1..], k, c);
      if c != [] {
        CombinationsMember(s[1..], k - 1, c[1..]);
        assert Subseq(c, s) <==> (c[0] == s[0] && Subseq(c[1..], s[1..])) || Subseq(c, s[1..]);
      }
      assert c in picked + skipped <==> c in picked || c in skipped;
    }
  }

  /** combinations(s, k) lists C(|s|, k) tuples: one per choice of k positions. */
  lemma {:induction false} CombinationsCount<T>(s: seq<T>, k: nat)
    ensures |Combinations(s, k)| == Binomial(|s|, k)
    decreases |s|
  {
    if k > 0 && s != [] {
      CombinationsCount(s[1..], k - 1);
      CombinationsCount(s[1..], k);
    }
  }

  /** Every element of a subsequence of s is an element of s. */
  lemma {:induction false} SubseqElements<T>(c: seq<T>, s: seq<T>, x: T)
    requires Subseq(c, s) && x in c
    ensures x in s
    decreases |s|
  {
    if c[0] == s[0] && Subseq(c[1..], s[1..]) {
      if x != c[0] {
        SubseqElements(c[1..], s[1..], x);
      }
    } else {
      SubseqElements(c, s[1..], x);
    }
  }

  /** There are C(n, k) >= 1 ways to pick k of n positions when k <= n. */
  lemma {:induction false} BinomialPositive(n: nat, k: nat)
    requires k <= n
    ensures Binomial(n, k) >= 1
  {
    if k > 0 {
      BinomialPositive(n - 1, k - 1);
    }
  }
}
