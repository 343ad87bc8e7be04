/** generate_coeffs: the weight tuples whose affine combinations of d + 1
    points reach every point of the flat those points span. */
module Coefficients {
  import opened AffineSpace
  import opened Combinatorics

  /** x repeated k times, the list [x] * k. */
  function Repeat(x: int, k: nat): seq<int> {
    seq(k, _ => x)
  }

  /** The list l the enumeration draws from: d + 1 copies of each value 0..q-1. */
  function Pool(d: nat, q: nat): seq<int> {
    if q == 0 then [] else Pool(d, q - 1) + Repeat(q - 1, d + 1)
  }

  /** generate_coeffs(d, q, n): the set of (d + 1)-permutations of Pool whose
      scalar affine sum is 1. The argument n only appears in a progress
      message, so it is not a parameter here. */
  function GenerateCoeffs(d: nat, q: nat): (r: set<seq<int>>)
    requires q >= 1
    ensures forall t :: t in r ==> IsCoeff(d, q, t)
  {
    PoolPermutationsSound(d, q);
    set t | t in Permutations(Pool(d, q), d + 1) && AddAffine(q, t) == 1
  }

  /** A tuple of d + 1 residues mod q whose sum is 1 mod q. */
  predicate IsCoeff(d: nat, q: nat, t: seq<int>)
    requires q >= 1
  {
    |t| == d + 1 && (forall k :: 0 <= k < |t| ==> 0 <= t[k] < q) && AddAffine(q, t) == 1
  }

  lemma {:induction false} RepeatCount(x: int, k: nat, v: int)
    ensures multiset(Repeat(x, k))[v] == if v == x then k else 0
  {
    if k > 0 {
      assert Repeat(x, k) == Repeat(x, k - 1) + [x];
      RepeatCount(x, k - 1, v);
    }
  }

  /** Pool holds every value 0..q-1 exactly d + 1 times and nothing else. */
  lemma {:induction false} PoolCount(d: nat, q: nat, v: int)
    ensures multiset(Pool(d, q))[v] == if 0 <= v < q then d + 1 else 0
  {
    if q > 0 {
      PoolCount(d, q - 1, v);
      RepeatCount(q - 1, d + 1, v);
    }
  }

  lemma {:induction false} CountAtMostLength(t: seq<int>, v: int)
    ensures multiset(t)[v] <= |t|
  {
    if t != [] {
      assert t == [t[0]] + t[1..];
      CountAtMostLength(t[1..], v);
    }
  }

  /** The coefficient set is exactly the set of (d + 1)-tuples of residues mod
      q summing to 1 mod q: the d + 1 copies of each value in the pool allow
      any repetition inside one tuple. */
  lemma CoeffsCharacterised(d: nat, q: nat, t: seq<int>)
    requires q >= 1
    ensures t in GenerateCoeffs(d, q) <==> IsCoeff(d, q, t)
  {
    if IsCoeff(d, q, t) {
      CoeffsComplete(d, q, t);
    }
  }

  /** Every (d + 1)-permutation of the pool with affine sum 1 is a tuple of
      residues mod q: the pool holds nothing outside 0..q-1. */
  lemma PoolPermutationsSound(d: nat, q: nat)
    requires q >= 1
    ensures forall t :: t in Permutations(Pool(d, q), d + 1) && AddAffine(q, t) == 1 ==> IsCoeff(d, q, t)
  {
    forall t | t in Permutations(Pool(d, q), d + 1) && AddAffine(q, t) == 1 {
      CoeffsSound(d, q, t);
    }
  }

  lemma CoeffsSound(d: nat, q: nat, t: seq<int>)
    requires q >= 1 && t in Permutations(Pool(d, q), d + 1) && AddAffine(q, t) == 1
    ensures IsCoeff(d, q, t)
  {
    assert |t| == d + 1 && multiset(t) <= multiset(Pool(d, q)) by {
      PermutationsMember(Pool(d, q), d + 1, t);
    }
    forall k | 0 <= k < |t|
      ensures 0 <= t[k] < q
    {
      assert t[k] in multiset(t);
      PoolCount(d, q, t[k]);
    }
  }

  lemma CoeffsComplete(d: nat, q: nat, t: seq<int>)
    requires q >= 1 && IsCoeff(d, q, t)
    ensures t in GenerateCoeffs(d, q)
  {
    var pool := Pool(d, q);
    forall v
      ensures multiset(t)[v] <= multiset(pool)[v]
    {
      PoolCount(d, q, v);
      CountAtMostLength(t, v);
      if !(0 <= v < q) {
        assert v !in t;
      }
    }
    assert t in Permutations(pool, d + 1) by {
      PermutationsMember(pool, d + 1, t);
    }
  }

  /** For q >= 2 every unit tuple (a single 1, all else 0) is a coefficient. */
  lemma UnitIsCoeff(d: nat, q: nat, k: nat)
    requires q >= 2 && k <= d
    ensures Basis(d + 1, k) in GenerateCoeffs(d, q)
  {
    var e := Basis(d + 1, k);
    SumOneHot(e, k);
    CoeffsCharacterised(d, q, e);
  }
}
