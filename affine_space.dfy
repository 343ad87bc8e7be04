/** The finite affine space F_q^n as the cap search consumes it: points as
    coordinate sequences, the base-q bijection between points and indices,
    the affine sum mod q (in its scalar and its vector form) and the origin and
    standard basis. The repository's own affine_space_core module is not part
    of this model; these definitions state the contracts the search relies on. */
module AffineSpace {

  /** A point of F_q^n, one entry per coordinate. */
  type Vec = seq<int>

  function Pow(q: nat, n: nat): (r: nat)
    ensures q >= 1 ==> r >= 1
  {
    if n == 0 then 1 else q * Pow(q, n - 1)
  }

  /** Every coordinate of v is a residue mod q. */
  predicate Reduced(v: Vec, q: nat) {
    forall j :: 0 <= j < |v| ==> 0 <= v[j] < q
  }

  /** Every point of pts has n coordinates. */
  predicate WellFormed(pts: seq<Vec>, n: nat) {
    forall k :: 0 <= k < |pts| ==> |pts[k]| == n
  }

  function Sum(xs: seq<int>): int {
    if xs == [] then 0 else xs[0] + Sum(xs[1..])
  }

  /** Scalar form of add_affine: the terms summed and reduced mod q. */
  function AddAffine(q: nat, xs: seq<int>): (r: int)
    requires q >= 1
    ensures 0 <= r < q
  {
    Sum(xs) % q
  }

  function Scale(a: int, v: Vec): Vec {
    seq(|v|, j requires 0 <= j < |v| => a * v[j])
  }

  /** The products a * b for (a, b) in zip(coeff, points): as long as the
      shorter of the two, so a coefficient tuple longer than the point list is
      truncated. */
  function ZipScale(coeff: seq<int>, points: seq<Vec>): (r: seq<Vec>)
    ensures |r| <= |coeff| && |r| <= |points| && (|r| == |coeff| || |r| == |points|)
    ensures forall k :: 0 <= k < |r| ==> |r[k]| == |points[k]|
  {
    var m := if |coeff| < |points| then |coeff| else |points|;
    seq(m, k requires 0 <= k < m => Scale(coeff[k], points[k]))
  }

  /** The j-th coordinate of every term. */
  function Column(terms: seq<Vec>, j: nat): seq<int>
    requires forall k :: 0 <= k < |terms| ==> j < |terms[k]|
  {
    seq(|terms|, k requires 0 <= k < |terms| => terms[k][j])
  }

  /** Vector form of add_affine: the terms summed coordinate-wise mod q. */
  function AddAffineVec(q: nat, n: nat, terms: seq<Vec>): (r: Vec)
    requires q >= 1 && WellFormed(terms, n)
    ensures |r| == n && Reduced(r, q)
  {
    seq(n, j requires 0 <= j < n => Sum(Column(terms, j)) % q)
  }

  /** vector_to_index: reads the coordinates as base-q digits, least
      significant first. */
  function VectorToIndex(v: Vec, q: nat): (i: nat)
    requires q >= 1 && Reduced(v, q)
    ensures i < Pow(q, |v|)
  {
    if v == [] then 0
    else
      var rest := VectorToIndex(v[1..], q);
      BoundedDigits(v[0], rest, q, Pow(q, |v| - 1));
      v[0] + q * rest
  }

  /** index_to_vector: the n base-q digits of i, least significant first. */
  function IndexToVector(n: nat, q: nat, i: nat): (v: Vec)
    requires q >= 1
    ensures |v| == n && Reduced(v, q)
  {
    if n == 0 then [] else [i % q] + IndexToVector(n - 1, q, i / q)
  }

  /** The origin, np.zeros(n). */
  function Zero(n: nat): Vec {
    seq(n, j requires 0 <= j < n => 0)
  }

  /** generate_basis(n, i): the i-th standard basis vector. */
  function Basis(n: nat, i: nat): Vec {
    seq(n, j requires 0 <= j < n => if j == i then 1 else 0)
  }

  lemma BoundedDigits(digit: int, rest: nat, q: nat, p: nat)
    requires 0 <= digit < q && rest < p
    ensures digit + q * rest < q * p
  {
    assert q * rest <= q * (p - 1) by { MulMonotone(q, rest, p - 1); }
  }

  lemma MulMonotone(q: nat, a: nat, b: nat)
    requires a <= b
    ensures q * a <= q * b
  {
  }

  lemma DigitSplit(digit: int, rest: nat, q: nat)
    requires 0 <= digit < q
    ensures (digit + q * rest) % q == digit && (digit + q * rest) / q == rest
  {
    var x := digit + q * rest;
    var a, b := x / q, x % q;
    assert q * a + b == x;
    assert q * (a - rest) == digit - b by { Distribute(q, a, rest); }
    if a - rest >= 1 {
      MulMonotone(q, 1, a - rest);
    } else if a - rest <= -1 {
      MulMonotone(q, 1, rest - a);
      Distribute(q, rest, a);
    }
  }

  lemma Distribute(q: int, a: int, b: int)
    ensures q * (a - b) == q * a - q * b
  {
  }

  /** Decoding then encoding an index in [0, q^n) gives the index back. */
  lemma {:induction false} IndexRoundTrip(n: nat, q: nat, i: nat)
    requires q >= 1 && i < Pow(q, n)
    ensures VectorToIndex(IndexToVector(n, q, i), q) == i
  {
    if n > 0 {
      var r, m := i / q, i % q;
      DivMod(i, q);
      QuotientBound(i, q, Pow(q, n - 1));
      IndexRoundTrip(n - 1, q, r);
      var v := IndexToVector(n, q, i);
      assert v[0] == m && v[1..] == IndexToVector(n - 1, q, r);
      assert VectorToIndex(v, q) == m + q * VectorToIndex(v[1..], q);
    }
  }

  lemma DivMod(i: nat, q: nat)
    requires q >= 1
    ensures q * (i / q) + i % q == i && 0 <= i % q < q
  {
  }

  lemma QuotientBound(i: nat, q: nat, p: nat)
    requires q >= 1 && i < q * p
    ensures i / q < p
  {
    if i / q >= p {
      MulMonotone(q, p, i / q);
    }
  }

  /** Encoding then decoding a reduced vector gives the vector back. */
  lemma {:induction false} VectorRoundTrip(v: Vec, q: nat)
    requires q >= 1 && Reduced(v, q)
    ensures IndexToVector(|v|, q, VectorToIndex(v, q)) == v
  {
    if v != [] {
      var rest := VectorToIndex(v[1..], q);
      DigitSplit(v[0], rest, q);
      VectorRoundTrip(v[1..], q);
    }
  }

  /** Distinct indices in [0, q^n) decode to distinct points. */
  lemma IndexToVectorInjective(n: nat, q: nat, i: nat, j: nat)
    requires q >= 1 && i < Pow(q, n) && j < Pow(q, n) && i != j
    ensures IndexToVector(n, q, i) != IndexToVector(n, q, j)
  {
    IndexRoundTrip(n, q, i);
    IndexRoundTrip(n, q, j);
  }

  /** The origin has index 0. */
  lemma {:induction false} ZeroIndex(n: nat, q: nat)
    requires q >= 1
    ensures VectorToIndex(Zero(n), q) == 0
  {
    if n > 0 {
      assert Zero(n)[1..] == Zero(n - 1);
      ZeroIndex(n - 1, q);
    }
  }

  /** A sum whose terms are all zero but one is that one term. */
  lemma {:induction false} SumOneHot(xs: seq<int>, k: nat)
    requires k < |xs| && forall i :: 0 <= i < |xs| && i != k ==> xs[i] == 0
    ensures Sum(xs) == xs[k]
  {
    if k == 0 {
      SumZeros(xs[1..]);
    } else {
      SumOneHot(xs[1..], k - 1);
    }
  }

  lemma {:induction false} SumZeros(xs: seq<int>)
    requires forall i :: 0 <= i < |xs| ==> xs[i] == 0
    ensures Sum(xs) == 0
  {
    if xs != [] {
      SumZeros(xs[1..]);
    }
  }
}
