/** EMDMatcher of src/donkey-emd.h: the earth mover's distance between two
    weighted multi-part objects.  apply builds the two mass vectors P and Q
    over the N1 + N2 parts and the N x N ground-distance matrix C, and
    hands them to the emd_hat solver. */
module DonkeyEmd {
  import opened Wrappers
  import opened Floats
  import opened DonkeyRuntime
  import opened DonkeyCommon

  /** The static_assert of the constructor: EMD takes only a distance-like
      feature similarity (POLARITY < 0), and is itself a distance. */
  predicate EmdAccepts(f: FeatureSimilarity) {
    Polarity(SimilarityOf(f)) < 0
  }

  lemma EmdAcceptsDistances(f: FeatureSimilarity)
    ensures EmdAccepts(f) <==> f != Cosine
    ensures MatcherPolarity(EMDMatcher) == -1
  {
  }

  /** What the matcher sees of a part: its feature and its arithmetic
      weight. */
  datatype EmdPart = EmdPart(feature: seq<nat>, weight: real)

  function Weights(ps: seq<EmdPart>): (w: seq<real>)
    ensures |w| == |ps| && forall i :: 0 <= i < |ps| ==> w[i] == ps[i].weight
  {
    seq(|ps|, i requires 0 <= i < |ps| => ps[i].weight)
  }

  /** The matcher's `extra_mass_penalty`: donkey.emd.extra_mass_penalty of
      the configuration, 0 when it is not set. */
  function ExtraMassPenalty(configured: Option<real>): (r: real)
    ensures configured.None? ==> r == 0.0
    ensures configured.Some? ==> r == configured.value
  {
    if configured.Some? then configured.value else 0.0
  }

  /** IEEE division of a finite value by a finite sum, rounding aside: a
      zero sum gives an infinity, or NaN for 0 / 0. */
  function Divide(a: real, b: real): (r: FloatValue)
    ensures b != 0.0 ==> r == Finite(a / b)
    ensures b == 0.0 ==> (r.NaN? <==> a == 0.0) && (a != 0.0 ==> r == Infinity(a < 0.0))
  {
    if b != 0.0 then Finite(a / b) else if a == 0.0 then NaN else Infinity(a < 0.0)
  }

  /** The mass normalize writes for part i: its share of the total weight. */
  function Share(ps: seq<EmdPart>, i: nat): FloatValue
    requires i < |ps|
  {
    Divide(ps[i].weight, Sum(Weights(ps)))
  }

  /** The first loop of normalize: the weights added up in part order. */
  method TotalWeight(ps: seq<EmdPart>) returns (sum: real)
    ensures sum == Sum(Weights(ps))
  {
    sum := 0.0;
    var i := 0;
    while i < |ps|
      invariant 0 <= i <= |ps|
      invariant sum == Sum(Weights(ps)[..i])
    {
      assert Weights(ps)[..i + 1][..i] == Weights(ps)[..i];
      sum := sum + ps[i].weight;
      i := i + 1;
    }
    assert Weights(ps)[..i] == Weights(ps);
  }

  /** normalize(obj, off, v): v[off + i] becomes the share of part i;
      every other slot of v keeps its value. */
  method Normalize(ps: seq<EmdPart>, off: nat, v: array<FloatValue>)
    requires off + |ps| <= v.Length
    modifies v
    ensures forall i :: 0 <= i < |ps| ==> v[off + i] == Share(ps, i)
    ensures forall j :: 0 <= j < v.Length && !(off <= j < off + |ps|) ==> v[j] == old(v[j])
  {
    var sum := TotalWeight(ps);
    var i := 0;
    while i < |ps|
      invariant 0 <= i <= |ps|
      invariant forall i' :: 0 <= i' < i ==> v[off + i'] == Share(ps, i')
      invariant forall j :: 0 <= j < v.Length && !(off <= j < off + i) ==> v[j] == old(v[j])
    {
      v[off + i] := Divide(ps[i].weight, sum);
      i := i + 1;
    }
  }

  /** The mass vector of the query: its shares on [0, N1), zero after. */
  function PVector(query: seq<EmdPart>, n2: nat): (p: seq<FloatValue>)
    ensures |p| == |query| + n2
  {
    seq(|query| + n2, k requires 0 <= k < |query| + n2 => if k < |query| then Share(query, k) else Finite(0.0))
  }

  /** The mass vector of the candidate: zero on [0, N1), its shares after. */
  function QVector(n1: nat, cand: seq<EmdPart>): (q: seq<FloatValue>)
    ensures |q| == n1 + |cand|
  {
    seq(n1 + |cand|, k requires 0 <= k < n1 + |cand| => if k < n1 then Finite(0.0) else Share(cand, k - n1))
  }

  /** C[a][b]: the feature distance between query part a and candidate part
      b - N1 (or the other way round), zero within one side. */
  function Cost(query: seq<EmdPart>, cand: seq<EmdPart>, dist: (seq<nat>, seq<nat>) -> real, a: nat, b: nat): real
    requires a < |query| + |cand| && b < |query| + |cand|
  {
    var n1 := |query|;
    if a < n1 && n1 <= b then dist(query[a].feature, cand[b - n1].feature)
    else if b < n1 && n1 <= a then dist(query[b].feature, cand[a - n1].feature)
    else 0.0
  }

  function CostMatrix(query: seq<EmdPart>, cand: seq<EmdPart>, dist: (seq<nat>, seq<nat>) -> real): (c: seq<seq<real>>)
    ensures |c| == |query| + |cand|
    ensures forall a :: 0 <= a < |c| ==> |c[a]| == |c|
  {
    var n := |query| + |cand|;
    seq(n, a requires 0 <= a < n => seq(n, b requires 0 <= b < n => Cost(query, cand, dist, a, b)))
  }

  /** C is symmetric, and zero between two parts of the same object. */
  lemma CostMatrixShape(query: seq<EmdPart>, cand: seq<EmdPart>, dist: (seq<nat>, seq<nat>) -> real, a: nat, b: nat)
    requires a < |query| + |cand| && b < |query| + |cand|
    ensures CostMatrix(query, cand, dist)[a][b] == CostMatrix(query, cand, dist)[b][a]
    ensures (a < |query|) == (b < |query|) ==> CostMatrix(query, cand, dist)[a][b] == 0.0
    ensures a < |query| <= b ==> CostMatrix(query, cand, dist)[a][b] == dist(query[a].feature, cand[b - |query|].feature)
  {
  }

  /** P is zero on the candidate's side and Q on the query's. */
  lemma MassVectorsSides(query: seq<EmdPart>, cand: seq<EmdPart>, k: nat)
    requires k < |query| + |cand|
    ensures k < |query| ==> PVector(query, |cand|)[k] == Share(query, k) && QVector(|query|, cand)[k] == Finite(0.0)
    ensures k >= |query| ==> PVector(query, |cand|)[k] == Finite(0.0) && QVector(|query|, cand)[k] == Share(cand, k - |query|)
  {
  }

  /** A side whose weights add up to zero gets no finite mass at all. */
  lemma ZeroTotalWeight(ps: seq<EmdPart>, i: nat)
    requires i < |ps| && Sum(Weights(ps)) == 0.0
    ensures !Share(ps, i).Finite?
    ensures Share(ps, i).NaN? <==> ps[i].weight == 0.0
  {
  }

  /** w with every entry divided by s. */
  function Scaled(w: seq<real>, s: real): (d: seq<real>)
    requires s != 0.0
    ensures |d| == |w| && forall i :: 0 <= i < |w| ==> d[i] == w[i] / s
  {
    seq(|w|, i requires 0 <= i < |w| => w[i] / s)
  }

  /** With a non-zero total weight the shares are finite and add up to
      one. */
  lemma SharesSumToOne(ps: seq<EmdPart>)
    requires Sum(Weights(ps)) != 0.0
    ensures forall i :: 0 <= i < |ps| ==> Share(ps, i) == Finite(Scaled(Weights(ps), Sum(Weights(ps)))[i])
    ensures Sum(Scaled(Weights(ps), Sum(Weights(ps)))) == 1.0
  {
    var s := Sum(Weights(ps));
    SumScaled(Weights(ps), s);
    assert s / s == 1.0;
  }

  lemma {:induction false} SumScaled(w: seq<real>, s: real)
    requires s != 0.0
    ensures Sum(Scaled(w, s)) == Sum(w) / s
  {
    if w != [] {
      var w' := w[..|w| - 1];
      SumScaled(w', s);
      assert Scaled(w, s)[..|w| - 1] == Scaled(w', s);
      assert Sum(w) / s == Sum(w') / s + w[|w| - 1] / s;
    }
  }

  /** EMDMatcher::apply: the result of the solver (a parameter of the
      model) on P, Q, C and the penalty. */
  method Apply(query: seq<EmdPart>, cand: seq<EmdPart>, dist: (seq<nat>, seq<nat>) -> real, penalty: real,
               emdHat: (seq<FloatValue>, seq<FloatValue>, seq<seq<real>>, real) -> real)
    returns (r: real)
    ensures r == emdHat(PVector(query, |cand|), QVector(|query|, cand), CostMatrix(query, cand, dist), penalty)
  {
    var n1, n2 := |query|, |cand|;
    var n := n1 + n2;
    var p := new FloatValue[n](_ => Finite(0.0));
    var q := new FloatValue[n](_ => Finite(0.0));
    Normalize(query, 0, p);
    Normalize(cand, n1, q);
    var c := Costs(query, cand, dist);
    assert p[..] == PVector(query, n2);
    assert q[..] == QVector(n1, cand);
    r := emdHat(p[..], q[..], c, penalty);
  }

  /** The nested loop that fills C, which starts as N x N zeros. */
  method Costs(query: seq<EmdPart>, cand: seq<EmdPart>, dist: (seq<nat>, seq<nat>) -> real)
    returns (rows: seq<seq<real>>)
    ensures rows == CostMatrix(query, cand, dist)
  {
    var n1, n2 := |query|, |cand|;
    var n := n1 + n2;
    var c := new real[n, n]((_, _) => 0.0);
    var i := 0;
    while i < n1
      invariant 0 <= i <= n1
      invariant forall a, b :: 0 <= a < n && 0 <= b < n ==>
        c[a, b] == if Written(n1, i, 0, a, b) then Cost(query, cand, dist, a, b) else 0.0
    {
      var j := 0;
      while j < n2
        invariant 0 <= j <= n2
        invariant forall a, b :: 0 <= a < n && 0 <= b < n ==>
          c[a, b] == if Written(n1, i, j, a, b) then Cost(query, cand, dist, a, b) else 0.0
      {
        var v := dist(query[i].feature, cand[j].feature);
        c[i, n1 + j] := v;
        c[n1 + j, i] := v;
        j := j + 1;
      }
      i := i + 1;
    }
    rows := seq(n, a requires 0 <= a < n reads c => seq(n, b requires 0 <= b < n reads c => c[a, b]));
    forall a | 0 <= a < n
      ensures rows[a] == CostMatrix(query, cand, dist)[a]
    {
      assert forall b :: 0 <= b < n ==> rows[a][b] == Cost(query, cand, dist, a, b);
    }
  }

  /** The slots of C written before step (i, j) of the nested loop. */
  predicate Written(n1: nat, i: nat, j: nat, a: nat, b: nat) {
    (a < n1 && n1 <= b && (a < i || (a == i && b - n1 < j)))
    || (b < n1 && n1 <= a && (b < i || (b == i && a - n1 < j)))
  }
}
