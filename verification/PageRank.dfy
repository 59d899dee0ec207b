/**
 PageRank over the link graph, with the mass of pages without links spread
 uniformly. Ranks are reals; rounding is not modelled.

 `Compute` is the iteration as the indexer runs it, over two vectors and a
 dangling total. It is proved against `Step`, the linear map behind it.
 */
module PageRank {
  import opened Basics

  const ITERATIONS: nat := 20
  const DAMPING: real := 0.85

  // -------------------------------------------------------------------------
  // Vectors

  type Vector = seq<real>

  function Sum(v: Vector): real {
    if v == [] then 0.0 else Sum(v[..|v| - 1]) + v[|v| - 1]
  }

  /** The L1 norm. */
  function Norm(v: Vector): real {
    if v == [] then 0.0 else Norm(v[..|v| - 1]) + Abs(v[|v| - 1])
  }

  function Fill(n: nat, x: real): Vector {
    seq(n, _ => x)
  }

  function Add(a: Vector, b: Vector): Vector
    requires |a| == |b|
  {
    seq(|a|, i requires 0 <= i < |a| => a[i] + b[i])
  }

  function Scale(c: real, a: Vector): Vector {
    seq(|a|, i requires 0 <= i < |a| => c * a[i])
  }

  function Sub(a: Vector, b: Vector): Vector
    requires |a| == |b|
  {
    seq(|a|, i requires 0 <= i < |a| => a[i] - b[i])
  }

  function Distance(a: Vector, b: Vector): real
    requires |a| == |b|
  {
    Norm(Sub(a, b))
  }

  predicate NonNegative(v: Vector) {
    forall i :: 0 <= i < |v| ==> v[i] >= 0.0
  }

  lemma ScaleTake(c: real, a: Vector, n: nat)
    requires n <= |a|
    ensures Scale(c, a)[..n] == Scale(c, a[..n])
  {
    forall i | 0 <= i < n
      ensures Scale(c, a)[..n][i] == Scale(c, a[..n])[i]
    {
      assert a[..n][i] == a[i];
    }
  }

  lemma ScaleSub(c: real, d: real, a: Vector)
    ensures Scale(c - d, a) == Sub(Scale(c, a), Scale(d, a))
  {
    forall i | 0 <= i < |a|
      ensures Scale(c - d, a)[i] == Sub(Scale(c, a), Scale(d, a))[i]
    {
      assert (c - d) * a[i] == c * a[i] - d * a[i];
    }
  }

  lemma SubScale(c: real, a: Vector, b: Vector)
    requires |a| == |b|
    ensures Sub(Scale(c, a), Scale(c, b)) == Scale(c, Sub(a, b))
  {
    forall i | 0 <= i < |a|
      ensures Sub(Scale(c, a), Scale(c, b))[i] == Scale(c, Sub(a, b))[i]
    {
      assert c * (a[i] - b[i]) == c * a[i] - c * b[i];
    }
  }

  lemma AddSub(a: Vector, b: Vector, c: Vector, d: Vector)
    requires |a| == |b| == |c| == |d|
    ensures Add(Sub(a, b), Sub(c, d)) == Sub(Add(a, c), Add(b, d))
  {
  }

  lemma ScaleKeepsSign(c: real, a: Vector)
    requires c >= 0.0 && NonNegative(a)
    ensures NonNegative(Scale(c, a))
  {
    forall i | 0 <= i < |a|
      ensures Scale(c, a)[i] >= 0.0
    {
      assert c * a[i] >= 0.0;
    }
  }

  lemma {:induction false} SumAdd(a: Vector, b: Vector)
    requires |a| == |b|
    ensures Sum(Add(a, b)) == Sum(a) + Sum(b)
  {
    if a != [] {
      var n := |a| - 1;
      assert Add(a, b)[..n] == Add(a[..n], b[..n]);
      SumAdd(a[..n], b[..n]);
    }
  }

  lemma {:induction false} SumScale(c: real, a: Vector)
    ensures Sum(Scale(c, a)) == c * Sum(a)
  {
    if a != [] {
      var n := |a| - 1;
      ScaleTake(c, a, n);
      SumScale(c, a[..n]);
    }
  }

  lemma {:induction false} SumFill(n: nat, x: real)
    ensures Sum(Fill(n, x)) == n as real * x
  {
    if n > 0 {
      assert Fill(n, x)[..n - 1] == Fill(n - 1, x);
      SumFill(n - 1, x);
    }
  }

  lemma {:induction false} NormAdd(a: Vector, b: Vector)
    requires |a| == |b|
    ensures Norm(Add(a, b)) <= Norm(a) + Norm(b)
  {
    if a != [] {
      var n := |a| - 1;
      assert Add(a, b)[..n] == Add(a[..n], b[..n]);
      NormAdd(a[..n], b[..n]);
    }
  }

  lemma {:induction false} NormDamped(a: Vector)
    ensures Norm(Scale(DAMPING, a)) == DAMPING * Norm(a)
  {
    if a != [] {
      var n := |a| - 1;
      NormDamped(a[..n]);
      ScaleTake(DAMPING, a, n);
    }
  }

  lemma Distribute(a: real, b: real, c: real)
    ensures a * (b + c) == a * b + a * c
  {
  }

  lemma ScaleAdd(c: real, a: Vector, b: Vector)
    requires |a| == |b|
    ensures Scale(c, Add(a, b)) == Add(Scale(c, a), Scale(c, b))
  {
    forall i | 0 <= i < |a|
      ensures Scale(c, Add(a, b))[i] == Add(Scale(c, a), Scale(c, b))[i]
    {
      Distribute(c, a[i], b[i]);
    }
  }

  lemma ScaleScale(c: real, d: real, a: Vector)
    ensures Scale(c, Scale(d, a)) == Scale(c * d, a)
  {
    forall i | 0 <= i < |a|
      ensures Scale(c, Scale(d, a))[i] == Scale(c * d, a)[i]
    {
      assert c * (d * a[i]) == c * d * a[i];
    }
  }

  lemma ScaleTo(c: real, d: real, e: real, a: Vector)
    requires c * d == e
    ensures Scale(c, Scale(d, a)) == Scale(e, a)
  {
    ScaleScale(c, d, a);
  }

  lemma {:induction false} NormOfNonNegative(a: Vector)
    requires NonNegative(a)
    ensures Norm(a) == Sum(a)
  {
    if a != [] {
      NormOfNonNegative(a[..|a| - 1]);
    }
  }

  /** Two distributions are at most 2 apart. */
  lemma {:induction false} NormSub(a: Vector, b: Vector)
    requires |a| == |b|
    ensures Norm(Sub(a, b)) <= Norm(a) + Norm(b)
  {
    if a != [] {
      var n := |a| - 1;
      assert Sub(a, b)[..n] == Sub(a[..n], b[..n]);
      NormSub(a[..n], b[..n]);
    }
  }

  lemma {:induction false} NormZero(a: Vector)
    requires Norm(a) <= 0.0
    ensures Norm(a) == 0.0 && forall i :: 0 <= i < |a| ==> a[i] == 0.0
  {
    if a != [] {
      NormIsNonNegative(a[..|a| - 1]);
      NormZero(a[..|a| - 1]);
    }
  }

  lemma {:induction false} NormIsNonNegative(a: Vector)
    ensures Norm(a) >= 0.0
  {
    if a != [] {
      NormIsNonNegative(a[..|a| - 1]);
    }
  }

  // -------------------------------------------------------------------------
  // The graph and the linear map

  /** Adjacency by node; every target is a node. */
  type Graph = seq<seq<nat>>

  ghost predicate IsGraph(out: Graph) {
    forall u :: 0 <= u < |out| ==> forall i :: 0 <= i < |out[u]| ==> out[u][i] < |out|
  }

  /** How often each of `n` nodes occurs in `targets`. */
  ghost function Occurrences(targets: seq<nat>, n: nat): Vector {
    seq(n, v => multiset(targets)[v] as real)
  }

  /** Where a rank of `x` at node `u` goes: evenly over its links, or over everyone when it has none. */
  ghost function Passed(out: Graph, u: nat, x: real): (passed: Vector)
    requires u < |out|
    ensures |passed| == |out|
  {
    if out[u] == [] then Fill(|out|, x / |out| as real)
    else Scale(x / |out[u]| as real, Occurrences(out[u], |out|))
  }

  /** What every node passes on when node `u` holds `x[u]`. */
  ghost function Parts(out: Graph, x: Vector): seq<Vector>
    requires |out| == |x|
  {
    seq(|out|, u requires 0 <= u < |out| => Passed(out, u, x[u]))
  }

  /** The total of the first `k` vectors of `parts`, each of length `n`. */
  ghost function Total(parts: seq<Vector>, n: nat, k: nat): (total: Vector)
    requires k <= |parts| && forall u :: 0 <= u < |parts| ==> |parts[u]| == n
    ensures |total| == n
  {
    if k == 0 then Fill(n, 0.0) else Add(Total(parts, n, k - 1), parts[k - 1])
  }

  /** What the first `k` nodes pass on when node `u` holds `x[u]`. */
  ghost function Flow(out: Graph, x: Vector, k: nat): (flow: Vector)
    requires k <= |out| == |x|
    ensures |flow| == |out|
  {
    Total(Parts(out, x), |out|, k)
  }

  ghost function Step(out: Graph, x: Vector): (next: Vector)
    requires |out| == |x| > 0
    ensures |next| == |out|
  {
    Add(Fill(|out|, BaseShare(|out|)), Scale(DAMPING, Flow(out, x, |out|)))
  }

  ghost function Iterate(out: Graph, x: Vector, k: nat): (rank: Vector)
    requires |out| == |x| > 0
    ensures |rank| == |out|
  {
    if k == 0 then x else Step(out, Iterate(out, x, k - 1))
  }

  // -------------------------------------------------------------------------
  // A node passes on exactly what it holds

  lemma {:induction false} OccurrencesSum(targets: seq<nat>, n: nat)
    requires forall i :: 0 <= i < |targets| ==> targets[i] < n
    ensures Sum(Occurrences(targets, n)) == |targets| as real
  {
    if targets == [] {
      assert Occurrences(targets, n) == Fill(n, 0.0);
      SumFill(n, 0.0);
    } else {
      var k := |targets| - 1;
      OccurrencesSum(targets[..k], n);
      OneMoreOccurrence(targets, k, n);
      SumAdd(Occurrences(targets[..k], n), Unit(n, targets[k]));
      SumUnit(n, targets[k]);
      assert targets[..k + 1] == targets;
    }
  }

  function Unit(n: nat, at: nat): Vector {
    seq(n, v => if v == at then 1.0 else 0.0)
  }

  lemma {:induction false} SumUnit(n: nat, at: nat)
    ensures Sum(Unit(n, at)) == if at < n then 1.0 else 0.0
  {
    if n > 0 {
      assert Unit(n, at)[..n - 1] == Unit(n - 1, at);
      SumUnit(n - 1, at);
    }
  }

  lemma OneMoreOccurrence(targets: seq<nat>, k: nat, n: nat)
    requires k < |targets|
    ensures Occurrences(targets[..k + 1], n) == Add(Occurrences(targets[..k], n), Unit(n, targets[k]))
  {
    assert targets[..k + 1] == targets[..k] + [targets[k]];
  }

  lemma SumScaledTo(q: real, a: Vector, n: nat, x: real)
    requires n > 0 && Sum(a) == n as real && q == x / n as real
    ensures Sum(Scale(q, a)) == x
  {
    SumScale(q, a);
    assert q * n as real == x;
  }

  lemma PassedConserves(out: Graph, u: nat, x: real)
    requires IsGraph(out) && u < |out|
    ensures Sum(Passed(out, u, x)) == x
  {
    if out[u] == [] {
      SumFill(|out|, x / |out| as real);
    } else {
      OccurrencesSum(out[u], |out|);
      SumScaledTo(x / |out[u]| as real, Occurrences(out[u], |out|), |out[u]|, x);
    }
  }

  lemma PassedKeepsSign(out: Graph, u: nat, x: real)
    requires u < |out| && x >= 0.0
    ensures NonNegative(Passed(out, u, x))
  {
    if out[u] != [] {
      assert NonNegative(Occurrences(out[u], |out|));
      ScaleKeepsSign(x / |out[u]| as real, Occurrences(out[u], |out|));
    }
  }

  lemma PassedIsLinear(out: Graph, u: nat, x: real, y: real)
    requires u < |out|
    ensures Passed(out, u, x - y) == Sub(Passed(out, u, x), Passed(out, u, y))
  {
    if out[u] == [] {
      QuotientSub(x, y, |out|);
    } else {
      QuotientSub(x, y, |out[u]|);
      ScaleSub(x / |out[u]| as real, y / |out[u]| as real, Occurrences(out[u], |out|));
    }
  }

  lemma QuotientSub(x: real, y: real, n: nat)
    requires n > 0
    ensures (x - y) / n as real == x / n as real - y / n as real
  {
  }

  lemma PassedDoesNotExpand(out: Graph, u: nat, x: real)
    requires IsGraph(out) && u < |out|
    ensures Norm(Passed(out, u, x)) <= Abs(x)
  {
    if x >= 0.0 {
      PassedKeepsSign(out, u, x);
      PassedConserves(out, u, x);
      NormOfNonNegative(Passed(out, u, x));
    } else {
      PassedKeepsSign(out, u, -x);
      PassedConserves(out, u, -x);
      NormOfNonNegative(Passed(out, u, -x));
      PassedIsLinear(out, u, 0.0, -x);
      PassedKeepsSign(out, u, 0.0);
      PassedConserves(out, u, 0.0);
      NormOfNonNegative(Passed(out, u, 0.0));
      NormSub(Passed(out, u, 0.0), Passed(out, u, -x));
      assert 0.0 - -x == x;
    }
  }

  // -------------------------------------------------------------------------
  // The flow keeps mass, sign and distance

  lemma {:induction false} SumOfTotal(parts: seq<Vector>, n: nat, x: Vector, k: nat)
    requires k <= |parts| == |x| && forall u :: 0 <= u < |parts| ==> |parts[u]| == n
    requires forall u :: 0 <= u < k ==> Sum(parts[u]) == x[u]
    ensures Sum(Total(parts, n, k)) == Sum(x[..k])
  {
    if k == 0 {
      SumFill(n, 0.0);
    } else {
      SumOfTotal(parts, n, x, k - 1);
      SumAdd(Total(parts, n, k - 1), parts[k - 1]);
      assert x[..k][..k - 1] == x[..k - 1];
    }
  }

  lemma {:induction false} SignOfTotal(parts: seq<Vector>, n: nat, k: nat)
    requires k <= |parts| && forall u :: 0 <= u < |parts| ==> |parts[u]| == n
    requires forall u :: 0 <= u < k ==> NonNegative(parts[u])
    ensures NonNegative(Total(parts, n, k))
  {
    if k > 0 {
      SignOfTotal(parts, n, k - 1);
    }
  }

  lemma {:induction false} NormOfTotal(parts: seq<Vector>, n: nat, x: Vector, k: nat)
    requires k <= |parts| == |x| && forall u :: 0 <= u < |parts| ==> |parts[u]| == n
    requires forall u :: 0 <= u < k ==> Norm(parts[u]) <= Abs(x[u])
    ensures Norm(Total(parts, n, k)) <= Norm(x[..k])
  {
    if k == 0 {
      SumFill(n, 0.0);
      NormOfNonNegative(Fill(n, 0.0));
    } else {
      NormOfTotal(parts, n, x, k - 1);
      NormAdd(Total(parts, n, k - 1), parts[k - 1]);
      assert x[..k][..k - 1] == x[..k - 1];
    }
  }

  lemma {:induction false} DifferenceOfTotals(a: seq<Vector>, b: seq<Vector>, c: seq<Vector>, n: nat, k: nat)
    requires k <= |a| == |b| == |c|
    requires forall u :: 0 <= u < |a| ==> |a[u]| == |b[u]| == |c[u]| == n
    requires forall u :: 0 <= u < k ==> c[u] == Sub(a[u], b[u])
    ensures Total(c, n, k) == Sub(Total(a, n, k), Total(b, n, k))
  {
    if k > 0 {
      DifferenceOfTotals(a, b, c, n, k - 1);
      AddSub(Total(a, n, k - 1), Total(b, n, k - 1), a[k - 1], b[k - 1]);
    }
  }

  lemma FlowConserves(out: Graph, x: Vector)
    requires IsGraph(out) && |out| == |x|
    ensures Sum(Flow(out, x, |out|)) == Sum(x)
  {
    forall u | 0 <= u < |out|
      ensures Sum(Parts(out, x)[u]) == x[u]
    {
      PassedConserves(out, u, x[u]);
    }
    SumOfTotal(Parts(out, x), |out|, x, |out|);
    assert x[..|out|] == x;
  }

  lemma FlowKeepsSign(out: Graph, x: Vector)
    requires |out| == |x| && NonNegative(x)
    ensures NonNegative(Flow(out, x, |out|))
  {
    forall u | 0 <= u < |out|
      ensures NonNegative(Parts(out, x)[u])
    {
      PassedKeepsSign(out, u, x[u]);
    }
    SignOfTotal(Parts(out, x), |out|, |out|);
  }

  lemma FlowDoesNotExpand(out: Graph, x: Vector)
    requires IsGraph(out) && |out| == |x|
    ensures Norm(Flow(out, x, |out|)) <= Norm(x)
  {
    forall u | 0 <= u < |out|
      ensures Norm(Parts(out, x)[u]) <= Abs(x[u])
    {
      PassedDoesNotExpand(out, u, x[u]);
    }
    NormOfTotal(Parts(out, x), |out|, x, |out|);
    assert x[..|out|] == x;
  }

  lemma FlowIsLinear(out: Graph, x: Vector, y: Vector)
    requires |out| == |x| == |y|
    ensures Flow(out, Sub(x, y), |out|) == Sub(Flow(out, x, |out|), Flow(out, y, |out|))
  {
    forall u | 0 <= u < |out|
      ensures Parts(out, Sub(x, y))[u] == Sub(Parts(out, x)[u], Parts(out, y)[u])
    {
      PassedIsLinear(out, u, x[u], y[u]);
    }
    DifferenceOfTotals(Parts(out, x), Parts(out, y), Parts(out, Sub(x, y)), |out|, |out|);
  }

  // -------------------------------------------------------------------------
  // One iteration

  ghost predicate IsDistribution(x: Vector) {
    NonNegative(x) && Sum(x) == 1.0
  }

  /** The share every page starts an iteration with. */
  function BaseShare(n: nat): real
    requires n > 0
  {
    (1.0 - DAMPING) / n as real
  }

  lemma BaseSharesSum(n: nat)
    requires n > 0
    ensures Sum(Fill(n, BaseShare(n))) == 1.0 - DAMPING && BaseShare(n) >= 0.0
  {
    SumFill(n, BaseShare(n));
  }

  lemma MassOfMix(base: Vector, flow: Vector)
    requires |base| == |flow|
    ensures Sum(Add(base, Scale(DAMPING, flow))) == Sum(base) + DAMPING * Sum(flow)
  {
    SumScale(DAMPING, flow);
    SumAdd(base, Scale(DAMPING, flow));
  }

  /** A share of the mass is handed out evenly and the rest handed on. */
  lemma StepMass(out: Graph, x: Vector, mass: real)
    requires IsGraph(out) && |out| == |x| > 0 && mass == Sum(x)
    ensures Sum(Step(out, x)) == 1.0 - DAMPING + DAMPING * mass
  {
    FlowConserves(out, x);
    BaseSharesSum(|out|);
    MassOfMix(Fill(|out|, BaseShare(|out|)), Flow(out, x, |out|));
  }

  /** An iteration keeps the total mass 1 and gives every page at least its uniform share. */
  lemma StepKeepsMass(out: Graph, x: Vector)
    requires IsGraph(out) && |out| == |x| > 0 && IsDistribution(x)
    ensures IsDistribution(Step(out, x))
    ensures forall v :: 0 <= v < |out| ==> Step(out, x)[v] >= BaseShare(|out|)
  {
    StepMass(out, x, 1.0);
    FlowKeepsSign(out, x);
    ScaleKeepsSign(DAMPING, Flow(out, x, |out|));
    BaseSharesSum(|out|);
  }

  lemma StepDifference(out: Graph, x: Vector, y: Vector)
    requires |out| == |x| == |y| > 0
    ensures Sub(Step(out, x), Step(out, y)) == Scale(DAMPING, Flow(out, Sub(x, y), |out|))
  {
    var base, flowX, flowY := Fill(|out|, BaseShare(|out|)), Flow(out, x, |out|), Flow(out, y, |out|);
    FlowIsLinear(out, x, y);
    SubScale(DAMPING, flowX, flowY);
    AddCancels(base, Scale(DAMPING, flowX), Scale(DAMPING, flowY));
  }

  lemma AddCancels(a: Vector, b: Vector, c: Vector)
    requires |a| == |b| == |c|
    ensures Sub(Add(a, b), Add(a, c)) == Sub(b, c)
  {
  }

  /** An iteration brings any two vectors closer by the damping factor. */
  lemma StepContracts(out: Graph, x: Vector, y: Vector)
    requires IsGraph(out) && |out| == |x| == |y| > 0
    ensures Distance(Step(out, x), Step(out, y)) <= DAMPING * Distance(x, y)
  {
    var between := Sub(x, y);
    StepDifference(out, x, y);
    NormDamped(Flow(out, between, |out|));
    FlowDoesNotExpand(out, between);
  }

  // -------------------------------------------------------------------------
  // Runs of the iteration

  /** `bound` after `k` multiplications by the damping factor. */
  function Damped(bound: real, k: nat): real {
    if k == 0 then bound else DAMPING * Damped(bound, k - 1)
  }

  lemma {:induction false} IterateKeepsMass(out: Graph, x: Vector, k: nat)
    requires IsGraph(out) && |out| == |x| > 0 && IsDistribution(x)
    ensures IsDistribution(Iterate(out, x, k))
    ensures k > 0 ==> forall v :: 0 <= v < |out| ==> Iterate(out, x, k)[v] >= BaseShare(|out|)
  {
    if k > 0 {
      IterateKeepsMass(out, x, k - 1);
      StepKeepsMass(out, Iterate(out, x, k - 1));
    }
  }

  lemma {:induction false} IterateConverges(out: Graph, x: Vector, fixed: Vector, k: nat)
    requires IsGraph(out) && |out| == |x| == |fixed| > 0
    requires Step(out, fixed) == fixed
    ensures Distance(Iterate(out, x, k), fixed) <= Damped(Distance(x, fixed), k)
  {
    if k > 0 {
      IterateConverges(out, x, fixed, k - 1);
      StepContracts(out, Iterate(out, x, k - 1), fixed);
    }
  }

  lemma {:induction false} DampedIsMonotone(a: real, b: real, k: nat)
    requires a <= b
    ensures Damped(a, k) <= Damped(b, k)
  {
    if k > 0 {
      DampedIsMonotone(a, b, k - 1);
    }
  }

  /** At most one vector is left unchanged by the iteration. */
  lemma FixedVectorIsUnique(out: Graph, x: Vector, y: Vector)
    requires IsGraph(out) && |out| == |x| == |y| > 0
    requires Step(out, x) == x && Step(out, y) == y
    ensures x == y
  {
    StepContracts(out, x, y);
    NormIsNonNegative(Sub(x, y));
    NormZero(Sub(x, y));
    forall v | 0 <= v < |x|
      ensures x[v] == y[v]
    {
      assert Sub(x, y)[v] == 0.0;
    }
  }

  function Uniform(n: nat): Vector
    requires n > 0
  {
    Fill(n, 1.0 / n as real)
  }

  lemma UniformIsDistribution(n: nat)
    requires n > 0
    ensures IsDistribution(Uniform(n))
  {
    SumFill(n, 1.0 / n as real);
  }

  /** The ranks sum to one and approach the stationary distribution geometrically. */
  lemma RanksApproachStationary(out: Graph, fixed: Vector, k: nat)
    requires IsGraph(out) && |out| == |fixed| > 0
    requires Step(out, fixed) == fixed && IsDistribution(fixed)
    ensures IsDistribution(Iterate(out, Uniform(|out|), k))
    ensures Distance(Iterate(out, Uniform(|out|), k), fixed) <= Damped(2.0, k)
  {
    var start := Uniform(|out|);
    UniformIsDistribution(|out|);
    IterateKeepsMass(out, start, k);
    IterateConverges(out, start, fixed, k);
    NormSub(start, fixed);
    NormOfNonNegative(start);
    NormOfNonNegative(fixed);
    DampedIsMonotone(Distance(start, fixed), 2.0, k);
  }

  /** Each round changes the ranks by less than the one before. */
  lemma {:induction false} RoundsSettle(out: Graph, k: nat)
    requires IsGraph(out) && |out| > 0
    ensures Distance(Iterate(out, Uniform(|out|), k + 1), Iterate(out, Uniform(|out|), k)) <= Damped(2.0, k)
  {
    var start := Uniform(|out|);
    if k == 0 {
      UniformIsDistribution(|out|);
      StepKeepsMass(out, start);
      NormSub(Step(out, start), start);
      NormOfNonNegative(start);
      NormOfNonNegative(Step(out, start));
      assert Iterate(out, start, 1) == Step(out, start);
    } else {
      RoundsSettle(out, k - 1);
      StepContracts(out, Iterate(out, start, k), Iterate(out, start, k - 1));
    }
  }

  /** After the twenty rounds the indexer runs, the distance left is below 0.08. */
  lemma TwentyRoundsBound()
    ensures Damped(2.0, ITERATIONS) < 0.08
  {
    assert Damped(2.0, 10) < 0.394;
    assert Damped(2.0, 15) < 0.1749;
  }

  // -------------------------------------------------------------------------
  // The computation

  /** What each page receives from a total of `dangling` rank on pages without links. */
  function Spread(dangling: real, n: nat): real
    requires n > 0
  {
    DAMPING * dangling / n as real
  }

  /** `next` and the dangling total account for what the first `node` nodes pass on. */
  ghost predicate Accounted(out: Graph, rank: Vector, node: nat, next: Vector, dangling: real)
    requires node <= |out| == |rank| == |next| && |out| > 0
  {
    Add(next, Fill(|out|, Spread(dangling, |out|)))
      == Add(Fill(|out|, BaseShare(|out|)), Scale(DAMPING, Flow(out, rank, node)))
  }

  /** Adding the damped share of the next node to both sides. */
  lemma AccountNext(out: Graph, rank: Vector, node: nat, held: Vector, more: Vector)
    requires node < |out| == |rank| == |held| == |more|
    requires held == Add(Fill(|out|, BaseShare(|out|)), Scale(DAMPING, Flow(out, rank, node)))
    requires more == Scale(DAMPING, Passed(out, node, rank[node]))
    ensures Add(held, more) == Add(Fill(|out|, BaseShare(|out|)), Scale(DAMPING, Flow(out, rank, node + 1)))
  {
    var flow, passed := Flow(out, rank, node), Passed(out, node, rank[node]);
    assert Flow(out, rank, node + 1) == Add(flow, passed);
    ScaleAdd(DAMPING, flow, passed);
    AddAssociates(Fill(|out|, BaseShare(|out|)), Scale(DAMPING, flow), more);
  }

  lemma AddAssociates(a: Vector, b: Vector, c: Vector)
    requires |a| == |b| == |c|
    ensures Add(Add(a, b), c) == Add(a, Add(b, c))
  {
  }

  lemma AddSwaps(a: Vector, b: Vector, c: Vector)
    requires |a| == |b| == |c|
    ensures Add(Add(a, b), c) == Add(Add(a, c), b)
  {
  }

  lemma AccountDangling(out: Graph, rank: Vector, node: nat, next: Vector, dangling: real)
    requires node < |out| == |rank| == |next| && out[node] == []
    requires Accounted(out, rank, node, next, dangling)
    ensures Accounted(out, rank, node + 1, next, dangling + rank[node])
  {
    var n, share := |out|, DAMPING * (rank[node] / |out| as real);
    ScaleFill(DAMPING, n, rank[node] / n as real);
    AccountNext(out, rank, node, Add(next, Fill(n, Spread(dangling, n))), Fill(n, share));
    SpreadAdds(dangling, rank[node], n);
    AddFills(next, n, Spread(dangling, n), share);
  }

  lemma AddFills(a: Vector, n: nat, x: real, y: real)
    requires |a| == n
    ensures Add(Add(a, Fill(n, x)), Fill(n, y)) == Add(a, Fill(n, x + y))
  {
  }

  lemma ScaleFill(c: real, n: nat, x: real)
    ensures Scale(c, Fill(n, x)) == Fill(n, c * x)
  {
    forall i | 0 <= i < n
      ensures Scale(c, Fill(n, x))[i] == Fill(n, c * x)[i]
    {
      assert Fill(n, x)[i] == x;
    }
  }

  lemma DampedQuotient(x: real, n: nat)
    requires n > 0
    ensures DAMPING * x / n as real == DAMPING * (x / n as real)
  {
    var q := x / n as real;
    assert x == q * n as real;
    assert DAMPING * x == DAMPING * q * n as real;
  }

  lemma SpreadAdds(dangling: real, x: real, n: nat)
    requires n > 0
    ensures Spread(dangling + x, n) == Spread(dangling, n) + DAMPING * (x / n as real)
  {
    DampedQuotient(dangling + x, n);
    DampedQuotient(dangling, n);
    QuotientSub(dangling + x, dangling, n);
  }

  lemma DampedPassed(out: Graph, node: nat, x: real)
    requires node < |out| && out[node] != []
    ensures Scale(DAMPING, Passed(out, node, x))
            == Scale(DAMPING * x / |out[node]| as real, Occurrences(out[node], |out|))
  {
    DampedQuotient(x, |out[node]|);
    ScaleTo(DAMPING, x / |out[node]| as real, DAMPING * x / |out[node]| as real, Occurrences(out[node], |out|));
  }

  lemma AccountLinks(out: Graph, rank: Vector, node: nat, next: Vector, dangling: real, share: real)
    requires node < |out| == |rank| == |next| && out[node] != []
    requires share == DAMPING * rank[node] / |out[node]| as real
    requires Accounted(out, rank, node, next, dangling)
    ensures Accounted(out, rank, node + 1, Add(next, Scale(share, Occurrences(out[node], |out|))), dangling)
  {
    var spread, more := Fill(|out|, Spread(dangling, |out|)), Scale(share, Occurrences(out[node], |out|));
    DampedPassed(out, node, rank[node]);
    AccountNext(out, rank, node, Add(next, spread), more);
    AddSwaps(next, spread, more);
  }

  /** Every node hands its rank on; the rank of nodes without links is collected in the dangling total. */
  method HandOn(out: Graph, rank: Vector) returns (next: Vector, dangling: real)
    requires IsGraph(out) && |out| == |rank| > 0
    ensures |next| == |out| && Accounted(out, rank, |out|, next, dangling)
  {
    next := Fill(|out|, BaseShare(|out|));
    dangling := 0.0;
    for node := 0 to |out|
      invariant |next| == |out| && Accounted(out, rank, node, next, dangling)
    {
      var targets := out[node];
      if targets == [] {
        AccountDangling(out, rank, node, next, dangling);
        dangling := dangling + rank[node];
      } else {
        var share := DAMPING * rank[node] / |targets| as real;
        AccountLinks(out, rank, node, next, dangling, share);
        next := Deposit(next, targets, share);
      }
    }
  }

  method AddEverywhere(ranks: Vector, spread: real) returns (next: Vector)
    ensures next == Add(ranks, Fill(|ranks|, spread))
  {
    next := ranks;
    for v := 0 to |ranks|
      invariant |next| == |ranks|
      invariant forall w :: 0 <= w < v ==> next[w] == ranks[w] + spread
      invariant forall w :: v <= w < |ranks| ==> next[w] == ranks[w]
    {
      next := next[v := next[v] + spread];
    }
  }

  /** One round: ranks are handed on, then the dangling total is spread over every page. */
  method Propagate(out: Graph, rank: Vector) returns (next: Vector)
    requires IsGraph(out) && |out| == |rank| > 0
    ensures next == Step(out, rank)
  {
    var dangling;
    next, dangling := HandOn(out, rank);
    next := AddEverywhere(next, Spread(dangling, |out|));
  }

  /** Adds `share` at every target, once for each time it is listed. */
  method Deposit(ranks: Vector, targets: seq<nat>, share: real) returns (next: Vector)
    requires forall i :: 0 <= i < |targets| ==> targets[i] < |ranks|
    ensures next == Add(ranks, Scale(share, Occurrences(targets, |ranks|)))
  {
    next := ranks;
    for i := 0 to |targets|
      invariant next == Add(ranks, Scale(share, Occurrences(targets[..i], |ranks|)))
    {
      OneMoreOccurrence(targets, i, |ranks|);
      ScaleAdd(share, Occurrences(targets[..i], |ranks|), Unit(|ranks|, targets[i]));
      ScaleUnit(share, |ranks|, targets[i]);
      next := next[targets[i] := next[targets[i]] + share];
    }
    assert targets[..|targets|] == targets;
  }

  lemma ScaleUnit(c: real, n: nat, at: nat)
    ensures Scale(c, Unit(n, at)) == seq(n, v => if v == at then c else 0.0)
  {
  }

  method Compute(out: Graph, rounds: nat := ITERATIONS) returns (rank: Vector)
    requires IsGraph(out)
    ensures rank == if |out| == 0 then [] else Iterate(out, Uniform(|out|), rounds)
  {
    var n := |out|;
    if n == 0 {
      return [];
    }
    rank := Fill(n, 1.0 / n as real);
    for round := 0 to rounds
      invariant |rank| == n && rank == Iterate(out, Uniform(n), round)
    {
      rank := Propagate(out, rank);
    }
  }

  // -------------------------------------------------------------------------
  // What single pages pass on

  lemma {:induction false} OccursOnce(targets: seq<nat>, v: nat)
    requires forall j, k :: 0 <= j < k < |targets| ==> targets[j] != targets[k]
    ensures multiset(targets)[v] == if v in targets then 1 else 0
  {
    if targets != [] {
      var n := |targets| - 1;
      assert targets == targets[..n] + [targets[n]];
      OccursOnce(targets[..n], v);
    }
  }

  /** A page shares its rank evenly among the pages it links to, or among all when it links to none. */
  lemma LinksShareEvenly(out: Graph, u: nat, x: real, v: nat)
    requires u < |out| && v < |out|
    requires forall j, k :: 0 <= j < k < |out[u]| ==> out[u][j] != out[u][k]
    ensures Passed(out, u, x)[v]
            == if out[u] == [] then x / |out| as real else if v in out[u] then x / |out[u]| as real else 0.0
  {
    OccursOnce(out[u], v);
  }

  /** Two pages, the first linking to the second: their ranks after one round from even shares. */
  lemma TwoPagesOneRound()
    ensures Iterate([[1], []], Uniform(2), 1) == [0.2875, 0.7125]
  {
    var out: Graph, x: Vector := [[1], []], Uniform(2);
    assert x == [0.5, 0.5];
    var first, second := Passed(out, 0, 0.5), Passed(out, 1, 0.5);
    LinksShareEvenly(out, 0, 0.5, 0);
    LinksShareEvenly(out, 0, 0.5, 1);
    LinksShareEvenly(out, 1, 0.5, 0);
    LinksShareEvenly(out, 1, 0.5, 1);
    assert first == [0.0, 0.5] && second == [0.25, 0.25];
    var flow := Flow(out, x, 2);
    assert Flow(out, x, 0) == [0.0, 0.0];
    assert Parts(out, x)[0] == first && Parts(out, x)[1] == second;
    assert Flow(out, x, 1) == [0.0, 0.5];
    assert flow == [0.25, 0.75];
    assert Step(out, x)[0] == 0.075 + 0.85 * 0.25 && Step(out, x)[1] == 0.075 + 0.85 * 0.75;
    assert Iterate(out, x, 0) == x;
  }
}
