/**
 The stationary distribution exists: the linear system behind the iteration has a
 non-negative solution for every graph, found by eliminating one page after another.
 */
module Stationary {
  import opened PageRank

  type Matrix = (nat, nat) -> real

  function Times(x: real, y: real): real {
    x * y
  }

  /** The first `n` terms of row `i` applied to `x`. */
  ghost function RowSum(a: Matrix, i: nat, x: nat -> real, n: nat): real {
    if n == 0 then 0.0 else RowSum(a, i, x, n - 1) + Times(a(i, n - 1), x(n - 1))
  }

  ghost function ColumnSum(a: Matrix, j: nat, n: nat): real {
    if n == 0 then 0.0 else ColumnSum(a, j, n - 1) + a(n - 1, j)
  }

  /** Non-negative, every column with a total below one. */
  ghost predicate IsShrinking(a: Matrix, n: nat) {
    && (forall i: nat, j: nat :: i < n && j < n ==> a(i, j) >= 0.0)
    && (forall j: nat :: j < n ==> ColumnSum(a, j, n) < 1.0)
  }

  ghost predicate Solves(a: Matrix, b: nat -> real, x: nat -> real, n: nat) {
    forall i: nat :: i < n ==> x(i) >= 0.0 && x(i) == b(i) + RowSum(a, i, x, n)
  }

  // -------------------------------------------------------------------------
  // Elimination

  /** By how much a link of a page to itself raises what passes it. */
  function Gain(loop: real): real
    requires loop < 1.0
  {
    1.0 / (1.0 - loop)
  }

  lemma GainMeaning(loop: real)
    requires loop < 1.0
    ensures Gain(loop) > 0.0 && Gain(loop) == 1.0 + loop * Gain(loop)
  {
    var gain := Gain(loop);
    assert gain * (1.0 - loop) == 1.0;
    if gain <= 0.0 {
      ProductSign(1.0 - loop, -gain);
    }
  }

  lemma ProductSign(x: real, y: real)
    requires x >= 0.0 && y >= 0.0
    ensures x * y >= 0.0
  {
  }

  /** What enters by `entry`, leaves by `exit` and is raised by `gain` on the way. */
  function Through(entry: real, exit: real, gain: real): real {
    Times(entry, Times(exit, gain))
  }

  ghost function Eliminated(a: Matrix, last: nat, gain: real): Matrix {
    (i: nat, j: nat) => a(i, j) + Through(a(i, last), a(last, j), gain)
  }

  ghost function EliminatedSide(a: Matrix, b: nat -> real, last: nat, gain: real): nat -> real {
    (i: nat) => b(i) + Through(a(i, last), b(last), gain)
  }

  lemma ThroughIsNonNegative(entry: real, exit: real, gain: real)
    requires entry >= 0.0 && exit >= 0.0 && gain >= 0.0
    ensures Through(entry, exit, gain) >= 0.0
  {
    ProductSign(exit, gain);
    ProductSign(entry, exit * gain);
  }

  lemma {:induction false} EntryWithinColumn(a: Matrix, j: nat, i: nat, n: nat)
    requires i < n && forall k: nat :: k < n ==> a(k, j) >= 0.0
    ensures 0.0 <= a(i, j) <= ColumnSum(a, j, n)
  {
    ColumnIsNonNegative(a, j, n - 1);
    if i < n - 1 {
      EntryWithinColumn(a, j, i, n - 1);
    }
  }

  lemma {:induction false} ColumnIsNonNegative(a: Matrix, j: nat, n: nat)
    requires forall k: nat :: k < n ==> a(k, j) >= 0.0
    ensures ColumnSum(a, j, n) >= 0.0
  {
    if n > 0 {
      ColumnIsNonNegative(a, j, n - 1);
    }
  }

  lemma DistributeOver(x: real, y: real, c: real)
    ensures (x + y) * c == x * c + y * c
  {
  }

  lemma {:induction false} EliminatedColumn(a: Matrix, last: nat, j: nat, n: nat, gain: real)
    ensures ColumnSum(Eliminated(a, last, gain), j, n)
            == ColumnSum(a, j, n) + Through(ColumnSum(a, last, n), a(last, j), gain)
  {
    if n > 0 {
      EliminatedColumn(a, last, j, n - 1, gain);
      DistributeOver(ColumnSum(a, last, n - 1), a(n - 1, last), a(last, j) * gain);
    }
  }

  /** What leaves a page through the last one is at most what enters the last one. */
  lemma AtMostEntering(entering: real, leaving: real, loop: real, gain: real)
    requires entering >= 0.0 && gain > 0.0 && gain == 1.0 + loop * gain && leaving + loop < 1.0
    ensures Through(leaving, entering, gain) <= entering
  {
    ProductSign(entering, gain);
    ProductSign(entering * gain, 1.0 - loop - leaving);
    assert entering * gain * (1.0 - loop - leaving)
        == entering * (gain - loop * gain) - leaving * (entering * gain);
  }

  lemma EliminationShrinks(a: Matrix, n: nat)
    requires n > 0 && IsShrinking(a, n)
    ensures a(n - 1, n - 1) < 1.0
    ensures IsShrinking(Eliminated(a, n - 1, Gain(a(n - 1, n - 1))), n - 1)
  {
    var last := n - 1;
    EntryWithinColumn(a, last, last, n);
    var loop := a(last, last);
    var gain := Gain(loop);
    GainMeaning(loop);
    var fewer := Eliminated(a, last, gain);
    forall i: nat, j: nat | i < last && j < last
      ensures fewer(i, j) >= 0.0
    {
      ThroughIsNonNegative(a(i, last), a(last, j), gain);
    }
    forall j: nat | j < last
      ensures ColumnSum(fewer, j, last) < 1.0
    {
      EliminatedColumn(a, last, j, last, gain);
      AtMostEntering(a(last, j), ColumnSum(a, last, last), loop, gain);
      assert ColumnSum(a, j, n) == ColumnSum(a, j, last) + a(last, j);
    }
  }

  lemma {:induction false} EliminatedRow(a: Matrix, last: nat, i: nat, x: nat -> real, n: nat, gain: real)
    ensures RowSum(Eliminated(a, last, gain), i, x, n)
            == RowSum(a, i, x, n) + Through(a(i, last), RowSum(a, last, x, n), gain)
  {
    if n > 0 {
      EliminatedRow(a, last, i, x, n - 1, gain);
      OneMoreThrough(a(i, n - 1), a(i, last), RowSum(a, last, x, n - 1), a(last, n - 1), x(n - 1), gain);
    }
  }

  lemma OneMoreThrough(direct: real, entry: real, sum: real, exit: real, x: real, gain: real)
    ensures Times(direct + Through(entry, exit, gain), x) + Through(entry, sum, gain)
            == Times(direct, x) + Through(entry, sum + Times(exit, x), gain)
  {
    DistributeOver(direct, Through(entry, exit, gain), x);
    DistributeOver(sum, exit * x, gain);
    Regroup(entry, exit, gain, x);
    DistributeOver(sum * gain, exit * x * gain, entry);
  }

  lemma Regroup(entry: real, exit: real, gain: real, x: real)
    ensures entry * (exit * gain) * x == entry * (exit * x * gain)
  {
  }

  lemma {:induction false} RowAgrees(a: Matrix, i: nat, x: nat -> real, y: nat -> real, n: nat)
    requires forall k: nat :: k < n ==> x(k) == y(k)
    ensures RowSum(a, i, x, n) == RowSum(a, i, y, n)
  {
    if n > 0 {
      RowAgrees(a, i, x, y, n - 1);
    }
  }

  lemma {:induction false} RowIsNonNegative(a: Matrix, i: nat, x: nat -> real, n: nat)
    requires forall k: nat :: k < n ==> a(i, k) >= 0.0 && x(k) >= 0.0
    ensures RowSum(a, i, x, n) >= 0.0
  {
    if n > 0 {
      RowIsNonNegative(a, i, x, n - 1);
      assert a(i, n - 1) * x(n - 1) >= 0.0;
    }
  }

  /** The value of the last page, once the others are known. */
  lemma LastValue(sum: real, loop: real, gain: real)
    requires sum >= 0.0 && gain > 0.0 && gain == 1.0 + loop * gain
    ensures Times(sum, gain) >= 0.0 && Times(sum, gain) == sum + Times(loop, Times(sum, gain))
  {
    ProductSign(sum, gain);
    assert sum * gain == sum * (1.0 + loop * gain);
  }

  lemma SideAndSum(entry: real, side: real, sum: real, gain: real)
    ensures Through(entry, side, gain) + Through(entry, sum, gain) == Times(entry, Times(side + sum, gain))
  {
    DistributeOver(side, sum, gain);
    DistributeOver(side * gain, sum * gain, entry);
  }

  /** A solution of the smaller system, continued by the value of the last page. */
  ghost function Continued(y: nat -> real, last: nat, value: real): nat -> real {
    (k: nat) => if k == last then value else y(k)
  }

  /** The two ways through the last page add up to its value. */
  lemma BothWays(direct: real, row: real, entry: real, side: real, sum: real, gain: real)
    ensures direct + Through(entry, side, gain) + (row + Through(entry, sum, gain))
            == direct + (row + Times(entry, Times(side + sum, gain)))
  {
    SideAndSum(entry, side, sum, gain);
  }

  /** An earlier row, with the value of the last page put back in. */
  lemma EarlierRow(a: Matrix, b: nat -> real, y: nat -> real, last: nat, gain: real, i: nat, sum: real)
    requires sum == RowSum(a, last, y, last)
    requires y(i) == EliminatedSide(a, b, last, gain)(i) + RowSum(Eliminated(a, last, gain), i, y, last)
    ensures y(i) == b(i) + (RowSum(a, i, y, last) + Times(a(i, last), Times(b(last) + sum, gain)))
  {
    EliminatedRow(a, last, i, y, last, gain);
    BothWays(b(i), RowSum(a, i, y, last), a(i, last), b(last), sum, gain);
  }

  lemma ContinuedRow(a: Matrix, i: nat, y: nat -> real, last: nat, value: real)
    ensures RowSum(a, i, Continued(y, last, value), last + 1) == RowSum(a, i, y, last) + Times(a(i, last), value)
  {
    RowAgrees(a, i, Continued(y, last, value), y, last);
  }

  lemma ContinuedSolves(a: Matrix, b: nat -> real, y: nat -> real, last: nat, gain: real, value: real)
    requires a(last, last) < 1.0 && gain > 0.0 && gain == 1.0 + a(last, last) * gain
    requires b(last) + RowSum(a, last, y, last) >= 0.0
    requires Solves(Eliminated(a, last, gain), EliminatedSide(a, b, last, gain), y, last)
    requires value == Times(b(last) + RowSum(a, last, y, last), gain)
    ensures Solves(a, b, Continued(y, last, value), last + 1)
  {
    LastValue(b(last) + RowSum(a, last, y, last), a(last, last), gain);
    forall i: nat | i < last + 1
      ensures Continued(y, last, value)(i) >= 0.0
      ensures Continued(y, last, value)(i) == b(i) + RowSum(a, i, Continued(y, last, value), last + 1)
    {
      ContinuedRow(a, i, y, last, value);
      if i < last {
        EarlierRow(a, b, y, last, gain, i, RowSum(a, last, y, last));
      }
    }
  }

  /** A shrinking system with a non-negative side has a non-negative solution. */
  lemma {:induction false} SolutionExists(a: Matrix, b: nat -> real, n: nat) returns (x: nat -> real)
    requires IsShrinking(a, n) && forall i: nat :: i < n ==> b(i) >= 0.0
    ensures Solves(a, b, x, n)
  {
    if n == 0 {
      x := (k: nat) => 0.0;
    } else {
      var last := n - 1;
      EliminationShrinks(a, n);
      var gain := Gain(a(last, last));
      GainMeaning(a(last, last));
      forall i: nat | i < last
        ensures EliminatedSide(a, b, last, gain)(i) >= 0.0
      {
        ThroughIsNonNegative(a(i, last), b(last), gain);
      }
      var y := SolutionExists(Eliminated(a, last, gain), EliminatedSide(a, b, last, gain), last);
      RowIsNonNegative(a, last, y, last);
      var value := Times(b(last) + RowSum(a, last, y, last), gain);
      ContinuedSolves(a, b, y, last, gain, value);
      x := Continued(y, last, value);
    }
  }

  // -------------------------------------------------------------------------
  // The system behind the iteration

  /** What page `j` passes on of a rank of one to page `i`, damped. */
  ghost function Shares(out: Graph): Matrix {
    (i: nat, j: nat) =>
      if i < |out| && j < |out| then Times(DAMPING, Passed(out, j, 1.0)[i]) else 0.0
  }

  lemma Commute(x: real, y: real, z: real)
    ensures x * y * z == x * z * y
  {
  }

  lemma UnitQuotient(x: real, n: real)
    requires n > 0.0
    ensures x / n == 1.0 / n * x
  {
    var unit := 1.0 / n;
    assert unit * n == 1.0;
    Commute(unit, x, n);
    assert unit * n * x == x;
  }

  lemma EvenShare(c: real, x: real, n: real)
    requires n > 0.0
    ensures Times(c, x / n) == Times(Times(c, 1.0 / n), x)
  {
    UnitQuotient(x, n);
    assert c * (1.0 / n * x) == c * (1.0 / n) * x;
  }

  /** What goes along `times` of `n` links. */
  function Portion(x: real, n: real, times: real): real
    requires n > 0.0
  {
    x / n * times
  }

  lemma LinkShare(c: real, x: real, n: real, times: real)
    requires n > 0.0
    ensures Times(c, Portion(x, n, times)) == Times(Times(c, Portion(1.0, n, times)), x)
  {
    UnitQuotient(x, n);
    Commute(1.0 / n, x, times);
    assert c * (1.0 / n * times * x) == c * (1.0 / n * times) * x;
  }

  lemma PassedAt(out: Graph, u: nat, x: real, i: nat)
    requires u < |out| && i < |out|
    ensures Passed(out, u, x)[i]
            == if out[u] == [] then x / |out| as real else Portion(x, |out[u]| as real, Occurrences(out[u], |out|)[i])
  {
  }

  lemma PassedScales(out: Graph, u: nat, c: real, x: real, i: nat)
    requires u < |out| && i < |out|
    ensures Times(c, Passed(out, u, x)[i]) == Times(Times(c, Passed(out, u, 1.0)[i]), x)
  {
    PassedAt(out, u, x, i);
    PassedAt(out, u, 1.0, i);
    if out[u] == [] {
      EvenShare(c, x, |out| as real);
    } else {
      LinkShare(c, x, |out[u]| as real, Occurrences(out[u], |out|)[i]);
    }
  }

  ghost function Entries(x: Vector): nat -> real {
    (j: nat) => if j < |x| then x[j] else 0.0
  }

  lemma FlowOfOneMore(out: Graph, x: Vector, i: nat, k: nat)
    requires |out| == |x| && i < |out| && k < |out|
    ensures Times(DAMPING, Flow(out, x, k + 1)[i])
            == Times(DAMPING, Flow(out, x, k)[i]) + Times(DAMPING, Passed(out, k, x[k])[i])
  {
  }

  lemma RowOfOneMore(out: Graph, x: Vector, i: nat, k: nat)
    requires |out| == |x| && i < |out| && k < |out|
    ensures RowSum(Shares(out), i, Entries(x), k + 1)
            == RowSum(Shares(out), i, Entries(x), k) + Times(Times(DAMPING, Passed(out, k, 1.0)[i]), x[k])
  {
  }

  /** How far row `i` is from what the first `k` pages pass on to page `i`. */
  ghost function RowGap(out: Graph, x: Vector, i: nat, k: nat): real
    requires |out| == |x| && i < |out| && k <= |out|
  {
    RowSum(Shares(out), i, Entries(x), k) - Times(DAMPING, Flow(out, x, k)[i])
  }

  lemma NoGapYet(out: Graph, x: Vector, i: nat)
    requires |out| == |x| && i < |out|
    ensures RowGap(out, x, i, 0) == 0.0
  {
    assert Flow(out, x, 0)[i] == 0.0;
  }

  lemma GapStays(out: Graph, x: Vector, i: nat, k: nat)
    requires |out| == |x| && i < |out| && k < |out|
    ensures RowGap(out, x, i, k + 1) == RowGap(out, x, i, k)
  {
    RowOfOneMore(out, x, i, k);
    FlowOfOneMore(out, x, i, k);
    PassedScales(out, k, DAMPING, x[k], i);
  }

  lemma {:induction false} NoGap(out: Graph, x: Vector, i: nat, k: nat)
    requires |out| == |x| && i < |out| && k <= |out|
    ensures RowGap(out, x, i, k) == 0.0
  {
    if k == 0 {
      NoGapYet(out, x, i);
    } else {
      NoGap(out, x, i, k - 1);
      GapStays(out, x, i, k - 1);
    }
  }

  /** Row `i` applied to the ranks is what page `i` receives. */
  lemma RowIsFlow(out: Graph, x: Vector, i: nat, k: nat)
    requires |out| == |x| && i < |out| && k <= |out|
    ensures RowSum(Shares(out), i, Entries(x), k) == Times(DAMPING, Flow(out, x, k)[i])
  {
    NoGap(out, x, i, k);
  }

  lemma {:induction false} ColumnIsSum(out: Graph, j: nat, k: nat)
    requires j < |out| && k <= |out|
    ensures ColumnSum(Shares(out), j, k) == Times(DAMPING, Sum(Passed(out, j, 1.0)[..k]))
  {
    if k > 0 {
      ColumnIsSum(out, j, k - 1);
      assert Passed(out, j, 1.0)[..k][..k - 1] == Passed(out, j, 1.0)[..k - 1];
    }
  }

  lemma SharesShrink(out: Graph)
    requires IsGraph(out)
    ensures IsShrinking(Shares(out), |out|)
  {
    forall i: nat, j: nat | i < |out| && j < |out|
      ensures Shares(out)(i, j) >= 0.0
    {
      PassedKeepsSign(out, j, 1.0);
    }
    forall j: nat | j < |out|
      ensures ColumnSum(Shares(out), j, |out|) < 1.0
    {
      ColumnIsSum(out, j, |out|);
      PassedConserves(out, j, 1.0);
      assert Passed(out, j, 1.0)[..|out|] == Passed(out, j, 1.0);
    }
  }

  /** A vector the iteration leaves alone has mass one. */
  lemma FixedHasMassOne(out: Graph, fixed: Vector)
    requires IsGraph(out) && |out| == |fixed| > 0 && Step(out, fixed) == fixed
    ensures Sum(fixed) == 1.0
  {
    StepMass(out, fixed, Sum(fixed));
  }

  /** Every graph has a stationary distribution. */
  lemma StationaryExists(out: Graph) returns (fixed: Vector)
    requires IsGraph(out) && |out| > 0
    ensures |fixed| == |out| && Step(out, fixed) == fixed && IsDistribution(fixed)
  {
    var n := |out|;
    SharesShrink(out);
    BaseSharesSum(n);
    var x := SolutionExists(Shares(out), (i: nat) => BaseShare(n), n);
    fixed := seq(n, i requires 0 <= i < n => x(i));
    forall i | 0 <= i < n
      ensures Step(out, fixed)[i] == fixed[i]
    {
      RowAgrees(Shares(out), i, x, Entries(fixed), n);
      RowIsFlow(out, fixed, i, n);
    }
    FixedHasMassOne(out, fixed);
  }

  /** The ranks approach the one stationary distribution there is, geometrically. */
  lemma RanksConverge(out: Graph, k: nat) returns (fixed: Vector)
    requires IsGraph(out) && |out| > 0
    ensures |fixed| == |out| && Step(out, fixed) == fixed && IsDistribution(fixed)
    ensures forall other :: |other| == |out| && Step(out, other) == other ==> other == fixed
    ensures Distance(Iterate(out, Uniform(|out|), k), fixed) <= Damped(2.0, k)
  {
    fixed := StationaryExists(out);
    forall other | |other| == |out| && Step(out, other) == other
      ensures other == fixed
    {
      FixedVectorIsUnique(out, other, fixed);
    }
    RanksApproachStationary(out, fixed, k);
  }
}
