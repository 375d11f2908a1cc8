/**
 * The pieces of ForecastLearner.cluster and predict that are pure:
 * nearest-centre assignment with the first-minimum tie break, the
 * membership lists it builds, and the component-wise mean of a cluster.
 */
module Clustering {
  import opened Wrappers
  import opened Vectors

  /** The pluggable distance between two imputed vectors (norm by default). */
  type Metric = (seq<real>, seq<real>) -> real

  /**
   * Centre i is a first-nearest centre of x: no centre is closer, and
   * every centre before i is strictly farther.
   */
  ghost predicate FirstNearest(metric: Metric, x: seq<real>, centers: seq<seq<real>>, i: nat)
    requires i < |centers|
  {
    && (forall j :: 0 <= j < |centers| ==> metric(x, centers[i]) <= metric(x, centers[j]))
    && (forall j :: 0 <= j < i ==> metric(x, centers[i]) < metric(x, centers[j]))
  }

  /** At most one centre is first-nearest, so the tie break decides every case. */
  lemma FirstNearestUnique(metric: Metric, x: seq<real>, centers: seq<seq<real>>, i: nat, j: nat)
    requires i < |centers| && j < |centers|
    requires FirstNearest(metric, x, centers, i) && FirstNearest(metric, x, centers, j)
    ensures i == j
  {
    assert metric(x, centers[i]) <= metric(x, centers[j]);
    assert metric(x, centers[j]) <= metric(x, centers[i]);
  }

  /**
   * argmin's scan over centres 0..n-1: a later centre replaces the best
   * so far only when it is strictly closer to `x`.
   */
  function NearestBelow(metric: Metric, x: seq<real>, centers: seq<seq<real>>, n: nat): (r: nat)
    requires 0 < n <= |centers|
    ensures r < n
    ensures forall j :: 0 <= j < n ==> metric(x, centers[r]) <= metric(x, centers[j])
    ensures forall j :: 0 <= j < r ==> metric(x, centers[r]) < metric(x, centers[j])
  {
    if n == 1 then 0
    else
      var best := NearestBelow(metric, x, centers, n - 1);
      if metric(x, centers[n - 1]) < metric(x, centers[best]) then n - 1 else best
  }

  /**
   * argmin(lambda i: metric(x, centers[i]), range(k)): the centre closest
   * to `x`, the lowest index among equally close ones.
   */
  function Nearest(metric: Metric, x: seq<real>, centers: seq<seq<real>>): (r: nat)
    requires |centers| > 0
    ensures r < |centers| && FirstNearest(metric, x, centers, r)
  {
    NearestBelow(metric, x, centers, |centers|)
  }

  /** Nearest is the modelled argmin over range(k) with the distance to each centre as key. */
  lemma NearestIsArgMin(metric: Metric, x: seq<real>, centers: seq<seq<real>>)
    requires |centers| > 0
    ensures Nearest(metric, x, centers) ==
      ArgMin((i: nat) => if i < |centers| then metric(x, centers[i]) else 0.0, Range(|centers|))
  {
    var key := (i: nat) => if i < |centers| then metric(x, centers[i]) else 0.0;
    var indices := Range(|centers|);
    var r := ArgMin(key, indices);
    assert forall i :: 0 <= i < |centers| ==> indices[i] == i && key(i) == metric(x, centers[i]);
    FirstNearestUnique(metric, x, centers, Nearest(metric, x, centers), r);
  }

  /** The first-nearest centre of every example, in example order. */
  function Assignment(metric: Metric, examples: seq<seq<real>>, centers: seq<seq<real>>): (r: seq<nat>)
    requires |centers| > 0
    ensures |r| == |examples|
    ensures forall j :: 0 <= j < |r| ==> r[j] < |centers|
  {
    seq(|examples|, j requires 0 <= j < |examples| => Nearest(metric, examples[j], centers))
  }

  /**
   * The list clusters[c] once examples 0..n-1 have been appended to the
   * cluster `assign` names for them.
   */
  function MembersBelow(assign: seq<nat>, c: nat, n: nat): (r: seq<nat>)
    requires n <= |assign|
    ensures forall t :: 0 <= t < |r| ==> r[t] < n
  {
    if n == 0 then []
    else MembersBelow(assign, c, n - 1) + (if assign[n - 1] == c then [n - 1] else [])
  }

  /** [[] for i in range(k)] */
  function NoMembers(k: nat): (r: seq<seq<nat>>)
    ensures |r| == k && forall c :: 0 <= c < k ==> r[c] == []
  {
    if k == 0 then [] else NoMembers(k - 1) + [[]]
  }

  /**
   * The lists of the assignment pass once examples 0..n-1 have each been
   * appended to the list of their first-nearest centre.
   */
  function Pass(metric: Metric, examples: seq<seq<real>>, centers: seq<seq<real>>, n: nat): (r: seq<seq<nat>>)
    requires |centers| > 0 && n <= |examples|
    ensures |r| == |centers|
  {
    if n == 0 then NoMembers(|centers|)
    else
      var cs := Pass(metric, examples, centers, n - 1);
      var best := Nearest(metric, examples[n - 1], centers);
      cs[best := cs[best] + [n - 1]]
  }

  /** After examples 0..n-1, every list of the pass is that centre's MembersBelow. */
  lemma {:induction false} PassMembersBelow(metric: Metric, examples: seq<seq<real>>, centers: seq<seq<real>>, n: nat)
    requires |centers| > 0 && n <= |examples|
    ensures forall c :: 0 <= c < |centers| ==>
      Pass(metric, examples, centers, n)[c] == MembersBelow(Assignment(metric, examples, centers), c, n)
  {
    if n > 0 {
      PassMembersBelow(metric, examples, centers, n - 1);
      assert Assignment(metric, examples, centers)[n - 1] == Nearest(metric, examples[n - 1], centers);
    }
  }

  /** The full pass builds every centre's Members. */
  lemma PassMembers(metric: Metric, examples: seq<seq<real>>, centers: seq<seq<real>>)
    requires |centers| > 0
    ensures forall c :: 0 <= c < |centers| ==>
      Pass(metric, examples, centers, |examples|)[c] == Members(metric, examples, centers, c)
  {
    PassMembersBelow(metric, examples, centers, |examples|);
  }

  /** clusters[c] after a full assignment pass. */
  function Members(metric: Metric, examples: seq<seq<real>>, centers: seq<seq<real>>, c: nat): (r: seq<nat>)
    requires |centers| > 0
    ensures forall t :: 0 <= t < |r| ==> r[t] < |examples|
  {
    var assign := Assignment(metric, examples, centers);
    MembersBelow(assign, c, |assign|)
  }

  ghost predicate StrictlyAscending(r: seq<nat>)
  {
    forall s, t :: 0 <= s < t < |r| ==> r[s] < r[t]
  }

  lemma {:induction false} MembersBelowAscending(assign: seq<nat>, c: nat, n: nat)
    requires n <= |assign|
    ensures StrictlyAscending(MembersBelow(assign, c, n))
  {
    if n > 0 {
      MembersBelowAscending(assign, c, n - 1);
      var prev := MembersBelow(assign, c, n - 1);
      var tail: seq<nat> := if assign[n - 1] == c then [n - 1] else [];
      var r := prev + tail;
      assert MembersBelow(assign, c, n) == r;
      forall s, t | 0 <= s < t < |r|
        ensures r[s] < r[t]
      {
        assert r[s] == prev[s] && prev[s] < n - 1;
        if t >= |prev| {
          assert r[t] == tail[t - |prev|] == n - 1;
        } else {
          assert r[t] == prev[t];
        }
      }
    }
  }

  lemma {:induction false} MembersBelowExactly(assign: seq<nat>, c: nat, n: nat)
    requires n <= |assign|
    ensures forall j: nat :: j in MembersBelow(assign, c, n) <==> j < n && assign[j] == c
  {
    if n > 0 {
      MembersBelowExactly(assign, c, n - 1);
    }
  }

  /**
   * One assignment pass partitions the indices: index j is in cluster c
   * exactly when c is j's first-nearest centre, so it is in exactly one
   * cluster; each cluster lists its indices in ascending order.
   */
  lemma AssignmentPartitions(metric: Metric, examples: seq<seq<real>>, centers: seq<seq<real>>, c: nat)
    requires |centers| > 0
    ensures forall j: nat :: j in Members(metric, examples, centers, c) <==> j < |examples| && Nearest(metric, examples[j], centers) == c
    ensures StrictlyAscending(Members(metric, examples, centers, c))
  {
    var assign := Assignment(metric, examples, centers);
    MembersBelowExactly(assign, c, |assign|);
    MembersBelowAscending(assign, c, |assign|);
    assert Members(metric, examples, centers, c) == MembersBelow(assign, c, |assign|);
  }

  /** [xs[i] for i in idx] */
  function Pick<T>(xs: seq<T>, idx: seq<nat>): (r: seq<T>)
    requires forall t :: 0 <= t < |idx| ==> idx[t] < |xs|
    ensures |r| == |idx|
  {
    seq(|idx|, t requires 0 <= t < |idx| => xs[idx[t]])
  }

  /**
   * vecmult(1 / len(c), vecsum_list([examples[i] for i in c])): the
   * component-wise mean of the members' vectors.
   */
  function Centroid(examples: seq<seq<real>>, members: seq<nat>): (r: seq<real>)
    requires |members| > 0
    requires forall t :: 0 <= t < |members| ==> members[t] < |examples|
    requires Rectangular(examples)
    ensures |r| == |examples[members[0]]|
    ensures forall t :: 0 <= t < |r| ==> r[t] == ColumnSum(Pick(examples, members), t) / |members| as real
  {
    var vs := Pick(examples, members);
    assert Rectangular(vs);
    var total := VecSumList(vs);
    var r := VecMult(1.0 / |members| as real, total);
    assert forall t :: 0 <= t < |r| ==> r[t] == total[t] / |members| as real;
    r
  }

  /**
   * The exit condition of cluster: no cluster is empty and every centre
   * equals the mean of the cluster assigned to it.
   */
  ghost predicate IsFixedPoint(metric: Metric, examples: seq<seq<real>>, centers: seq<seq<real>>)
    requires Rectangular(examples)
  {
    |centers| > 0 ==>
      forall c :: 0 <= c < |centers| ==>
        Members(metric, examples, centers, c) != []
        && centers[c] == Centroid(examples, Members(metric, examples, centers, c))
  }

  /** What stops cluster. */
  datatype ClusterError =
    | SampleTooLarge  // sample(examples, k) with k above the number of examples (ValueError)
    | NoCenters       // argmin over range(0) with examples to assign (ValueError)
    | EmptyCluster    // 1 / len(c) on an empty cluster (ZeroDivisionError)
    | NotConverged    // the centres still moved when the round budget ran out

  /** clusters: the membership list of every centre after one assignment pass. */
  function Clusters(metric: Metric, examples: seq<seq<real>>, centers: seq<seq<real>>): (r: seq<seq<nat>>)
    requires |centers| > 0
    ensures |r| == |centers|
    ensures forall c :: 0 <= c < |r| ==> r[c] == Members(metric, examples, centers, c)
  {
    seq(|centers|, c requires 0 <= c < |centers| => Members(metric, examples, centers, c))
  }

  /** new_centers: the mean of every cluster in order, or None when one of them is empty. */
  function MeansOf(examples: seq<seq<real>>, clusters: seq<seq<nat>>): Option<seq<seq<real>>>
    requires Rectangular(examples)
    requires forall c, t :: 0 <= c < |clusters| && 0 <= t < |clusters[c]| ==> clusters[c][t] < |examples|
  {
    if exists c :: 0 <= c < |clusters| && clusters[c] == [] then None
    else Some(seq(|clusters|, c requires 0 <= c < |clusters| => Centroid(examples, clusters[c])))
  }

  /**
   * The loop shape of cluster over any round function `step`: at most
   * `fuel` rounds, each of them a Round.
   */
  function Converge<T(==)>(step: T -> Option<T>, x: T, fuel: nat): Result<T, ClusterError>
    decreases fuel, 0
  {
    if fuel == 0 then Failure(NotConverged) else Round(step, x, fuel - 1)
  }

  /**
   * One round of the loop with `rest` rounds left after it: a round
   * without a result is an empty cluster, a round that reproduces its
   * input stops the loop with it, and any other hands over its result.
   */
  function Round<T(==)>(step: T -> Option<T>, x: T, rest: nat): Result<T, ClusterError>
    decreases rest, 1
  {
    match step(x)
    case None => Failure(EmptyCluster)
    case Some(y) =>
      if y == x then Success(x)
      else Converge(step, y, rest)
  }

  /** The loop stops only at a value its round reproduces. */
  lemma {:induction false} ConvergeStops<T>(step: T -> Option<T>, x: T, fuel: nat)
    requires Converge(step, x, fuel).Success?
    ensures step(Converge(step, x, fuel).value) == Some(Converge(step, x, fuel).value)
    decreases fuel
  {
    assert Converge(step, x, fuel) == Round(step, x, fuel - 1);
    if step(x).Some? && step(x).value != x {
      ConvergeStops(step, step(x).value, fuel - 1);
    }
  }

  /** What every round keeps holds of the value the loop stops at. */
  lemma {:induction false} ConvergeKeeps<T>(step: T -> Option<T>, inv: T -> bool, x: T, fuel: nat)
    requires inv(x)
    requires forall y :: inv(y) && step(y).Some? ==> inv(step(y).value)
    ensures Converge(step, x, fuel).Success? ==> inv(Converge(step, x, fuel).value)
    decreases fuel
  {
    if fuel > 0 {
      assert Converge(step, x, fuel) == Round(step, x, fuel - 1);
      if step(x).Some? && step(x).value != x {
        ConvergeKeeps(step, inv, step(x).value, fuel - 1);
      }
    }
  }

  /** The loop fails only on an empty cluster or on running out of rounds. */
  lemma {:induction false} ConvergeErrors<T>(step: T -> Option<T>, x: T, fuel: nat)
    ensures Converge(step, x, fuel).Failure? ==> Converge(step, x, fuel).error in {EmptyCluster, NotConverged}
    decreases fuel
  {
    if fuel > 0 {
      assert Converge(step, x, fuel) == Round(step, x, fuel - 1);
      if step(x).Some? && step(x).value != x {
        ConvergeErrors(step, step(x).value, fuel - 1);
      }
    }
  }

  /**
   * One round of cluster on the centres `c`: their means, or None when a
   * cluster is empty. It is never applied to no centres.
   */
  ghost function Step(metric: Metric, examples: seq<seq<real>>): seq<seq<real>> -> Option<seq<seq<real>>>
  {
    c => if |c| > 0 && Rectangular(examples) then MeansOf(examples, Clusters(metric, examples, c)) else None
  }

  /**
   * The loop of cluster from the centres `current`, with at most `fuel`
   * rounds: assign, take the means, stop when they equal the centres.
   */
  ghost function Lloyd(metric: Metric, examples: seq<seq<real>>, current: seq<seq<real>>, fuel: nat): (r: Result<seq<seq<real>>, ClusterError>)
    requires |current| > 0 && Rectangular(examples)
    ensures r.Success? ==> |r.value| == |current|
  {
    var step := Step(metric, examples);
    var k := |current|;
    assert forall y :: |y| == k && step(y).Some? ==> |step(y).value| == k;
    ConvergeKeeps(step, y => |y| == k, current, fuel);
    Converge(step, current, fuel)
  }

  /**
   * Whatever centres the iteration stops at are a fixed point of it, one
   * per initial centre: no cluster is empty and each centre is the mean of
   * its members.
   */
  lemma LloydFixedPoint(metric: Metric, examples: seq<seq<real>>, current: seq<seq<real>>, fuel: nat)
    requires |current| > 0 && Rectangular(examples)
    requires Lloyd(metric, examples, current, fuel).Success?
    ensures |Lloyd(metric, examples, current, fuel).value| == |current|
    ensures IsFixedPoint(metric, examples, Lloyd(metric, examples, current, fuel).value)
  {
    var step := Step(metric, examples);
    var cs := Lloyd(metric, examples, current, fuel).value;
    ConvergeStops(step, current, fuel);
    MeansUnchanged(metric, examples, cs);
  }

  /** One round of the iteration with fuel left: it fails, stops, or hands over to the next round. */
  lemma LloydRound(metric: Metric, examples: seq<seq<real>>, current: seq<seq<real>>, fuel: nat)
    requires |current| > 0 && Rectangular(examples) && fuel > 0
    ensures var next := MeansOf(examples, Clusters(metric, examples, current));
      && (next.None? ==> Lloyd(metric, examples, current, fuel) == Failure(EmptyCluster))
      && (next == Some(current) ==> Lloyd(metric, examples, current, fuel) == Success(current))
      && (next.Some? && next.value != current ==>
            |next.value| == |current| && Lloyd(metric, examples, current, fuel) == Lloyd(metric, examples, next.value, fuel - 1))
  {
    var step := Step(metric, examples);
    assert Lloyd(metric, examples, current, fuel) == Round(step, current, fuel - 1);
    assert step(current) == MeansOf(examples, Clusters(metric, examples, current));
  }

  /** The iteration depends on its fuel only through its value. */
  lemma LloydFuel(metric: Metric, examples: seq<seq<real>>, current: seq<seq<real>>, a: nat, b: nat)
    requires |current| > 0 && Rectangular(examples) && a == b
    ensures Lloyd(metric, examples, current, a) == Lloyd(metric, examples, current, b)
  {
  }

  /** Centres that the means leave unchanged are a fixed point. */
  lemma MeansUnchanged(metric: Metric, examples: seq<seq<real>>, current: seq<seq<real>>)
    requires |current| > 0 && Rectangular(examples)
    requires MeansOf(examples, Clusters(metric, examples, current)) == Some(current)
    ensures IsFixedPoint(metric, examples, current)
  {
    var clusters := Clusters(metric, examples, current);
    forall c | 0 <= c < |current|
      ensures Members(metric, examples, current, c) != []
      ensures current[c] == Centroid(examples, Members(metric, examples, current, c))
    {
      assert clusters[c] == Members(metric, examples, current, c);
    }
  }

  /** Conversely, the iteration started at a fixed point returns it after one round. */
  lemma FixedPointStays(metric: Metric, examples: seq<seq<real>>, current: seq<seq<real>>, fuel: nat)
    requires |current| > 0 && Rectangular(examples) && fuel > 0
    requires IsFixedPoint(metric, examples, current)
    ensures Lloyd(metric, examples, current, fuel) == Success(current)
  {
    var clusters := Clusters(metric, examples, current);
    assert forall c :: 0 <= c < |clusters| ==> clusters[c] != [];
    var means := seq(|clusters|, c requires 0 <= c < |clusters| => Centroid(examples, clusters[c]));
    assert means == current;
    assert MeansOf(examples, clusters) == Some(current);
    LloydRound(metric, examples, current, fuel);
  }

  /** A metric that is non-negative and zero exactly between equal vectors. */
  ghost predicate Separates(metric: Metric)
  {
    forall a, b :: metric(a, b) >= 0.0 && (metric(a, b) == 0.0 <==> a == b)
  }

  /**
   * predict on a vector equal to centre i returns cluster i's climatology
   * when no earlier centre is the same vector: distance 0 wins, and the
   * tie break favours the lowest index.
   */
  lemma NearestAtCenter(metric: Metric, centers: seq<seq<real>>, i: nat)
    requires i < |centers|
    requires Separates(metric)
    requires forall j :: 0 <= j < i ==> centers[j] != centers[i]
    ensures Nearest(metric, centers[i], centers) == i
  {
    var r := Nearest(metric, centers[i], centers);
    assert metric(centers[i], centers[i]) == 0.0;
    assert metric(centers[i], centers[r]) == 0.0;
  }
}
