/**
 * ForecastLearner: the training rows are split into interval features and
 * an outcome, the discretisation range and the climatology are taken from
 * them, every example is imputed into a probability vector, the vectors are
 * clustered by Lloyd's iteration, and a prediction is the outcome
 * climatology of the nearest cluster.
 */
module Learner {
  import opened Wrappers
  import opened Vectors
  import opened Climatology
  import opened Imputation
  import opened Clustering

  /** A training row: its interval features followed by its outcome. */
  datatype Row = Row(features: seq<Feature>, outcome: int)

  /** What stops the constructor: an example without features, or an example that cannot be imputed. */
  datatype LearnError =
    | EmptyExample(index: nat)                       // d[0] on an empty example (IndexError)
    | ImputeFailed(index: nat, error: ImputeError)   // impute_example raised on examples[index]

  /** [d[0:-1] for d in data] */
  function FeaturesOf(data: seq<Row>): (r: seq<seq<Feature>>)
    ensures |r| == |data| && forall i :: 0 <= i < |data| ==> r[i] == data[i].features
  {
    seq(|data|, i requires 0 <= i < |data| => data[i].features)
  }

  /** [d[-1] for d in data] */
  function OutcomesOf(data: seq<Row>): (r: seq<int>)
    ensures |r| == |data| && forall i :: 0 <= i < |data| ==> r[i] == data[i].outcome
  {
    seq(|data|, i requires 0 <= i < |data| => data[i].outcome)
  }

  /** Splitting loses nothing: each row is its features together with its outcome. */
  lemma RowsSplit(data: seq<Row>)
    ensures |FeaturesOf(data)| == |OutcomesOf(data)| == |data|
    ensures forall i :: 0 <= i < |data| ==> data[i] == Row(FeaturesOf(data)[i], OutcomesOf(data)[i])
  {
  }

  // ---------------------------------------------------------------------
  // set_extremes

  /**
   * The (minimum, maximum) set_extremes leaves after a pass over `rows`:
   * the least upper end of a first feature and the greatest lower end of
   * a last feature, starting from +inf and -inf.
   */
  function Extremes(rows: seq<seq<Feature>>): (r: Result<(Bound, Bound), LearnError>)
    ensures r.Failure? ==> r.error.EmptyExample? && r.error.index < |rows| && rows[r.error.index] == []
  {
    if rows == [] then Success((PosInf, NegInf))
    else
      match Extremes(rows[..|rows| - 1])
      case Failure(e) => Failure(e)
      case Success(mm) =>
        var d := rows[|rows| - 1];
        if d == [] then Failure(EmptyExample(|rows| - 1))
        else Success((Min(d[0].upper, mm.0), Max(d[|d| - 1].lower, mm.1)))
  }

  /** Once a prefix of the rows fails, the whole pass fails the same way. */
  lemma {:induction false} ExtremesPrefixFailure(rows: seq<seq<Feature>>, i: nat)
    requires i <= |rows| && Extremes(rows[..i]).Failure?
    ensures Extremes(rows) == Extremes(rows[..i])
    decreases |rows| - i
  {
    if i == |rows| {
      assert rows[..i] == rows;
    } else {
      var init := rows[..|rows| - 1];
      assert init[..i] == rows[..i];
      ExtremesPrefixFailure(init, i);
    }
  }

  /**
   * set_extremes fails exactly when some example has no features, and
   * then at the first such example.
   */
  lemma {:induction false} ExtremesFailure(rows: seq<seq<Feature>>)
    ensures Extremes(rows).Success? <==> forall i :: 0 <= i < |rows| ==> rows[i] != []
    ensures Extremes(rows).Failure? ==>
      var e := Extremes(rows).error;
      e.EmptyExample? && e.index < |rows| && rows[e.index] == []
      && forall j :: 0 <= j < e.index ==> rows[j] != []
  {
    if rows != [] {
      var init := rows[..|rows| - 1];
      ExtremesFailure(init);
      assert forall j :: 0 <= j < |init| ==> init[j] == rows[j];
    }
  }

  /**
   * On success, minimum is below the upper end of every first feature and
   * is one of them (+inf without examples); maximum is above the lower end
   * of every last feature and is one of them (-inf without examples).
   */
  lemma {:induction false} ExtremesBounds(rows: seq<seq<Feature>>)
    requires Extremes(rows).Success?
    ensures var (lo, hi) := Extremes(rows).value;
      && (forall i :: 0 <= i < |rows| ==> |rows[i]| > 0 && Le(lo, rows[i][0].upper) && Le(rows[i][|rows[i]| - 1].lower, hi))
      && (rows == [] ==> lo == PosInf && hi == NegInf)
      && (rows != [] ==> exists i :: 0 <= i < |rows| && |rows[i]| > 0 && lo == rows[i][0].upper)
      && (rows != [] ==> exists i :: 0 <= i < |rows| && |rows[i]| > 0 && hi == rows[i][|rows[i]| - 1].lower)
  {
    if rows != [] {
      var init := rows[..|rows| - 1];
      var last := |rows| - 1;
      ExtremesBounds(init);
      assert forall j :: 0 <= j < |init| ==> init[j] == rows[j];
      var (lo, hi) := Extremes(rows).value;
      var (lo', hi') := Extremes(init).value;
      var d := rows[last];
      assert lo == Min(d[0].upper, lo') && hi == Max(d[|d| - 1].lower, hi');
      if lo != d[0].upper {
        var i :| 0 <= i < |init| && |init[i]| > 0 && lo' == init[i][0].upper;
        assert lo == rows[i][0].upper;
      }
      if hi != d[|d| - 1].lower {
        var i :| 0 <= i < |init| && |init[i]| > 0 && hi' == init[i][|init[i]| - 1].lower;
        assert hi == rows[i][|rows[i]| - 1].lower;
      }
      forall i | 0 <= i < |rows|
        ensures Le(lo, rows[i][0].upper) && Le(rows[i][|rows[i]| - 1].lower, hi)
      {
        if i < last {
          assert Le(lo', rows[i][0].upper) && Le(rows[i][|rows[i]| - 1].lower, hi');
        }
      }
    }
  }

  // ---------------------------------------------------------------------
  // set_imputed_features

  /** The vectors set_imputed_features builds, or the first example that raises. */
  function ImputeRows(rows: seq<seq<Feature>>, clim: map<int, real>, minimum: Bound, maximum: Bound): (r: Result<seq<seq<real>>, LearnError>)
    ensures r.Success? ==> |r.value| == |rows|
    ensures r.Failure? ==> r.error.ImputeFailed? && r.error.index < |rows|
  {
    if rows == [] then Success([])
    else
      match ImputeRows(rows[..|rows| - 1], clim, minimum, maximum)
      case Failure(e) => Failure(e)
      case Success(vs) =>
        match Impute(rows[|rows| - 1], clim, minimum, maximum)
        case Failure(e) => Failure(ImputeFailed(|rows| - 1, e))
        case Success(v) => Success(vs + [v])
  }

  /** Once a prefix of the examples fails, the whole pass fails the same way. */
  lemma {:induction false} ImputeRowsPrefixFailure(rows: seq<seq<Feature>>, i: nat, clim: map<int, real>, minimum: Bound, maximum: Bound)
    requires i <= |rows| && ImputeRows(rows[..i], clim, minimum, maximum).Failure?
    ensures ImputeRows(rows, clim, minimum, maximum) == ImputeRows(rows[..i], clim, minimum, maximum)
    decreases |rows| - i
  {
    if i == |rows| {
      assert rows[..i] == rows;
    } else {
      var init := rows[..|rows| - 1];
      assert init[..i] == rows[..i];
      ImputeRowsPrefixFailure(init, i, clim, minimum, maximum);
    }
  }

  /**
   * set_imputed_features succeeds exactly when every example imputes, and
   * then holds each example's vector at the example's position; otherwise
   * it reports the first example that fails, with that example's error.
   */
  lemma {:induction false} ImputeRowsSpec(rows: seq<seq<Feature>>, clim: map<int, real>, minimum: Bound, maximum: Bound)
    ensures ImputeRows(rows, clim, minimum, maximum).Success? <==>
      forall i :: 0 <= i < |rows| ==> Impute(rows[i], clim, minimum, maximum).Success?
    ensures ImputeRows(rows, clim, minimum, maximum).Success? ==>
      var vs := ImputeRows(rows, clim, minimum, maximum).value;
      |vs| == |rows| && forall i :: 0 <= i < |rows| ==> Impute(rows[i], clim, minimum, maximum) == Success(vs[i])
    ensures ImputeRows(rows, clim, minimum, maximum).Failure? ==>
      var e := ImputeRows(rows, clim, minimum, maximum).error;
      && e.ImputeFailed? && e.index < |rows|
      && Impute(rows[e.index], clim, minimum, maximum) == Failure(e.error)
      && forall j :: 0 <= j < e.index ==> Impute(rows[j], clim, minimum, maximum).Success?
  {
    if rows != [] {
      var init := rows[..|rows| - 1];
      ImputeRowsSpec(init, clim, minimum, maximum);
      assert forall j :: 0 <= j < |init| ==> init[j] == rows[j];
    }
  }

  // ---------------------------------------------------------------------
  // cluster

  /**
   * After a successful cluster, each cluster's climatology is a
   * probability distribution over the outcomes of its members.
   */
  lemma ClusterClimatologyIsDistribution(metric: Metric, examples: seq<seq<real>>, centers: seq<seq<real>>, results: seq<int>, c: nat)
    requires Rectangular(examples) && |results| == |examples|
    requires c < |centers| && IsFixedPoint(metric, examples, centers)
    ensures var outcomes := Pick(results, Members(metric, examples, centers, c));
      TotalWeight(Frequencies(outcomes), Labels(outcomes)) == 1.0
  {
    var outcomes := Pick(results, Members(metric, examples, centers, c));
    FrequenciesSumToOne(outcomes);
  }

  class ForecastLearner {
    var metric: Metric
    var examples: seq<seq<Feature>>
    var results: seq<int>
    var numExamples: nat
    var minimum: Bound
    var maximum: Bound
    var climatology: map<int, real>
    var imputed: seq<seq<real>>
    var centers: seq<seq<real>>
    var clusterClimatologies: seq<map<int, real>>

    /**
     * The part of __init__ that cannot fail: the split of the rows and the
     * climatology. The extremes hold the starting values of set_extremes,
     * and nothing is imputed or clustered yet.
     */
    constructor (data: seq<Row>, metric: Metric)
      ensures this.metric == metric
      ensures examples == FeaturesOf(data) && results == OutcomesOf(data) && numExamples == |data|
      ensures climatology == Frequencies(results)
      ensures minimum == PosInf && maximum == NegInf
      ensures imputed == [] && centers == [] && clusterClimatologies == []
    {
      var outcomes := OutcomesOf(data);
      var clim := ComputeClimatology(outcomes);
      this.metric := metric;
      examples := FeaturesOf(data);
      results := outcomes;
      numExamples := |data|;
      minimum, maximum := PosInf, NegInf;
      climatology := clim;
      imputed, centers, clusterClimatologies := [], [], [];
    }

    /** __init__: split, extremes, climatology, then every example imputed. */
    static method Create(data: seq<Row>, metric: Metric) returns (r: Result<ForecastLearner, LearnError>)
      ensures var examples := FeaturesOf(data);
        var clim := Frequencies(OutcomesOf(data));
        match Extremes(examples)
        case Failure(e) => r == Failure(e)
        case Success(mm) =>
          match ImputeRows(examples, clim, mm.0, mm.1)
          case Failure(e) => r == Failure(e)
          case Success(vs) =>
            && r.Success? && fresh(r.value)
            && r.value.metric == metric
            && r.value.examples == examples && r.value.results == OutcomesOf(data)
            && r.value.numExamples == |data|
            && r.value.climatology == clim
            && r.value.minimum == mm.0 && r.value.maximum == mm.1
            && r.value.imputed == vs
            && r.value.centers == [] && r.value.clusterClimatologies == []
    {
      var learner := new ForecastLearner(data, metric);
      ghost var examples, clim := learner.examples, learner.climatology;
      var err := learner.SetExtremes();
      if err.Some? {
        return Failure(err.value);
      }
      ghost var mm := Extremes(examples).value;
      err := learner.SetImputedFeatures();
      if err.Some? {
        return Failure(err.value);
      }
      assert learner.imputed == ImputeRows(examples, clim, mm.0, mm.1).value;
      return Success(learner);
    }

    /** set_extremes: the extremes of the training examples, or the first example without features. */
    method SetExtremes() returns (err: Option<LearnError>)
      modifies this`minimum, this`maximum
      ensures match Extremes(examples)
        case Success(mm) => err.None? && minimum == mm.0 && maximum == mm.1
        case Failure(e) => err == Some(e) && minimum == old(minimum) && maximum == old(maximum)
    {
      var maxSoFar, minSoFar := NegInf, PosInf;
      for i := 0 to |examples|
        invariant Extremes(examples[..i]) == Success((minSoFar, maxSoFar))
      {
        var d := examples[i];
        assert examples[..i + 1][..i] == examples[..i];
        if d == [] {
          ExtremesPrefixFailure(examples, i + 1);
          return Some(EmptyExample(i));
        }
        minSoFar := Min(d[0].upper, minSoFar);
        maxSoFar := Max(d[|d| - 1].lower, maxSoFar);
      }
      assert examples[..|examples|] == examples;
      minimum, maximum := minSoFar, maxSoFar;
      err := None;
    }

    /** set_imputed_features: every example imputed in order, or the first failure. */
    method SetImputedFeatures() returns (err: Option<LearnError>)
      modifies this`imputed
      ensures match ImputeRows(examples, climatology, minimum, maximum)
        case Success(vs) => err.None? && imputed == vs
        case Failure(e) => err == Some(e) && imputed == old(imputed)
    {
      var vectors: seq<seq<real>> := [];
      for i := 0 to |examples|
        invariant ImputeRows(examples[..i], climatology, minimum, maximum) == Success(vectors)
        invariant imputed == old(imputed)
      {
        var v := ImputeExample(examples[i]);
        assert examples[..i + 1][..i] == examples[..i] && examples[..i + 1][i] == examples[i];
        match v
        case Failure(e) =>
          ImputeRowsPrefixFailure(examples, i + 1, climatology, minimum, maximum);
          return Some(ImputeFailed(i, e));
        case Success(x) =>
          vectors := vectors + [x];
      }
      assert examples[..|examples|] == examples;
      imputed := vectors;
      err := None;
    }

    /** range_prob: the training mass of the integers lo..hi, summed in order. */
    method RangeProb(lo: int, hi: int) returns (s: real)
      ensures s == SpanMass(climatology, lo, hi)
    {
      s := 0.0;
      var k := lo;
      while k <= hi
        invariant lo <= k && (k <= hi + 1 || k == lo)
        invariant s == SpanMass(climatology, lo, k - 1)
        decreases hi + 1 - k
      {
        s := s + Weight(climatology, k);
        k := k + 1;
      }
    }

    /**
     * The loop over range(a, b) of an interval feature: appends
     * prob * conditional[val] for each val and takes each conditional off
     * a leftover that starts at 1.
     */
    static method AppendRun(imputed: seq<real>, cc: Conditional, prob: real, a: int, b: int) returns (r: seq<real>, leftover: real)
      ensures r == imputed + Run(cc, prob, a, b)
      ensures leftover == Leftover(cc, a, b)
    {
      r, leftover := imputed, 1.0;
      var val := a;
      while val < b
        invariant a <= val && (val <= b || val == a)
        invariant r == imputed + Run(cc, prob, a, val)
        invariant leftover == 1.0 - CondSum(cc, a, val)
        decreases b - val
      {
        RunSnoc(cc, prob, a, val);
        r := r + [prob * cc.At(val)];
        leftover := leftover - cc.At(val);
        val := val + 1;
      }
    }

    /** One pass of the feature loop of impute_example: `imputed` with `feature` placed. */
    method ImputeFeature(imputed: seq<real>, feature: Feature) returns (r: Result<seq<real>, ImputeError>)
      ensures match Expand(feature, climatology, minimum, maximum)
        case Failure(e) => r == Failure(e)
        case Success(x) => r == Success(Place(x, imputed))
    {
      var maxRange, minRange := maximum, minimum;
      var lower, upper, prob := feature.lower, feature.upper, feature.prob;
      if upper == lower {
        assert Place(Point(prob), imputed) == imputed + [prob];
        return Success(imputed + [prob]);
      }
      var lo, hi := Max(lower, minRange), Min(upper, maxRange);
      if !lo.Fin? || !hi.Fin? {
        return Failure(UnboundedSpan);
      }
      var rangeProb := RangeProb(lo.n, hi.n);
      if lo.n <= hi.n && rangeProb == 0.0 {
        return Failure(ZeroSpanMass);
      }
      var conditional := Conditional(climatology, lo.n, hi.n, rangeProb);
      if lower == NegInf {
        if upper == minRange {
          assert Expand(feature, climatology, minimum, maximum) == Success(Point(prob));
          assert Place(Point(prob), imputed) == imputed + [prob];
          return Success(imputed + [prob]);
        }
        if !upper.Fin? {
          return Failure(InfiniteBound);
        }
        var run, leftover := AppendRun(imputed, conditional, prob, minRange.n + 1, upper.n + 1);
        LeftTailPlace(conditional, prob, minRange.n + 1, upper.n + 1, imputed, run, leftover);
        return Success([prob * leftover] + run);
      } else if upper == PosInf {
        if lower == maxRange {
          assert Expand(feature, climatology, minimum, maximum) == Success(Point(prob));
          assert Place(Point(prob), imputed) == imputed + [prob];
          return Success(imputed + [prob]);
        }
        var run, leftover := AppendRun(imputed, conditional, prob, lower.n, maxRange.n);
        RightTailPlace(conditional, prob, lower.n, maxRange.n, imputed, run, leftover);
        return Success(run + [prob * leftover]);
      } else {
        var run, _ := AppendRun(imputed, conditional, prob, lower.n, upper.n + 1);
        assert Place(Interior(conditional, prob, lower.n, upper.n + 1), imputed) == run;
        return Success(run);
      }
    }

    /** impute_example, before rounding: the example's probability vector or the error it raises. */
    method ImputeExample(example: seq<Feature>) returns (r: Result<seq<real>, ImputeError>)
      ensures r == Impute(example, climatology, minimum, maximum)
    {
      var vector: seq<real> := [];
      for i := 0 to |example|
        invariant ImputeFrom(vector, example[i..], climatology, minimum, maximum) == Impute(example, climatology, minimum, maximum)
      {
        assert example[i..][0] == example[i] && example[i..][1..] == example[i + 1..];
        var step := ImputeFeature(vector, example[i]);
        match step
        case Failure(e) =>
          return Failure(e);
        case Success(v) =>
          vector := v;
      }
      return Success(vector);
    }

    /**
     * cluster(k), with the centres drawn by sample() given as the distinct
     * indices `seeds` and at most `fuel` rounds of reassignment: the
     * outcome is that of the iteration Lloyd started from the seeded
     * centres. On success the centres are a fixed point of it and each
     * cluster's climatology is the outcome frequencies of its members; on
     * an error nothing changes.
     */
    method Cluster(k: nat, seeds: seq<nat>, fuel: nat) returns (err: Option<ClusterError>)
      requires |seeds| == k
      requires k <= |imputed| ==> forall s :: 0 <= s < k ==> seeds[s] < |imputed|
      requires k <= |imputed| ==> forall s, t :: 0 <= s < t < k ==> seeds[s] != seeds[t]
      requires Rectangular(imputed) && |results| == |imputed|
      modifies this`centers, this`clusterClimatologies
      ensures err == Some(SampleTooLarge) <==> k > |imputed|
      ensures err == Some(NoCenters) <==> k == 0 && |imputed| > 0
      ensures k == 0 && |imputed| == 0 ==> err.None? && centers == [] && clusterClimatologies == []
      ensures 0 < k <= |imputed| ==>
        match Lloyd(old(metric), old(imputed), Pick(old(imputed), seeds), fuel)
        case Success(cs) => err.None? && centers == cs
        case Failure(e) => err == Some(e)
      ensures err.None? ==>
        && |centers| == k && |clusterClimatologies| == k
        && IsFixedPoint(old(metric), old(imputed), centers)
        && forall c :: 0 <= c < k ==>
             clusterClimatologies[c] == Frequencies(Pick(old(results), Members(old(metric), old(imputed), centers, c)))
      ensures err.Some? ==> centers == old(centers) && clusterClimatologies == old(clusterClimatologies)
    {
      var r := Train(metric, imputed, results, k, seeds, fuel);
      match r
      case Failure(e) =>
        return Some(e);
      case Success(trained) =>
        centers, clusterClimatologies := trained.0, trained.1;
        return None;
    }

    /**
     * The body of cluster(k) on values: sample() fails when k exceeds the
     * number of examples; with k == 0 and some example, argmin has no
     * centre to choose from; otherwise the centres are iterated until they
     * stop moving, and the trained centres come with each cluster's
     * outcome frequencies.
     */
    static method Train(metric: Metric, examples: seq<seq<real>>, results: seq<int>, k: nat, seeds: seq<nat>, fuel: nat)
      returns (r: Result<(seq<seq<real>>, seq<map<int, real>>), ClusterError>)
      requires |seeds| == k
      requires k <= |examples| ==> forall s :: 0 <= s < k ==> seeds[s] < |examples|
      requires k <= |examples| ==> forall s, t :: 0 <= s < t < k ==> seeds[s] != seeds[t]
      requires Rectangular(examples) && |results| == |examples|
      ensures r == Failure(SampleTooLarge) <==> k > |examples|
      ensures r == Failure(NoCenters) <==> k == 0 && |examples| > 0
      ensures k == 0 && |examples| == 0 ==> r == Success(([], []))
      ensures 0 < k <= |examples| ==>
        match Lloyd(metric, examples, Pick(examples, seeds), fuel)
        case Success(cs) => r.Success? && r.value.0 == cs
        case Failure(e) => r == Failure(e)
      ensures r.Success? ==>
        var (cs, clims) := r.value;
        && |cs| == k && |clims| == k
        && IsFixedPoint(metric, examples, cs)
        && forall c :: 0 <= c < k ==>
             clims[c] == Frequencies(Pick(results, Members(metric, examples, cs, c)))
    {
      if k > |examples| {
        return Failure(SampleTooLarge);
      }
      if k == 0 {
        if |examples| > 0 {
          return Failure(NoCenters);
        }
        return Success(([], []));
      }
      var start := Pick(examples, seeds);
      var clusters, outcome := Iterate(metric, examples, start, fuel);
      match outcome
      case Failure(e) =>
        return Failure(e);
      case Success(cs) =>
        var climatologies := ClusterOutcomes(results, clusters);
        return Success((cs, climatologies));
    }

    /**
     * The loop of cluster: at most `fuel` rounds of reassignment from the
     * centres `start`, stopping as soon as the means reproduce the centres;
     * also the clusters of the last round.
     */
    static method Iterate(metric: Metric, examples: seq<seq<real>>, start: seq<seq<real>>, fuel: nat) returns (clusters: seq<seq<nat>>, r: Result<seq<seq<real>>, ClusterError>)
      requires |start| > 0 && Rectangular(examples)
      ensures r == Lloyd(metric, examples, start, fuel)
      ensures r.Success? ==> clusters == Clusters(metric, examples, r.value)
      ensures r.Success? ==> |r.value| == |start| && IsFixedPoint(metric, examples, r.value)
      ensures r.Failure? ==> r.error in {EmptyCluster, NotConverged}
    {
      var current := start;
      var rounds := fuel;
      while rounds > 0
        invariant |current| == |start|
        invariant Lloyd(metric, examples, current, rounds) == Lloyd(metric, examples, start, fuel)
        decreases rounds
      {
        var newCenters;
        clusters, newCenters := Round(metric, examples, current);
        var rest := rounds - 1;
        LloydRound(metric, examples, current, rounds);
        if newCenters.None? {
          return clusters, Failure(EmptyCluster);
        }
        if newCenters.value == current {
          MeansUnchanged(metric, examples, current);
          return clusters, Success(current);
        }
        LloydFuel(metric, examples, newCenters.value, rounds - 1, rest);
        current, rounds := newCenters.value, rest;
      }
      return [], Failure(NotConverged);
    }

    /** One round of the loop of cluster: the clusters of `current` and their means. */
    static method Round(metric: Metric, examples: seq<seq<real>>, current: seq<seq<real>>) returns (clusters: seq<seq<nat>>, newCenters: Option<seq<seq<real>>>)
      requires |current| > 0 && Rectangular(examples)
      ensures clusters == Clusters(metric, examples, current)
      ensures newCenters == MeansOf(examples, clusters)
      ensures newCenters.Some? ==> |newCenters.value| == |current|
    {
      clusters := AssignClusters(metric, examples, current);
      assert clusters == Clusters(metric, examples, current);
      newCenters := ClusterMeans(examples, clusters);
    }

    /** The assignment pass of cluster: every example appended to the list of its first-nearest centre. */
    static method AssignClusters(metric: Metric, examples: seq<seq<real>>, current: seq<seq<real>>) returns (clusters: seq<seq<nat>>)
      requires |current| > 0
      ensures |clusters| == |current|
      ensures forall c :: 0 <= c < |current| ==> clusters[c] == Members(metric, examples, current, c)
    {
      clusters := NoMembers(|current|);
      for j := 0 to |examples|
        invariant clusters == Pass(metric, examples, current, j)
      {
        var best := Nearest(metric, examples[j], current);
        clusters := clusters[best := clusters[best] + [j]];
      }
      PassMembers(metric, examples, current);
    }

    /** new_centers: the mean of every cluster, or None where a cluster is empty (1 / len(c) raises). */
    static method ClusterMeans(examples: seq<seq<real>>, clusters: seq<seq<nat>>) returns (r: Option<seq<seq<real>>>)
      requires Rectangular(examples)
      requires forall c, t :: 0 <= c < |clusters| && 0 <= t < |clusters[c]| ==> clusters[c][t] < |examples|
      ensures r == MeansOf(examples, clusters)
      ensures r.None? <==> exists c :: 0 <= c < |clusters| && clusters[c] == []
      ensures r.Some? ==> |r.value| == |clusters|
      ensures r.Some? ==> forall c :: 0 <= c < |clusters| ==> clusters[c] != [] && r.value[c] == Centroid(examples, clusters[c])
    {
      var means: seq<seq<real>> := [];
      for c := 0 to |clusters|
        invariant |means| == c
        invariant forall d :: 0 <= d < c ==> clusters[d] != [] && means[d] == Centroid(examples, clusters[d])
      {
        if clusters[c] == [] {
          return None;
        }
        means := means + [Centroid(examples, clusters[c])];
      }
      assert means == seq(|clusters|, c requires 0 <= c < |clusters| => Centroid(examples, clusters[c]));
      return Some(means);
    }

    /** cluster_climatologies: compute_climatology of the outcomes of each cluster's members. */
    static method ClusterOutcomes(results: seq<int>, clusters: seq<seq<nat>>) returns (r: seq<map<int, real>>)
      requires forall c, t :: 0 <= c < |clusters| && 0 <= t < |clusters[c]| ==> clusters[c][t] < |results|
      ensures |r| == |clusters|
      ensures forall c :: 0 <= c < |clusters| ==> r[c] == Frequencies(Pick(results, clusters[c]))
    {
      r := [];
      for c := 0 to |clusters|
        invariant |r| == c
        invariant forall d :: 0 <= d < c ==> r[d] == Frequencies(Pick(results, clusters[d]))
      {
        var clim := ComputeClimatology(Pick(results, clusters[c]));
        r := r + [clim];
      }
    }

    /**
     * predict: the climatology of the cluster whose centre is first-nearest
     * to `example`; None where argmin has no centre to choose from.
     */
    function Predict(example: seq<real>): (r: Option<map<int, real>>)
      reads this
      requires |clusterClimatologies| == |centers|
      ensures r.None? <==> centers == []
      ensures r.Some? ==> exists i :: 0 <= i < |centers| && FirstNearest(metric, example, centers, i) && r.value == clusterClimatologies[i]
    {
      if centers == [] then None
      else
        var best := Nearest(metric, example, centers);
        Some(clusterClimatologies[best])
    }
  }
}
