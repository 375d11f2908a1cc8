# Interval-imputation forecaster in Dafny

This project models `learn.py`, a small forecaster for interval-censored data,
and proves properties of the model. Its parts are:

- **Climatology.** `compute_climatology` maps each outcome label to its
  frequency count/m.
- **Learner construction.** `ForecastLearner.__init__` does the following:
  - splits each training row into interval features and an outcome;
  - derives the discretisation range `[minimum, maximum]` (`set_extremes`);
  - imputes every example into a probability vector (`set_imputed_features`,
    `impute_example`). Each interval feature `((lower, upper), prob)`
    becomes a run of `prob * conditional[v]`. Here `conditional` is the
    training climatology renormalised over the span the interval covers.
    An open interval also gets a leftover bucket.
- **Clustering.** `cluster` runs Lloyd's k-means iteration on the imputed
  vectors:
  - it assigns every example to the nearest centre, first minimum on ties;
  - it replaces every centre by the mean of its members;
  - it stops when the centres no longer move;
  - it records each cluster's outcome climatology.
- **Prediction.** `predict` returns the climatology of the cluster nearest
  to a vector.

Representations:

- Probabilities are exact `real`s.
- Interval ends are `Bound = NegInf | Fin(n) | PosInf`; `Min` and `Max`
  follow Python's `min`/`max` on those values.
- The distance is a function parameter `Metric`.
- Every exception the code can raise on the modelled paths is an error
  value of its own:
  - `ImputeError`:
    - `UnboundedSpan` is the TypeError from `range()` with an infinite end;
    - `ZeroSpanMass` is the ZeroDivisionError of the conditional
      climatology;
    - `InfiniteBound` is the OverflowError of `int(inf)`.
  - `LearnError`:
    - `EmptyExample` is the IndexError of `d[0]` on an example without
      features;
    - `ImputeFailed` is the failure of a given example.
  - `ClusterError`: `SampleTooLarge`, `NoCenters`, `EmptyCluster` and
    `NotConverged`.

Modules:

- `Wrappers`: `Option` and `Result`.
- `Vectors`: `argmin`, `vecsum`, `vecsum_list`, `vecmult`.
- `Climatology`: `compute_climatology`.
- `Imputation`: the pure meaning of `impute_example`.
- `Clustering`: the pure pieces of `cluster` and `predict`.
- `Learner`: the class `ForecastLearner`, whose methods update its fields
  as the Python methods do. Each method is proved against the
  specification functions of the modules above. The body of `cluster`
  works on values in the static method `Train`; `Cluster` stores its
  result in the fields.

Where the prose design of the system and the code disagree, the model follows
the code:

- **Extremes.** `minimum` is the least *upper* end of the first feature and
  `maximum` the greatest *lower* end of the last feature (`learn.py:48-49`).
  The design describes the smallest lower and largest upper ends instead.
- **Left-open leftover.** The leftover bucket of a left-open interval is
  inserted at index 0 of the whole vector built so far (`learn.py:84`), not
  at the start of that feature's own entries (`Imputation.ImputeSnoc`).
- **Empty climatology.** An empty outcome list gives the empty (all-zero)
  climatology without raising (`learn.py:27-32`).
- **Left-open interval ending at the minimum.** It imputes to `[prob]` only
  when the division that precedes that check does not fail
  (`Imputation.LeftOpenAtMinimum`).
- **Bounded interval outside the range.** A bounded interval lying wholly
  outside `[minimum, maximum]` gives an empty span. Its loop over
  `range(lower, upper + 1)` then reads only zero conditionals, so the
  feature imputes to zeros and its mass is lost (`learn.py:70-75`,
  `learn.py:95-96`; `Imputation.ExpandMass`). The design promises that
  every feature keeps its probability mass.
- **Empty cluster.** It divides by zero (`learn.py:112`), with no fallback
  policy.
- **Convergence.** The loop stops on exact equality of the centres
  (`learn.py:113`), with no tolerance.

## Model

| member | source | states |
|---|---|---|
| Vectors.ArgMin | learn.py:5-6 | the result has the least key of the list, and every element before it has a strictly larger key (ties go to the first) |
| Vectors.VecSum | learn.py:11-16 | `[]` is an identity on either side; otherwise the result has the length of `a` and entry i is `a[i] + b[i]` |
| Vectors.VecSumList | learn.py:18-22 | `[]` for no vectors; otherwise entry t is the sum of column t over all vectors |
| Vectors.VecMult | learn.py:24-25 | same length, every entry scaled by `a` |
| Vectors.SumVecMult | learn.py:24-25 | the entries of a scaled vector sum to the scaled sum |
| Climatology.ComputeClimatology | learn.py:27-32 | the loop builds exactly the frequency map: each label seen maps to count/m, every unseen label reads 0, and an empty list gives the empty map |
| Climatology.LabelsEnumerate | learn.py:27-32 | the keys of the climatology, in insertion order, list every label once and nothing else |
| Climatology.CountTotalOfLabels | learn.py:27-32 | summing the counts over the distinct labels gives m |
| Climatology.FrequenciesSumToOne | learn.py:27-32 | for m > 0 the weights over the distinct labels sum to exactly 1 |
| Climatology.FrequencyBounds | learn.py:27-32 | a seen label weighs in (0, 1], an unseen one 0 |
| Imputation.Min | learn.py:48 | Python's `min` on bounds: below both arguments and one of them |
| Imputation.Max | learn.py:49 | Python's `max` on bounds: above both arguments and one of them |
| Imputation.RunSnoc | learn.py:81-82 | one more value of the loop appends `prob * conditional[val]` to the run |
| Imputation.LeftTailPlace | learn.py:80-84 | the left-open loop's vector with `prob * leftover` inserted at index 0 is the left tail placed around the vector so far |
| Imputation.RightTailPlace | learn.py:89-93 | the right-open loop's vector with `prob * leftover` appended is the right tail placed after the vector so far |
| Imputation.RunLength | learn.py:81-96 | a run over `range(a, b)` has one entry per value of the range |
| Imputation.ExpandLength | learn.py:63-96 | a feature expands to 1 entry (point, left-open at the minimum, right-open at the maximum), `upper - minimum + 1` (left-open), `maximum - lower + 1` (right-open) or `upper - lower + 1` (bounded) entries, clamped at an empty range; only a left-open leftover goes in front |
| Imputation.SumRun | learn.py:80-96 | the run sums to prob times the sum of the emitted conditionals |
| Imputation.CondSumCovers | learn.py:70-75 | the conditionals over any range starting at or below the span add up to the span's mass so far divided by the span's total mass |
| Imputation.BucketMass | learn.py:80-93 | the leftover bucket and the run together carry exactly prob |
| Imputation.LeftTailMass | learn.py:76-84 | a left-open feature's entries sum to its prob |
| Imputation.RightTailMass | learn.py:85-93 | a right-open feature's entries sum to its prob |
| Imputation.InteriorMass | learn.py:94-96 | a bounded feature whose span meets [minimum, maximum] sums to its prob; one lying wholly outside [minimum, maximum] sums to 0 |
| Imputation.ExpandMass | learn.py:63-96 | every feature that imputes contributes entries summing to its prob (0 for a bounded interval wholly outside the range) |
| Imputation.ImputeShape | learn.py:59-96 | the vector's length is the sum of the per-feature lengths and its sum is the sum of the per-feature masses |
| Imputation.ImputeConservesMass | learn.py:59-96 | when every bounded feature meets the range, the imputed vector sums to the sum of the features' probs |
| Imputation.ImputeSnoc | learn.py:63-96 | adding a feature places its front entry (a left-open leftover) before the whole vector so far and its other entries after it |
| Imputation.Expand | learn.py:63-96 | one pass of the feature loop: a point interval always succeeds; only a left-open interval puts an entry (its single leftover bucket) in front; `int(inf)` fails only for (-inf, +inf) |
| Imputation.ImputeFrom | learn.py:63-96 | the feature loop from a vector so far never shrinks it, and fails only with the error of one of the remaining features |
| Imputation.Impute | learn.py:59-96 | impute_example before rounding fails only with the error of one of the example's features |
| Imputation.ImputeFromFailure | learn.py:63-96 | imputation fails exactly when some feature fails, with the error of the first failing feature |
| Imputation.LeftOpenAtMinimum | learn.py:67-79 | a left-open interval ending at the minimum gives `[prob]` unless the division before that check fails (no mass at the minimum) or the range is unbounded |
| Imputation.UniformBoundedExample | learn.py:94-96 | the interval (1, 3) with prob 1 over a uniform climatology on {1, 2, 3} gives three entries of 1/3 |
| Clustering.FirstNearestUnique | learn.py:107-110 | at most one centre is first-nearest, so the tie break decides every case |
| Clustering.NearestBelow | learn.py:5-6 | the scan of `min(..., key=...)` over centres 0..n-1 keeps a centre no other beats and that every earlier centre is strictly worse than |
| Clustering.NearestIsArgMin | learn.py:107-110 | the nearest centre is exactly the modelled `argmin` over `range(k)` keyed by the distance to each centre |
| Clustering.Nearest | learn.py:107-110 | the chosen centre is first-nearest: no centre is closer, every earlier centre is strictly farther |
| Clustering.Assignment | learn.py:106-110 | one centre index below k per example |
| Clustering.Members | learn.py:105-111 | a cluster lists example indices only |
| Clustering.NoMembers | learn.py:105 | `[[] for i in range(k)]`: k empty lists |
| Clustering.Pass | learn.py:105-111 | the assignment pass over examples 0..n-1 keeps one list per centre |
| Clustering.PassMembersBelow | learn.py:105-111 | after examples 0..n-1 each list of the pass holds exactly the examples below n assigned to that centre, in order |
| Clustering.PassMembers | learn.py:105-111 | the full pass builds every centre's membership list |
| Clustering.Clusters | learn.py:105-111 | one membership list per centre |
| Clustering.AssignmentPartitions | learn.py:105-111 | index j is in cluster c exactly when c is j's first-nearest centre (so each index is in exactly one cluster), and each cluster is strictly ascending |
| Clustering.Pick | learn.py:112 | `[xs[i] for i in idx]` has one entry per index |
| Clustering.Centroid | learn.py:112 | the new centre has the members' dimension and entry t is the column-t sum over the members divided by their number |
| Clustering.ConvergeStops | learn.py:104-115 | the loop of cluster, over any round function, stops only at a value its round reproduces (`new_centers == centers`) |
| Clustering.ConvergeKeeps | learn.py:104-115 | whatever every round preserves holds of the value the loop stops at |
| Clustering.ConvergeErrors | learn.py:104-115 | the loop fails only on an empty cluster or when its rounds run out |
| Clustering.Lloyd | learn.py:104-115 | the iteration from the given centres, when it stops, returns as many centres as it started with |
| Clustering.LloydRound | learn.py:104-115 | one round with rounds left: an empty cluster fails, unchanged means stop with the current centres, otherwise the iteration continues from the means |
| Clustering.LloydFixedPoint | learn.py:104-117 | the centres the iteration stops at are a fixed point: no cluster is empty and each centre is the mean of its members |
| Clustering.FixedPointStays | learn.py:112-114 | conversely, the iteration started at a fixed point returns it after one round |
| Clustering.MeansUnchanged | learn.py:112-114 | centres the means leave unchanged are a fixed point |
| Clustering.NearestAtCenter | learn.py:123-128 | under a metric that is zero exactly on equal vectors, a centre is its own nearest centre unless an earlier centre equals it |
| Learner.FeaturesOf | learn.py:37 | `[d[0:-1] for d in data]`: one feature list per row, row i's features at position i |
| Learner.OutcomesOf | learn.py:38 | `[d[-1] for d in data]`: one outcome per row, row i's outcome at position i |
| Learner.RowsSplit | learn.py:37-38 | the split loses nothing: each row is its features together with its outcome |
| Learner.Extremes | learn.py:44-51 | the pass of set_extremes fails only by naming an example without features |
| Learner.ExtremesFailure | learn.py:44-51 | set_extremes fails exactly when some example has no features, and then at the first such example |
| Learner.ExtremesBounds | learn.py:44-51 | minimum is at or below every first feature's upper end and equals one of them, maximum at or above every last feature's lower end and equals one of them; +inf and -inf without examples |
| Learner.ImputeRows | learn.py:53-57 | the pass of set_imputed_features gives one vector per example, or names an example that fails to impute |
| Learner.ImputeRowsSpec | learn.py:53-57 | every example imputes exactly when the pass succeeds, and then vector i is example i's imputation; otherwise the error names the first failing example and its error |
| Learner.ClusterClimatologyIsDistribution | learn.py:118-121 | every cluster climatology after a successful cluster sums to 1 over its members' outcomes |
| Learner.ForecastLearner.constructor | learn.py:35-41 | rows are split into features and outcome and the climatology is the outcome frequency map; line 40 (set_extremes) is left to Create, so the extremes hold its starting values +inf and -inf |
| Learner.ForecastLearner.Create | learn.py:35-42 | `__init__` fails with the set_extremes error or else the set_imputed_features error; on success every field holds the specified value |
| Learner.ForecastLearner.SetExtremes | learn.py:44-51 | the loop leaves the extremes of the examples in the fields, or reports the first example without features and changes nothing |
| Learner.ForecastLearner.SetImputedFeatures | learn.py:53-57 | the loop stores the imputation of every example in order, or reports the first failure and changes nothing |
| Learner.ForecastLearner.RangeProb | learn.py:70-71 | the loop sums the climatology over the span |
| Learner.ForecastLearner.AppendRun | learn.py:80-96 | the loop appends the run over `range(a, b)` and leaves the leftover 1 minus the emitted conditionals |
| Learner.ForecastLearner.ImputeFeature | learn.py:63-96 | one pass of the feature loop fails as the feature's expansion does, or places the expansion around the vector so far |
| Learner.ForecastLearner.ImputeExample | learn.py:59-96 | impute_example returns the specified imputation of the example, or the error of its first failing feature |
| Learner.ForecastLearner.Cluster | learn.py:100-121 | sample fails exactly when k exceeds the examples; an empty range of centres fails exactly when there are examples; otherwise the error and the centres are those of Lloyd's iteration from the seeded centres; on success the centres are a fixed point (no empty cluster, each centre the mean of its members) and each cluster climatology is the frequency map of its members' outcomes; on failure nothing changes |
| Learner.ForecastLearner.Train | learn.py:100-121 | the same outcome on values: the errors of sample and argmin exactly when they occur, otherwise the outcome of Lloyd's iteration from the seeded centres, with the fixed point and the cluster climatologies on success |
| Learner.ForecastLearner.Iterate | learn.py:104-115 | the `while True` loop returns exactly the outcome of Lloyd's iteration; on success a fixed point with one centre per seed and its final clusters; it fails only on an empty cluster or when the rounds run out |
| Learner.ForecastLearner.Round | learn.py:105-112 | one round builds the clusters of the current centres and their means, one mean per centre |
| Learner.ForecastLearner.AssignClusters | learn.py:105-111 | the loop builds for every centre exactly the membership list of the assignment |
| Learner.ForecastLearner.ClusterMeans | learn.py:112 | fails exactly when some cluster is empty; otherwise every new centre is the mean of its cluster |
| Learner.ForecastLearner.ClusterOutcomes | learn.py:118-121 | cluster climatology c is the frequency map of the outcomes of cluster c |
| Learner.ForecastLearner.Predict | learn.py:123-128 | no result exactly when there are no centres; otherwise the climatology of a first-nearest centre |

## Left out

- `prettyprint_features` (`learn.py:131-138`) only prints and is not modelled.
- `round(a, 3)` at `learn.py:97` is not applied. The imputed vectors are the
  exact values before rounding, and all mass properties are about those.
- Floating point is not modelled; probabilities are exact reals. `norm` and
  `math.sqrt` (`learn.py:8-9`) are replaced by an arbitrary `Metric`
  function parameter.
- Learner.ForecastLearner.Cluster: the random draw of `sample(examples, k)`
  is replaced by a parameter `seeds` of k distinct example indices. The
  unbounded `while True` loop is bounded by a `fuel` number of rounds. When
  the fuel runs out the result is `NotConverged` and nothing changes, an
  outcome the source (which may loop forever) does not have.
- Learner.ForecastLearner.Cluster: imputed vectors of different lengths
  (which make `vecsum` raise or truncate) are excluded by the precondition
  `Rectangular(imputed)`.
- Learner.ForecastLearner.RangeProb, Learner.ForecastLearner.ImputeFeature:
  a `defaultdict` lookup of a missing key inserts a zero entry into
  `self.climatology` and into the conditional climatology
  (`learn.py:71-74`). The model reads both through a total lookup that
  returns 0 and leaves the maps unchanged.
- Learner.ForecastLearner.Predict: calling `predict` before `cluster` raises
  AttributeError in the source. In the model the constructor sets the
  centres to the empty list, so such a call returns `None`.
- Rows are typed: a training row is a list of features plus an integer
  outcome. Python's dynamic typing of row cells is not modelled.
- Outcome labels and discretised values are integers.
