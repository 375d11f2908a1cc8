/**
 * impute_example: each interval feature ((lower, upper), prob) is expanded
 * into a run of probabilities over the integer discretisation range
 * [minimum, maximum], using the training climatology renormalised over the
 * part of the range the interval covers.
 */
module Imputation {
  import opened Wrappers
  import opened Vectors
  import opened Climatology

  /** An interval end: minus infinity, an integer, or plus infinity. */
  datatype Bound = NegInf | Fin(n: int) | PosInf

  /** The order of Python's numbers restricted to integers and +-inf. */
  predicate Le(a: Bound, b: Bound)
  {
    a.NegInf? || b.PosInf? || (a.Fin? && b.Fin? && a.n <= b.n)
  }

  /** Python's min(a, b): `a` unless `b` is strictly smaller. */
  function Min(a: Bound, b: Bound): (r: Bound)
    ensures Le(r, a) && Le(r, b)
    ensures r == a || r == b
  {
    if Le(a, b) then a else b
  }

  /** Python's max(a, b): `a` unless `b` is strictly larger. */
  function Max(a: Bound, b: Bound): (r: Bound)
    ensures Le(a, r) && Le(b, r)
    ensures r == a || r == b
  {
    if Le(b, a) then a else b
  }

  /** An interval-censored feature ((lower, upper), prob). */
  datatype Feature = Feature(lower: Bound, upper: Bound, prob: real)

  /** The exceptions impute_example can raise. */
  datatype ImputeError =
    | UnboundedSpan   // range() given an infinite end (TypeError)
    | ZeroSpanMass    // climatology[k] / range_prob with range_prob == 0 (ZeroDivisionError)
    | InfiniteBound   // int(upper) on a left-open interval whose upper end is +inf (OverflowError)

  /** Training mass of the integers lo..hi (range_prob). */
  function SpanMass(clim: map<int, real>, lo: int, hi: int): real
    decreases if hi < lo then 0 else hi - lo + 1
  {
    if hi < lo then 0.0 else SpanMass(clim, lo, hi - 1) + Weight(clim, hi)
  }

  /**
   * conditional_climatology: the climatology restricted to lo..hi and
   * divided by `mass`; every other value reads as 0.
   */
  datatype Conditional = Conditional(clim: map<int, real>, lo: int, hi: int, mass: real)
  {
    function At(v: int): real
    {
      if lo <= v <= hi && mass != 0.0 then Weight(clim, v) / mass else 0.0
    }
  }

  /** The conditional climatology over lo..hi, renormalised by its own mass. */
  function Restrict(clim: map<int, real>, lo: int, hi: int): Conditional
  {
    Conditional(clim, lo, hi, SpanMass(clim, lo, hi))
  }

  /** Number of values of Python's range(a, b). */
  function Width(a: int, b: int): nat
  {
    if b <= a then 0 else b - a
  }

  /** Sum of the conditional over range(a, b). */
  function CondSum(cc: Conditional, a: int, b: int): real
    decreases Width(a, b)
  {
    if b <= a then 0.0 else CondSum(cc, a, b - 1) + cc.At(b - 1)
  }

  /** The leftover of an open interval: 1 minus the conditionals emitted over range(a, b). */
  function Leftover(cc: Conditional, a: int, b: int): real
  {
    1.0 - CondSum(cc, a, b)
  }

  /** The conditionals conditional[val] for val in range(a, b), in order. */
  function Conds(cc: Conditional, a: int, b: int): seq<real>
    decreases Width(a, b)
  {
    if b <= a then [] else Conds(cc, a, b - 1) + [cc.At(b - 1)]
  }

  /** The values prob * conditional[val] for val in range(a, b), in order. */
  function Run(cc: Conditional, prob: real, a: int, b: int): seq<real>
  {
    VecMult(prob, Conds(cc, a, b))
  }

  /** Extending range(a, b) by b appends prob * conditional[b]. */
  lemma RunSnoc(cc: Conditional, prob: real, a: int, b: int)
    requires a <= b
    ensures Run(cc, prob, a, b + 1) == Run(cc, prob, a, b) + [prob * cc.At(b)]
  {
    var init := Conds(cc, a, b);
    assert Conds(cc, a, b + 1) == init + [cc.At(b)];
    var r, s := Run(cc, prob, a, b + 1), Run(cc, prob, a, b) + [prob * cc.At(b)];
    assert |r| == |s|;
    forall i | 0 <= i < |r|
      ensures r[i] == s[i]
    {
      if i < |init| {
        assert (init + [cc.At(b)])[i] == init[i];
      } else {
        assert (init + [cc.At(b)])[i] == cc.At(b);
      }
    }
    assert r == s;
  }

  /**
   * What one feature contributes: `front` is inserted before everything
   * imputed so far, `back` is appended after it.
   */
  datatype Expansion = Expansion(front: seq<real>, back: seq<real>)

  function Place(x: Expansion, acc: seq<real>): seq<real>
  {
    x.front + acc + x.back
  }

  /** A feature that imputes to its prob alone. */
  function Point(prob: real): Expansion
  {
    Expansion([], [prob])
  }

  /**
   * Left-open interval: prob * conditional[val] for val in range(a, b),
   * with the leftover bucket ("value <= minimum") in front.
   */
  function LeftTail(cc: Conditional, prob: real, a: int, b: int): Expansion
  {
    Expansion([prob * Leftover(cc, a, b)], Run(cc, prob, a, b))
  }

  /**
   * Right-open interval: prob * conditional[val] for val in range(a, b),
   * followed by the leftover bucket ("value >= maximum").
   */
  function RightTail(cc: Conditional, prob: real, a: int, b: int): Expansion
  {
    Expansion([], Run(cc, prob, a, b) + [prob * Leftover(cc, a, b)])
  }

  /** Bounded interval: prob * conditional[val] for val in range(a, b), no leftover. */
  function Interior(cc: Conditional, prob: real, a: int, b: int): Expansion
  {
    Expansion([], Run(cc, prob, a, b))
  }

  /**
   * The loop of a left-open interval leaves `run` (the accumulated vector
   * followed by the run) and `leftover`; inserting prob * leftover in front
   * gives the placed expansion.
   */
  lemma LeftTailPlace(cc: Conditional, prob: real, a: int, b: int, acc: seq<real>, run: seq<real>, leftover: real)
    requires run == acc + Run(cc, prob, a, b) && leftover == Leftover(cc, a, b)
    ensures Place(LeftTail(cc, prob, a, b), acc) == [prob * leftover] + run
  {
    var x := LeftTail(cc, prob, a, b);
    assert x.front[0] == prob * leftover;
    assert x.front == [prob * leftover];
    assert x.front + acc + x.back == x.front + (acc + x.back);
  }

  /** As LeftTailPlace, with prob * leftover appended after the run. */
  lemma RightTailPlace(cc: Conditional, prob: real, a: int, b: int, acc: seq<real>, run: seq<real>, leftover: real)
    requires run == acc + Run(cc, prob, a, b) && leftover == Leftover(cc, a, b)
    ensures Place(RightTail(cc, prob, a, b), acc) == run + [prob * leftover]
  {
    var x := RightTail(cc, prob, a, b);
    assert x.back[|Run(cc, prob, a, b)|] == prob * leftover;
    assert x.back[..|Run(cc, prob, a, b)|] == Run(cc, prob, a, b);
    assert x.back == Run(cc, prob, a, b) + [prob * leftover];
    assert x.front + acc + x.back == acc + Run(cc, prob, a, b) + [prob * leftover];
  }

  /** The body of the feature loop of impute_example, for one feature. */
  function Expand(f: Feature, clim: map<int, real>, minimum: Bound, maximum: Bound): (r: Result<Expansion, ImputeError>)
    ensures r.Success? && r.value.front != [] ==> |r.value.front| == 1 && f.lower == NegInf && f.upper != f.lower
    ensures r == Failure(InfiniteBound) ==> f.lower == NegInf && f.upper == PosInf
    ensures r.Failure? ==> f.upper != f.lower
  {
    if f.upper == f.lower then Success(Point(f.prob))
    else
      var lo, hi := Max(f.lower, minimum), Min(f.upper, maximum);
      if !lo.Fin? || !hi.Fin? then Failure(UnboundedSpan)
      else
        var cc := Restrict(clim, lo.n, hi.n);
        if lo.n <= hi.n && cc.mass == 0.0 then Failure(ZeroSpanMass)
        else if f.lower == NegInf then
          if f.upper == minimum then Success(Point(f.prob))
          else if !f.upper.Fin? then Failure(InfiniteBound)
          else Success(LeftTail(cc, f.prob, minimum.n + 1, f.upper.n + 1))
        else if f.upper == PosInf then
          if f.lower == maximum then Success(Point(f.prob))
          else Success(RightTail(cc, f.prob, f.lower.n, maximum.n))
        else
          Success(Interior(cc, f.prob, f.lower.n, f.upper.n + 1))
  }

  /** impute_example from an accumulated vector `acc` over the remaining features. */
  function ImputeFrom(acc: seq<real>, fs: seq<Feature>, clim: map<int, real>, minimum: Bound, maximum: Bound): (r: Result<seq<real>, ImputeError>)
    ensures r.Success? ==> |r.value| >= |acc|
    ensures r.Failure? ==> exists i :: 0 <= i < |fs| && Expand(fs[i], clim, minimum, maximum) == Failure(r.error)
    decreases |fs|
  {
    if fs == [] then Success(acc)
    else
      match Expand(fs[0], clim, minimum, maximum)
      case Failure(e) => Failure(e)
      case Success(x) =>
        var r := ImputeFrom(Place(x, acc), fs[1..], clim, minimum, maximum);
        assert forall i :: 0 <= i < |fs[1..]| ==> fs[1..][i] == fs[i + 1];
        r
  }

  /** impute_example, before the final rounding. */
  function Impute(fs: seq<Feature>, clim: map<int, real>, minimum: Bound, maximum: Bound): (r: Result<seq<real>, ImputeError>)
    ensures r.Failure? ==> exists i :: 0 <= i < |fs| && Expand(fs[i], clim, minimum, maximum) == Failure(r.error)
  {
    ImputeFrom([], fs, clim, minimum, maximum)
  }

  // ---------------------------------------------------------------------
  // Layout

  /** A feature of the form (lower, upper) with both ends finite and distinct. */
  predicate IsBounded(f: Feature)
  {
    f.lower != f.upper && f.lower != NegInf && f.upper != PosInf
  }

  /** Number of entries one feature contributes, by the shape of its interval. */
  function ExpansionLength(f: Feature, minimum: Bound, maximum: Bound): nat
  {
    if f.lower == f.upper then 1
    else if f.lower == NegInf then
      if f.upper == minimum || !f.upper.Fin? || !minimum.Fin? then 1
      else Width(minimum.n + 1, f.upper.n + 1) + 1
    else if f.upper == PosInf then
      if f.lower == maximum || !f.lower.Fin? || !maximum.Fin? then 1
      else Width(f.lower.n, maximum.n) + 1
    else if f.lower.Fin? && f.upper.Fin? then Width(f.lower.n, f.upper.n + 1)
    else 0
  }

  lemma {:induction false} RunLength(cc: Conditional, prob: real, a: int, b: int)
    ensures |Run(cc, prob, a, b)| == Width(a, b)
    decreases Width(a, b)
  {
    if a < b {
      RunLength(cc, prob, a, b - 1);
      RunSnoc(cc, prob, a, b - 1);
    }
  }

  /**
   * A successful expansion has the length ExpansionLength gives, and only
   * a left-open interval whose upper end is not the minimum puts an entry
   * in front (its leftover bucket).
   */
  lemma ExpandLength(f: Feature, clim: map<int, real>, minimum: Bound, maximum: Bound)
    requires Expand(f, clim, minimum, maximum).Success?
    ensures var x := Expand(f, clim, minimum, maximum).value;
      |x.front| + |x.back| == ExpansionLength(f, minimum, maximum)
      && |x.front| == (if f.lower != f.upper && f.lower == NegInf && f.upper != minimum then 1 else 0)
  {
    var lo, hi := Max(f.lower, minimum), Min(f.upper, maximum);
    if f.lower != f.upper {
      var cc := Restrict(clim, lo.n, hi.n);
      if f.lower == NegInf {
        if f.upper != minimum {
          RunLength(cc, f.prob, minimum.n + 1, f.upper.n + 1);
        }
      } else if f.upper == PosInf {
        if f.lower != maximum {
          RunLength(cc, f.prob, f.lower.n, maximum.n);
        }
      } else {
        RunLength(cc, f.prob, f.lower.n, f.upper.n + 1);
      }
    }
  }

  /** Total number of entries the features contribute. */
  function TotalLength(fs: seq<Feature>, minimum: Bound, maximum: Bound): nat
  {
    if fs == [] then 0 else ExpansionLength(fs[0], minimum, maximum) + TotalLength(fs[1..], minimum, maximum)
  }

  // ---------------------------------------------------------------------
  // Mass

  lemma {:induction false} SumConds(cc: Conditional, a: int, b: int)
    ensures Sum(Conds(cc, a, b)) == CondSum(cc, a, b)
    decreases Width(a, b)
  {
    if a < b {
      SumConds(cc, a, b - 1);
      SumSnoc(Conds(cc, a, b - 1), cc.At(b - 1));
    }
  }

  /** The emitted run carries prob times the conditional mass of its range. */
  lemma SumRun(cc: Conditional, prob: real, a: int, b: int)
    ensures Sum(Run(cc, prob, a, b)) == prob * CondSum(cc, a, b)
  {
    SumVecMult(prob, Conds(cc, a, b));
    SumConds(cc, a, b);
  }

  function MinInt(x: int, y: int): int
  {
    if x <= y then x else y
  }

  /**
   * Summed over any range(a, x) that starts at or below the span, the
   * conditional collects the span's mass up to x - 1, renormalised.
   */
  lemma {:induction false} CondSumCovers(cc: Conditional, a: int, x: int)
    requires a <= cc.lo && a <= x && cc.mass != 0.0
    ensures CondSum(cc, a, x) == SpanMass(cc.clim, cc.lo, MinInt(x - 1, cc.hi)) / cc.mass
    decreases x - a
  {
    if a < x {
      CondSumCovers(cc, a, x - 1);
      var v := x - 1;
      if cc.lo <= v <= cc.hi {
        SumFractions(SpanMass(cc.clim, cc.lo, v - 1), Weight(cc.clim, v), cc.mass);
      }
    }
  }

  lemma {:induction false} CondSumEmptySpan(cc: Conditional, a: int, b: int)
    requires cc.hi < cc.lo
    ensures CondSum(cc, a, b) == 0.0
    decreases Width(a, b)
  {
    if a < b {
      CondSumEmptySpan(cc, a, b - 1);
    }
  }

  /**
   * The mass one feature contributes: its prob, except for a bounded
   * interval lying wholly outside [minimum, maximum], which contributes
   * zeros only.
   */
  function FeatureMass(f: Feature, minimum: Bound, maximum: Bound): real
  {
    var lo, hi := Max(f.lower, minimum), Min(f.upper, maximum);
    if IsBounded(f) && lo.Fin? && hi.Fin? && hi.n < lo.n then 0.0 else f.prob
  }

  lemma SumSingleton(x: real)
    ensures Sum([x]) == x
  {
    assert [x][..0] == [];
  }

  /** The leftover bucket holds what the emitted conditionals leave of prob. */
  lemma LeftoverComplement(prob: real, c: real, leftover: real, run: real)
    requires leftover == 1.0 - c && run == prob * c
    ensures prob * leftover + run == prob
  {
  }

  /** The run over range(a, b) and its leftover bucket carry prob between them. */
  lemma BucketMass(cc: Conditional, prob: real, a: int, b: int)
    ensures prob * Leftover(cc, a, b) + Sum(Run(cc, prob, a, b)) == prob
  {
    SumRun(cc, prob, a, b);
    LeftoverComplement(prob, CondSum(cc, a, b), Leftover(cc, a, b), Sum(Run(cc, prob, a, b)));
  }

  lemma LeftTailShape(cc: Conditional, prob: real, a: int, b: int)
    ensures var x := LeftTail(cc, prob, a, b);
      |x.front| == 1 && x.front[0] == prob * Leftover(cc, a, b) && x.back == Run(cc, prob, a, b)
  {
  }

  lemma RightTailShape(cc: Conditional, prob: real, a: int, b: int)
    ensures var x, run := RightTail(cc, prob, a, b), Run(cc, prob, a, b);
      |x.front| == 0 && |x.back| == |run| + 1 && x.back[..|run|] == run && x.back[|run|] == prob * Leftover(cc, a, b)
  {
  }

  /** A left-open interval's entries, leftover bucket first, add up to its prob. */
  lemma LeftTailMass(cc: Conditional, prob: real, a: int, b: int)
    ensures Sum(LeftTail(cc, prob, a, b).front) + Sum(LeftTail(cc, prob, a, b).back) == prob
  {
    LeftTailShape(cc, prob, a, b);
    var front := LeftTail(cc, prob, a, b).front;
    assert Sum(front) == front[0] by {
      assert Sum(front[..0]) == 0.0;
    }
    BucketMass(cc, prob, a, b);
  }

  /** A right-open interval's entries, leftover bucket last, add up to its prob. */
  lemma RightTailMass(cc: Conditional, prob: real, a: int, b: int)
    ensures Sum(RightTail(cc, prob, a, b).front) + Sum(RightTail(cc, prob, a, b).back) == prob
  {
    RightTailShape(cc, prob, a, b);
    BucketMass(cc, prob, a, b);
  }

  /**
   * A run over range(a, b) that contains the whole span carries all of
   * prob when the span is non-empty and nothing when it is empty.
   */
  lemma InteriorMass(cc: Conditional, prob: real, a: int, b: int)
    requires a <= cc.lo && cc.hi < b
    requires cc.mass == SpanMass(cc.clim, cc.lo, cc.hi)
    requires cc.lo <= cc.hi ==> cc.mass != 0.0
    ensures Sum(Interior(cc, prob, a, b).back) == if cc.hi < cc.lo then 0.0 else prob
  {
    SumRun(cc, prob, a, b);
    if cc.hi < cc.lo {
      CondSumEmptySpan(cc, a, b);
    } else {
      CondSumCovers(cc, a, b);
      assert MinInt(b - 1, cc.hi) == cc.hi;
      SelfDivision(cc.mass);
    }
  }

  /**
   * Conservation of mass for one feature: the leftover bucket of an open
   * interval is 1 minus the emitted conditionals, so the feature's entries
   * add up to exactly its prob.
   */
  lemma ExpandMass(f: Feature, clim: map<int, real>, minimum: Bound, maximum: Bound)
    requires Expand(f, clim, minimum, maximum).Success?
    ensures var x := Expand(f, clim, minimum, maximum).value;
      Sum(x.front) + Sum(x.back) == FeatureMass(f, minimum, maximum)
  {
    if f.lower == f.upper || (f.lower == NegInf && f.upper == minimum) || (f.upper == PosInf && f.lower == maximum) {
      SumSingleton(f.prob);
    } else {
      var lo, hi := Max(f.lower, minimum), Min(f.upper, maximum);
      var cc := Restrict(clim, lo.n, hi.n);
      if f.lower == NegInf {
        LeftTailMass(cc, f.prob, minimum.n + 1, f.upper.n + 1);
      } else if f.upper == PosInf {
        RightTailMass(cc, f.prob, f.lower.n, maximum.n);
      } else {
        InteriorMass(cc, f.prob, f.lower.n, f.upper.n + 1);
      }
    }
  }

  /** Total mass the features contribute. */
  function TotalMass(fs: seq<Feature>, minimum: Bound, maximum: Bound): real
  {
    if fs == [] then 0.0 else FeatureMass(fs[0], minimum, maximum) + TotalMass(fs[1..], minimum, maximum)
  }

  /** Sum of the probs of the features. */
  function TotalProb(fs: seq<Feature>): real
  {
    if fs == [] then 0.0 else fs[0].prob + TotalProb(fs[1..])
  }

  lemma {:induction false} ImputeFromShape(acc: seq<real>, fs: seq<Feature>, clim: map<int, real>, minimum: Bound, maximum: Bound)
    requires ImputeFrom(acc, fs, clim, minimum, maximum).Success?
    ensures var v := ImputeFrom(acc, fs, clim, minimum, maximum).value;
      |v| == |acc| + TotalLength(fs, minimum, maximum)
      && Sum(v) == Sum(acc) + TotalMass(fs, minimum, maximum)
    decreases |fs|
  {
    if fs != [] {
      var x := Expand(fs[0], clim, minimum, maximum).value;
      ExpandLength(fs[0], clim, minimum, maximum);
      ExpandMass(fs[0], clim, minimum, maximum);
      SumConcat(x.front, acc);
      SumConcat(x.front + acc, x.back);
      ImputeFromShape(Place(x, acc), fs[1..], clim, minimum, maximum);
    }
  }

  /**
   * The imputed vector of an example has one entry per expanded value and
   * carries the example's whole mass: before rounding its entries add up
   * to the sum of the features' probs, less the probs of bounded features
   * lying wholly outside the range.
   */
  lemma ImputeShape(fs: seq<Feature>, clim: map<int, real>, minimum: Bound, maximum: Bound)
    requires Impute(fs, clim, minimum, maximum).Success?
    ensures |Impute(fs, clim, minimum, maximum).value| == TotalLength(fs, minimum, maximum)
    ensures Sum(Impute(fs, clim, minimum, maximum).value) == TotalMass(fs, minimum, maximum)
  {
    ImputeFromShape([], fs, clim, minimum, maximum);
  }

  lemma {:induction false} TotalMassIsTotalProb(fs: seq<Feature>, minimum: Bound, maximum: Bound)
    requires forall i :: 0 <= i < |fs| ==> FeatureMass(fs[i], minimum, maximum) == fs[i].prob
    ensures TotalMass(fs, minimum, maximum) == TotalProb(fs)
  {
    if fs != [] {
      TotalMassIsTotalProb(fs[1..], minimum, maximum);
    }
  }

  /** When every bounded feature meets [minimum, maximum], the imputed vector sums to the sum of the probs. */
  lemma ImputeConservesMass(fs: seq<Feature>, clim: map<int, real>, minimum: Bound, maximum: Bound)
    requires Impute(fs, clim, minimum, maximum).Success?
    requires forall i :: 0 <= i < |fs| ==> FeatureMass(fs[i], minimum, maximum) == fs[i].prob
    ensures Sum(Impute(fs, clim, minimum, maximum).value) == TotalProb(fs)
  {
    ImputeShape(fs, clim, minimum, maximum);
    TotalMassIsTotalProb(fs, minimum, maximum);
  }

  // ---------------------------------------------------------------------
  // Placement and errors

  lemma {:induction false} ImputeFromSnoc(acc: seq<real>, fs: seq<Feature>, f: Feature, clim: map<int, real>, minimum: Bound, maximum: Bound)
    ensures ImputeFrom(acc, fs + [f], clim, minimum, maximum) ==
      match ImputeFrom(acc, fs, clim, minimum, maximum)
      case Failure(e) => Failure(e)
      case Success(v) =>
        match Expand(f, clim, minimum, maximum)
        case Failure(e) => Failure(e)
        case Success(x) => Success(Place(x, v))
    decreases |fs|
  {
    if fs == [] {
      assert fs + [f] == [f];
    } else {
      assert (fs + [f])[0] == fs[0] && (fs + [f])[1..] == fs[1..] + [f];
      match Expand(fs[0], clim, minimum, maximum)
      case Failure(e) =>
      case Success(x) => ImputeFromSnoc(Place(x, acc), fs[1..], f, clim, minimum, maximum);
    }
  }

  /**
   * Layout of impute_example: the vector for fs + [f] is f's front entry
   * (the leftover of a left-open interval), then the whole vector for fs,
   * then f's remaining entries. A left-open leftover thus lands at index 0
   * of the example's vector, not at the start of its own feature's run.
   */
  lemma ImputeSnoc(fs: seq<Feature>, f: Feature, clim: map<int, real>, minimum: Bound, maximum: Bound)
    ensures Impute(fs + [f], clim, minimum, maximum) ==
      match Impute(fs, clim, minimum, maximum)
      case Failure(e) => Failure(e)
      case Success(v) =>
        match Expand(f, clim, minimum, maximum)
        case Failure(e) => Failure(e)
        case Success(x) => Success(x.front + v + x.back)
  {
    ImputeFromSnoc([], fs, f, clim, minimum, maximum);
  }

  /**
   * impute_example raises exactly when one of the features does, and the
   * exception is that of the first feature that raises.
   */
  lemma {:induction false} ImputeFromFailure(acc: seq<real>, fs: seq<Feature>, clim: map<int, real>, minimum: Bound, maximum: Bound)
    ensures ImputeFrom(acc, fs, clim, minimum, maximum).Failure?
      <==> exists i :: 0 <= i < |fs| && Expand(fs[i], clim, minimum, maximum).Failure?
    ensures ImputeFrom(acc, fs, clim, minimum, maximum).Failure? ==>
      exists i :: 0 <= i < |fs| && Expand(fs[i], clim, minimum, maximum) == Failure(ImputeFrom(acc, fs, clim, minimum, maximum).error)
        && forall j :: 0 <= j < i ==> Expand(fs[j], clim, minimum, maximum).Success?
    decreases |fs|
  {
    if fs != [] {
      match Expand(fs[0], clim, minimum, maximum)
      case Failure(e) =>
      case Success(x) =>
        var rest := fs[1..];
        ImputeFromFailure(Place(x, acc), rest, clim, minimum, maximum);
        if ImputeFrom(acc, fs, clim, minimum, maximum).Failure? {
          var i :| 0 <= i < |rest| && Expand(rest[i], clim, minimum, maximum) == Failure(ImputeFrom(acc, fs, clim, minimum, maximum).error)
            && forall j :: 0 <= j < i ==> Expand(rest[j], clim, minimum, maximum).Success?;
          assert fs[i + 1] == rest[i];
          assert forall j :: 0 <= j < i + 1 ==> Expand(fs[j], clim, minimum, maximum).Success? by {
            forall j | 0 <= j < i + 1 ensures Expand(fs[j], clim, minimum, maximum).Success? {
              if j > 0 { assert fs[j] == rest[j - 1]; }
            }
          }
        } else {
          forall i | 0 <= i < |fs| ensures Expand(fs[i], clim, minimum, maximum).Success? {
            if i > 0 { assert fs[i] == rest[i - 1]; }
          }
        }
    }
  }

  /**
   * A left-open interval ending at the minimum imputes to its prob alone,
   * whatever the climatology, except that the division that precedes that
   * check fails when the climatology gives the minimum no mass (and the
   * minimum does not exceed the maximum).
   */
  lemma LeftOpenAtMinimum(prob: real, clim: map<int, real>, m: int, maximum: Bound)
    ensures Expand(Feature(NegInf, Fin(m), prob), clim, Fin(m), maximum) ==
      if maximum == NegInf then Failure(UnboundedSpan)
      else if Le(Fin(m), maximum) && Weight(clim, m) == 0.0 then Failure(ZeroSpanMass)
      else Success(Point(prob))
  {
    assert SpanMass(clim, m, m) == Weight(clim, m);
  }

  /**
   * A bounded interval (1, 3) with prob 1 over a uniform climatology on
   * {1, 2, 3} imputes to three entries of 1/3.
   */
  lemma UniformBoundedExample()
    ensures var third := 1.0 / 3.0;
      Impute([Feature(Fin(1), Fin(3), 1.0)], map[1 := third, 2 := third, 3 := third], Fin(1), Fin(3))
        == Success([third, third, third])
  {
    var third := 1.0 / 3.0;
    var clim := map[1 := third, 2 := third, 3 := third];
    var cc := Restrict(clim, 1, 3);
    assert SpanMass(clim, 1, 1) == third;
    assert SpanMass(clim, 1, 2) == 2.0 * third;
    assert cc.mass == 1.0;
    assert Run(cc, 1.0, 1, 2) == [third];
    assert Run(cc, 1.0, 1, 3) == [third, third];
    assert Run(cc, 1.0, 1, 4) == [third, third, third];
    var f := Feature(Fin(1), Fin(3), 1.0);
    assert Expand(f, clim, Fin(1), Fin(3)) == Success(Interior(cc, 1.0, 1, 4));
    assert Place(Interior(cc, 1.0, 1, 4), []) == [third, third, third];
    assert [f][1..] == [];
  }
}
