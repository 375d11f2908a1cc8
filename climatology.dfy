/**
 * compute_climatology: the empirical frequency map of a list of outcome
 * labels, read through a total lookup that gives 0 for unseen labels
 * (the defaultdict(float) of the source).
 */
module Climatology {

  /** Number of occurrences of `x` in `s`. */
  function Count<L(==)>(s: seq<L>, x: L): nat
  {
    multiset(s)[x]
  }

  /** Lookup that defaults to 0 for a label the map has not seen. */
  function Weight<L(==)>(c: map<L, real>, x: L): real
  {
    if x in c then c[x] else 0.0
  }

  /** The frequency map of `s`: each label present maps to count/m. */
  function Frequencies<L(==)>(s: seq<L>): map<L, real>
  {
    map x | x in s :: Count(s, x) as real / |s| as real
  }

  /**
   * compute_climatology: one pass over the outcomes, adding 1/m to the
   * entry of each outcome met. An empty list gives the empty map without
   * dividing.
   */
  method ComputeClimatology<L(==)>(outcomes: seq<L>) returns (climatology: map<L, real>)
    ensures climatology == Frequencies(outcomes)
    ensures forall x :: Weight(climatology, x) == if x in outcomes then Count(outcomes, x) as real / |outcomes| as real else 0.0
  {
    climatology := map[];
    var m := |outcomes|;
    for t := 0 to m
      invariant climatology.Keys == set x | x in outcomes[..t]
      invariant forall x :: x in climatology ==> m > 0 && climatology[x] == Count(outcomes[..t], x) as real / m as real
    {
      var outcome := outcomes[t];
      assert outcomes[..t + 1] == outcomes[..t] + [outcome];
      AddFraction(Count(outcomes[..t], outcome), m);
      climatology := climatology[outcome := Weight(climatology, outcome) + 1.0 / m as real];
    }
    assert outcomes[..m] == outcomes;
    forall x | x in outcomes
      ensures x in climatology && climatology[x] == Frequencies(outcomes)[x]
    {
    }
  }

  lemma AddFraction(k: nat, m: nat)
    requires m > 0
    ensures k as real / m as real + 1.0 / m as real == (k + 1) as real / m as real
  {
  }

  lemma SumFractions(a: real, b: real, m: real)
    requires m != 0.0
    ensures a / m + b / m == (a + b) / m
  {
  }

  lemma SelfDivision(m: real)
    requires m != 0.0
    ensures m / m == 1.0
  {
  }

  /** The distinct labels of `s` in order of first appearance (the key order of the source's dict). */
  function Labels<L(==)>(s: seq<L>): seq<L>
  {
    if s == [] then []
    else
      var seen := Labels(s[..|s| - 1]);
      if s[|s| - 1] in seen then seen else seen + [s[|s| - 1]]
  }

  ghost predicate Distinct<L>(s: seq<L>)
  {
    forall i, j :: 0 <= i < j < |s| ==> s[i] != s[j]
  }

  /** Labels(s) lists every label of `s` exactly once, and nothing else. */
  lemma {:induction false} LabelsEnumerate<L>(s: seq<L>)
    ensures Distinct(Labels(s))
    ensures forall x :: x in Labels(s) <==> x in s
  {
    if s != [] {
      var init := s[..|s| - 1];
      LabelsEnumerate(init);
      assert s == init + [s[|s| - 1]];
    }
  }

  /** Weight of labels `ks` summed in order. */
  function TotalWeight<L(==)>(c: map<L, real>, ks: seq<L>): real
  {
    if ks == [] then 0.0 else TotalWeight(c, ks[..|ks| - 1]) + Weight(c, ks[|ks| - 1])
  }

  /** Occurrences in `s` of the labels `ks`, summed in order. */
  function CountTotal<L(==)>(s: seq<L>, ks: seq<L>): nat
  {
    if ks == [] then 0 else CountTotal(s, ks[..|ks| - 1]) + Count(s, ks[|ks| - 1])
  }

  lemma {:induction false} CountTotalSnoc<L>(s: seq<L>, x: L, ks: seq<L>)
    ensures CountTotal(s + [x], ks) == CountTotal(s, ks) + Count(ks, x)
  {
    if ks != [] {
      var init := ks[..|ks| - 1];
      CountTotalSnoc(s, x, init);
      assert ks == init + [ks[|ks| - 1]];
      assert multiset(s + [x]) == multiset(s) + multiset{x};
    }
  }

  lemma {:induction false} CountInDistinct<L>(ks: seq<L>, x: L)
    requires Distinct(ks) && x in ks
    ensures Count(ks, x) == 1
  {
    var init := ks[..|ks| - 1];
    assert ks == init + [ks[|ks| - 1]];
    if ks[|ks| - 1] == x {
      assert x !in init;
    } else {
      CountInDistinct(init, x);
    }
  }

  /** Every occurrence of `s` is counted once when summing over its distinct labels. */
  lemma {:induction false} CountTotalOfLabels<L>(s: seq<L>)
    ensures CountTotal(s, Labels(s)) == |s|
  {
    if s != [] {
      var init, x := s[..|s| - 1], s[|s| - 1];
      assert s == init + [x];
      var seen := Labels(init);
      CountTotalOfLabels(init);
      LabelsEnumerate(init);
      CountTotalSnoc(init, x, Labels(s));
      if x in seen {
        CountInDistinct(seen, x);
      } else {
        CountTotalSnoc(init, x, seen);
        assert Count(init, x) == 0;
        assert Count(seen + [x], x) == 1 by {
          assert multiset(seen + [x]) == multiset(seen) + multiset{x};
        }
      }
    }
  }

  lemma {:induction false} TotalWeightOfFrequencies<L>(s: seq<L>, ks: seq<L>)
    requires |s| > 0
    ensures TotalWeight(Frequencies(s), ks) == CountTotal(s, ks) as real / |s| as real
  {
    if ks != [] {
      var init, x := ks[..|ks| - 1], ks[|ks| - 1];
      TotalWeightOfFrequencies(s, init);
      assert Weight(Frequencies(s), x) == Count(s, x) as real / |s| as real;
      SumFractions(CountTotal(s, init) as real, Count(s, x) as real, |s| as real);
    }
  }

  /** Over the distinct labels of a non-empty list the frequencies sum to 1. */
  lemma FrequenciesSumToOne<L>(s: seq<L>)
    requires |s| > 0
    ensures TotalWeight(Frequencies(s), Labels(s)) == 1.0
  {
    var ks := Labels(s);
    TotalWeightOfFrequencies(s, ks);
    CountTotalOfLabels(s);
    var m := |s| as real;
    SelfDivision(m);
  }

  /** Every frequency lies in (0, 1]; an unseen label weighs 0. */
  lemma FrequencyBounds<L>(s: seq<L>, x: L)
    ensures x in s ==> 0.0 < Weight(Frequencies(s), x) <= 1.0
    ensures x !in s ==> Weight(Frequencies(s), x) == 0.0
  {
    if x in s {
      assert multiset(s)[x] <= |multiset(s)|;
    }
  }
}
