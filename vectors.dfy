/**
 * The list helpers of learn.py: argmin, vecsum, vecsum_list and vecmult,
 * over vectors of exact reals.
 */
module Vectors {

  /** Sum of the entries of a vector, accumulated left to right. */
  function Sum(v: seq<real>): real
  {
    if v == [] then 0.0 else Sum(v[..|v| - 1]) + v[|v| - 1]
  }

  lemma {:induction false} SumConcat(a: seq<real>, b: seq<real>)
    ensures Sum(a + b) == Sum(a) + Sum(b)
  {
    if b != [] {
      assert (a + b)[..|a + b| - 1] == a + b[..|b| - 1];
      SumConcat(a, b[..|b| - 1]);
    } else {
      assert a + b == a;
    }
  }

  lemma SumSnoc(s: seq<real>, y: real)
    ensures Sum(s + [y]) == Sum(s) + y
  {
    assert (s + [y])[..|s|] == s;
  }

  /** Python's range(k). */
  function Range(k: nat): seq<nat>
  {
    seq(k, i => i)
  }

  /**
   * Python's min(lst, key=f): scans left to right and replaces the
   * current best only on a strictly smaller key, so ties go to the
   * first minimal element.
   */
  function ArgMin<T>(f: T -> real, lst: seq<T>): (r: T)
    requires |lst| > 0
    ensures forall j :: 0 <= j < |lst| ==> f(r) <= f(lst[j])
    ensures exists i :: 0 <= i < |lst| && lst[i] == r && forall j :: 0 <= j < i ==> f(r) < f(lst[j])
  {
    if |lst| == 1 then lst[0]
    else
      var init := lst[..|lst| - 1];
      var best := ArgMin(f, init);
      var last := lst[|lst| - 1];
      if f(last) < f(best) then
        assert forall j :: 0 <= j < |lst| - 1 ==> lst[j] == init[j];
        last
      else
        assert forall j :: 0 <= j < |lst| - 1 ==> lst[j] == init[j];
        best
  }

  /**
   * vecsum: an empty vector is an identity on either side; otherwise the
   * sum runs over the indices of `a` (Python raises IndexError when `b` is
   * shorter, hence the precondition).
   */
  function VecSum(a: seq<real>, b: seq<real>): (r: seq<real>)
    requires a == [] || b == [] || |a| <= |b|
    ensures a == [] ==> r == b
    ensures b == [] ==> r == a
    ensures a != [] ==> |r| == |a|
    ensures a != [] && b != [] ==> forall i :: 0 <= i < |a| ==> r[i] == a[i] + b[i]
  {
    if a == [] then b
    else if b == [] then a
    else seq(|a|, i requires 0 <= i < |a| => a[i] + b[i])
  }

  /** All vectors of the list have the same length. */
  ghost predicate Rectangular(lst: seq<seq<real>>)
  {
    forall i, j :: 0 <= i < |lst| && 0 <= j < |lst| ==> |lst[i]| == |lst[j]|
  }

  /** Sum of column `t` over the rows of `lst`. */
  function ColumnSum(lst: seq<seq<real>>, t: nat): real
    requires forall i :: 0 <= i < |lst| ==> t < |lst[i]|
  {
    if lst == [] then 0.0 else lst[0][t] + ColumnSum(lst[1..], t)
  }

  /** vecsum_list: the component-wise sum of a list of equal-length vectors. */
  function VecSumList(lst: seq<seq<real>>): (r: seq<real>)
    requires Rectangular(lst)
    ensures lst == [] ==> r == []
    ensures lst != [] ==> |r| == |lst[0]| && forall t :: 0 <= t < |r| ==> r[t] == ColumnSum(lst, t)
  {
    if lst == [] then []
    else
      assert Rectangular(lst[1..]) by {
        forall i, j | 0 <= i < |lst[1..]| && 0 <= j < |lst[1..]|
          ensures |lst[1..][i]| == |lst[1..][j]|
        {
          assert lst[1..][i] == lst[i + 1] && lst[1..][j] == lst[j + 1];
        }
      }
      VecSum(lst[0], VecSumList(lst[1..]))
  }

  /** vecmult: every entry of `v` scaled by `a`. */
  function VecMult(a: real, v: seq<real>): (r: seq<real>)
    ensures |r| == |v|
    ensures forall i :: 0 <= i < |v| ==> r[i] == a * v[i]
  {
    seq(|v|, i requires 0 <= i < |v| => a * v[i])
  }

  /** Summing a scaled vector scales the sum. */
  lemma {:induction false} SumVecMult(a: real, v: seq<real>)
    ensures Sum(VecMult(a, v)) == a * Sum(v)
  {
    if v != [] {
      var w, u := VecMult(a, v)[..|v| - 1], VecMult(a, v[..|v| - 1]);
      assert |w| == |u| && forall i :: 0 <= i < |w| ==> w[i] == u[i];
      assert w == u;
      SumVecMult(a, v[..|v| - 1]);
      assert Sum(VecMult(a, v)) == Sum(w) + a * v[|v| - 1];
      assert a * Sum(v) == a * Sum(v[..|v| - 1]) + a * v[|v| - 1];
    }
  }
}
