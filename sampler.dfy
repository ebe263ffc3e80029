/**
 * The weighted sampler of src/generate.py (`random_attr`): one value per
 * property of the chosen folder, each drawn by cumulative sum and first
 * exceedance over the property's ratios. Ratios are exact reals here; the
 * uniform numbers `k` and the chosen folder are parameters.
 */
module Sampler {
  import opened Wrappers
  import opened Text
  import opened Rules

  /** `ratio[0] + ... + ratio[n-1]`, the n-th entry of `np.cumsum` shifted by one. */
  function PrefixSum(ratios: seq<real>, n: nat): real
    requires n <= |ratios|
  {
    if n == 0 then 0.0 else PrefixSum(ratios, n - 1) + ratios[n - 1]
  }

  predicate NonNegative(ratios: seq<real>) {
    forall j :: 0 <= j < |ratios| ==> ratios[j] >= 0.0
  }

  /** `i` is the first index whose cumulative sum exceeds `k`. */
  predicate IsChoice(ratios: seq<real>, k: real, i: nat) {
    i < |ratios| && PrefixSum(ratios, i + 1) > k
    && forall j :: 1 <= j <= i ==> PrefixSum(ratios, j) <= k
  }

  /**
   * `next(x[0] for x in enumerate(np.cumsum(ratios) - k) if x[1] > 0)`
   * (generate.py:136-137); `None` where `next` raises StopIteration.
   */
  method FirstExceedance(ratios: seq<real>, k: real) returns (r: Option<nat>)
    ensures r.Some? ==> IsChoice(ratios, k, r.value)
    ensures r.None? <==> forall j :: 1 <= j <= |ratios| ==> PrefixSum(ratios, j) <= k
    ensures r.Some? && NonNegative(ratios) && k >= 0.0 ==> ratios[r.value] > 0.0
  {
    var cum := 0.0;
    var i := 0;
    while i < |ratios|
      invariant 0 <= i <= |ratios|
      invariant cum == PrefixSum(ratios, i)
      invariant forall j :: 1 <= j <= i ==> PrefixSum(ratios, j) <= k
    {
      cum := cum + ratios[i];
      if cum - k > 0.0 {
        assert PrefixSum(ratios, i + 1) == PrefixSum(ratios, i) + ratios[i] > k;
        assert IsChoice(ratios, k, i);
        if k >= 0.0 {
          assert PrefixSum(ratios, i) <= k by {
            if i > 0 {
              assert PrefixSum(ratios, i) <= k;
            }
          }
        }
        return Some(i);
      }
      i := i + 1;
    }
    return None;
  }

  lemma {:induction false} PrefixSumMonotone(ratios: seq<real>, i: nat, j: nat)
    requires NonNegative(ratios) && i <= j <= |ratios|
    ensures PrefixSum(ratios, i) <= PrefixSum(ratios, j)
    decreases j - i
  {
    if i < j {
      PrefixSumMonotone(ratios, i, j - 1);
    }
  }

  /**
   * The inverse-CDF reading of the choice: with non-negative ratios and
   * `k >= 0`, index `i` is chosen exactly when `k` falls in
   * `[PrefixSum(i), PrefixSum(i + 1))`, an interval as wide as `ratios[i]`.
   */
  lemma ChoiceInterval(ratios: seq<real>, k: real, i: nat)
    requires NonNegative(ratios) && k >= 0.0 && i < |ratios|
    ensures IsChoice(ratios, k, i) <==> PrefixSum(ratios, i) <= k < PrefixSum(ratios, i + 1)
  {
    if PrefixSum(ratios, i) <= k < PrefixSum(ratios, i + 1) {
      forall j | 1 <= j <= i ensures PrefixSum(ratios, j) <= k {
        PrefixSumMonotone(ratios, j, i);
      }
    }
  }

  /** df_pac reduced to what the sampler reads: per (folder, prop), its values and ratios in table order. */
  type Table = map<(string, string), seq<(string, real)>>

  /** The rows `df_pac.query("(folder == f) & (prop == p)")` returns; none when the pair is absent. */
  function ValuesOf(table: Table, folder: string, prop: string): seq<(string, real)> {
    if (folder, prop) in table then table[(folder, prop)] else []
  }

  /** `a` is the entry drawn for `prop` of `folder` with uniform number `k`. */
  predicate DrawnEntry(table: Table, folder: string, prop: string, k: real, a: Attr) {
    var vs := ValuesOf(table, folder, prop);
    exists j: nat :: j < |vs| && IsChoice(Seconds(vs), k, j) && a == Attr(TraitValue(folder, prop, vs[j].0), prop)
  }

  /** No cumulative sum of the (folder, prop) ratios exceeds `k`: the draw raises StopIteration. */
  predicate NoDraw(table: Table, folder: string, prop: string, k: real) {
    var rs := Seconds(ValuesOf(table, folder, prop));
    forall j :: 1 <= j <= |rs| ==> PrefixSum(rs, j) <= k
  }

  /**
   * `random_attr()` with the folder already chosen: for each prop in order,
   * the value at the first exceedance of `ks[i]`. `None` where the Python
   * raises StopIteration (no ratio row, or sums never exceeding `k`).
   */
  method RandomAttr(folder: string, props: seq<string>, table: Table, ks: seq<real>) returns (r: Option<seq<Attr>>)
    requires |ks| == |props|
    ensures r.Some? ==> |r.value| == |props| && Canonical(r.value)
    ensures r.Some? ==> forall i :: 0 <= i < |props| ==> DrawnEntry(table, folder, props[i], ks[i], r.value[i])
    ensures r.None? <==> exists i :: 0 <= i < |props| && NoDraw(table, folder, props[i], ks[i])
  {
    var attributes: seq<Attr> := [];
    var i := 0;
    while i < |props|
      invariant 0 <= i <= |props| && |attributes| == i
      invariant Canonical(attributes)
      invariant forall i' :: 0 <= i' < i ==> DrawnEntry(table, folder, props[i'], ks[i'], attributes[i'])
      invariant forall i' :: 0 <= i' < i ==> !NoDraw(table, folder, props[i'], ks[i'])
    {
      var vs := ValuesOf(table, folder, props[i]);
      var first := FirstExceedance(Seconds(vs), ks[i]);
      if first.None? {
        assert NoDraw(table, folder, props[i], ks[i]);
        return None;
      }
      assert PrefixSum(Seconds(vs), first.value + 1) > ks[i];
      attributes := attributes + [Attr(TraitValue(folder, props[i], vs[first.value].0), props[i])];
      i := i + 1;
    }
    return Some(attributes);
  }
}
