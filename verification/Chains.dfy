/**
 Totals over a run, and what adds up along it.
 */
module Chains {
  import opened Wire

  function Sum(ns: seq<nat>): (t: nat) {
    if ns == [] then 0 else Sum(ns[..|ns| - 1]) + ns[|ns| - 1]
  }

  lemma {:induction false} ZeroSum(ns: seq<nat>)
    requires Sum(ns) == 0
    ensures forall i :: 0 <= i < |ns| ==> ns[i] == 0
  {
    if ns != [] {
      var n := |ns| - 1;
      ZeroSum(ns[..n]);
      assert forall i :: 0 <= i < n ==> ns[..n][i] == ns[i];
    }
  }

  /** A change number that advances by `ticks[k]` in step `k` advances by their sum. */
  lemma {:induction false} AdvancesAddUp(numbers: seq<u32>, ticks: seq<nat>)
    requires |numbers| == |ticks| + 1
    requires forall k :: 0 <= k < |ticks| ==> numbers[k + 1] == Advance(numbers[k], ticks[k])
    ensures numbers[|ticks|] == Advance(numbers[0], Sum(ticks))
  {
    if ticks != [] {
      var n := |ticks| - 1;
      AdvancesAddUp(numbers[..n + 1], ticks[..n]);
      AdvanceAdds(numbers[0], Sum(ticks[..n]), ticks[n]);
    }
  }
}
