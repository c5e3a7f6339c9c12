/** Choosing some positions of a sequence, in order. */
module Selections {

  /** `at` lists the marked positions, all of them and in order. */
  ghost predicate Picks(at: seq<nat>, marked: seq<bool>) {
    && (forall k :: 0 <= k < |at| ==> at[k] < |marked| && marked[at[k]])
    && (forall j, k :: 0 <= j < k < |at| ==> at[j] < at[k])
    && (forall i :: 0 <= i < |marked| && marked[i] ==> i in at)
  }

  lemma {:induction false} PicksAppend(at: seq<nat>, marked: seq<bool>, last: bool)
    requires Picks(at, marked)
    ensures Picks(at + if last then [|marked|] else [], marked + [last])
  {
    var at', marked' := at + (if last then [|marked|] else []), marked + [last];
    forall i | 0 <= i < |marked'| && marked'[i] ensures i in at' {
      if i < |marked| {
        assert marked[i] && i in at;
      }
    }
  }
}
