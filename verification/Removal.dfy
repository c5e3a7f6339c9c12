/**
 Removing endpoints from a packed array. Each request shifts the entries behind the removed one
 down by one place, but the array's count is only lowered after the last request; until then
 copies of the last entry pile up behind the live ones and stay visible to the next lookup.
 */
module Removal {
  import opened Wire
  import opened Responders
  import opened Selections

  /** The first entry with the given id. */
  function IndexOfId<T>(s: seq<T>, f: T -> u16, id: u16): (r: Option<nat>)
    ensures r.Some? ==> r.value < |s| && f(s[r.value]) == id && forall i :: 0 <= i < r.value ==> f(s[i]) != id
    ensures r.None? ==> forall i :: 0 <= i < |s| ==> f(s[i]) != id
  {
    if s == [] then None
    else if f(s[0]) == id then Some(0)
    else
      var r := IndexOfId(s[1..], f, id);
      if r.None? then None else Some(r.value + 1)
  }

  /** The first index with the id, however it was found. */
  lemma {:induction false} FirstIndex<T>(s: seq<T>, f: T -> u16, id: u16, r: Option<nat>)
    requires r.None? ==> forall k :: 0 <= k < |s| ==> f(s[k]) != id
    requires r.Some? ==> r.value < |s| && f(s[r.value]) == id && forall k :: 0 <= k < r.value ==> f(s[k]) != id
    ensures IndexOfId(s, f, id) == r
  {}

  function Project<T, U>(s: seq<T>, p: T -> U): (r: seq<U>)
    ensures |r| == |s|
  {
    seq(|s|, i requires 0 <= i < |s| => p(s[i]))
  }

  // ----- what a removal means

  /** The entries left after taking out, for each requested id in turn, the first entry with it. */
  function RemoveFirsts<T>(s: seq<T>, f: T -> u16, ids: seq<u16>): (r: seq<T>)
    decreases |ids|
  {
    if ids == [] then s
    else
      var at := IndexOfId(s, f, ids[0]);
      RemoveFirsts(if at.Some? then DropAt(s, at.value) else s, f, ids[1..])
  }

  /** No id is requested more often than it occurs. */
  ghost predicate Covered<T>(s: seq<T>, f: T -> u16, ids: seq<u16>) {
    multiset(ids) <= multiset(Project(s, f))
  }

  // ----- what the loop does

  /** One `memmove` over the hole at `k`: the last entry stays where it was as well. */
  function Shift<T>(slots: seq<T>, k: nat): (r: seq<T>)
    requires k < |slots|
    ensures |r| == |slots|
  {
    slots[..k] + slots[k + 1..] + [slots[|slots| - 1]]
  }

  datatype Compaction<T> = Compaction(slots: seq<T>, released: seq<T>, ok: bool)

  /** The whole loop; it stops early, not ok, at an id it can no longer find. */
  function Compact<T>(slots: seq<T>, f: T -> u16, ids: seq<u16>): (r: Compaction<T>)
    ensures |r.slots| == |slots|
    ensures r.ok ==> |r.released| == |ids|
    decreases |ids|
  {
    if ids == [] then Compaction(slots, [], true)
    else
      var at := IndexOfId(slots, f, ids[0]);
      if at.None? then Compaction(slots, [], false)
      else
        var rest := Compact(Shift(slots, at.value), f, ids[1..]);
        Compaction(rest.slots, [slots[at.value]] + rest.released, rest.ok)
  }

  // ----- the loop against its meaning

  lemma {:induction false} DropAtMultiset<T>(s: seq<T>, k: nat)
    requires k < |s|
    ensures multiset(s) == multiset(DropAt(s, k)) + multiset{s[k]}
  {
    assert s == s[..k] + [s[k]] + s[k + 1..];
  }

  lemma {:induction false} DropAtIds<T>(s: seq<T>, f: T -> u16, k: nat)
    requires k < |s|
    ensures multiset(Project(s, f)) == multiset(Project(DropAt(s, k), f)) + multiset{f(s[k])}
  {
    assert Project(DropAt(s, k), f) == DropAt(Project(s, f), k);
    DropAtMultiset(Project(s, f), k);
  }

  lemma {:induction false} HeadMultiset<T>(s: seq<T>)
    requires s != []
    ensures multiset(s) == multiset{s[0]} + multiset(s[1..])
  {
    assert s == [s[0]] + s[1..];
  }

  lemma {:induction false} CancelOne<T>(a: multiset<T>, b: multiset<T>, x: T)
    requires multiset{x} + a <= b + multiset{x}
    ensures a <= b
  {
    forall y ensures a[y] <= b[y] {
      assert (multiset{x} + a)[y] <= (b + multiset{x})[y];
    }
  }

  lemma {:induction false} CoveredStep<T>(s: seq<T>, f: T -> u16, ids: seq<u16>)
    requires ids != [] && Covered(s, f, ids)
    ensures IndexOfId(s, f, ids[0]).Some?
    ensures Covered(DropAt(s, IndexOfId(s, f, ids[0]).value), f, ids[1..])
  {
    HeadMultiset(ids);
    assert ids[0] in multiset(ids);
    assert ids[0] in Project(s, f);
    var k := IndexOfId(s, f, ids[0]).value;
    DropAtIds(s, f, k);
    CancelOne(multiset(ids[1..]), multiset(Project(DropAt(s, k), f)), ids[0]);
  }

  /**
   Only the first `live` entries are real, the rest are leftovers. While the requests are covered by
   the live entries the loop never looks past them, and ends with exactly what the removal means.
   */
  lemma {:induction false} CompactIgnoresLeftovers<T>(slots: seq<T>, live: nat, f: T -> u16, ids: seq<u16>)
    requires live <= |slots| && Covered(slots[..live], f, ids)
    ensures |ids| <= live
    ensures var c := Compact(slots, f, ids);
            && c.ok
            && c.slots[..live - |ids|] == RemoveFirsts(slots[..live], f, ids)
            && multiset(slots[..live]) == multiset(c.slots[..live - |ids|]) + multiset(c.released)
    decreases |ids|
  {
    if ids != [] {
      CoveredStep(slots[..live], f, ids);
      var k := IndexOfId(slots[..live], f, ids[0]).value;
      FirstIsInPrefix(slots, live, f, ids[0]);
      var next := Shift(slots, k);
      assert next[..live - 1] == DropAt(slots[..live], k);
      CompactIgnoresLeftovers(next, live - 1, f, ids[1..]);
      DropAtMultiset(slots[..live], k);
      var c := Compact(next, f, ids[1..]);
      assert multiset([slots[k]] + c.released) == multiset{slots[k]} + multiset(c.released);
    }
  }

  lemma {:induction false} FirstIsInPrefix<T>(slots: seq<T>, live: nat, f: T -> u16, id: u16)
    requires live <= |slots| && IndexOfId(slots[..live], f, id).Some?
    ensures IndexOfId(slots, f, id) == IndexOfId(slots[..live], f, id)
  {
    var a := IndexOfId(slots[..live], f, id).value;
    var b := IndexOfId(slots, f, id);
    assert f(slots[a]) == id;
    assert forall i :: 0 <= i < a ==> f(slots[..live][i]) != id;
    assert forall i :: 0 <= i < a ==> slots[..live][i] == slots[i];
  }

  lemma {:induction false} ReleasedAsRequested<T>(slots: seq<T>, f: T -> u16, ids: seq<u16>)
    requires Compact(slots, f, ids).ok
    ensures Project(Compact(slots, f, ids).released, f) == ids
    decreases |ids|
  {
    if ids != [] {
      var k := IndexOfId(slots, f, ids[0]).value;
      ReleasedAsRequested(Shift(slots, k), f, ids[1..]);
      var rest := Compact(Shift(slots, k), f, ids[1..]);
      assert Project([slots[k]] + rest.released, f) == [ids[0]] + Project(rest.released, f);
    }
  }

  lemma {:induction false} SubmultisetIds<T>(a: seq<T>, b: seq<T>, f: T -> u16)
    requires multiset(a) <= multiset(b)
    ensures multiset(Project(a, f)) <= multiset(Project(b, f))
    decreases |a|
  {
    if a != [] {
      HeadMultiset(a);
      assert a[0] in multiset(a);
      assert a[0] in b;
      var k :| 0 <= k < |b| && b[k] == a[0];
      DropAtMultiset(b, k);
      CancelOne(multiset(a[1..]), multiset(DropAt(b, k)), a[0]);
      SubmultisetIds(a[1..], DropAt(b, k), f);
      DropAtIds(b, f, k);
      assert Project(a, f) == [f(a[0])] + Project(a[1..], f);
    }
  }

  /** After the loop: the entries below the lowered count, together with those released, are what was there. */
  ghost predicate Conserves<T>(s: seq<T>, f: T -> u16, ids: seq<u16>) {
    var c := Compact(s, f, ids);
    c.ok && |ids| <= |s| && multiset(c.slots[..|s| - |ids|]) + multiset(c.released) == multiset(s)
  }

  lemma {:induction false} CoveredConserves<T>(s: seq<T>, f: T -> u16, ids: seq<u16>)
    requires Covered(s, f, ids)
    ensures Conserves(s, f, ids)
    ensures |ids| <= |s| && Compact(s, f, ids).slots[..|s| - |ids|] == RemoveFirsts(s, f, ids)
  {
    assert s[..|s|] == s;
    CompactIgnoresLeftovers(s, |s|, f, ids);
  }

  lemma {:induction false} ConservesCovered<T>(s: seq<T>, f: T -> u16, ids: seq<u16>)
    requires Conserves(s, f, ids)
    ensures Covered(s, f, ids)
  {
    ReleasedAsRequested(s, f, ids);
    SubmultisetIds(Compact(s, f, ids).released, s, f);
  }

  /**
   A removal loses no entry and releases none twice exactly when no id is requested more often
   than it occurs, and then it leaves the remaining entries in order.
   */
  lemma {:induction false} RemovalConservesExactlyWhenCovered<T>(s: seq<T>, f: T -> u16, ids: seq<u16>)
    ensures Conserves(s, f, ids) <==> Covered(s, f, ids)
    ensures Covered(s, f, ids) ==>
              |ids| <= |s| && Compact(s, f, ids).slots[..|s| - |ids|] == RemoveFirsts(s, f, ids)
  {
    if Covered(s, f, ids) {
      CoveredConserves(s, f, ids);
    } else if Conserves(s, f, ids) {
      ConservesCovered(s, f, ids);
    }
  }

  /** Asking twice for an id that occurs once: the loop succeeds, releases one entry twice and loses the other. */
  lemma {:induction false} RepeatedRequestLosesAnother()
    ensures var s: seq<u16>, f, ids := [5, 7], (x: u16) => x, [7, 7];
            && (forall id :: id in ids ==> id in Project(s, f))
            && !Covered(s, f, ids)
            && Compact(s, f, ids) == Compaction([5, 7], [7, 7], true)
  {
    var s: seq<u16>, f := [5, 7], (x: u16) => x;
    assert IndexOfId(s[1..], f, 7) == Some(0);
    assert IndexOfId(s, f, 7) == Some(1);
    assert Shift(s, 1) == s;
    var ids: seq<u16> := [7, 7];
    assert ids[1..] == [7];
    assert Compact(s, f, [7]) == Compaction(s, [7], true) by {
      var one: seq<u16> := [7];
      assert one[1..] == [];
    }
    assert Project(s, f) == [5, 7];
    assert multiset(ids)[7] == 2 && multiset(Project(s, f))[7] == 1;
  }

  // ----- the loop one request at a time

  lemma {:induction false} CompactSnoc<T>(s: seq<T>, f: T -> u16, ids: seq<u16>, id: u16)
    requires Compact(s, f, ids).ok
    ensures var c := Compact(s, f, ids);
            var at := IndexOfId(c.slots, f, id);
            Compact(s, f, ids + [id])
              == if at.None? then c.(ok := false)
                 else Compaction(Shift(c.slots, at.value), c.released + [c.slots[at.value]], true)
    decreases |ids|
  {
    if ids == [] {
      assert [id][1..] == [];
    } else {
      var k := IndexOfId(s, f, ids[0]).value;
      assert (ids + [id])[1..] == ids[1..] + [id];
      CompactSnoc(Shift(s, k), f, ids[1..], id);
    }
  }

  lemma {:induction false} CompactStops<T>(s: seq<T>, f: T -> u16, ids: seq<u16>, n: nat)
    requires n <= |ids| && !Compact(s, f, ids[..n]).ok
    ensures Compact(s, f, ids) == Compact(s, f, ids[..n])
    decreases |ids|
  {
    var at := IndexOfId(s, f, ids[0]);
    if at.Some? {
      assert ids[..n][1..] == ids[1..][..n - 1];
      CompactStops(Shift(s, at.value), f, ids[1..], n - 1);
    }
  }

  lemma {:induction false} CompactSelects<T>(s: seq<T>, f: T -> u16, ids: seq<u16>)
    ensures var c := Compact(s, f, ids);
            (forall x :: x in c.slots ==> x in s) && (forall x :: x in c.released ==> x in s)
    decreases |ids|
  {
    if ids != [] {
      var at := IndexOfId(s, f, ids[0]);
      if at.Some? {
        var next := Shift(s, at.value);
        assert forall x :: x in next ==> x in s;
        CompactSelects(next, f, ids[1..]);
        var rest := Compact(next, f, ids[1..]);
        assert forall x :: x in [s[at.value]] + rest.released ==> x == s[at.value] || x in rest.released;
      }
    }
  }

  // ----- entries that are all different

  ghost predicate Distinct<T>(s: seq<T>) {
    forall i, j :: 0 <= i < j < |s| ==> s[i] != s[j]
  }

  lemma {:induction false} DistinctMultiset<T>(s: seq<T>, x: T)
    requires Distinct(s)
    ensures multiset(s)[x] <= 1
  {
    if s != [] {
      HeadMultiset(s);
      DistinctMultiset(s[1..], x);
      if x == s[0] {
        assert x !in s[1..];
      }
    }
  }

  lemma {:induction false} RepeatedMultiset<T>(s: seq<T>, i: nat, j: nat)
    requires i < j < |s| && s[i] == s[j]
    ensures multiset(s)[s[i]] >= 2
  {
    DropAtMultiset(s, j);
    assert s[i] == DropAt(s, j)[i];
    assert s[i] in multiset(DropAt(s, j));
  }

  /** Dividing entries that are all different: each goes to exactly one side, once. */
  lemma {:induction false} DistinctDivides<T>(s: seq<T>, a: seq<T>, b: seq<T>)
    requires Distinct(s) && multiset(s) == multiset(a) + multiset(b)
    ensures Distinct(a) && Distinct(b)
    ensures forall x :: x in s <==> x in a || x in b
    ensures forall x :: x in a ==> x !in b
  {
    forall i, j | 0 <= i < j < |a| ensures a[i] != a[j] {
      if a[i] == a[j] { RepeatedMultiset(a, i, j); DistinctMultiset(s, a[i]); }
    }
    forall i, j | 0 <= i < j < |b| ensures b[i] != b[j] {
      if b[i] == b[j] { RepeatedMultiset(b, i, j); DistinctMultiset(s, b[i]); }
    }
    forall x ensures x in s <==> x in a || x in b {
      assert x in s <==> x in multiset(s);
    }
    forall x | x in a ensures x !in b {
      DistinctMultiset(s, x);
      assert multiset(a)[x] + multiset(b)[x] == multiset(s)[x];
      assert multiset(a)[x] >= 1;
    }
  }

  // ----- entries seen through a projection

  lemma {:induction false} ProjectIndex<T, U>(s: seq<T>, f: T -> u16, p: T -> U, g: U -> u16, id: u16)
    requires forall x :: x in s ==> f(x) == g(p(x))
    ensures IndexOfId(Project(s, p), g, id) == IndexOfId(s, f, id)
  {
    var t := Project(s, p);
    assert forall i :: 0 <= i < |s| ==> s[i] in s && g(t[i]) == f(s[i]);
    var i, j := IndexOfId(s, f, id), IndexOfId(t, g, id);
    if i.Some? { assert g(t[i.value]) == id; }
    if j.Some? { assert f(s[j.value]) == id; }
  }

  /** Removal commutes with a projection that keeps ids. */
  lemma {:induction false} ProjectRemoval<T, U>(s: seq<T>, f: T -> u16, p: T -> U, g: U -> u16, ids: seq<u16>)
    requires forall x :: x in s ==> f(x) == g(p(x))
    ensures RemoveFirsts(Project(s, p), g, ids) == Project(RemoveFirsts(s, f, ids), p)
    decreases |ids|
  {
    if ids != [] {
      ProjectIndex(s, f, p, g, ids[0]);
      var at := IndexOfId(s, f, ids[0]);
      if at.Some? {
        assert Project(DropAt(s, at.value), p) == DropAt(Project(s, p), at.value);
      }
      ProjectRemoval(if at.Some? then DropAt(s, at.value) else s, f, p, g, ids[1..]);
    }
  }

  // ----- which entries a removal leaves

  /** How many of the first `n` entries have the id. */
  function Earlier<T>(s: seq<T>, f: T -> u16, id: u16, n: nat): (k: nat)
    requires n <= |s|
  {
    if n == 0 then 0 else Earlier(s, f, id, n - 1) + if f(s[n - 1]) == id then 1 else 0
  }

  lemma {:induction false} EarlierInPrefix<T>(s: seq<T>, t: seq<T>, f: T -> u16, id: u16, n: nat)
    requires n <= |s| && n <= |t| && s[..n] == t[..n]
    ensures Earlier(s, f, id, n) == Earlier(t, f, id, n)
  {
    if n > 0 {
      assert s[..n][n - 1] == t[..n][n - 1];
      assert s[..n - 1] == s[..n][..n - 1] && t[..n - 1] == t[..n][..n - 1];
      EarlierInPrefix(s, t, f, id, n - 1);
    }
  }

  lemma {:induction false} NoneEarlier<T>(s: seq<T>, f: T -> u16, id: u16, n: nat)
    requires n <= |s| && forall i :: 0 <= i < n ==> f(s[i]) != id
    ensures Earlier(s, f, id, n) == 0
  {
    if n > 0 {
      NoneEarlier(s, f, id, n - 1);
    }
  }

  /** An entry stays when at least as many entries with its id come before it as are asked for. */
  predicate Stays<T>(s: seq<T>, f: T -> u16, m: multiset<u16>, i: nat)
    requires i < |s|
  {
    Earlier(s, f, f(s[i]), i) >= m[f(s[i])]
  }

  function Staying<T>(s: seq<T>, f: T -> u16, m: multiset<u16>): (r: seq<T>) {
    if s == [] then []
    else
      var n := |s| - 1;
      Staying(s[..n], f, m) + if Stays(s, f, m, n) then [s[n]] else []
  }

  lemma {:induction false} StayingAppend<T>(t: seq<T>, x: T, f: T -> u16, m: multiset<u16>)
    ensures Staying(t + [x], f, m) == Staying(t, f, m) + if Earlier(t, f, f(x), |t|) >= m[f(x)] then [x] else []
  {
    var s := t + [x];
    assert s[..|t|] == t && t[..|t|] == t;
    EarlierInPrefix(s, t, f, f(x), |t|);
  }

  lemma {:induction false} AbsentIdIsNoMatter<T>(s: seq<T>, f: T -> u16, m: multiset<u16>, id: u16)
    requires forall i :: 0 <= i < |s| ==> f(s[i]) != id
    ensures Staying(s, f, m + multiset{id}) == Staying(s, f, m)
  {
    if s != [] {
      AbsentIdIsNoMatter(s[..|s| - 1], f, m, id);
    }
  }

  lemma {:induction false} EarlierWithout<T>(s: seq<T>, f: T -> u16, k: nat, id: u16)
    requires k < |s|
    ensures Earlier(DropAt(s, k), f, id, |s| - 1) == Earlier(s, f, id, |s|) - if f(s[k]) == id then 1 else 0
  {
    var n := |s| - 1;
    var d := DropAt(s, k);
    if k == n {
      assert d == s[..n] && d[..n] == s[..n];
      EarlierInPrefix(s, d, f, id, n);
    } else {
      var t := s[..n];
      EarlierWithout(t, f, k, id);
      assert d == DropAt(t, k) + [s[n]];
      assert d[..n - 1] == DropAt(t, k)[..n - 1] && t[..n] == s[..n];
      EarlierInPrefix(d, DropAt(t, k), f, id, n - 1);
      EarlierInPrefix(s, t, f, id, n);
    }
  }

  /** Whether an entry stays does not depend on a taken-out one that was asked for. */
  lemma {:induction false} SameVerdict<T>(t: seq<T>, f: T -> u16, m: multiset<u16>, k: nat, x: u16)
    requires k < |t|
    ensures Earlier(t, f, x, |t|) >= (m + multiset{f(t[k])})[x] <==> Earlier(DropAt(t, k), f, x, |t| - 1) >= m[x]
  {
    EarlierWithout(t, f, k, x);
  }

  lemma {:induction false} LastTakenOut<T>(t: seq<T>, x: T, f: T -> u16, m: multiset<u16>)
    requires forall i :: 0 <= i < |t| ==> f(t[i]) != f(x)
    ensures Staying(t + [x], f, m + multiset{f(x)}) == Staying(t, f, m)
  {
    StayingAppend(t, x, f, m + multiset{f(x)});
    AbsentIdIsNoMatter(t, f, m, f(x));
    NoneEarlier(t, f, f(x), |t|);
  }

  lemma {:induction false} DropAtAppend<T>(s: seq<T>, k: nat)
    requires k < |s|
    ensures var n := |s| - 1;
            s == s[..n] + [s[n]] && DropAt(s, k) == if k == n then s[..n] else DropAt(s[..n], k) + [s[n]]
  {}

  /** Asking for one more of an id takes its first entry out. */
  lemma {:induction false} OneMoreAsked<T>(s: seq<T>, f: T -> u16, m: multiset<u16>, id: u16, k: nat)
    requires IndexOfId(s, f, id) == Some(k)
    ensures Staying(s, f, m + multiset{id}) == Staying(DropAt(s, k), f, m)
  {
    var n := |s| - 1;
    var t, x := s[..n], s[n];
    DropAtAppend(s, k);
    if k == n {
      LastTakenOut(t, x, f, m);
    } else {
      assert t[k] == s[k];
      FirstIndex(t, f, id, Some(k));
      OneMoreAsked(t, f, m, id, k);
      AppendedVerdict(t, x, f, m, id, k);
    }
  }

  lemma {:induction false} AppendedVerdict<T>(t: seq<T>, x: T, f: T -> u16, m: multiset<u16>, id: u16, k: nat)
    requires k < |t| && f(t[k]) == id && Staying(t, f, m + multiset{id}) == Staying(DropAt(t, k), f, m)
    ensures Staying(t + [x], f, m + multiset{id}) == Staying(DropAt(t, k) + [x], f, m)
  {
    StayingAppend(t, x, f, m + multiset{id});
    StayingAppend(DropAt(t, k), x, f, m);
    SameVerdict(t, f, m, k, f(x));
  }

  lemma {:induction false} RemoveFirstsLeavesStaying<T>(s: seq<T>, f: T -> u16, ids: seq<u16>)
    ensures RemoveFirsts(s, f, ids) == Staying(s, f, multiset(ids))
    decreases |ids|
  {
    if ids == [] {
      NothingAsked(s, f);
    } else {
      HeadMultiset(ids);
      var at := IndexOfId(s, f, ids[0]);
      var m := multiset(ids[1..]);
      assert multiset(ids) == m + multiset{ids[0]};
      if at.Some? {
        OneMoreAsked(s, f, m, ids[0], at.value);
        RemoveFirstsLeavesStaying(DropAt(s, at.value), f, ids[1..]);
      } else {
        AbsentIdIsNoMatter(s, f, m, ids[0]);
        RemoveFirstsLeavesStaying(s, f, ids[1..]);
      }
    }
  }

  lemma {:induction false} NothingAsked<T>(s: seq<T>, f: T -> u16)
    ensures Staying(s, f, multiset{}) == s
  {
    if s != [] {
      NothingAsked(s[..|s| - 1], f);
      assert s == s[..|s| - 1] + [s[|s| - 1]];
    }
  }

  function StayMarks<T>(s: seq<T>, f: T -> u16, m: multiset<u16>): (r: seq<bool>)
    ensures |r| == |s|
  {
    seq(|s|, i requires 0 <= i < |s| => Stays(s, f, m, i))
  }

  lemma {:induction false} StayingSelects<T>(s: seq<T>, f: T -> u16, m: multiset<u16>) returns (at: seq<nat>)
    ensures Picks(at, StayMarks(s, f, m)) && |Staying(s, f, m)| == |at|
    ensures forall k :: 0 <= k < |at| ==> Staying(s, f, m)[k] == s[at[k]]
  {
    if s == [] {
      at := [];
    } else {
      var n := |s| - 1;
      var before := StayingSelects(s[..n], f, m);
      var last := Stays(s, f, m, n);
      PicksAppend(before, StayMarks(s[..n], f, m), last);
      forall i | 0 <= i < n ensures StayMarks(s, f, m)[i] == StayMarks(s[..n], f, m)[i] {
        assert s[..n][..i] == s[..i];
        EarlierInPrefix(s, s[..n], f, f(s[i]), i);
      }
      assert StayMarks(s, f, m) == StayMarks(s[..n], f, m) + [last];
      at := before + if last then [n] else [];
    }
  }
}
