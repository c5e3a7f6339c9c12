/**
 Dynamic UID assignment (section 6.3.1.13 of ANSI E1.33): the loop passes over physical endpoints and
 leaves early; when that loses nothing.
 */
module DeviceAssignment {
  import opened Wire
  import opened Responders
  import opened ResponderStore
  import opened DeviceSpec

  ghost predicate Has(e: Endpoint, rid: Uuid) {
    ByRid(rid) in Keys(e.cells)
  }

  /** No RID is on two endpoints. */
  ghost predicate UniqueRids(eps: seq<Endpoint>) {
    forall i, j, rid :: 0 <= i < j < |eps| && rid != NULL_RID && Has(eps[i], rid) ==> !Has(eps[j], rid)
  }

  ghost predicate AllSorted(eps: seq<Endpoint>) {
    forall i :: 0 <= i < |eps| ==> Sorted(eps[i].cells)
  }

  predicate Applies(e: Endpoint, m: Mapping) {
    m.ok && FindByRid(e.cells, m.rid).Some?
  }

  lemma {:induction false} AppliesMeansHas(e: Endpoint, m: Mapping)
    requires Sorted(e.cells) && m.rid != NULL_RID
    ensures Applies(e, m) <==> m.ok && Has(e, m.rid)
  {
    FindIsLinearScan(e.cells, RidKey(m.rid, Uid(0, 0)));
  }

  // ----- counting matches mapping by mapping instead of endpoint by endpoint

  function MatchesUpTo(eps: seq<Endpoint>, ms: seq<Mapping>, n: nat, k: nat): (t: nat)
    requires n <= |ms| && k <= |eps|
  {
    if k == 0 then 0 else MatchesUpTo(eps, ms, n, k - 1) + Matches(eps[k - 1].cells, ms, n)
  }

  function Holders(eps: seq<Endpoint>, m: Mapping, k: nat): (t: nat)
    requires k <= |eps|
  {
    if k == 0 then 0 else Holders(eps, m, k - 1) + if Applies(eps[k - 1], m) then 1 else 0
  }

  lemma {:induction false} TotalIsUpTo(eps: seq<Endpoint>, ms: seq<Mapping>, k: nat)
    requires k <= |eps|
    ensures TotalMatches(eps, ms, k) == MatchesUpTo(eps, ms, |ms|, k)
  {
    if k > 0 {
      TotalIsUpTo(eps, ms, k - 1);
    }
  }

  lemma {:induction false} ExchangeSums(eps: seq<Endpoint>, ms: seq<Mapping>, n: nat, k: nat)
    requires 0 < n <= |ms| && k <= |eps|
    ensures MatchesUpTo(eps, ms, n, k) == MatchesUpTo(eps, ms, n - 1, k) + Holders(eps, ms[n - 1], k)
  {
    if k > 0 {
      ExchangeSums(eps, ms, n, k - 1);
    }
  }

  lemma {:induction false} NoMappingsNoMatches(eps: seq<Endpoint>, ms: seq<Mapping>, k: nat)
    requires k <= |eps|
    ensures MatchesUpTo(eps, ms, 0, k) == 0
  {
    if k > 0 {
      NoMappingsNoMatches(eps, ms, k - 1);
    }
  }

  /** A mapping applies to at most one endpoint. */
  lemma {:induction false} AtMostOneHolder(eps: seq<Endpoint>, m: Mapping, k: nat)
    requires k <= |eps| && UniqueRids(eps) && AllSorted(eps) && (m.ok ==> m.rid != NULL_RID)
    ensures Holders(eps, m, k) <= 1
    ensures Holders(eps, m, k) == 1 ==> exists i :: 0 <= i < k && Applies(eps[i], m)
    ensures Holders(eps, m, k) == 0 ==> forall i :: 0 <= i < k ==> !Applies(eps[i], m)
  {
    if k > 0 {
      AtMostOneHolder(eps, m, k - 1);
      if Applies(eps[k - 1], m) && Holders(eps, m, k - 1) == 1 {
        var i :| 0 <= i < k - 1 && Applies(eps[i], m);
        AppliesMeansHas(eps[i], m);
        AppliesMeansHas(eps[k - 1], m);
      }
    }
  }

  /** With unique RIDs no more mappings match than there are, and if all match, each has its endpoint. */
  lemma {:induction false} AllMatchedMeansEachMatched(eps: seq<Endpoint>, ms: seq<Mapping>, n: nat, k: nat)
    requires n <= |ms| && k <= |eps| && UniqueRids(eps) && AllSorted(eps) && RealRids(ms)
    ensures MatchesUpTo(eps, ms, n, k) <= n
    ensures MatchesUpTo(eps, ms, n, k) == n ==>
              forall j :: 0 <= j < n ==> exists i :: 0 <= i < k && Applies(eps[i], ms[j])
  {
    if n == 0 {
      NoMappingsNoMatches(eps, ms, k);
    } else {
      AllMatchedMeansEachMatched(eps, ms, n - 1, k);
      ExchangeSums(eps, ms, n, k);
      AtMostOneHolder(eps, ms[n - 1], k);
    }
  }

  lemma {:induction false} NothingLeft(eps: seq<Endpoint>, ms: seq<Mapping>, k: nat, later: nat)
    requires k <= later < |eps| && UniqueRids(eps) && AllSorted(eps) && RealRids(ms)
    requires TotalMatches(eps, ms, k) >= |ms|
    ensures MatchesOn(eps[later], ms) == 0
  {
    TotalIsUpTo(eps, ms, k);
    AllMatchedMeansEachMatched(eps, ms, |ms|, k);
    forall j | 0 <= j < |ms| ensures !Applies(eps[later], ms[j]) {
      var i :| 0 <= i < k && Applies(eps[i], ms[j]);
      AppliesMeansHas(eps[i], ms[j]);
      AppliesMeansHas(eps[later], ms[j]);
    }
    MatchesMeans(eps[later].cells, ms, |ms|);
  }

  // ----- where the loop stops

  lemma {:induction false} VisitedStops(eps: seq<Endpoint>, ms: seq<Mapping>, k: nat)
    requires k <= |eps|
    ensures var stop := Visited(eps, ms, k); stop == |eps| || TotalMatches(eps, ms, stop) >= |ms|
    decreases |eps| - k
  {
    if k < |eps| {
      VisitedStops(eps, ms, k + 1);
    }
  }

  lemma {:induction false} VisitedNoFurther(eps: seq<Endpoint>, ms: seq<Mapping>, k: nat, i: nat)
    requires k <= i < |eps| && eps[i].kind == Virtual && TotalMatches(eps, ms, i + 1) >= |ms|
    ensures Visited(eps, ms, k) <= i + 1
    decreases i - k
  {
    if k < i {
      VisitedNoFurther(eps, ms, k + 1, i);
    }
  }

  lemma {:induction false} UnmarkedAddNothing(eps: seq<Endpoint>, marked: seq<bool>, k: nat, n: nat)
    requires |marked| == |eps| && k <= n <= |eps| && forall i :: k <= i < n ==> !marked[i]
    ensures UpdatesFor(eps, marked, n) == UpdatesFor(eps, marked, k)
  {
    if k < n {
      UnmarkedAddNothing(eps, marked, k, n - 1);
    }
  }

  lemma {:induction false} LeavingEarlyIsExhaustive(s: State, ms: seq<Mapping>)
    requires Good(s) && UniqueRids(s.endpoints) && RealRids(ms)
    ensures Assign(s, ms) == AssignAll(s, ms)
  {
    var eps, stop := s.endpoints, Visited(s.endpoints, ms, 0);
    VisitedStops(eps, ms, 0);
    forall i | stop <= i < |eps| ensures MatchesOn(eps[i], ms) == 0 {
      NothingLeft(eps, ms, stop, i);
    }
    UnmarkedAddNothing(eps, Hits(eps, ms), stop, |eps|);
    assert Assign(s, ms).endpoints == AssignAll(s, ms).endpoints;
  }

  lemma {:induction false} SharedRidShowsUp(s: State, i: nat, j: nat, rid: Uuid)
    requires Good(s) && i < j < |s.endpoints| && rid != NULL_RID
    requires Has(s.endpoints[i], rid) && Has(s.endpoints[j], rid)
    ensures var ms := [Mapping(true, rid, Uid(0, 0))];
            RealRids(ms) && Assign(s, ms) != AssignAll(s, ms)
  {
    var eps := s.endpoints;
    var m := Mapping(true, rid, Uid(0, 0));
    var ms := [m];
    AppliesMeansHas(eps[i], m);
    AppliesMeansHas(eps[j], m);
    assert ms[0] == m;
    assert Matches(eps[i].cells, ms, 1) == 1 && Matches(eps[j].cells, ms, 1) == 1;
    assert TotalMatches(eps, ms, i + 1) >= 1;
    assert eps[i].kind == Virtual by {
      var r :| r in eps[i].cells && KeyOf(r) == ByRid(rid);
      assert IsDynamic(r);
    }
    VisitedNoFurther(eps, ms, 0, i);
    assert Assign(s, ms).endpoints[j].number == eps[j].number;
    assert AssignAll(s, ms).endpoints[j].number == Next(eps[j].number);
  }

  /**
   Leaving early and passing over physical endpoints gives the same state as trying every mapping on
   every endpoint, whatever the broker assigns, exactly when no RID is on two endpoints.
   */
  lemma {:induction false} EarlyExitIsExhaustiveExactlyWhenUnique(s: State)
    requires Good(s)
    ensures (forall ms :: RealRids(ms) ==> Assign(s, ms) == AssignAll(s, ms)) <==> UniqueRids(s.endpoints)
  {
    if UniqueRids(s.endpoints) {
      forall ms | RealRids(ms) ensures Assign(s, ms) == AssignAll(s, ms) {
        LeavingEarlyIsExhaustive(s, ms);
      }
    } else {
      var i, j, rid :| 0 <= i < j < |s.endpoints| && rid != NULL_RID
                       && Has(s.endpoints[i], rid) && Has(s.endpoints[j], rid);
      SharedRidShowsUp(s, i, j, rid);
    }
  }

  /** The event is reported to the application exactly when some successful mapping names a responder. */
  lemma {:induction false} AssignmentIsReportedExactlyWhenMatched(eps: seq<Endpoint>, ms: seq<Mapping>)
    ensures TotalMatches(eps, ms, Visited(eps, ms, 0)) > 0
       <==> exists i, j :: 0 <= i < |eps| && 0 <= j < |ms| && Applies(eps[i], ms[j])
  {
    var stop := Visited(eps, ms, 0);
    VisitedStops(eps, ms, 0);
    SomeMatch(eps, ms, stop);
    SomeMatch(eps, ms, |eps|);
    forall i | 0 <= i < |eps|
      ensures MatchesOn(eps[i], ms) > 0 <==> exists j :: 0 <= j < |ms| && Applies(eps[i], ms[j])
    {
      MatchesMeans(eps[i].cells, ms, |ms|);
      if j :| 0 <= j < |ms| && ms[j].ok && FindByRid(eps[i].cells, ms[j].rid).Some? {
        assert Applies(eps[i], ms[j]);
      }
    }
  }

  lemma {:induction false} SomeMatch(eps: seq<Endpoint>, ms: seq<Mapping>, k: nat)
    requires k <= |eps|
    ensures TotalMatches(eps, ms, k) > 0 <==> exists i :: 0 <= i < k && MatchesOn(eps[i], ms) > 0
  {
    if k > 0 {
      SomeMatch(eps, ms, k - 1);
    }
  }
}
