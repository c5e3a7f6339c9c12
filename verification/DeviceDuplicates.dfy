/**
 Endpoint ids are not checked for duplicates. Updates name only the id, so they can be about an endpoint that a
 lookup of the id does not find; when exactly a controller can still rely on them.
 */
module DeviceDuplicates {
  import opened Wire
  import opened Responders
  import opened ResponderStore
  import opened DeviceSpec
  import opened DeviceInvariants
  import opened DeviceCoherence
  import opened DeviceAssignment
  import opened DeviceNotifications

  /** A run from `s` that neither changes the endpoint list nor loses the connection. */
  ghost predicate SessionFrom(s: State, ss: seq<State>, es: seq<Event>) {
    IsRun(ss, es) && ss[0] == s && Quiet(ss, es) && NoDisconnect(es)
  }

  /** The numbers sent under `id` in a run follow the number of endpoint `i`, and the last one is its number. */
  ghost predicate GapFree(first: State, last: State, id: u16, i: nat) {
    && i < |first.endpoints| && i < |last.endpoints|
    && var start := first.endpoints[i].number;
       exists total: nat ::
         && NumbersIn(last.sent, id) == NumbersIn(first.sent, id) + Consecutive(start, total)
         && last.endpoints[i].number == Advance(start, total)
  }

  // ----- what shows a gap

  /** More numbers sent than the endpoint advanced by. */
  lemma {:induction false} TooManySent(first: State, last: State, id: u16, i: nat, h: nat, m: nat)
    requires i < |first.endpoints| && i < |last.endpoints| && h < m < h + 3
    requires |NumbersIn(last.sent, id)| == |NumbersIn(first.sent, id)| + m
    requires last.endpoints[i].number == Advance(first.endpoints[i].number, h)
    ensures !GapFree(first, last, id, i)
  {
    var start := first.endpoints[i].number;
    AdvanceAdds(start, h, m - h);
    AdvanceIsInjective(Advance(start, h), m - h);
  }

  lemma {:induction false} OneStepSession(s: State, e: Event)
    requires Legal(s, e) && ListTicks(s, e) == 0 && !e.EvDisconnect?
    ensures SessionFrom(s, [s, Step(s, e).state], [e])
  {
    var ss, es := [s, Step(s, e).state], [e];
    assert es[0] == e && ss[0] == s && ss[1] == Step(s, e).state;
  }

  // ----- an endpoint behind the first with its id

  /** Some call advances the endpoint found by `id`, once or twice, and touches no other. */
  lemma {:induction false} SomeCallAdvances(s: State, id: u16, f: nat) returns (e: Event, m: nat)
    requires s.connected && FindEndpoint(s, id) == Some(f)
    ensures Legal(s, e) && ListTicks(s, e) == 0 && !e.EvDisconnect? && 1 <= m <= 2
    ensures |NumbersIn(Step(s, e).state.sent, id)| == |NumbersIn(s.sent, id)| + m
    ensures |Step(s, e).state.endpoints| == |s.endpoints|
    ensures forall l :: 0 <= l < |s.endpoints| && l != f ==> Step(s, e).state.endpoints[l] == s.endpoints[l]
  {
    var x := s.endpoints[f];
    if r :| r in x.cells && !IsDynamic(r) {
      m := 2;
      e := if x.kind == Virtual then EvRemoveStatic(id, [r.uid]) else EvRemovePhysical(id, [r.uid]);
      RemovalAdvances(s, id, f, r);
    } else {
      m := 1;
      e := if x.kind == Virtual then EvAddStatic(id, [Uid(0, 0)], [Junk(Uid(0, 0), 0)])
           else EvAddPhysical(id, [PhysicalResponder(Uid(0, 0), 0, Uid(0, 0))], 1);
      AdditionAdvances(s, id, f);
    }
  }

  lemma {:induction false} RemovalAdvances(s: State, id: u16, f: nat, r: Responder)
    requires s.connected && FindEndpoint(s, id) == Some(f) && r in s.endpoints[f].cells && !IsDynamic(r)
    ensures var t := RemoveUids(s, id, s.endpoints[f].kind, [r.uid]).state;
            && |NumbersIn(t.sent, id)| == |NumbersIn(s.sent, id)| + 2
            && |t.endpoints| == |s.endpoints|
            && forall l :: 0 <= l < |s.endpoints| && l != f ==> t.endpoints[l] == s.endpoints[l]
  {
    var x := s.endpoints[f];
    assert UidKeys([r.uid]) == {KeyOf(r)};
    var o := RemoveFrom(s, At(f), UidKeys([r.uid]));
    BumpTwiceTells(o.state, f, id, x.number);
  }

  lemma {:induction false} AdditionAdvances(s: State, id: u16, f: nat)
    requires s.connected && FindEndpoint(s, id) == Some(f)
    requires forall r :: r in s.endpoints[f].cells ==> IsDynamic(r)
    ensures var t := if s.endpoints[f].kind == Virtual then AddStatic(s, id, [Uid(0, 0)], [Junk(Uid(0, 0), 0)]).state
                     else AddPhysicalTo(s, id, [PhysicalResponder(Uid(0, 0), 0, Uid(0, 0))], 1).state;
            && |NumbersIn(t.sent, id)| == |NumbersIn(s.sent, id)| + 1
            && |t.endpoints| == |s.endpoints|
            && forall l :: 0 <= l < |s.endpoints| && l != f ==> t.endpoints[l] == s.endpoints[l]
  {
    var x := s.endpoints[f];
    var cell := Responder(NULL_RID, Uid(0, 0), Uid(0, 0), 0);
    assert StaticCells([Uid(0, 0)], [Junk(Uid(0, 0), 0)]) == [cell];
    assert PhysicalCells([PhysicalResponder(Uid(0, 0), 0, Uid(0, 0))], 1) == [cell];
    assert Fresh(x.cells, [cell], 1);
    var o := AddTo(s, At(f), [cell], false);
    BumpTells(o.state, f, id, x.number);
  }

  lemma {:induction false} SecondGoesUnheard(s: State, id: u16, i: nat) returns (e: Event)
    requires s.connected && i < |s.endpoints| && s.endpoints[i].id == id && FindEndpoint(s, id) != Some(i)
    ensures Legal(s, e) && ListTicks(s, e) == 0 && !e.EvDisconnect?
    ensures !GapFree(s, Step(s, e).state, id, i)
  {
    var f := FindEndpoint(s, id).value;
    var m;
    e, m := SomeCallAdvances(s, id, f);
    TooManySent(s, Step(s, e).state, id, i, 0, m);
  }

  // ----- an assignment to another endpoint with the id

  /** One successful mapping among `q`, the rest refused by the broker. */
  function OneOk(rid: Uuid, q: nat): (ms: seq<Mapping>)
    requires q > 0
    ensures |ms| == q
  {
    [Mapping(true, rid, Uid(0, 0))] + seq(q - 1, _ => Mapping(false, NULL_RID, Uid(0, 0)))
  }

  lemma {:induction false} OneOkMatches(e: Endpoint, rid: Uuid, q: nat, n: nat)
    requires 1 <= n <= q
    ensures Matches(e.cells, OneOk(rid, q), n) == if Applies(e, Mapping(true, rid, Uid(0, 0))) then 1 else 0
  {
    if n > 1 {
      OneOkMatches(e, rid, q, n - 1);
      assert !OneOk(rid, q)[n - 1].ok;
    } else {
      assert Matches(e.cells, OneOk(rid, q), 0) == 0;
    }
  }

  lemma {:induction false} OneOkTotals(eps: seq<Endpoint>, rid: Uuid, q: nat, k: nat)
    requires q > 0 && k <= |eps|
    ensures TotalMatches(eps, OneOk(rid, q), k) == Holders(eps, Mapping(true, rid, Uid(0, 0)), k)
  {
    if k > 0 {
      OneOkTotals(eps, rid, q, k - 1);
      OneOkMatches(eps[k - 1], rid, q, q);
    }
  }

  lemma {:induction false} HoldersGrow(eps: seq<Endpoint>, m: Mapping, k: nat, n: nat)
    requires k <= n <= |eps|
    ensures Holders(eps, m, k) <= Holders(eps, m, n)
  {
    if k < n {
      HoldersGrow(eps, m, k, n - 1);
    }
  }

  /** With as many mappings as there are holders up to `j`, the event loop stops right behind `j`. */
  lemma {:induction false} StopsBehind(eps: seq<Endpoint>, rid: Uuid, j: nat)
    requires j < |eps| && eps[j].kind == Virtual && Applies(eps[j], Mapping(true, rid, Uid(0, 0)))
    ensures Holders(eps, Mapping(true, rid, Uid(0, 0)), j + 1) > 0
    ensures Visited(eps, OneOk(rid, Holders(eps, Mapping(true, rid, Uid(0, 0)), j + 1)), 0) == j + 1
  {
    var m := Mapping(true, rid, Uid(0, 0));
    var q := Holders(eps, m, j + 1);
    var ms := OneOk(rid, q);
    OneOkTotals(eps, rid, q, j + 1);
    VisitedNoFurther(eps, ms, 0, j);
    var stop := Visited(eps, ms, 0);
    VisitedStops(eps, ms, 0);
    if stop <= j {
      OneOkTotals(eps, rid, q, stop);
      HoldersGrow(eps, m, stop, j);
    }
  }

  /** The first endpoint with the id, other than `i`, that has the RID. */
  lemma {:induction false} FirstOther(eps: seq<Endpoint>, id: u16, i: nat, rid: Uuid, j: nat) returns (k: nat)
    requires j < |eps| && j != i && eps[j].id == id && Has(eps[j], rid)
    ensures k <= j && k != i && eps[k].id == id && Has(eps[k], rid)
    ensures forall l :: 0 <= l < k && l != i && eps[l].id == id ==> !Has(eps[l], rid)
  {
    if l :| 0 <= l < j && l != i && eps[l].id == id && Has(eps[l], rid) {
      k := FirstOther(eps, id, i, rid, l);
    } else {
      k := j;
    }
  }

  lemma {:induction false} HitMeansHas(eps: seq<Endpoint>, rid: Uuid, q: nat, l: nat)
    requires q > 0 && l < |eps| && Sorted(eps[l].cells) && rid != NULL_RID
    ensures Hits(eps, OneOk(rid, q))[l] <==> Has(eps[l], rid)
  {
    OneOkMatches(eps[l], rid, q, q);
    AppliesMeansHas(eps[l], Mapping(true, rid, Uid(0, 0)));
  }

  /** What is sent under the id: perhaps the number of endpoint `i`, and certainly that of endpoint `k`. */
  lemma {:induction false} BothAreSent(s: State, id: u16, i: nat, k: nat, rid: Uuid, q: nat)
    requires Good(s) && s.connected && q > 0 && rid != NULL_RID
    requires i < k < |s.endpoints| && s.endpoints[i].id == s.endpoints[k].id == id && Has(s.endpoints[k], rid)
    requires forall l :: 0 <= l < k && l != i && s.endpoints[l].id == id ==> !Has(s.endpoints[l], rid)
    requires Visited(s.endpoints, OneOk(rid, q), 0) == k + 1
    ensures var t := Assign(s, OneOk(rid, q));
            var h := if Has(s.endpoints[i], rid) then 1 else 0;
            && |NumbersIn(t.sent, id)| == |NumbersIn(s.sent, id)| + h + 1
            && t.endpoints[i].number == Advance(s.endpoints[i].number, h)
  {
    var eps, ms := s.endpoints, OneOk(rid, q);
    var hits := Hits(eps, ms);
    forall l | 0 <= l <= k ensures hits[l] <==> Has(eps[l], rid) {
      HitMeansHas(eps, rid, q, l);
    }
    UpdatesForTell(eps, hits, k, id, i);
    var u := ResponderChange(eps[k].id, Next(eps[k].number));
    assert UpdatesFor(eps, hits, k + 1) == UpdatesFor(eps, hits, k) + [u];
    NumbersAppend(UpdatesFor(eps, hits, k), u, id);
    NumbersConcat(s.sent, UpdatesFor(eps, hits, k + 1), id);
    assert Advance(eps[i].number, 1) == Next(Advance(eps[i].number, 0));
  }

  lemma {:induction false} AnotherSpeaksUp(s: State, id: u16, i: nat, j: nat, r: Responder) returns (e: Event)
    requires Good(s) && s.connected && FindEndpoint(s, id) == Some(i)
    requires j < |s.endpoints| && j != i && s.endpoints[j].id == id && r in s.endpoints[j].cells && IsDynamic(r)
    ensures Legal(s, e) && ListTicks(s, e) == 0 && !e.EvDisconnect?
    ensures !GapFree(s, Step(s, e).state, id, i)
  {
    var eps, rid := s.endpoints, r.rid;
    var m := Mapping(true, rid, Uid(0, 0));
    assert KeyOf(r) == ByRid(rid);
    var k := FirstOther(eps, id, i, rid, j);
    AppliesMeansHas(eps[k], m);
    assert eps[k].kind == Virtual by {
      var x :| x in eps[k].cells && KeyOf(x) == ByRid(rid);
      assert IsDynamic(x);
    }
    StopsBehind(eps, rid, k);
    var q := Holders(eps, m, k + 1);
    BothAreSent(s, id, i, k, rid, q);
    e := EvAssign(OneOk(rid, q));
    var h := if Has(eps[i], rid) then 1 else 0;
    TooManySent(s, Step(s, e).state, id, i, h, h + 1);
  }

  // ----- the exact condition

  /**
   Through every session from a connected device the updates sent under an id are a gap-free account of an
   endpoint with that id, if and only if a lookup of the id finds this endpoint and no other endpoint with the id
   has a dynamic responder.
   */
  lemma {:induction false} GapFreeExactlyWhenHeard(s: State, id: u16, i: nat)
    requires Good(s) && s.connected && i < |s.endpoints| && s.endpoints[i].id == id
    ensures (forall ss, es :: SessionFrom(s, ss, es) ==> GapFree(s, ss[|es|], id, i)) <==> Heard(s, id, i)
  {
    if Heard(s, id, i) {
      forall ss, es | SessionFrom(s, ss, es) ensures GapFree(s, ss[|es|], id, i) {
        ResponderNotificationsAreGapFree(ss, es, id, i);
      }
    } else {
      var e := NotHeard(s, id, i);
      OneStepSession(s, e);
      var ss, es := [s, Step(s, e).state], [e];
      assert SessionFrom(s, ss, es) && ss[|es|] == Step(s, e).state;
    }
  }

  lemma {:induction false} NotHeard(s: State, id: u16, i: nat) returns (e: Event)
    requires Good(s) && s.connected && i < |s.endpoints| && s.endpoints[i].id == id && !Heard(s, id, i)
    ensures Legal(s, e) && ListTicks(s, e) == 0 && !e.EvDisconnect?
    ensures !GapFree(s, Step(s, e).state, id, i)
  {
    if FindEndpoint(s, id) != Some(i) {
      e := SecondGoesUnheard(s, id, i);
    } else {
      var j :| 0 <= j < |s.endpoints| && j != i && s.endpoints[j].id == id && !NoneDynamic(s.endpoints[j].cells);
      var r :| r in s.endpoints[j].cells && IsDynamic(r);
      e := AnotherSpeaksUp(s, id, i, j, r);
    }
  }

  /**
   Two endpoints with id 5: an assignment to the second is announced as number 8 of endpoint 5, while the endpoint
   that a lookup finds, and that ENDPOINT_RESPONDERS answers for, still has number 0.
   */
  lemma {:induction false} DuplicateIdMisleads(rid: Uuid, manu: u16)
    requires rid != NULL_RID
    ensures var r := Responder(rid, DynamicUidRequest(manu), Uid(0, 0), 0);
            var s := State([Endpoint(5, Virtual, 0, []), Endpoint(5, Virtual, 7, [r])], 0, true, manu, []);
            var t := Assign(s, [Mapping(true, rid, Uid(1, 2))]);
            && FindEndpoint(t, 5) == Some(0) && t.endpoints[0].number == 0
            && NumbersIn(t.sent, 5) == [8]
            && !GapFree(s, t, 5, 0)
  {
    var r := Responder(rid, DynamicUidRequest(manu), Uid(0, 0), 0);
    var x, y := Endpoint(5, Virtual, 0, []), Endpoint(5, Virtual, 7, [r]);
    var s := State([x, y], 0, true, manu, []);
    var ms := [Mapping(true, rid, Uid(1, 2))];
    AppliesMeansHas(x, ms[0]);
    AppliesMeansHas(y, ms[0]);
    assert KeyOf(r) == ByRid(rid) && Has(y, rid);
    assert Matches([], ms, 0) == 0 && MatchesOn(x, ms) == 0;
    assert Matches([r], ms, 0) == 0 && MatchesOn(y, ms) == 1;
    var eps := s.endpoints;
    assert TotalMatches(eps, ms, 1) == 0 && Visited(eps, ms, 2) == 2;
    assert Visited(eps, ms, 1) == 2 && Visited(eps, ms, 0) == 2;
    var t := Assign(s, ms);
    assert UpdatesFor(eps, Hits(eps, ms), 1) == [];
    assert t.sent == [ResponderChange(5, 8)];
    NumbersAppend([], ResponderChange(5, 8), 5);
    assert [] + [ResponderChange(5, 8)] == [ResponderChange(5, 8)];
    TooManySent(s, t, 5, 0, 0, 1);
  }
}
