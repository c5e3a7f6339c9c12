/**
 What each call of the device API and each broker event answers and does, in terms of what was on the device and
 what was asked for: when it succeeds, why it fails, what it leaves, and what it tells the broker.
 */
module DeviceCalls {
  import opened Wire
  import opened Responders
  import opened ResponderStore
  import opened Removal
  import opened DeviceSpec
  import opened DeviceAnswers
  import opened DeviceBatches

  // ----- endpoints

  /** The list was changed, which advances its number and is announced while connected. */
  ghost predicate ListChanged(s: State, t: State) {
    t == s.(endpoints := t.endpoints, listNumber := Next(s.listNumber),
            sent := s.sent + if s.connected then [ListChange(Next(s.listNumber))] else [])
  }

  /** A configured virtual endpoint that memory suffices for and that lists no responder twice. */
  ghost predicate Fits(config: VirtualConfig, mem: seq<Junk>) {
    |config.rids| + |config.uids| <= |mem| && Distinct(config.rids) && Distinct(config.uids)
  }

  ghost predicate PhysicalFits(config: PhysicalConfig, grant: nat) {
    var ps := config.responders;
    |ps| <= grant && forall i, j :: 0 <= i < j < |ps| ==> ps[i].uid != ps[j].uid
  }

  lemma {:induction false} AllFitMeans(manu: u16, configs: seq<VirtualConfig>, mems: seq<seq<Junk>>)
    requires |mems| == |configs| && forall c :: c in configs ==> NULL_RID !in c.rids
    ensures AllVirtualsFit(manu, configs, mems) <==> forall i :: 0 <= i < |configs| ==> Fits(configs[i], mems[i])
  {
    forall i | 0 <= i < |configs|
      ensures VirtualCells(manu, configs[i], mems[i]).status == Ok <==> Fits(configs[i], mems[i])
    {
      assert configs[i] in configs;
      VirtualFitsExactlyWhen(manu, configs[i], mems[i]);
    }
  }

  lemma {:induction false} AllPhysicalsFitMeans(configs: seq<PhysicalConfig>, grants: seq<nat>)
    requires |grants| == |configs|
    ensures AllPhysicalsFit(configs, grants) <==> forall i :: 0 <= i < |configs| ==> PhysicalFits(configs[i], grants[i])
  {
    forall i | 0 <= i < |configs|
      ensures PhysicalBatch(configs[i], grants[i]).status == Ok <==> PhysicalFits(configs[i], grants[i])
    {
      PhysicalFitsExactlyWhen(configs[i], grants[i]);
    }
  }

  lemma {:induction false} AddVirtualsStatus(s: State, configs: seq<VirtualConfig>, room: bool, mems: seq<seq<Junk>>)
    requires |mems| == |configs| && forall c :: c in configs ==> NULL_RID !in c.rids
    ensures var fit := forall i :: 0 <= i < |configs| ==> Fits(configs[i], mems[i]);
            AddVirtuals(s, configs, room, mems).status
              == if configs == [] || exists c :: c in configs && !(1 <= c.id <= 63999) then Invalid
                 else if room && fit then Ok else NoMem
  {
    AllFitMeans(s.manu, configs, mems);
    VirtualsStatus(s, configs, room, mems);
    OutOfRangeMeans(configs);
  }

  lemma {:induction false} OutOfRangeMeans(configs: seq<VirtualConfig>)
    ensures (exists c :: c in configs && !ValidId(c.id)) <==> exists c :: c in configs && !(1 <= c.id <= 63999)
  {}

  lemma {:induction false} VirtualsStatus(s: State, configs: seq<VirtualConfig>, room: bool, mems: seq<seq<Junk>>)
    requires |mems| == |configs|
    ensures AddVirtuals(s, configs, room, mems).status
         == if configs == [] || exists c :: c in configs && !ValidId(c.id) then Invalid
            else if room && AllVirtualsFit(s.manu, configs, mems) then Ok else NoMem
  {}

  lemma {:induction false} AddPhysicalsStatus(s: State, configs: seq<PhysicalConfig>, room: bool, grants: seq<nat>)
    requires |grants| == |configs|
    ensures var fit := forall i :: 0 <= i < |configs| ==> PhysicalFits(configs[i], grants[i]);
            AddPhysicals(s, configs, room, grants).status
              == if configs == [] || exists c :: c in configs && !(1 <= c.id <= 63999) then Invalid
                 else if room && fit then Ok else NoMem
  {
    AllPhysicalsFitMeans(configs, grants);
  }

  lemma {:induction false} AddVirtualsChangesList(s: State, configs: seq<VirtualConfig>, room: bool, mems: seq<seq<Junk>>)
    requires |mems| == |configs| && AddVirtuals(s, configs, room, mems).status == Ok
    ensures ListChanged(s, AddVirtuals(s, configs, room, mems).state)
  {
    assert s.sent + [] == s.sent;
  }

  lemma {:induction false} AddPhysicalsChangesList(s: State, configs: seq<PhysicalConfig>, room: bool, grants: seq<nat>)
    requires |grants| == |configs| && AddPhysicals(s, configs, room, grants).status == Ok
    ensures ListChanged(s, AddPhysicals(s, configs, room, grants).state)
  {
    assert s.sent + [] == s.sent;
  }

  /** Adding virtual endpoints: exactly when it succeeds, which error it gives otherwise, and what it leaves. */
  lemma {:induction false} AddVirtualsAnswer(s: State, configs: seq<VirtualConfig>, room: bool, mems: seq<seq<Junk>>)
    requires |mems| == |configs| && forall c :: c in configs ==> NULL_RID !in c.rids
    ensures Legal(s, EvAddVirtuals(configs, room, mems))
    ensures var o := Step(s, EvAddVirtuals(configs, room, mems));
            var fit := forall i :: 0 <= i < |configs| ==> Fits(configs[i], mems[i]);
            && (o.status == if configs == [] || exists c :: c in configs && !(1 <= c.id <= 63999) then Invalid
                            else if room && fit then Ok else NoMem)
            && (o.status == Ok ==> ListChanged(s, o.state) && VirtualsFollow(s.endpoints, o.state.endpoints, configs))
            && (o.status != Ok ==> o.state == s)
  {
    assert forall i :: 0 <= i < |configs| ==> configs[i] in configs;
    AddVirtualsStatus(s, configs, room, mems);
    AddVirtualsIsAllOrNothing(s, configs, room, mems);
    if AddVirtuals(s, configs, room, mems).status == Ok {
      AddVirtualsChangesList(s, configs, room, mems);
    }
  }

  /** Adding physical endpoints, likewise. */
  lemma {:induction false} AddPhysicalsAnswer(s: State, configs: seq<PhysicalConfig>, room: bool, grants: seq<nat>)
    requires |grants| == |configs|
    ensures var o := Step(s, EvAddPhysicals(configs, room, grants));
            var fit := forall i :: 0 <= i < |configs| ==> PhysicalFits(configs[i], grants[i]);
            && (o.status == if configs == [] || exists c :: c in configs && !(1 <= c.id <= 63999) then Invalid
                            else if room && fit then Ok else NoMem)
            && (o.status == Ok ==> ListChanged(s, o.state) && PhysicalsFollow(s.endpoints, o.state.endpoints, configs))
            && (o.status != Ok ==> o.state == s)
  {
    AddPhysicalsStatus(s, configs, room, grants);
    AddPhysicalsIsAllOrNothing(s, configs, room, grants);
    if AddPhysicals(s, configs, room, grants).status == Ok {
      AddPhysicalsChangesList(s, configs, room, grants);
    }
  }

  /** A new device: the configured endpoints, physical ones first, numbers at zero, unconnected, nothing sent. */
  lemma {:induction false} NewDeviceAnswer(
    manu: u16, pconfigs: seq<PhysicalConfig>, grants: seq<nat>, vconfigs: seq<VirtualConfig>, mems: seq<seq<Junk>>)
    requires |grants| == |pconfigs| && |mems| == |vconfigs| && forall c :: c in vconfigs ==> NULL_RID !in c.rids
    requires AllPhysicalsFit(pconfigs, grants) && AllVirtualsFit(manu, vconfigs, mems)
    requires (forall c :: c in pconfigs ==> ValidId(c.id)) && (forall c :: c in vconfigs ==> ValidId(c.id))
    ensures var s := NewDevice(manu, pconfigs, grants, vconfigs, mems);
            && s == State(s.endpoints, 0, false, manu, []) && |s.endpoints| == |pconfigs| + |vconfigs|
            && PhysicalsFollow([], s.endpoints[..|pconfigs|], pconfigs)
            && VirtualsFollow(s.endpoints[..|pconfigs|], s.endpoints, vconfigs)
  {
    var ps, vs := NewPhysicals(pconfigs, grants), NewVirtuals(manu, vconfigs, mems);
    NewPhysicalsAsConfigured(pconfigs, grants);
    NewVirtualsAsConfigured(manu, vconfigs, mems);
    AppendedPhysicalsFollow([], ps, pconfigs);
    AppendedVirtualsFollow(ps, vs, vconfigs);
    assert [] + ps == ps && (ps + vs)[..|ps|] == ps;
  }

  lemma {:induction false} IdsLeft<T>(s: seq<T>, f: T -> u16, ids: seq<u16>)
    requires Covered(s, f, ids)
    ensures multiset(Project(RemoveFirsts(s, f, ids), f)) + multiset(ids) == multiset(Project(s, f))
    decreases |ids|
  {
    if ids != [] {
      CoveredStep(s, f, ids);
      var k := IndexOfId(s, f, ids[0]).value;
      IdsLeft(DropAt(s, k), f, ids[1..]);
      DropAtIds(s, f, k);
      HeadMultiset(ids);
    }
  }

  lemma {:induction false} PresentMeans(s: State, ids: seq<u16>)
    ensures AllPresent(s, ids) <==> forall id :: id in ids ==> exists e :: e in s.endpoints && e.id == id
  {
    forall id ensures FindEndpoint(s, id).Some? <==> exists e :: e in s.endpoints && e.id == id {
      MissingMeansNone(s, id);
    }
    if AllPresent(s, ids) {
      forall id | id in ids ensures exists e :: e in s.endpoints && e.id == id {
        var k :| 0 <= k < |ids| && ids[k] == id;
        assert FindEndpoint(s, ids[k]).Some?;
      }
    }
    assert forall k :: 0 <= k < |ids| ==> ids[k] in ids;
  }

  /** The endpoints left are those at the positions `at` of the old list, which leave out the first of each id asked for. */
  ghost predicate Leaves(was: seq<Endpoint>, left: seq<Endpoint>, ids: seq<u16>, at: seq<nat>) {
    && |left| == |at| == |was| - |ids|
    && (forall j, k :: 0 <= j < k < |at| ==> at[j] < at[k])
    && (forall k :: 0 <= k < |at| ==> at[k] < |was| && left[k] == was[at[k]])
    && (forall i :: 0 <= i < |was| ==>
          (i in at <==> Earlier(was, EndpointId, was[i].id, i) >= multiset(ids)[was[i].id]))
    && multiset(Project(left, EndpointId)) + multiset(ids) == multiset(Project(was, EndpointId))
  }

  lemma {:induction false} RemoveFirstsLeaves(es: seq<Endpoint>, ids: seq<u16>) returns (at: seq<nat>)
    requires Covered(es, EndpointId, ids)
    ensures Leaves(es, RemoveFirsts(es, EndpointId, ids), ids, at)
  {
    RemoveFirstsLeavesStaying(es, EndpointId, ids);
    at := StayingSelects(es, EndpointId, multiset(ids));
    CoveredConserves(es, EndpointId, ids);
    IdsLeft(es, EndpointId, ids);
    forall i | 0 <= i < |es|
      ensures i in at <==> Earlier(es, EndpointId, es[i].id, i) >= multiset(ids)[es[i].id]
    {
      assert StayMarks(es, EndpointId, multiset(ids))[i] == Stays(es, EndpointId, multiset(ids), i);
    }
  }

  lemma {:induction false} RemoveChangesList(s: State, ids: seq<u16>)
    requires ids != [] && AllPresent(s, ids)
    ensures ListChanged(s, RemoveEndpoints(s, ids).state)
  {
    assert s.sent + [] == s.sent;
  }

  lemma {:induction false} RemovalShrinks(s: State, ids: seq<u16>)
    requires ids != [] && AllPresent(s, ids) && Covered(s.endpoints, EndpointId, ids)
    ensures |RemoveEndpoints(s, ids).state.endpoints| == |s.endpoints| - |ids|
  {
    CoveredConserves(s.endpoints, EndpointId, ids);
  }

  /** Removing one endpoint takes out the first with the id and closes the gap. */
  lemma {:induction false} RemoveOneAnswer(s: State, id: u16, i: nat)
    requires FindEndpoint(s, id) == Some(i)
    ensures Legal(s, EvRemoveEndpoints([id]))
    ensures var t := Step(s, EvRemoveEndpoints([id])).state;
            t.endpoints == s.endpoints[..i] + s.endpoints[i + 1..] && ListChanged(s, t)
  {
    assert Project(s.endpoints, EndpointId)[i] == id;
    assert multiset([id]) <= multiset(Project(s.endpoints, EndpointId));
    assert AllPresent(s, [id]);
    var ids := [id];
    assert ids[1..] == [];
    assert RemoveFirsts(s.endpoints, EndpointId, ids) == DropAt(s.endpoints, i);
    RemoveChangesList(s, [id]);
  }

  lemma {:induction false} RemoveLeaves(s: State, ids: seq<u16>) returns (at: seq<nat>)
    requires ids != [] && AllPresent(s, ids) && Covered(s.endpoints, EndpointId, ids)
    ensures RemoveEndpoints(s, ids).status == Ok
    ensures Leaves(s.endpoints, RemoveEndpoints(s, ids).state.endpoints, ids, at)
  {
    at := RemoveFirstsLeaves(s.endpoints, ids);
  }

  /**
   Removing endpoints: it succeeds exactly when every id is there, and then takes out, of each id, the first endpoints
   with it, as many as were asked for, and leaves the others in order; otherwise nothing happens.
   */
  lemma {:induction false} RemoveAnswer(s: State, ids: seq<u16>) returns (at: seq<nat>)
    requires Legal(s, EvRemoveEndpoints(ids))
    ensures var o := Step(s, EvRemoveEndpoints(ids));
            && (o.status == Ok <==> ids != [] && forall id :: id in ids ==> exists e :: e in s.endpoints && e.id == id)
            && (o.status == Ok ==> ListChanged(s, o.state) && Leaves(s.endpoints, o.state.endpoints, ids, at))
            && (o.status != Ok ==> o == Outcome(if ids == [] then Invalid else NotFound, s))
  {
    PresentMeans(s, ids);
    at := [];
    if ids != [] && AllPresent(s, ids) {
      at := RemoveLeaves(s, ids);
      RemoveChangesList(s, ids);
    }
  }

  // ----- responders

  /** Only endpoint `i` changed: its contents, and its number by as many steps as are announced while connected. */
  ghost predicate Changed(s: State, t: State, i: nat, steps: nat) {
    && i < |s.endpoints| == |t.endpoints|
    && t.endpoints[i] == s.endpoints[i].(cells := t.endpoints[i].cells, number := Advance(s.endpoints[i].number, steps))
    && t == s.(endpoints := s.endpoints[i := t.endpoints[i]], sent := t.sent)
    && t.sent == s.sent + if s.connected then Announced(s.endpoints[i], steps) else []
  }

  function Announced(e: Endpoint, steps: nat): (r: seq<Update>) {
    if steps == 0 then [] else Announced(e, steps - 1) + [ResponderChange(e.id, Advance(e.number, steps))]
  }

  /** Exactly the new responders were put in. */
  ghost predicate PutIn(was: seq<Responder>, now: seq<Responder>, news: seq<Responder>) {
    Elements(now) == Elements(was) + Elements(news) && |now| == |was| + |news| && (Sorted(was) ==> Sorted(now))
  }

  lemma {:induction false} BatchPutsIn(cells: seq<Responder>, news: seq<Responder>)
    requires Fresh(cells, news, |news|)
    ensures PutIn(cells, InsertFirst(cells, news, |news|), news)
  {
    InsertFirstCounts(cells, news, |news|);
    var now := InsertFirst(cells, news, |news|);
    forall r ensures r in Elements(now) <==> r in Elements(cells) + Elements(news) {
      assert r in now <==> r in cells || exists i :: 0 <= i < |news| && news[i] == r;
    }
    if Sorted(cells) {
      InsertFirstKeepsSorted(cells, news, |news|);
    }
  }

  /** Where a call for endpoint `id` fails before anything is tried. */
  ghost function NoTarget(s: State, id: u16, kind: Kind, empty: bool): (r: Option<Status>) {
    if empty then Some(Invalid)
    else if forall e :: e in s.endpoints ==> e.id != id then Some(NotFound)
    else if exists i :: 0 <= i < |s.endpoints| && FindEndpoint(s, id) == Some(i) && s.endpoints[i].kind == kind then None
    else Some(Invalid)
  }

  lemma {:induction false} TargetMeans(s: State, id: u16, kind: Kind, empty: bool)
    ensures NoTarget(s, id, kind, empty).Some? ==> Locate(s, id, kind, empty) == Bad(NoTarget(s, id, kind, empty).value)
    ensures NoTarget(s, id, kind, empty).None? ==>
              FindEndpoint(s, id).Some? && Locate(s, id, kind, empty) == At(FindEndpoint(s, id).value)
  {
    MissingMeansNone(s, id);
  }

  /** A UID is taken on the endpoint or listed before. */
  ghost predicate UidTaken(cells: seq<Responder>, uids: seq<Uid>, k: nat)
    requires k < |uids|
  {
    Listed(cells, uids[k]) || exists j :: 0 <= j < k && uids[j] == uids[k]
  }

  ghost predicate RidTaken(cells: seq<Responder>, rids: seq<Uuid>, k: nat)
    requires k < |rids|
  {
    Hosted(cells, rids[k]) || exists j :: 0 <= j < k && rids[j] == rids[k]
  }

  lemma {:induction false} FreshMeansNoUidTaken(cells: seq<Responder>, news: seq<Responder>, uids: seq<Uid>, n: nat)
    requires n <= |uids| && |news| == n
    requires forall k :: 0 <= k < n ==> news[k].rid == NULL_RID && news[k].uid == uids[k]
    ensures Fresh(cells, news, n) <==> forall k :: 0 <= k < n ==> !UidTaken(cells, uids, k)
  {
    forall k | 0 <= k < n ensures KeyOf(news[k]) in Keys(cells) <==> Listed(cells, uids[k]) {
      assert KeyOf(news[k]) == ByUid(uids[k]);
    }
    if Fresh(cells, news, n) {
      forall k | 0 <= k < n ensures !UidTaken(cells, uids, k) {
        forall j | 0 <= j < k ensures uids[j] != uids[k] {
          assert KeyOf(news[j]) != KeyOf(news[k]);
        }
      }
    } else if forall k :: 0 <= k < n ==> !UidTaken(cells, uids, k) {
      forall j, k | 0 <= j < k < n ensures KeyOf(news[j]) != KeyOf(news[k]) {
        assert !UidTaken(cells, uids, k);
      }
      forall k | 0 <= k < n ensures KeyOf(news[k]) !in Keys(cells) {
        assert !UidTaken(cells, uids, k);
      }
    }
  }

  lemma {:induction false} FreshMeansNoRidTaken(cells: seq<Responder>, news: seq<Responder>, rids: seq<Uuid>, n: nat)
    requires n <= |rids| && |news| == n && NULL_RID !in rids
    requires forall k :: 0 <= k < n ==> news[k].rid == rids[k]
    ensures Fresh(cells, news, n) <==> forall k :: 0 <= k < n ==> !RidTaken(cells, rids, k)
  {
    forall k | 0 <= k < n ensures KeyOf(news[k]) == ByRid(rids[k]) {
      assert rids[k] in rids;
    }
    forall k | 0 <= k < n ensures KeyOf(news[k]) in Keys(cells) <==> Hosted(cells, rids[k]) {}
    if Fresh(cells, news, n) {
      forall k | 0 <= k < n ensures !RidTaken(cells, rids, k) {
        forall j | 0 <= j < k ensures rids[j] != rids[k] {
          assert KeyOf(news[j]) != KeyOf(news[k]);
        }
      }
    } else if forall k :: 0 <= k < n ==> !RidTaken(cells, rids, k) {
      forall j, k | 0 <= j < k < n ensures KeyOf(news[j]) != KeyOf(news[k]) {
        assert !RidTaken(cells, rids, k);
      }
      forall k | 0 <= k < n ensures KeyOf(news[k]) !in Keys(cells) {
        assert !RidTaken(cells, rids, k);
      }
    }
  }

  lemma {:induction false} AnnouncedOneAndTwo(e: Endpoint)
    ensures Announced(e, 1) == [ResponderChange(e.id, Next(e.number))]
    ensures Announced(e, 2) == [ResponderChange(e.id, Next(e.number)), ResponderChange(e.id, Next(Next(e.number)))]
    ensures Advance(e.number, 1) == Next(e.number) && Advance(e.number, 2) == Next(Next(e.number))
  {
    assert Advance(e.number, 1) == Next(Advance(e.number, 0));
    assert Advance(e.number, 2) == Next(Advance(e.number, 1));
    assert Announced(e, 1) == Announced(e, 0) + [ResponderChange(e.id, Advance(e.number, 1))];
    assert Announced(e, 2) == Announced(e, 1) + [ResponderChange(e.id, Advance(e.number, 2))];
  }

  /** New contents and one advance. */
  lemma {:induction false} OneStepChange(s: State, i: nat, cells: seq<Responder>)
    requires i < |s.endpoints|
    ensures Changed(s, Bump(SetCells(s, i, cells), i), i, 1)
    ensures Bump(SetCells(s, i, cells), i).endpoints[i].cells == cells
  {
    AnnouncedOneAndTwo(s.endpoints[i]);
    assert s.sent + [] == s.sent;
  }

  /** New contents and two advances. */
  lemma {:induction false} TwoStepChange(s: State, i: nat, cells: seq<Responder>)
    requires i < |s.endpoints|
    ensures Changed(s, Bump(Bump(SetCells(s, i, cells), i), i), i, 2)
    ensures Bump(Bump(SetCells(s, i, cells), i), i).endpoints[i].cells == cells
  {
    var e := s.endpoints[i];
    AnnouncedOneAndTwo(e);
    var t := Bump(Bump(SetCells(s, i, cells), i), i);
    assert s.sent + [] == s.sent;
    assert s.connected ==>
      t.sent == s.sent + [ResponderChange(e.id, Next(e.number))] + [ResponderChange(e.id, Next(Next(e.number)))];
    assert t.endpoints == s.endpoints[i := t.endpoints[i]];
  }

  lemma {:induction false} AddStaticStatus(s: State, id: u16, uids: seq<Uid>, mem: seq<Junk>, i: nat)
    requires Locate(s, id, Virtual, uids == []) == At(i)
    ensures var cells, n := s.endpoints[i].cells, Min(|uids|, |mem|);
            AddStatic(s, id, uids, mem).status
              == if exists k :: 0 <= k < n && UidTaken(cells, uids, k) then Exists
                 else if |mem| < |uids| then NoMem else Ok
  {
    var cells, news := s.endpoints[i].cells, StaticCells(uids, mem);
    FreshMeansNoUidTaken(cells, news, uids, |news|);
  }

  lemma {:induction false} AddStaticPuts(s: State, id: u16, uids: seq<Uid>, mem: seq<Junk>, i: nat)
    requires Locate(s, id, Virtual, uids == []) == At(i) && AddStatic(s, id, uids, mem).status == Ok
    ensures |uids| <= |mem|
    ensures var t := AddStatic(s, id, uids, mem).state;
            && Changed(s, t, i, 1)
            && PutIn(s.endpoints[i].cells, t.endpoints[i].cells,
                     seq(|uids|, k requires 0 <= k < |uids| <= |mem| =>
                       Responder(NULL_RID, uids[k], mem[k].binding, mem[k].control)))
  {
    var cells, news := s.endpoints[i].cells, StaticCells(uids, mem);
    BatchPutsIn(cells, news);
    OneStepChange(s, i, InsertFirst(cells, news, |news|));
    assert news == seq(|uids|, k requires 0 <= k < |uids| <= |mem| =>
                         Responder(NULL_RID, uids[k], mem[k].binding, mem[k].control));
  }

  /**
   Adding static responders to a virtual endpoint: why it fails, and that it otherwise puts exactly these on the
   endpoint, advances its number once and announces that while connected.
   */
  lemma {:induction false} AddStaticAnswer(s: State, id: u16, uids: seq<Uid>, mem: seq<Junk>)
    ensures var o, none := Step(s, EvAddStatic(id, uids, mem)), NoTarget(s, id, Virtual, uids == []);
            if none.Some? then o == Outcome(none.value, s)
            else
              && FindEndpoint(s, id).Some?
              && var i := FindEndpoint(s, id).value;
              && (o.status == if exists k :: 0 <= k < Min(|uids|, |mem|) && UidTaken(s.endpoints[i].cells, uids, k) then Exists
                              else if |mem| < |uids| then NoMem else Ok)
              && (o.status != Ok ==> o.state == s)
              && (o.status == Ok ==>
                    && Changed(s, o.state, i, 1) && |uids| <= |mem|
                    && PutIn(s.endpoints[i].cells, o.state.endpoints[i].cells,
                             seq(|uids|, k requires 0 <= k < |uids| <= |mem| =>
                               Responder(NULL_RID, uids[k], mem[k].binding, mem[k].control))))
  {
    TargetMeans(s, id, Virtual, uids == []);
    if NoTarget(s, id, Virtual, uids == []).None? {
      var i := FindEndpoint(s, id).value;
      AddStaticStatus(s, id, uids, mem, i);
      if AddStatic(s, id, uids, mem).status == Ok {
        AddStaticPuts(s, id, uids, mem, i);
      }
    }
  }

  lemma {:induction false} AddPhysicalStatus(s: State, id: u16, ps: seq<PhysicalResponder>, grant: nat, i: nat)
    requires Locate(s, id, Physical, ps == []) == At(i)
    ensures var cells, uids := s.endpoints[i].cells, Project(ps, (p: PhysicalResponder) => p.uid);
            AddPhysicalTo(s, id, ps, grant).status
              == if exists k :: 0 <= k < Min(|ps|, grant) && UidTaken(cells, uids, k) then Exists
                 else if grant < |ps| then NoMem else Ok
  {
    var cells, news := s.endpoints[i].cells, PhysicalCells(ps, grant);
    FreshMeansNoUidTaken(cells, news, Project(ps, (p: PhysicalResponder) => p.uid), |news|);
  }

  lemma {:induction false} AddPhysicalPuts(s: State, id: u16, ps: seq<PhysicalResponder>, grant: nat, i: nat)
    requires Locate(s, id, Physical, ps == []) == At(i) && AddPhysicalTo(s, id, ps, grant).status == Ok
    ensures var t := AddPhysicalTo(s, id, ps, grant).state;
            && Changed(s, t, i, 1)
            && PutIn(s.endpoints[i].cells, t.endpoints[i].cells,
                     seq(|ps|, k requires 0 <= k < |ps| => Responder(NULL_RID, ps[k].uid, ps[k].binding, ps[k].control)))
  {
    var cells, news := s.endpoints[i].cells, PhysicalCells(ps, grant);
    BatchPutsIn(cells, news);
    OneStepChange(s, i, InsertFirst(cells, news, |news|));
    assert news == seq(|ps|, k requires 0 <= k < |ps| => Responder(NULL_RID, ps[k].uid, ps[k].binding, ps[k].control));
  }

  /** Adding physical responders to a physical endpoint, likewise, with their binding data. */
  lemma {:induction false} AddPhysicalAnswer(s: State, id: u16, ps: seq<PhysicalResponder>, grant: nat)
    ensures var o, none := Step(s, EvAddPhysical(id, ps, grant)), NoTarget(s, id, Physical, ps == []);
            var uids := Project(ps, (p: PhysicalResponder) => p.uid);
            if none.Some? then o == Outcome(none.value, s)
            else
              && FindEndpoint(s, id).Some?
              && var i := FindEndpoint(s, id).value;
              && (o.status == if exists k :: 0 <= k < Min(|ps|, grant) && UidTaken(s.endpoints[i].cells, uids, k) then Exists
                              else if grant < |ps| then NoMem else Ok)
              && (o.status != Ok ==> o.state == s)
              && (o.status == Ok ==>
                    && Changed(s, o.state, i, 1)
                    && PutIn(s.endpoints[i].cells, o.state.endpoints[i].cells,
                             seq(|ps|, k requires 0 <= k < |ps| =>
                               Responder(NULL_RID, ps[k].uid, ps[k].binding, ps[k].control))))
  {
    TargetMeans(s, id, Physical, ps == []);
    if NoTarget(s, id, Physical, ps == []).None? {
      var i := FindEndpoint(s, id).value;
      AddPhysicalStatus(s, id, ps, grant, i);
      if AddPhysicalTo(s, id, ps, grant).status == Ok {
        AddPhysicalPuts(s, id, ps, grant, i);
      }
    }
  }

  /** Endpoint `i` got new contents and the broker was asked for UIDs for these RIDs; no number moved. */
  ghost predicate Requested(s: State, t: State, i: nat, rids: seq<Uuid>) {
    && i < |s.endpoints| == |t.endpoints|
    && t == s.(endpoints := s.endpoints[i := s.endpoints[i].(cells := t.endpoints[i].cells)],
               sent := s.sent + if s.connected then [UidRequest(rids)] else [])
  }

  ghost predicate SomeRidTaken(cells: seq<Responder>, rids: seq<Uuid>, n: nat)
    requires n <= |rids|
  {
    exists k :: 0 <= k < n && RidTaken(cells, rids, k)
  }

  lemma {:induction false} AddDynamicFails(s: State, id: u16, rids: seq<Uuid>, mem: seq<Junk>, request: Status, i: nat)
    requires NULL_RID !in rids && Locate(s, id, Virtual, rids == []) == At(i)
    requires SomeRidTaken(s.endpoints[i].cells, rids, Min(|rids|, |mem|)) || |mem| < |rids|
    ensures AddDynamic(s, id, rids, mem, request)
         == Outcome(if SomeRidTaken(s.endpoints[i].cells, rids, Min(|rids|, |mem|)) then Exists else NoMem, s)
  {
    var news := DynamicCells(s.manu, rids, mem);
    FreshMeansNoRidTaken(s.endpoints[i].cells, news, rids, |news|);
  }

  lemma {:induction false} AddDynamicPuts(s: State, id: u16, rids: seq<Uuid>, mem: seq<Junk>, request: Status, i: nat)
    requires NULL_RID !in rids && Locate(s, id, Virtual, rids == []) == At(i)
    requires !SomeRidTaken(s.endpoints[i].cells, rids, Min(|rids|, |mem|)) && |rids| <= |mem|
    ensures var o := AddDynamic(s, id, rids, mem, request);
            && o.status == (if s.connected then request else Ok)
            && Requested(s, o.state, i, rids)
            && PutIn(s.endpoints[i].cells, o.state.endpoints[i].cells,
                     seq(|rids|, k requires 0 <= k < |rids| <= |mem| =>
                       Responder(rids[k], DynamicUidRequest(s.manu), mem[k].binding, mem[k].control)))
  {
    var cells, news := s.endpoints[i].cells, DynamicCells(s.manu, rids, mem);
    FreshMeansNoRidTaken(cells, news, rids, |news|);
    BatchPutsIn(cells, news);
    assert s.sent + [] == s.sent;
    assert news == seq(|rids|, k requires 0 <= k < |rids| <= |mem| =>
                         Responder(rids[k], DynamicUidRequest(s.manu), mem[k].binding, mem[k].control));
  }

  /**
   Adding dynamic responders to a virtual endpoint: why it fails, and that it otherwise puts exactly these on the
   endpoint, all waiting for a UID, moves no number, and while connected asks the broker for exactly their RIDs; the
   answer to that request is the answer of the call, and the responders stay whatever it is.
   */
  lemma {:induction false} AddDynamicAnswer(s: State, id: u16, rids: seq<Uuid>, mem: seq<Junk>, request: Status)
    requires NULL_RID !in rids
    ensures var o, none := Step(s, EvAddDynamic(id, rids, mem, request)), NoTarget(s, id, Virtual, rids == []);
            if none.Some? then o == Outcome(none.value, s)
            else
              && FindEndpoint(s, id).Some?
              && var i := FindEndpoint(s, id).value;
              var taken := SomeRidTaken(s.endpoints[i].cells, rids, Min(|rids|, |mem|));
              if taken || |mem| < |rids| then o == Outcome(if taken then Exists else NoMem, s)
              else
                && o.status == (if s.connected then request else Ok)
                && Requested(s, o.state, i, rids)
                && PutIn(s.endpoints[i].cells, o.state.endpoints[i].cells,
                         seq(|rids|, k requires 0 <= k < |rids| <= |mem| =>
                           Responder(rids[k], DynamicUidRequest(s.manu), mem[k].binding, mem[k].control)))
  {
    TargetMeans(s, id, Virtual, rids == []);
    if NoTarget(s, id, Virtual, rids == []).None? {
      var i := FindEndpoint(s, id).value;
      if SomeRidTaken(s.endpoints[i].cells, rids, Min(|rids|, |mem|)) || |mem| < |rids| {
        AddDynamicFails(s, id, rids, mem, request, i);
      } else {
        AddDynamicPuts(s, id, rids, mem, request, i);
      }
    }
  }

  /** Exactly the responders with these UIDs and without a RID were taken out; the others keep their order. */
  ghost predicate TookUids(was: seq<Responder>, now: seq<Responder>, uids: seq<Uid>) {
    (forall r :: r in now <==> r in was && (IsDynamic(r) || r.uid !in uids)) && (Sorted(was) ==> Sorted(now))
  }

  ghost predicate TookRids(was: seq<Responder>, now: seq<Responder>, rids: seq<Uuid>) {
    (forall r :: r in now <==> r in was && r.rid !in rids) && (Sorted(was) ==> Sorted(now))
  }

  lemma {:induction false} WithoutTakesUids(cells: seq<Responder>, uids: seq<Uid>)
    ensures TookUids(cells, Without(cells, UidKeys(uids)), uids)
  {
    forall r: Responder ensures KeyOf(r) in UidKeys(uids) <==> !IsDynamic(r) && r.uid in uids {}
    if Sorted(cells) {
      WithoutKeepsSorted(cells, UidKeys(uids));
    }
  }

  lemma {:induction false} WithoutTakesRids(cells: seq<Responder>, rids: seq<Uuid>)
    requires NULL_RID !in rids
    ensures TookRids(cells, Without(cells, RidKeys(rids)), rids)
  {
    forall r: Responder ensures KeyOf(r) in RidKeys(rids) <==> r.rid in rids {}
    if Sorted(cells) {
      WithoutKeepsSorted(cells, RidKeys(rids));
    }
  }

  lemma {:induction false} RemoveUidsTakes(s: State, id: u16, kind: Kind, uids: seq<Uid>, i: nat)
    requires Locate(s, id, kind, uids == []) == At(i)
    ensures var o := RemoveUids(s, id, kind, uids);
            if forall u :: u in uids ==> Listed(s.endpoints[i].cells, u) then
              && o.status == Ok && Changed(s, o.state, i, if s.connected then 2 else 1)
              && TookUids(s.endpoints[i].cells, o.state.endpoints[i].cells, uids)
            else o == Outcome(NotFound, s)
  {
    var cells := s.endpoints[i].cells;
    ListedMeansKey(cells, uids);
    WithoutTakesUids(cells, uids);
    if s.connected {
      TwoStepChange(s, i, Without(cells, UidKeys(uids)));
    } else {
      OneStepChange(s, i, Without(cells, UidKeys(uids)));
    }
  }

  /**
   Removing static or physical responders: it succeeds exactly when the endpoint is there, of the right type, and has
   all of them; then exactly these go and the number advances twice while connected, each time announced, and else once.
   */
  ghost predicate RemovesUids(s: State, o: Outcome, id: u16, kind: Kind, uids: seq<Uid>) {
    var none := NoTarget(s, id, kind, uids == []);
    if none.Some? then o == Outcome(none.value, s)
    else
      && FindEndpoint(s, id).Some?
      && var i := FindEndpoint(s, id).value;
      if forall u :: u in uids ==> Listed(s.endpoints[i].cells, u) then
        && o.status == Ok && Changed(s, o.state, i, if s.connected then 2 else 1)
        && TookUids(s.endpoints[i].cells, o.state.endpoints[i].cells, uids)
      else o == Outcome(NotFound, s)
  }

  lemma {:induction false} RemoveUidsMeans(s: State, id: u16, kind: Kind, uids: seq<Uid>)
    ensures RemovesUids(s, RemoveUids(s, id, kind, uids), id, kind, uids)
  {
    TargetMeans(s, id, kind, uids == []);
    if NoTarget(s, id, kind, uids == []).None? {
      RemoveUidsTakes(s, id, kind, uids, FindEndpoint(s, id).value);
    }
  }

  lemma {:induction false} RemoveUidsAnswer(s: State, id: u16, uids: seq<Uid>)
    ensures RemovesUids(s, Step(s, EvRemoveStatic(id, uids)), id, Virtual, uids)
    ensures RemovesUids(s, Step(s, EvRemovePhysical(id, uids)), id, Physical, uids)
  {
    RemoveUidsMeans(s, id, Virtual, uids);
    RemoveUidsMeans(s, id, Physical, uids);
  }

  lemma {:induction false} RemoveDynamicTakes(s: State, id: u16, rids: seq<Uuid>, i: nat)
    requires NULL_RID !in rids && Locate(s, id, Virtual, rids == []) == At(i)
    ensures var o := RemoveDynamic(s, id, rids);
            if forall r :: r in rids ==> Hosted(s.endpoints[i].cells, r) then
              && o.status == Ok && Changed(s, o.state, i, 1)
              && TookRids(s.endpoints[i].cells, o.state.endpoints[i].cells, rids)
            else o == Outcome(NotFound, s)
  {
    var cells := s.endpoints[i].cells;
    HostedMeansKey(cells, rids);
    WithoutTakesRids(cells, rids);
    OneStepChange(s, i, Without(cells, RidKeys(rids)));
  }

  /** Removing dynamic responders, likewise, with one advance. */
  lemma {:induction false} RemoveDynamicAnswer(s: State, id: u16, rids: seq<Uuid>)
    requires NULL_RID !in rids
    ensures var o, none := Step(s, EvRemoveDynamic(id, rids)), NoTarget(s, id, Virtual, rids == []);
            && (none.Some? ==> o == Outcome(none.value, s))
            && (none.None? ==>
                  && FindEndpoint(s, id).Some?
                  && var i := FindEndpoint(s, id).value;
                  if forall r :: r in rids ==> Hosted(s.endpoints[i].cells, r) then
                    && o.status == Ok && Changed(s, o.state, i, 1)
                    && TookRids(s.endpoints[i].cells, o.state.endpoints[i].cells, rids)
                  else o == Outcome(NotFound, s))
  {
    TargetMeans(s, id, Virtual, rids == []);
    if NoTarget(s, id, Virtual, rids == []).None? {
      RemoveDynamicTakes(s, id, rids, FindEndpoint(s, id).value);
    }
  }
}
