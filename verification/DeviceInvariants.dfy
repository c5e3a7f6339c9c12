/**
 What every event keeps: ids in range, trees in order, and no dynamic responder on a physical endpoint.
 */
module DeviceInvariants {
  import opened Wire
  import opened Responders
  import opened ResponderStore
  import opened Removal
  import opened DeviceSpec

  ghost predicate NoneDynamic(cells: seq<Responder>) {
    forall r :: r in cells ==> !IsDynamic(r)
  }

  lemma {:induction false} BatchAddKeeps(cells: seq<Responder>, news: seq<Responder>, short: bool)
    requires Sorted(cells)
    ensures Sorted(BatchAdd(cells, news, short).cells)
    ensures NoneDynamic(cells) && NoneDynamic(news) ==> NoneDynamic(BatchAdd(cells, news, short).cells)
  {
    if Fresh(cells, news, |news|) {
      InsertFirstKeepsSorted(cells, news, |news|);
    }
  }

  /** Mappings reach only dynamic responders. */
  lemma {:induction false} NoneDynamicNoMatch(e: Endpoint, ms: seq<Mapping>)
    requires NoneDynamic(e.cells) && RealRids(ms)
    ensures MatchesOn(e, ms) == 0
  {
    MatchesMeans(e.cells, ms, |ms|);
    assert forall k :: 0 <= k < |e.cells| ==> e.cells[k] in e.cells && KeyOf(e.cells[k]).ByUid?;
  }

  lemma {:induction false} VirtualCellsSorted(manu: u16, config: VirtualConfig, mem: seq<Junk>)
    ensures Sorted(VirtualCells(manu, config, mem).cells)
  {
    var dynamic := BatchAdd([], DynamicCells(manu, config.rids, mem), |mem| < |config.rids|);
    BatchAddKeeps([], DynamicCells(manu, config.rids, mem), |mem| < |config.rids|);
    if dynamic.status == Ok {
      BatchAddKeeps(dynamic.cells, StaticCells(config.uids, mem[|config.rids|..]),
                    |mem| - |config.rids| < |config.uids|);
    }
  }

  lemma {:induction false} RemoveFirstsSelects<T>(s: seq<T>, f: T -> u16, ids: seq<u16>)
    ensures forall x :: x in RemoveFirsts(s, f, ids) ==> x in s
    decreases |ids|
  {
    if ids != [] {
      var at := IndexOfId(s, f, ids[0]);
      RemoveFirstsSelects(if at.Some? then DropAt(s, at.value) else s, f, ids[1..]);
    }
  }

  lemma {:induction false} AddToKeepsGood(s: State, t: Target, news: seq<Responder>, short: bool)
    requires Good(s) && (t.At? ==> t.index < |s.endpoints|)
    requires t.At? && s.endpoints[t.index].kind == Physical ==> NoneDynamic(news)
    ensures Good(AddTo(s, t, news, short).state)
    ensures t.At? ==> t.index < |AddTo(s, t, news, short).state.endpoints|
  {
    if t.At? {
      BatchAddKeeps(s.endpoints[t.index].cells, news, short);
    }
  }

  lemma {:induction false} RemoveFromKeepsGood(s: State, t: Target, ks: set<Key>)
    requires Good(s) && (t.At? ==> t.index < |s.endpoints|)
    ensures Good(RemoveFrom(s, t, ks).state)
    ensures t.At? ==> t.index < |RemoveFrom(s, t, ks).state.endpoints|
  {
    if t.At? {
      WithoutKeepsSorted(s.endpoints[t.index].cells, ks);
    }
  }

  lemma {:induction false} AssignEndpointKeepsGood(e: Endpoint, ms: seq<Mapping>)
    requires GoodEndpoint(e)
    ensures GoodEndpoint(AssignEndpoint(e, ms))
  {
    SameKeysSameOrder(e.cells, Assigned(e.cells, ms, |ms|));
    if e.kind == Physical {
      forall i | 0 <= i < |e.cells| ensures !IsDynamic(Assigned(e.cells, ms, |ms|)[i]) {
        assert e.cells[i] in e.cells;
      }
    }
  }

  lemma {:induction false} ResetKeepsGood(e: Endpoint, manu: u16)
    requires GoodEndpoint(e)
    ensures GoodEndpoint(ResetEndpoint(e, manu))
  {
    SameKeysSameOrder(e.cells, Reset(e.cells, manu));
    if e.kind == Physical {
      forall i | 0 <= i < |e.cells| ensures !IsDynamic(Reset(e.cells, manu)[i]) {
        assert e.cells[i] in e.cells;
      }
    }
  }

  lemma {:induction false} NewVirtualsGood(manu: u16, configs: seq<VirtualConfig>, mems: seq<seq<Junk>>)
    requires |mems| == |configs| && forall c :: c in configs ==> ValidId(c.id)
    ensures forall i :: 0 <= i < |configs| ==> GoodEndpoint(NewVirtuals(manu, configs, mems)[i])
  {
    forall i | 0 <= i < |configs| ensures GoodEndpoint(NewVirtuals(manu, configs, mems)[i]) {
      assert configs[i] in configs;
      VirtualCellsSorted(manu, configs[i], mems[i]);
    }
  }

  lemma {:induction false} NewPhysicalsGood(configs: seq<PhysicalConfig>, grants: seq<nat>)
    requires |grants| == |configs| && forall c :: c in configs ==> ValidId(c.id)
    ensures forall i :: 0 <= i < |configs| ==> GoodEndpoint(NewPhysicals(configs, grants)[i])
  {
    forall i | 0 <= i < |configs| ensures GoodEndpoint(NewPhysicals(configs, grants)[i]) {
      assert configs[i] in configs;
      BatchAddKeeps([], PhysicalCells(configs[i].responders, grants[i]), grants[i] < |configs[i].responders|);
    }
  }

  /** Every run starts from here. */
  lemma {:induction false} NewDeviceIsGood(
    manu: u16, pconfigs: seq<PhysicalConfig>, grants: seq<nat>, vconfigs: seq<VirtualConfig>, mems: seq<seq<Junk>>)
    requires |grants| == |pconfigs| && |mems| == |vconfigs|
    requires (forall c :: c in pconfigs ==> ValidId(c.id)) && (forall c :: c in vconfigs ==> ValidId(c.id))
    ensures Good(NewDevice(manu, pconfigs, grants, vconfigs, mems))
  {
    NewPhysicalsGood(pconfigs, grants);
    NewVirtualsGood(manu, vconfigs, mems);
  }

  lemma {:induction false} AddVirtualsKeepsGood(s: State, configs: seq<VirtualConfig>, room: bool, mems: seq<seq<Junk>>)
    requires Good(s) && |mems| == |configs|
    ensures Good(AddVirtuals(s, configs, room, mems).state)
  {
    if AddVirtuals(s, configs, room, mems).status == Ok {
      NewVirtualsGood(s.manu, configs, mems);
    }
  }

  lemma {:induction false} AddPhysicalsKeepsGood(s: State, configs: seq<PhysicalConfig>, room: bool, grants: seq<nat>)
    requires Good(s) && |grants| == |configs|
    ensures Good(AddPhysicals(s, configs, room, grants).state)
  {
    if AddPhysicals(s, configs, room, grants).status == Ok {
      NewPhysicalsGood(configs, grants);
    }
  }

  lemma {:induction false} RemoveEndpointsKeepsGood(s: State, ids: seq<u16>)
    requires Good(s)
    ensures Good(RemoveEndpoints(s, ids).state)
  {
    var rest := RemoveFirsts(s.endpoints, EndpointId, ids);
    RemoveFirstsSelects(s.endpoints, EndpointId, ids);
    forall i | 0 <= i < |rest| ensures GoodEndpoint(rest[i]) {
      assert rest[i] in s.endpoints;
    }
  }

  lemma {:induction false} AddResponderKeepsGood(s: State, e: Event)
    requires Good(s) && Legal(s, e) && (e.EvAddStatic? || e.EvAddDynamic? || e.EvAddPhysical?)
    ensures Good(Step(s, e).state)
  {
    match e
    case EvAddStatic(id, uids, mem) =>
      AddToKeepsGood(s, Locate(s, id, Virtual, uids == []), StaticCells(uids, mem), |mem| < |uids|);
    case EvAddDynamic(id, rids, mem, _) =>
      AddToKeepsGood(s, Locate(s, id, Virtual, rids == []), DynamicCells(s.manu, rids, mem), |mem| < |rids|);
    case EvAddPhysical(id, ps, grant) =>
      AddToKeepsGood(s, Locate(s, id, Physical, ps == []), PhysicalCells(ps, grant), grant < |ps|);
  }

  lemma {:induction false} RemoveResponderKeepsGood(s: State, e: Event)
    requires Good(s) && Legal(s, e) && (e.EvRemoveStatic? || e.EvRemoveDynamic? || e.EvRemovePhysical?)
    ensures Good(Step(s, e).state)
  {
    match e
    case EvRemoveStatic(id, uids) => RemoveFromKeepsGood(s, Locate(s, id, Virtual, uids == []), UidKeys(uids));
    case EvRemoveDynamic(id, rids) => RemoveFromKeepsGood(s, Locate(s, id, Virtual, rids == []), RidKeys(rids));
    case EvRemovePhysical(id, uids) => RemoveFromKeepsGood(s, Locate(s, id, Physical, uids == []), UidKeys(uids));
  }

  lemma {:induction false} DisconnectKeepsGood(s: State)
    requires Good(s)
    ensures Good(Disconnected(s))
  {
    forall i | 0 <= i < |s.endpoints| ensures GoodEndpoint(Disconnected(s).endpoints[i]) {
      ResetKeepsGood(s.endpoints[i], s.manu);
    }
  }

  lemma {:induction false} AssignKeepsGood(s: State, ms: seq<Mapping>)
    requires Good(s)
    ensures Good(Assign(s, ms))
  {
    forall i | 0 <= i < |s.endpoints| ensures GoodEndpoint(Assign(s, ms).endpoints[i]) {
      AssignEndpointKeepsGood(s.endpoints[i], ms);
    }
  }

  /** Every event keeps a good device good. */
  lemma {:induction false} StepKeepsGood(s: State, e: Event)
    requires Good(s) && Legal(s, e)
    ensures Good(Step(s, e).state)
  {
    match e
    case EvAddVirtuals(configs, room, mems) => AddVirtualsKeepsGood(s, configs, room, mems);
    case EvAddPhysicals(configs, room, grants) => AddPhysicalsKeepsGood(s, configs, room, grants);
    case EvRemoveEndpoints(ids) => RemoveEndpointsKeepsGood(s, ids);
    case EvConnect =>
    case EvDisconnect => DisconnectKeepsGood(s);
    case EvAssign(ms) => AssignKeepsGood(s, ms);
    case EvAddStatic(_, _, _) => AddResponderKeepsGood(s, e);
    case EvAddDynamic(_, _, _, _) => AddResponderKeepsGood(s, e);
    case EvAddPhysical(_, _, _) => AddResponderKeepsGood(s, e);
    case _ => RemoveResponderKeepsGood(s, e);
  }

  /** Every state of every run is good. */
  lemma {:induction false} RunKeepsGood(ss: seq<State>, es: seq<Event>, n: nat)
    requires IsRun(ss, es) && Good(ss[0]) && n < |ss|
    ensures Good(ss[n])
  {
    if n > 0 {
      RunKeepsGood(ss, es, n - 1);
      StepKeepsGood(ss[n - 1], es[n - 1]);
    }
  }
}
