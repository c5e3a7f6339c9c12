/**
 What the batch calls of the device API promise: everything asked for, or nothing.
 */
module DeviceBatches {
  import opened Wire
  import opened Responders
  import opened ResponderStore
  import opened Removal
  import opened DeviceSpec

  // ----- new endpoints

  lemma {:induction false} InsertFirstCounts(cells: seq<Responder>, news: seq<Responder>, n: nat)
    requires n <= |news|
    ensures |InsertFirst(cells, news, n)| == |cells| + n
  {
    if n > 0 {
      InsertFirstCounts(cells, news, n - 1);
    }
  }

  lemma {:induction false} DynamicFitExactlyWhen(manu: u16, rids: seq<Uuid>, mem: seq<Junk>)
    requires NULL_RID !in rids && |rids| <= |mem|
    ensures Fresh([], DynamicCells(manu, rids, mem), |rids|) <==> Distinct(rids)
  {
    var news := DynamicCells(manu, rids, mem);
    forall i | 0 <= i < |rids| ensures KeyOf(news[i]) == ByRid(rids[i]) {
      assert rids[i] in rids;
    }
  }

  lemma {:induction false} StaticFitExactlyWhen(cells: seq<Responder>, uids: seq<Uid>, mem: seq<Junk>)
    requires |uids| <= |mem| && forall r :: r in cells ==> IsDynamic(r)
    ensures Fresh(cells, StaticCells(uids, mem), |uids|) <==> Distinct(uids)
  {
    var news := StaticCells(uids, mem);
    forall i | 0 <= i < |uids| ensures KeyOf(news[i]) == ByUid(uids[i]) && KeyOf(news[i]) !in Keys(cells) {}
  }

  /**
   A virtual endpoint can be set up exactly when there is memory for all its responders and none is listed
   twice; it then holds exactly the configured ones.
   */
  lemma {:induction false} VirtualFitsExactlyWhen(manu: u16, config: VirtualConfig, mem: seq<Junk>)
    requires NULL_RID !in config.rids
    ensures var b := VirtualCells(manu, config, mem);
            && (b.status == Ok <==>
                  |config.rids| + |config.uids| <= |mem| && Distinct(config.rids) && Distinct(config.uids))
            && (b.status == Ok ==>
                  && Keys(b.cells) == RidKeys(config.rids) + UidKeys(config.uids)
                  && |b.cells| == |config.rids| + |config.uids|)
  {
    var rids, uids := config.rids, config.uids;
    var ds := DynamicCells(manu, rids, mem);
    if |rids| <= |mem| {
      DynamicFitExactlyWhen(manu, rids, mem);
      if Distinct(rids) {
        var cells := InsertFirst([], ds, |ds|);
        forall r | r in cells ensures IsDynamic(r) && KeyOf(r) in RidKeys(rids) {
          var k :| 0 <= k < |ds| && ds[k] == r;
          assert rids[k] in rids;
        }
        var rest := mem[|rids|..];
        if |uids| <= |rest| {
          StaticFitExactlyWhen(cells, uids, rest);
          if Distinct(uids) {
            VirtualHolds(manu, config, mem);
          }
        }
      }
    }
  }

  /** An endpoint without responders needs no memory. */
  lemma {:induction false} EmptyVirtualFits(manu: u16, id: u16, mem: seq<Junk>)
    ensures VirtualCells(manu, VirtualConfig(id, [], []), mem) == Batch(Ok, [])
  {
    var rids: seq<Uuid> := [];
    var uids: seq<Uid> := [];
    assert DynamicCells(manu, rids, mem) == [] && StaticCells(uids, mem[0..]) == [];
  }

  lemma {:induction false} HeldRids(manu: u16, rids: seq<Uuid>, mem: seq<Junk>)
    requires NULL_RID !in rids && |rids| <= |mem|
    ensures Keys(InsertFirst([], DynamicCells(manu, rids, mem), |rids|)) == RidKeys(rids)
  {
    var ds := DynamicCells(manu, rids, mem);
    forall i | 0 <= i < |rids| ensures KeyOf(ds[i]) == ByRid(rids[i]) {
      assert rids[i] in rids;
    }
    forall k ensures k in Keys(InsertFirst([], ds, |ds|)) <==> k in RidKeys(rids) {
      InsertFirstKeys([], ds, |ds|, k);
      if k in RidKeys(rids) {
        var i :| 0 <= i < |ds| && ByRid(rids[i]) == k;
        assert KeyOf(ds[i]) == k;
      }
    }
  }

  lemma {:induction false} UidsAdded(cells: seq<Responder>, uids: seq<Uid>, mem: seq<Junk>)
    requires |uids| <= |mem|
    ensures Keys(InsertFirst(cells, StaticCells(uids, mem), |uids|)) == Keys(cells) + UidKeys(uids)
  {
    var us := StaticCells(uids, mem);
    forall i | 0 <= i < |uids| ensures KeyOf(us[i]) == ByUid(uids[i]) {}
    forall k ensures k in Keys(InsertFirst(cells, us, |us|)) <==> k in Keys(cells) + UidKeys(uids) {
      InsertFirstKeys(cells, us, |us|, k);
      if k in UidKeys(uids) {
        var i :| 0 <= i < |us| && ByUid(uids[i]) == k;
        assert KeyOf(us[i]) == k;
      }
    }
  }

  lemma {:induction false} VirtualHolds(manu: u16, config: VirtualConfig, mem: seq<Junk>)
    requires NULL_RID !in config.rids && |config.rids| + |config.uids| <= |mem|
    ensures var ds := DynamicCells(manu, config.rids, mem);
            var us := StaticCells(config.uids, mem[|config.rids|..]);
            var cells := InsertFirst(InsertFirst([], ds, |ds|), us, |us|);
            && Keys(cells) == RidKeys(config.rids) + UidKeys(config.uids)
            && |cells| == |config.rids| + |config.uids|
  {
    var ds := DynamicCells(manu, config.rids, mem);
    var us := StaticCells(config.uids, mem[|config.rids|..]);
    var first := InsertFirst([], ds, |ds|);
    InsertFirstCounts([], ds, |ds|);
    InsertFirstCounts(first, us, |us|);
    HeldRids(manu, config.rids, mem);
    UidsAdded(first, config.uids, mem[|config.rids|..]);
  }

  /** A new virtual endpoint is what its configuration asks for. */
  ghost predicate VirtualAsConfigured(e: Endpoint, config: VirtualConfig) {
    && e.id == config.id && 1 <= e.id <= 63999 && e.kind == Virtual && e.number == 0
    && Keys(e.cells) == RidKeys(config.rids) + UidKeys(config.uids)
    && |e.cells| == |config.rids| + |config.uids|
  }

  lemma {:induction false} NewVirtualAsConfigured(manu: u16, config: VirtualConfig, mem: seq<Junk>)
    requires NULL_RID !in config.rids && ValidId(config.id) && VirtualCells(manu, config, mem).status == Ok
    ensures VirtualAsConfigured(NewVirtual(manu, config, mem), config)
  {
    VirtualFitsExactlyWhen(manu, config, mem);
  }

  /** New endpoints follow the old ones, which stay as they were. */
  ghost predicate VirtualsFollow(es: seq<Endpoint>, all: seq<Endpoint>, configs: seq<VirtualConfig>) {
    && |all| == |es| + |configs| && all[..|es|] == es
    && forall i :: 0 <= i < |configs| ==> VirtualAsConfigured(all[|es| + i], configs[i])
  }

  lemma {:induction false} AppendedVirtualsFollow(es: seq<Endpoint>, news: seq<Endpoint>, configs: seq<VirtualConfig>)
    requires |news| == |configs| && forall i :: 0 <= i < |configs| ==> VirtualAsConfigured(news[i], configs[i])
    ensures VirtualsFollow(es, es + news, configs)
  {}

  lemma {:induction false} NewVirtualsAsConfigured(manu: u16, configs: seq<VirtualConfig>, mems: seq<seq<Junk>>)
    requires |mems| == |configs| && AllVirtualsFit(manu, configs, mems)
    requires forall c :: c in configs ==> NULL_RID !in c.rids && ValidId(c.id)
    ensures forall i :: 0 <= i < |configs| ==> VirtualAsConfigured(NewVirtuals(manu, configs, mems)[i], configs[i])
  {
    forall i | 0 <= i < |configs| ensures VirtualAsConfigured(NewVirtuals(manu, configs, mems)[i], configs[i]) {
      assert configs[i] in configs;
      NewVirtualAsConfigured(manu, configs[i], mems[i]);
    }
  }

  /**
   Adding endpoints: on any failure no endpoint, no responder and no change number is different; on success
   the old endpoints are untouched and the new ones follow in order, as configured and with number 0.
   */
  lemma {:induction false} AddVirtualsIsAllOrNothing(
    s: State, configs: seq<VirtualConfig>, room: bool, mems: seq<seq<Junk>>)
    requires |mems| == |configs| && forall c :: c in configs ==> NULL_RID !in c.rids
    ensures var o := AddVirtuals(s, configs, room, mems);
            if o.status == Ok then
              VirtualsFollow(s.endpoints, o.state.endpoints, configs) && o.state.listNumber == Next(s.listNumber)
            else o.state == s
  {
    var o := AddVirtuals(s, configs, room, mems);
    if o.status == Ok {
      NewVirtualsAsConfigured(s.manu, configs, mems);
      AppendedVirtualsFollow(s.endpoints, NewVirtuals(s.manu, configs, mems), configs);
    }
  }

  ghost function ConfiguredCells(ps: seq<PhysicalResponder>): (r: set<Responder>) {
    set p | p in ps :: PhysicalCell(p)
  }

  /**
   A physical endpoint can be set up exactly when there is memory for all its responders and no UID is listed
   twice; it then holds exactly the configured responders with their binding data.
   */
  lemma {:induction false} PhysicalFitsExactlyWhen(config: PhysicalConfig, grants: nat)
    ensures var b := PhysicalBatch(config, grants);
            var ps := config.responders;
            && (b.status == Ok <==>
                  |ps| <= grants && forall i, j :: 0 <= i < j < |ps| ==> ps[i].uid != ps[j].uid)
            && (b.status == Ok ==> Elements(b.cells) == ConfiguredCells(ps) && |b.cells| == |ps|)
  {
    var ps := config.responders;
    var news := PhysicalCells(ps, grants);
    forall i | 0 <= i < |news| ensures KeyOf(news[i]) == ByUid(ps[i].uid) {}
    var cells := InsertFirst([], news, |news|);
    InsertFirstCounts([], news, |news|);
    if |ps| <= grants {
      forall r ensures r in cells <==> r in ConfiguredCells(ps) {
        if r in ConfiguredCells(ps) {
          var i :| 0 <= i < |ps| && PhysicalCell(ps[i]) == r;
          assert news[i] == r;
        }
      }
    }
  }

  /** A new physical endpoint is what its configuration asks for. */
  ghost predicate PhysicalAsConfigured(e: Endpoint, config: PhysicalConfig) {
    && e.id == config.id && 1 <= e.id <= 63999 && e.kind == Physical && e.number == 0
    && Elements(e.cells) == ConfiguredCells(config.responders) && |e.cells| == |config.responders|
  }

  ghost predicate PhysicalsFollow(es: seq<Endpoint>, all: seq<Endpoint>, configs: seq<PhysicalConfig>) {
    && |all| == |es| + |configs| && all[..|es|] == es
    && forall i :: 0 <= i < |configs| ==> PhysicalAsConfigured(all[|es| + i], configs[i])
  }

  lemma {:induction false} AppendedPhysicalsFollow(es: seq<Endpoint>, news: seq<Endpoint>, configs: seq<PhysicalConfig>)
    requires |news| == |configs| && forall i :: 0 <= i < |configs| ==> PhysicalAsConfigured(news[i], configs[i])
    ensures PhysicalsFollow(es, es + news, configs)
  {}

  lemma {:induction false} NewPhysicalsAsConfigured(configs: seq<PhysicalConfig>, grants: seq<nat>)
    requires |grants| == |configs| && AllPhysicalsFit(configs, grants) && forall c :: c in configs ==> ValidId(c.id)
    ensures forall i :: 0 <= i < |configs| ==> PhysicalAsConfigured(NewPhysicals(configs, grants)[i], configs[i])
  {
    forall i | 0 <= i < |configs| ensures PhysicalAsConfigured(NewPhysicals(configs, grants)[i], configs[i]) {
      assert configs[i] in configs;
      PhysicalFitsExactlyWhen(configs[i], grants[i]);
    }
  }

  /** Adding physical endpoints, likewise, with the binding data of every responder. */
  lemma {:induction false} AddPhysicalsIsAllOrNothing(
    s: State, configs: seq<PhysicalConfig>, room: bool, grants: seq<nat>)
    requires |grants| == |configs|
    ensures var o := AddPhysicals(s, configs, room, grants);
            if o.status == Ok then
              PhysicalsFollow(s.endpoints, o.state.endpoints, configs) && o.state.listNumber == Next(s.listNumber)
            else o.state == s
  {
    var o := AddPhysicals(s, configs, room, grants);
    if o.status == Ok {
      NewPhysicalsAsConfigured(configs, grants);
      AppendedPhysicalsFollow(s.endpoints, NewPhysicals(configs, grants), configs);
    }
  }

  // ----- removing responders

  ghost predicate Listed(cells: seq<Responder>, uid: Uid) {
    exists r :: r in cells && !IsDynamic(r) && r.uid == uid
  }

  ghost predicate Hosted(cells: seq<Responder>, rid: Uuid) {
    exists r :: r in cells && IsDynamic(r) && r.rid == rid
  }

  lemma {:induction false} ListedMeansKey(cells: seq<Responder>, uids: seq<Uid>)
    ensures UidKeys(uids) <= Keys(cells) <==> forall u :: u in uids ==> Listed(cells, u)
  {
    forall u | u in uids ensures ByUid(u) in Keys(cells) <==> Listed(cells, u) {}
    if UidKeys(uids) <= Keys(cells) {
      forall u | u in uids ensures Listed(cells, u) {
        assert ByUid(u) in UidKeys(uids);
      }
    }
  }

  lemma {:induction false} HostedMeansKey(cells: seq<Responder>, rids: seq<Uuid>)
    requires NULL_RID !in rids
    ensures RidKeys(rids) <= Keys(cells) <==> forall r :: r in rids ==> Hosted(cells, r)
  {
    forall r | r in rids ensures ByRid(r) in Keys(cells) <==> Hosted(cells, r) {}
    if RidKeys(rids) <= Keys(cells) {
      forall r | r in rids ensures Hosted(cells, r) {
        assert ByRid(r) in RidKeys(rids);
      }
    }
  }

  /**
   Removing static or physical responders: if every UID asked for is there, exactly those go, however often
   they are repeated, and no dynamic responder is touched; otherwise nothing happens.
   */
  lemma {:induction false} UidRemovalIsSetDifference(s: State, i: nat, kind: Kind, uids: seq<Uid>)
    requires i < |s.endpoints| && FindEndpoint(s, s.endpoints[i].id) == Some(i)
    ensures var o := RemoveUids(s, s.endpoints[i].id, kind, uids);
            var cells := s.endpoints[i].cells;
            if uids != [] && kind == s.endpoints[i].kind && forall u :: u in uids ==> Listed(cells, u) then
              && o.status == Ok && |o.state.endpoints| == |s.endpoints|
              && (forall j :: 0 <= j < |s.endpoints| && j != i ==> o.state.endpoints[j] == s.endpoints[j])
              && (forall r :: r in o.state.endpoints[i].cells <==> r in cells && (IsDynamic(r) || r.uid !in uids))
            else o.status != Ok && o.state == s
  {
    ListedMeansKey(s.endpoints[i].cells, uids);
    forall r: Responder ensures KeyOf(r) in UidKeys(uids) <==> !IsDynamic(r) && r.uid in uids {}
  }

  /** Removing dynamic responders, likewise; no static responder is touched. */
  lemma {:induction false} RidRemovalIsSetDifference(s: State, i: nat, rids: seq<Uuid>)
    requires i < |s.endpoints| && FindEndpoint(s, s.endpoints[i].id) == Some(i) && NULL_RID !in rids
    ensures var o := RemoveDynamic(s, s.endpoints[i].id, rids);
            var cells := s.endpoints[i].cells;
            if rids != [] && s.endpoints[i].kind == Virtual && forall r :: r in rids ==> Hosted(cells, r) then
              && o.status == Ok && |o.state.endpoints| == |s.endpoints|
              && (forall j :: 0 <= j < |s.endpoints| && j != i ==> o.state.endpoints[j] == s.endpoints[j])
              && (forall r :: r in o.state.endpoints[i].cells <==> r in cells && r.rid !in rids)
            else o.status != Ok && o.state == s
  {
    HostedMeansKey(s.endpoints[i].cells, rids);
    forall r: Responder ensures KeyOf(r) in RidKeys(rids) <==> r.rid in rids {}
  }
}
