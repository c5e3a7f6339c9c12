/**
 Where the UID of a dynamic responder comes from, over any run.
 */
module DeviceHistory {
  import opened Wire
  import opened Responders
  import opened ResponderStore
  import opened Removal
  import opened DeviceSpec
  import opened DeviceInvariants
  import opened DeviceCoherence
  import opened DeviceAssignment

  ghost predicate OnDevice(s: State, rid: Uuid) {
    exists i :: 0 <= i < |s.endpoints| && Has(s.endpoints[i], rid)
  }

  /** Every dynamic responder of a set of cells carries the UID `f` gives its RID. */
  ghost predicate CellsCarry(cells: seq<Responder>, f: Uuid -> Uid) {
    forall r :: r in cells && IsDynamic(r) ==> r.uid == f(r.rid)
  }

  ghost predicate Carries(s: State, f: Uuid -> Uid) {
    forall i :: 0 <= i < |s.endpoints| ==> CellsCarry(s.endpoints[i].cells, f)
  }

  /** What one event makes of the UID `u` of `rid`. */
  ghost function UidAfter(s: State, e: Event, rid: Uuid, u: Uid): (r: Uid) {
    if e.EvDisconnect? || !OnDevice(s, rid) then DynamicUidRequest(s.manu)
    else if e.EvAssign? && LastOk(e.ms, |e.ms|, rid).Some? then LastOk(e.ms, |e.ms|, rid).value
    else u
  }

  ghost function AfterStep(s: State, e: Event, f: Uuid -> Uid): (g: Uuid -> Uid) {
    (rid: Uuid) => UidAfter(s, e, rid, f(rid))
  }

  lemma {:induction false} CellIsOnDevice(s: State, i: nat, r: Responder)
    requires i < |s.endpoints| && r in s.endpoints[i].cells && IsDynamic(r)
    ensures Has(s.endpoints[i], r.rid) && OnDevice(s, r.rid)
  {
    assert KeyOf(r) == ByRid(r.rid);
  }

  /** Cells that were there before keep their UID under an event that neither assigns nor disconnects. */
  lemma {:induction false} OldCellsCarry(s: State, e: Event, f: Uuid -> Uid, i: nat, cells: seq<Responder>)
    requires Carries(s, f) && i < |s.endpoints| && !e.EvDisconnect? && !e.EvAssign?
    requires forall r :: r in cells && IsDynamic(r) ==> r in s.endpoints[i].cells
    ensures CellsCarry(cells, AfterStep(s, e, f))
  {
    forall r | r in cells && IsDynamic(r) ensures r.uid == AfterStep(s, e, f)(r.rid) {
      CellIsOnDevice(s, i, r);
    }
  }

  /** A RID that is new to its endpoint is new to the device. */
  lemma {:induction false} NewToDevice(s: State, s': State, i: nat, rid: Uuid)
    requires rid != NULL_RID && UniqueRids(s'.endpoints)
    requires i < |s'.endpoints| && Has(s'.endpoints[i], rid) && (i < |s.endpoints| ==> !Has(s.endpoints[i], rid))
    requires |s.endpoints| <= |s'.endpoints|
    requires forall j :: 0 <= j < |s.endpoints| && j != i ==> s'.endpoints[j] == s.endpoints[j]
    ensures !OnDevice(s, rid)
  {
    forall j | 0 <= j < |s.endpoints| ensures !Has(s.endpoints[j], rid) {
      if j < i || i < j {
        assert s'.endpoints[j] == s.endpoints[j];
      }
    }
  }

  lemma {:induction false} AddDynamicCarries(s: State, id: u16, rids: seq<Uuid>, mem: seq<Junk>, request: Status, f: Uuid -> Uid)
    requires Good(s) && Carries(s, f)
    requires UniqueRids(AddDynamic(s, id, rids, mem, request).state.endpoints)
    ensures Carries(AddDynamic(s, id, rids, mem, request).state,
                    AfterStep(s, EvAddDynamic(id, rids, mem, request), f))
  {
    var e := EvAddDynamic(id, rids, mem, request);
    var s' := AddDynamic(s, id, rids, mem, request).state;
    var t := Locate(s, id, Virtual, rids == []);
    forall i | 0 <= i < |s'.endpoints| ensures CellsCarry(s'.endpoints[i].cells, AfterStep(s, e, f)) {
      var cells := s'.endpoints[i].cells;
      if cells == s.endpoints[i].cells {
        OldCellsCarry(s, e, f, i, cells);
      } else {
        forall r | r in cells && IsDynamic(r) ensures r.uid == AfterStep(s, e, f)(r.rid) {
          AddedCellCarries(s, e, f, s', i, r, DynamicCells(s.manu, rids, mem));
        }
      }
    }
  }

  lemma {:induction false} AddedCellCarries(s: State, e: Event, f: Uuid -> Uid, s': State, i: nat, r: Responder, news: seq<Responder>)
    requires Carries(s, f) && !e.EvDisconnect? && !e.EvAssign?
    requires |s'.endpoints| == |s.endpoints| && i < |s.endpoints| && UniqueRids(s'.endpoints)
    requires forall j :: 0 <= j < |s.endpoints| && j != i ==> s'.endpoints[j] == s.endpoints[j]
    requires Fresh(s.endpoints[i].cells, news, |news|)
    requires s'.endpoints[i].cells == InsertFirst(s.endpoints[i].cells, news, |news|)
    requires forall k :: 0 <= k < |news| ==> news[k].uid == DynamicUidRequest(s.manu)
    requires r in s'.endpoints[i].cells && IsDynamic(r)
    ensures r.uid == AfterStep(s, e, f)(r.rid)
  {
    if r in s.endpoints[i].cells {
      CellIsOnDevice(s, i, r);
    } else {
      var k :| 0 <= k < |news| && news[k] == r;
      assert KeyOf(r) == ByRid(r.rid) && KeyOf(news[k]) !in Keys(s.endpoints[i].cells);
      CellIsOnDevice(s', i, r);
      NewToDevice(s, s', i, r.rid);
    }
  }

  /** An add that brings no dynamic responder changes no dynamic responder's UID. */
  lemma {:induction false} AddOthersCarries(s: State, e: Event, f: Uuid -> Uid, t: Target, news: seq<Responder>, short: bool)
    requires Carries(s, f) && !e.EvDisconnect? && !e.EvAssign? && NoneDynamic(news)
    requires t.At? ==> t.index < |s.endpoints|
    ensures Carries(AddTo(s, t, news, short).state, AfterStep(s, e, f))
  {
    var s' := AddTo(s, t, news, short).state;
    forall i | 0 <= i < |s'.endpoints| ensures CellsCarry(s'.endpoints[i].cells, AfterStep(s, e, f)) {
      OldCellsCarry(s, e, f, i, s'.endpoints[i].cells);
    }
  }

  lemma {:induction false} RemoveCarries(s: State, e: Event, f: Uuid -> Uid, t: Target, ks: set<Key>)
    requires Carries(s, f) && !e.EvDisconnect? && !e.EvAssign?
    requires t.At? ==> t.index < |s.endpoints|
    ensures Carries(RemoveFrom(s, t, ks).state, AfterStep(s, e, f))
  {
    var s' := RemoveFrom(s, t, ks).state;
    forall i | 0 <= i < |s'.endpoints| ensures CellsCarry(s'.endpoints[i].cells, AfterStep(s, e, f)) {
      OldCellsCarry(s, e, f, i, s'.endpoints[i].cells);
    }
  }

  ghost predicate Waits(cells: seq<Responder>, manu: u16) {
    forall r :: r in cells && IsDynamic(r) ==> r.uid == DynamicUidRequest(manu)
  }

  /** Every dynamic responder of a new endpoint waits for its UID. */
  lemma {:induction false} NewVirtualWaits(manu: u16, config: VirtualConfig, mem: seq<Junk>)
    ensures Waits(VirtualCells(manu, config, mem).cells, manu)
  {}

  /** New endpoints whose dynamic responders all wait for a UID. */
  lemma {:induction false} AppendCarries(s: State, e: Event, f: Uuid -> Uid, s': State, news: seq<Endpoint>)
    requires Carries(s, f) && !e.EvDisconnect? && !e.EvAssign?
    requires s'.endpoints == s.endpoints + news && UniqueRids(s'.endpoints)
    requires forall i :: 0 <= i < |news| ==> Waits(news[i].cells, s.manu)
    ensures Carries(s', AfterStep(s, e, f))
  {
    var n := |s.endpoints|;
    forall i | 0 <= i < |s'.endpoints| ensures CellsCarry(s'.endpoints[i].cells, AfterStep(s, e, f)) {
      if i < n {
        OldCellsCarry(s, e, f, i, s'.endpoints[i].cells);
      } else {
        assert s'.endpoints[i] == news[i - n];
        forall r | r in s'.endpoints[i].cells && IsDynamic(r) ensures r.uid == AfterStep(s, e, f)(r.rid) {
          CellIsOnDevice(s', i, r);
          NewToDevice(s, s', i, r.rid);
          assert r in news[i - n].cells && r.uid == DynamicUidRequest(s.manu);
          assert AfterStep(s, e, f)(r.rid) == UidAfter(s, e, r.rid, f(r.rid));
        }
      }
    }
  }

  lemma {:induction false} UnchangedCarries(s: State, e: Event, f: Uuid -> Uid)
    requires Carries(s, f) && !e.EvDisconnect? && !e.EvAssign?
    ensures Carries(s, AfterStep(s, e, f))
  {
    forall i | 0 <= i < |s.endpoints| ensures CellsCarry(s.endpoints[i].cells, AfterStep(s, e, f)) {
      OldCellsCarry(s, e, f, i, s.endpoints[i].cells);
    }
  }

  lemma {:induction false} AddVirtualsCarries(
    s: State, configs: seq<VirtualConfig>, room: bool, mems: seq<seq<Junk>>, f: Uuid -> Uid)
    requires |mems| == |configs| && Carries(s, f)
    requires UniqueRids(AddVirtuals(s, configs, room, mems).state.endpoints)
    ensures Carries(AddVirtuals(s, configs, room, mems).state, AfterStep(s, EvAddVirtuals(configs, room, mems), f))
  {
    var e := EvAddVirtuals(configs, room, mems);
    var o := AddVirtuals(s, configs, room, mems);
    if o.status == Ok {
      var news := NewVirtuals(s.manu, configs, mems);
      forall i | 0 <= i < |news| ensures Waits(news[i].cells, s.manu) {
        NewVirtualWaits(s.manu, configs[i], mems[i]);
      }
      AppendCarries(s, e, f, o.state, news);
    } else {
      UnchangedCarries(s, e, f);
    }
  }

  lemma {:induction false} AddPhysicalsCarries(
    s: State, configs: seq<PhysicalConfig>, room: bool, grants: seq<nat>, f: Uuid -> Uid)
    requires |grants| == |configs| && Carries(s, f)
    requires UniqueRids(AddPhysicals(s, configs, room, grants).state.endpoints)
    ensures Carries(AddPhysicals(s, configs, room, grants).state,
                    AfterStep(s, EvAddPhysicals(configs, room, grants), f))
  {
    var e := EvAddPhysicals(configs, room, grants);
    var o := AddPhysicals(s, configs, room, grants);
    if o.status == Ok {
      AppendCarries(s, e, f, o.state, NewPhysicals(configs, grants));
    } else {
      UnchangedCarries(s, e, f);
    }
  }

  lemma {:induction false} RemoveEndpointsCarries(s: State, ids: seq<u16>, f: Uuid -> Uid)
    requires Carries(s, f)
    ensures Carries(RemoveEndpoints(s, ids).state, AfterStep(s, EvRemoveEndpoints(ids), f))
  {
    var e := EvRemoveEndpoints(ids);
    var s' := RemoveEndpoints(s, ids).state;
    RemoveFirstsSelects(s.endpoints, EndpointId, ids);
    forall i | 0 <= i < |s'.endpoints| ensures CellsCarry(s'.endpoints[i].cells, AfterStep(s, e, f)) {
      assert s'.endpoints[i] in s.endpoints;
      var j :| 0 <= j < |s.endpoints| && s.endpoints[j] == s'.endpoints[i];
      OldCellsCarry(s, e, f, j, s'.endpoints[i].cells);
    }
  }

  lemma {:induction false} DisconnectCarries(s: State, f: Uuid -> Uid)
    ensures Carries(Disconnected(s), AfterStep(s, EvDisconnect, f))
  {
    forall i | 0 <= i < |s.endpoints|
      ensures CellsCarry(Disconnected(s).endpoints[i].cells, AfterStep(s, EvDisconnect, f))
    {
      var cells := Reset(s.endpoints[i].cells, s.manu);
      var g := AfterStep(s, EvDisconnect, f);
      forall k | 0 <= k < |cells| && IsDynamic(cells[k]) ensures cells[k].uid == g(cells[k].rid) {
        assert cells[k] == ResetCell(s.endpoints[i].cells[k], s.manu);
        assert g(cells[k].rid) == UidAfter(s, EvDisconnect, cells[k].rid, f(cells[k].rid));
      }
    }
  }

  /** A responder that some mapping names is a match. */
  lemma {:induction false} NamedMeansMatch(e: Endpoint, ms: seq<Mapping>, r: Responder)
    requires Sorted(e.cells) && RealRids(ms) && r in e.cells && IsDynamic(r) && LastOk(ms, |ms|, r.rid).Some?
    ensures MatchesOn(e, ms) > 0
  {
    var j :| 0 <= j < |ms| && ms[j].ok && ms[j].rid == r.rid;
    AppliesMeansHas(e, ms[j]);
    assert KeyOf(r) == ByRid(r.rid);
    MatchesMeans(e.cells, ms, |ms|);
  }

  lemma {:induction false} AssignEndpointCarries(s: State, ms: seq<Mapping>, f: Uuid -> Uid, i: nat)
    requires Good(s) && Carries(s, f) && RealRids(ms) && i < |s.endpoints|
    ensures CellsCarry(AssignEndpoint(s.endpoints[i], ms).cells, AfterStep(s, EvAssign(ms), f))
  {
    var before := s.endpoints[i];
    var after := AssignEndpoint(before, ms);
    forall k | 0 <= k < |after.cells| && IsDynamic(after.cells[k])
      ensures after.cells[k].uid == AfterStep(s, EvAssign(ms), f)(after.cells[k].rid)
    {
      var r := before.cells[k];
      assert r in before.cells && r.rid == after.cells[k].rid;
      CellIsOnDevice(s, i, r);
      if LastOk(ms, |ms|, r.rid).Some? {
        NamedMeansMatch(before, ms, r);
      }
    }
  }

  lemma {:induction false} AssignCarries(s: State, ms: seq<Mapping>, f: Uuid -> Uid)
    requires Good(s) && Carries(s, f) && RealRids(ms) && UniqueRids(s.endpoints)
    ensures Carries(Assign(s, ms), AfterStep(s, EvAssign(ms), f))
  {
    LeavingEarlyIsExhaustive(s, ms);
    forall i | 0 <= i < |s.endpoints|
      ensures CellsCarry(AssignAll(s, ms).endpoints[i].cells, AfterStep(s, EvAssign(ms), f))
    {
      AssignEndpointCarries(s, ms, f, i);
    }
  }

  lemma {:induction false} AddResponderCarries(s: State, e: Event, f: Uuid -> Uid)
    requires Good(s) && Legal(s, e) && Carries(s, f)
    requires UniqueRids(Step(s, e).state.endpoints)
    requires e.EvAddStatic? || e.EvAddDynamic? || e.EvAddPhysical?
    ensures Carries(Step(s, e).state, AfterStep(s, e, f))
  {
    match e
    case EvAddStatic(id, uids, mem) =>
      AddOthersCarries(s, e, f, Locate(s, id, Virtual, uids == []), StaticCells(uids, mem), |mem| < |uids|);
    case EvAddDynamic(id, rids, mem, request) => AddDynamicCarries(s, id, rids, mem, request, f);
    case EvAddPhysical(id, ps, grant) =>
      AddOthersCarries(s, e, f, Locate(s, id, Physical, ps == []), PhysicalCells(ps, grant), grant < |ps|);
  }

  lemma {:induction false} RemoveResponderCarries(s: State, e: Event, f: Uuid -> Uid)
    requires Legal(s, e) && Carries(s, f)
    requires e.EvRemoveStatic? || e.EvRemoveDynamic? || e.EvRemovePhysical?
    ensures Carries(Step(s, e).state, AfterStep(s, e, f))
  {
    match e
    case EvRemoveStatic(id, uids) => RemoveCarries(s, e, f, Locate(s, id, Virtual, uids == []), UidKeys(uids));
    case EvRemoveDynamic(id, rids) => RemoveCarries(s, e, f, Locate(s, id, Virtual, rids == []), RidKeys(rids));
    case EvRemovePhysical(id, uids) => RemoveCarries(s, e, f, Locate(s, id, Physical, uids == []), UidKeys(uids));
  }

  lemma {:induction false} StepCarries(s: State, e: Event, f: Uuid -> Uid)
    requires Good(s) && Legal(s, e) && Carries(s, f)
    requires UniqueRids(s.endpoints) && UniqueRids(Step(s, e).state.endpoints)
    ensures Carries(Step(s, e).state, AfterStep(s, e, f))
  {
    match e
    case EvAddVirtuals(configs, room, mems) => AddVirtualsCarries(s, configs, room, mems, f);
    case EvAddPhysicals(configs, room, grants) => AddPhysicalsCarries(s, configs, room, grants, f);
    case EvRemoveEndpoints(ids) => RemoveEndpointsCarries(s, ids, f);
    case EvConnect => UnchangedCarries(s, e, f);
    case EvDisconnect => DisconnectCarries(s, f);
    case EvAssign(ms) => AssignCarries(s, ms, f);
    case _ =>
      if e.EvAddStatic? || e.EvAddDynamic? || e.EvAddPhysical? {
        AddResponderCarries(s, e, f);
      } else {
        RemoveResponderCarries(s, e, f);
      }
  }

  // ----- runs

  /**
   The UID of `rid` as the history of a run tells it, read backwards: what the last successful mapping
   assigned, unless a disconnect or the responder's addition lies in between.
   */
  ghost function HistoryUid(ss: seq<State>, es: seq<Event>, n: nat, rid: Uuid): (u: Uid)
    requires |ss| == |es| + 1 && n <= |es|
  {
    if n == 0 then DynamicUidRequest(ss[0].manu)
    else if es[n - 1].EvDisconnect? || !OnDevice(ss[n - 1], rid) then DynamicUidRequest(ss[n - 1].manu)
    else
      var latest := if es[n - 1].EvAssign? then LastOk(es[n - 1].ms, |es[n - 1].ms|, rid) else None;
      if latest.Some? then latest.value else HistoryUid(ss, es, n - 1, rid)
  }

  ghost function History(ss: seq<State>, es: seq<Event>, n: nat): (f: Uuid -> Uid)
    requires |ss| == |es| + 1 && n <= |es|
  {
    (rid: Uuid) => HistoryUid(ss, es, n, rid)
  }

  lemma {:induction false} HistoryStep(ss: seq<State>, es: seq<Event>, n: nat)
    requires |ss| == |es| + 1 && n < |es|
    requires Carries(ss[n + 1], AfterStep(ss[n], es[n], History(ss, es, n)))
    ensures Carries(ss[n + 1], History(ss, es, n + 1))
  {
    var f, g := AfterStep(ss[n], es[n], History(ss, es, n)), History(ss, es, n + 1);
    forall rid: Uuid ensures f(rid) == g(rid) {
      assert f(rid) == UidAfter(ss[n], es[n], rid, HistoryUid(ss, es, n, rid));
      assert g(rid) == HistoryUid(ss, es, n + 1, rid);
    }
  }

  ghost predicate AlwaysUnique(ss: seq<State>) {
    forall k :: 0 <= k < |ss| ==> UniqueRids(ss[k].endpoints)
  }

  lemma {:induction false} HistoryGoesOn(ss: seq<State>, es: seq<Event>, n: nat)
    requires IsRun(ss, es) && AlwaysUnique(ss) && n < |es| && Good(ss[n])
    requires Carries(ss[n], History(ss, es, n))
    ensures Carries(ss[n + 1], History(ss, es, n + 1))
  {
    StepCarries(ss[n], es[n], History(ss, es, n));
    HistoryStep(ss, es, n);
  }

  /**
   Dynamic UID history: in every state of every run in which RIDs stay unique, a dynamic responder
   carries the UID of the last successful mapping for its RID since the later of its addition and the
   last disconnect, and otherwise the dynamic UID request value.
   */
  lemma {:induction false} UidsFollowHistory(ss: seq<State>, es: seq<Event>, n: nat)
    requires IsRun(ss, es) && Good(ss[0]) && AlwaysUnique(ss) && n <= |es|
    requires Carries(ss[0], History(ss, es, 0))
    ensures Carries(ss[n], History(ss, es, n))
  {
    if n > 0 {
      UidsFollowHistory(ss, es, n - 1);
      RunKeepsGood(ss, es, n - 1);
      HistoryGoesOn(ss, es, n - 1);
    }
  }

  lemma {:induction false} NewPhysicalWaits(config: PhysicalConfig, grant: nat, manu: u16)
    ensures Waits(PhysicalBatch(config, grant).cells, manu)
  {
    BatchAddKeeps([], PhysicalCells(config.responders, grant), grant < |config.responders|);
  }

  lemma {:induction false} NewPhysicalsWait(pconfigs: seq<PhysicalConfig>, grants: seq<nat>, manu: u16, i: nat)
    requires |grants| == |pconfigs| && i < |pconfigs|
    ensures Waits(NewPhysicals(pconfigs, grants)[i].cells, manu)
  {
    NewPhysicalWaits(pconfigs[i], grants[i], manu);
  }

  lemma {:induction false} NewVirtualsWait(manu: u16, vconfigs: seq<VirtualConfig>, mems: seq<seq<Junk>>, i: nat)
    requires |mems| == |vconfigs| && i < |vconfigs|
    ensures Waits(NewVirtuals(manu, vconfigs, mems)[i].cells, manu)
  {
    NewVirtualWaits(manu, vconfigs[i], mems[i]);
  }

  lemma {:induction false} BothWait(ps: seq<Endpoint>, vs: seq<Endpoint>, manu: u16, i: nat)
    requires i < |ps| + |vs|
    requires Waits(if i < |ps| then ps[i].cells else vs[i - |ps|].cells, manu)
    ensures Waits((ps + vs)[i].cells, manu)
  {
    assert (ps + vs)[i] == if i < |ps| then ps[i] else vs[i - |ps|];
  }

  /** The starting point of every history: on a new device all dynamic responders wait for a UID. */
  lemma {:induction false} NewDeviceWaits(
    manu: u16, pconfigs: seq<PhysicalConfig>, grants: seq<nat>, vconfigs: seq<VirtualConfig>, mems: seq<seq<Junk>>, i: nat)
    requires |grants| == |pconfigs| && |mems| == |vconfigs|
    requires i < |pconfigs| + |vconfigs|
    ensures Waits(NewDevice(manu, pconfigs, grants, vconfigs, mems).endpoints[i].cells, manu)
  {
    if i < |pconfigs| {
      NewPhysicalsWait(pconfigs, grants, manu, i);
    } else {
      NewVirtualsWait(manu, vconfigs, mems, i - |pconfigs|);
    }
    BothWait(NewPhysicals(pconfigs, grants), NewVirtuals(manu, vconfigs, mems), manu, i);
  }

  /** The history of a device that starts as it was created needs no assumption about its first state. */
  lemma {:induction false} NewDeviceStartsHistory(
    manu: u16, pconfigs: seq<PhysicalConfig>, grants: seq<nat>, vconfigs: seq<VirtualConfig>, mems: seq<seq<Junk>>,
    ss: seq<State>, es: seq<Event>)
    requires |grants| == |pconfigs| && |mems| == |vconfigs|
    requires |ss| == |es| + 1 && ss[0] == NewDevice(manu, pconfigs, grants, vconfigs, mems)
    ensures HidesDynamic(ss[0])
    ensures Carries(ss[0], History(ss, es, 0))
  {
    var s := ss[0];
    forall i | 0 <= i < |s.endpoints|
      ensures AllWaiting(s.endpoints[i].cells) && CellsCarry(s.endpoints[i].cells, History(ss, es, 0))
    {
      NewDeviceWaits(manu, pconfigs, grants, vconfigs, mems, i);
    }
  }

  // ----- a disconnected device

  /** While disconnected no dynamic responder has a UID. */
  ghost predicate HidesDynamic(s: State) {
    !s.connected ==> forall i :: 0 <= i < |s.endpoints| ==> AllWaiting(s.endpoints[i].cells)
  }

  lemma {:induction false} AddToHides(s: State, t: Target, news: seq<Responder>, short: bool)
    requires HidesDynamic(s) && AllWaiting(news) && (t.At? ==> t.index < |s.endpoints|)
    ensures HidesDynamic(AddTo(s, t, news, short).state)
  {}

  lemma {:induction false} RemoveFromHides(s: State, t: Target, ks: set<Key>)
    requires HidesDynamic(s) && (t.At? ==> t.index < |s.endpoints|)
    ensures HidesDynamic(RemoveFrom(s, t, ks).state)
  {}

  lemma {:induction false} AppendHides(s: State, news: seq<Endpoint>)
    requires HidesDynamic(s) && forall i :: 0 <= i < |news| ==> AllWaiting(news[i].cells)
    ensures HidesDynamic(BumpList(Append(s, true, news)))
  {}

  lemma {:induction false} RemoveEndpointsHides(s: State, ids: seq<u16>)
    requires HidesDynamic(s)
    ensures HidesDynamic(RemoveEndpoints(s, ids).state)
  {
    var rest := RemoveFirsts(s.endpoints, EndpointId, ids);
    RemoveFirstsSelects(s.endpoints, EndpointId, ids);
    if !s.connected {
      forall i | 0 <= i < |rest| ensures AllWaiting(rest[i].cells) {
        assert rest[i] in s.endpoints;
      }
    }
  }

  lemma {:induction false} DisconnectHides(s: State)
    ensures HidesDynamic(Disconnected(s))
  {
    forall i | 0 <= i < |s.endpoints| ensures AllWaiting(Disconnected(s).endpoints[i].cells) {
      var cells := Disconnected(s).endpoints[i].cells;
      forall k | 0 <= k < |cells| && IsDynamic(cells[k]) ensures IsDynamicUidRequest(cells[k].uid) {
        assert cells[k] == ResetCell(s.endpoints[i].cells[k], s.manu);
      }
    }
  }

  lemma {:induction false} AddVirtualsHides(s: State, configs: seq<VirtualConfig>, room: bool, mems: seq<seq<Junk>>)
    requires HidesDynamic(s) && |mems| == |configs|
    ensures HidesDynamic(AddVirtuals(s, configs, room, mems).state)
  {
    var news := NewVirtuals(s.manu, configs, mems);
    forall i | 0 <= i < |news| ensures AllWaiting(news[i].cells) {
      NewVirtualWaits(s.manu, configs[i], mems[i]);
    }
    AppendHides(s, news);
  }

  lemma {:induction false} AddResponderHides(s: State, e: Event)
    requires HidesDynamic(s) && Legal(s, e)
    requires e.EvAddStatic? || e.EvAddDynamic? || e.EvAddPhysical?
    ensures HidesDynamic(Step(s, e).state)
  {
    match e
    case EvAddStatic(id, uids, mem) =>
      AddToHides(s, Locate(s, id, Virtual, uids == []), StaticCells(uids, mem), |mem| < |uids|);
    case EvAddDynamic(id, rids, mem, request) =>
      AddToHides(s, Locate(s, id, Virtual, rids == []), DynamicCells(s.manu, rids, mem), |mem| < |rids|);
    case EvAddPhysical(id, ps, grant) =>
      AddToHides(s, Locate(s, id, Physical, ps == []), PhysicalCells(ps, grant), grant < |ps|);
  }

  lemma {:induction false} RemoveResponderHides(s: State, e: Event)
    requires HidesDynamic(s) && Legal(s, e)
    requires e.EvRemoveStatic? || e.EvRemoveDynamic? || e.EvRemovePhysical?
    ensures HidesDynamic(Step(s, e).state)
  {
    match e
    case EvRemoveStatic(id, uids) => RemoveFromHides(s, Locate(s, id, Virtual, uids == []), UidKeys(uids));
    case EvRemoveDynamic(id, rids) => RemoveFromHides(s, Locate(s, id, Virtual, rids == []), RidKeys(rids));
    case EvRemovePhysical(id, uids) => RemoveFromHides(s, Locate(s, id, Physical, uids == []), UidKeys(uids));
  }

  lemma {:induction false} StepHides(s: State, e: Event)
    requires HidesDynamic(s) && Legal(s, e) && (e.EvAssign? ==> s.connected)
    ensures HidesDynamic(Step(s, e).state)
  {
    match e
    case EvAddVirtuals(configs, room, mems) => AddVirtualsHides(s, configs, room, mems);
    case EvAddPhysicals(configs, room, grants) => AppendHides(s, NewPhysicals(configs, grants));
    case EvRemoveEndpoints(ids) => RemoveEndpointsHides(s, ids);
    case EvConnect =>
    case EvDisconnect => DisconnectHides(s);
    case EvAssign(_) =>
    case _ =>
      if e.EvAddStatic? || e.EvAddDynamic? || e.EvAddPhysical? {
        AddResponderHides(s, e);
      } else {
        RemoveResponderHides(s, e);
      }
  }

  lemma {:induction false} VisibleComesFrom(cells: seq<Responder>, u: Uid)
    requires u in Visible(cells)
    ensures exists r :: r in cells && r.uid == u && !IsDynamicUidRequest(r.uid)
  {
    var n := |cells| - 1;
    if u in Visible(cells[..n]) {
      VisibleComesFrom(cells[..n], u);
    } else {
      assert cells[n] in cells;
    }
  }

  lemma {:induction false} RunHides(ss: seq<State>, es: seq<Event>, n: nat)
    requires IsRun(ss, es) && n <= |es| && HidesDynamic(ss[0])
    requires forall k :: 0 <= k < |es| && es[k].EvAssign? ==> ss[k].connected
    ensures HidesDynamic(ss[n])
  {
    if n > 0 {
      RunHides(ss, es, n - 1);
      StepHides(ss[n - 1], es[n - 1]);
    }
  }

  /**
   If assignments only arrive while connected, a disconnected device reports no dynamic responder: every
   UID in an ENDPOINT_RESPONDERS reply belongs to a responder without a RID.
   */
  lemma {:induction false} DisconnectedReportsNoDynamic(ss: seq<State>, es: seq<Event>, i: nat, u: Uid)
    requires IsRun(ss, es) && HidesDynamic(ss[0])
    requires forall k :: 0 <= k < |es| && es[k].EvAssign? ==> ss[k].connected
    requires !ss[|es|].connected && i < |ss[|es|].endpoints| && u in Visible(ss[|es|].endpoints[i].cells)
    ensures exists r :: r in ss[|es|].endpoints[i].cells && r.uid == u && !IsDynamic(r)
  {
    RunHides(ss, es, |es|);
    VisibleComesFrom(ss[|es|].endpoints[i].cells, u);
  }
}
