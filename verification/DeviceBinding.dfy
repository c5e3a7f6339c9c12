/**
 The binding data of a physical responder stays what it was when the responder was added.
 */
module DeviceBinding {
  import opened Wire
  import opened Rdm
  import opened Responders
  import opened ResponderStore
  import opened Removal
  import opened DeviceSpec
  import opened DeviceInvariants
  import opened DeviceReplies

  /** The first endpoint with the id. */
  function FirstWith<T>(s: seq<T>, f: T -> u16, id: u16): (r: Option<T>) {
    var at := IndexOfId(s, f, id);
    if at.Some? then Some(s[at.value]) else None
  }

  /** Endpoint `id` is physical and holds the responder as configured. */
  ghost predicate Bound(s: State, id: u16, p: PhysicalResponder) {
    var e := FirstWith(s.endpoints, EndpointId, id);
    e.Some? && e.value.kind == Physical && PhysicalCell(p) in e.value.cells
  }

  /** The event does not succeed in removing the endpoint or the responder. */
  ghost predicate Spares(s: State, e: Event, id: u16, uid: Uid)
    requires Legal(s, e)
  {
    Step(s, e).status == Ok ==>
      && !(e.EvRemoveEndpoints? && id in e.ids)
      && !(e.EvRemovePhysical? && e.id == id && uid in e.uids)
  }

  // ----- endpoints coming and going

  lemma {:induction false} DropKeepsFirst<T>(s: seq<T>, f: T -> u16, k: nat, id: u16)
    requires k < |s| && f(s[k]) != id
    ensures FirstWith(DropAt(s, k), f, id) == FirstWith(s, f, id)
  {
    var d := DropAt(s, k);
    assert forall i :: 0 <= i < |d| ==> d[i] == s[if i < k then i else i + 1];
    var a, b := IndexOfId(s, f, id), IndexOfId(d, f, id);
    if a.Some? {
      assert f(d[if a.value < k then a.value else a.value - 1]) == id;
    }
    if b.Some? {
      assert f(s[if b.value < k then b.value else b.value + 1]) == id;
      if a.value < k {
        assert b.value == a.value;
      }
    }
  }

  lemma {:induction false} RemoveFirstsKeepsFirst<T>(s: seq<T>, f: T -> u16, ids: seq<u16>, id: u16)
    requires id !in ids
    ensures FirstWith(RemoveFirsts(s, f, ids), f, id) == FirstWith(s, f, id)
    decreases |ids|
  {
    if ids != [] {
      var at := IndexOfId(s, f, ids[0]);
      if at.Some? {
        DropKeepsFirst(s, f, at.value, id);
      }
      RemoveFirstsKeepsFirst(if at.Some? then DropAt(s, at.value) else s, f, ids[1..], id);
    }
  }

  lemma {:induction false} AppendKeepsFirst<T>(s: seq<T>, news: seq<T>, f: T -> u16, id: u16)
    requires FirstWith(s, f, id).Some?
    ensures FirstWith(s + news, f, id) == FirstWith(s, f, id)
  {
    assert (s + news)[..|s|] == s;
    FirstIsInPrefix(s + news, |s|, f, id);
  }

  /** Changing cells and numbers in place does not change which endpoint a lookup finds. */
  lemma {:induction false} InPlaceKeepsIndex(a: seq<Endpoint>, b: seq<Endpoint>, id: u16)
    requires |a| == |b| && forall i :: 0 <= i < |a| ==> a[i].id == b[i].id
    ensures IndexOfId(a, EndpointId, id) == IndexOfId(b, EndpointId, id)
  {
    var i, j := IndexOfId(a, EndpointId, id), IndexOfId(b, EndpointId, id);
    if i.Some? { assert EndpointId(b[i.value]) == id; }
    if j.Some? { assert EndpointId(a[j.value]) == id; }
  }

  // ----- one event

  lemma {:induction false} AddToKeepsBound(s: State, t: Target, news: seq<Responder>, short: bool, id: u16, p: PhysicalResponder)
    requires Bound(s, id, p) && (t.At? ==> t.index < |s.endpoints|)
    ensures Bound(AddTo(s, t, news, short).state, id, p)
  {
    InPlaceKeepsIndex(s.endpoints, AddTo(s, t, news, short).state.endpoints, id);
  }

  lemma {:induction false} RemoveFromKeepsBound(s: State, t: Target, ks: set<Key>, id: u16, p: PhysicalResponder)
    requires Bound(s, id, p) && (t.At? ==> t.index < |s.endpoints|)
    requires t == At(IndexOfId(s.endpoints, EndpointId, id).value) ==> ByUid(p.uid) !in ks
    ensures Bound(RemoveFrom(s, t, ks).state, id, p)
  {
    InPlaceKeepsIndex(s.endpoints, RemoveFrom(s, t, ks).state.endpoints, id);
  }

  lemma {:induction false} BumpKeepsBound(s: State, i: nat, id: u16, p: PhysicalResponder)
    requires Bound(s, id, p) && i < |s.endpoints|
    ensures Bound(Bump(s, i), id, p)
  {
    InPlaceKeepsIndex(s.endpoints, Bump(s, i).endpoints, id);
  }

  lemma {:induction false} DisconnectKeepsBound(s: State, id: u16, p: PhysicalResponder)
    requires Bound(s, id, p)
    ensures Bound(Disconnected(s), id, p)
  {
    InPlaceKeepsIndex(s.endpoints, Disconnected(s).endpoints, id);
    var i := IndexOfId(s.endpoints, EndpointId, id).value;
    var k :| 0 <= k < |s.endpoints[i].cells| && s.endpoints[i].cells[k] == PhysicalCell(p);
    assert Disconnected(s).endpoints[i].cells[k] == ResetCell(PhysicalCell(p), s.manu);
  }

  lemma {:induction false} AssignKeepsBound(s: State, ms: seq<Mapping>, id: u16, p: PhysicalResponder)
    requires Bound(s, id, p)
    ensures Bound(Assign(s, ms), id, p)
  {
    InPlaceKeepsIndex(s.endpoints, Assign(s, ms).endpoints, id);
    var i := IndexOfId(s.endpoints, EndpointId, id).value;
    var cells := s.endpoints[i].cells;
    var k :| 0 <= k < |cells| && cells[k] == PhysicalCell(p);
    assert Assigned(cells, ms, |ms|)[k] == AssignCell(PhysicalCell(p), ms, |ms|);
  }

  lemma {:induction false} AddResponderKeepsBound(s: State, e: Event, id: u16, p: PhysicalResponder)
    requires Legal(s, e) && Bound(s, id, p)
    requires e.EvAddStatic? || e.EvAddDynamic? || e.EvAddPhysical?
    ensures Bound(Step(s, e).state, id, p)
  {
    match e
    case EvAddStatic(at, uids, mem) =>
      var t := Locate(s, at, Virtual, uids == []);
      AddToKeepsBound(s, t, StaticCells(uids, mem), |mem| < |uids|, id, p);
      if t.At? { BumpKeepsBound(AddTo(s, t, StaticCells(uids, mem), |mem| < |uids|).state, t.index, id, p); }
    case EvAddDynamic(at, rids, mem, _) =>
      AddToKeepsBound(s, Locate(s, at, Virtual, rids == []), DynamicCells(s.manu, rids, mem), |mem| < |rids|, id, p);
    case EvAddPhysical(at, ps, grant) =>
      var t := Locate(s, at, Physical, ps == []);
      AddToKeepsBound(s, t, PhysicalCells(ps, grant), grant < |ps|, id, p);
      if t.At? { BumpKeepsBound(AddTo(s, t, PhysicalCells(ps, grant), grant < |ps|).state, t.index, id, p); }
  }

  lemma {:induction false} RemoveUidsKeepsBound(s: State, at: u16, kind: Kind, uids: seq<Uid>, id: u16, p: PhysicalResponder)
    requires Bound(s, id, p)
    requires RemoveUids(s, at, kind, uids).status == Ok && kind == Physical && at == id ==> p.uid !in uids
    ensures Bound(RemoveUids(s, at, kind, uids).state, id, p)
  {
    var t := Locate(s, at, kind, uids == []);
    var o := RemoveFrom(s, t, UidKeys(uids));
    if o.status == Ok {
      RemoveFromKeepsBound(s, t, UidKeys(uids), id, p);
      BumpKeepsBound(o.state, t.index, id, p);
      BumpKeepsBound(Bump(o.state, t.index), t.index, id, p);
    }
  }

  lemma {:induction false} RemoveDynamicKeepsBound(s: State, at: u16, rids: seq<Uuid>, id: u16, p: PhysicalResponder)
    requires Bound(s, id, p)
    ensures Bound(RemoveDynamic(s, at, rids).state, id, p)
  {
    var t := Locate(s, at, Virtual, rids == []);
    var o := RemoveFrom(s, t, RidKeys(rids));
    if o.status == Ok {
      RemoveFromKeepsBound(s, t, RidKeys(rids), id, p);
      BumpKeepsBound(o.state, t.index, id, p);
    }
  }

  lemma {:induction false} EndpointCallKeepsBound(s: State, e: Event, id: u16, p: PhysicalResponder)
    requires Legal(s, e) && Bound(s, id, p) && Spares(s, e, id, p.uid)
    requires e.EvAddVirtuals? || e.EvAddPhysicals? || e.EvRemoveEndpoints?
    ensures Bound(Step(s, e).state, id, p)
  {
    match e
    case EvAddVirtuals(configs, _, mems) =>
      AppendKeepsFirst(s.endpoints, NewVirtuals(s.manu, configs, mems), EndpointId, id);
    case EvAddPhysicals(configs, _, grants) =>
      AppendKeepsFirst(s.endpoints, NewPhysicals(configs, grants), EndpointId, id);
    case EvRemoveEndpoints(ids) =>
      if Step(s, e).status == Ok { RemoveFirstsKeepsFirst(s.endpoints, EndpointId, ids, id); }
  }

  lemma {:induction false} StepKeepsBound(s: State, e: Event, id: u16, p: PhysicalResponder)
    requires Legal(s, e) && Bound(s, id, p) && Spares(s, e, id, p.uid)
    ensures Bound(Step(s, e).state, id, p)
  {
    match e
    case EvRemoveStatic(at, uids) => RemoveUidsKeepsBound(s, at, Virtual, uids, id, p);
    case EvRemovePhysical(at, uids) => RemoveUidsKeepsBound(s, at, Physical, uids, id, p);
    case EvRemoveDynamic(at, rids) => RemoveDynamicKeepsBound(s, at, rids, id, p);
    case EvConnect =>
    case EvDisconnect => DisconnectKeepsBound(s, id, p);
    case EvAssign(ms) => AssignKeepsBound(s, ms, id, p);
    case _ =>
      if e.EvAddStatic? || e.EvAddDynamic? || e.EvAddPhysical? {
        AddResponderKeepsBound(s, e, id, p);
      } else {
        EndpointCallKeepsBound(s, e, id, p);
      }
  }

  // ----- the reply

  /** A controller's question for one responder. */
  function Question(id: u16, uid: Uid): (data: seq<byte>) {
    Pack16(id) + UidBytes(uid)
  }

  lemma {:induction false} QuestionRoundTrip(id: u16, uid: Uid)
    ensures var q := Question(id, uid);
            |q| == 8 && Unpack16(q) == id && Uid(Unpack16(q[2..]), Unpack32(q[4..])) == uid
  {
    var q := Question(id, uid);
    assert q[2..] == UidBytes(uid) + [];
    assert q[4..] == q[2..][2..];
    Pack16RoundTrip(id, UidBytes(uid));
    UidRoundTrip(uid, []);
  }

  lemma {:induction false} BoundIsReported(s: State, id: u16, p: PhysicalResponder, available: nat)
    requires Good(s) && Bound(s, id, p) && available >= 16
    ensures BindingReply(s, Get, Question(id, p.uid), available) == Ack(BindingData(id, p.uid, p.control, p.binding))
  {
    QuestionRoundTrip(id, p.uid);
    var cells := FirstWith(s.endpoints, EndpointId, id).value.cells;
    var k :| 0 <= k < |cells| && cells[k] == PhysicalCell(p);
    FindIsLinearScan(cells, UidKey(p.uid));
    assert KeyOf(cells[k]) == KeyOf(UidKey(p.uid));
  }

  /** A successful add binds every responder of the batch. */
  lemma {:induction false} AddBinds(s: State, id: u16, ps: seq<PhysicalResponder>, grant: nat, k: nat)
    requires AddPhysicalTo(s, id, ps, grant).status == Ok && k < |ps|
    ensures Bound(AddPhysicalTo(s, id, ps, grant).state, id, ps[k])
  {
    var t := Locate(s, id, Physical, ps == []);
    InPlaceKeepsIndex(s.endpoints, AddPhysicalTo(s, id, ps, grant).state.endpoints, id);
    assert PhysicalCells(ps, grant)[k] == PhysicalCell(ps[k]);
  }

  /** New endpoints in front of which no endpoint has the id bind their responders, too. */
  lemma {:induction false} NewPhysicalsBind(
    es: seq<Endpoint>, configs: seq<PhysicalConfig>, grants: seq<nat>, more: seq<Endpoint>, c: nat, k: nat)
    requires |grants| == |configs| && AllPhysicalsFit(configs, grants)
    requires c < |configs| && k < |configs[c].responders|
    requires IndexOfId(es, EndpointId, configs[c].id).None? && forall d :: 0 <= d < c ==> configs[d].id != configs[c].id
    ensures var e := FirstWith(es + NewPhysicals(configs, grants) + more, EndpointId, configs[c].id);
            e.Some? && e.value.kind == Physical && PhysicalCell(configs[c].responders[k]) in e.value.cells
  {
    var news := NewPhysicals(configs, grants);
    var all, id, at := es + news + more, configs[c].id, |es| + c;
    assert all[at] == news[c];
    forall j | 0 <= j < at ensures EndpointId(all[j]) != id {
      if j < |es| {
        assert all[j] == es[j] && EndpointId(es[j]) != id;
      } else {
        assert all[j] == news[j - |es|];
      }
    }
    FirstIndex(all, EndpointId, id, Some(at));
    assert PhysicalCells(configs[c].responders, grants[c])[k] == PhysicalCell(configs[c].responders[k]);
  }

  /** A successful endpoint add binds every responder configured with an endpoint. */
  lemma {:induction false} AddPhysicalsBinds(
    s: State, configs: seq<PhysicalConfig>, room: bool, grants: seq<nat>, c: nat, k: nat)
    requires |grants| == |configs| && AddPhysicals(s, configs, room, grants).status == Ok
    requires c < |configs| && k < |configs[c].responders|
    requires FindEndpoint(s, configs[c].id).None? && forall d :: 0 <= d < c ==> configs[d].id != configs[c].id
    ensures Bound(AddPhysicals(s, configs, room, grants).state, configs[c].id, configs[c].responders[k])
  {
    NewPhysicalsBind(s.endpoints, configs, grants, [], c, k);
    assert s.endpoints + NewPhysicals(configs, grants) + [] == s.endpoints + NewPhysicals(configs, grants);
  }

  lemma {:induction false} NothingInFront(a: seq<Endpoint>, b: seq<Endpoint>)
    ensures [] + a + b == a + b
  {}

  /** So does the creation of a device. */
  lemma {:induction false} NewDeviceBinds(
    manu: u16, pconfigs: seq<PhysicalConfig>, grants: seq<nat>, vconfigs: seq<VirtualConfig>, mems: seq<seq<Junk>>,
    c: nat, k: nat)
    requires |grants| == |pconfigs| && |mems| == |vconfigs| && AllPhysicalsFit(pconfigs, grants)
    requires c < |pconfigs| && k < |pconfigs[c].responders|
    requires forall d :: 0 <= d < c ==> pconfigs[d].id != pconfigs[c].id
    ensures Bound(NewDevice(manu, pconfigs, grants, vconfigs, mems), pconfigs[c].id, pconfigs[c].responders[k])
  {
    var ps, vs := NewPhysicals(pconfigs, grants), NewVirtuals(manu, vconfigs, mems);
    NewPhysicalsBind([], pconfigs, grants, vs, c, k);
    NothingInFront(ps, vs);
  }

  lemma {:induction false} RunKeepsBound(ss: seq<State>, es: seq<Event>, id: u16, p: PhysicalResponder, n: nat)
    requires IsRun(ss, es) && n <= |es| && Bound(ss[0], id, p)
    requires forall k {:trigger es[k]} :: 0 <= k < |es| ==> Spares(ss[k], es[k], id, p.uid)
    ensures Bound(ss[n], id, p)
  {
    if n > 0 {
      RunKeepsBound(ss, es, id, p, n - 1);
      StepKeepsBound(ss[n - 1], es[n - 1], id, p);
    }
  }

  /**
   Binding persistence: once a physical responder is on its endpoint, whatever happens that removes neither the
   endpoint nor the responder - failed adds naming the same UID, removals of other endpoints, assignments,
   disconnects - BINDING_CONTROL_FIELDS answers with the control field and binding UID it was given.
   */
  lemma {:induction false} BindingPersists(
    ss: seq<State>, es: seq<Event>, id: u16, p: PhysicalResponder, available: nat)
    requires IsRun(ss, es) && Good(ss[0]) && Bound(ss[0], id, p)
    requires forall n {:trigger es[n]} :: 0 <= n < |es| ==> Spares(ss[n], es[n], id, p.uid)
    requires available >= 16
    ensures BindingReply(ss[|es|], Get, Question(id, p.uid), available)
         == Ack(BindingData(id, p.uid, p.control, p.binding))
  {
    RunKeepsBound(ss, es, id, p, |es|);
    RunKeepsGood(ss, es, |es|);
    BoundIsReported(ss[|es|], id, p, available);
  }

  /** In particular from the add on, or from the creation of the device on. */
  lemma {:induction false} AddedBindingPersists(
    s: State, id: u16, ps: seq<PhysicalResponder>, grant: nat, k: nat,
    ss: seq<State>, es: seq<Event>, available: nat)
    requires Good(s) && AddPhysicalTo(s, id, ps, grant).status == Ok && k < |ps|
    requires IsRun(ss, es) && ss[0] == AddPhysicalTo(s, id, ps, grant).state
    requires forall n {:trigger es[n]} :: 0 <= n < |es| ==> Spares(ss[n], es[n], id, ps[k].uid)
    requires available >= 16
    ensures BindingReply(ss[|es|], Get, Question(id, ps[k].uid), available)
         == Ack(BindingData(id, ps[k].uid, ps[k].control, ps[k].binding))
  {
    AddBinds(s, id, ps, grant, k);
    StepKeepsGood(s, EvAddPhysical(id, ps, grant));
    BindingPersists(ss, es, id, ps[k], available);
  }

  lemma {:induction false} ConfiguredBindingPersists(
    manu: u16, pconfigs: seq<PhysicalConfig>, grants: seq<nat>, vconfigs: seq<VirtualConfig>, mems: seq<seq<Junk>>,
    c: nat, k: nat, ss: seq<State>, es: seq<Event>, available: nat)
    requires |grants| == |pconfigs| && |mems| == |vconfigs| && AllPhysicalsFit(pconfigs, grants)
    requires (forall d :: d in pconfigs ==> ValidId(d.id)) && (forall d :: d in vconfigs ==> ValidId(d.id))
    requires c < |pconfigs| && k < |pconfigs[c].responders|
    requires forall d :: 0 <= d < c ==> pconfigs[d].id != pconfigs[c].id
    requires IsRun(ss, es) && ss[0] == NewDevice(manu, pconfigs, grants, vconfigs, mems)
    requires forall n {:trigger es[n]} :: 0 <= n < |es| ==>
               Spares(ss[n], es[n], pconfigs[c].id, pconfigs[c].responders[k].uid)
    requires available >= 16
    ensures var p := pconfigs[c].responders[k];
            BindingReply(ss[|es|], Get, Question(pconfigs[c].id, p.uid), available)
              == Ack(BindingData(pconfigs[c].id, p.uid, p.control, p.binding))
  {
    NewDeviceIsGood(manu, pconfigs, grants, vconfigs, mems);
    NewDeviceBinds(manu, pconfigs, grants, vconfigs, mems, c, k);
    BindingPersists(ss, es, pconfigs[c].id, pconfigs[c].responders[k], available);
  }
}
