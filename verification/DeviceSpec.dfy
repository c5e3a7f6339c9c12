/**
 A device as its users and controllers see it, and the effect each call or broker event has on it.
 */
module DeviceSpec {
  import opened Wire
  import opened Responders
  import opened ResponderStore
  import opened Removal

  datatype Kind = Virtual | Physical

  datatype Endpoint = Endpoint(id: u16, kind: Kind, number: u32, cells: seq<Responder>)

  /** What the device sends to its broker unasked. */
  datatype Update =
    | ListChange(number: u32)
    | ResponderChange(id: u16, number: u32)
    | UidRequest(rids: seq<Uuid>)

  datatype State = State(endpoints: seq<Endpoint>, listNumber: u32, connected: bool, manu: u16, sent: seq<Update>)

  datatype Outcome = Outcome(status: Status, state: State)

  datatype VirtualConfig = VirtualConfig(id: u16, rids: seq<Uuid>, uids: seq<Uid>)

  datatype PhysicalConfig = PhysicalConfig(id: u16, responders: seq<PhysicalResponder>)

  predicate ValidId(id: u16) {
    id != 0 && id < 64000
  }

  function EndpointId(e: Endpoint): (id: u16) {
    e.id
  }

  function FindEndpoint(s: State, id: u16): (r: Option<nat>) {
    IndexOfId(s.endpoints, EndpointId, id)
  }

  // ----- small changes

  function SetCells(s: State, i: nat, cells: seq<Responder>): (r: State)
    requires i < |s.endpoints|
  {
    s.(endpoints := s.endpoints[i := s.endpoints[i].(cells := cells)])
  }

  /** Advance an endpoint's change number and tell the broker. */
  function Bump(s: State, i: nat): (r: State)
    requires i < |s.endpoints|
  {
    var e := s.endpoints[i];
    var number := Next(e.number);
    s.(endpoints := s.endpoints[i := e.(number := number)],
       sent := if s.connected then s.sent + [ResponderChange(e.id, number)] else s.sent)
  }

  /** Advance the endpoint list's change number and tell the broker. */
  function BumpList(s: State): (r: State) {
    var number := Next(s.listNumber);
    s.(listNumber := number, sent := if s.connected then s.sent + [ListChange(number)] else s.sent)
  }

  // ----- adding endpoints

  ghost function VirtualCells(manu: u16, config: VirtualConfig, mem: seq<Junk>): (r: Batch)
  {
    var dynamic := BatchAdd([], DynamicCells(manu, config.rids, mem), |mem| < |config.rids|);
    if dynamic.status != Ok then dynamic
    else BatchAdd(dynamic.cells, StaticCells(config.uids, mem[|config.rids|..]), |mem| - |config.rids| < |config.uids|)
  }

  ghost function NewVirtual(manu: u16, config: VirtualConfig, mem: seq<Junk>): (e: Endpoint) {
    Endpoint(config.id, Virtual, 0, VirtualCells(manu, config, mem).cells)
  }

  ghost function NewVirtuals(manu: u16, configs: seq<VirtualConfig>, mems: seq<seq<Junk>>): (r: seq<Endpoint>)
    requires |mems| == |configs|
    ensures |r| == |configs|
  {
    seq(|configs|, i requires 0 <= i < |configs| => NewVirtual(manu, configs[i], mems[i]))
  }

  ghost predicate AllVirtualsFit(manu: u16, configs: seq<VirtualConfig>, mems: seq<seq<Junk>>)
    requires |mems| == |configs|
  {
    forall i :: 0 <= i < |configs| ==> VirtualCells(manu, configs[i], mems[i]).status == Ok
  }

  ghost function PhysicalBatch(config: PhysicalConfig, grants: nat): (r: Batch) {
    BatchAdd([], PhysicalCells(config.responders, grants), grants < |config.responders|)
  }

  ghost function NewPhysicals(configs: seq<PhysicalConfig>, grants: seq<nat>): (r: seq<Endpoint>)
    requires |grants| == |configs|
    ensures |r| == |configs|
  {
    seq(|configs|, i requires 0 <= i < |configs| =>
      Endpoint(configs[i].id, Physical, 0, PhysicalBatch(configs[i], grants[i]).cells))
  }

  ghost predicate AllPhysicalsFit(configs: seq<PhysicalConfig>, grants: seq<nat>)
    requires |grants| == |configs|
  {
    forall i :: 0 <= i < |configs| ==> PhysicalBatch(configs[i], grants[i]).status == Ok
  }

  /** A device as its creation leaves it: physical endpoints first, nothing announced, not yet connected. */
  ghost function NewDevice(
    manu: u16, pconfigs: seq<PhysicalConfig>, grants: seq<nat>, vconfigs: seq<VirtualConfig>, mems: seq<seq<Junk>>): (s: State)
    requires |grants| == |pconfigs| && |mems| == |vconfigs|
  {
    State(NewPhysicals(pconfigs, grants) + NewVirtuals(manu, vconfigs, mems), 0, false, manu, [])
  }

  /** All new endpoints or none. */
  ghost function Append(s: State, fit: bool, news: seq<Endpoint>): (r: State) {
    if fit then s.(endpoints := s.endpoints + news) else s
  }

  ghost function AddVirtuals(s: State, configs: seq<VirtualConfig>, room: bool, mems: seq<seq<Junk>>): (r: Outcome)
    requires |mems| == |configs|
  {
    if configs == [] || exists c :: c in configs && !ValidId(c.id) then Outcome(Invalid, s)
    else if !room || !AllVirtualsFit(s.manu, configs, mems) then Outcome(NoMem, s)
    else Outcome(Ok, BumpList(Append(s, true, NewVirtuals(s.manu, configs, mems))))
  }

  ghost function AddPhysicals(s: State, configs: seq<PhysicalConfig>, room: bool, grants: seq<nat>): (r: Outcome)
    requires |grants| == |configs|
  {
    if configs == [] || exists c :: c in configs && !ValidId(c.id) then Outcome(Invalid, s)
    else if !room || !AllPhysicalsFit(configs, grants) then Outcome(NoMem, s)
    else Outcome(Ok, BumpList(Append(s, true, NewPhysicals(configs, grants))))
  }

  // ----- removing endpoints

  ghost predicate AllPresent(s: State, ids: seq<u16>) {
    forall i :: 0 <= i < |ids| ==> FindEndpoint(s, ids[i]).Some?
  }

  ghost function RemoveEndpoints(s: State, ids: seq<u16>): (r: Outcome) {
    if ids == [] then Outcome(Invalid, s)
    else if !AllPresent(s, ids) then Outcome(NotFound, s)
    else Outcome(Ok, BumpList(s.(endpoints := RemoveFirsts(s.endpoints, EndpointId, ids))))
  }

  // ----- responders

  /** The endpoint a responder call works on, or why it cannot. */
  datatype Target = Bad(status: Status) | At(index: nat)

  function Locate(s: State, id: u16, kind: Kind, empty: bool): (r: Target)
    ensures r.At? ==> r.index < |s.endpoints| && s.endpoints[r.index].kind == kind && s.endpoints[r.index].id == id
    ensures r.At? ==> FindEndpoint(s, id) == Some(r.index)
    ensures r.Bad? ==> r.status != Ok
  {
    if empty then Bad(Invalid)
    else
      var at := FindEndpoint(s, id);
      if at.None? then Bad(NotFound)
      else if s.endpoints[at.value].kind != kind then Bad(Invalid)
      else At(at.value)
  }

  ghost function AddTo(s: State, t: Target, news: seq<Responder>, short: bool): (r: Outcome)
    requires t.At? ==> t.index < |s.endpoints|
  {
    if t.Bad? then Outcome(t.status, s)
    else
      var b := BatchAdd(s.endpoints[t.index].cells, news, short);
      if b.status == Ok then Outcome(Ok, SetCells(s, t.index, b.cells)) else Outcome(b.status, s)
  }

  ghost function AddStatic(s: State, id: u16, uids: seq<Uid>, mem: seq<Junk>): (r: Outcome) {
    var t := Locate(s, id, Virtual, uids == []);
    var o := AddTo(s, t, StaticCells(uids, mem), |mem| < |uids|);
    if o.status == Ok then o.(state := Bump(o.state, t.index)) else o
  }

  /** No change number moves; the new responders have nothing to show until a UID arrives. */
  ghost function AddDynamic(s: State, id: u16, rids: seq<Uuid>, mem: seq<Junk>, request: Status): (r: Outcome) {
    var t := Locate(s, id, Virtual, rids == []);
    var o := AddTo(s, t, DynamicCells(s.manu, rids, mem), |mem| < |rids|);
    if o.status == Ok && s.connected then
      Outcome(request, o.state.(sent := o.state.sent + [UidRequest(rids)]))
    else o
  }

  ghost function AddPhysicalTo(s: State, id: u16, ps: seq<PhysicalResponder>, grants: nat): (r: Outcome) {
    var t := Locate(s, id, Physical, ps == []);
    var o := AddTo(s, t, PhysicalCells(ps, grants), grants < |ps|);
    if o.status == Ok then o.(state := Bump(o.state, t.index)) else o
  }

  ghost function RemoveFrom(s: State, t: Target, ks: set<Key>): (r: Outcome)
    requires t.At? ==> t.index < |s.endpoints|
  {
    if t.Bad? then Outcome(t.status, s)
    else
      var cells := s.endpoints[t.index].cells;
      if !(ks <= Keys(cells)) then Outcome(NotFound, s)
      else Outcome(Ok, SetCells(s, t.index, Without(cells, ks)))
  }

  /** Removal by UID advances the number once more while connected. */
  ghost function RemoveUids(s: State, id: u16, kind: Kind, uids: seq<Uid>): (r: Outcome) {
    var t := Locate(s, id, kind, uids == []);
    var o := RemoveFrom(s, t, UidKeys(uids));
    if o.status != Ok then o
    else o.(state := Bump(if s.connected then Bump(o.state, t.index) else o.state, t.index))
  }

  ghost function RemoveDynamic(s: State, id: u16, rids: seq<Uuid>): (r: Outcome) {
    var t := Locate(s, id, Virtual, rids == []);
    var o := RemoveFrom(s, t, RidKeys(rids));
    if o.status != Ok then o else o.(state := Bump(o.state, t.index))
  }

  // ----- broker events

  function ResetEndpoint(e: Endpoint, manu: u16): (r: Endpoint) {
    e.(cells := Reset(e.cells, manu))
  }

  function Disconnected(s: State): (r: State) {
    s.(connected := false,
       endpoints := seq(|s.endpoints|, i requires 0 <= i < |s.endpoints| => ResetEndpoint(s.endpoints[i], s.manu)))
  }

  function MatchesOn(e: Endpoint, ms: seq<Mapping>): (k: nat) {
    Matches(e.cells, ms, |ms|)
  }

  /** An endpoint with all mappings applied; its number moves by one if any of them applied. */
  function AssignEndpoint(e: Endpoint, ms: seq<Mapping>): (r: Endpoint) {
    if MatchesOn(e, ms) > 0
    then e.(cells := Assigned(e.cells, ms, |ms|), number := Next(e.number))
    else e
  }

  /** Which endpoints some mapping applies to. */
  function Hits(eps: seq<Endpoint>, ms: seq<Mapping>): (r: seq<bool>)
    ensures |r| == |eps|
  {
    seq(|eps|, i requires 0 <= i < |eps| => MatchesOn(eps[i], ms) > 0)
  }

  /** The updates announcing an advance of each marked endpoint among the first `k`. */
  function UpdatesFor(eps: seq<Endpoint>, marked: seq<bool>, k: nat): (r: seq<Update>)
    requires |marked| == |eps| && k <= |eps|
  {
    if k == 0 then []
    else
      UpdatesFor(eps, marked, k - 1)
        + if marked[k - 1] then [ResponderChange(eps[k - 1].id, Next(eps[k - 1].number))] else []
  }

  /** The mappings applied to the first `k` endpoints. */
  function AssignFirst(s: State, ms: seq<Mapping>, k: nat): (r: State)
    requires k <= |s.endpoints|
    ensures |r.endpoints| == |s.endpoints|
  {
    s.(endpoints := seq(|s.endpoints|, i requires 0 <= i < |s.endpoints| =>
                      if i < k then AssignEndpoint(s.endpoints[i], ms) else s.endpoints[i]),
       sent := if s.connected then s.sent + UpdatesFor(s.endpoints, Hits(s.endpoints, ms), k) else s.sent)
  }

  /** Exhaustive: every mapping against every endpoint. */
  function AssignAll(s: State, ms: seq<Mapping>): (r: State) {
    AssignFirst(s, ms, |s.endpoints|)
  }

  function TotalMatches(eps: seq<Endpoint>, ms: seq<Mapping>, k: nat): (n: nat)
    requires k <= |eps|
  {
    if k == 0 then 0 else TotalMatches(eps, ms, k - 1) + MatchesOn(eps[k - 1], ms)
  }

  /**
   How many endpoints the event loop visits: it passes over physical ones, and stops behind a
   virtual one once as many mappings have matched as there are.
   */
  function Visited(eps: seq<Endpoint>, ms: seq<Mapping>, k: nat): (stop: nat)
    requires k <= |eps|
    ensures k <= stop <= |eps|
    decreases |eps| - k
  {
    if k == |eps| then k
    else if eps[k].kind == Physical then Visited(eps, ms, k + 1)
    else if TotalMatches(eps, ms, k + 1) >= |ms| then k + 1
    else Visited(eps, ms, k + 1)
  }

  function Assign(s: State, ms: seq<Mapping>): (r: State) {
    AssignFirst(s, ms, Visited(s.endpoints, ms, 0))
  }

  // ----- runs

  datatype Event =
    | EvAddVirtuals(configs: seq<VirtualConfig>, room: bool, mems: seq<seq<Junk>>)
    | EvAddPhysicals(pconfigs: seq<PhysicalConfig>, room: bool, grants: seq<nat>)
    | EvRemoveEndpoints(ids: seq<u16>)
    | EvAddStatic(id: u16, uids: seq<Uid>, mem: seq<Junk>)
    | EvAddDynamic(id: u16, rids: seq<Uuid>, mem: seq<Junk>, request: Status)
    | EvAddPhysical(id: u16, ps: seq<PhysicalResponder>, grant: nat)
    | EvRemoveStatic(id: u16, uids: seq<Uid>)
    | EvRemoveDynamic(id: u16, rids: seq<Uuid>)
    | EvRemovePhysical(id: u16, uids: seq<Uid>)
    | EvConnect
    | EvDisconnect
    | EvAssign(ms: seq<Mapping>)

  /**
   What callers owe the device: RIDs are never null, and no endpoint id is asked to be removed more
   often than it occurs.
   */
  ghost predicate Legal(s: State, e: Event) {
    match e
    case EvAddVirtuals(configs, _, mems) =>
      |mems| == |configs| && forall i :: 0 <= i < |configs| ==> NULL_RID !in configs[i].rids
    case EvAddPhysicals(configs, _, grants) => |grants| == |configs|
    case EvRemoveEndpoints(ids) => AllPresent(s, ids) ==> Covered(s.endpoints, EndpointId, ids)
    case EvAddDynamic(_, rids, _, _) => NULL_RID !in rids
    case EvRemoveDynamic(_, rids) => NULL_RID !in rids
    case EvAssign(ms) => RealRids(ms)
    case _ => true
  }

  ghost predicate RealRids(ms: seq<Mapping>) {
    forall i :: 0 <= i < |ms| && ms[i].ok ==> ms[i].rid != NULL_RID
  }

  ghost function Step(s: State, e: Event): (r: Outcome)
    requires Legal(s, e)
  {
    match e
    case EvAddVirtuals(configs, room, mems) => AddVirtuals(s, configs, room, mems)
    case EvAddPhysicals(configs, room, grants) => AddPhysicals(s, configs, room, grants)
    case EvRemoveEndpoints(ids) => RemoveEndpoints(s, ids)
    case EvAddStatic(id, uids, mem) => AddStatic(s, id, uids, mem)
    case EvAddDynamic(id, rids, mem, request) => AddDynamic(s, id, rids, mem, request)
    case EvAddPhysical(id, ps, grant) => AddPhysicalTo(s, id, ps, grant)
    case EvRemoveStatic(id, uids) => RemoveUids(s, id, Virtual, uids)
    case EvRemoveDynamic(id, rids) => RemoveDynamic(s, id, rids)
    case EvRemovePhysical(id, uids) => RemoveUids(s, id, Physical, uids)
    case EvConnect => Outcome(Ok, s.(connected := true))
    case EvDisconnect => Outcome(Ok, Disconnected(s))
    case EvAssign(ms) => Outcome(Ok, Assign(s, ms))
  }

  /** `ss` are the states a device goes through under the events `es`. */
  ghost predicate IsRun(ss: seq<State>, es: seq<Event>) {
    && |ss| == |es| + 1
    && forall i {:trigger es[i]} :: 0 <= i < |es| ==> Legal(ss[i], es[i]) && ss[i + 1] == Step(ss[i], es[i]).state
  }

  // ----- what every state keeps

  ghost predicate GoodEndpoint(e: Endpoint) {
    && ValidId(e.id)
    && Sorted(e.cells)
    && (e.kind == Physical ==> forall r :: r in e.cells ==> !IsDynamic(r))
  }

  ghost predicate AllGood(es: seq<Endpoint>) {
    forall i :: 0 <= i < |es| ==> GoodEndpoint(es[i])
  }

  ghost predicate Good(s: State) {
    AllGood(s.endpoints)
  }
}
