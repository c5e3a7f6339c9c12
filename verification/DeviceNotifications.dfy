/**
 The change notifications a device sends are gap-free.
 */
module DeviceNotifications {
  import opened Wire
  import opened Chains
  import opened Responders
  import opened ResponderStore
  import opened Removal
  import opened DeviceSpec
  import opened DeviceInvariants
  import opened DeviceCoherence

  /** The values following `n`, `k` of them. */
  function Consecutive(n: u32, k: nat): (r: seq<u32>)
    ensures |r| == k
    ensures k > 0 ==> r[k - 1] == Advance(n, k)
  {
    if k == 0 then [] else Consecutive(n, k - 1) + [Advance(n, k)]
  }

  lemma {:induction false} ConsecutiveAdds(n: u32, j: nat, k: nat)
    ensures Consecutive(n, j) + Consecutive(Advance(n, j), k) == Consecutive(n, j + k)
  {
    if k > 0 {
      ConsecutiveAdds(n, j, k - 1);
      AdvanceAdds(n, j, k);
    }
  }

  /** The endpoint list numbers among the updates sent. */
  function ListNumbersIn(us: seq<Update>): (r: seq<u32>) {
    if us == [] then []
    else ListNumbersIn(us[..|us| - 1]) + if us[|us| - 1].ListChange? then [us[|us| - 1].number] else []
  }

  /** The change numbers sent for one endpoint. */
  function NumbersIn(us: seq<Update>, id: u16): (r: seq<u32>) {
    if us == [] then []
    else
      var u := us[|us| - 1];
      NumbersIn(us[..|us| - 1], id) + if u.ResponderChange? && u.id == id then [u.number] else []
  }

  lemma {:induction false} ListAppend(us: seq<Update>, u: Update)
    ensures ListNumbersIn(us + [u]) == ListNumbersIn(us) + if u.ListChange? then [u.number] else []
  {
    assert (us + [u])[..|us|] == us;
  }

  lemma {:induction false} NumbersAppend(us: seq<Update>, u: Update, id: u16)
    ensures NumbersIn(us + [u], id) == NumbersIn(us, id) + if u.ResponderChange? && u.id == id then [u.number] else []
  {
    assert (us + [u])[..|us|] == us;
  }

  /** While connected `l` list numbers were sent; otherwise nothing. */
  ghost predicate TellsList(s: State, s': State, l: nat) {
    && (s.connected ==> ListNumbersIn(s'.sent) == ListNumbersIn(s.sent) + Consecutive(s.listNumber, l))
    && (!s.connected ==> s'.sent == s.sent)
  }

  /** While connected `k` numbers following `number` were sent for endpoint `id`. */
  ghost predicate Tells(s: State, s': State, id: u16, number: u32, k: nat) {
    s.connected ==> NumbersIn(s'.sent, id) == NumbersIn(s.sent, id) + Consecutive(number, k)
  }

  lemma {:induction false} ConsecutiveOne(n: u32)
    ensures Consecutive(n, 1) == [Next(n)]
  {
    assert Advance(n, 1) == Next(Advance(n, 0));
    assert Consecutive(n, 1) == Consecutive(n, 0) + [Advance(n, 1)];
  }

  // ----- the endpoint list

  lemma {:induction false} BumpTellsNoList(s: State, j: nat)
    requires j < |s.endpoints|
    ensures TellsList(s, Bump(s, j), 0)
    ensures TellsList(s, Bump(Bump(s, j), j), 0)
  {
    var e := s.endpoints[j];
    var u, v := ResponderChange(e.id, Next(e.number)), ResponderChange(e.id, Next(Next(e.number)));
    ListAppend(s.sent, u);
    ListAppend(s.sent + [u], v);
  }

  lemma {:induction false} BumpListTells(s: State)
    ensures TellsList(s, BumpList(s), 1)
  {
    ListAppend(s.sent, ListChange(Next(s.listNumber)));
    ConsecutiveOne(s.listNumber);
  }

  lemma {:induction false} Associates(a: seq<u32>, b: seq<u32>, c: seq<u32>)
    ensures (a + b) + c == a + (b + c)
  {}

  lemma {:induction false} ListConcat(us: seq<Update>, vs: seq<Update>)
    ensures ListNumbersIn(us + vs) == ListNumbersIn(us) + ListNumbersIn(vs)
  {
    if vs == [] {
      assert us + vs == us;
    } else {
      var n := |vs| - 1;
      ListConcat(us, vs[..n]);
      assert us + vs == (us + vs[..n]) + [vs[n]];
      ListAppend(us + vs[..n], vs[n]);
      assert vs == vs[..n] + [vs[n]];
      ListAppend(vs[..n], vs[n]);
      var last: seq<u32> := if vs[n].ListChange? then [vs[n].number] else [];
      Associates(ListNumbersIn(us), ListNumbersIn(vs[..n]), last);
    }
  }

  lemma {:induction false} NoListNumbers(eps: seq<Endpoint>, marked: seq<bool>, k: nat)
    requires |marked| == |eps| && k <= |eps|
    ensures ListNumbersIn(UpdatesFor(eps, marked, k)) == []
  {
    if k > 0 {
      NoListNumbers(eps, marked, k - 1);
      if marked[k - 1] {
        ListAppend(UpdatesFor(eps, marked, k - 1), ResponderChange(eps[k - 1].id, Next(eps[k - 1].number)));
      } else {
        assert UpdatesFor(eps, marked, k) == UpdatesFor(eps, marked, k - 1);
      }
    }
  }

  lemma {:induction false} RemoveUidsTellsNoList(s: State, id: u16, kind: Kind, uids: seq<Uid>)
    ensures TellsList(s, RemoveUids(s, id, kind, uids).state, 0)
  {
    var t := Locate(s, id, kind, uids == []);
    var o := RemoveFrom(s, t, UidKeys(uids));
    if o.status == Ok {
      BumpTellsNoList(o.state, t.index);
    }
  }

  lemma {:induction false} AddStaticTellsNoList(s: State, id: u16, uids: seq<Uid>, mem: seq<Junk>)
    ensures TellsList(s, AddStatic(s, id, uids, mem).state, 0)
  {
    var t := Locate(s, id, Virtual, uids == []);
    var o := AddTo(s, t, StaticCells(uids, mem), |mem| < |uids|);
    if o.status == Ok {
      BumpTellsNoList(o.state, t.index);
    }
  }

  lemma {:induction false} AddDynamicTellsNoList(s: State, id: u16, rids: seq<Uuid>, mem: seq<Junk>, request: Status)
    ensures TellsList(s, AddDynamic(s, id, rids, mem, request).state, 0)
  {
    ListAppend(s.sent, UidRequest(rids));
  }

  lemma {:induction false} AddPhysicalTellsNoList(s: State, id: u16, ps: seq<PhysicalResponder>, grant: nat)
    ensures TellsList(s, AddPhysicalTo(s, id, ps, grant).state, 0)
  {
    var t := Locate(s, id, Physical, ps == []);
    var o := AddTo(s, t, PhysicalCells(ps, grant), grant < |ps|);
    if o.status == Ok {
      BumpTellsNoList(o.state, t.index);
    }
  }

  lemma {:induction false} RemoveDynamicTellsNoList(s: State, id: u16, rids: seq<Uuid>)
    ensures TellsList(s, RemoveDynamic(s, id, rids).state, 0)
  {
    var t := Locate(s, id, Virtual, rids == []);
    var o := RemoveFrom(s, t, RidKeys(rids));
    if o.status == Ok {
      BumpTellsNoList(o.state, t.index);
    }
  }

  lemma {:induction false} AssignTellsNoList(s: State, ms: seq<Mapping>)
    ensures TellsList(s, Assign(s, ms), 0)
  {
    var hits, k := Hits(s.endpoints, ms), Visited(s.endpoints, ms, 0);
    NoListNumbers(s.endpoints, hits, k);
    ListConcat(s.sent, UpdatesFor(s.endpoints, hits, k));
  }

  /** Every advance of the list's number is sent while connected, and nothing is sent while disconnected. */
  lemma {:induction false} StepTellsList(s: State, e: Event)
    requires Legal(s, e)
    ensures TellsList(s, Step(s, e).state, ListTicks(s, e))
  {
    match e
    case EvAddVirtuals(configs, _, mems) => BumpListTells(Append(s, true, NewVirtuals(s.manu, configs, mems)));
    case EvAddPhysicals(configs, _, grants) => BumpListTells(Append(s, true, NewPhysicals(configs, grants)));
    case EvRemoveEndpoints(ids) => BumpListTells(s.(endpoints := RemoveFirsts(s.endpoints, EndpointId, ids)));
    case EvAddStatic(id, uids, mem) => AddStaticTellsNoList(s, id, uids, mem);
    case EvAddDynamic(id, rids, mem, request) => AddDynamicTellsNoList(s, id, rids, mem, request);
    case EvAddPhysical(id, ps, grant) => AddPhysicalTellsNoList(s, id, ps, grant);
    case EvRemoveStatic(id, uids) => RemoveUidsTellsNoList(s, id, Virtual, uids);
    case EvRemoveDynamic(id, rids) => RemoveDynamicTellsNoList(s, id, rids);
    case EvRemovePhysical(id, uids) => RemoveUidsTellsNoList(s, id, Physical, uids);
    case EvAssign(ms) => AssignTellsNoList(s, ms);
    case _ =>
  }

  // ----- one endpoint

  /**
   Endpoint `i` is the one a lookup of `id` finds, and no other endpoint with the id has a dynamic responder.
   Calls reach only the first endpoint with an id; assignments can reach every one.
   */
  ghost predicate Heard(s: State, id: u16, i: nat) {
    && FindEndpoint(s, id) == Some(i)
    && forall j :: 0 <= j < |s.endpoints| && j != i && s.endpoints[j].id == id ==> NoneDynamic(s.endpoints[j].cells)
  }

  lemma {:induction false} BumpTells(s: State, j: nat, id: u16, number: u32)
    requires j < |s.endpoints| && (s.endpoints[j].id == id ==> s.endpoints[j].number == number)
    ensures Tells(s, Bump(s, j), id, number, if s.endpoints[j].id == id then 1 else 0)
  {
    var e := s.endpoints[j];
    NumbersAppend(s.sent, ResponderChange(e.id, Next(e.number)), id);
    ConsecutiveOne(number);
  }

  lemma {:induction false} BumpTwiceTells(s: State, j: nat, id: u16, number: u32)
    requires j < |s.endpoints| && (s.endpoints[j].id == id ==> s.endpoints[j].number == number)
    ensures Tells(s, Bump(Bump(s, j), j), id, number, if s.endpoints[j].id == id then 2 else 0)
  {
    BumpTells(s, j, id, number);
    BumpTells(Bump(s, j), j, id, Next(number));
    if s.endpoints[j].id == id {
      ConsecutiveAdds(number, 1, 1);
      assert Advance(number, 1) == Next(Advance(number, 0));
    }
  }

  lemma {:induction false} NumbersConcat(us: seq<Update>, vs: seq<Update>, id: u16)
    ensures NumbersIn(us + vs, id) == NumbersIn(us, id) + NumbersIn(vs, id)
  {
    if vs == [] {
      assert us + vs == us;
    } else {
      var n := |vs| - 1;
      NumbersConcat(us, vs[..n], id);
      assert us + vs == (us + vs[..n]) + [vs[n]];
      NumbersAppend(us + vs[..n], vs[n], id);
      assert vs == vs[..n] + [vs[n]];
      NumbersAppend(vs[..n], vs[n], id);
      var last: seq<u32> := if vs[n].ResponderChange? && vs[n].id == id then [vs[n].number] else [];
      Associates(NumbersIn(us, id), NumbersIn(vs[..n], id), last);
    }
  }

  lemma {:induction false} NextUpdateTells(eps: seq<Endpoint>, marked: seq<bool>, k: nat, id: u16)
    requires |marked| == |eps| && 0 < k <= |eps|
    ensures NumbersIn(UpdatesFor(eps, marked, k), id)
         == if marked[k - 1] && eps[k - 1].id == id
            then NumbersIn(UpdatesFor(eps, marked, k - 1), id) + [Next(eps[k - 1].number)]
            else NumbersIn(UpdatesFor(eps, marked, k - 1), id)
  {
    var us := UpdatesFor(eps, marked, k - 1);
    if marked[k - 1] {
      NumbersAppend(us, ResponderChange(eps[k - 1].id, Next(eps[k - 1].number)), id);
      assert NumbersIn(us, id) + [] == NumbersIn(us, id);
    } else {
      assert us + [] == us;
    }
  }

  lemma {:induction false} NoneTold(eps: seq<Endpoint>, marked: seq<bool>, k: nat, id: u16)
    requires |marked| == |eps| && k <= |eps|
    requires forall j :: 0 <= j < k && marked[j] ==> eps[j].id != id
    ensures NumbersIn(UpdatesFor(eps, marked, k), id) == []
  {
    if k > 0 {
      NoneTold(eps, marked, k - 1, id);
      NextUpdateTells(eps, marked, k, id);
    }
  }

  lemma {:induction false} OneTold(eps: seq<Endpoint>, marked: seq<bool>, k: nat, id: u16, i: nat)
    requires |marked| == |eps| && i < k <= |eps| && marked[i] && eps[i].id == id
    requires forall j :: 0 <= j < k && marked[j] && eps[j].id == id ==> j == i
    ensures NumbersIn(UpdatesFor(eps, marked, k), id) == [Next(eps[i].number)]
  {
    NextUpdateTells(eps, marked, k, id);
    if k - 1 == i {
      NoneTold(eps, marked, i, id);
    } else {
      OneTold(eps, marked, k - 1, id, i);
    }
  }

  lemma {:induction false} UpdatesForTell(eps: seq<Endpoint>, marked: seq<bool>, k: nat, id: u16, i: nat)
    requires |marked| == |eps| && i < |eps| && k <= |eps|
    requires eps[i].id == id && forall j :: 0 <= j < k && eps[j].id == id && marked[j] ==> j == i
    ensures NumbersIn(UpdatesFor(eps, marked, k), id) == if i < k && marked[i] then [Next(eps[i].number)] else []
  {
    if i < k && marked[i] {
      OneTold(eps, marked, k, id, i);
    } else {
      NoneTold(eps, marked, k, id);
    }
  }

  lemma {:induction false} SentUpdatesTell(eps: seq<Endpoint>, marked: seq<bool>, k: nat, id: u16, i: nat, us: seq<Update>)
    requires |marked| == |eps| && i < |eps| && k <= |eps|
    requires eps[i].id == id && forall j :: 0 <= j < k && eps[j].id == id && marked[j] ==> j == i
    ensures NumbersIn(us + UpdatesFor(eps, marked, k), id)
         == NumbersIn(us, id) + Consecutive(eps[i].number, if i < k && marked[i] then 1 else 0)
  {
    UpdatesForTell(eps, marked, k, id, i);
    NumbersConcat(us, UpdatesFor(eps, marked, k), id);
    ConsecutiveOne(eps[i].number);
  }

  lemma {:induction false} AssignTells(s: State, ms: seq<Mapping>, id: u16, i: nat)
    requires Heard(s, id, i) && RealRids(ms)
    ensures Tells(s, Assign(s, ms), id, s.endpoints[i].number, Ticks(s, EvAssign(ms), i))
  {
    var eps := s.endpoints;
    forall j | 0 <= j < |eps| && eps[j].id == id && j != i ensures !Hits(eps, ms)[j] {
      NoneDynamicNoMatch(eps[j], ms);
    }
    SentUpdatesTell(eps, Hits(eps, ms), Visited(eps, ms, 0), id, i, s.sent);
  }

  lemma {:induction false} AddStaticTells(s: State, id: u16, uids: seq<Uid>, mem: seq<Junk>, of: u16, i: nat)
    requires Heard(s, of, i)
    ensures Tells(s, AddStatic(s, id, uids, mem).state, of, s.endpoints[i].number,
                  Ticks(s, EvAddStatic(id, uids, mem), i))
  {
    var t := Locate(s, id, Virtual, uids == []);
    var o := AddTo(s, t, StaticCells(uids, mem), |mem| < |uids|);
    if o.status == Ok {
      BumpTells(o.state, t.index, of, s.endpoints[i].number);
    }
  }

  lemma {:induction false} AddPhysicalTells(s: State, id: u16, ps: seq<PhysicalResponder>, grant: nat, of: u16, i: nat)
    requires Heard(s, of, i)
    ensures Tells(s, AddPhysicalTo(s, id, ps, grant).state, of, s.endpoints[i].number,
                  Ticks(s, EvAddPhysical(id, ps, grant), i))
  {
    var t := Locate(s, id, Physical, ps == []);
    var o := AddTo(s, t, PhysicalCells(ps, grant), grant < |ps|);
    if o.status == Ok {
      BumpTells(o.state, t.index, of, s.endpoints[i].number);
    }
  }

  lemma {:induction false} RemoveUidsTells(s: State, id: u16, kind: Kind, uids: seq<Uid>, of: u16, i: nat)
    requires Heard(s, of, i)
    ensures var o := RemoveUids(s, id, kind, uids);
            Tells(s, o.state, of, s.endpoints[i].number,
                  TicksAt(o, Locate(s, id, kind, uids == []), i, if s.connected then 2 else 1))
  {
    var t := Locate(s, id, kind, uids == []);
    var o := RemoveFrom(s, t, UidKeys(uids));
    if o.status == Ok && s.connected {
      BumpTwiceTells(o.state, t.index, of, s.endpoints[i].number);
    }
  }

  lemma {:induction false} RemoveDynamicTells(s: State, id: u16, rids: seq<Uuid>, of: u16, i: nat)
    requires Heard(s, of, i)
    ensures Tells(s, RemoveDynamic(s, id, rids).state, of, s.endpoints[i].number,
                  Ticks(s, EvRemoveDynamic(id, rids), i))
  {
    var t := Locate(s, id, Virtual, rids == []);
    var o := RemoveFrom(s, t, RidKeys(rids));
    if o.status == Ok {
      BumpTells(o.state, t.index, of, s.endpoints[i].number);
    }
  }

  lemma {:induction false} AddDynamicTells(s: State, id: u16, rids: seq<Uuid>, mem: seq<Junk>, request: Status, of: u16, i: nat)
    requires NULL_RID !in rids && Heard(s, of, i)
    ensures Tells(s, AddDynamic(s, id, rids, mem, request).state, of, s.endpoints[i].number, 0)
  {
    NumbersAppend(s.sent, UidRequest(rids), of);
  }

  lemma {:induction false} EndpointCallSends(s: State, e: Event)
    requires Legal(s, e) && (e.EvAddVirtuals? || e.EvAddPhysicals? || e.EvRemoveEndpoints?)
    ensures var t := Step(s, e).state;
            t.sent == s.sent || (s.connected && t.sent == s.sent + [ListChange(Next(s.listNumber))])
  {}

  lemma {:induction false} EndpointCallTells(s: State, e: Event, id: u16, i: nat)
    requires Legal(s, e) && Heard(s, id, i)
    requires e.EvAddVirtuals? || e.EvAddPhysicals? || e.EvRemoveEndpoints?
    ensures Tells(s, Step(s, e).state, id, s.endpoints[i].number, 0)
  {
    EndpointCallSends(s, e);
    NumbersAppend(s.sent, ListChange(Next(s.listNumber)), id);
    assert NumbersIn(Step(s, e).state.sent, id) == NumbersIn(s.sent, id) + Consecutive(s.endpoints[i].number, 0);
  }

  /** While connected every advance of an endpoint's number is sent, in order. */
  lemma {:induction false} StepTells(s: State, e: Event, id: u16, i: nat)
    requires Legal(s, e) && Heard(s, id, i)
    ensures Tells(s, Step(s, e).state, id, s.endpoints[i].number, Ticks(s, e, i))
  {
    match e
    case EvAddStatic(at, uids, mem) => AddStaticTells(s, at, uids, mem, id, i);
    case EvAddDynamic(at, rids, mem, request) => AddDynamicTells(s, at, rids, mem, request, id, i);
    case EvAddPhysical(at, ps, grant) => AddPhysicalTells(s, at, ps, grant, id, i);
    case EvRemoveStatic(at, uids) => RemoveUidsTells(s, at, Virtual, uids, id, i);
    case EvRemoveDynamic(at, rids) => RemoveDynamicTells(s, at, rids, id, i);
    case EvRemovePhysical(at, uids) => RemoveUidsTells(s, at, Physical, uids, id, i);
    case EvAssign(ms) => AssignTells(s, ms, id, i);
    case EvConnect =>
    case EvDisconnect =>
    case _ => EndpointCallTells(s, e, id, i);
  }

  // ----- runs

  lemma {:induction false} StepConnected(s: State, e: Event)
    requires Legal(s, e) && s.connected && !e.EvDisconnect?
    ensures Step(s, e).state.connected
  {}

  lemma {:induction false} StaysConnected(ss: seq<State>, es: seq<Event>, n: nat)
    requires IsRun(ss, es) && NoDisconnect(es) && ss[0].connected && n <= |es|
    ensures ss[n].connected
  {
    if n > 0 {
      StaysConnected(ss, es, n - 1);
      StepConnected(ss[n - 1], es[n - 1]);
    }
  }

  /** Logs that grow by consecutive numbers in every step grow by consecutive numbers overall. */
  lemma {:induction false} ConsecutiveLogs(logs: seq<seq<u32>>, numbers: seq<u32>, ticks: seq<nat>)
    requires |logs| == |numbers| == |ticks| + 1
    requires forall k :: 0 <= k < |ticks| ==> logs[k + 1] == logs[k] + Consecutive(numbers[k], ticks[k])
    requires forall k :: 0 <= k < |ticks| ==> numbers[k + 1] == Advance(numbers[k], ticks[k])
    ensures logs[|ticks|] == logs[0] + Consecutive(numbers[0], Sum(ticks))
    ensures numbers[|ticks|] == Advance(numbers[0], Sum(ticks))
  {
    AdvancesAddUp(numbers, ticks);
    if ticks != [] {
      var n := |ticks| - 1;
      ConsecutiveLogs(logs[..n + 1], numbers[..n + 1], ticks[..n]);
      ConsecutiveAdds(numbers[0], Sum(ticks[..n]), ticks[n]);
    }
  }

  lemma {:induction false} ListLogsAddUp(ss: seq<State>, ticks: seq<nat>)
    requires |ss| == |ticks| + 1
    requires forall k :: 0 <= k < |ticks| ==>
               && ListNumbersIn(ss[k + 1].sent) == ListNumbersIn(ss[k].sent) + Consecutive(ss[k].listNumber, ticks[k])
               && ss[k + 1].listNumber == Advance(ss[k].listNumber, ticks[k])
    ensures ListNumbersIn(ss[|ticks|].sent) == ListNumbersIn(ss[0].sent) + Consecutive(ss[0].listNumber, Sum(ticks))
    ensures ss[|ticks|].listNumber == Advance(ss[0].listNumber, Sum(ticks))
  {
    var logs := seq(|ss|, k requires 0 <= k < |ss| => ListNumbersIn(ss[k].sent));
    ConsecutiveLogs(logs, ListNumbers(ss), ticks);
  }

  lemma {:induction false} ListLogStep(ss: seq<State>, es: seq<Event>, k: nat)
    requires IsRun(ss, es) && NoDisconnect(es) && ss[0].connected && k < |es|
    ensures ListNumbersIn(ss[k + 1].sent)
         == ListNumbersIn(ss[k].sent) + Consecutive(ss[k].listNumber, ListTicksOf(ss, es)[k])
    ensures ss[k + 1].listNumber == Advance(ss[k].listNumber, ListTicksOf(ss, es)[k])
  {
    StaysConnected(ss, es, k);
    StepTellsList(ss[k], es[k]);
    StepList(ss[k], es[k]);
  }

  /**
   Gap-free list notifications: through a connected session the list numbers sent are consecutive modulo
   2^32, one per change, and the last one sent is the number stored.
   */
  lemma {:induction false} ListNotificationsAreGapFree(ss: seq<State>, es: seq<Event>)
    requires IsRun(ss, es) && NoDisconnect(es) && ss[0].connected
    ensures var total := Sum(ListTicksOf(ss, es));
            && ListNumbersIn(ss[|es|].sent) == ListNumbersIn(ss[0].sent) + Consecutive(ss[0].listNumber, total)
            && ss[|es|].listNumber == Advance(ss[0].listNumber, total)
  {
    var ticks := ListTicksOf(ss, es);
    forall k | 0 <= k < |ticks|
      ensures ListNumbersIn(ss[k + 1].sent) == ListNumbersIn(ss[k].sent) + Consecutive(ss[k].listNumber, ticks[k])
      ensures ss[k + 1].listNumber == Advance(ss[k].listNumber, ticks[k])
    {
      ListLogStep(ss, es, k);
    }
    ListLogsAddUp(ss, ticks);
  }

  lemma {:induction false} AssignKeepsNoneDynamic(s: State, ms: seq<Mapping>, j: nat)
    requires j < |s.endpoints| && NoneDynamic(s.endpoints[j].cells)
    ensures NoneDynamic(Assign(s, ms).endpoints[j].cells)
  {
    var cells := s.endpoints[j].cells;
    forall n | 0 <= n < |cells| ensures !IsDynamic(Assigned(cells, ms, |ms|)[n]) {
      assert cells[n] in cells;
    }
  }

  lemma {:induction false} AddPassesBy(s: State, e: Event, j: nat)
    requires Legal(s, e) && j < |s.endpoints| && FindEndpoint(s, s.endpoints[j].id) != Some(j)
    requires e.EvAddStatic? || e.EvAddDynamic? || e.EvAddPhysical?
    ensures |Step(s, e).state.endpoints| == |s.endpoints| && Step(s, e).state.endpoints[j] == s.endpoints[j]
  {}

  lemma {:induction false} RemovePassesBy(s: State, e: Event, j: nat)
    requires Legal(s, e) && j < |s.endpoints| && FindEndpoint(s, s.endpoints[j].id) != Some(j)
    requires e.EvRemoveStatic? || e.EvRemoveDynamic? || e.EvRemovePhysical?
    ensures |Step(s, e).state.endpoints| == |s.endpoints| && Step(s, e).state.endpoints[j] == s.endpoints[j]
  {}

  /** Calls do not reach an endpoint behind the first with its id, and assignments give it no dynamic responder. */
  lemma {:induction false} StepKeepsNoneDynamic(s: State, e: Event, j: nat)
    requires Legal(s, e) && ListTicks(s, e) == 0 && !e.EvDisconnect?
    requires j < |s.endpoints| && FindEndpoint(s, s.endpoints[j].id) != Some(j) && NoneDynamic(s.endpoints[j].cells)
    ensures |Step(s, e).state.endpoints| == |s.endpoints|
    ensures NoneDynamic(Step(s, e).state.endpoints[j].cells)
  {
    match e
    case EvAssign(ms) => AssignKeepsNoneDynamic(s, ms, j);
    case EvAddStatic(_, _, _) => AddPassesBy(s, e, j);
    case EvAddDynamic(_, _, _, _) => AddPassesBy(s, e, j);
    case EvAddPhysical(_, _, _) => AddPassesBy(s, e, j);
    case EvRemoveStatic(_, _) => RemovePassesBy(s, e, j);
    case EvRemoveDynamic(_, _) => RemovePassesBy(s, e, j);
    case EvRemovePhysical(_, _) => RemovePassesBy(s, e, j);
    case _ =>
  }

  lemma {:induction false} StepKeepsHeard(s: State, e: Event, id: u16, i: nat)
    requires Legal(s, e) && ListTicks(s, e) == 0 && !e.EvDisconnect? && Heard(s, id, i)
    ensures Heard(Step(s, e).state, id, i)
  {
    var t := Step(s, e).state;
    StepSameList(s, e);
    SameListSameLookup(s, t, id);
    forall j | 0 <= j < |t.endpoints| && j != i && t.endpoints[j].id == id ensures NoneDynamic(t.endpoints[j].cells) {
      StepKeepsNoneDynamic(s, e, j);
    }
  }

  lemma {:induction false} HeardStays(ss: seq<State>, es: seq<Event>, id: u16, i: nat, k: nat)
    requires IsRun(ss, es) && Quiet(ss, es) && NoDisconnect(es) && k <= |es| && Heard(ss[0], id, i)
    ensures Heard(ss[k], id, i)
  {
    if k > 0 {
      HeardStays(ss, es, id, i, k - 1);
      StepKeepsHeard(ss[k - 1], es[k - 1], id, i);
    }
  }

  lemma {:induction false} HeardStep(ss: seq<State>, es: seq<Event>, id: u16, i: nat, k: nat)
    requires IsRun(ss, es) && Quiet(ss, es) && NoDisconnect(es) && ss[0].connected && k < |es|
    requires Heard(ss[0], id, i)
    ensures i < |ss[k].endpoints| && i < |ss[k + 1].endpoints|
    ensures ss[k + 1].endpoints[i].number == Advance(ss[k].endpoints[i].number, TicksOf(ss, es, id)[k])
    ensures NumbersIn(ss[k + 1].sent, id)
         == NumbersIn(ss[k].sent, id) + Consecutive(ss[k].endpoints[i].number, TicksOf(ss, es, id)[k])
  {
    HeardStays(ss, es, id, i, k);
    StaysConnected(ss, es, k);
    QuietStepFollows(ss, es, id, i, k);
    StepTells(ss[k], es[k], id, i);
  }

  lemma {:induction false} LogsAddUp(ss: seq<State>, id: u16, i: nat, ticks: seq<nat>)
    requires |ss| == |ticks| + 1 && HasIndex(ss, i)
    requires forall k :: 0 <= k < |ticks| ==>
               && NumbersIn(ss[k + 1].sent, id)
                  == NumbersIn(ss[k].sent, id) + Consecutive(ss[k].endpoints[i].number, ticks[k])
               && ss[k + 1].endpoints[i].number == Advance(ss[k].endpoints[i].number, ticks[k])
    ensures NumbersIn(ss[|ticks|].sent, id)
         == NumbersIn(ss[0].sent, id) + Consecutive(ss[0].endpoints[i].number, Sum(ticks))
    ensures ss[|ticks|].endpoints[i].number == Advance(ss[0].endpoints[i].number, Sum(ticks))
  {
    var logs := seq(|ss|, k requires 0 <= k < |ss| => NumbersIn(ss[k].sent, id));
    var numbers := seq(|ss|, k requires 0 <= k < |ss| => ss[k].endpoints[i].number);
    ConsecutiveLogs(logs, numbers, ticks);
  }

  /**
   Gap-free responder notifications: through a connected session, between endpoint list changes, the
   numbers sent for an endpoint are consecutive modulo 2^32, including both steps of a removal by UID,
   and the last one sent is the number stored.
   */
  lemma {:induction false} ResponderNotificationsAreGapFree(ss: seq<State>, es: seq<Event>, id: u16, i: nat)
    requires IsRun(ss, es) && NoDisconnect(es) && ss[0].connected && Quiet(ss, es)
    requires Heard(ss[0], id, i)
    ensures Heard(ss[|es|], id, i)
    ensures var total := Sum(TicksOf(ss, es, id));
            var start := ss[0].endpoints[i].number;
            && NumbersIn(ss[|es|].sent, id) == NumbersIn(ss[0].sent, id) + Consecutive(start, total)
            && ss[|es|].endpoints[i].number == Advance(start, total)
  {
    forall k | 0 <= k < |ss| ensures i < |ss[k].endpoints| {
      HeardStays(ss, es, id, i, k);
    }
    HeardStays(ss, es, id, i, |es|);
    var ticks := TicksOf(ss, es, id);
    forall k | 0 <= k < |ticks|
      ensures NumbersIn(ss[k + 1].sent, id)
           == NumbersIn(ss[k].sent, id) + Consecutive(ss[k].endpoints[i].number, ticks[k])
      ensures ss[k + 1].endpoints[i].number == Advance(ss[k].endpoints[i].number, ticks[k])
    {
      HeardStep(ss, es, id, i, k);
    }
    LogsAddUp(ss, id, i, ticks);
  }
}
