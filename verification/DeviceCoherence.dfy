/**
 What a controller may conclude from change numbers.
 */
module DeviceCoherence {
  import opened Wire
  import opened Rdm
  import opened Chains
  import opened Responders
  import opened ResponderStore
  import opened DeviceSpec
  import opened DeviceReplies

  /** How often an event advances the endpoint list's number. */
  ghost function ListTicks(s: State, e: Event): (k: nat)
    requires Legal(s, e)
  {
    if (e.EvAddVirtuals? || e.EvAddPhysicals? || e.EvRemoveEndpoints?) && Step(s, e).status == Ok then 1 else 0
  }

  ghost function TicksAt(o: Outcome, t: Target, i: nat, k: nat): (n: nat) {
    if t == At(i) && o.status == Ok then k else 0
  }

  /** How often an event advances the number of the endpoint at index `i`. */
  ghost function Ticks(s: State, e: Event, i: nat): (k: nat)
    requires i < |s.endpoints|
  {
    match e
    case EvAddStatic(id, uids, mem) => TicksAt(AddStatic(s, id, uids, mem), Locate(s, id, Virtual, uids == []), i, 1)
    case EvAddPhysical(id, ps, grant) =>
      TicksAt(AddPhysicalTo(s, id, ps, grant), Locate(s, id, Physical, ps == []), i, 1)
    case EvRemoveStatic(id, uids) =>
      TicksAt(RemoveUids(s, id, Virtual, uids), Locate(s, id, Virtual, uids == []), i, if s.connected then 2 else 1)
    case EvRemovePhysical(id, uids) =>
      TicksAt(RemoveUids(s, id, Physical, uids), Locate(s, id, Physical, uids == []), i, if s.connected then 2 else 1)
    case EvRemoveDynamic(id, rids) =>
      TicksAt(RemoveDynamic(s, id, rids), Locate(s, id, Virtual, rids == []), i, 1)
    case EvAssign(ms) => if i < Visited(s.endpoints, ms, 0) && MatchesOn(s.endpoints[i], ms) > 0 then 1 else 0
    case _ => 0
  }

  // ----- one event

  lemma {:induction false} VisibleConcat(a: seq<Responder>, b: seq<Responder>)
    ensures Visible(a + b) == Visible(a) + Visible(b)
  {
    if b == [] {
      assert a + b == a;
    } else {
      var n := |b| - 1;
      assert a + b == (a + b[..n]) + [b[n]];
      assert b == b[..n] + [b[n]];
      VisibleConcat(a, b[..n]);
      VisibleAppend(a + b[..n], b[n]);
      VisibleAppend(b[..n], b[n]);
    }
  }

  lemma {:induction false} WaitingStaysHidden(cells: seq<Responder>, r: Responder)
    requires IsDynamicUidRequest(r.uid)
    ensures Visible(InsertSorted(cells, r)) == Visible(cells)
  {
    if cells == [] || Compare(r, cells[0]) < 0 {
      VisibleConcat([r], cells);
      assert Visible([r]) == [];
    } else {
      WaitingStaysHidden(cells[1..], r);
      VisibleConcat([cells[0]], cells[1..]);
      VisibleConcat([cells[0]], InsertSorted(cells[1..], r));
      assert [cells[0]] + cells[1..] == cells;
    }
  }

  ghost predicate AllRequests(news: seq<Responder>) {
    forall i :: 0 <= i < |news| ==> IsDynamicUidRequest(news[i].uid)
  }

  lemma {:induction false} WaitingBatchStaysHidden(cells: seq<Responder>, news: seq<Responder>, n: nat)
    requires n <= |news| && AllRequests(news)
    ensures Visible(InsertFirst(cells, news, n)) == Visible(cells)
  {
    if n > 0 {
      WaitingBatchStaysHidden(cells, news, n - 1);
      var before, r := InsertFirst(cells, news, n - 1), news[n - 1];
      WaitingStaysHidden(before, r);
    }
  }

  /** A pair of endpoints as one event may leave them without touching the endpoint list. */
  ghost predicate Follows(a: Endpoint, b: Endpoint, ticks: nat, hides: bool) {
    && b.id == a.id && b.kind == a.kind
    && b.number == Advance(a.number, ticks)
    && (ticks == 0 && !hides ==> Visible(b.cells) == Visible(a.cells))
  }

  lemma {:induction false} FollowsTransitive(a: Endpoint, b: Endpoint, c: Endpoint, j: nat, k: nat, hides: bool, hides': bool)
    requires Follows(a, b, j, hides) && Follows(b, c, k, hides')
    ensures Follows(a, c, j + k, hides || hides')
  {
    AdvanceAdds(a.number, j, k);
  }

  lemma {:induction false} AddDynamicFollows(s: State, id: u16, rids: seq<Uuid>, mem: seq<Junk>, request: Status, i: nat)
    requires i < |s.endpoints|
    ensures |AddDynamic(s, id, rids, mem, request).state.endpoints| == |s.endpoints|
    ensures Follows(s.endpoints[i], AddDynamic(s, id, rids, mem, request).state.endpoints[i], 0, false)
  {
    var t := Locate(s, id, Virtual, rids == []);
    if t == At(i) {
      var news := DynamicCells(s.manu, rids, mem);
      WaitingBatchStaysHidden(s.endpoints[i].cells, news, |news|);
    }
  }

  lemma {:induction false} BumpTwice(s: State, i: nat)
    requires i < |s.endpoints|
    ensures Bump(Bump(s, i), i).endpoints[i].number == Advance(s.endpoints[i].number, 2)
  {
    assert Advance(s.endpoints[i].number, 2) == Next(Advance(s.endpoints[i].number, 1));
  }

  lemma {:induction false} RemoveUidsFollows(s: State, id: u16, kind: Kind, uids: seq<Uid>, i: nat)
    requires i < |s.endpoints|
    ensures var o := RemoveUids(s, id, kind, uids);
            var ticks := TicksAt(o, Locate(s, id, kind, uids == []), i, if s.connected then 2 else 1);
            |o.state.endpoints| == |s.endpoints| && Follows(s.endpoints[i], o.state.endpoints[i], ticks, false)
  {
    var t := Locate(s, id, kind, uids == []);
    if t.At? {
      BumpTwice(RemoveFrom(s, t, UidKeys(uids)).state, t.index);
    }
  }

  lemma {:induction false} AssignFollows(s: State, ms: seq<Mapping>, i: nat)
    requires i < |s.endpoints|
    ensures Follows(s.endpoints[i], Assign(s, ms).endpoints[i], Ticks(s, EvAssign(ms), i), false)
  {
  }

  lemma {:induction false} AddStaticFollows(s: State, id: u16, uids: seq<Uid>, mem: seq<Junk>, i: nat)
    requires i < |s.endpoints|
    ensures var o := AddStatic(s, id, uids, mem);
            var ticks := TicksAt(o, Locate(s, id, Virtual, uids == []), i, 1);
            |o.state.endpoints| == |s.endpoints| && Follows(s.endpoints[i], o.state.endpoints[i], ticks, false)
  {
  }

  lemma {:induction false} AddPhysicalFollows(s: State, id: u16, ps: seq<PhysicalResponder>, grant: nat, i: nat)
    requires i < |s.endpoints|
    ensures var o := AddPhysicalTo(s, id, ps, grant);
            var ticks := TicksAt(o, Locate(s, id, Physical, ps == []), i, 1);
            |o.state.endpoints| == |s.endpoints| && Follows(s.endpoints[i], o.state.endpoints[i], ticks, false)
  {
  }

  lemma {:induction false} RemoveDynamicFollows(s: State, id: u16, rids: seq<Uuid>, i: nat)
    requires i < |s.endpoints|
    ensures var o := RemoveDynamic(s, id, rids);
            var ticks := TicksAt(o, Locate(s, id, Virtual, rids == []), i, 1);
            |o.state.endpoints| == |s.endpoints| && Follows(s.endpoints[i], o.state.endpoints[i], ticks, false)
  {
  }

  /** An event that leaves the list's number alone leaves the list alone, and moves each number by its ticks. */
  lemma {:induction false} StepFollows(s: State, e: Event, i: nat)
    requires Legal(s, e) && ListTicks(s, e) == 0 && i < |s.endpoints|
    ensures |Step(s, e).state.endpoints| == |s.endpoints|
    ensures Follows(s.endpoints[i], Step(s, e).state.endpoints[i], Ticks(s, e, i), e.EvDisconnect?)
  {
    match e
    case EvAddStatic(id, uids, mem) => AddStaticFollows(s, id, uids, mem, i);
    case EvAddDynamic(id, rids, mem, request) => AddDynamicFollows(s, id, rids, mem, request, i);
    case EvAddPhysical(id, ps, grant) => AddPhysicalFollows(s, id, ps, grant, i);
    case EvRemoveStatic(id, uids) => RemoveUidsFollows(s, id, Virtual, uids, i);
    case EvRemoveDynamic(id, rids) => RemoveDynamicFollows(s, id, rids, i);
    case EvRemovePhysical(id, uids) => RemoveUidsFollows(s, id, Physical, uids, i);
    case EvAssign(ms) => AssignFollows(s, ms, i);
    case _ =>
  }

  lemma {:induction false} StepListNumber(s: State, e: Event)
    requires Legal(s, e)
    ensures Step(s, e).state.listNumber == Advance(s.listNumber, ListTicks(s, e))
  {}

  lemma {:induction false} StepListLength(s: State, e: Event)
    requires Legal(s, e) && ListTicks(s, e) == 0
    ensures |Step(s, e).state.endpoints| == |s.endpoints|
  {}

  lemma {:induction false} StepList(s: State, e: Event)
    requires Legal(s, e)
    ensures Step(s, e).state.listNumber == Advance(s.listNumber, ListTicks(s, e))
    ensures ListTicks(s, e) == 0 ==> |Step(s, e).state.endpoints| == |s.endpoints|
  {
    StepListNumber(s, e);
    if ListTicks(s, e) == 0 {
      StepListLength(s, e);
    }
  }

  // ----- runs

  ghost predicate SameList(a: State, b: State) {
    && |a.endpoints| == |b.endpoints|
    && forall i :: 0 <= i < |a.endpoints| ==>
         a.endpoints[i].id == b.endpoints[i].id && a.endpoints[i].kind == b.endpoints[i].kind
  }

  lemma {:induction false} SameListSameLookup(a: State, b: State, id: u16)
    requires SameList(a, b)
    ensures FindEndpoint(a, id) == FindEndpoint(b, id)
  {
    var i, j := FindEndpoint(a, id), FindEndpoint(b, id);
    if i.Some? {
      assert EndpointId(b.endpoints[i.value]) == id;
    }
    if j.Some? {
      assert EndpointId(a.endpoints[j.value]) == id;
    }
  }

  lemma {:induction false} StepSameList(s: State, e: Event)
    requires Legal(s, e) && ListTicks(s, e) == 0
    ensures SameList(s, Step(s, e).state)
  {
    StepList(s, e);
    forall i | 0 <= i < |s.endpoints|
      ensures Step(s, e).state.endpoints[i].id == s.endpoints[i].id
           && Step(s, e).state.endpoints[i].kind == s.endpoints[i].kind
    {
      StepFollows(s, e, i);
    }
  }

  ghost function ListTicksOf(ss: seq<State>, es: seq<Event>): (r: seq<nat>)
    requires IsRun(ss, es)
    ensures |r| == |es|
  {
    seq(|es|, k requires 0 <= k < |es| => ListTicks(ss[k], es[k]))
  }

  /** The ticks of the endpoint a lookup of `id` finds. */
  ghost function TicksFound(s: State, e: Event, id: u16): (k: nat) {
    var at := FindEndpoint(s, id);
    if at.Some? then Ticks(s, e, at.value) else 0
  }

  ghost function TicksOf(ss: seq<State>, es: seq<Event>, id: u16): (r: seq<nat>)
    requires |ss| == |es| + 1
    ensures |r| == |es|
  {
    seq(|es|, k requires 0 <= k < |es| => TicksFound(ss[k], es[k], id))
  }

  ghost function ListNumbers(ss: seq<State>): (r: seq<u32>)
    ensures |r| == |ss|
  {
    seq(|ss|, k requires 0 <= k < |ss| => ss[k].listNumber)
  }

  /** A stretch of a run is a run, so what holds from the first to the last state holds between any two. */
  lemma {:induction false} StretchIsRun(ss: seq<State>, es: seq<Event>, a: nat, b: nat)
    requires IsRun(ss, es) && a <= b <= |es|
    ensures IsRun(ss[a..b + 1], es[a..b])
  {
    forall k | 0 <= k < b - a
      ensures Legal(ss[a..b + 1][k], es[a..b][k]) && ss[a..b + 1][k + 1] == Step(ss[a..b + 1][k], es[a..b][k]).state
    {
      assert es[a..b][k] == es[a + k];
    }
  }

  /** The list's number shows how often the list has changed. */
  lemma {:induction false} ListNumberCounts(ss: seq<State>, es: seq<Event>)
    requires IsRun(ss, es)
    ensures ss[|es|].listNumber == Advance(ss[0].listNumber, Sum(ListTicksOf(ss, es)))
  {
    var numbers, ticks := ListNumbers(ss), ListTicksOf(ss, es);
    forall k | 0 <= k < |es| ensures numbers[k + 1] == Advance(numbers[k], ticks[k]) {
      StepList(ss[k], es[k]);
    }
    AdvancesAddUp(numbers, ticks);
  }

  ghost predicate Quiet(ss: seq<State>, es: seq<Event>)
    requires IsRun(ss, es)
  {
    forall k {:trigger es[k]} :: 0 <= k < |es| ==> ListTicks(ss[k], es[k]) == 0
  }

  lemma {:induction false} QuietListStaysSame(ss: seq<State>, es: seq<Event>, n: nat)
    requires IsRun(ss, es) && Quiet(ss, es) && n <= |es|
    ensures SameList(ss[0], ss[n])
  {
    if n > 0 {
      QuietListStaysSame(ss, es, n - 1);
      StepSameList(ss[n - 1], es[n - 1]);
    }
  }

  /** Equal list numbers at both ends of fewer than 2^32 list changes: there was no list change at all. */
  lemma {:induction false} EqualNumbersMeanQuiet(ss: seq<State>, es: seq<Event>)
    requires IsRun(ss, es)
    requires Sum(ListTicksOf(ss, es)) < MODULUS && ss[0].listNumber == ss[|es|].listNumber
    ensures Quiet(ss, es)
  {
    ListNumberCounts(ss, es);
    AdvanceIsInjective(ss[0].listNumber, Sum(ListTicksOf(ss, es)));
    ZeroSum(ListTicksOf(ss, es));
    forall k | 0 <= k < |es| ensures ListTicks(ss[k], es[k]) == 0 {
      assert ListTicksOf(ss, es)[k] == 0;
    }
  }

  ghost predicate NoDisconnect(es: seq<Event>) {
    forall k :: 0 <= k < |es| ==> !es[k].EvDisconnect?
  }

  /** The history of one endpoint: step `k` has `ticks[k]` ticks. */
  lemma {:induction false} FollowsAddUp(eps: seq<Endpoint>, ticks: seq<nat>)
    requires |eps| == |ticks| + 1
    requires forall k :: 0 <= k < |ticks| ==> Follows(eps[k], eps[k + 1], ticks[k], false)
    ensures Follows(eps[0], eps[|ticks|], Sum(ticks), false)
  {
    if ticks != [] {
      var n := |ticks| - 1;
      FollowsAddUp(eps[..n + 1], ticks[..n]);
      FollowsTransitive(eps[0], eps[n], eps[n + 1], Sum(ticks[..n]), ticks[n], false, false);
    }
  }

  lemma {:induction false} QuietLookup(ss: seq<State>, es: seq<Event>, id: u16, i: nat, k: nat)
    requires IsRun(ss, es) && Quiet(ss, es) && k <= |es|
    requires FindEndpoint(ss[0], id) == Some(i)
    ensures FindEndpoint(ss[k], id) == Some(i)
    ensures i < |ss[k].endpoints|
  {
    QuietListStaysSame(ss, es, k);
    SameListSameLookup(ss[0], ss[k], id);
  }

  lemma {:induction false} QuietStepFollows(ss: seq<State>, es: seq<Event>, id: u16, i: nat, k: nat)
    requires IsRun(ss, es) && Quiet(ss, es) && NoDisconnect(es) && k < |es|
    requires FindEndpoint(ss[0], id) == Some(i)
    ensures i < |ss[k].endpoints| && i < |ss[k + 1].endpoints|
    ensures Follows(ss[k].endpoints[i], ss[k + 1].endpoints[i], TicksOf(ss, es, id)[k], false)
  {
    QuietLookup(ss, es, id, i, k);
    StepFollows(ss[k], es[k], i);
  }

  ghost predicate HasIndex(ss: seq<State>, i: nat) {
    forall k :: 0 <= k < |ss| ==> i < |ss[k].endpoints|
  }

  /** The endpoint at one index, state by state. */
  ghost function EndpointHistory(ss: seq<State>, i: nat): (eps: seq<Endpoint>)
    requires HasIndex(ss, i)
    ensures |eps| == |ss|
  {
    seq(|ss|, k requires 0 <= k < |ss| => ss[k].endpoints[i])
  }

  lemma {:induction false} HistoryAddsUp(ss: seq<State>, i: nat, ticks: seq<nat>)
    requires |ss| == |ticks| + 1 && HasIndex(ss, i)
    requires forall k :: 0 <= k < |ticks| ==> Follows(ss[k].endpoints[i], ss[k + 1].endpoints[i], ticks[k], false)
    ensures Follows(ss[0].endpoints[i], ss[|ticks|].endpoints[i], Sum(ticks), false)
  {
    FollowsAddUp(EndpointHistory(ss, i), ticks);
  }

  /** While the list is quiet, an endpoint's number counts its ticks, and without ticks its report stands. */
  lemma {:induction false} QuietEndpointFollows(ss: seq<State>, es: seq<Event>, id: u16, i: nat)
    requires IsRun(ss, es) && Quiet(ss, es) && NoDisconnect(es)
    requires FindEndpoint(ss[0], id) == Some(i)
    ensures FindEndpoint(ss[|es|], id) == Some(i)
    ensures Follows(ss[0].endpoints[i], ss[|es|].endpoints[i], Sum(TicksOf(ss, es, id)), false)
  {
    forall k | 0 <= k < |ss| ensures i < |ss[k].endpoints| {
      QuietLookup(ss, es, id, i, k);
    }
    QuietLookup(ss, es, id, i, |es|);
    forall k | 0 <= k < |es|
      ensures Follows(ss[k].endpoints[i], ss[k + 1].endpoints[i], TicksOf(ss, es, id)[k], false)
    {
      QuietStepFollows(ss, es, id, i, k);
    }
    HistoryAddsUp(ss, i, TicksOf(ss, es, id));
  }

  // ----- between any two states of a run

  ghost function ListTicksBetween(ss: seq<State>, es: seq<Event>, a: nat, b: nat): (r: seq<nat>)
    requires IsRun(ss, es) && a <= b <= |es|
    ensures |r| == b - a
  {
    ListTicksOf(ss, es)[a..b]
  }

  ghost function TicksBetween(ss: seq<State>, es: seq<Event>, id: u16, a: nat, b: nat): (r: seq<nat>)
    requires |ss| == |es| + 1 && a <= b <= |es|
    ensures |r| == b - a
  {
    TicksOf(ss[a..b + 1], es[a..b], id)
  }

  lemma {:induction false} StretchEnds(ss: seq<State>, a: nat, b: nat)
    requires a <= b < |ss|
    ensures var tt := ss[a..b + 1]; tt[0] == ss[a] && tt[b - a] == ss[b]
  {}

  lemma {:induction false} StretchTicks(ss: seq<State>, es: seq<Event>, a: nat, b: nat)
    requires IsRun(ss, es) && a <= b <= |es|
    ensures IsRun(ss[a..b + 1], es[a..b])
    ensures ListTicksOf(ss[a..b + 1], es[a..b]) == ListTicksBetween(ss, es, a, b)
  {
    StretchIsRun(ss, es, a, b);
    var tt, fs := ss[a..b + 1], es[a..b];
    forall k | 0 <= k < b - a ensures ListTicksOf(tt, fs)[k] == ListTicksBetween(ss, es, a, b)[k] {
      assert fs[k] == es[a + k] && tt[k] == ss[a + k];
    }
  }

  /**
   ENDPOINT_LIST is coherent: over fewer than 2^32 list changes, equal list numbers mean equal replies,
   connected or not.
   */
  lemma {:induction false} ListCoherence(
    ss: seq<State>, es: seq<Event>, a: nat, b: nat, cc: CommandClass, available: nat)
    requires IsRun(ss, es) && a <= b <= |es|
    requires Sum(ListTicksBetween(ss, es, a, b)) < MODULUS && ss[a].listNumber == ss[b].listNumber
    ensures ListReply(ss[a], cc, available) == ListReply(ss[b], cc, available)
  {
    StretchTicks(ss, es, a, b);
    var tt, fs := ss[a..b + 1], es[a..b];
    StretchEnds(ss, a, b);
    ListCoherenceAtEnds(tt, fs, cc, available);
  }

  lemma {:induction false} ListCoherenceAtEnds(ss: seq<State>, es: seq<Event>, cc: CommandClass, available: nat)
    requires IsRun(ss, es)
    requires Sum(ListTicksOf(ss, es)) < MODULUS
    requires ss[0].listNumber == ss[|es|].listNumber
    ensures ListReply(ss[0], cc, available) == ListReply(ss[|es|], cc, available)
  {
    EqualNumbersMeanQuiet(ss, es);
    QuietListStaysSame(ss, es, |es|);
    SameListSameBytes(ss[0].endpoints, ss[|es|].endpoints);
  }

  lemma {:induction false} SameListSameBytes(x: seq<Endpoint>, y: seq<Endpoint>)
    requires |x| == |y| && forall i :: 0 <= i < |x| ==> x[i].id == y[i].id && x[i].kind == y[i].kind
    ensures EndpointsBytes(x) == EndpointsBytes(y)
  {
    if x != [] {
      SameListSameBytes(x[..|x| - 1], y[..|y| - 1]);
    }
  }

  /** The responder change number a controller reads for `id`, if the endpoint exists. */
  function NumberOf(s: State, id: u16): (r: Option<u32>) {
    var at := FindEndpoint(s, id);
    if at.Some? then Some(s.endpoints[at.value].number) else None
  }

  /** No event between two states of a run is a disconnect. */
  ghost predicate Unbroken(es: seq<Event>, a: nat, b: nat)
    requires a <= b <= |es|
  {
    NoDisconnect(es[a..b])
  }

  /**
   Session coherence: between any two states of a run with no disconnect and fewer than 2^32 advances between them,
   if the list's number and the endpoint's number are the same in both, ENDPOINT_RESPONDERS answers the same in
   both, as long as a response buffer can be had.
   */
  lemma {:induction false} SessionCoherence(
    ss: seq<State>, es: seq<Event>, a: nat, b: nat, cc: CommandClass, data: seq<byte>, x: nat, y: nat)
    requires IsRun(ss, es) && a <= b <= |es| && Unbroken(es, a, b)
    requires Sum(ListTicksBetween(ss, es, a, b)) < MODULUS && ss[a].listNumber == ss[b].listNumber
    requires |data| >= 2 ==> Sum(TicksBetween(ss, es, Unpack16(data), a, b)) < MODULUS
    requires |data| >= 2 ==> NumberOf(ss[a], Unpack16(data)) == NumberOf(ss[b], Unpack16(data))
    requires RespondersReply(ss[a], cc, data, x) != Nack(HardwareFault)
    requires RespondersReply(ss[b], cc, data, y) != Nack(HardwareFault)
    ensures RespondersReply(ss[a], cc, data, x) == RespondersReply(ss[b], cc, data, y)
  {
    StretchTicks(ss, es, a, b);
    var tt, fs := ss[a..b + 1], es[a..b];
    StretchEnds(ss, a, b);
    CoherenceAtEnds(tt, fs, cc, data, x, y);
  }

  lemma {:induction false} CoherenceAtEnds(
    ss: seq<State>, es: seq<Event>, cc: CommandClass, data: seq<byte>, x: nat, y: nat)
    requires IsRun(ss, es) && NoDisconnect(es)
    requires Sum(ListTicksOf(ss, es)) < MODULUS
    requires |data| >= 2 ==> Sum(TicksOf(ss, es, Unpack16(data))) < MODULUS
    requires ss[0].listNumber == ss[|es|].listNumber
    requires |data| >= 2 ==> NumberOf(ss[0], Unpack16(data)) == NumberOf(ss[|es|], Unpack16(data))
    requires RespondersReply(ss[0], cc, data, x) != Nack(HardwareFault)
    requires RespondersReply(ss[|es|], cc, data, y) != Nack(HardwareFault)
    ensures RespondersReply(ss[0], cc, data, x) == RespondersReply(ss[|es|], cc, data, y)
  {
    if |data| >= 2 {
      var id := Unpack16(data);
      var at := FindEndpoint(ss[0], id);
      if at.Some? {
        EqualNumbersMeanQuiet(ss, es);
        QuietEndpointFollows(ss, es, id, at.value);
        AdvanceIsInjective(ss[0].endpoints[at.value].number, Sum(TicksOf(ss, es, id)));
      }
    }
  }

  // ----- why the session must not be interrupted

  ghost predicate AllWaiting(cells: seq<Responder>) {
    forall r :: r in cells && IsDynamic(r) ==> IsDynamicUidRequest(r.uid)
  }

  lemma {:induction false} ResetHides(cells: seq<Responder>, manu: u16)
    ensures |Visible(Reset(cells, manu))| <= |Visible(cells)|
    ensures |Visible(Reset(cells, manu))| == |Visible(cells)| ==> AllWaiting(cells)
    ensures AllWaiting(cells) ==> Visible(Reset(cells, manu)) == Visible(cells)
  {
    if cells != [] {
      var n := |cells| - 1;
      var last := cells[n];
      ResetHides(cells[..n], manu);
      assert cells == cells[..n] + [last];
      assert Reset(cells, manu) == Reset(cells[..n], manu) + [ResetCell(last, manu)];
      VisibleAppend(cells[..n], last);
      VisibleAppend(Reset(cells[..n], manu), ResetCell(last, manu));
      assert forall r :: r in cells <==> r in cells[..n] || r == last;
    }
  }

  /**
   A disconnect moves no number, so it keeps ENDPOINT_RESPONDERS coherent exactly when it has nothing
   to hide: every dynamic responder of the endpoint is still waiting for its UID.
   */
  lemma {:induction false} DisconnectCoherence(s: State, data: seq<byte>, available: nat)
    requires |data| >= 2 && FindEndpoint(s, Unpack16(data)).Some?
    requires RespondersReply(s, Get, data, available).Ack?
    ensures var s' := Disconnected(s);
            s'.listNumber == s.listNumber && NumberOf(s', Unpack16(data)) == NumberOf(s, Unpack16(data))
    ensures RespondersReply(Disconnected(s), Get, data, available) == RespondersReply(s, Get, data, available)
       <==> AllWaiting(s.endpoints[FindEndpoint(s, Unpack16(data)).value].cells)
  {
    var s' := Disconnected(s);
    SameListSameLookup(s, s', Unpack16(data));
    var i := FindEndpoint(s, Unpack16(data)).value;
    var e, e' := s.endpoints[i], s'.endpoints[i];
    ResetHides(e.cells, s.manu);
    RespondersRoundTrip(e.id, e.number, Visible(e.cells));
    RespondersRoundTrip(e'.id, e'.number, Visible(e'.cells));
  }
}
