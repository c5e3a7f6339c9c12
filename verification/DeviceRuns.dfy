/**
 The life of a device object under any sequence of calls and broker events: what it goes through is a run of the
 state machine, and in the end every responder tree it ever had has been released exactly once.
 */
module DeviceRuns {
  import opened ResponderStore
  import opened DeviceSpec
  import opened Devices

  /** The same call with another answer to whether the endpoint array has room. */
  function WithRoom(e: Event, room: bool): (f: Event) {
    match e
    case EvAddVirtuals(configs, _, mems) => EvAddVirtuals(configs, room, mems)
    case EvAddPhysicals(configs, _, grants) => EvAddPhysicals(configs, room, grants)
    case _ => e
  }

  /** The events are legal one after the other, whatever the allocator answers on the way. */
  ghost predicate AlwaysLegal(s: State, es: seq<Event>)
    decreases |es|
  {
    es != [] ==>
      forall room: bool ::
        var e := WithRoom(es[0], room);
        Legal(s, e) && AlwaysLegal(Step(s, e).state, es[1..])
  }

  lemma {:induction false} RunExtends(ss: seq<State>, es: seq<Event>, e: Event)
    requires IsRun(ss, es) && Legal(ss[|es|], e)
    ensures IsRun(ss + [Step(ss[|es|], e).state], es + [e])
  {
    var tt, fs := ss + [Step(ss[|es|], e).state], es + [e];
    forall k | 0 <= k < |fs| ensures Legal(tt[k], fs[k]) && tt[k + 1] == Step(tt[k], fs[k]).state {
      if k < |es| {
        assert fs[k] == es[k] && tt[k] == ss[k] && tt[k + 1] == ss[k + 1];
      }
    }
  }

  /** A released tree never comes back into use. */
  twostate lemma {:induction false} NoneComesBack(d: Device)
    requires old(d.Valid()) && d.Valid()
    requires old(d.issued) <= d.issued && fresh(d.issued - old(d.issued))
    requires forall t :: t in old(d.retired) ==> unchanged(t)
    ensures forall t :: t in d.trees ==> t in old(d.trees) || fresh(t)
  {
    forall t | t in d.trees ensures t in old(d.trees) || fresh(t) {
      var i :| 0 <= i < |d.trees| && d.trees[i] == t;
      assert t in d.issued && t.releases == 0;
    }
  }

  method PerformOnResponders(d: Device, e: Event) returns (status: Status)
    requires d.Valid() && Legal(d.View(), e)
    requires e.EvAddStatic? || e.EvAddDynamic? || e.EvAddPhysical?
          || e.EvRemoveStatic? || e.EvRemoveDynamic? || e.EvRemovePhysical?
    modifies d`sent, d.slots, d.trees`cells
    ensures d.Valid() && Outcome(status, d.View()) == Step(old(d.View()), e)
  {
    match e {
      case EvAddStatic(id, uids, mem) => status := d.AddStatic(id, uids, mem);
      case EvAddDynamic(id, rids, mem, request) => status := d.AddDynamic(id, rids, mem, request);
      case EvAddPhysical(id, ps, grant) => status := d.AddPhysical(id, ps, grant);
      case EvRemoveStatic(id, uids) => status := d.RemoveByUids(id, Virtual, uids);
      case EvRemoveDynamic(id, rids) => status := d.RemoveDynamic(id, rids);
      case EvRemovePhysical(id, uids) => status := d.RemoveByUids(id, Physical, uids);
    }
  }

  method PerformAddVirtuals(d: Device, e: Event) returns (status: Status, ghost room: bool)
    requires d.Valid() && Legal(d.View(), e) && e.EvAddVirtuals?
    modifies d, d.slots, d.trees
    ensures d.Valid() && Outcome(status, d.View()) == AddVirtuals(old(d.View()), e.configs, room, e.mems)
    ensures old(d.issued) <= d.issued && fresh(d.issued - old(d.issued))
    ensures d.slots == old(d.slots) || fresh(d.slots)
  {
    room := d.count + |e.configs| <= d.slots.Length || e.room;
    status := d.AddVirtuals(e.configs, e.mems, e.room);
  }

  method PerformAddPhysicals(d: Device, e: Event) returns (status: Status, ghost room: bool)
    requires d.Valid() && Legal(d.View(), e) && e.EvAddPhysicals?
    modifies d, d.slots, d.trees
    ensures d.Valid() && Outcome(status, d.View()) == AddPhysicals(old(d.View()), e.pconfigs, room, e.grants)
    ensures old(d.issued) <= d.issued && fresh(d.issued - old(d.issued))
    ensures d.slots == old(d.slots) || fresh(d.slots)
  {
    room := d.count + |e.pconfigs| <= d.slots.Length || e.room;
    status := d.AddPhysicals(e.pconfigs, e.grants, e.room);
  }

  method PerformRemove(d: Device, e: Event) returns (status: Status)
    requires d.Valid() && Legal(d.View(), e) && e.EvRemoveEndpoints?
    modifies d, d.slots, d.trees
    ensures d.Valid() && Outcome(status, d.View()) == RemoveEndpoints(old(d.View()), e.ids)
    ensures d.issued == old(d.issued) && d.slots == old(d.slots)
  {
    status := d.Remove(e.ids);
  }

  method PerformOnList(d: Device, e: Event) returns (status: Status, ghost room: bool)
    requires d.Valid() && Legal(d.View(), e) && (e.EvAddVirtuals? || e.EvAddPhysicals? || e.EvRemoveEndpoints?)
    modifies d, d.slots, d.trees
    ensures d.Valid() && Outcome(status, d.View()) == Step(old(d.View()), WithRoom(e, room))
    ensures old(d.issued) <= d.issued && fresh(d.issued - old(d.issued))
    ensures d.slots == old(d.slots) || fresh(d.slots)
  {
    room := true;
    if e.EvAddVirtuals? {
      status, room := PerformAddVirtuals(d, e);
    } else if e.EvAddPhysicals? {
      status, room := PerformAddPhysicals(d, e);
    } else {
      status := PerformRemove(d, e);
    }
  }

  method PerformBrokerEvent(d: Device, e: Event)
    requires d.Valid() && Legal(d.View(), e) && (e.EvConnect? || e.EvDisconnect? || e.EvAssign?)
    modifies d`connected, d`sent, d.slots, d.trees`cells
    ensures d.Valid() && Outcome(Ok, d.View()) == Step(old(d.View()), e)
  {
    match e {
      case EvConnect => d.Connect();
      case EvDisconnect => d.Disconnect();
      case EvAssign(ms) => var _ := d.AssignUids(ms);
    }
  }

  /** One call or event. */
  method Perform(d: Device, e: Event) returns (status: Status, ghost room: bool)
    requires d.Valid() && Legal(d.View(), e)
    modifies d, d.slots, d.trees
    ensures d.Valid() && Legal(old(d.View()), WithRoom(e, room))
    ensures Outcome(status, d.View()) == Step(old(d.View()), WithRoom(e, room))
    ensures old(d.issued) <= d.issued && fresh(d.issued - old(d.issued))
    ensures d.slots == old(d.slots) || fresh(d.slots)
    ensures forall t :: t in d.trees ==> t in old(d.trees) || fresh(t)
  {
    room := true;
    if e.EvAddVirtuals? || e.EvAddPhysicals? || e.EvRemoveEndpoints? {
      status, room := PerformOnList(d, e);
      NoneComesBack(d);
    } else if e.EvConnect? || e.EvDisconnect? || e.EvAssign? {
      PerformBrokerEvent(d, e);
      status := Ok;
    } else {
      status := PerformOnResponders(d, e);
    }
  }

  /** The first of the events that are left; `f` is what it was, with the allocator's answer. */
  method PerformFirst(d: Device, es: seq<Event>, ghost ss: seq<State>, ghost done: seq<Event>) returns (ghost f: Event)
    requires d.Valid() && es != [] && AlwaysLegal(d.View(), es)
    requires IsRun(ss, done) && ss[|done|] == d.View()
    modifies d, d.slots, d.trees
    ensures d.Valid() && AlwaysLegal(d.View(), es[1..])
    ensures IsRun(ss + [d.View()], done + [f]) && (f == WithRoom(es[0], true) || f == WithRoom(es[0], false))
    ensures old(d.issued) <= d.issued && fresh(d.issued - old(d.issued))
    ensures d.slots == old(d.slots) || fresh(d.slots)
    ensures forall t :: t in d.trees ==> t in old(d.trees) || fresh(t)
  {
    assert Legal(d.View(), WithRoom(es[0], true));
    var _, room := Perform(d, es[0]);
    f := WithRoom(es[0], room);
    RunExtends(ss, done, f);
  }

  /**
   The device lives through the events and is destroyed. Its views are a run of the state machine, so every theorem
   about runs holds of it; and each tree that was ever initialised has been released exactly once and is empty.
   */
  method Live(d: Device, es: seq<Event>) returns (ghost ss: seq<State>, ghost done: seq<Event>)
    requires d.Valid() && AlwaysLegal(d.View(), es)
    modifies d, d.slots, d.trees
    ensures IsRun(ss, done) && ss[0] == old(d.View()) && |done| == |es|
    ensures forall k :: 0 <= k < |es| ==> done[k] == WithRoom(es[k], true) || done[k] == WithRoom(es[k], false)
    ensures old(d.issued) <= d.issued && fresh(d.issued - old(d.issued))
    ensures d.trees == [] && forall t :: t in d.issued ==> t.releases == 1 && t.cells == []
  {
    ss, done := [d.View()], [];
    for n := 0 to |es|
      invariant d.Valid() && AlwaysLegal(d.View(), es[n..])
      invariant IsRun(ss, done) && |done| == n && ss[0] == old(d.View()) && ss[n] == d.View()
      invariant forall k :: 0 <= k < n ==> done[k] == WithRoom(es[k], true) || done[k] == WithRoom(es[k], false)
      invariant old(d.issued) <= d.issued && fresh(d.issued - old(d.issued))
      invariant d.slots == old(d.slots) || fresh(d.slots)
      invariant forall t :: t in d.trees ==> t in old(d.trees) || fresh(t)
    {
      ghost var f := PerformFirst(d, es[n..], ss, done);
      ss, done := ss + [d.View()], done + [f];
      assert es[n..][1..] == es[n + 1..];
    }
    d.Destroy();
  }
}
