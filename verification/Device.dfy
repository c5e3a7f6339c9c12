/**
 The device as the library keeps it: endpoints packed in a growable array, each with a responder tree
 of its own. Moving an endpoint inside the array copies the reference to its tree.
 */
module Devices {
  import opened Wire
  import opened Rdm
  import opened Responders
  import opened ResponderStore
  import opened ResponderTrees
  import opened Removal
  import opened DeviceSpec
  import opened DeviceInvariants
  import opened DeviceReplies

  datatype Slot = Slot(id: u16, kind: Kind, number: u32, tree: ResponderTree?)

  const ZEROED: Slot := Slot(0, Virtual, 0, null)

  function SlotId(s: Slot): (id: u16) {
    s.id
  }

  ghost function EndpointOf(s: Slot, cells: seq<Responder>): (e: Endpoint) {
    Endpoint(s.id, s.kind, s.number, cells)
  }

  /** Array entries together with the contents of their trees. */
  ghost function Join(ss: seq<Slot>, ts: seq<ResponderTree>): (es: seq<Endpoint>)
    requires |ss| == |ts|
    reads ts
    ensures |es| == |ss|
    ensures forall i :: 0 <= i < |es| ==> es[i] == EndpointOf(ss[i], ts[i].cells)
  {
    seq(|ss|, i requires 0 <= i < |ss| == |ts| reads ts => EndpointOf(ss[i], ts[i].cells))
  }

  ghost function Elems(ts: seq<ResponderTree>): (r: set<ResponderTree>) {
    set t | t in ts
  }

  lemma {:induction false} SplitElems(ts: seq<ResponderTree>, n: nat)
    requires n <= |ts|
    ensures Elems(ts) == Elems(ts[..n]) + Elems(ts[n..])
  {
    assert ts == ts[..n] + ts[n..];
  }

  /** A copy with room for `need` entries, the length doubled until it suffices and the rest zeroed. */
  method Enlarged(slots: array<Slot>, need: nat) returns (bigger: array<Slot>)
    requires 0 < slots.Length < need
    ensures fresh(bigger) && bigger.Length >= need
    ensures bigger[..slots.Length] == slots[..]
  {
    var capacity := slots.Length * 2;
    while capacity < need
      invariant slots.Length <= capacity
    {
      capacity := capacity * 2;
    }
    bigger := new Slot[capacity](_ => ZEROED);
    forall i | 0 <= i < slots.Length {
      bigger[i] := slots[i];
    }
  }

  /** The initial responders of a virtual endpoint, dynamic ones first. */
  method FillTree(tree: ResponderTree, manu: u16, config: VirtualConfig, mem: seq<Junk>) returns (ok: bool)
    requires tree.cells == [] && NULL_RID !in config.rids
    modifies tree`cells
    ensures Sorted(tree.cells)
    ensures ok <==> VirtualCells(manu, config, mem).status == Ok
    ensures ok ==> tree.cells == VirtualCells(manu, config, mem).cells
  {
    var status := tree.AddDynamic(manu, config.rids, mem);
    if status == Ok {
      status := tree.AddStatic(config.uids, mem[|config.rids|..]);
    }
    ok := status == Ok;
  }

  /** What the configured virtual endpoints come out as, and how many can be built before one does not fit. */
  ghost predicate WantVirtuals(manu: u16, configs: seq<VirtualConfig>, mems: seq<seq<Junk>>,
                               want: seq<Endpoint>, oks: seq<bool>)
  {
    && |want| == |mems| == |oks| == |configs|
    && forall k {:trigger configs[k]} :: 0 <= k < |configs| ==>
         && NULL_RID !in configs[k].rids
         && want[k] == NewVirtual(manu, configs[k], mems[k])
         && oks[k] == (VirtualCells(manu, configs[k], mems[k]).status == Ok)
  }

  ghost predicate AllTrue(oks: seq<bool>) {
    forall k :: 0 <= k < |oks| ==> oks[k]
  }

  ghost function VirtualOks(manu: u16, configs: seq<VirtualConfig>, mems: seq<seq<Junk>>): (oks: seq<bool>)
    requires |mems| == |configs|
  {
    seq(|configs|, i requires 0 <= i < |configs| => VirtualCells(manu, configs[i], mems[i]).status == Ok)
  }

  lemma {:induction false} VirtualsAsWanted(manu: u16, configs: seq<VirtualConfig>, mems: seq<seq<Junk>>)
    requires |mems| == |configs|
    requires forall k :: 0 <= k < |configs| ==> NULL_RID !in configs[k].rids && ValidId(configs[k].id)
    ensures WantVirtuals(manu, configs, mems, NewVirtuals(manu, configs, mems), VirtualOks(manu, configs, mems))
    ensures AllVirtualsFit(manu, configs, mems) <==> AllTrue(VirtualOks(manu, configs, mems))
    ensures AllGood(NewVirtuals(manu, configs, mems))
  {
    forall k | 0 <= k < |configs| ensures GoodEndpoint(NewVirtual(manu, configs[k], mems[k])) {
      VirtualCellsSorted(manu, configs[k], mems[k]);
    }
  }

  ghost predicate WantPhysicals(configs: seq<PhysicalConfig>, grants: seq<nat>, want: seq<Endpoint>, oks: seq<bool>) {
    && |want| == |grants| == |oks| == |configs|
    && forall k {:trigger configs[k]} :: 0 <= k < |configs| ==>
         && want[k] == Endpoint(configs[k].id, Physical, 0, PhysicalBatch(configs[k], grants[k]).cells)
         && oks[k] == (PhysicalBatch(configs[k], grants[k]).status == Ok)
  }

  ghost function PhysicalOks(configs: seq<PhysicalConfig>, grants: seq<nat>): (oks: seq<bool>)
    requires |grants| == |configs|
  {
    seq(|configs|, i requires 0 <= i < |configs| => PhysicalBatch(configs[i], grants[i]).status == Ok)
  }

  lemma {:induction false} PhysicalsAsWanted(configs: seq<PhysicalConfig>, grants: seq<nat>)
    requires |grants| == |configs|
    requires forall k :: 0 <= k < |configs| ==> ValidId(configs[k].id)
    ensures WantPhysicals(configs, grants, NewPhysicals(configs, grants), PhysicalOks(configs, grants))
    ensures AllPhysicalsFit(configs, grants) <==> AllTrue(PhysicalOks(configs, grants))
    ensures AllGood(NewPhysicals(configs, grants))
  {
    forall k | 0 <= k < |configs| ensures GoodEndpoint(NewPhysicals(configs, grants)[k]) {
      BatchAddKeeps([], PhysicalCells(configs[k].responders, grants[k]), grants[k] < |configs[k].responders|);
    }
  }

  // Entries being staged behind the first `n`.

  ghost predicate EmptyFrom(es: seq<Endpoint>, n: nat) {
    forall i :: n <= i < |es| ==> es[i].cells == []
  }

  /** The first `n` entries as at the start, then `i` as wanted, then empty ones. */
  ghost predicate Partly(es: seq<Endpoint>, start: seq<Endpoint>, want: seq<Endpoint>, n: nat, i: nat) {
    && n + |want| == |es| == |start| && i <= |want|
    && es[..n] == start[..n]
    && es[n..n + i] == want[..i]
    && EmptyFrom(es, n + i)
  }

  lemma {:induction false} OneMoreEmpty(es: seq<Endpoint>, es': seq<Endpoint>, n: nat)
    requires n <= |es| && |es'| == |es| + 1 && es'[..|es|] == es && es'[|es|].cells == [] && EmptyFrom(es, n)
    ensures es'[..n] == es[..n] && EmptyFrom(es', n)
  {
    forall i | n <= i < |es| ensures es'[i].cells == [] {
      assert es'[i] == es'[..|es|][i];
    }
  }

  lemma {:induction false} NoneFilled(es: seq<Endpoint>, want: seq<Endpoint>, n: nat)
    requires n + |want| == |es| && EmptyFrom(es, n)
    ensures Partly(es, es, want, n, 0)
  {}

  lemma {:induction false} FillOneMore(es: seq<Endpoint>, start: seq<Endpoint>, want: seq<Endpoint>, n: nat, i: nat)
    requires Partly(es, start, want, n, i) && i < |want|
    ensures es[n + i].cells == []
    ensures Partly(es[n + i := want[i]], start, want, n, i + 1)
  {
    var es' := es[n + i := want[i]];
    assert es'[..n] == es[..n];
    assert es'[n..n + i + 1] == es[n..n + i] + [want[i]];
  }

  lemma {:induction false} AllFilled(es: seq<Endpoint>, start: seq<Endpoint>, want: seq<Endpoint>, n: nat)
    requires Partly(es, start, want, n, |want|)
    ensures es == start[..n] + want
  {
    assert es == es[..n] + es[n..n + |want|];
  }

  // ----- broker events endpoint by endpoint

  ghost predicate ResetUpTo(s: State, start: State, k: nat) {
    && |s.endpoints| == |start.endpoints|
    && s == start.(endpoints := s.endpoints)
    && forall i :: 0 <= i < |s.endpoints| ==>
         s.endpoints[i] == if i < k then ResetEndpoint(start.endpoints[i], start.manu) else start.endpoints[i]
  }

  lemma {:induction false} ResetNext(s: State, start: State, k: nat)
    requires ResetUpTo(s, start, k) && k < |s.endpoints|
    ensures ResetUpTo(SetCells(s, k, Reset(s.endpoints[k].cells, s.manu)), start, k + 1)
  {}

  lemma {:induction false} ResetAll(s: State, start: State)
    requires ResetUpTo(s, start, |start.endpoints|) && !start.connected
    ensures s == Disconnected(start)
  {
    assert s.endpoints == Disconnected(start).endpoints;
  }

  ghost function AssignOne(s: State, ms: seq<Mapping>, k: nat): (r: State)
    requires k < |s.endpoints|
  {
    if MatchesOn(s.endpoints[k], ms) > 0
    then Bump(SetCells(s, k, Assigned(s.endpoints[k].cells, ms, |ms|)), k)
    else s
  }

  lemma {:induction false} NoMatchNoChange(e: Endpoint, ms: seq<Mapping>)
    requires Sorted(e.cells) && RealRids(ms)
    ensures MatchesOn(e, ms) == 0 ==> Assigned(e.cells, ms, |ms|) == e.cells
  {
    if MatchesOn(e, ms) == 0 {
      MatchesMeans(e.cells, ms, |ms|);
      forall i | 0 <= i < |e.cells| ensures AssignCell(e.cells[i], ms, |ms|) == e.cells[i] {
        var r := e.cells[i];
        if IsDynamic(r) {
          FindIsLinearScan(e.cells, RidKey(r.rid, Uid(0, 0)));
          assert KeyOf(r) == KeyOf(RidKey(r.rid, Uid(0, 0)));
        }
      }
    }
  }

  lemma {:induction false} AssignedKeepsGood(e: Endpoint, ms: seq<Mapping>)
    requires GoodEndpoint(e)
    ensures GoodEndpoint(e.(cells := Assigned(e.cells, ms, |ms|)))
  {
    SameKeysSameOrder(e.cells, Assigned(e.cells, ms, |ms|));
    forall i | 0 <= i < |e.cells| && !IsDynamic(e.cells[i]) ensures !IsDynamic(Assigned(e.cells, ms, |ms|)[i]) {}
  }

  lemma {:induction false} AssignNone(s: State, ms: seq<Mapping>)
    ensures AssignFirst(s, ms, 0) == s
  {
    assert AssignFirst(s, ms, 0).endpoints == s.endpoints;
    assert s.sent + [] == s.sent;
  }

  /** Visiting one more endpoint, whether the loop passes over it or not. */
  lemma {:induction false} AssignNext(s: State, ms: seq<Mapping>, k: nat)
    requires Good(s) && RealRids(ms) && k < |s.endpoints|
    ensures AssignFirst(s, ms, k).endpoints[k] == s.endpoints[k]
    ensures AssignFirst(s, ms, k + 1) == AssignOne(AssignFirst(s, ms, k), ms, k)
    ensures s.endpoints[k].kind == Physical ==> MatchesOn(s.endpoints[k], ms) == 0
  {
    if s.endpoints[k].kind == Physical {
      NoneDynamicNoMatch(s.endpoints[k], ms);
    }
    var a, b := AssignFirst(s, ms, k), AssignOne(AssignFirst(s, ms, k), ms, k);
    assert AssignFirst(s, ms, k + 1).endpoints == b.endpoints;
    var hits := Hits(s.endpoints, ms);
    if hits[k] {
      assert s.sent + (UpdatesFor(s.endpoints, hits, k) + [ResponderChange(s.endpoints[k].id, Next(s.endpoints[k].number))])
          == a.sent + [ResponderChange(s.endpoints[k].id, Next(s.endpoints[k].number))] || !s.connected;
    } else {
      assert UpdatesFor(s.endpoints, hits, k + 1) == UpdatesFor(s.endpoints, hits, k);
    }
  }

  /** The mappings applied to the first `k` endpoints, one endpoint after the other. */
  ghost function AssignEach(s: State, ms: seq<Mapping>, k: nat): (r: State)
    requires k <= |s.endpoints|
    ensures |r.endpoints| == |s.endpoints|
  {
    if k == 0 then s else AssignOne(AssignEach(s, ms, k - 1), ms, k - 1)
  }

  lemma {:induction false} AssignEachIsFirst(s: State, ms: seq<Mapping>, k: nat)
    requires Good(s) && RealRids(ms) && k <= |s.endpoints|
    ensures AssignEach(s, ms, k) == AssignFirst(s, ms, k)
  {
    if k == 0 {
      AssignNone(s, ms);
    } else {
      AssignEachIsFirst(s, ms, k - 1);
      AssignNext(s, ms, k - 1);
    }
  }

  lemma {:induction false} AppendTwice(s: State, p: seq<Endpoint>, v: seq<Endpoint>)
    requires s.endpoints == []
    ensures Append(Append(s, true, p), true, v) == s.(endpoints := p + v)
  {
    assert [] + p == p;
  }

  // ----- filling response buffers

  /** A response buffer of at least the size asked for, if one can be had; its contents are arbitrary. */
  method ResponseBuffer(size: nat, available: nat) returns (buf: array?<byte>)
    ensures buf == null <==> size > available
    ensures buf != null ==> fresh(buf) && buf.Length >= size
  {
    if size > available {
      buf := null;
    } else {
      buf := new byte[available];
    }
  }

  method PutUid(buf: array<byte>, at: nat, u: Uid)
    requires at + 6 <= buf.Length
    modifies buf
    ensures buf[..at + 6] == old(buf[..at]) + UidBytes(u)
  {
    Put16(buf, at, u.manu);
    Put32(buf, at + 2, u.id);
  }

  lemma {:induction false} UidsBytesAppend(us: seq<Uid>, u: Uid)
    ensures UidsBytes(us + [u]) == UidsBytes(us) + UidBytes(u)
  {
    assert (us + [u])[..|us|] == us;
  }

  lemma {:induction false} VisibleStep(cells: seq<Responder>, i: nat)
    requires i < |cells|
    ensures Visible(cells[..i + 1]) == Visible(cells[..i]) + if IsDynamicUidRequest(cells[i].uid) then [] else [cells[i].uid]
  {
    VisibleAppend(cells[..i], cells[i]);
    assert cells[..i + 1] == cells[..i] + [cells[i]];
  }

  lemma {:induction false} VisibleWhole(cells: seq<Responder>)
    ensures Visible(cells[..|cells|]) == Visible(cells)
  {
    assert cells[..|cells|] == cells;
  }

  /** Append one UID unless it still has to be assigned; then the length shrinks instead. */
  method PackNext(r: Responder, buf: array<byte>, cur: nat, len: nat, ghost head: seq<byte>, ghost us: seq<Uid>)
    returns (cur': nat, len': nat)
    requires cur + 6 <= len <= buf.Length && buf[..cur] == head + UidsBytes(us)
    modifies buf
    ensures len' - cur' == len - cur - 6 && cur' <= len' <= len
    ensures buf[..cur'] == head + UidsBytes(us + if IsDynamicUidRequest(r.uid) then [] else [r.uid])
  {
    if IsDynamicUidRequest(r.uid) {
      cur', len' := cur, len - 6;
      assert us + [] == us;
    } else {
      UidsBytesAppend(us, r.uid);
      PutUid(buf, cur, r.uid);
      cur', len' := cur + 6, len;
    }
  }

  /**
   Append the reportable UIDs to a buffer sized for all of them; the length starts out as if all were
   reported and shrinks with each one that is not.
   */
  method PackVisible(cells: seq<Responder>, buf: array<byte>, at: nat, size: nat) returns (len: nat)
    requires at + 6 * |cells| == size <= buf.Length
    modifies buf
    ensures len <= size
    ensures buf[..len] == old(buf[..at]) + UidsBytes(Visible(cells))
  {
    ghost var head := buf[..at];
    var cur: nat := at;
    len := size;
    for i := 0 to |cells|
      invariant cur <= len <= size && len - cur == 6 * (|cells| - i)
      invariant buf[..cur] == head + UidsBytes(Visible(cells[..i]))
    {
      VisibleStep(cells, i);
      cur, len := PackNext(cells[i], buf, cur, len, head, Visible(cells[..i]));
    }
    VisibleWhole(cells);
  }

  method RespondersOf(id: u16, number: u32, cells: seq<Responder>, available: nat) returns (reply: Reply)
    ensures reply == if 6 + 6 * |cells| > available then Nack(HardwareFault)
                     else Ack(RespondersData(id, number, Visible(cells)))
  {
    var size := 6 + 6 * |cells|;
    var buf := ResponseBuffer(size, available);
    if buf == null {
      return Nack(HardwareFault);
    }
    Put16(buf, 0, id);
    Put32(buf, 2, number);
    assert buf[..6] == Pack16(id) + Pack32(number);
    var len := PackVisible(cells, buf, 6, size);
    reply := Ack(buf[..len]);
  }

  method BindingOf(id: u16, uid: Uid, r: Responder, available: nat) returns (reply: Reply)
    ensures reply == if 16 > available then Nack(HardwareFault) else Ack(BindingData(id, uid, r.control, r.binding))
  {
    var buf := ResponseBuffer(16, available);
    if buf == null {
      return Nack(HardwareFault);
    }
    Put16(buf, 0, id);
    PutUid(buf, 2, uid);
    Put16(buf, 8, r.control);
    PutUid(buf, 10, r.binding);
    reply := Ack(buf[..16]);
  }

  lemma {:induction false} EndpointsBytesStep(es: seq<Endpoint>, i: nat)
    requires i < |es|
    ensures EndpointsBytes(es[..i + 1]) == EndpointsBytes(es[..i]) + EndpointBytes(es[i])
  {
    assert es[..i + 1][..i] == es[..i];
  }

  lemma {:induction false} EndpointsBytesWhole(es: seq<Endpoint>)
    ensures EndpointsBytes(es[..|es|]) == EndpointsBytes(es)
  {
    assert es[..|es|] == es;
  }

  method PutEndpoint(buf: array<byte>, at: nat, id: u16, kind: Kind)
    requires at + 3 <= buf.Length
    modifies buf
    ensures buf[..at + 3] == old(buf[..at]) + (Pack16(id) + [KindByte(kind)])
  {
    Put16(buf, at, id);
    buf[at + 2] := KindByte(kind);
    assert buf[..at + 3] == buf[..at + 2] + [KindByte(kind)];
  }

  /** Append id and type of every endpoint. */
  method PackList(buf: array<byte>, ss: seq<Slot>, ghost es: seq<Endpoint>)
    requires |es| == |ss| && 4 + 3 * |ss| <= buf.Length
    requires forall i :: 0 <= i < |ss| ==> es[i].id == ss[i].id && es[i].kind == ss[i].kind
    modifies buf
    ensures buf[..4 + 3 * |ss|] == old(buf[..4]) + EndpointsBytes(es)
  {
    ghost var head := buf[..4];
    for i := 0 to |ss|
      invariant buf[..4 + 3 * i] == head + EndpointsBytes(es[..i])
    {
      EndpointsBytesStep(es, i);
      PutEndpoint(buf, 4 + 3 * i, ss[i].id, ss[i].kind);
    }
    EndpointsBytesWhole(es);
  }

  method ListOf(number: u32, ss: seq<Slot>, available: nat, ghost es: seq<Endpoint>) returns (reply: Reply)
    requires |es| == |ss|
    requires forall i :: 0 <= i < |ss| ==> es[i].id == ss[i].id && es[i].kind == ss[i].kind
    ensures reply == if 4 + 3 * |ss| > available then Nack(HardwareFault) else Ack(ListData(number, es))
  {
    var len := |ss| * 3 + 4;
    var buf := ResponseBuffer(len, available);
    if buf == null {
      return Nack(HardwareFault);
    }
    Put32(buf, 0, number);
    PackList(buf, ss, es);
    reply := Ack(buf[..len]);
  }

  // ----- what a removal does to trees

  /** How often a tree is released. */
  ghost function Times(released: seq<Slot>, t: ResponderTree): (n: nat) {
    if released == [] then 0
    else Times(released[..|released| - 1], t) + if released[|released| - 1].tree == t then 1 else 0
  }

  /** Each tree has been cleared as often as it was released, and is otherwise as it was. */
  ghost predicate Tracked(ts: seq<ResponderTree>, was: seq<seq<Responder>>, released: seq<Slot>)
    reads ts
  {
    && |was| == |ts|
    && forall i :: 0 <= i < |ts| ==>
         && ts[i].releases == Times(released, ts[i])
         && ts[i].cells == if Times(released, ts[i]) == 0 then was[i] else []
  }

  method ClearTree(slot: Slot, ghost ts: seq<ResponderTree>, ghost was: seq<seq<Responder>>, ghost released: seq<Slot>)
    requires slot.tree != null && slot.tree in ts && Tracked(ts, was, released)
    modifies ts
    ensures Tracked(ts, was, released + [slot])
  {
    slot.tree.Clear();
    assert (released + [slot])[..|released|] == released;
  }

  /** Entries that own their trees. */
  ghost predicate OwnTrees(ss: seq<Slot>, ts: seq<ResponderTree>) {
    && |ss| == |ts|
    && (forall i :: 0 <= i < |ss| ==> ss[i].tree == ts[i])
    && (forall i, j :: 0 <= i < j < |ts| ==> ts[i] != ts[j])
  }

  ghost function CellsOf(ts: seq<ResponderTree>): (r: seq<seq<Responder>>)
    reads ts
    ensures |r| == |ts|
    ensures forall i :: 0 <= i < |r| ==> r[i] == ts[i].cells
  {
    seq(|ts|, i requires 0 <= i < |ts| reads ts => ts[i].cells)
  }

  /** A removal with one more request. */
  ghost function Taken(c: Compaction<Slot>, id: u16): (c': Compaction<Slot>) {
    var at := IndexOfId(c.slots, SlotId, id);
    if at.None? then c.(ok := false)
    else Compaction(Shift(c.slots, at.value), c.released + [c.slots[at.value]], true)
  }

  /** `c` is how far the first `n` requests take a removal. */
  ghost predicate After(ss: seq<Slot>, ids: seq<u16>, n: nat, c: Compaction<Slot>)
    requires n <= |ids|
  {
    c == Compact(ss, SlotId, ids[..n])
  }

  lemma {:induction false} TakeNext(ss: seq<Slot>, ts: seq<ResponderTree>, ids: seq<u16>, n: nat, c: Compaction<Slot>)
    requires OwnTrees(ss, ts) && n < |ids| && After(ss, ids, n, c) && c.ok
    ensures After(ss, ids, n + 1, Taken(c, ids[n]))
    ensures forall x :: x in c.slots ==> x.tree != null && x.tree in ts
  {
    assert ids[..n + 1] == ids[..n] + [ids[n]];
    CompactSnoc(ss, SlotId, ids[..n], ids[n]);
    CompactSelects(ss, SlotId, ids[..n]);
    forall x | x in c.slots ensures x.tree != null && x.tree in ts {
      var i :| 0 <= i < |ss| && ss[i] == x;
      assert ts[i] in ts;
    }
  }

  lemma {:induction false} AfterAll(ss: seq<Slot>, ids: seq<u16>, n: nat, c: Compaction<Slot>)
    requires n <= |ids| && After(ss, ids, n, c) && (n == |ids| || !c.ok)
    ensures c == Compact(ss, SlotId, ids)
  {
    if c.ok {
      assert ids[..n] == ids;
    } else {
      CompactStops(ss, SlotId, ids, n);
    }
  }

  lemma {:induction false} TimesMeans(released: seq<Slot>, t: ResponderTree)
    ensures Times(released, t) > 0 <==> exists i :: 0 <= i < |released| && released[i].tree == t
    ensures (forall i, j :: 0 <= i < j < |released| ==> released[i].tree != released[j].tree) ==> Times(released, t) <= 1
  {
    if released != [] {
      var n := |released| - 1;
      TimesMeans(released[..n], t);
    }
  }

  lemma {:induction false} OwnTreesInjective(ss: seq<Slot>, ts: seq<ResponderTree>, x: Slot, y: Slot)
    requires OwnTrees(ss, ts) && x in ss && y in ss && x.tree == y.tree
    ensures x == y
  {
    var i :| 0 <= i < |ss| && ss[i] == x;
    var j :| 0 <= j < |ss| && ss[j] == y;
    assert ts[i] == ts[j];
  }

  /**
   After a covered removal: the entries kept are the specified ones and own different trees, none of
   them released; every other tree was released exactly once.
   */
  lemma {:induction false} RemovalReleasesOnce(ss: seq<Slot>, ts: seq<ResponderTree>, ids: seq<u16>)
    requires OwnTrees(ss, ts) && Covered(ss, SlotId, ids)
    ensures var c := Compact(ss, SlotId, ids);
            && c.ok && |ids| <= |ss|
            && var kept := c.slots[..|ss| - |ids|];
            && kept == RemoveFirsts(ss, SlotId, ids)
            && (forall x :: x in kept ==> x in ss)
            && (forall i, j :: 0 <= i < j < |kept| ==> kept[i].tree != kept[j].tree)
            && (forall t :: t in ts ==> Times(c.released, t) == if exists x :: x in kept && x.tree == t then 0 else 1)
  {
    var c := Compact(ss, SlotId, ids);
    assert ss[..|ss|] == ss;
    CompactIgnoresLeftovers(ss, |ss|, SlotId, ids);
    CompactSelects(ss, SlotId, ids);
    var kept := c.slots[..|ss| - |ids|];
    assert Distinct(ss);
    DistinctDivides(ss, kept, c.released);
    forall i, j | 0 <= i < j < |kept| ensures kept[i].tree != kept[j].tree {
      if kept[i].tree == kept[j].tree { OwnTreesInjective(ss, ts, kept[i], kept[j]); }
    }
    forall i, j | 0 <= i < j < |c.released| ensures c.released[i].tree != c.released[j].tree {
      if c.released[i].tree == c.released[j].tree { OwnTreesInjective(ss, ts, c.released[i], c.released[j]); }
    }
    forall t | t in ts ensures Times(c.released, t) == if exists x :: x in kept && x.tree == t then 0 else 1 {
      TreeGoesOneWay(ss, ts, kept, c.released, t);
    }
  }

  lemma {:induction false} TreeGoesOneWay(
    ss: seq<Slot>, ts: seq<ResponderTree>, kept: seq<Slot>, released: seq<Slot>, t: ResponderTree)
    requires OwnTrees(ss, ts) && t in ts
    requires forall x :: x in ss <==> x in kept || x in released
    requires forall x :: x in kept ==> x !in released
    requires forall i, j :: 0 <= i < j < |released| ==> released[i].tree != released[j].tree
    ensures Times(released, t) == if exists x :: x in kept && x.tree == t then 0 else 1
  {
    TimesMeans(released, t);
    var i :| 0 <= i < |ts| && ts[i] == t;
    assert ss[i] in ss;
    if ss[i] in released {
      var j :| 0 <= j < |released| && released[j] == ss[i];
    }
    forall x | x in ss && x.tree == t ensures x == ss[i] {
      OwnTreesInjective(ss, ts, x, ss[i]);
    }
  }

  // ----- what a removal does to the endpoints

  ghost function Where(ss: seq<Slot>, x: Slot): (i: nat)
    requires x in ss
    ensures i < |ss| && ss[i] == x
  {
    var i :| 0 <= i < |ss| && ss[i] == x;
    i
  }

  /** The entries `ss` with the tree contents `was`. */
  ghost predicate Joined(es: seq<Endpoint>, ss: seq<Slot>, was: seq<seq<Responder>>) {
    |es| == |ss| == |was| && forall i :: 0 <= i < |es| ==> es[i] == EndpointOf(ss[i], was[i])
  }

  lemma {:induction false} SameIds(es: seq<Endpoint>, ss: seq<Slot>, was: seq<seq<Responder>>, ids: seq<u16>)
    requires Joined(es, ss, was)
    ensures Covered(es, EndpointId, ids) <==> Covered(ss, SlotId, ids)
  {
    assert Project(es, EndpointId) == Project(ss, SlotId);
  }

  lemma {:induction false} SameIndex(es: seq<Endpoint>, ss: seq<Slot>, was: seq<seq<Responder>>, id: u16)
    requires Joined(es, ss, was)
    ensures IndexOfId(es, EndpointId, id) == IndexOfId(ss, SlotId, id)
  {
    FirstIndex(es, EndpointId, id, IndexOfId(ss, SlotId, id));
  }

  /** Taking entries out of the array takes the same endpoints out of the view. */
  lemma {:induction false} KeptEntries(
    es: seq<Endpoint>, ss: seq<Slot>, ts: seq<ResponderTree>, was: seq<seq<Responder>>, ids: seq<u16>)
    requires OwnTrees(ss, ts) && Joined(es, ss, was)
    ensures var kept, left := RemoveFirsts(ss, SlotId, ids), RemoveFirsts(es, EndpointId, ids);
            && |left| == |kept|
            && forall k :: 0 <= k < |kept| ==> kept[k] in ss && left[k] == EndpointOf(kept[k], was[Where(ss, kept[k])])
  {
    var p := (x: Slot) => if x in ss then EndpointOf(x, was[Where(ss, x)]) else EndpointOf(x, []);
    forall i | 0 <= i < |ss| ensures p(ss[i]) == es[i] {
      assert ss[Where(ss, ss[i])] == ss[i];
      assert ts[Where(ss, ss[i])] == ts[i];
    }
    assert Project(ss, p) == es;
    ProjectRemoval(ss, SlotId, p, EndpointId, ids);
    RemoveFirstsSelects(ss, SlotId, ids);
  }

  ghost function TreesOf(ss: seq<Slot>): (ts: seq<ResponderTree>)
    requires HaveTrees(ss)
    ensures |ts| == |ss| && forall i :: 0 <= i < |ss| ==> ts[i] == ss[i].tree
  {
    seq(|ss|, i requires 0 <= i < |ss| => ss[i].tree)
  }

  ghost predicate HaveTrees(ss: seq<Slot>) {
    forall i :: 0 <= i < |ss| ==> ss[i].tree != null
  }

  /** Each tree is either owned by one of the entries kept, and not released, or released once. */
  ghost predicate KeepsTrees(kept: seq<Slot>, ts: seq<ResponderTree>)
    reads ts
  {
    && HaveTrees(kept)
    && var kt := TreesOf(kept);
    && (forall i, j :: 0 <= i < j < |kt| ==> kt[i] != kt[j])
    && (forall i :: 0 <= i < |kt| ==> kt[i] in ts && kt[i].releases == 0)
    && (forall t :: t in ts && t !in kt ==> t.releases == 1 && t.cells == [])
  }

  lemma {:induction false} NotKept(kept: seq<Slot>, t: ResponderTree)
    requires HaveTrees(kept) && t !in TreesOf(kept)
    ensures forall x :: x in kept ==> x.tree != t
  {
    forall i | 0 <= i < |kept| ensures kept[i].tree != t {
      assert TreesOf(kept)[i] in TreesOf(kept);
    }
  }

  lemma {:induction false} KeptTree(
    ss: seq<Slot>, ts: seq<ResponderTree>, was: seq<seq<Responder>>, released: seq<Slot>, x: Slot)
    requires OwnTrees(ss, ts) && Tracked(ts, was, released) && x in ss
    requires forall t :: t in ts && x.tree == t ==> Times(released, t) == 0
    ensures x.tree != null && x.tree in ts && x.tree.releases == 0 && x.tree.cells == was[Where(ss, x)]
  {
    var k := Where(ss, x);
    assert ts[k] == x.tree && ts[k] in ts;
  }

  /** After a covered removal has run, each tree in the heap is either kept as it was or released once. */
  lemma {:induction false} KeptTrees(ss: seq<Slot>, ts: seq<ResponderTree>, was: seq<seq<Responder>>, ids: seq<u16>)
    requires OwnTrees(ss, ts) && Covered(ss, SlotId, ids) && Tracked(ts, was, Compact(ss, SlotId, ids).released)
    ensures var kept := RemoveFirsts(ss, SlotId, ids);
            && KeepsTrees(kept, ts)
            && (forall i :: 0 <= i < |kept| ==> kept[i] in ss && kept[i].tree.cells == was[Where(ss, kept[i])])
  {
    RemovalReleasesOnce(ss, ts, ids);
    var kept, released := RemoveFirsts(ss, SlotId, ids), Compact(ss, SlotId, ids).released;
    forall i | 0 <= i < |kept|
      ensures kept[i].tree != null && kept[i].tree in ts && kept[i].tree.releases == 0
      ensures kept[i] in ss && kept[i].tree.cells == was[Where(ss, kept[i])]
    {
      assert kept[i] in kept;
      KeptTree(ss, ts, was, released, kept[i]);
    }
    var kt := TreesOf(kept);
    forall t | t in ts && t !in kt ensures t.releases == 1 && t.cells == [] {
      NotKept(kept, t);
      var k :| 0 <= k < |ts| && ts[k] == t;
    }
  }

  lemma {:induction false} KeptSlots(ss: seq<Slot>, ts: seq<ResponderTree>, ids: seq<u16>)
    requires OwnTrees(ss, ts) && Covered(ss, SlotId, ids)
    ensures |ids| <= |ss| && Compact(ss, SlotId, ids).slots[..|ss| - |ids|] == RemoveFirsts(ss, SlotId, ids)
  {
    RemovalReleasesOnce(ss, ts, ids);
  }

  lemma {:induction false} KeptJoin(
    es: seq<Endpoint>, ss: seq<Slot>, ts: seq<ResponderTree>, was: seq<seq<Responder>>, ids: seq<u16>)
    requires OwnTrees(ss, ts) && Covered(ss, SlotId, ids) && Tracked(ts, was, Compact(ss, SlotId, ids).released)
    requires Joined(es, ss, was)
    ensures var kept := RemoveFirsts(ss, SlotId, ids);
            HaveTrees(kept) && Join(kept, TreesOf(kept)) == RemoveFirsts(es, EndpointId, ids)
  {
    KeptTrees(ss, ts, was, ids);
    KeptEntries(es, ss, ts, was, ids);
  }

  lemma {:induction false} KeptGood(es: seq<Endpoint>, ids: seq<u16>)
    requires AllGood(es)
    ensures AllGood(RemoveFirsts(es, EndpointId, ids))
  {
    var left := RemoveFirsts(es, EndpointId, ids);
    RemoveFirstsSelects(es, EndpointId, ids);
    forall k | 0 <= k < |left| ensures GoodEndpoint(left[k]) {
      assert left[k] in es;
    }
  }

  /** What is left of the entries once those taken out are cut off. */
  lemma {:induction false} LeftOver(
    es: seq<Endpoint>, ss: seq<Slot>, ts: seq<ResponderTree>, was: seq<seq<Responder>>, ids: seq<u16>)
    requires OwnTrees(ss, ts) && Covered(ss, SlotId, ids) && Tracked(ts, was, Compact(ss, SlotId, ids).released)
    requires Joined(es, ss, was) && AllGood(es)
    ensures var kept := RemoveFirsts(ss, SlotId, ids);
            && |ids| <= |ss| && Compact(ss, SlotId, ids).slots[..|ss| - |ids|] == kept
            && KeepsTrees(kept, ts)
            && Join(kept, TreesOf(kept)) == RemoveFirsts(es, EndpointId, ids)
            && AllGood(Join(kept, TreesOf(kept)))
  {
    KeptSlots(ss, ts, ids);
    KeptTrees(ss, ts, was, ids);
    KeptJoin(es, ss, ts, was, ids);
    KeptGood(es, ids);
  }

  class Device {
    var slots: array<Slot>
    var count: nat
    var listNumber: u32
    var connected: bool
    var manu: u16
    ghost var sent: seq<Update>
    // the trees in use, in array order, those that have been released, and all that were ever initialised
    ghost var trees: seq<ResponderTree>
    ghost var retired: set<ResponderTree>
    ghost var issued: set<ResponderTree>

    /** The first entries of the array own the trees in use; no two share one. */
    ghost predicate Owns()
      reads this`slots, this`trees, this`retired, slots, trees
    {
      && 0 < slots.Length
      && |trees| <= slots.Length
      && (forall i :: 0 <= i < |trees| ==> slots[i].tree == trees[i])
      && (forall i, j :: 0 <= i < j < |trees| ==> trees[i] != trees[j])
      && (forall i :: 0 <= i < |trees| ==> trees[i] !in retired)
      && (forall i :: 0 <= i < |trees| ==> trees[i].releases == 0)
    }

    /** What was released was released once, and has not been touched since. */
    ghost predicate Retired()
      reads this`retired, retired
    {
      forall t :: t in retired ==> t.releases == 1 && t.cells == []
    }

    ghost function Entries(): (es: seq<Endpoint>)
      requires |trees| <= slots.Length
      reads this`slots, this`trees, slots, trees
      ensures |es| == |trees|
    {
      Join(slots[..|trees|], trees)
    }

    /** Every tree ever initialised is in use or has been released. */
    ghost predicate Accounted()
      reads this`trees, this`retired, this`issued
    {
      issued == Elems(trees) + retired
    }

    ghost function View(): (s: State)
      requires count == |trees| <= slots.Length
      reads this, slots, trees
    {
      State(Entries(), listNumber, connected, manu, sent)
    }

    ghost predicate Valid()
      reads this, slots, trees, retired
      ensures Valid() ==> count == |trees| <= slots.Length && Good(View())
    {
      count == |trees| && Owns() && Retired() && Accounted() && AllGood(Entries())
    }

    constructor (manu: u16)
      ensures Valid()
      ensures View() == State([], 0, false, manu, [])
      ensures fresh(slots) && trees == [] && retired == {} && issued == {}
    {
      slots := new Slot[4](_ => ZEROED);
      count := 0;
      listNumber := 0;
      connected := false;
      this.manu := manu;
      sent := [];
      trees := [];
      retired := {};
      issued := {};
    }

    /** Search the array for the first entry with an id. */
    method FindSlot(id: u16) returns (r: Option<nat>)
      requires count <= slots.Length
      ensures r == IndexOfId(slots[..count], SlotId, id)
    {
      r := None;
      var i := 0;
      while i < count && r.None?
        invariant i <= count
        invariant forall k :: 0 <= k < i ==> slots[k].id != id
        invariant r.Some? ==> i < count && r == Some(i) && slots[i].id == id
        decreases count - i, r.None?
      {
        if slots[i].id == id {
          r := Some(i);
        } else {
          i := i + 1;
        }
      }
      FirstIndex(slots[..count], SlotId, id, r);
    }

    /** The array slot of the first endpoint with an id. */
    method Find(id: u16) returns (r: Option<nat>)
      requires Valid()
      ensures r == FindEndpoint(View(), id)
      ensures r.Some? ==> r.value < count
    {
      r := FindSlot(id);
      SameIndex(Entries(), slots[..count], CellsOf(trees), id);
    }

    // ----- notifications

    method NotifyList()
      requires Valid()
      modifies this`listNumber, this`sent
      ensures Valid()
      ensures View() == BumpList(old(View()))
    {
      listNumber := if listNumber == 0xFFFF_FFFF then 0 else listNumber + 1;
      if connected {
        sent := sent + [ListChange(listNumber)];
      }
    }

    method NotifyResponders(i: nat)
      requires Valid() && i < count
      modifies this`sent, slots
      ensures Valid()
      ensures View() == Bump(old(View()), i)
    {
      var slot := slots[i];
      var number := if slot.number == 0xFFFF_FFFF then 0 else slot.number + 1;
      if connected {
        sent := sent + [ResponderChange(slot.id, number)];
      }
      SetEntry(i, slot.id, slot.kind, number);
    }

    // ----- changes to one entry

    /** Overwrite an entry, leaving its tree in place. */
    method SetEntry(at: nat, id: u16, kind: Kind, number: u32)
      requires Owns() && at < |trees|
      modifies slots
      ensures Owns()
      ensures Entries() == old(Entries())[at := Endpoint(id, kind, number, trees[at].cells)]
    {
      slots[at] := Slot(id, kind, number, slots[at].tree);
      assert forall i :: 0 <= i < |trees| ==> slots[i].tree == trees[i];
    }

    /** Changing what is in one tree changes one entry, because no other entry shares the tree. */
    twostate lemma {:induction false} ChangedTree(at: nat)
      requires old(Owns()) && unchanged(this) && unchanged(slots) && at < |trees|
      requires forall i :: 0 <= i < |trees| && i != at ==> unchanged(trees[i])
      requires trees[at].releases == 0
      ensures Owns()
      ensures Entries() == old(Entries())[at := old(Entries())[at].(cells := trees[at].cells)]
    {}

    // ----- adding endpoints

    /** Make room for `n` more endpoints, doubling the array as needed; `grow` says whether memory can be had. */
    method Reserve(n: nat, grow: bool) returns (ok: bool)
      requires Valid()
      modifies this`slots
      ensures Valid() && View() == old(View())
      ensures ok <==> old(count + n <= slots.Length) || grow
      ensures ok ==> count + n <= slots.Length
      ensures slots == old(slots) || fresh(slots)
    {
      if count + n <= slots.Length {
        return true;
      }
      if !grow {
        return false;
      }
      var bigger := Enlarged(slots, count + n);
      assert forall i :: 0 <= i < slots.Length ==> bigger[i] == bigger[..slots.Length][i];
      slots := bigger;
      assert Entries() == old(Entries());
      ok := true;
    }

    /** Give the entry behind those in use an empty tree. */
    method InitTree(at: nat)
      requires Owns() && Accounted() && at == |trees| < slots.Length
      modifies this`trees, this`issued, slots
      ensures Owns() && Accounted()
      ensures |trees| == at + 1 && fresh(trees[at]) && trees == old(trees) + [trees[at]]
      ensures issued == old(issued) + {trees[at]}
      ensures Entries()[..at] == old(Entries()) && Entries()[at].cells == []
    {
      var tree := new ResponderTree();
      slots[at] := slots[at].(tree := tree);
      trees := trees + [tree];
      issued := issued + {tree};
    }

    /** Give the `n` entries behind those in use an empty tree each. */
    method InitTrees(n: nat)
      requires Owns() && Accounted() && count == |trees| && count + n <= slots.Length
      modifies this`trees, this`issued, slots
      ensures Owns() && Accounted() && old(issued) <= issued && fresh(issued - old(issued))
      ensures |trees| == count + n && trees[..count] == old(trees)
      ensures Entries()[..count] == old(Entries()) && EmptyFrom(Entries(), count)
      ensures forall i :: count <= i < |trees| ==> fresh(trees[i])
    {
      for k := 0 to n
        invariant Owns() && Accounted() && |trees| == count + k && trees[..count] == old(trees)
        invariant old(issued) <= issued && fresh(issued - old(issued))
        invariant Entries()[..count] == old(Entries()) && EmptyFrom(Entries(), count)
        invariant forall i :: count <= i < |trees| ==> fresh(trees[i])
      {
        ghost var es := Entries();
        InitTree(count + k);
        OneMoreEmpty(es, Entries(), count);
      }
    }

    /** Configure staged entry `i` as the virtual endpoint `want[i]`, if it fits. */
    method FillVirtual(configs: seq<VirtualConfig>, mems: seq<seq<Junk>>, i: nat,
                       ghost want: seq<Endpoint>, ghost oks: seq<bool>) returns (ok: bool)
      requires Owns() && WantVirtuals(manu, configs, mems, want, oks) && i < |configs|
      requires count + i < |trees| && Entries()[count + i].cells == []
      modifies slots, trees`cells
      ensures Owns()
      ensures ok <==> oks[i]
      ensures ok ==> Entries() == old(Entries())[count + i := want[i]]
      ensures Entries()[..count] == old(Entries()[..count])
    {
      var tree, config := slots[count + i].tree, configs[i];
      assert Entries()[count + i].cells == tree.cells;
      ok := FillTree(tree, manu, config, mems[i]);
      ChangedTree(count + i);
      if ok {
        SetEntry(count + i, config.id, Virtual, 0);
      }
    }

    /** Nothing before the staged entries changed, and unless one failed the first `i` of them are as wanted. */
    ghost predicate Filling(start: seq<Endpoint>, want: seq<Endpoint>, i: nat, ok: bool)
      reads this`slots, this`trees, this`retired, this`count, slots, trees
    {
      && Owns() && count + |want| == |trees| == |start| && Entries()[..count] == start[..count]
      && (ok ==> Partly(Entries(), start, want, count, i))
    }

    /** Go on with the entry after `i` entries as wanted. */
    method FillNextVirtual(configs: seq<VirtualConfig>, mems: seq<seq<Junk>>, i: nat,
                         ghost start: seq<Endpoint>, ghost want: seq<Endpoint>, ghost oks: seq<bool>) returns (ok: bool)
      requires WantVirtuals(manu, configs, mems, want, oks) && i < |configs| && Filling(start, want, i, true)
      modifies slots, trees`cells
      ensures Filling(start, want, i + 1, ok)
      ensures ok <==> oks[i]
    {
      FillOneMore(Entries(), start, want, count, i);
      ok := FillVirtual(configs, mems, i, want, oks);
    }

    /** Configure the staged entries one by one, stopping at the first that fails. */
    method FillVirtuals(configs: seq<VirtualConfig>, mems: seq<seq<Junk>>,
                        ghost want: seq<Endpoint>, ghost oks: seq<bool>) returns (ok: bool)
      requires Owns() && WantVirtuals(manu, configs, mems, want, oks) && count + |configs| == |trees|
      requires EmptyFrom(Entries(), count)
      modifies slots, trees`cells
      ensures Owns()
      ensures ok <==> AllTrue(oks)
      ensures Entries()[..count] == old(Entries()[..count])
      ensures ok ==> Entries() == old(Entries()[..count]) + want
    {
      ghost var start := Entries();
      NoneFilled(start, want, count);
      var i := 0;
      ok := true;
      while i < |configs| && ok
        invariant i <= |configs| && Filling(start, want, i, ok)
        invariant if ok then forall k :: 0 <= k < i ==> oks[k] else 0 < i && !oks[i - 1]
        decreases |configs| - i, ok
      {
        ok := FillNextVirtual(configs, mems, i, start, want, oks);
        i := i + 1;
      }
      if ok {
        AllFilled(Entries(), start, want, count);
      }
    }

    /** Release a tree that no entry in use owns any more. */
    method Release(t: ResponderTree)
      requires Owns() && Retired() && t !in trees && t !in retired && t.releases == 0
      modifies this`retired, t
      ensures Owns() && Retired()
      ensures Entries() == old(Entries())
      ensures retired == old(retired) + {t}
    {
      t.Clear();
      retired := retired + {t};
    }

    /** Trees that entries from `start` on still refer to, but that are no longer in use nor released. */
    ghost predicate Loose(gone: seq<ResponderTree>, start: nat)
      reads this`slots, this`trees, this`retired, slots, gone
    {
      && start + |gone| <= slots.Length
      && (forall j :: 0 <= j < |gone| ==> slots[start + j].tree == gone[j])
      && (forall j :: 0 <= j < |gone| ==> gone[j].releases == 0 && gone[j] !in retired && gone[j] !in trees)
      && (forall i, j :: 0 <= i < j < |gone| ==> gone[i] != gone[j])
    }

    /** Release the tree of one entry. */
    method ReleaseNext(at: nat, ghost left: seq<ResponderTree>)
      requires Owns() && Retired() && left != [] && Loose(left, at)
      modifies this`retired, left
      ensures Owns() && Retired()
      ensures Entries() == old(Entries())
      ensures Loose(left[1..], at + 1)
      ensures retired + Elems(left[1..]) == old(retired) + Elems(left)
    {
      var tree := slots[at].tree;
      assert tree == left[0];
      assert left == [tree] + left[1..];
      Release(tree);
    }

    /** Release the trees of the `n` entries from `start` on. */
    method ReleaseAll(start: nat, n: nat, ghost gone: seq<ResponderTree>)
      requires Owns() && Retired() && |gone| == n && Loose(gone, start)
      modifies this`retired, gone
      ensures Owns() && Retired()
      ensures Entries() == old(Entries())
      ensures retired == old(retired) + Elems(gone)
    {
      ghost var left := gone;
      for k := 0 to n
        invariant |left| == n - k && forall t :: t in left ==> t in gone
        invariant Owns() && Retired() && Entries() == old(Entries()) && Loose(left, start + k)
        invariant retired + Elems(left) == old(retired) + Elems(gone)
      {
        ReleaseNext(start + k, left);
        left := left[1..];
      }
    }

    /** Take the `n` entries from `start` on out of use and release their trees. */
    method Deinit(start: nat, n: nat)
      requires Owns() && Retired() && start + n == |trees|
      modifies this`trees, this`retired, trees
      ensures Owns() && Retired()
      ensures trees == old(trees)[..start] && Entries() == old(Entries())[..start]
      ensures retired == old(retired) + Elems(old(trees)[start..])
    {
      ghost var gone := trees[start..];
      trees := trees[..start];
      ReleaseAll(start, n, gone);
    }

    /** The staged entries become part of the device. */
    method Commit(n: nat, ghost before: State, ghost want: seq<Endpoint>)
      requires Owns() && Retired() && Accounted() && count + n == |trees|
      requires before == State(before.endpoints, listNumber, connected, manu, sent)
      requires Entries() == before.endpoints + want
      requires AllGood(before.endpoints) && AllGood(want)
      modifies this`count
      ensures Valid()
      ensures View() == Append(before, true, want)
    {
      count := count + n;
      assert Entries() == old(Entries());
    }

    /** The staged entries are given up. */
    method Abandon(n: nat, ghost before: State)
      requires Owns() && Retired() && Accounted() && count + n == |trees|
      requires before == State(before.endpoints, listNumber, connected, manu, sent)
      requires Entries()[..count] == before.endpoints && AllGood(before.endpoints)
      modifies this`trees, this`retired, trees
      ensures Valid()
      ensures View() == before
    {
      Deinit(count, n);
      SplitElems(old(trees), count);
    }

    /** Stage the new endpoints behind the old ones and then take all of them in, or none. */
    method PlaceVirtuals(configs: seq<VirtualConfig>, mems: seq<seq<Junk>>,
                         ghost want: seq<Endpoint>, ghost oks: seq<bool>) returns (ok: bool)
      requires Valid() && count + |configs| <= slots.Length
      requires WantVirtuals(manu, configs, mems, want, oks) && AllGood(want)
      modifies this`count, this`trees, this`retired, this`issued, slots, trees
      ensures Valid() && old(issued) <= issued && fresh(issued - old(issued))
      ensures ok <==> AllTrue(oks)
      ensures View() == Append(old(View()), ok, want)
    {
      ghost var before := View();
      InitTrees(|configs|);
      assert Retired();
      ok := FillVirtuals(configs, mems, want, oks);
      if ok {
        Commit(|configs|, before, want);
      } else {
        Abandon(|configs|, before);
      }
    }

    /** Add virtual endpoints with their initial responders: all of them, or none. */
    method AddVirtualEndpoints(configs: seq<VirtualConfig>, mems: seq<seq<Junk>>, grow: bool) returns (ok: bool)
      requires Valid() && |mems| == |configs|
      requires forall k :: 0 <= k < |configs| ==> NULL_RID !in configs[k].rids && ValidId(configs[k].id)
      modifies this, slots, trees
      ensures Valid() && old(issued) <= issued && fresh(issued - old(issued))
      ensures slots == old(slots) || fresh(slots)
      ensures ok <==> (old(count + |configs| <= slots.Length) || grow) && AllVirtualsFit(old(manu), configs, mems)
      ensures View() == Append(old(View()), ok, NewVirtuals(old(manu), configs, mems))
    {
      ok := Reserve(|configs|, grow);
      if ok {
        VirtualsAsWanted(manu, configs, mems);
        ok := PlaceVirtuals(configs, mems, NewVirtuals(manu, configs, mems), VirtualOks(manu, configs, mems));
      }
    }

    /** Configure staged entry `i` as the physical endpoint `want[i]`, if it fits. */
    method FillPhysical(configs: seq<PhysicalConfig>, grants: seq<nat>, i: nat,
                        ghost want: seq<Endpoint>, ghost oks: seq<bool>) returns (ok: bool)
      requires Owns() && WantPhysicals(configs, grants, want, oks) && i < |configs|
      requires count + i < |trees| && Entries()[count + i].cells == []
      modifies slots, trees`cells
      ensures Owns()
      ensures ok <==> oks[i]
      ensures ok ==> Entries() == old(Entries())[count + i := want[i]]
      ensures Entries()[..count] == old(Entries()[..count])
    {
      var tree, config := slots[count + i].tree, configs[i];
      assert Entries()[count + i].cells == tree.cells;
      var status := tree.AddPhysical(config.responders, grants[i]);
      ok := status == Ok;
      ChangedTree(count + i);
      if ok {
        SetEntry(count + i, config.id, Physical, 0);
      }
    }

    /** Go on with the entry after `i` entries as wanted. */
    method FillNextPhysical(configs: seq<PhysicalConfig>, grants: seq<nat>, i: nat,
                         ghost start: seq<Endpoint>, ghost want: seq<Endpoint>, ghost oks: seq<bool>) returns (ok: bool)
      requires WantPhysicals(configs, grants, want, oks) && i < |configs| && Filling(start, want, i, true)
      modifies slots, trees`cells
      ensures Filling(start, want, i + 1, ok)
      ensures ok <==> oks[i]
    {
      FillOneMore(Entries(), start, want, count, i);
      ok := FillPhysical(configs, grants, i, want, oks);
    }

    /** Configure the staged entries one by one, stopping at the first that fails. */
    method FillPhysicals(configs: seq<PhysicalConfig>, grants: seq<nat>,
                        ghost want: seq<Endpoint>, ghost oks: seq<bool>) returns (ok: bool)
      requires Owns() && WantPhysicals(configs, grants, want, oks) && count + |configs| == |trees|
      requires EmptyFrom(Entries(), count)
      modifies slots, trees`cells
      ensures Owns()
      ensures ok <==> AllTrue(oks)
      ensures Entries()[..count] == old(Entries()[..count])
      ensures ok ==> Entries() == old(Entries()[..count]) + want
    {
      ghost var start := Entries();
      NoneFilled(start, want, count);
      var i := 0;
      ok := true;
      while i < |configs| && ok
        invariant i <= |configs| && Filling(start, want, i, ok)
        invariant if ok then forall k :: 0 <= k < i ==> oks[k] else 0 < i && !oks[i - 1]
        decreases |configs| - i, ok
      {
        ok := FillNextPhysical(configs, grants, i, start, want, oks);
        i := i + 1;
      }
      if ok {
        AllFilled(Entries(), start, want, count);
      }
    }

    method PlacePhysicals(configs: seq<PhysicalConfig>, grants: seq<nat>,
                          ghost want: seq<Endpoint>, ghost oks: seq<bool>) returns (ok: bool)
      requires Valid() && count + |configs| <= slots.Length
      requires WantPhysicals(configs, grants, want, oks) && AllGood(want)
      modifies this`count, this`trees, this`retired, this`issued, slots, trees
      ensures Valid() && old(issued) <= issued && fresh(issued - old(issued))
      ensures ok <==> AllTrue(oks)
      ensures View() == Append(old(View()), ok, want)
    {
      ghost var before := View();
      InitTrees(|configs|);
      assert Retired();
      ok := FillPhysicals(configs, grants, want, oks);
      if ok {
        Commit(|configs|, before, want);
      } else {
        Abandon(|configs|, before);
      }
    }

    /** Add physical endpoints with their initial responders: all of them, or none. */
    method AddPhysicalEndpoints(configs: seq<PhysicalConfig>, grants: seq<nat>, grow: bool) returns (ok: bool)
      requires Valid() && |grants| == |configs|
      requires forall k :: 0 <= k < |configs| ==> ValidId(configs[k].id)
      modifies this, slots, trees
      ensures Valid() && old(issued) <= issued && fresh(issued - old(issued))
      ensures slots == old(slots) || fresh(slots)
      ensures ok <==> (old(count + |configs| <= slots.Length) || grow) && AllPhysicalsFit(configs, grants)
      ensures View() == Append(old(View()), ok, NewPhysicals(configs, grants))
    {
      ok := Reserve(|configs|, grow);
      if ok {
        PhysicalsAsWanted(configs, grants);
        ok := PlacePhysicals(configs, grants, NewPhysicals(configs, grants), PhysicalOks(configs, grants));
      }
    }

    // ----- removing endpoints

    /** Close the hole at `k`, moving the entries behind it down; the last one stays where it was as well. */
    method MoveDown(k: nat)
      requires k < count <= slots.Length
      modifies slots
      ensures slots[..count] == Shift(old(slots[..count]), k)
      ensures slots[count..] == old(slots[count..])
    {
      if k != count - 1 {
        forall i | k <= i < count - 1 {
          slots[i] := slots[i + 1];
        }
      }
    }

    ghost function TreeCells(): (r: seq<seq<Responder>>)
      reads this`trees, trees
      ensures |r| == |trees|
    {
      CellsOf(trees)
    }

    /** The array and the trees are as a removal leaves them. */
    ghost predicate ShiftedTo(c: Compaction<Slot>, was: seq<seq<Responder>>)
      requires count <= slots.Length
      reads this`slots, this`trees, this`count, slots, trees
    {
      slots[..count] == c.slots && Tracked(trees, was, c.released)
    }

    /** Take out entry `k`: clear its tree and close the hole. */
    method TakeOut(k: nat, ghost c: Compaction<Slot>, ghost was: seq<seq<Responder>>)
      requires k < count <= slots.Length && ShiftedTo(c, was)
      requires slots[k].tree != null && slots[k].tree in trees
      modifies slots, trees
      ensures slots[..count] == Shift(c.slots, k)
      ensures Tracked(trees, was, c.released + [c.slots[k]])
    {
      assert slots[k] == c.slots[k];
      ClearTree(slots[k], trees, was, c.released);
      MoveDown(k);
    }

    /** Take out the first entry with an id: clear its tree and close the hole. */
    method ShiftOutOne(id: u16, ghost c: Compaction<Slot>, ghost was: seq<seq<Responder>>) returns (ok: bool)
      requires count <= slots.Length && c.ok && ShiftedTo(c, was)
      requires forall x :: x in c.slots ==> x.tree != null && x.tree in trees
      modifies slots, trees
      ensures ok == Taken(c, id).ok
      ensures ShiftedTo(Taken(c, id), was)
    {
      var at := FindSlot(id);
      ok := at.Some?;
      if ok {
        TakeOut(at.value, c, was);
      }
    }

    /** One round of the removal loop. */
    method ShiftNext(ids: seq<u16>, n: nat, ghost start: seq<Slot>, ghost c: Compaction<Slot>, ghost was: seq<seq<Responder>>)
      returns (ok: bool)
      requires count <= slots.Length && OwnTrees(start, trees)
      requires n < |ids| && c.ok && After(start, ids, n, c) && ShiftedTo(c, was)
      modifies slots, trees
      ensures ok == Taken(c, ids[n]).ok && ShiftedTo(Taken(c, ids[n]), was)
      ensures After(start, ids, n + 1, Taken(c, ids[n]))
    {
      TakeNext(start, trees, ids, n, c);
      ok := ShiftOutOne(ids[n], c, was);
    }

    /**
     The removal loop. The count stays what it was, so the copies that pile up behind the live entries
     are searched as well. A tree is cleared each time an entry referring to it is taken out.
     */
    method ShiftOut(ids: seq<u16>, ghost start: seq<Slot>, ghost was: seq<seq<Responder>>) returns (ok: bool)
      requires count <= slots.Length && OwnTrees(start, trees) && ShiftedTo(Compaction(start, [], true), was)
      modifies slots, trees
      ensures ok == Compact(start, SlotId, ids).ok
      ensures ShiftedTo(Compact(start, SlotId, ids), was)
    {
      ghost var c := Compaction(start, [], true);
      ok := true;
      var n := 0;
      while n < |ids| && ok
        invariant n <= |ids| && ok == c.ok && After(start, ids, n, c)
        invariant ShiftedTo(c, was)
        decreases |ids| - n, ok
      {
        ok := ShiftNext(ids, n, start, c, was);
        c := Taken(c, ids[n]);
        n := n + 1;
      }
      AfterAll(start, ids, n, c);
    }

    /** Keep only the first entries; what they do not own has been released. */
    method Keep(n: nat, ghost kept: seq<Slot>)
      requires 0 < slots.Length && n == |kept| <= slots.Length && slots[..n] == kept && HaveTrees(kept)
      requires Retired() && Accounted() && forall i :: 0 <= i < |trees| ==> trees[i] !in retired
      requires KeepsTrees(kept, trees) && AllGood(Join(kept, TreesOf(kept)))
      modifies this`count, this`trees, this`retired
      ensures Valid()
      ensures Entries() == Join(kept, TreesOf(kept))
    {
      ghost var kt := TreesOf(kept);
      count := n;
      retired := retired + (Elems(trees) - Elems(kt));
      trees := kt;
    }

    /** What ShiftOut leaves, with the count lowered at last. */
    method Settle(n: nat, ghost ss: seq<Slot>, ghost es: seq<Endpoint>, ghost was: seq<seq<Responder>>, ghost ids: seq<u16>)
      requires 0 < slots.Length && count == |trees| <= slots.Length && n == |ids|
      requires OwnTrees(ss, trees) && Joined(es, ss, was) && Covered(ss, SlotId, ids) && AllGood(es)
      requires ShiftedTo(Compact(ss, SlotId, ids), was)
      requires Retired() && Accounted() && forall i :: 0 <= i < |trees| ==> trees[i] !in retired
      modifies this`count, this`trees, this`retired
      ensures Valid()
      ensures Entries() == RemoveFirsts(es, EndpointId, ids)
    {
      LeftOver(es, ss, trees, was, ids);
      ghost var kept := RemoveFirsts(ss, SlotId, ids);
      assert slots[..count - n] == slots[..count][..count - n];
      Keep(count - n, kept);
    }

    method AllExist(ids: seq<u16>) returns (ok: bool)
      requires Valid()
      ensures ok <==> AllPresent(View(), ids)
    {
      for n := 0 to |ids|
        invariant forall k :: 0 <= k < n ==> FindEndpoint(View(), ids[k]).Some?
      {
        var at := Find(ids[n]);
        if at.None? {
          return false;
        }
      }
      ok := true;
    }

    /** Remove endpoints by id: all of them, or none if one does not exist. */
    method RemoveAll(ids: seq<u16>) returns (ok: bool)
      requires Valid()
      requires AllPresent(View(), ids) ==> Covered(View().endpoints, EndpointId, ids)
      modifies this`count, this`trees, this`retired, slots, trees
      ensures Valid()
      ensures ok <==> AllPresent(old(View()), ids)
      ensures View() == if ok then old(View()).(endpoints := RemoveFirsts(old(View()).endpoints, EndpointId, ids))
                        else old(View())
    {
      ok := AllExist(ids);
      if ok {
        ok := RemovePresent(ids);
      }
    }

    method RemovePresent(ids: seq<u16>) returns (ok: bool)
      requires Valid() && Covered(View().endpoints, EndpointId, ids)
      modifies this`count, this`trees, this`retired, slots, trees
      ensures Valid()
      ensures ok
      ensures View() == old(View()).(endpoints := RemoveFirsts(old(View()).endpoints, EndpointId, ids))
    {
      ghost var ss, es, was := slots[..count], Entries(), TreeCells();
      SameIds(es, ss, was, ids);
      RemovalReleasesOnce(ss, trees, ids);
      assert ShiftedTo(Compaction(ss, [], true), was);
      ok := ShiftOut(ids, ss, was);
      Settle(|ids|, ss, es, was, ids);
    }

    /** Release everything; the device is gone, and every tree it ever had has been released exactly once. */
    method Destroy()
      requires Valid()
      modifies this`count, this`trees, this`retired, trees
      ensures trees == [] && retired == issued && Retired()
    {
      Deinit(0, count);
      count := 0;
      assert old(trees)[0..] == old(trees);
    }

    // ----- changing the responders of an endpoint

    /** Once the contents of one tree in use have changed, the view has changed in that endpoint only. */
    twostate lemma {:induction false} ChangedCells(at: nat)
      requires old(Valid()) && unchanged(this) && unchanged(slots) && at < |trees|
      requires forall i :: 0 <= i < |trees| && i != at ==> unchanged(trees[i])
      requires forall t :: t in retired ==> unchanged(t)
      requires trees[at].releases == 0
      requires GoodEndpoint(old(Entries())[at].(cells := trees[at].cells))
      ensures Valid()
      ensures View() == SetCells(old(View()), at, trees[at].cells)
    {
      ChangedTree(at);
    }

    /** Which endpoint a responder call works on. */
    method LocateSlot(id: u16, kind: Kind, empty: bool) returns (t: Target)
      requires Valid()
      ensures t == Locate(View(), id, kind, empty)
    {
      if empty {
        return Bad(Invalid);
      }
      var at := Find(id);
      if at.None? {
        return Bad(NotFound);
      }
      assert View().endpoints[at.value].kind == slots[at.value].kind;
      t := if slots[at.value].kind != kind then Bad(Invalid) else At(at.value);
    }

    method AddStatic(id: u16, uids: seq<Uid>, mem: seq<Junk>) returns (status: Status)
      requires Valid()
      modifies this`sent, slots, trees`cells
      ensures Valid()
      ensures Outcome(status, View()) == DeviceSpec.AddStatic(old(View()), id, uids, mem)
    {
      var t := LocateSlot(id, Virtual, uids == []);
      if t.Bad? {
        return t.status;
      }
      var tree := slots[t.index].tree;
      assert trees[t.index] == tree && Entries()[t.index].cells == tree.cells;
      status := tree.AddStatic(uids, mem);
      ChangedCells(t.index);
      if status == Ok {
        NotifyResponders(t.index);
      }
    }

    method RequestUids(rids: seq<Uuid>)
      requires Valid()
      modifies this`sent
      ensures Valid()
      ensures View() == old(View()).(sent := old(sent) + [UidRequest(rids)])
    {
      sent := sent + [UidRequest(rids)];
    }

    /** The responders stay even if the broker cannot be asked; `request` is how asking it ends. */
    method AddDynamic(id: u16, rids: seq<Uuid>, mem: seq<Junk>, request: Status) returns (status: Status)
      requires Valid() && NULL_RID !in rids
      modifies this`sent, trees`cells
      ensures Valid()
      ensures Outcome(status, View()) == DeviceSpec.AddDynamic(old(View()), id, rids, mem, request)
    {
      var t := LocateSlot(id, Virtual, rids == []);
      if t.Bad? {
        return t.status;
      }
      var tree := slots[t.index].tree;
      assert trees[t.index] == tree && Entries()[t.index].cells == tree.cells;
      status := tree.AddDynamic(manu, rids, mem);
      ChangedCells(t.index);
      if status == Ok && connected {
        RequestUids(rids);
        status := request;
      }
    }

    method AddPhysical(id: u16, ps: seq<PhysicalResponder>, grants: nat) returns (status: Status)
      requires Valid()
      modifies this`sent, slots, trees`cells
      ensures Valid()
      ensures Outcome(status, View()) == AddPhysicalTo(old(View()), id, ps, grants)
    {
      var t := LocateSlot(id, Physical, ps == []);
      if t.Bad? {
        return t.status;
      }
      var tree := slots[t.index].tree;
      assert trees[t.index] == tree && Entries()[t.index].cells == tree.cells;
      BatchAddKeeps(tree.cells, PhysicalCells(ps, grants), grants < |ps|);
      status := tree.AddPhysical(ps, grants);
      ChangedCells(t.index);
      if status == Ok {
        NotifyResponders(t.index);
      }
    }

    /** Take responders out of one endpoint's tree, if they are all there. */
    method TakeUids(i: nat, uids: seq<Uid>) returns (ok: bool)
      requires Valid() && i < count
      modifies trees`cells
      ensures Valid()
      ensures ok <==> UidKeys(uids) <= Keys(old(View()).endpoints[i].cells)
      ensures View() == if ok then SetCells(old(View()), i, Without(old(View()).endpoints[i].cells, UidKeys(uids)))
                        else old(View())
    {
      var tree := slots[i].tree;
      assert trees[i] == tree && Entries()[i].cells == tree.cells;
      ok := tree.HasUids(uids);
      if ok {
        tree.RemoveByUids(uids);
        ChangedCells(i);
      }
    }

    /** Remove responders by UID from an endpoint of the given kind: all of them, or none if one is missing. */
    method RemoveByUids(id: u16, kind: Kind, uids: seq<Uid>) returns (status: Status)
      requires Valid()
      modifies this`sent, slots, trees`cells
      ensures Valid()
      ensures Outcome(status, View()) == RemoveUids(old(View()), id, kind, uids)
    {
      var t := LocateSlot(id, kind, uids == []);
      if t.Bad? {
        return t.status;
      }
      var present := TakeUids(t.index, uids);
      if !present {
        return NotFound;
      }
      if connected {
        NotifyResponders(t.index);
      }
      NotifyResponders(t.index);
      status := Ok;
    }

    method RemoveDynamic(id: u16, rids: seq<Uuid>) returns (status: Status)
      requires Valid() && NULL_RID !in rids
      modifies this`sent, slots, trees`cells
      ensures Valid()
      ensures Outcome(status, View()) == DeviceSpec.RemoveDynamic(old(View()), id, rids)
    {
      var t := LocateSlot(id, Virtual, rids == []);
      if t.Bad? {
        return t.status;
      }
      var tree := slots[t.index].tree;
      assert trees[t.index] == tree && Entries()[t.index].cells == tree.cells;
      var present := tree.HasRids(rids);
      if !present {
        return NotFound;
      }
      tree.RemoveByRids(rids);
      ChangedCells(t.index);
      NotifyResponders(t.index);
      status := Ok;
    }

    // ----- endpoint calls

    method AddVirtuals(configs: seq<VirtualConfig>, mems: seq<seq<Junk>>, grow: bool) returns (status: Status)
      requires Valid() && |mems| == |configs| && forall k :: 0 <= k < |configs| ==> NULL_RID !in configs[k].rids
      modifies this, slots, trees
      ensures Valid() && old(issued) <= issued && fresh(issued - old(issued))
      ensures slots == old(slots) || fresh(slots)
      ensures var room := old(count + |configs| <= slots.Length) || grow;
              Outcome(status, View()) == DeviceSpec.AddVirtuals(old(View()), configs, room, mems)
    {
      if configs == [] {
        return Invalid;
      }
      for k := 0 to |configs|
        invariant Valid() && View() == old(View()) && slots == old(slots) && count == old(count)
        invariant trees == old(trees)
        invariant forall i :: 0 <= i < k ==> ValidId(configs[i].id)
      {
        if !ValidId(configs[k].id) {
          return Invalid;
        }
      }
      var ok := AddVirtualEndpoints(configs, mems, grow);
      if ok {
        NotifyList();
        status := Ok;
      } else {
        status := NoMem;
      }
    }

    method AddPhysicals(configs: seq<PhysicalConfig>, grants: seq<nat>, grow: bool) returns (status: Status)
      requires Valid() && |grants| == |configs|
      modifies this, slots, trees
      ensures Valid() && old(issued) <= issued && fresh(issued - old(issued))
      ensures slots == old(slots) || fresh(slots)
      ensures var room := old(count + |configs| <= slots.Length) || grow;
              Outcome(status, View()) == DeviceSpec.AddPhysicals(old(View()), configs, room, grants)
    {
      if configs == [] {
        return Invalid;
      }
      for k := 0 to |configs|
        invariant Valid() && View() == old(View()) && slots == old(slots) && count == old(count)
        invariant trees == old(trees)
        invariant forall i :: 0 <= i < k ==> ValidId(configs[i].id)
      {
        if !ValidId(configs[k].id) {
          return Invalid;
        }
      }
      var ok := AddPhysicalEndpoints(configs, grants, grow);
      if ok {
        NotifyList();
        status := Ok;
      } else {
        status := NoMem;
      }
    }

    method Remove(ids: seq<u16>) returns (status: Status)
      requires Valid()
      requires AllPresent(View(), ids) ==> Covered(View().endpoints, EndpointId, ids)
      modifies this, slots, trees
      ensures Valid() && issued == old(issued) && slots == old(slots)
      ensures Outcome(status, View()) == RemoveEndpoints(old(View()), ids)
    {
      if ids == [] {
        return Invalid;
      }
      var ok := RemoveAll(ids);
      if ok {
        NotifyList();
        status := Ok;
      } else {
        status := NotFound;
      }
    }

    // ----- broker events

    method Connect()
      requires Valid()
      modifies this`connected
      ensures Valid()
      ensures View() == old(View()).(connected := true)
    {
      connected := true;
    }

    method ResetAt(k: nat)
      requires Valid() && k < count
      modifies trees`cells
      ensures Valid()
      ensures View() == SetCells(old(View()), k, Reset(old(View()).endpoints[k].cells, manu))
    {
      var tree := slots[k].tree;
      assert trees[k] == tree && Entries()[k].cells == tree.cells;
      ResetKeepsGood(Entries()[k], manu);
      tree.ResetDynamic(manu);
      ChangedCells(k);
    }

    /** Connection lost: every dynamic responder waits for a UID again. */
    method Disconnect()
      requires Valid()
      modifies this`connected, trees`cells
      ensures Valid()
      ensures View() == Disconnected(old(View()))
    {
      connected := false;
      ghost var start := View();
      for k := 0 to count
        invariant Valid() && ResetUpTo(View(), start, k)
      {
        ResetNext(View(), start, k);
        ResetAt(k);
      }
      ResetAll(View(), start);
    }

    /** Apply the broker's mappings to one endpoint, and announce it if any applied. */
    method AssignAt(k: nat, ms: seq<Mapping>) returns (found: nat)
      requires Valid() && k < count && RealRids(ms)
      modifies this`sent, slots, trees`cells
      ensures Valid()
      ensures found == MatchesOn(old(View()).endpoints[k], ms)
      ensures View() == AssignOne(old(View()), ms, k)
    {
      var tree := slots[k].tree;
      ghost var e := Entries()[k];
      assert trees[k] == tree && e.cells == tree.cells;
      NoMatchNoChange(e, ms);
      AssignedKeepsGood(e, ms);
      found := tree.Assign(ms);
      ChangedCells(k);
      if found > 0 {
        NotifyResponders(k);
      }
    }

    /** The first `k` endpoints have been visited and gave `total` matches. */
    ghost predicate VisitedFirst(start: State, ms: seq<Mapping>, k: nat, total: nat)
      reads this, slots, trees, retired
    {
      && Valid() && k <= count == |start.endpoints| && Good(start)
      && View() == AssignEach(start, ms, k) && total == TotalMatches(start.endpoints, ms, k)
    }

    /** So far the loop went as specified; `done` says that it stops here. */
    ghost predicate Visiting(start: State, ms: seq<Mapping>, k: nat, total: nat, done: bool)
      reads this, slots, trees, retired
    {
      && VisitedFirst(start, ms, k, total)
      && Visited(start.endpoints, ms, 0) == if done then k else Visited(start.endpoints, ms, k)
    }

    /** One round of the event loop: pass over a physical endpoint, or apply the mappings to a virtual one. */
    method Visit(k: nat, ms: seq<Mapping>, total: nat, ghost start: State) returns (total': nat, done: bool)
      requires k < count && RealRids(ms) && Visiting(start, ms, k, total, false)
      modifies this`sent, slots, trees`cells
      ensures Visiting(start, ms, k + 1, total', done)
    {
      AssignEachIsFirst(start, ms, k);
      AssignNext(start, ms, k);
      assert slots[k].kind == View().endpoints[k].kind;
      total', done := total, false;
      if slots[k].kind != Physical {
        var n := AssignAt(k, ms);
        total' := total + n;
        done := total' >= |ms|;
      }
    }

    /** Dynamic UIDs assigned by the broker; `found` says whether any of them was for this device. */
    method AssignUids(ms: seq<Mapping>) returns (found: bool)
      requires Valid() && RealRids(ms)
      modifies this`sent, slots, trees`cells
      ensures Valid()
      ensures View() == Assign(old(View()), ms)
      ensures found <==> var eps := old(View()).endpoints; TotalMatches(eps, ms, Visited(eps, ms, 0)) > 0
    {
      ghost var start := View();
      var total, stop := VisitAll(ms, start);
      AssignEachIsFirst(start, ms, stop);
      found := total > 0;
    }

    method VisitAll(ms: seq<Mapping>, ghost start: State) returns (total: nat, stop: nat)
      requires RealRids(ms) && Visiting(start, ms, 0, 0, false)
      modifies this`sent, slots, trees`cells
      ensures Visiting(start, ms, stop, total, true)
    {
      total, stop := 0, 0;
      var done := false;
      while stop < count && !done
        invariant Visiting(start, ms, stop, total, done)
        decreases count - stop, !done
      {
        total, done := Visit(stop, ms, total, start);
        stop := stop + 1;
      }
    }

    // ----- answering endpoint messages

    /** ENDPOINT_RESPONDERS. */
    method GetResponders(cc: CommandClass, data: seq<byte>, available: nat) returns (reply: Reply)
      requires Valid()
      ensures reply == RespondersReply(View(), cc, data, available)
    {
      if cc != Get {
        return Nack(UnsupportedCommandClass);
      }
      if |data| < 2 {
        return Nack(FormatError);
      }
      var id := Unpack16(data);
      var at := Find(id);
      if at.None? {
        return Nack(EndpointNumberInvalid);
      }
      var slot := slots[at.value];
      assert trees[at.value] == slot.tree && View().endpoints[at.value] == EndpointOf(slot, slot.tree.cells);
      reply := RespondersOf(id, slot.number, slot.tree.cells, available);
    }

    /** ENDPOINT_RESPONDER_LIST_CHANGE. */
    method GetResponderListChange(cc: CommandClass, data: seq<byte>, available: nat) returns (reply: Reply)
      requires Valid()
      ensures reply == ResponderListChangeReply(View(), cc, data, available)
    {
      if cc != Get {
        return Nack(UnsupportedCommandClass);
      }
      if |data| < 2 {
        return Nack(FormatError);
      }
      var id := Unpack16(data);
      var at := Find(id);
      if at.None? {
        return Nack(EndpointNumberInvalid);
      }
      var slot := slots[at.value];
      assert View().endpoints[at.value] == EndpointOf(slot, trees[at.value].cells);
      reply := RespondersOf(id, slot.number, [], available);
    }

    /** BINDING_CONTROL_FIELDS. */
    method GetBinding(cc: CommandClass, data: seq<byte>, available: nat) returns (reply: Reply)
      requires Valid()
      ensures reply == BindingReply(View(), cc, data, available)
    {
      if cc != Get {
        return Nack(UnsupportedCommandClass);
      }
      if |data| < 8 {
        return Nack(FormatError);
      }
      var id := Unpack16(data);
      var at := Find(id);
      if at.None? {
        return Nack(EndpointNumberInvalid);
      }
      var uid := Uid(Unpack16(data[2..]), Unpack32(data[4..]));
      var tree := slots[at.value].tree;
      assert trees[at.value] == tree && View().endpoints[at.value].cells == tree.cells;
      assert View().endpoints[at.value].id == id;
      var found := FindByUid(tree.cells, uid);
      if found.None? {
        return Nack(UnknownUid);
      }
      reply := BindingOf(id, uid, tree.cells[found.value], available);
    }

    /** ENDPOINT_LIST_CHANGE. */
    method GetListChange(cc: CommandClass, available: nat) returns (reply: Reply)
      requires Valid()
      ensures reply == ListChangeReply(View(), cc, available)
    {
      if cc != Get {
        return Nack(UnsupportedCommandClass);
      }
      var buf := ResponseBuffer(4, available);
      if buf == null {
        return Nack(HardwareFault);
      }
      Put32(buf, 0, listNumber);
      reply := Ack(buf[..4]);
    }

    /** ENDPOINT_LIST. */
    method GetList(cc: CommandClass, available: nat) returns (reply: Reply)
      requires Valid()
      ensures reply == ListReply(View(), cc, available)
    {
      if cc != Get {
        return Nack(UnsupportedCommandClass);
      }
      reply := ListOf(listNumber, slots[..count], available, Entries());
    }

    // ----- life cycle

    /**
     Give a new device its initial endpoints, physical ones first and without announcing them; on failure
     everything set up so far is released.
     */
    method Populate(pconfigs: seq<PhysicalConfig>, grants: seq<nat>, vconfigs: seq<VirtualConfig>, mems: seq<seq<Junk>>,
                    growFirst: bool, growSecond: bool) returns (ok: bool)
      requires Valid() && trees == [] && retired == {} && |grants| == |pconfigs| && |mems| == |vconfigs|
      requires forall k :: 0 <= k < |pconfigs| ==> ValidId(pconfigs[k].id)
      requires forall k :: 0 <= k < |vconfigs| ==> NULL_RID !in vconfigs[k].rids && ValidId(vconfigs[k].id)
      modifies this, slots
      ensures ok ==> Valid() && View() == old(View()).(endpoints :=
                       NewPhysicals(pconfigs, grants) + NewVirtuals(old(manu), vconfigs, mems))
      ensures ok ==> AllPhysicalsFit(pconfigs, grants) && AllVirtualsFit(old(manu), vconfigs, mems)
      ensures growFirst && growSecond ==>
                (ok <==> AllPhysicalsFit(pconfigs, grants) && AllVirtualsFit(old(manu), vconfigs, mems))
      ensures old(issued) <= issued && fresh(issued - old(issued))
      ensures !ok ==> trees == [] && retired == issued && Retired()
    {
      AppendTwice(View(), NewPhysicals(pconfigs, grants), NewVirtuals(manu, vconfigs, mems));
      ok := AddPhysicalEndpoints(pconfigs, grants, growFirst);
      if ok {
        ok := AddVirtualEndpoints(vconfigs, mems, growSecond);
      }
      if !ok {
        Destroy();
      }
    }
  }
}
