/**
 The responder tree as the library drives it: one insert, one lookup, one removal at a time.
 */
module ResponderTrees {
  import opened Wire
  import opened Responders
  import opened ResponderStore

  ghost function PhysicalUidKeys(ps: seq<PhysicalResponder>): (ks: set<Key>) {
    set p | p in ps :: ByUid(p.uid)
  }

  class ResponderTree {
    var cells: seq<Responder>
    // how often the contents have been handed back to the allocator
    ghost var releases: nat

    constructor ()
      ensures cells == [] && releases == 0
    {
      cells := [];
      releases := 0;
    }

    method Insert(r: Responder) returns (inserted: bool)
      requires Sorted(cells)
      modifies this`cells
      ensures Sorted(cells)
      ensures inserted <==> KeyOf(r) !in Keys(old(cells))
      ensures cells == if inserted then InsertSorted(old(cells), r) else old(cells)
    {
      FindIsLinearScan(cells, r);
      inserted := Find(cells, r).None?;
      if inserted {
        InsertKeepsSorted(cells, r);
        cells := InsertSorted(cells, r);
      }
    }

    method Remove(key: Responder)
      requires Sorted(cells)
      modifies this`cells
      ensures Sorted(cells)
      ensures cells == Without(old(cells), {KeyOf(key)})
    {
      RemoveKeyIsWithout(cells, key);
      RemoveKeyRemovesKey(cells, key);
      var at := Find(cells, key);
      if at.Some? {
        cells := cells[..at.value] + cells[at.value + 1..];
      }
    }

    method RemoveByUids(uids: seq<Uid>)
      requires Sorted(cells)
      modifies this`cells
      ensures Sorted(cells)
      ensures cells == Without(old(cells), UidKeys(uids))
    {
      WithoutNothing(cells);
      assert UidKeys(uids[..0]) == {};
      for n := 0 to |uids|
        invariant Sorted(cells)
        invariant cells == Without(old(cells), UidKeys(uids[..n]))
      {
        WithoutTwice(old(cells), UidKeys(uids[..n]), {ByUid(uids[n])});
        assert UidKeys(uids[..n + 1]) == UidKeys(uids[..n]) + {ByUid(uids[n])};
        Remove(UidKey(uids[n]));
      }
      assert uids[..|uids|] == uids;
    }

    method RemoveByRids(rids: seq<Uuid>)
      requires Sorted(cells)
      requires NULL_RID !in rids
      modifies this`cells
      ensures Sorted(cells)
      ensures cells == Without(old(cells), RidKeys(rids))
    {
      WithoutNothing(cells);
      assert RidKeys(rids[..0]) == {};
      for n := 0 to |rids|
        invariant Sorted(cells)
        invariant cells == Without(old(cells), RidKeys(rids[..n]))
      {
        WithoutTwice(old(cells), RidKeys(rids[..n]), {ByRid(rids[n])});
        assert RidKeys(rids[..n + 1]) == RidKeys(rids[..n]) + {ByRid(rids[n])};
        Remove(RidKey(rids[n], Uid(0, 0)));
      }
      assert rids[..|rids|] == rids;
    }

    method AddStatic(uids: seq<Uid>, mem: seq<Junk>) returns (status: Status)
      requires Sorted(cells)
      modifies this`cells
      ensures Sorted(cells)
      ensures Batch(status, cells) == BatchAdd(old(cells), StaticCells(uids, mem), |mem| < |uids|)
    {
      ghost var news := StaticCells(uids, mem);
      var n := 0;
      status := Ok;
      while n < |uids| && status == Ok
        invariant n <= |news|
        invariant Sorted(old(cells)) && Fresh(old(cells), news, n)
        invariant Sorted(cells) && cells == InsertFirst(old(cells), news, n)
        invariant status == Ok || (status == NoMem && n == |news| < |uids|)
               || (status == Exists && !Fresh(old(cells), news, |news|))
        decreases |uids| - n, if status == Ok then 1 else 0
      {
        if n == |mem| {
          status := NoMem;
        } else {
          FreshExtends(old(cells), news, n);
          var inserted := Insert(Responder(NULL_RID, uids[n], mem[n].binding, mem[n].control));
          if inserted { n := n + 1; } else { status := Exists; }
        }
      }
      if status != Ok {
        WithoutUndoesInsert(old(cells), news, n);
        assert KeysOfFirst(news, n) == UidKeys(uids[..n]) by { StaticKeys(uids, mem, n); }
        RemoveByUids(uids[..n]);
      }
    }

    method AddDynamic(manu: u16, rids: seq<Uuid>, mem: seq<Junk>) returns (status: Status)
      requires Sorted(cells)
      requires NULL_RID !in rids
      modifies this`cells
      ensures Sorted(cells)
      ensures Batch(status, cells) == BatchAdd(old(cells), DynamicCells(manu, rids, mem), |mem| < |rids|)
    {
      ghost var news := DynamicCells(manu, rids, mem);
      var n := 0;
      status := Ok;
      while n < |rids| && status == Ok
        invariant n <= |news|
        invariant Sorted(old(cells)) && Fresh(old(cells), news, n)
        invariant Sorted(cells) && cells == InsertFirst(old(cells), news, n)
        invariant status == Ok || (status == NoMem && n == |news| < |rids|)
               || (status == Exists && !Fresh(old(cells), news, |news|))
        decreases |rids| - n, if status == Ok then 1 else 0
      {
        if n == |mem| {
          status := NoMem;
        } else {
          FreshExtends(old(cells), news, n);
          var inserted := Insert(Responder(rids[n], DynamicUidRequest(manu), mem[n].binding, mem[n].control));
          if inserted { n := n + 1; } else { status := Exists; }
        }
      }
      if status != Ok {
        WithoutUndoesInsert(old(cells), news, n);
        assert KeysOfFirst(news, n) == RidKeys(rids[..n]) by { DynamicKeys(manu, rids, mem, n); }
        RemoveByRids(rids[..n]);
      }
    }

    method AddPhysical(ps: seq<PhysicalResponder>, grants: nat) returns (status: Status)
      requires Sorted(cells)
      modifies this`cells
      ensures Sorted(cells)
      ensures Batch(status, cells) == BatchAdd(old(cells), PhysicalCells(ps, grants), grants < |ps|)
    {
      ghost var news := PhysicalCells(ps, grants);
      var n := 0;
      status := Ok;
      while n < |ps| && status == Ok
        invariant n <= |news|
        invariant Sorted(old(cells)) && Fresh(old(cells), news, n)
        invariant Sorted(cells) && cells == InsertFirst(old(cells), news, n)
        invariant status == Ok || (status == NoMem && n == |news| < |ps|)
               || (status == Exists && !Fresh(old(cells), news, |news|))
        decreases |ps| - n, if status == Ok then 1 else 0
      {
        if n == grants {
          status := NoMem;
        } else {
          FreshExtends(old(cells), news, n);
          var inserted := Insert(PhysicalCell(ps[n]));
          if inserted { n := n + 1; } else { status := Exists; }
        }
      }
      if status != Ok {
        WithoutUndoesInsert(old(cells), news, n);
        assert KeysOfFirst(news, n) == PhysicalUidKeys(ps[..n]) by { PhysicalKeys(ps, grants, n); }
        TakeBackPhysical(ps[..n]);
      }
    }

    /** Undo the first part of a batch of physical responders, one UID at a time. */
    method TakeBackPhysical(ps: seq<PhysicalResponder>)
      requires Sorted(cells)
      modifies this`cells
      ensures Sorted(cells)
      ensures cells == Without(old(cells), PhysicalUidKeys(ps))
    {
      WithoutNothing(cells);
      assert PhysicalUidKeys(ps[..0]) == {};
      for i := 0 to |ps|
        invariant Sorted(cells)
        invariant cells == Without(old(cells), PhysicalUidKeys(ps[..i]))
      {
        WithoutTwice(old(cells), PhysicalUidKeys(ps[..i]), {ByUid(ps[i].uid)});
        assert PhysicalUidKeys(ps[..i + 1]) == PhysicalUidKeys(ps[..i]) + {ByUid(ps[i].uid)};
        assert UidKeys([ps[i].uid]) == {ByUid(ps[i].uid)};
        RemoveByUids([ps[i].uid]);
      }
      assert ps[..|ps|] == ps;
    }

    /** Whether every UID belongs to a responder without a RID. */
    method HasUids(uids: seq<Uid>) returns (all: bool)
      requires Sorted(cells)
      ensures all <==> UidKeys(uids) <= Keys(cells)
    {
      for n := 0 to |uids|
        invariant forall k :: 0 <= k < n ==> ByUid(uids[k]) in Keys(cells)
      {
        FindIsLinearScan(cells, UidKey(uids[n]));
        if FindByUid(cells, uids[n]).None? {
          assert ByUid(uids[n]) in UidKeys(uids);
          return false;
        }
      }
      all := true;
    }

    method HasRids(rids: seq<Uuid>) returns (all: bool)
      requires Sorted(cells) && NULL_RID !in rids
      ensures all <==> RidKeys(rids) <= Keys(cells)
    {
      for n := 0 to |rids|
        invariant forall k :: 0 <= k < n ==> ByRid(rids[k]) in Keys(cells)
      {
        FindIsLinearScan(cells, RidKey(rids[n], Uid(0, 0)));
        if FindByRid(cells, rids[n]).None? {
          assert ByRid(rids[n]) in RidKeys(rids);
          return false;
        }
      }
      all := true;
    }

    /** Apply one mapping: write the UID of the responder it names, if it is successful and there is one. */
    method Apply(m: Mapping) returns (matched: bool)
      modifies this`cells
      ensures matched <==> Names(old(cells), m)
      ensures cells == Applied(old(cells), m)
    {
      matched := false;
      if m.ok {
        var at := FindByRid(cells, m.rid);
        if at.Some? {
          cells := cells[at.value := cells[at.value].(uid := m.uid)];
          matched := true;
        }
      }
    }

    /** Apply a broker's assignment list to this endpoint; `matches` counts the mappings that applied. */
    method Assign(ms: seq<Mapping>) returns (matches: nat)
      requires Sorted(cells)
      requires forall m :: m in ms && m.ok ==> m.rid != NULL_RID
      modifies this`cells
      ensures Sorted(cells)
      ensures cells == Assigned(old(cells), ms, |ms|)
      ensures matches == Matches(old(cells), ms, |ms|)
    {
      matches := 0;
      NothingAssigned(cells, ms);
      for n := 0 to |ms|
        invariant Sorted(cells)
        invariant cells == Assigned(old(cells), ms, n)
        invariant matches == Matches(old(cells), ms, n)
      {
        ApplyNext(old(cells), ms, n);
        var matched := Apply(ms[n]);
        if matched {
          matches := matches + 1;
        }
      }
    }

    /** Put every dynamic responder back to waiting for a UID. */
    method ResetDynamic(manu: u16)
      requires Sorted(cells)
      modifies this`cells
      ensures Sorted(cells)
      ensures cells == Reset(old(cells), manu)
    {
      for n := 0 to |cells|
        invariant |cells| == |old(cells)|
        invariant forall i :: 0 <= i < n ==> cells[i] == ResetCell(old(cells)[i], manu)
        invariant forall i :: n <= i < |cells| ==> cells[i] == old(cells)[i]
      {
        if cells[n].rid != NULL_RID {
          cells := cells[n := cells[n].(uid := DynamicUidRequest(manu))];
        }
      }
      SameKeysSameOrder(old(cells), cells);
    }

    /** Hand the contents back to the allocator. */
    method Clear()
      modifies this
      ensures cells == [] && releases == old(releases) + 1
    {
      cells := [];
      releases := releases + 1;
    }
  }

  lemma {:induction false} WithoutNothing(cells: seq<Responder>)
    ensures Without(cells, {}) == cells
  {
    if cells != [] {
      WithoutNothing(cells[1..]);
    }
  }

  lemma {:induction false} StaticKeys(uids: seq<Uid>, mem: seq<Junk>, n: nat)
    requires n <= |StaticCells(uids, mem)|
    ensures KeysOfFirst(StaticCells(uids, mem), n) == UidKeys(uids[..n])
  {
    var news := StaticCells(uids, mem);
    forall i | 0 <= i < n ensures KeyOf(news[i]) == ByUid(uids[..n][i]) {}
  }

  lemma {:induction false} DynamicKeys(manu: u16, rids: seq<Uuid>, mem: seq<Junk>, n: nat)
    requires n <= |DynamicCells(manu, rids, mem)|
    requires NULL_RID !in rids
    ensures KeysOfFirst(DynamicCells(manu, rids, mem), n) == RidKeys(rids[..n])
  {
    var news := DynamicCells(manu, rids, mem);
    forall i | 0 <= i < n ensures KeyOf(news[i]) == ByRid(rids[..n][i]) {}
  }

  lemma {:induction false} PhysicalKeys(ps: seq<PhysicalResponder>, grants: nat, n: nat)
    requires n <= |PhysicalCells(ps, grants)|
    ensures KeysOfFirst(PhysicalCells(ps, grants), n) == PhysicalUidKeys(ps[..n])
  {
    var news := PhysicalCells(ps, grants);
    forall i | 0 <= i < n ensures KeyOf(news[i]) == ByUid(ps[..n][i].uid) {}
  }

  predicate Names(cells: seq<Responder>, m: Mapping) {
    m.ok && FindByRid(cells, m.rid).Some?
  }

  function Applied(cells: seq<Responder>, m: Mapping): (r: seq<Responder>) {
    if Names(cells, m) then
      var at := FindByRid(cells, m.rid).value;
      cells[at := cells[at].(uid := m.uid)]
    else cells
  }

  lemma {:induction false} NothingAssigned(cells: seq<Responder>, ms: seq<Mapping>)
    ensures Assigned(cells, ms, 0) == cells
  {}

  lemma {:induction false} RefusedMapping(cells: seq<Responder>, ms: seq<Mapping>, n: nat)
    requires n < |ms| && !ms[n].ok
    ensures Assigned(cells, ms, n + 1) == Assigned(cells, ms, n)
  {}

  /** The list so far and one more mapping. */
  lemma {:induction false} ApplyNext(cells: seq<Responder>, ms: seq<Mapping>, n: nat)
    requires Sorted(cells) && n < |ms| && (ms[n].ok ==> ms[n].rid != NULL_RID) && Sorted(Assigned(cells, ms, n))
    ensures var before := Assigned(cells, ms, n);
            && Assigned(cells, ms, n + 1) == Applied(before, ms[n]) && Sorted(Assigned(cells, ms, n + 1))
            && Matches(cells, ms, n + 1) == Matches(cells, ms, n) + if Names(before, ms[n]) then 1 else 0
  {
    if ms[n].ok {
      AssignStep(cells, ms, n);
    } else {
      RefusedMapping(cells, ms, n);
    }
  }

  /** Writing the UID of the one responder a mapping names extends the assignment by that mapping. */
  lemma {:induction false} AssignStep(cells: seq<Responder>, ms: seq<Mapping>, n: nat)
    requires Sorted(cells) && n < |ms|
    requires ms[n].ok && ms[n].rid != NULL_RID
    ensures var before := Assigned(cells, ms, n);
            var at := FindByRid(cells, ms[n].rid);
            Assigned(cells, ms, n + 1)
              == if at.Some? then before[at.value := before[at.value].(uid := ms[n].uid)] else before
    ensures FindByRid(Assigned(cells, ms, n), ms[n].rid) == FindByRid(cells, ms[n].rid)
    ensures Sorted(Assigned(cells, ms, n + 1))
  {
    SameKeysSameOrder(cells, Assigned(cells, ms, n));
    SameKeysSameOrder(cells, Assigned(cells, ms, n + 1));
    FindIsLinearScan(cells, RidKey(ms[n].rid, Uid(0, 0)));
    var before := Assigned(cells, ms, n);
    var at := FindByRid(cells, ms[n].rid);
    var after := if at.Some? then before[at.value := before[at.value].(uid := ms[n].uid)] else before;
    forall i | 0 <= i < |cells| ensures Assigned(cells, ms, n + 1)[i] == after[i] {
      if cells[i].rid == ms[n].rid {
        assert KeyOf(cells[i]) == KeyOf(RidKey(ms[n].rid, Uid(0, 0)));
      }
    }
  }
}
