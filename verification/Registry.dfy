/** The handle registry as the library keeps it, over instances that live on the heap. */
module Registries {
  import opened Removal
  import opened ResponderStore
  import opened RegistrySpec

  lemma {:induction false} FreedEitherWay(s: State, i: Instance, c: Client)
    ensures Freed(s.(clients := s.clients[i := c]), i) == Freed(s, i)
  {}

  lemma {:induction false} UnregisteredEitherWay(s: State, i: Instance, c: Client)
    ensures Unregistered(s.(clients := s.clients[i := c]), i, c) == Unregistered(s, i, c)
  {
    FreedEitherWay(s.(handles := Dropped(s.handles, i.handle)), i, c);
    assert s.clients[i := c][i := c.(marked := true)] == s.clients[i := c.(marked := true)];
  }

  class Registry {
    var handles: seq<Instance>
    ghost var live: set<Instance>
    ghost var freed: seq<Instance>

    ghost function Clients(): (m: map<Instance, Client>)
      reads this`live, live
    {
      map i | i in live :: Client(i.open, i.target, i.marked)
    }

    ghost function View(): (s: State)
      reads this, live
    {
      State(handles, Clients(), freed)
    }

    /** At most one instance changed or came into being. */
    twostate lemma {:induction false} OnlyOne(new i: Instance)
      requires live == old(live) + {i}
      requires forall j :: j in old(live) && j != i ==> unchanged(j)
      ensures Clients() == old(Clients())[i := Client(i.open, i.target, i.marked)]
    {}

    constructor ()
      ensures View() == EMPTY && Sound(View())
    {
      handles, live, freed := [], {}, [];
    }

    /** `rdmnet_find_struct_instance`. */
    method Find(h: int, kind: Kind) returns (i: Instance?)
      requires Sound(View())
      ensures i == FindInstance(handles, h, kind)
      ensures i != null ==> i in live && i !in freed
    {
      i := Lookup(handles, h);
      if i != null && i.kind != kind {
        i := null;
      }
    }

    /** Give an instance's memory back. */
    method Free(i: Instance)
      requires i in live
      modifies this`live, this`freed
      ensures View() == Freed(old(View()), i) && live == old(live) - {i}
    {
      live, freed := live - {i}, freed + [i];
    }

    /** `client_fully_destroyed`. */
    method IsDown(i: Instance) returns (down: bool)
      ensures down == Down(Client(i.open, i.target, i.marked))
    {
      down := !i.target && i.open == {};
    }

    /** `rdmnet_unregister_struct_instance` and `rc_client_unregister`, and the freeing if it can be done at once. */
    method Unregister(i: Instance)
      requires i in live
      modifies this, i`marked
      ensures View() == Unregistered(old(View()), i, Client(i.open, i.target, old(i.marked)))
      ensures live <= old(live)
    {
      i.marked := true;
      OnlyOne(i);
      handles := Dropped(handles, i.handle);
      var immediate := IsDown(i);
      if immediate {
        ghost var s := View();
        Free(i);
        FreedEitherWay(old(View()).(handles := s.handles), i, Client(i.open, i.target, true));
      }
    }

    method SetUpInstance(i: Instance, p: Progress) returns (ok: bool)
      requires i in live && !i.marked
      modifies this, i
      ensures View() == SetUp(old(View()), i, p)
      ensures ok == p.Ready?
    {
      ok := p.Ready?;
      match p {
        case Ready(open, target) =>
          i.open, i.target := open, target;
          OnlyOne(i);
        case ScopeFailed(leftover) =>
          i.open, i.target := leftover, true;
          OnlyOne(i);
          Unregister(i);
          UnregisteredEitherWay(old(View()), i, Client(leftover, true, false));
        case _ =>
          handles := Dropped(handles, i.handle);
          Free(i);
      }
    }

    method Build(h: int, kind: Kind, p: Progress) returns (made: Instance?, ok: bool)
      modifies this
      ensures made == null <==> p.NoHandle? || p.NoMemory?
      ensures made == null ==> View() == old(View()) && !ok
      ensures made != null ==> fresh(made) && made.handle == h && made.kind == kind
      ensures made != null ==> View() == Created(old(View()), made, p)
      ensures ok <==> p.Ready? && old(Lookup(handles, h)) == null
    {
      made, ok := null, false;
      if p.NoHandle? || p.NoMemory? {
        return;
      }
      var i := new Instance(h, kind);
      made := i;
      live := live + {i};
      OnlyOne(i);
      if p.NoResources? || p.NoNode? || Lookup(handles, h) != null {
        Free(i);
      } else {
        handles := Inserted(handles, i);
        ok := SetUpInstance(i, p);
      }
    }

    /** A create call, up to the point `p` it reaches. */
    method Create(h: int, kind: Kind, p: Progress) returns (made: Instance?, ok: bool)
      requires Sound(View())
      requires (p.NoHandle? || h != INVALID_HANDLE) && (p.ScopeFailed? ==> kind.DeviceKind?)
      modifies this
      ensures Sound(View())
      ensures made == null ==> View() == old(View()) && !ok
      ensures made != null ==> fresh(made) && made.handle == h && made.kind == kind
      ensures made != null ==> Legal(old(View()), EvCreate(made, p)) && View() == Step(old(View()), EvCreate(made, p))
      ensures ok <==> p.Ready? && old(Lookup(handles, h)) == null
    {
      made, ok := Build(h, kind, p);
      if made != null {
        CreatedIsSound(old(View()), made, p);
      }
    }

    method Destroy(h: int, kind: Kind) returns (status: Status)
      requires Sound(View())
      modifies this, live`marked
      ensures View() == Step(old(View()), EvDestroy(h, kind)) && Sound(View())
      ensures status == if h == INVALID_HANDLE then Invalid
                        else if old(FindInstance(handles, h, kind)) == null then NotFound else Ok
    {
      StepIsSound(View(), EvDestroy(h, kind));
      if h == INVALID_HANDLE {
        return Invalid;
      }
      var i := Find(h, kind);
      if i == null {
        return NotFound;
      }
      Unregister(i);
      status := Ok;
    }

    method OpenScope(i: Instance, scope: int)
      requires Sound(View()) && Legal(View(), EvOpenScope(i, scope))
      modifies i`open
      ensures View() == Step(old(View()), EvOpenScope(i, scope)) && Sound(View())
    {
      StepIsSound(View(), EvOpenScope(i, scope));
      i.open := i.open + {scope};
      OnlyOne(i);
    }

    /** The client reports itself destroyed once it is marked and nothing is left below it. */
    method Settle(i: Instance)
      requires i in live
      modifies this`live, this`freed
      ensures View() == if i.marked && Down(Client(i.open, i.target, i.marked)) then Freed(old(View()), i) else old(View())
    {
      if i.marked {
        var down := IsDown(i);
        if down {
          Free(i);
        }
      }
    }

    /** The end of one of the instance's connections. */
    method ScopeGone(i: Instance, scope: int)
      requires Sound(View()) && Legal(View(), EvScopeGone(i, scope))
      modifies this, i`open
      ensures View() == Step(old(View()), EvScopeGone(i, scope)) && Sound(View())
    {
      StepIsSound(View(), EvScopeGone(i, scope));
      i.open := i.open - {scope};
      OnlyOne(i);
      Settle(i);
      FreedEitherWay(old(View()), i, Client(i.open, i.target, i.marked));
    }

    /** The end of the instance's LLRP target. */
    method TargetGone(i: Instance)
      requires Sound(View()) && Legal(View(), EvTargetGone(i))
      modifies this, i`target
      ensures View() == Step(old(View()), EvTargetGone(i)) && Sound(View())
    {
      StepIsSound(View(), EvTargetGone(i));
      i.target := false;
      OnlyOne(i);
      Settle(i);
      FreedEitherWay(old(View()), i, Client(i.open, i.target, i.marked));
    }

    /** `tree_clear_cb` for every node in turn. */
    method FreeAll(gone: seq<Instance>)
      requires (forall i :: i in gone ==> i in live) && Distinct(gone)
      modifies this`live, this`freed
      ensures freed == old(freed) + gone
      ensures live == old(live) - set i | i in gone
    {
      for k := 0 to |gone|
        invariant freed == old(freed) + gone[..k]
        invariant live == old(live) - set i | i in gone[..k]
      {
        assert gone[k] in live;
        Free(gone[k]);
        assert gone[..k + 1] == gone[..k] + [gone[k]];
      }
      assert gone[..|gone|] == gone;
    }

    method Clear()
      requires Sound(View()) && Legal(View(), EvClear)
      modifies this
      ensures View() == Step(old(View()), EvClear) && Sound(View())
    {
      StepIsSound(View(), EvClear);
      assert forall i :: i in handles ==> i in View().clients;
      FreeAll(handles);
      handles := [];
    }
  }
}
