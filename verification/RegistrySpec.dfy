/**
 The registry of controller and device handles, and the life of an instance: created, found by its handle,
 unregistered, and freed once the connections and the LLRP target beneath it are gone.
 */
module RegistrySpec {
  import opened Removal

  const INVALID_HANDLE: int := -1

  datatype Kind = ControllerKind | DeviceKind

  /** A controller or device in memory. `open` holds its scopes in use, `target` whether its LLRP target is. */
  class Instance {
    const handle: int
    const kind: Kind
    var open: set<int>
    var target: bool
    var marked: bool

    constructor (handle: int, kind: Kind)
      ensures this.handle == handle && this.kind == kind
      ensures open == {} && !target && !marked
    {
      this.handle, this.kind, open, target, marked := handle, kind, {}, false, false;
    }
  }

  datatype Client = Client(open: set<int>, target: bool, marked: bool)

  /** Nothing below the client refers to it any more. */
  predicate Down(c: Client) {
    !c.target && c.open == {}
  }

  /** `clients` are the instances in memory, `freed` every instance given back so far, in order. */
  datatype State = State(handles: seq<Instance>, clients: map<Instance, Client>, freed: seq<Instance>)

  const EMPTY: State := State([], map[], [])

  // ----- the handle tree

  function Lookup(handles: seq<Instance>, h: int): (r: Instance?)
    ensures r != null ==> r in handles && r.handle == h
    ensures r == null ==> forall i :: i in handles ==> i.handle != h
  {
    if handles == [] then null
    else if handles[0].handle == h then handles[0]
    else Lookup(handles[1..], h)
  }

  function FindInstance(handles: seq<Instance>, h: int, kind: Kind): (r: Instance?) {
    var found := Lookup(handles, h);
    if found != null && found.kind == kind then found else null
  }

  function Inserted(handles: seq<Instance>, i: Instance): (r: seq<Instance>)
    ensures i in r && (forall j :: j in handles ==> j in r) && (forall j :: j in r ==> j == i || j in handles)
  {
    if handles == [] || i.handle < handles[0].handle then [i] + handles
    else
      assert handles == [handles[0]] + handles[1..];
      [handles[0]] + Inserted(handles[1..], i)
  }

  /** Removal compares handles, not instances. */
  function Dropped(handles: seq<Instance>, h: int): (r: seq<Instance>)
    ensures forall j :: j in r ==> j in handles
  {
    if handles == [] then []
    else if handles[0].handle == h then handles[1..]
    else [handles[0]] + Dropped(handles[1..], h)
  }

  ghost predicate Ordered(handles: seq<Instance>) {
    forall a, b :: 0 <= a < b < |handles| ==> handles[a].handle < handles[b].handle
  }

  lemma {:induction false} InsertedKeepsOrder(handles: seq<Instance>, i: Instance)
    requires Ordered(handles) && Lookup(handles, i.handle) == null
    ensures Ordered(Inserted(handles, i))
  {
    if handles != [] && !(i.handle < handles[0].handle) {
      assert handles[0] in handles;
      InsertedKeepsOrder(handles[1..], i);
      var rest := Inserted(handles[1..], i);
      forall b | 0 <= b < |rest| ensures handles[0].handle < rest[b].handle {
        assert rest[b] in rest;
      }
    }
  }

  lemma {:induction false} DroppedRemovesOne(handles: seq<Instance>, i: Instance)
    requires Ordered(handles) && i in handles
    ensures Ordered(Dropped(handles, i.handle))
    ensures forall j :: j in Dropped(handles, i.handle) <==> j in handles && j != i
  {
    var head, tail := handles[0], handles[1..];
    assert handles == [head] + tail;
    forall b | 0 <= b < |tail| ensures head.handle < tail[b].handle {
      assert tail[b] == handles[b + 1];
    }
    if head.handle != i.handle {
      assert i in tail;
      DroppedRemovesOne(tail, i);
      var rest := Dropped(tail, i.handle);
      forall b | 0 <= b < |rest| ensures head.handle < rest[b].handle {
        assert rest[b] in tail;
      }
    }
  }

  // ----- steps

  /** How far a creation got: each failure but the first two happens with the instance already in memory. */
  datatype Progress =
    | NoHandle
    | NoMemory
    | NoResources
    | NoNode
    | SetupFailed
    | ScopeFailed(leftover: set<int>)
    | Ready(open: set<int>, target: bool)

  datatype Event =
    | EvCreate(i: Instance, p: Progress)
    | EvOpenScope(i: Instance, scope: int)
    | EvScopeGone(i: Instance, scope: int)
    | EvTargetGone(i: Instance)
    | EvDestroy(handle: int, kind: Kind)
    | EvClear

  ghost function Made(s: State): (r: set<Instance>) {
    s.clients.Keys + set i | i in s.freed
  }

  /**
   A new instance is new memory; scopes are opened through a handle; a connection or target reports its end
   once; and the registry is cleared after the layers below have shut down.
   */
  ghost predicate Legal(s: State, e: Event) {
    match e
    case EvCreate(i, p) =>
      i !in Made(s) && i.handle != INVALID_HANDLE && (p.ScopeFailed? ==> i.kind.DeviceKind?)
    case EvOpenScope(i, scope) => i in s.handles && i in s.clients && scope !in s.clients[i].open
    case EvScopeGone(i, scope) => i in s.clients && scope in s.clients[i].open
    case EvTargetGone(i) => i in s.clients && s.clients[i].target
    case EvDestroy(_, _) => true
    case EvClear => forall i :: i in s.clients ==> Down(s.clients[i])
  }

  function Freed(s: State, i: Instance): (t: State) {
    s.(clients := s.clients - {i}, freed := s.freed + [i])
  }

  /** A client that is to go and has nothing left below it is reported destroyed, which frees its instance. */
  function Settled(s: State, i: Instance, c: Client): (t: State) {
    if c.marked && Down(c) then Freed(s, i) else s.(clients := s.clients[i := c])
  }

  function Unregistered(s: State, i: Instance, c: Client): (t: State) {
    Settled(s.(handles := Dropped(s.handles, i.handle)), i, c.(marked := true))
  }

  function Allocated(s: State, i: Instance): (t: State) {
    s.(clients := s.clients[i := Client({}, false, false)])
  }

  /** The instance is in the tree; what is left is to build it up. */
  function SetUp(t: State, i: Instance, p: Progress): (u: State) {
    match p
    case Ready(open, target) => t.(clients := t.clients[i := Client(open, target, false)])
    case ScopeFailed(leftover) => Unregistered(t, i, Client(leftover, true, false))
    case _ => Freed(t.(handles := Dropped(t.handles, i.handle)), i)
  }

  function Created(s: State, i: Instance, p: Progress): (t: State) {
    if p.NoHandle? || p.NoMemory? then s
    else if p.NoResources? || p.NoNode? || Lookup(s.handles, i.handle) != null then Freed(Allocated(s, i), i)
    else SetUp(Allocated(s, i).(handles := Inserted(s.handles, i)), i, p)
  }

  function Destroyed(s: State, h: int, kind: Kind): (t: State) {
    var i := if h == INVALID_HANDLE then null else FindInstance(s.handles, h, kind);
    if i == null || i !in s.clients then s else Unregistered(s, i, s.clients[i])
  }

  function Step(s: State, e: Event): (t: State)
    requires Legal(s, e)
  {
    match e
    case EvCreate(i, p) => Created(s, i, p)
    case EvOpenScope(i, scope) => s.(clients := s.clients[i := s.clients[i].(open := s.clients[i].open + {scope})])
    case EvScopeGone(i, scope) => Settled(s, i, s.clients[i].(open := s.clients[i].open - {scope}))
    case EvTargetGone(i) => Settled(s, i, s.clients[i].(target := false))
    case EvDestroy(h, kind) => Destroyed(s, h, kind)
    case EvClear => State([], s.clients - (set i | i in s.handles), s.freed + s.handles)
  }

  // ----- what every step keeps

  ghost predicate Sound(s: State) {
    && Ordered(s.handles)
    && (forall i :: i in s.handles ==> i in s.clients && !s.clients[i].marked)
    && (forall i :: i in s.clients && !s.clients[i].marked ==> i in s.handles)
    && (forall i :: i in s.handles ==> i.handle != INVALID_HANDLE)
    && (forall i :: i in s.clients && s.clients[i].marked ==> !Down(s.clients[i]))
    && (forall i :: i in s.freed ==> i !in s.clients)
    && Distinct(s.freed)
  }

  lemma {:induction false} FreeingOnce(freed: seq<Instance>, i: Instance)
    requires Distinct(freed) && i !in freed
    ensures Distinct(freed + [i])
    ensures forall j :: j in freed + [i] <==> j in freed || j == i
  {}

  lemma {:induction false} SettledIsSound(s: State, i: Instance, c: Client)
    requires Ordered(s.handles) && Distinct(s.freed) && i !in s.freed
    requires forall j :: j in s.handles <==> (j == i && !c.marked) || (j != i && j in s.clients && !s.clients[j].marked)
    requires forall j :: j in s.handles ==> j.handle != INVALID_HANDLE
    requires forall j :: j in s.clients && j != i && s.clients[j].marked ==> !Down(s.clients[j])
    requires forall j :: j in s.freed ==> j !in s.clients
    ensures Sound(Settled(s, i, c))
    ensures Made(Settled(s, i, c)) == Made(s) + {i}
  {
    FreeingOnce(s.freed, i);
  }

  lemma {:induction false} UnregisteredIsSound(s: State, i: Instance, c: Client)
    requires i in s.handles && i !in s.freed && Ordered(s.handles) && Distinct(s.freed)
    requires forall j :: j in s.handles <==> j == i || (j in s.clients && !s.clients[j].marked)
    requires forall j :: j in s.handles ==> j.handle != INVALID_HANDLE
    requires forall j :: j in s.clients && j != i && s.clients[j].marked ==> !Down(s.clients[j])
    requires forall j :: j in s.freed ==> j !in s.clients
    ensures Sound(Unregistered(s, i, c))
    ensures Made(Unregistered(s, i, c)) == Made(s) + {i}
  {
    DroppedRemovesOne(s.handles, i);
    SettledIsSound(s.(handles := Dropped(s.handles, i.handle)), i, c.(marked := true));
  }

  /** What `e` adds to the instances ever made. */
  ghost function Makes(e: Event): (r: set<Instance>) {
    match e
    case EvCreate(i, p) => if p.NoHandle? || p.NoMemory? then {} else {i}
    case _ => {}
  }

  lemma {:induction false} RegisteringKeepsOrder(s: State, i: Instance)
    requires Sound(s) && i !in Made(s) && i.handle != INVALID_HANDLE && Lookup(s.handles, i.handle) == null
    ensures var hs := Inserted(s.handles, i);
            && Ordered(hs)
            && (forall j :: j in hs <==> j == i || (j in s.clients && !s.clients[j].marked))
            && (forall j :: j in hs ==> j.handle != INVALID_HANDLE)
  {
    InsertedKeepsOrder(s.handles, i);
  }

  lemma {:induction false} FailedIsSound(s: State, i: Instance)
    requires Sound(s) && i !in Made(s)
    ensures Freed(Allocated(s, i), i) == s.(freed := s.freed + [i])
    ensures Sound(Freed(Allocated(s, i), i))
    ensures Made(Freed(Allocated(s, i), i)) == Made(s) + {i}
  {
    assert s.clients[i := Client({}, false, false)] - {i} == s.clients;
    FreeingOnce(s.freed, i);
  }

  lemma {:induction false} SetUpIsSound(s: State, i: Instance, p: Progress)
    requires Sound(s) && i !in Made(s) && i.handle != INVALID_HANDLE && Lookup(s.handles, i.handle) == null
    ensures var u := SetUp(Allocated(s, i).(handles := Inserted(s.handles, i)), i, p);
            Sound(u) && Made(u) == Made(s) + {i}
  {
    RegisteringKeepsOrder(s, i);
    var t := Allocated(s, i).(handles := Inserted(s.handles, i));
    assert Made(t) == Made(s) + {i};
    match p
    case Ready(open, target) => SettledIsSound(t, i, Client(open, target, false));
    case ScopeFailed(leftover) => UnregisteredIsSound(t, i, Client(leftover, true, false));
    case _ => UnregisteredIsSound(t, i, Client({}, false, false));
  }

  lemma {:induction false} CreatedIsSound(s: State, i: Instance, p: Progress)
    requires Sound(s) && Legal(s, EvCreate(i, p))
    ensures Sound(Created(s, i, p))
    ensures Made(Created(s, i, p)) == Made(s) + Makes(EvCreate(i, p))
  {
    if p.NoHandle? || p.NoMemory? {
    } else if p.NoResources? || p.NoNode? || Lookup(s.handles, i.handle) != null {
      FailedIsSound(s, i);
    } else {
      SetUpIsSound(s, i, p);
    }
  }

  lemma {:induction false} ClearedIsSound(s: State)
    requires Sound(s) && Legal(s, EvClear)
    ensures Sound(Step(s, EvClear)) && Step(s, EvClear).clients == map[]
    ensures Made(Step(s, EvClear)) == Made(s)
  {
    var t := Step(s, EvClear);
    forall i | i in s.clients ensures i in s.handles {
      assert Down(s.clients[i]);
    }
    assert forall a, b :: 0 <= a < b < |s.handles| ==> s.handles[a] != s.handles[b];
    forall a, b | 0 <= a < b < |t.freed| ensures t.freed[a] != t.freed[b] {
      if a < |s.freed| <= b {
        assert s.freed[a] in s.freed && s.handles[b - |s.freed|] in s.handles;
      }
    }
  }

  /** Nothing is forgotten and nothing is freed twice, whatever happens. */
  lemma {:induction false} StepIsSound(s: State, e: Event)
    requires Sound(s) && Legal(s, e)
    ensures Sound(Step(s, e))
    ensures Made(Step(s, e)) == Made(s) + Makes(e)
  {
    match e
    case EvCreate(i, p) => CreatedIsSound(s, i, p);
    case EvOpenScope(i, scope) =>
    case EvScopeGone(i, scope) =>
      SettledIsSound(s, i, s.clients[i].(open := s.clients[i].open - {scope}));
    case EvTargetGone(i) =>
      SettledIsSound(s, i, s.clients[i].(target := false));
    case EvDestroy(h, kind) =>
      var found := FindInstance(s.handles, h, kind);
      if h != INVALID_HANDLE && found != null {
        var i: Instance := found;
        UnregisteredIsSound(s, i, s.clients[i]);
      }
    case EvClear => ClearedIsSound(s);
  }

  ghost predicate IsRun(ss: seq<State>, es: seq<Event>) {
    && |ss| == |es| + 1
    && forall k {:trigger es[k]} :: 0 <= k < |es| ==> Legal(ss[k], es[k]) && ss[k + 1] == Step(ss[k], es[k])
  }

  lemma {:induction false} RunIsSound(ss: seq<State>, es: seq<Event>, k: nat)
    requires IsRun(ss, es) && ss[0] == EMPTY && k < |ss|
    ensures Sound(ss[k])
  {
    if k > 0 {
      RunIsSound(ss, es, k - 1);
      assert es[k - 1] == es[k - 1];
      StepIsSound(ss[k - 1], es[k - 1]);
    }
  }

  lemma {:induction false} NoneForgotten(ss: seq<State>, es: seq<Event>, j: nat, k: nat)
    requires IsRun(ss, es) && ss[0] == EMPTY && j <= k < |ss|
    ensures Made(ss[j]) <= Made(ss[k])
  {
    if j < k {
      NoneForgotten(ss, es, j, k - 1);
      RunIsSound(ss, es, k - 1);
      assert es[k - 1] == es[k - 1];
      StepIsSound(ss[k - 1], es[k - 1]);
    }
  }

  // ----- main results

  /** A lookup answers with the registered instance of that handle and type, and only with a live one. */
  lemma {:induction false} LookupFindsExactlyTheLive(ss: seq<State>, es: seq<Event>, k: nat, h: int, kind: Kind, i: Instance)
    requires IsRun(ss, es) && ss[0] == EMPTY && k < |ss|
    ensures FindInstance(ss[k].handles, h, kind) == i <==>
            i in ss[k].clients && !ss[k].clients[i].marked && i.handle == h && i.kind == kind
    ensures FindInstance(ss[k].handles, h, kind) == i ==> i !in ss[k].freed
  {
    RunIsSound(ss, es, k);
    SameHandleSameInstance(ss[k].handles, h, i);
  }

  lemma {:induction false} SameHandleSameInstance(handles: seq<Instance>, h: int, i: Instance)
    requires Ordered(handles)
    ensures Lookup(handles, h) == i <==> i in handles && i.handle == h
  {
    if i in handles && i.handle == h {
      var f := Lookup(handles, h);
      var a :| 0 <= a < |handles| && handles[a] == i;
      var b :| 0 <= b < |handles| && handles[b] == f;
      assert a == b;
    }
  }

  /**
   Every instance ever made is, in every later state of a run, in memory or freed and never both, and it was
   freed at most once; once the registry is cleared every one of them has been freed exactly once.
   */
  lemma {:induction false} EachIsFreedOnce(ss: seq<State>, es: seq<Event>, j: nat, k: nat, i: Instance)
    requires IsRun(ss, es) && ss[0] == EMPTY && j <= k < |ss| && i in Made(ss[j])
    ensures i in ss[k].clients <==> i !in ss[k].freed
    ensures multiset(ss[k].freed)[i] == if i in ss[k].clients then 0 else 1
    ensures k > 0 && es[k - 1].EvClear? ==> multiset(ss[k].freed)[i] == 1
  {
    NoneForgotten(ss, es, j, k);
    RunIsSound(ss, es, k);
    DistinctMultiset(ss[k].freed, i);
    if k > 0 && es[k - 1].EvClear? {
      RunIsSound(ss, es, k - 1);
      ClearedIsSound(ss[k - 1]);
    }
  }

  /**
   Destroying an instance frees it on the spot exactly when nothing is left below it; otherwise it waits, out of
   reach of every handle.
   */
  lemma {:induction false} DestroyFreesOrWaits(s: State, h: int, kind: Kind, i: Instance)
    requires Sound(s) && FindInstance(s.handles, h, kind) == i
    ensures var t := Step(s, EvDestroy(h, kind));
            && i in s.clients
            && (Down(s.clients[i]) ==> t.freed == s.freed + [i])
            && (!Down(s.clients[i]) ==> i in t.clients && t.clients[i].marked && t.freed == s.freed)
            && FindInstance(t.handles, h, kind) == null
  {
    DroppedRemovesOne(s.handles, i);
    SameHandleSameInstance(s.handles, h, i);
    var d := Dropped(s.handles, h);
    var f := Lookup(d, h);
    if f != null {
      SameHandleSameInstance(s.handles, h, f);
    }
  }

  lemma {:induction false} OthersUntouched(s: State, e: Event, i: Instance)
    requires Sound(s) && Legal(s, e) && i in s.clients && s.clients[i].marked
    requires e != EvTargetGone(i) && (e.EvScopeGone? ==> e.i != i)
    ensures i in Step(s, e).clients && Step(s, e).clients[i] == s.clients[i]
  {}

  /** The callback that takes away the last thing below an instance. */
  ghost predicate TakesLast(s: State, e: Event, i: Instance) {
    && i in s.clients
    && ( || (e.EvScopeGone? && e.i == i && s.clients[i].open == {e.scope} && !s.clients[i].target)
         || (e == EvTargetGone(i) && s.clients[i].open == {}))
  }

  lemma {:induction false} WaitingStep(s: State, e: Event, i: Instance)
    requires Sound(s) && Legal(s, e) && i in s.clients && s.clients[i].marked
    ensures i in Step(s, e).freed <==> TakesLast(s, e, i)
    ensures i in Step(s, e).clients ==> Step(s, e).clients[i].marked
  {
    StepIsSound(s, e);
    if e != EvTargetGone(i) && (e.EvScopeGone? ==> e.i != i) {
      OthersUntouched(s, e, i);
    }
  }

  /** What was freed stays freed. */
  lemma {:induction false} FreedForGood(s: State, e: Event, i: Instance)
    requires Legal(s, e) && i in s.freed
    ensures i in Step(s, e).freed
  {}

  ghost predicate Waiting(s: State, i: Instance) {
    i in s.clients && s.clients[i].marked
  }

  lemma {:induction false} WaitingInRun(ss: seq<State>, es: seq<Event>, m: nat, i: Instance)
    requires IsRun(ss, es) && ss[0] == EMPTY && m < |es|
    ensures i in ss[m].freed ==> i in ss[m + 1].freed
    ensures Waiting(ss[m], i) ==> (i in ss[m + 1].freed <==> TakesLast(ss[m], es[m], i))
    ensures Waiting(ss[m], i) && i !in ss[m + 1].freed ==> Waiting(ss[m + 1], i)
  {
    RunIsSound(ss, es, m);
    if i in ss[m].freed {
      FreedForGood(ss[m], es[m], i);
    } else if Waiting(ss[m], i) {
      WaitingStep(ss[m], es[m], i);
      StepIsSound(ss[m], es[m]);
    }
  }

  /** Something that waits from `j` on and ends at the first step that takes it. */
  lemma {:induction false} EndsWhenTaken(waits: seq<bool>, ended: seq<bool>, takes: seq<bool>, j: nat, k: nat)
    requires |waits| == |ended| == |takes| + 1 && j <= k < |waits| && waits[j] && !ended[j]
    requires forall m :: 0 <= m < |takes| ==> (ended[m] ==> ended[m + 1]) && (waits[m] ==> ended[m + 1] == takes[m])
    requires forall m :: 0 <= m < |takes| ==> waits[m] && !ended[m + 1] ==> waits[m + 1]
    requires forall m :: 0 <= m < |takes| && ended[m] ==> !takes[m]
    ensures ended[k] <==> exists m :: j <= m < k && takes[m]
    ensures !ended[k] ==> waits[k]
    decreases k - j
  {
    if j < k {
      EndsWhenTaken(waits, ended, takes, j, k - 1);
      if ended[k] && !ended[k - 1] {
        assert takes[k - 1];
      }
    }
  }

  /**
   Once an instance waits, it is freed later in the run if and only if some callback takes the last thing below
   it away; until then it stays in memory, whatever else happens.
   */
  lemma {:induction false} WaitingEndsWithTheLast(ss: seq<State>, es: seq<Event>, j: nat, k: nat, i: Instance)
    requires IsRun(ss, es) && ss[0] == EMPTY && j <= k < |ss| && Waiting(ss[j], i)
    ensures i in ss[k].freed <==> exists m :: j <= m < k && TakesLast(ss[m], es[m], i)
    ensures i !in ss[k].freed ==> Waiting(ss[k], i)
  {
    var waits := seq(|ss|, m requires 0 <= m < |ss| => Waiting(ss[m], i));
    var ended := seq(|ss|, m requires 0 <= m < |ss| => i in ss[m].freed);
    var takes := seq(|es|, m requires 0 <= m < |es| == |ss| - 1 => TakesLast(ss[m], es[m], i));
    RunIsSound(ss, es, j);
    forall m | 0 <= m < |es|
      ensures (ended[m] ==> ended[m + 1]) && (waits[m] ==> ended[m + 1] == takes[m])
      ensures (waits[m] && !ended[m + 1] ==> waits[m + 1]) && (ended[m] ==> !takes[m])
    {
      WaitingInRun(ss, es, m, i);
      RunIsSound(ss, es, m);
    }
    EndsWhenTaken(waits, ended, takes, j, k);
    assert forall m :: j <= m < k ==> takes[m] == TakesLast(ss[m], es[m], i);
  }
}
