/**
 What is below an instance follows from what happened to it: the scopes and the target it was created with, those
 opened since, and those that reported their end. That history decides when it may be freed.
 */
module RegistryHistory {
  import opened RegistrySpec

  /** The scopes in use of instance `i` after one more event. */
  function NextOpen(e: Event, i: Instance, open: set<int>): (r: set<int>) {
    match e
    case EvCreate(j, Ready(created, _)) => if j == i then created else open
    case EvCreate(j, ScopeFailed(leftover)) => if j == i then leftover else open
    case EvOpenScope(j, scope) => if j == i then open + {scope} else open
    case EvScopeGone(j, scope) => if j == i then open - {scope} else open
    case _ => open
  }

  /** Whether instance `i` has an LLRP target after one more event; a device is set up with one before its scope. */
  predicate NextTarget(e: Event, i: Instance, target: bool) {
    match e
    case EvCreate(j, Ready(_, created)) => if j == i then created else target
    case EvCreate(j, ScopeFailed(_)) => j == i || target
    case EvTargetGone(j) => j != i && target
    case _ => target
  }

  function OpenAfter(es: seq<Event>, n: nat, i: Instance): (r: set<int>)
    requires n <= |es|
  {
    if n == 0 then {} else NextOpen(es[n - 1], i, OpenAfter(es, n - 1, i))
  }

  predicate TargetAfter(es: seq<Event>, n: nat, i: Instance)
    requires n <= |es|
  {
    n > 0 && NextTarget(es[n - 1], i, TargetAfter(es, n - 1, i))
  }

  ghost predicate Follows(s: State, i: Instance, open: set<int>, target: bool) {
    i in s.clients ==> s.clients[i].open == open && s.clients[i].target == target
  }

  lemma {:induction false} CreateFollows(s: State, j: Instance, p: Progress, i: Instance, open: set<int>, target: bool)
    requires Legal(s, EvCreate(j, p)) && Follows(s, i, open, target)
    ensures Follows(Created(s, j, p), i, NextOpen(EvCreate(j, p), i, open), NextTarget(EvCreate(j, p), i, target))
  {}

  lemma {:induction false} StepFollowsHistory(s: State, e: Event, i: Instance, open: set<int>, target: bool)
    requires Legal(s, e) && Follows(s, i, open, target)
    ensures Follows(Step(s, e), i, NextOpen(e, i, open), NextTarget(e, i, target))
  {
    if e.EvCreate? {
      CreateFollows(s, e.i, e.p, i, open, target);
    }
  }

  /** In every state of every run, an instance in memory has exactly what its history leaves below it. */
  lemma {:induction false} RunFollowsHistory(ss: seq<State>, es: seq<Event>, n: nat, i: Instance)
    requires IsRun(ss, es) && ss[0] == EMPTY && n <= |es|
    ensures Follows(ss[n], i, OpenAfter(es, n, i), TargetAfter(es, n, i))
  {
    if n > 0 {
      RunFollowsHistory(ss, es, n - 1, i);
      StepFollowsHistory(ss[n - 1], es[n - 1], i, OpenAfter(es, n - 1, i), TargetAfter(es, n - 1, i));
    }
  }

  /** In every run, destroying an instance frees it on the spot if and only if its history leaves nothing below it. */
  lemma {:induction false} DestroyFreesExactlyWhenNothingIsLeft(
    ss: seq<State>, es: seq<Event>, n: nat, h: int, kind: Kind, i: Instance)
    requires IsRun(ss, es) && ss[0] == EMPTY && n < |es| && es[n] == EvDestroy(h, kind)
    requires FindInstance(ss[n].handles, h, kind) == i
    ensures i in ss[n + 1].freed <==> OpenAfter(es, n, i) == {} && !TargetAfter(es, n, i)
    ensures i !in ss[n + 1].freed ==> Waiting(ss[n + 1], i)
  {
    RunIsSound(ss, es, n);
    RunFollowsHistory(ss, es, n, i);
    DestroyFreesOrWaits(ss[n], h, kind, i);
  }

  // ----- what creating and destroying do

  ghost predicate Untouched(s: State, t: State, j: Instance) {
    && (j in t.handles <==> j in s.handles) && (j in t.clients <==> j in s.clients)
    && (j in s.clients ==> t.clients[j] == s.clients[j])
  }

  /** No instance is registered under the handle. */
  ghost predicate HandleFree(s: State, h: int) {
    forall j :: j in s.handles ==> j.handle != h
  }

  lemma {:induction false} LookupNullMeansFree(s: State, h: int)
    ensures Lookup(s.handles, h) == null <==> HandleFree(s, h)
  {}

  lemma {:induction false} BackOut(s: State, i: Instance)
    requires Sound(s) && i !in Made(s) && HandleFree(s, i.handle)
    ensures forall j :: j in Dropped(Inserted(s.handles, i), i.handle) <==> j in s.handles
  {
    LookupNullMeansFree(s, i.handle);
    InsertedKeepsOrder(s.handles, i);
    DroppedRemovesOne(Inserted(s.handles, i), i);
  }

  /**
   Creating an instance: it is found by its handle if and only if everything went well and the handle was free; it waits
   if only its scope failed; in every other case in which it got memory, it is freed; and no other instance is affected.
   */
  lemma {:induction false} CreateAnswer(s: State, i: Instance, p: Progress)
    requires Sound(s) && Legal(s, EvCreate(i, p))
    ensures var t, free := Step(s, EvCreate(i, p)), HandleFree(s, i.handle);
            && (i in t.handles <==> p.Ready? && free)
            && (Waiting(t, i) <==> p.ScopeFailed? && free)
            && (forall j :: j != i ==> Untouched(s, t, j))
            && t.freed == s.freed + (if p.NoHandle? || p.NoMemory? || (free && (p.Ready? || p.ScopeFailed?)) then [] else [i])
  {
    LookupNullMeansFree(s, i.handle);
    assert s.freed + [] == s.freed;
    if p.NoHandle? || p.NoMemory? {
    } else if p.NoResources? || p.NoNode? || !HandleFree(s, i.handle) {
      FailedIsSound(s, i);
    } else {
      SetUpAnswer(s, i, p);
    }
  }

  lemma {:induction false} SetUpHandles(s: State, i: Instance, p: Progress)
    requires Sound(s) && i !in Made(s) && i.handle != INVALID_HANDLE && HandleFree(s, i.handle)
    requires p.SetupFailed? || p.ScopeFailed? || p.Ready?
    ensures var t := SetUp(Allocated(s, i).(handles := Inserted(s.handles, i)), i, p);
            && (i in t.handles <==> p.Ready?)
            && (forall j :: j != i ==> (j in t.handles <==> j in s.handles))
  {
    BackOut(s, i);
    assert i !in s.handles;
  }

  lemma {:induction false} SetUpClients(s: State, i: Instance, p: Progress)
    requires i !in s.clients
    ensures var t := SetUp(Allocated(s, i).(handles := Inserted(s.handles, i)), i, p);
            && t.freed == s.freed + (if p.ScopeFailed? || p.Ready? then [] else [i])
            && t.clients == match p
                            case Ready(open, target) => s.clients[i := Client(open, target, false)]
                            case ScopeFailed(leftover) => s.clients[i := Client(leftover, true, true)]
                            case _ => s.clients
  {
    assert s.freed + [] == s.freed;
    var c := Client({}, false, false);
    assert s.clients[i := c] - {i} == s.clients;
    if p.Ready? {
      assert s.clients[i := c][i := Client(p.open, p.target, false)] == s.clients[i := Client(p.open, p.target, false)];
    } else if p.ScopeFailed? {
      assert s.clients[i := c][i := Client(p.leftover, true, true)] == s.clients[i := Client(p.leftover, true, true)];
    }
  }

  lemma {:induction false} SetUpAnswer(s: State, i: Instance, p: Progress)
    requires Sound(s) && i !in Made(s) && i.handle != INVALID_HANDLE && HandleFree(s, i.handle)
    requires p.SetupFailed? || p.ScopeFailed? || p.Ready?
    ensures var t := SetUp(Allocated(s, i).(handles := Inserted(s.handles, i)), i, p);
            && (i in t.handles <==> p.Ready?) && (Waiting(t, i) <==> p.ScopeFailed?)
            && (forall j :: j != i ==> Untouched(s, t, j))
            && t.freed == s.freed + if p.SetupFailed? then [i] else []
  {
    SetUpHandles(s, i, p);
    SetUpClients(s, i, p);
  }

  /** Destroying by a handle that no registered instance of the type has does nothing; otherwise only that one is affected. */
  lemma {:induction false} DestroyAnswer(s: State, h: int, kind: Kind, j: Instance)
    requires Sound(s)
    ensures var t, found := Step(s, EvDestroy(h, kind)), FindInstance(s.handles, h, kind);
            if found == null then t == s
            else found != j ==> Untouched(s, t, j)
  {
    var found := FindInstance(s.handles, h, kind);
    if found != null {
      var i: Instance := found;
      DroppedRemovesOne(s.handles, i);
    }
  }
}
