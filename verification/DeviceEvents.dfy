/** What the broker's events do to a device, responder by responder. */
module DeviceEvents {
  import opened Wire
  import opened Selections
  import opened Responders
  import opened ResponderStore
  import opened DeviceSpec
  import opened DeviceAssignment

  /** The request for a UID keeps the manufacturer and sets its top bit. */
  lemma {:induction false} RequestKeepsManufacturer(manu: u16, u: Uid)
    ensures DynamicUidRequest(manu) == Uid(0x8000 + manu % 0x8000, 0)
    ensures IsDynamicUidRequest(u) <==> u.id == 0 && 0x8000 <= u.manu
    ensures IsDynamicUidRequest(u) <==> exists m: u16 :: u == DynamicUidRequest(m)
  {
    if IsDynamicUidRequest(u) {
      assert u == DynamicUidRequest(u.manu);
    }
  }

  /** One responder after a disconnect: a dynamic one waits for a UID again. */
  predicate IsReset(was: Responder, now: Responder, manu: u16) {
    now == if was.rid == NULL_RID then was else was.(uid := Uid(0x8000 + manu % 0x8000, 0))
  }

  /** A disconnect clears the flag, takes every dynamic UID away, and changes and tells nothing else. */
  lemma {:induction false} DisconnectAnswer(s: State)
    ensures var t := Step(s, EvDisconnect).state;
            && Step(s, EvDisconnect).status == Ok
            && !t.connected && t == s.(connected := false, endpoints := t.endpoints)
            && |t.endpoints| == |s.endpoints|
            && forall i :: 0 <= i < |s.endpoints| ==>
                 && t.endpoints[i] == s.endpoints[i].(cells := t.endpoints[i].cells)
                 && |t.endpoints[i].cells| == |s.endpoints[i].cells|
                 && forall k :: 0 <= k < |s.endpoints[i].cells| ==>
                      IsReset(s.endpoints[i].cells[k], t.endpoints[i].cells[k], s.manu)
  {
    RequestKeepsManufacturer(s.manu, DynamicUidRequest(s.manu));
  }

  /** The last successful mapping for a RID. */
  ghost predicate IsLast(ms: seq<Mapping>, rid: Uuid, j: nat) {
    && j < |ms| && ms[j].ok && ms[j].rid == rid
    && forall k :: j < k < |ms| ==> !(ms[k].ok && ms[k].rid == rid)
  }

  lemma {:induction false} LastOkIsLast(ms: seq<Mapping>, n: nat, rid: Uuid)
    requires n <= |ms|
    ensures LastOk(ms, n, rid).Some? ==>
              exists j :: 0 <= j < n && ms[j].ok && ms[j].rid == rid && LastOk(ms, n, rid) == Some(ms[j].uid)
                          && forall k :: j < k < n ==> !(ms[k].ok && ms[k].rid == rid)
  {
    if n > 0 && !(ms[n - 1].ok && ms[n - 1].rid == rid) {
      LastOkIsLast(ms, n - 1, rid);
    }
  }

  /** One responder after an assignment list: the last successful mapping for its RID gives its UID. */
  ghost predicate IsAssigned(was: Responder, now: Responder, ms: seq<Mapping>) {
    && now == was.(uid := now.uid)
    && (was.rid == NULL_RID ==> now == was)
    && (forall j :: 0 <= j < |ms| && was.rid != NULL_RID && IsLast(ms, was.rid, j) ==> now.uid == ms[j].uid)
    && ((forall j :: 0 <= j < |ms| ==> !IsLast(ms, was.rid, j)) ==> now == was)
  }

  lemma {:induction false} CellIsAssigned(r: Responder, ms: seq<Mapping>)
    ensures IsAssigned(r, AssignCell(r, ms, |ms|), ms)
  {
    LastOkIsLast(ms, |ms|, r.rid);
    if LastOk(ms, |ms|, r.rid).Some? {
      var j :| 0 <= j < |ms| && ms[j].ok && ms[j].rid == r.rid && LastOk(ms, |ms|, r.rid) == Some(ms[j].uid)
               && forall k :: j < k < |ms| ==> !(ms[k].ok && ms[k].rid == r.rid);
      assert IsLast(ms, r.rid, j);
      forall k | 0 <= k < |ms| && IsLast(ms, r.rid, k) ensures k == j {}
    } else {
      forall j | 0 <= j < |ms| ensures !IsLast(ms, r.rid, j) {}
    }
  }

  /** Which endpoints have a responder that a successful mapping names. */
  ghost predicate Named(e: Endpoint, ms: seq<Mapping>) {
    exists j :: 0 <= j < |ms| && ms[j].ok && Has(e, ms[j].rid)
  }

  lemma {:induction false} NamedMeansMatches(e: Endpoint, ms: seq<Mapping>)
    requires Sorted(e.cells) && RealRids(ms)
    ensures MatchesOn(e, ms) > 0 <==> Named(e, ms)
  {
    MatchesMeans(e.cells, ms, |ms|);
    forall j | 0 <= j < |ms| && ms[j].ok ensures FindByRid(e.cells, ms[j].rid).Some? <==> Has(e, ms[j].rid) {
      AppliesMeansHas(e, ms[j]);
    }
  }

  /** The event loop stops behind the first virtual endpoint at which as many mappings have matched as there are. */
  lemma {:induction false} VisitedMeans(eps: seq<Endpoint>, ms: seq<Mapping>, k: nat)
    requires k <= |eps|
    ensures var stop := Visited(eps, ms, k);
            && (stop < |eps| ==> stop > k && eps[stop - 1].kind == Virtual && TotalMatches(eps, ms, stop) >= |ms|)
            && forall n :: k < n < stop && eps[n - 1].kind == Virtual ==> TotalMatches(eps, ms, n) < |ms|
    decreases |eps| - k
  {
    if k < |eps| {
      VisitedMeans(eps, ms, k + 1);
    }
  }

  ghost function Marks(eps: seq<Endpoint>, ms: seq<Mapping>, n: nat): (r: seq<bool>)
    requires n <= |eps|
    ensures |r| == n
  {
    seq(n, i requires 0 <= i < n <= |eps| => Named(eps[i], ms))
  }

  /** One update for each endpoint that changes, in order, with its id and its new number. */
  lemma {:induction false} UpdatesSelect(eps: seq<Endpoint>, ms: seq<Mapping>, n: nat) returns (at: seq<nat>)
    requires n <= |eps| && AllGood(eps) && RealRids(ms)
    ensures var us := UpdatesFor(eps, Hits(eps, ms), n);
            && Picks(at, Marks(eps, ms, n)) && |us| == |at|
            && forall k :: 0 <= k < |at| ==> us[k] == ResponderChange(eps[at[k]].id, Next(eps[at[k]].number))
  {
    if n == 0 {
      at := [];
    } else {
      var before := UpdatesSelect(eps, ms, n - 1);
      NamedMeansMatches(eps[n - 1], ms);
      PicksAppend(before, Marks(eps, ms, n - 1), Named(eps[n - 1], ms));
      assert Marks(eps, ms, n) == Marks(eps, ms, n - 1) + [Named(eps[n - 1], ms)];
      at := before + if Named(eps[n - 1], ms) then [n - 1] else [];
    }
  }

  /** An endpoint after an assignment list. */
  ghost predicate EndpointAssigned(was: Endpoint, now: Endpoint, ms: seq<Mapping>) {
    if Named(was, ms) then
      && now == was.(cells := now.cells, number := Next(was.number)) && |now.cells| == |was.cells|
      && forall k :: 0 <= k < |was.cells| ==> IsAssigned(was.cells[k], now.cells[k], ms)
    else now == was
  }

  lemma {:induction false} AssignEndpointMeans(e: Endpoint, ms: seq<Mapping>)
    requires GoodEndpoint(e) && RealRids(ms)
    ensures EndpointAssigned(e, AssignEndpoint(e, ms), ms)
  {
    NamedMeansMatches(e, ms);
    forall k | 0 <= k < |e.cells| ensures IsAssigned(e.cells[k], AssignCell(e.cells[k], ms, |ms|), ms) {
      CellIsAssigned(e.cells[k], ms);
    }
  }

  /** What an assignment list leaves: `at` are the endpoints that changed. */
  ghost predicate AllAssigned(s: State, t: State, ms: seq<Mapping>, stop: nat, at: seq<nat>)
    requires stop <= |s.endpoints|
  {
    && t == s.(endpoints := t.endpoints, sent := t.sent) && |t.endpoints| == |s.endpoints|
    && (forall i :: 0 <= i < stop ==> EndpointAssigned(s.endpoints[i], t.endpoints[i], ms))
    && (forall i :: stop <= i < |s.endpoints| ==> t.endpoints[i] == s.endpoints[i])
    && Picks(at, Marks(s.endpoints, ms, stop))
    && t.sent == s.sent + if s.connected then Announcements(s.endpoints, at) else []
  }

  lemma {:induction false} AssignFirstMeans(s: State, ms: seq<Mapping>, stop: nat) returns (at: seq<nat>)
    requires Good(s) && RealRids(ms) && stop <= |s.endpoints|
    ensures AllAssigned(s, AssignFirst(s, ms, stop), ms, stop, at)
  {
    var eps := s.endpoints;
    at := UpdatesSelect(eps, ms, stop);
    forall i | 0 <= i < stop ensures EndpointAssigned(eps[i], AssignEndpoint(eps[i], ms), ms) {
      AssignEndpointMeans(eps[i], ms);
    }
    assert UpdatesFor(eps, Hits(eps, ms), stop) == Announcements(eps, at);
    assert s.sent + [] == s.sent;
  }

  /**
   Assigned UIDs: each endpoint the loop visits that a successful mapping names gets the UIDs, advances once and is
   announced in turn while connected; nothing else changes.
   */
  lemma {:induction false} AssignAnswer(s: State, ms: seq<Mapping>) returns (at: seq<nat>)
    requires Good(s) && RealRids(ms)
    ensures Step(s, EvAssign(ms)).status == Ok
    ensures AllAssigned(s, Step(s, EvAssign(ms)).state, ms, Visited(s.endpoints, ms, 0), at)
  {
    var stop := Visited(s.endpoints, ms, 0);
    at := AssignFirstMeans(s, ms, stop);
    AssignStepIs(s, ms, stop);
  }

  lemma {:induction false} AssignStepIs(s: State, ms: seq<Mapping>, stop: nat)
    requires RealRids(ms) && stop == Visited(s.endpoints, ms, 0)
    ensures Step(s, EvAssign(ms)) == Outcome(Ok, AssignFirst(s, ms, stop))
  {}

  ghost function Announcements(eps: seq<Endpoint>, at: seq<nat>): (us: seq<Update>)
    requires forall k :: 0 <= k < |at| ==> at[k] < |eps|
  {
    seq(|at|, k requires 0 <= k < |at| && at[k] < |eps| => ResponderChange(eps[at[k]].id, Next(eps[at[k]].number)))
  }
}
