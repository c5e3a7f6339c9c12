/**
 What a device tells a controller, read off the device itself: each answer decodes to the values the device has, and
 each refusal has its reason.
 */
module DeviceAnswers {
  import opened Wire
  import opened Rdm
  import opened Selections
  import opened Responders
  import opened ResponderStore
  import opened DeviceSpec
  import opened DeviceReplies

  /** A UID that a broker or an application assigned, and not the request for one. */
  predicate Assigned(u: Uid) {
    u.manu < 0x8000 || u.id != 0
  }

  ghost function AssignedOnes(cells: seq<Responder>): (r: seq<bool>)
    ensures |r| == |cells|
  {
    seq(|cells|, i requires 0 <= i < |cells| => Assigned(cells[i].uid))
  }

  /** The report leaves out exactly the responders that wait for a UID, and keeps the order. */
  lemma {:induction false} VisibleSelects(cells: seq<Responder>) returns (at: seq<nat>)
    ensures Picks(at, AssignedOnes(cells)) && |Visible(cells)| == |at|
    ensures forall k :: 0 <= k < |at| ==> Visible(cells)[k] == cells[at[k]].uid
  {
    if cells == [] {
      at := [];
    } else {
      var n := |cells| - 1;
      var before := VisibleSelects(cells[..n]);
      PicksAppend(before, AssignedOnes(cells[..n]), Assigned(cells[n].uid));
      assert AssignedOnes(cells) == AssignedOnes(cells[..n]) + [Assigned(cells[n].uid)];
      at := before + if Assigned(cells[n].uid) then [n] else [];
    }
  }

  /** ENDPOINT_RESPONDERS: the endpoint's id and change number, and its responders' UIDs in order. */
  lemma {:induction false} RespondersAnswer(s: State, data: seq<byte>, available: nat, i: nat) returns (at: seq<nat>)
    requires |data| >= 2 && FindEndpoint(s, Unpack16(data)) == Some(i) && 6 + 6 * |s.endpoints[i].cells| <= available
    ensures var e := s.endpoints[i];
            var r := RespondersReply(s, Get, data, available);
            && r.Ack? && |r.data| == 6 + 6 * |at|
            && Unpack16(r.data) == Unpack16(data) && Unpack32(r.data[2..]) == e.number
            && Picks(at, AssignedOnes(e.cells)) && |DecodeUids(r.data[6..])| == |at|
            && forall k :: 0 <= k < |at| ==> DecodeUids(r.data[6..])[k] == e.cells[at[k]].uid
  {
    var e := s.endpoints[i];
    at := VisibleSelects(e.cells);
    RespondersRoundTrip(e.id, e.number, Visible(e.cells));
  }

  /** Why ENDPOINT_RESPONDERS is refused. */
  lemma {:induction false} RespondersRefusal(s: State, cc: CommandClass, data: seq<byte>, available: nat)
    ensures RespondersReply(s, cc, data, available).Nack? ==>
              RespondersReply(s, cc, data, available) == Nack(
                if cc != Get then UnsupportedCommandClass
                else if |data| < 2 then FormatError
                else if forall e :: e in s.endpoints ==> e.id != Unpack16(data) then EndpointNumberInvalid
                else HardwareFault)
    ensures cc != Get || |data| < 2 || (forall e :: e in s.endpoints ==> e.id != Unpack16(data)) ==>
              RespondersReply(s, cc, data, available).Nack?
  {
    if |data| >= 2 {
      MissingMeansNone(s, Unpack16(data));
    }
  }

  lemma {:induction false} MissingMeansNone(s: State, id: u16)
    ensures FindEndpoint(s, id).None? <==> forall e :: e in s.endpoints ==> e.id != id
  {
    var at := FindEndpoint(s, id);
    if at.Some? {
      assert s.endpoints[at.value] in s.endpoints;
    }
    assert at.None? ==> forall i :: 0 <= i < |s.endpoints| ==> EndpointId(s.endpoints[i]) != id;
  }

  /** ENDPOINT_RESPONDER_LIST_CHANGE: the endpoint's id and change number. */
  lemma {:induction false} ResponderListChangeAnswer(s: State, data: seq<byte>, available: nat, i: nat)
    requires |data| >= 2 && FindEndpoint(s, Unpack16(data)) == Some(i) && 6 <= available
    ensures var r := ResponderListChangeReply(s, Get, data, available);
            && r.Ack? && |r.data| == 6
            && Unpack16(r.data) == Unpack16(data) && Unpack32(r.data[2..]) == s.endpoints[i].number
  {
    RespondersRoundTrip(s.endpoints[i].id, s.endpoints[i].number, []);
  }

  lemma {:induction false} ResponderListChangeRefusal(s: State, cc: CommandClass, data: seq<byte>, available: nat)
    ensures ResponderListChangeReply(s, cc, data, available).Nack? ==>
              ResponderListChangeReply(s, cc, data, available) == Nack(
                if cc != Get then UnsupportedCommandClass
                else if |data| < 2 then FormatError
                else if forall e :: e in s.endpoints ==> e.id != Unpack16(data) then EndpointNumberInvalid
                else HardwareFault)
    ensures cc != Get || |data| < 2 || (forall e :: e in s.endpoints ==> e.id != Unpack16(data)) ==>
              ResponderListChangeReply(s, cc, data, available).Nack?
  {
    if |data| >= 2 {
      MissingMeansNone(s, Unpack16(data));
    }
  }

  /** ENDPOINT_LIST: the list's change number, and every endpoint's id and type; virtual is 0 and physical is 1. */
  lemma {:induction false} ListAnswer(s: State, available: nat)
    requires 4 + 3 * |s.endpoints| <= available
    ensures var r := ListReply(s, Get, available);
            && r.Ack? && |r.data| == 4 + 3 * |s.endpoints| && Unpack32(r.data) == s.listNumber
            && var es := DecodeEndpoints(r.data[4..]);
            && |es| == |s.endpoints|
            && forall i :: 0 <= i < |es| ==>
                 es[i].0 == s.endpoints[i].id && es[i].1 == (match s.endpoints[i].kind case Virtual => 0 case Physical => 1)
  {
    ListRoundTrip(s.listNumber, s.endpoints);
  }

  /** ENDPOINT_LIST_CHANGE: the list's change number. */
  lemma {:induction false} ListChangeAnswer(s: State, available: nat)
    requires 4 <= available
    ensures var r := ListChangeReply(s, Get, available); r.Ack? && |r.data| == 4 && Unpack32(r.data) == s.listNumber
  {
    Pack32RoundTrip(s.listNumber, []);
    assert Pack32(s.listNumber) + [] == Pack32(s.listNumber);
  }

  /** The two list messages are refused for their command class, and else only for want of a buffer. */
  lemma {:induction false} ListRefusal(s: State, cc: CommandClass, available: nat)
    ensures ListReply(s, cc, available).Nack? <==> cc != Get || available < 4 + 3 * |s.endpoints|
    ensures ListChangeReply(s, cc, available).Nack? <==> cc != Get || available < 4
    ensures var why := Nack(if cc != Get then UnsupportedCommandClass else HardwareFault);
            && (ListReply(s, cc, available).Nack? ==> ListReply(s, cc, available) == why)
            && (ListChangeReply(s, cc, available).Nack? ==> ListChangeReply(s, cc, available) == why)
  {}

  /** BINDING_CONTROL_FIELDS: the control field and binding UID of the responder without RID that has the UID. */
  lemma {:induction false} BindingAnswer(s: State, data: seq<byte>, available: nat, i: nat, r: Responder)
    requires Good(s) && |data| >= 8 && FindEndpoint(s, Unpack16(data)) == Some(i) && 16 <= available
    requires r in s.endpoints[i].cells && !IsDynamic(r) && r.uid == DecodeUid(data[2..])
    ensures var a := BindingReply(s, Get, data, available);
            && a.Ack? && |a.data| == 16
            && Unpack16(a.data) == Unpack16(data) && DecodeUid(a.data[2..]) == r.uid
            && Unpack16(a.data[8..]) == r.control && DecodeUid(a.data[10..]) == r.binding
  {
    var cells, uid := s.endpoints[i].cells, DecodeUid(data[2..]);
    assert data[2..][2..] == data[4..];
    var k :| 0 <= k < |cells| && cells[k] == r;
    FindIsLinearScan(cells, UidKey(uid));
    assert KeyOf(cells[k]) == KeyOf(UidKey(uid));
    BindingRoundTrip(s.endpoints[i].id, uid, r.control, r.binding);
  }

  lemma {:induction false} BindingRefusal(s: State, cc: CommandClass, data: seq<byte>, available: nat)
    requires cc != Get || |data| < 8 || forall e :: e in s.endpoints ==> e.id != Unpack16(data)
    ensures BindingReply(s, cc, data, available) == Nack(
              if cc != Get then UnsupportedCommandClass
              else if |data| < 8 then FormatError
              else EndpointNumberInvalid)
  {
    if |data| >= 8 {
      MissingMeansNone(s, Unpack16(data));
    }
  }

  lemma {:induction false} UnknownUidIsRefused(s: State, data: seq<byte>, available: nat, i: nat)
    requires Good(s) && |data| >= 8 && FindEndpoint(s, Unpack16(data)) == Some(i)
    requires forall r :: r in s.endpoints[i].cells && !IsDynamic(r) ==> r.uid != DecodeUid(data[2..])
    ensures BindingReply(s, Get, data, available) == Nack(UnknownUid)
  {
    var cells, uid := s.endpoints[i].cells, DecodeUid(data[2..]);
    assert data[2..][2..] == data[4..];
    FindIsLinearScan(cells, UidKey(uid));
    assert forall k :: 0 <= k < |cells| ==> cells[k] in cells;
  }

  /** Without a buffer for the whole answer there is none. */
  lemma {:induction false} NoBufferNoAnswer(s: State, data: seq<byte>, available: nat, i: nat)
    requires Good(s) && |data| >= 2 && FindEndpoint(s, Unpack16(data)) == Some(i)
    ensures available < 6 + 6 * |s.endpoints[i].cells| ==>
              RespondersReply(s, Get, data, available) == Nack(HardwareFault)
    ensures available < 6 ==> ResponderListChangeReply(s, Get, data, available) == Nack(HardwareFault)
    ensures |data| >= 8 && available < 16 ==> BindingReply(s, Get, data, available).Nack?
  {}
}
