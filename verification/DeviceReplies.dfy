/**
 What a device answers to the endpoint messages of ANSI E1.37-7, and that nothing is lost in
 the encoding.
 */
module DeviceReplies {
  import opened Wire
  import opened Rdm
  import opened Responders
  import opened ResponderStore
  import opened DeviceSpec

  function KindByte(k: Kind): (b: byte) {
    if k == Virtual then 0 else 1
  }

  function UidBytes(u: Uid): (r: seq<byte>)
    ensures |r| == 6
  {
    Pack16(u.manu) + Pack32(u.id)
  }

  function UidsBytes(us: seq<Uid>): (r: seq<byte>)
    ensures |r| == 6 * |us|
  {
    if us == [] then [] else UidsBytes(us[..|us| - 1]) + UidBytes(us[|us| - 1])
  }

  function EndpointBytes(e: Endpoint): (r: seq<byte>)
    ensures |r| == 3
  {
    Pack16(e.id) + [KindByte(e.kind)]
  }

  function EndpointsBytes(es: seq<Endpoint>): (r: seq<byte>)
    ensures |r| == 3 * |es|
  {
    if es == [] then [] else EndpointsBytes(es[..|es| - 1]) + EndpointBytes(es[|es| - 1])
  }

  function RespondersData(id: u16, number: u32, uids: seq<Uid>): (r: seq<byte>) {
    Pack16(id) + Pack32(number) + UidsBytes(uids)
  }

  function ListData(number: u32, es: seq<Endpoint>): (r: seq<byte>) {
    Pack32(number) + EndpointsBytes(es)
  }

  function BindingData(id: u16, uid: Uid, control: u16, binding: Uid): (r: seq<byte>) {
    Pack16(id) + UidBytes(uid) + Pack16(control) + UidBytes(binding)
  }

  // ----- answers; `available` is the size of the largest response buffer that can be had

  function ListReply(s: State, cc: CommandClass, available: nat): (r: Reply) {
    if cc != Get then Nack(UnsupportedCommandClass)
    else if 4 + 3 * |s.endpoints| > available then Nack(HardwareFault)
    else Ack(ListData(s.listNumber, s.endpoints))
  }

  function ListChangeReply(s: State, cc: CommandClass, available: nat): (r: Reply) {
    if cc != Get then Nack(UnsupportedCommandClass)
    else if 4 > available then Nack(HardwareFault)
    else Ack(Pack32(s.listNumber))
  }

  function RespondersReply(s: State, cc: CommandClass, data: seq<byte>, available: nat): (r: Reply) {
    if cc != Get then Nack(UnsupportedCommandClass)
    else if |data| < 2 then Nack(FormatError)
    else
      var at := FindEndpoint(s, Unpack16(data));
      if at.None? then Nack(EndpointNumberInvalid)
      else
        var e := s.endpoints[at.value];
        if 6 + 6 * |e.cells| > available then Nack(HardwareFault)
        else Ack(RespondersData(e.id, e.number, Visible(e.cells)))
  }

  function ResponderListChangeReply(s: State, cc: CommandClass, data: seq<byte>, available: nat): (r: Reply) {
    if cc != Get then Nack(UnsupportedCommandClass)
    else if |data| < 2 then Nack(FormatError)
    else
      var at := FindEndpoint(s, Unpack16(data));
      if at.None? then Nack(EndpointNumberInvalid)
      else if 6 > available then Nack(HardwareFault)
      else Ack(RespondersData(s.endpoints[at.value].id, s.endpoints[at.value].number, []))
  }

  function BindingReply(s: State, cc: CommandClass, data: seq<byte>, available: nat): (r: Reply) {
    if cc != Get then Nack(UnsupportedCommandClass)
    else if |data| < 8 then Nack(FormatError)
    else
      var at := FindEndpoint(s, Unpack16(data));
      if at.None? then Nack(EndpointNumberInvalid)
      else
        var e := s.endpoints[at.value];
        var uid := Uid(Unpack16(data[2..]), Unpack32(data[4..]));
        var found := FindByUid(e.cells, uid);
        if found.None? then Nack(UnknownUid)
        else if 16 > available then Nack(HardwareFault)
        else Ack(BindingData(e.id, uid, e.cells[found.value].control, e.cells[found.value].binding))
  }

  // ----- a controller's reading of them

  function DecodeUid(b: seq<byte>): (u: Uid)
    requires |b| >= 6
  {
    Uid(Unpack16(b), Unpack32(b[2..]))
  }

  /** As many UIDs as the bytes hold, read from the front. */
  function DecodeUids(b: seq<byte>): (us: seq<Uid>) {
    if |b| < 6 then [] else [DecodeUid(b)] + DecodeUids(b[6..])
  }

  function DecodeEndpoints(b: seq<byte>): (es: seq<(u16, byte)>) {
    if |b| < 3 then [] else [(Unpack16(b), b[2])] + DecodeEndpoints(b[3..])
  }

  function IdsAndKinds(es: seq<Endpoint>): (r: seq<(u16, byte)>)
    ensures |r| == |es|
  {
    seq(|es|, i requires 0 <= i < |es| => (es[i].id, KindByte(es[i].kind)))
  }

  lemma {:induction false} UidRoundTrip(u: Uid, rest: seq<byte>)
    ensures DecodeUid(UidBytes(u) + rest) == u
  {
    var b := UidBytes(u) + rest;
    assert b == Pack16(u.manu) + (Pack32(u.id) + rest);
    assert b[2..] == Pack32(u.id) + rest;
    Pack16RoundTrip(u.manu, Pack32(u.id) + rest);
    Pack32RoundTrip(u.id, rest);
  }

  lemma {:induction false} DecodeUidsAppends(a: seq<byte>, u: Uid)
    requires |a| % 6 == 0
    ensures DecodeUids(a + UidBytes(u)) == DecodeUids(a) + [u]
    decreases |a|
  {
    var b := a + UidBytes(u);
    if a == [] {
      assert b == UidBytes(u) + [];
      UidRoundTrip(u, []);
      assert b[6..] == [];
    } else {
      assert b[6..] == a[6..] + UidBytes(u);
      assert b[..6] == a[..6] && DecodeUid(b) == DecodeUid(a) by {
        assert b[2..][..2] == a[2..][..2] && b[2..][2..][0] == a[2..][2..][0] && b[2..][2..][1] == a[2..][2..][1];
      }
      DecodeUidsAppends(a[6..], u);
    }
  }

  lemma {:induction false} UidsRoundTrip(us: seq<Uid>)
    ensures DecodeUids(UidsBytes(us)) == us
  {
    if us != [] {
      var n := |us| - 1;
      UidsRoundTrip(us[..n]);
      DecodeUidsAppends(UidsBytes(us[..n]), us[n]);
    }
  }

  lemma {:induction false} DecodeEndpointsAppends(a: seq<byte>, e: Endpoint)
    requires |a| % 3 == 0
    ensures DecodeEndpoints(a + EndpointBytes(e)) == DecodeEndpoints(a) + [(e.id, KindByte(e.kind))]
    decreases |a|
  {
    var b := a + EndpointBytes(e);
    if a == [] {
      assert b == Pack16(e.id) + [KindByte(e.kind)];
      Pack16RoundTrip(e.id, [KindByte(e.kind)]);
      assert b[3..] == [];
    } else {
      assert b[3..] == a[3..] + EndpointBytes(e);
      DecodeEndpointsAppends(a[3..], e);
    }
  }

  lemma {:induction false} EndpointsRoundTrip(es: seq<Endpoint>)
    ensures DecodeEndpoints(EndpointsBytes(es)) == IdsAndKinds(es)
  {
    if es != [] {
      var n := |es| - 1;
      EndpointsRoundTrip(es[..n]);
      DecodeEndpointsAppends(EndpointsBytes(es[..n]), es[n]);
    }
  }

  /** ENDPOINT_RESPONDERS gives back the endpoint, its change number and the reportable UIDs in order. */
  lemma {:induction false} RespondersRoundTrip(id: u16, number: u32, uids: seq<Uid>)
    ensures var b := RespondersData(id, number, uids);
            && |b| == 6 + 6 * |uids|
            && Unpack16(b) == id && Unpack32(b[2..]) == number && DecodeUids(b[6..]) == uids
  {
    var b := RespondersData(id, number, uids);
    assert b == Pack16(id) + (Pack32(number) + UidsBytes(uids));
    assert b[2..] == Pack32(number) + UidsBytes(uids);
    assert b[6..] == UidsBytes(uids);
    Pack16RoundTrip(id, Pack32(number) + UidsBytes(uids));
    Pack32RoundTrip(number, UidsBytes(uids));
    UidsRoundTrip(uids);
  }

  /** ENDPOINT_LIST gives back the change number and each endpoint's id and type in order. */
  lemma {:induction false} ListRoundTrip(number: u32, es: seq<Endpoint>)
    ensures var b := ListData(number, es);
            |b| == 4 + 3 * |es| && Unpack32(b) == number && DecodeEndpoints(b[4..]) == IdsAndKinds(es)
  {
    Pack32RoundTrip(number, EndpointsBytes(es));
    assert ListData(number, es)[4..] == EndpointsBytes(es);
    EndpointsRoundTrip(es);
  }

  /** BINDING_CONTROL_FIELDS gives back everything that was put in. */
  lemma {:induction false} BindingRoundTrip(id: u16, uid: Uid, control: u16, binding: Uid)
    ensures var b := BindingData(id, uid, control, binding);
            && |b| == 16 && Unpack16(b) == id && DecodeUid(b[2..]) == uid
            && Unpack16(b[8..]) == control && DecodeUid(b[10..]) == binding
  {
    var b := BindingData(id, uid, control, binding);
    var tail := Pack16(control) + UidBytes(binding);
    assert b == Pack16(id) + (UidBytes(uid) + tail);
    assert b[2..] == UidBytes(uid) + tail;
    assert b[8..] == tail;
    assert b[10..] == UidBytes(binding) + [];
    Pack16RoundTrip(id, UidBytes(uid) + tail);
    UidRoundTrip(uid, tail);
    Pack16RoundTrip(control, UidBytes(binding));
    UidRoundTrip(binding, []);
  }
}
