/**
 COMPONENT_SCOPE: which scope a slot number stands for, how a scope is written to the wire, and what
 a controller learns by walking the slots of another.
 */
module ControllerScopes {
  import opened Wire
  import opened Rdm

  const SCOPE_LENGTH: nat := 63
  const REPLY_LENGTH: nat := 88
  const INVALID_SCOPE: int := -1

  type ScopeString = s: seq<byte> | |s| == SCOPE_LENGTH witness seq(SCOPE_LENGTH, _ => 0)
  type Ipv6 = s: seq<byte> | |s| == 16 witness seq(16, _ => 0)

  datatype Ip = NoIp | V4(v4: u32) | V6(v6: Ipv6)
  datatype SockAddr = SockAddr(ip: Ip, port: u16)
  datatype ScopeState = Inactive | Discovery | Connecting | Connected | MarkedForDestruction
  datatype Scope = Scope(handle: int, state: ScopeState, id: ScopeString, broker: SockAddr)

  predicate Active(s: Scope) {
    s.handle != INVALID_SCOPE && s.state != MarkedForDestruction
  }

  /** A scope counts unless its entry is free or it is on its way out, whatever the state of its connection. */
  lemma {:induction false} ActiveMeans(s: Scope)
    ensures s.handle == -1 ==> !Active(s)
    ensures !Active(s.(state := MarkedForDestruction))
    ensures s.handle >= 0 ==>
              Active(s.(state := Inactive)) && Active(s.(state := Discovery)) && Active(s.(state := Connecting))
              && Active(s.(state := Connected))
  {}

  /** Slots count from one. */
  predicate ActiveAt(scopes: seq<Scope>, slot: int) {
    1 <= slot <= |scopes| && Active(scopes[slot - 1])
  }

  // ----- the walk

  datatype Walked = At(slot: u16) | PastEnd | Astray

  /**
   The loop over `scope_slot`. The slot is a 16-bit counter: stepping past 65535 comes back to zero,
   which is not past the end, and the next read is in front of the array.
   */
  function Walk(scopes: seq<Scope>, slot: u16): (w: Walked)
    requires 1 <= slot <= |scopes|
    decreases 0x1_0000 - slot
  {
    if Active(scopes[slot - 1]) then At(slot)
    else if slot == 0xFFFF then Astray
    else if slot + 1 <= |scopes| then Walk(scopes, slot + 1)
    else PastEnd
  }

  /** The least active slot at or above `slot`, or none. */
  ghost predicate IsLeastActive(scopes: seq<Scope>, slot: nat, w: Walked) {
    match w
    case At(t) => slot <= t && ActiveAt(scopes, t) && forall k :: slot <= k < t ==> !ActiveAt(scopes, k)
    case PastEnd => forall k :: slot <= k ==> !ActiveAt(scopes, k)
    case Astray => false
  }

  /** The slots above fit a 16-bit counter, or the walk stops before the counter runs out. */
  ghost predicate Addressable(scopes: seq<Scope>, slot: nat) {
    |scopes| < 0xFFFF || exists k :: slot <= k <= 0xFFFF && ActiveAt(scopes, k)
  }

  /** The walk is right exactly when the slots it has to pass can be counted in 16 bits. */
  lemma {:induction false} WalkIsRightExactlyWhenAddressable(scopes: seq<Scope>, slot: u16)
    requires 1 <= slot <= |scopes|
    ensures IsLeastActive(scopes, slot, Walk(scopes, slot)) <==> Addressable(scopes, slot)
    ensures Walk(scopes, slot).Astray? <==> !Addressable(scopes, slot)
    decreases 0x1_0000 - slot
  {
    assert ActiveAt(scopes, slot) <==> Active(scopes[slot - 1]);
    if !Active(scopes[slot - 1]) && slot < 0xFFFF && slot < |scopes| {
      WalkIsRightExactlyWhenAddressable(scopes, slot + 1);
      assert Addressable(scopes, slot) <==> Addressable(scopes, slot + 1);
      if Addressable(scopes, slot) {
        assert IsLeastActive(scopes, slot, Walk(scopes, slot + 1));
      }
    }
  }

  // ----- the encoding

  function Zeros(n: nat): (r: seq<byte>)
    ensures |r| == n
  {
    seq(n, _ => 0)
  }

  function BrokerBytes(b: SockAddr): (r: seq<byte>)
    ensures |r| == 23
  {
    match b.ip
    case V4(a) => [1] + Pack32(a) + Zeros(16) + Pack16(b.port)
    case V6(a) => [2] + Zeros(4) + a + Pack16(b.port)
    case NoIp => [0] + Zeros(22)
  }

  function ScopeBytes(slot: u16, s: Scope): (r: seq<byte>)
    ensures |r| == REPLY_LENGTH
  {
    Pack16(slot) + s.id + BrokerBytes(s.broker)
  }

  /** What a reply carries of a scope: without a static broker address its port is not reported. */
  datatype Report = Report(slot: u16, id: ScopeString, broker: SockAddr)

  function ReportOf(slot: u16, s: Scope): (r: Report) {
    Report(slot, s.id, if s.broker.ip.NoIp? then SockAddr(NoIp, 0) else s.broker)
  }

  function DecodeBroker(b: seq<byte>): (r: SockAddr)
    requires |b| == 23
  {
    if b[0] == 1 then SockAddr(V4(Unpack32(b[1..])), Unpack16(b[21..]))
    else if b[0] == 2 then SockAddr(V6(b[5..21]), Unpack16(b[21..]))
    else SockAddr(NoIp, 0)
  }

  function DecodeScope(b: seq<byte>): (r: Report)
    requires |b| == REPLY_LENGTH
  {
    Report(Unpack16(b), b[2..65], DecodeBroker(b[65..]))
  }

  lemma {:induction false} BrokerRoundTrip(b: SockAddr)
    ensures DecodeBroker(BrokerBytes(b)) == if b.ip.NoIp? then SockAddr(NoIp, 0) else b
  {
    var bytes := BrokerBytes(b);
    match b.ip
    case NoIp =>
    case V4(a) =>
      assert bytes[1..] == Pack32(a) + (Zeros(16) + Pack16(b.port));
      assert bytes[21..] == Pack16(b.port) + [];
      Pack32RoundTrip(a, Zeros(16) + Pack16(b.port));
      Pack16RoundTrip(b.port, []);
    case V6(a) =>
      assert bytes[5..21] == a;
      assert bytes[21..] == Pack16(b.port) + [];
      Pack16RoundTrip(b.port, []);
  }

  lemma {:induction false} ScopeRoundTrip(slot: u16, s: Scope)
    ensures DecodeScope(ScopeBytes(slot, s)) == ReportOf(slot, s)
  {
    var b := ScopeBytes(slot, s);
    assert b == Pack16(slot) + (s.id + BrokerBytes(s.broker));
    assert b[2..65] == s.id;
    assert b[65..] == BrokerBytes(s.broker);
    Pack16RoundTrip(slot, s.id + BrokerBytes(s.broker));
    BrokerRoundTrip(s.broker);
  }

  /** Where each field of the reply is, by Table A-17 of E1.33: the type is 1 for IPv4, 2 for IPv6 and 0 for neither. */
  lemma {:induction false} ScopeLayout(slot: u16, s: Scope)
    ensures var b := ScopeBytes(slot, s);
            && b[..2] == Pack16(slot) && b[2..65] == s.id
            && match s.broker.ip
               case V4(a) => b[65] == 1 && b[66..70] == Pack32(a) && b[70..86] == Zeros(16) && b[86..] == Pack16(s.broker.port)
               case V6(a) => b[65] == 2 && b[66..70] == Zeros(4) && b[70..86] == a && b[86..] == Pack16(s.broker.port)
               case NoIp => b[65] == 0 && b[66..] == Zeros(22)
  {
    var b := ScopeBytes(slot, s);
    assert b[65..] == BrokerBytes(s.broker);
    assert b[66..] == BrokerBytes(s.broker)[1..];
  }

  /** Two scopes give the same reply exactly when nothing reportable tells them apart. */
  lemma {:induction false} RepliesDifferExactlyWhenReportsDo(i: u16, s: Scope, j: u16, t: Scope)
    ensures ScopeBytes(i, s) == ScopeBytes(j, t) <==> ReportOf(i, s) == ReportOf(j, t)
  {
    ScopeRoundTrip(i, s);
    ScopeRoundTrip(j, t);
  }

  // ----- the message

  ghost predicate Answerable(scopes: seq<Scope>, data: seq<byte>) {
    |data| >= 2 ==>
      var slot := Unpack16(data);
      1 <= slot <= |scopes| ==> Addressable(scopes, slot)
  }

  function ScopeReply(scopes: seq<Scope>, data: seq<byte>, available: nat): (r: Reply)
    requires Answerable(scopes, data)
  {
    if |data| < 2 then Nack(FormatError)
    else if REPLY_LENGTH > available then Nack(HardwareFault)
    else
      var slot := Unpack16(data);
      if slot == 0 || slot > |scopes| then Nack(DataOutOfRange)
      else
        WalkIsRightExactlyWhenAddressable(scopes, slot);
        match Walk(scopes, slot)
        case At(t) => Ack(ScopeBytes(t, scopes[t - 1]))
        case PastEnd => Nack(DataOutOfRange)
  }

  /** Every active slot, in order. */
  function ActiveSlots(scopes: seq<Scope>): (r: seq<nat>)
    ensures forall i :: 0 <= i < |r| ==> 1 <= r[i] <= |scopes|
  {
    if scopes == [] then []
    else
      var n := |scopes|;
      ActiveSlots(scopes[..n - 1]) + if Active(scopes[n - 1]) then [n] else []
  }

  lemma {:induction false} ActiveSlotsAreAll(scopes: seq<Scope>)
    ensures var r := ActiveSlots(scopes);
            && (forall k :: k in r <==> ActiveAt(scopes, k))
            && (forall i, j :: 0 <= i < j < |r| ==> r[i] < r[j])
  {
    if scopes != [] {
      var n := |scopes| - 1;
      ActiveSlotsAreAll(scopes[..n]);
      var r, q := ActiveSlots(scopes), ActiveSlots(scopes[..n]);
      forall k ensures k in r <==> ActiveAt(scopes, k) {
        assert k in r <==> k in q || (Active(scopes[n]) && k == n + 1);
        assert k in q <==> ActiveAt(scopes[..n], k);
      }
      forall i, j | 0 <= i < j < |r| ensures r[i] < r[j] {
        assert r[i] == q[i];
      }
    }
  }

  /** Where a querier goes on after a reply; there is no such slot after a refusal. */
  function SlotAfter(r: Reply): (slot: int) {
    if r.Ack? && |r.data| == REPLY_LENGTH then DecodeScope(r.data).slot + 1 else -1
  }

  /**
   A controller reading out the scopes of another: it asks for slot 1, and after every answer for the
   slot after the one it was told about, until it is refused.
   */
  ghost predicate ReadsOut(scopes: seq<Scope>, asked: seq<u16>, replies: seq<Reply>, available: nat) {
    && |asked| == |replies|
    && (asked != [] ==> asked[0] == 1)
    && (forall i :: 0 <= i < |asked| ==> Answerable(scopes, Pack16(asked[i])))
    && (forall i :: 0 <= i < |asked| ==> replies[i] == ScopeReply(scopes, Pack16(asked[i]), available))
    && (forall i :: 0 < i < |asked| ==>
          asked[i] == SlotAfter(replies[i - 1]))
  }

  /** The reply due to the query numbered `i` of a read-out. */
  ghost function Due(scopes: seq<Scope>, i: nat): (r: Reply)
    requires i < |ActiveSlots(scopes)| ==> ActiveSlots(scopes)[i] < 0x1_0000
  {
    var slots := ActiveSlots(scopes);
    if i < |slots| then Ack(ScopeBytes(slots[i], scopes[slots[i] - 1])) else Nack(DataOutOfRange)
  }

  ghost function DueSlot(scopes: seq<Scope>, i: nat): (slot: int)
    requires i <= |ActiveSlots(scopes)|
  {
    if i == 0 then 1 else ActiveSlots(scopes)[i - 1] + 1
  }

  lemma {:induction false} LeastActiveIsNext(scopes: seq<Scope>, i: nat, w: Walked)
    requires i <= |ActiveSlots(scopes)| && IsLeastActive(scopes, DueSlot(scopes, i), w)
    ensures w.At? <==> i < |ActiveSlots(scopes)|
    ensures w.At? ==> w.slot == ActiveSlots(scopes)[i]
  {
    var r := ActiveSlots(scopes);
    ActiveSlotsAreAll(scopes);
    assert i < |r| ==> ActiveAt(scopes, r[i]);
    if w.At? {
      var j :| 0 <= j < |r| && r[j] == w.slot;
      assert j >= i;
    }
  }

  lemma {:induction false} AskingForDueSlot(scopes: seq<Scope>, i: nat, slot: u16, available: nat)
    requires REPLY_LENGTH <= available && Answerable(scopes, Pack16(slot))
    requires i <= |ActiveSlots(scopes)| && slot == DueSlot(scopes, i)
    ensures i < |ActiveSlots(scopes)| ==> ActiveSlots(scopes)[i] < 0x1_0000
    ensures ScopeReply(scopes, Pack16(slot), available) == Due(scopes, i)
    ensures i == |ActiveSlots(scopes)| ==> |scopes| < 0xFFFF
  {
    assert Pack16(slot) + [] == Pack16(slot);
    Pack16RoundTrip(slot, []);
    if slot <= |scopes| {
      WalkIsRightExactlyWhenAddressable(scopes, slot);
      LeastActiveIsNext(scopes, i, Walk(scopes, slot));
    } else {
      LeastActiveIsNext(scopes, i, PastEnd);
    }
  }

  /** A due answer tells the querier where to go on. */
  lemma {:induction false} DueTells(scopes: seq<Scope>, i: nat)
    requires i < |ActiveSlots(scopes)| && ActiveSlots(scopes)[i] < 0x1_0000
    ensures var slot := ActiveSlots(scopes)[i];
            && DecodeScope(Due(scopes, i).data) == ReportOf(slot, scopes[slot - 1])
            && SlotAfter(Due(scopes, i)) == DueSlot(scopes, i + 1)
  {
    var slot := ActiveSlots(scopes)[i];
    ScopeRoundTrip(slot, scopes[slot - 1]);
  }

  lemma {:induction false} RepliesAreDue(scopes: seq<Scope>, asked: seq<u16>, replies: seq<Reply>, available: nat, i: nat)
    requires ReadsOut(scopes, asked, replies, available) && REPLY_LENGTH <= available && i < |asked|
    ensures i <= |ActiveSlots(scopes)| && asked[i] == DueSlot(scopes, i)
    ensures i < |ActiveSlots(scopes)| ==> ActiveSlots(scopes)[i] < 0x1_0000
    ensures replies[i] == Due(scopes, i) && (i == |ActiveSlots(scopes)| ==> |scopes| < 0xFFFF)
  {
    if i > 0 {
      RepliesAreDue(scopes, asked, replies, available, i - 1);
      assert asked[i] == SlotAfter(replies[i - 1]);
      assert i - 1 < |ActiveSlots(scopes)|;
      DueTells(scopes, i - 1);
    }
    AskingForDueSlot(scopes, i, asked[i], available);
  }

  /**
   Reading out never takes more queries than there are active scopes plus one; the answers are the active
   scopes' own records, each once and in order; and only the query after the last of them is refused, which
   needs fewer than 65535 slots: with more, the walk behind the last active one runs out of slot numbers.
   */
  lemma {:induction false} ReadOutIsComplete(scopes: seq<Scope>, asked: seq<u16>, replies: seq<Reply>, available: nat)
    requires ReadsOut(scopes, asked, replies, available) && REPLY_LENGTH <= available
    ensures |asked| <= |ActiveSlots(scopes)| + 1
    ensures forall i :: 0 <= i < |asked| && i < |ActiveSlots(scopes)| ==> ActiveSlots(scopes)[i] < 0x1_0000
    ensures forall i :: 0 <= i < |asked| ==> replies[i] == Due(scopes, i)
    ensures forall i :: 0 <= i < |asked| ==> (replies[i].Nack? <==> i == |ActiveSlots(scopes)|)
    ensures |asked| == |ActiveSlots(scopes)| + 1 ==> |scopes| < 0xFFFF
  {
    forall i | 0 <= i < |asked|
      ensures i <= |ActiveSlots(scopes)|
      ensures i < |ActiveSlots(scopes)| ==> ActiveSlots(scopes)[i] < 0x1_0000
      ensures replies[i] == Due(scopes, i)
    {
      RepliesAreDue(scopes, asked, replies, available, i);
    }
    if asked != [] {
      RepliesAreDue(scopes, asked, replies, available, |asked| - 1);
    }
  }
}
