/**
 The controller as the library keeps it: four label buffers of fixed size, written in place, and replies
 packed into a response buffer at a moving cursor.
 */
module Controllers {
  import opened Wire
  import opened Rdm
  import opened ControllerScopes
  import opened ControllerSpec

  /** `memcpy` into a response buffer or a label. */
  method PutBytes(buf: array<byte>, at: nat, bytes: seq<byte>)
    requires at + |bytes| <= buf.Length
    modifies buf
    ensures buf[..at + |bytes|] == old(buf[..at]) + bytes
    ensures buf[at + |bytes|..] == old(buf[at + |bytes|..])
  {
    for i := 0 to |bytes|
      invariant buf[..at + i] == old(buf[..at]) + bytes[..i]
      invariant buf[at + i..] == old(buf[at + i..])
    {
      buf[at + i] := bytes[i];
    }
  }

  /** `strncpy` with a terminator forced into the last place. */
  method StoreLabel(text: seq<byte>) returns (buf: array<byte>)
    ensures fresh(buf) && IsLabelBuffer(buf[..])
    ensures Text(buf[..]) == Kept(text)
  {
    buf := new byte[LABEL_BUFFER](_ => 0);
    var i := 0;
    while i < LABEL_BUFFER - 1 && i < |text| && text[i] != 0
      invariant 0 <= i <= LABEL_BUFFER - 1 && i <= |text|
      invariant 0 !in text[..i]
      invariant buf[..i] == text[..i] && forall k :: i <= k < LABEL_BUFFER ==> buf[k] == 0
    {
      buf[i] := text[i];
      i := i + 1;
    }
    assert buf[..] == text[..i] + [0] + buf[i + 1..];
    TextIsUnique(text[..i], buf[i + 1..]);
    FrontOfText(text, i);
  }

  lemma {:induction false} FrontOfText(text: seq<byte>, n: nat)
    requires n <= |text| && 0 !in text[..n]
    ensures n <= |Text(text)| && text[..n] == Text(text)[..n]
    ensures n == |text| || text[n] == 0 ==> |Text(text)| == n
  {
    var t := Text(text);
    assert n < |t| ==> t[n] == text[n] && t[n] in t;
  }

  /** `strlen`. */
  method LengthOf(buf: array<byte>) returns (n: nat)
    requires IsLabelBuffer(buf[..])
    ensures n < buf.Length && buf[..n] == Text(buf[..])
  {
    n := 0;
    ghost var t := Text(buf[..]);
    while buf[n] != 0
      invariant n <= |t|
      decreases |t| - n
    {
      n := n + 1;
    }
  }

  method GetText(buf: array<byte>, available: nat) returns (reply: Reply)
    requires IsLabelBuffer(buf[..])
    ensures reply == LabelReply(buf[..], Get, available)
  {
    var n := LengthOf(buf);
    if n > available {
      return Nack(HardwareFault);
    }
    var out := new byte[n];
    PutBytes(out, 0, buf[..n]);
    assert out[..] == out[..n];
    reply := Ack(out[..n]);
  }

  method PutIpv4(buf: array<byte>, at: nat, a: u32)
    requires at + 21 <= buf.Length
    modifies buf
    ensures buf[..at + 21] == old(buf[..at]) + ([1] + Pack32(a) + Zeros(16))
  {
    buf[at] := 1;
    Put32(buf, at + 1, a);
    PutBytes(buf, at + 5, Zeros(16));
  }

  method PutIpv6(buf: array<byte>, at: nat, a: Ipv6)
    requires at + 21 <= buf.Length
    modifies buf
    ensures buf[..at + 21] == old(buf[..at]) + ([2] + Zeros(4) + a)
  {
    buf[at] := 2;
    PutBytes(buf, at + 1, Zeros(4));
    PutBytes(buf, at + 5, a);
  }

  /** The static broker address, packed behind the scope string. */
  method PutBroker(buf: array<byte>, at: nat, broker: SockAddr)
    requires at + 23 <= buf.Length
    modifies buf
    ensures buf[..at + 23] == old(buf[..at]) + BrokerBytes(broker)
  {
    match broker.ip {
      case V4(a) =>
        PutIpv4(buf, at, a);
        Put16(buf, at + 21, broker.port);
      case V6(a) =>
        PutIpv6(buf, at, a);
        Put16(buf, at + 21, broker.port);
      case NoIp =>
        buf[at] := 0;
        PutBytes(buf, at + 1, Zeros(22));
    }
  }

  method PackScope(slot: u16, s: Scope) returns (reply: Reply)
    ensures reply == Ack(ScopeBytes(slot, s))
  {
    var buf := new byte[REPLY_LENGTH];
    Put16(buf, 0, slot);
    PutBytes(buf, 2, s.id);
    PutBroker(buf, 65, s.broker);
    assert buf[..] == buf[..88];
    reply := Ack(buf[..]);
  }

  /** The parameters answered here, two bytes each. */
  method PackSupported(available: nat) returns (reply: Reply)
    ensures reply == Buffered(18, PidBytes(SUPPORTED), available)
  {
    var size := 2 * |SUPPORTED|;
    if size > available {
      return Nack(HardwareFault);
    }
    var buf := new byte[size];
    for i := 0 to |SUPPORTED|
      invariant buf[..2 * i] == PidBytes(SUPPORTED[..i])
    {
      Put16(buf, 2 * i, SUPPORTED[i]);
      assert SUPPORTED[..i + 1][..i] == SUPPORTED[..i];
    }
    assert SUPPORTED[..|SUPPORTED|] == SUPPORTED;
    reply := Ack(buf[..size]);
  }

  /** The nineteen bytes of DEVICE_INFO. */
  method PackInfo(modelId: u16, category: u16, version: u32, available: nat) returns (reply: Reply)
    ensures reply == Buffered(19, DeviceInfo(modelId, category, version), available)
  {
    if 19 > available {
      return Nack(HardwareFault);
    }
    var buf := new byte[19];
    Put16(buf, 0, PROTOCOL_VERSION);
    Put16(buf, 2, modelId);
    Put16(buf, 4, category);
    Put32(buf, 6, version);
    Put32(buf, 10, 0);
    Put16(buf, 14, 0xFFFF);
    PutBytes(buf, 16, Zeros(3));
    reply := Ack(buf[..19]);
  }

  /** The configured search domain; an empty one is reported as the default. */
  method PackDomain(domain: seq<byte>, available: nat) returns (reply: Reply)
    ensures reply == DomainReply(domain, available)
  {
    if |domain| > available {
      return Nack(HardwareFault);
    }
    var text := if domain == [] then DEFAULT_DOMAIN else domain;
    var buf := new byte[|text|];
    PutBytes(buf, 0, text);
    assert buf[..0] == [];
    reply := Ack(buf[..|text|]);
  }

  method PackIdentify(available: nat) returns (reply: Reply)
    ensures reply == Buffered(1, [0], available)
  {
    if 1 > available {
      return Nack(HardwareFault);
    }
    var buf := new byte[1];
    buf[0] := 0;
    reply := Ack(buf[..1]);
  }

  class Controller {
    const modelId: u16
    const category: u16
    const version: u32
    const manufacturer: array<byte>
    const description: array<byte>
    const software: array<byte>
    const deviceLabel: array<byte>
    const settable: bool
    var domain: seq<byte>
    var scopes: seq<Scope>

    ghost predicate Separate()
    {
      deviceLabel != manufacturer && deviceLabel != description && deviceLabel != software
    }

    ghost function View(): (c: Data)
      reads this, manufacturer, description, software, deviceLabel
    {
      Data(modelId, category, version, manufacturer[..], description[..], software[..], deviceLabel[..],
           settable, domain, scopes)
    }

    constructor (modelId: u16, category: u16, version: u32, manufacturer: seq<byte>, description: seq<byte>,
                 software: seq<byte>, deviceLabel: seq<byte>, settable: bool, domain: seq<byte>)
      ensures Valid(View()) && Separate()
      ensures fresh(this.deviceLabel)
      ensures Text(View().manufacturer) == Kept(manufacturer) && Text(View().description) == Kept(description)
      ensures Text(View().software) == Kept(software) && Text(View().deviceLabel) == Kept(deviceLabel)
      ensures View() == View().(modelId := modelId, category := category, version := version, settable := settable,
                                domain := domain, scopes := [])
    {
      var m := StoreLabel(manufacturer);
      var d := StoreLabel(description);
      var s := StoreLabel(software);
      var l := StoreLabel(deviceLabel);
      this.modelId, this.category, this.version := modelId, category, version;
      this.manufacturer, this.description, this.software, this.deviceLabel := m, d, s, l;
      this.settable, this.domain, this.scopes := settable, domain, [];
    }

    /** The first slot at or above the one asked for whose scope is in use. */
    method FindScope(from: u16) returns (slot: u16)
      requires 1 <= from <= |scopes| && Addressable(scopes, from)
      ensures from <= slot
      ensures slot <= |scopes| ==> Walk(scopes, from) == At(slot)
      ensures slot > |scopes| ==> Walk(scopes, from) == PastEnd
    {
      slot := from;
      WalkIsRightExactlyWhenAddressable(scopes, from);
      while slot <= |scopes| && !Active(scopes[slot - 1])
        invariant from <= slot
        invariant slot <= |scopes| ==> Walk(scopes, slot) == Walk(scopes, from)
        invariant slot > |scopes| ==> Walk(scopes, from) == PastEnd
        decreases 0x1_0000 - slot
      {
        slot := slot + 1;
      }
    }

    method ComponentScope(data: seq<byte>, available: nat) returns (reply: Reply)
      requires Answerable(scopes, data)
      ensures reply == ScopeReply(scopes, data, available)
    {
      if |data| < 2 {
        return Nack(FormatError);
      }
      if REPLY_LENGTH > available {
        return Nack(HardwareFault);
      }
      var from := Unpack16(data);
      if from == 0 || from > |scopes| {
        return Nack(DataOutOfRange);
      }
      var slot := FindScope(from);
      if slot > |scopes| {
        return Nack(DataOutOfRange);
      }
      reply := PackScope(slot, scopes[slot - 1]);
    }

    method SetLabel(payload: seq<byte>)
      requires |payload| < LABEL_BUFFER && deviceLabel.Length == LABEL_BUFFER
      modifies deviceLabel
      ensures deviceLabel[..] == Overwritten(old(deviceLabel[..]), payload)
    {
      deviceLabel[|payload|] := 0;
      if |payload| > 0 {
        PutBytes(deviceLabel, 0, payload);
      }
      var n := |payload|;
      assert deviceLabel[..] == deviceLabel[..n] + [0] + deviceLabel[n + 1..] by {
        assert deviceLabel[n] == deviceLabel[n..][0];
      }
    }

    method Handle(cmd: Command, available: nat) returns (reply: Reply)
      requires Valid(View()) && Separate() && Legal(View(), cmd)
      modifies deviceLabel
      ensures View() == After(old(View()), cmd)
      ensures reply == ReplyTo(old(View()), cmd, available)
    {
      if cmd.cc != Get && !(cmd.pid == DEVICE_LABEL && settable) {
        return Nack(UnsupportedCommandClass);
      }
      if cmd.pid == DEVICE_LABEL {
        if cmd.cc == Get {
          reply := GetText(deviceLabel, available);
        } else if cmd.cc == Set {
          SetLabel(cmd.data);
          reply := Ack([]);
        } else {
          reply := Nack(UnsupportedCommandClass);
        }
      } else if cmd.pid == SUPPORTED_PARAMETERS {
        reply := PackSupported(available);
      } else if cmd.pid == DEVICE_INFO {
        reply := PackInfo(modelId, category, version, available);
      } else if cmd.pid == DEVICE_MODEL_DESCRIPTION {
        reply := GetText(description, available);
      } else if cmd.pid == MANUFACTURER_LABEL {
        reply := GetText(manufacturer, available);
      } else if cmd.pid == SOFTWARE_VERSION_LABEL {
        reply := GetText(software, available);
      } else if cmd.pid == COMPONENT_SCOPE {
        reply := ComponentScope(cmd.data, available);
      } else if cmd.pid == SEARCH_DOMAIN {
        reply := PackDomain(domain, available);
      } else if cmd.pid == IDENTIFY_DEVICE {
        reply := PackIdentify(available);
      } else {
        reply := Nack(UnknownPid);
      }
    }
  }
}
