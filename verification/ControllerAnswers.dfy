/**
 What a controller answers to each parameter, by the parameter ids of ANSI E1.20 and E1.33 and in terms of what it was
 created with.
 */
module ControllerAnswers {
  import opened Wire
  import opened Rdm
  import opened ControllerScopes
  import opened ControllerSpec

  function GetOf(pid: u16, data: seq<byte>): (cmd: Command) {
    Command(Get, pid, data)
  }

  /** Thirty-two characters of a text are kept, fewer if it ends before. */
  lemma {:induction false} KeptMeans(text: seq<byte>, t: seq<byte>, rest: seq<byte>)
    requires 0 !in t && (text == t || text == t + [0] + rest)
    ensures Kept(text) == if |t| <= 32 then t else t[..32]
  {
    if text == t {
      UncutText(t);
    } else {
      TextIsUnique(t, rest);
    }
  }

  // ----- labels

  /** Each label parameter answers with the label of that name; the device label is the only one that can change. */
  lemma {:induction false} LabelsAnswer(c: Data, data: seq<byte>, available: nat)
    ensures ReplyTo(c, GetOf(0x0081, data), available)
         == if |Text(c.manufacturer)| > available then Nack(HardwareFault) else Ack(Text(c.manufacturer))
    ensures ReplyTo(c, GetOf(0x0080, data), available)
         == if |Text(c.description)| > available then Nack(HardwareFault) else Ack(Text(c.description))
    ensures ReplyTo(c, GetOf(0x00C0, data), available)
         == if |Text(c.software)| > available then Nack(HardwareFault) else Ack(Text(c.software))
    ensures ReplyTo(c, GetOf(0x0082, data), available)
         == if |Text(c.deviceLabel)| > available then Nack(HardwareFault) else Ack(Text(c.deviceLabel))
  {}

  /** No sequence of commands changes what any other parameter than the device label answers. */
  lemma {:induction false} RunKeepsAnswers(cs: seq<Data>, cmds: seq<Command>, cmd: Command, available: nat)
    requires IsRun(cs, cmds) && cmd.pid != 0x0082 && Legal(cs[0], cmd)
    ensures Legal(cs[|cmds|], cmd) && ReplyTo(cs[|cmds|], cmd, available) == ReplyTo(cs[0], cmd, available)
  {
    LabelFollowsRun(cs, cmds);
  }

  /** After any sequence of commands a controller names itself as it was configured. */
  lemma {:induction false} ConfiguredLabelsAnswer(
    cs: seq<Data>, cmds: seq<Command>, manufacturer: seq<byte>, description: seq<byte>, software: seq<byte>,
    data: seq<byte>, available: nat)
    requires IsRun(cs, cmds) && 33 <= available
    requires Text(cs[0].manufacturer) == Kept(manufacturer) && Text(cs[0].description) == Kept(description)
    requires Text(cs[0].software) == Kept(software)
    ensures ReplyTo(cs[|cmds|], GetOf(0x0081, data), available) == Ack(Kept(manufacturer))
    ensures ReplyTo(cs[|cmds|], GetOf(0x0080, data), available) == Ack(Kept(description))
    ensures ReplyTo(cs[|cmds|], GetOf(0x00C0, data), available) == Ack(Kept(software))
  {
    LabelFollowsRun(cs, cmds);
    LabelsAnswer(cs[|cmds|], data, available);
  }

  // ----- the other parameters

  function DecodePids(b: seq<byte>): (pids: seq<u16>) {
    if |b| < 2 then [] else [Unpack16(b)] + DecodePids(b[2..])
  }

  lemma {:induction false} DecodePidsAppends(a: seq<byte>, pid: u16)
    requires |a| % 2 == 0
    ensures DecodePids(a + Pack16(pid)) == DecodePids(a) + [pid]
    decreases |a|
  {
    var b := a + Pack16(pid);
    if a == [] {
      assert b == Pack16(pid) + [];
      Pack16RoundTrip(pid, []);
      assert b[2..] == [];
    } else {
      assert b[2..] == a[2..] + Pack16(pid);
      DecodePidsAppends(a[2..], pid);
    }
  }

  lemma {:induction false} PidsRoundTrip(pids: seq<u16>)
    ensures DecodePids(PidBytes(pids)) == pids
  {
    if pids != [] {
      var n := |pids| - 1;
      PidsRoundTrip(pids[..n]);
      DecodePidsAppends(PidBytes(pids[..n]), pids[n]);
    }
  }

  /** SUPPORTED_PARAMETERS lists what is answered here and TCP_COMMS_STATUS, which the layer below answers. */
  lemma {:induction false} SupportedAnswer(c: Data, data: seq<byte>, available: nat)
    ensures var r := ReplyTo(c, GetOf(0x0050, data), available);
            if available < 18 then r == Nack(HardwareFault)
            else
              && r.Ack? && |r.data| == 18
              && DecodePids(r.data) == [0x0050, 0x0080, 0x0081, 0x0082, 0x00C0, 0x0800, 0x0801, 0x0802, 0x1000]
  {
    PidsRoundTrip(SUPPORTED);
  }

  /** DEVICE_INFO gives the protocol version, the configured model, category and version, and no DMX or sensors. */
  lemma {:induction false} InfoAnswer(c: Data, data: seq<byte>, available: nat)
    ensures var r := ReplyTo(c, GetOf(0x0060, data), available);
            if available < 19 then r == Nack(HardwareFault)
            else
              && r.Ack? && |r.data| == 19
              && Unpack16(r.data) == 0x0100 && Unpack16(r.data[2..]) == c.modelId
              && Unpack16(r.data[4..]) == c.category && Unpack32(r.data[6..]) == c.version
              && Unpack32(r.data[10..]) == 0 && Unpack16(r.data[14..]) == 0xFFFF && r.data[16..] == [0, 0, 0]
  {
    InfoDecodes(c.modelId, c.category, c.version);
  }

  lemma {:induction false} InfoDecodes(modelId: u16, category: u16, version: u32)
    ensures var b := DeviceInfo(modelId, category, version);
            && Unpack16(b) == 0x0100 && Unpack16(b[2..]) == modelId && Unpack16(b[4..]) == category
            && Unpack32(b[6..]) == version && Unpack32(b[10..]) == 0 && Unpack16(b[14..]) == 0xFFFF
            && b[16..] == [0, 0, 0]
  {
    var b := DeviceInfo(modelId, category, version);
    assert b[2..] == Pack16(modelId) + b[4..];
    Pack16RoundTrip(modelId, b[4..]);
    assert b[4..] == Pack16(category) + b[6..];
    Pack16RoundTrip(category, b[6..]);
    assert b[6..] == Pack32(version) + b[10..];
    Pack32RoundTrip(version, b[10..]);
    assert b[10..] == Pack32(0) + b[14..];
    Pack32RoundTrip(0, b[14..]);
    assert b[14..] == Pack16(0xFFFF) + b[16..];
    Pack16RoundTrip(0xFFFF, b[16..]);
    assert b == Pack16(0x0100) + b[2..];
    Pack16RoundTrip(0x0100, b[2..]);
  }

  /** SEARCH_DOMAIN gives the domain, and "local." when there is none; IDENTIFY_DEVICE says that it is off. */
  lemma {:induction false} DomainAndIdentifyAnswer(c: Data, data: seq<byte>, available: nat)
    ensures c.domain != [] ==>
              ReplyTo(c, GetOf(0x0801, data), available)
              == if |c.domain| > available then Nack(HardwareFault) else Ack(c.domain)
    ensures c.domain == [] ==> ReplyTo(c, GetOf(0x0801, data), available) == Ack([0x6C, 0x6F, 0x63, 0x61, 0x6C, 0x2E])
    ensures ReplyTo(c, GetOf(0x1000, data), available) == if available < 1 then Nack(HardwareFault) else Ack([0])
  {}

  /**
   COMPONENT_SCOPE answers with the record of the first active slot at or above the one asked for, and refuses slot
   zero, slots past the end, and slots behind the last active one as out of range.
   */
  lemma {:induction false} ScopeAnswer(c: Data, data: seq<byte>, available: nat, w: Walked)
    requires Answerable(c.scopes, data) && |data| >= 2 && IsLeastActive(c.scopes, Unpack16(data), w)
    ensures var r := ReplyTo(c, GetOf(0x0800, data), available);
            if available < 88 then r == Nack(HardwareFault)
            else if Unpack16(data) == 0 || w == PastEnd then r == Nack(DataOutOfRange)
            else r.Ack? && |r.data| == 88 && DecodeScope(r.data) == ReportOf(w.slot, c.scopes[w.slot - 1])
  {
    var slot := Unpack16(data);
    if 1 <= slot <= |c.scopes| {
      WalkIsRightExactlyWhenAddressable(c.scopes, slot);
      LeastIsUnique(c.scopes, slot, w, Walk(c.scopes, slot));
    }
    if w.At? {
      ScopeRoundTrip(w.slot, c.scopes[w.slot - 1]);
    }
  }

  lemma {:induction false} LeastIsUnique(scopes: seq<Scope>, slot: nat, v: Walked, w: Walked)
    requires IsLeastActive(scopes, slot, v) && IsLeastActive(scopes, slot, w)
    ensures v == w
  {}

  lemma {:induction false} ShortScopeQuery(c: Data, data: seq<byte>, available: nat)
    requires |data| < 2
    ensures ReplyTo(c, GetOf(0x0800, data), available) == Nack(FormatError)
  {}

  /** Every other parameter is unknown here. */
  lemma {:induction false} UnknownAnswer(c: Data, pid: u16, data: seq<byte>, available: nat)
    requires pid !in {0x0050, 0x0060, 0x0080, 0x0081, 0x0082, 0x00C0, 0x0800, 0x0801, 0x1000}
    ensures ReplyTo(c, GetOf(pid, data), available) == Nack(UnknownPid)
  {}

  /** Nothing can be set but a settable device label, which is accepted without data; no other class is supported. */
  lemma {:induction false} SetAnswer(c: Data, cmd: Command, available: nat)
    requires Legal(c, cmd) && cmd.cc != Get
    ensures ReplyTo(c, cmd, available)
         == if cmd.cc == Set && cmd.pid == 0x0082 && c.settable then Ack([]) else Nack(UnsupportedCommandClass)
  {}

  /** An accepted SET replaces the device label by its payload, up to a terminator; nothing else changes anything. */
  lemma {:induction false} OnlySetLabelChanges(c: Data, cmd: Command)
    requires Valid(c) && Legal(c, cmd)
    ensures var d := After(c, cmd);
            if cmd.cc == Set && cmd.pid == 0x0082 && c.settable
            then d == c.(deviceLabel := d.deviceLabel) && Text(d.deviceLabel) == Text(cmd.data)
            else d == c
  {
    AfterKeepsValid(c, cmd);
  }
}
