/**
 The controller's own answers to RDM commands, for a controller that was given its data at creation
 instead of command callbacks.
 */
module ControllerSpec {
  import opened Wire
  import opened Rdm
  import opened ControllerScopes

  const LABEL_BUFFER: nat := 33

  const SUPPORTED_PARAMETERS: u16 := 0x0050
  const DEVICE_INFO: u16 := 0x0060
  const DEVICE_MODEL_DESCRIPTION: u16 := 0x0080
  const MANUFACTURER_LABEL: u16 := 0x0081
  const DEVICE_LABEL: u16 := 0x0082
  const SOFTWARE_VERSION_LABEL: u16 := 0x00C0
  const COMPONENT_SCOPE: u16 := 0x0800
  const SEARCH_DOMAIN: u16 := 0x0801
  const TCP_COMMS_STATUS: u16 := 0x0802
  const IDENTIFY_DEVICE: u16 := 0x1000
  const PROTOCOL_VERSION: u16 := 0x0100

  /** "local." */
  const DEFAULT_DOMAIN: seq<byte> := [0x6C, 0x6F, 0x63, 0x61, 0x6C, 0x2E]

  datatype Data = Data(
    modelId: u16,
    category: u16,
    version: u32,
    manufacturer: seq<byte>,
    description: seq<byte>,
    software: seq<byte>,
    deviceLabel: seq<byte>,
    settable: bool,
    domain: seq<byte>,
    scopes: seq<Scope>)

  datatype Command = Command(cc: CommandClass, pid: u16, data: seq<byte>)

  // ----- label buffers

  /** The characters in front of the terminator. */
  function Text(buf: seq<byte>): (r: seq<byte>)
    ensures r <= buf
    ensures 0 !in r
    ensures |r| < |buf| ==> buf[|r|] == 0
  {
    if buf == [] || buf[0] == 0 then [] else [buf[0]] + Text(buf[1..])
  }

  predicate IsLabelBuffer(buf: seq<byte>) {
    |buf| == LABEL_BUFFER && |Text(buf)| < LABEL_BUFFER
  }

  /** `Text` is the only string that a buffer can stand for. */
  lemma {:induction false} TextIsUnique(t: seq<byte>, rest: seq<byte>)
    requires 0 !in t
    ensures Text(t + [0] + rest) == t
  {
    if t == [] {
      assert (t + [0] + rest)[0] == 0;
    } else {
      assert t[0] in t;
      TextIsUnique(t[1..], rest);
      assert (t + [0] + rest)[1..] == t[1..] + [0] + rest;
    }
  }

  /** What a label buffer keeps of a configured text. */
  function Kept(text: seq<byte>): (r: seq<byte>) {
    var t := Text(text);
    if |t| < LABEL_BUFFER then t else t[..LABEL_BUFFER - 1]
  }

  /** A buffer after a label has been written over its front. */
  function Overwritten(buf: seq<byte>, payload: seq<byte>): (r: seq<byte>)
    requires |payload| < |buf|
    ensures |r| == |buf|
  {
    payload + [0] + buf[|payload| + 1..]
  }

  /** Nothing of the former label shows through, whatever the buffer held. */
  lemma {:induction false} OverwrittenReadsBack(buf: seq<byte>, payload: seq<byte>)
    requires |payload| < |buf|
    ensures Text(Overwritten(buf, payload)) == Text(payload)
  {
    var t := Text(payload);
    var r := Overwritten(buf, payload);
    assert r[|t|] == 0;
    assert r == t + [0] + r[|t| + 1..];
    TextIsUnique(t, r[|t| + 1..]);
  }

  lemma {:induction false} UncutText(t: seq<byte>)
    requires 0 !in t
    ensures Text(t) == t
  {
    if t != [] {
      assert t[0] in t;
      UncutText(t[1..]);
    }
  }

  // ----- commands

  predicate Valid(c: Data) {
    && IsLabelBuffer(c.manufacturer) && IsLabelBuffer(c.description)
    && IsLabelBuffer(c.software) && IsLabelBuffer(c.deviceLabel)
  }

  predicate Refused(c: Data, cmd: Command) {
    cmd.cc != Get && !(cmd.pid == DEVICE_LABEL && c.settable)
  }

  predicate SetsLabel(c: Data, cmd: Command) {
    cmd.cc == Set && cmd.pid == DEVICE_LABEL && c.settable
  }

  /** A label fits its buffer, and a scope query stays within the slots a 16-bit counter reaches. */
  ghost predicate Legal(c: Data, cmd: Command) {
    && (SetsLabel(c, cmd) ==> |cmd.data| < LABEL_BUFFER)
    && (!Refused(c, cmd) && cmd.pid == COMPONENT_SCOPE ==> Answerable(c.scopes, cmd.data))
  }

  const SUPPORTED: seq<u16> := [
    SUPPORTED_PARAMETERS, DEVICE_MODEL_DESCRIPTION, MANUFACTURER_LABEL, DEVICE_LABEL, SOFTWARE_VERSION_LABEL,
    COMPONENT_SCOPE, SEARCH_DOMAIN, TCP_COMMS_STATUS, IDENTIFY_DEVICE]

  function PidBytes(pids: seq<u16>): (r: seq<byte>)
    ensures |r| == 2 * |pids|
  {
    if pids == [] then [] else PidBytes(pids[..|pids| - 1]) + Pack16(pids[|pids| - 1])
  }

  function DeviceInfo(modelId: u16, category: u16, version: u32): (r: seq<byte>)
    ensures |r| == 19
  {
    Pack16(PROTOCOL_VERSION) + Pack16(modelId) + Pack16(category) + Pack32(version)
    + Pack32(0) + Pack16(0xFFFF) + Zeros(3)
  }

  function Buffered(asked: nat, data: seq<byte>, available: nat): (r: Reply) {
    if asked > available then Nack(HardwareFault) else Ack(data)
  }

  function LabelReply(buf: seq<byte>, cc: CommandClass, available: nat): (r: Reply) {
    match cc
    case Get => Buffered(|Text(buf)|, Text(buf), available)
    case Set => Ack([])
    case OtherClass => Nack(UnsupportedCommandClass)
  }

  function DomainReply(domain: seq<byte>, available: nat): (r: Reply) {
    Buffered(|domain|, if domain == [] then DEFAULT_DOMAIN else domain, available)
  }

  function ReplyTo(c: Data, cmd: Command, available: nat): (r: Reply)
    requires Legal(c, cmd)
  {
    if Refused(c, cmd) then Nack(UnsupportedCommandClass)
    else if cmd.pid == SUPPORTED_PARAMETERS then Buffered(18, PidBytes(SUPPORTED), available)
    else if cmd.pid == DEVICE_INFO then Buffered(19, DeviceInfo(c.modelId, c.category, c.version), available)
    else if cmd.pid == DEVICE_MODEL_DESCRIPTION then LabelReply(c.description, cmd.cc, available)
    else if cmd.pid == MANUFACTURER_LABEL then LabelReply(c.manufacturer, cmd.cc, available)
    else if cmd.pid == DEVICE_LABEL then LabelReply(c.deviceLabel, cmd.cc, available)
    else if cmd.pid == SOFTWARE_VERSION_LABEL then LabelReply(c.software, cmd.cc, available)
    else if cmd.pid == COMPONENT_SCOPE then ScopeReply(c.scopes, cmd.data, available)
    else if cmd.pid == SEARCH_DOMAIN then DomainReply(c.domain, available)
    else if cmd.pid == IDENTIFY_DEVICE then Buffered(1, [0], available)
    else Nack(UnknownPid)
  }

  /** The only write a command can cause. */
  function After(c: Data, cmd: Command): (d: Data)
    requires Valid(c) && Legal(c, cmd)
  {
    if SetsLabel(c, cmd) then c.(deviceLabel := Overwritten(c.deviceLabel, cmd.data)) else c
  }

  // ----- runs

  ghost predicate IsRun(cs: seq<Data>, cmds: seq<Command>) {
    && |cs| == |cmds| + 1
    && Valid(cs[0])
    && forall i :: 0 <= i < |cmds| ==> Valid(cs[i]) && Legal(cs[i], cmds[i]) && cs[i + 1] == After(cs[i], cmds[i])
  }

  /** The payload of the last SET of the device label, or what was there before. */
  function LastSet(text: seq<byte>, cmds: seq<Command>): (r: seq<byte>) {
    if cmds == [] then text
    else
      var last := cmds[|cmds| - 1];
      if last.cc == Set && last.pid == DEVICE_LABEL then last.data else LastSet(text, cmds[..|cmds| - 1])
  }

  lemma {:induction false} AfterKeepsValid(c: Data, cmd: Command)
    requires Valid(c) && Legal(c, cmd)
    ensures Valid(After(c, cmd))
    ensures After(c, cmd) == c.(deviceLabel := After(c, cmd).deviceLabel)
    ensures Text(After(c, cmd).deviceLabel) == if SetsLabel(c, cmd) then Text(cmd.data) else Text(c.deviceLabel)
  {
    if SetsLabel(c, cmd) {
      OverwrittenReadsBack(c.deviceLabel, cmd.data);
    }
  }

  /**
   Over any run, the device label reads as the last accepted SET, cut at its first NUL, or as configured;
   no other stored field ever changes; and nothing at all changes when the label is not settable.
   */
  lemma {:induction false} LabelFollowsRun(cs: seq<Data>, cmds: seq<Command>)
    requires IsRun(cs, cmds)
    ensures var first, last := cs[0], cs[|cmds|];
            && Valid(last)
            && last == first.(deviceLabel := last.deviceLabel)
            && (first.settable ==> Text(last.deviceLabel) == Text(LastSet(Text(first.deviceLabel), cmds)))
            && (!first.settable ==> last == first)
  {
    UncutText(Text(cs[0].deviceLabel));
    if cmds != [] {
      var n := |cmds| - 1;
      forall i | 0 <= i < n
        ensures Valid(cs[..n + 1][i]) && Legal(cs[..n + 1][i], cmds[..n][i])
        ensures cs[..n + 1][i + 1] == After(cs[..n + 1][i], cmds[..n][i])
      {
        assert cs[..n + 1][i] == cs[i] && cmds[..n][i] == cmds[i];
      }
      LabelFollowsRun(cs[..n + 1], cmds[..n]);
      AfterKeepsValid(cs[n], cmds[n]);
    }
  }

  lemma {:induction false} GetLabel(c: Data, data: seq<byte>, available: nat)
    requires Valid(c) && LABEL_BUFFER <= available
    ensures ReplyTo(c, Command(Get, DEVICE_LABEL, data), available) == Ack(Text(c.deviceLabel))
  {}

  /** What a querier sees: GET DEVICE_LABEL after a run answers with the last label set, or the configured one. */
  lemma {:induction false} LabelIsReported(cs: seq<Data>, cmds: seq<Command>, data: seq<byte>, available: nat)
    requires IsRun(cs, cmds) && LABEL_BUFFER <= available
    ensures var shown := ReplyTo(cs[|cmds|], Command(Get, DEVICE_LABEL, data), available);
            var configured := Text(cs[0].deviceLabel);
            if !cs[0].settable then shown == Ack(configured)
            else
              && shown == Ack(Text(LastSet(configured, cmds)))
              && (0 !in LastSet(configured, cmds) ==> shown == Ack(LastSet(configured, cmds)))
  {
    LabelFollowsRun(cs, cmds);
    GetLabel(cs[|cmds|], data, available);
    var l := LastSet(Text(cs[0].deviceLabel), cmds);
    if 0 !in l {
      UncutText(l);
    }
  }
}
