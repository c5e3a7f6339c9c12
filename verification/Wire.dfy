/**
 Fixed-width unsigned integers and the big-endian packing used by every RDM parameter
 this library reads or writes.
 */
module Wire {

  type byte = x: int | 0 <= x < 0x100
  type u16 = x: int | 0 <= x < 0x1_0000
  type u32 = x: int | 0 <= x < 0x1_0000_0000

  const MODULUS: int := 0x1_0000_0000

  /** `++` on a 32-bit change number. */
  function Next(n: u32): (r: u32) {
    if n + 1 == MODULUS then 0 else n + 1
  }

  function Advance(n: u32, k: nat): (r: u32) {
    if k == 0 then n else Next(Advance(n, k - 1))
  }

  lemma {:induction false} AdvanceAdds(n: u32, j: nat, k: nat)
    ensures Advance(Advance(n, j), k) == Advance(n, j + k)
  {
    if k > 0 {
      AdvanceAdds(n, j, k - 1);
    }
  }

  /** Fewer than 2^32 advances return to the starting value only when there were none. */
  lemma {:induction false} AdvanceIsInjective(n: u32, k: nat)
    requires k < MODULUS
    ensures Advance(n, k) == if n + k < MODULUS then n + k else n + k - MODULUS
    ensures Advance(n, k) == n <==> k == 0
  {
    if k > 0 {
      AdvanceIsInjective(n, k - 1);
    }
  }

  function Pack16(v: u16): (r: seq<byte>)
    ensures |r| == 2
  {
    [v / 0x100, v % 0x100]
  }

  function Pack32(v: u32): (r: seq<byte>)
    ensures |r| == 4
  {
    Pack16(v / 0x1_0000) + Pack16(v % 0x1_0000)
  }

  function Unpack16(b: seq<byte>): (v: u16)
    requires |b| >= 2
  {
    b[0] as int * 0x100 + b[1] as int
  }

  function Unpack32(b: seq<byte>): (v: u32)
    requires |b| >= 4
  {
    Unpack16(b[..2]) as int * 0x1_0000 + Unpack16(b[2..]) as int
  }

  /** The most significant byte comes first. */
  lemma {:induction false} BigEndian(b: seq<byte>)
    requires |b| == 4
    ensures Unpack32(b) == 0x100_0000 * b[0] as int + 0x1_0000 * b[1] as int + 0x100 * b[2] as int + b[3] as int
    ensures Unpack16(b) == 0x100 * b[0] as int + b[1] as int
  {
    assert b[2..][0] == b[2] && b[2..][1] == b[3];
  }

  lemma {:induction false} Pack16RoundTrip(v: u16, rest: seq<byte>)
    ensures Unpack16(Pack16(v) + rest) == v
  {}

  lemma {:induction false} Pack32RoundTrip(v: u32, rest: seq<byte>)
    ensures Unpack32(Pack32(v) + rest) == v
  {
    var b := Pack32(v) + rest;
    assert b[..2] == Pack16(v / 0x1_0000) + [];
    assert b[2..] == Pack16(v % 0x1_0000) + rest;
    Pack16RoundTrip(v / 0x1_0000, []);
    Pack16RoundTrip(v % 0x1_0000, rest);
  }

  /** Write a 16-bit value at a cursor into a response buffer. */
  method Put16(buf: array<byte>, at: nat, v: u16)
    requires at + 2 <= buf.Length
    modifies buf
    ensures buf[..at + 2] == old(buf[..at]) + Pack16(v)
    ensures buf[at + 2..] == old(buf[at + 2..])
  {
    buf[at], buf[at + 1] := v / 0x100, v % 0x100;
  }

  /** Write a 32-bit value at a cursor into a response buffer. */
  method Put32(buf: array<byte>, at: nat, v: u32)
    requires at + 4 <= buf.Length
    modifies buf
    ensures buf[..at + 4] == old(buf[..at]) + Pack32(v)
    ensures buf[at + 4..] == old(buf[at + 4..])
  {
    Put16(buf, at, v / 0x1_0000);
    Put16(buf, at + 2, v % 0x1_0000);
  }
}
