/**
 Bytes, little-endian words and the message header of section 2.3.2 of
 RFC 3549, as pkg/xtcpnl lays them out and reads them back.
 */
module Netlink {

  type Byte = b: int | 0 <= b < 0x100
  type Bytes = seq<Byte>
  type U16 = w: int | 0 <= w < 0x1_0000
  type U32 = w: int | 0 <= w < 0x1_0000_0000

  const HEADER_SIZE: nat := 16
  const RTM_NEWADDR: U16 := 20
  const RTM_DELADDR: U16 := 21
  const RTM_DELNEIGH: U16 := 29

  /** NLMSG_ALIGN: the next multiple of four. */
  function Align(n: nat): (a: nat)
    ensures a % 4 == 0 && n <= a < n + 4
    ensures n % 4 == 0 ==> a == n
  {
    (n + 3) / 4 * 4
  }

  lemma AlignMonotone(a: nat, b: nat)
    requires a <= b
    ensures Align(a) <= Align(b)
  {
  }

  function Zeros(n: nat): (z: Bytes)
    ensures |z| == n
    ensures forall i :: 0 <= i < n ==> z[i] == 0
  {
    seq(n, _ => 0)
  }

  /** Zero bytes up to the next multiple of four. */
  function Pad(b: Bytes): (p: Bytes)
    ensures |p| == Align(|b|) && b <= p
    ensures |b| % 4 == 0 ==> p == b
  {
    b + Zeros(Align(|b|) - |b|)
  }

  function Le16(v: U16): (b: Bytes)
    ensures |b| == 2
  {
    [v % 0x100, v / 0x100]
  }

  function Le32(v: U32): (b: Bytes)
    ensures |b| == 4
  {
    Le16(v % 0x1_0000) + Le16(v / 0x1_0000)
  }

  function Get16(b: Bytes): U16
    requires |b| == 2
  {
    b[0] as int + 0x100 * b[1] as int
  }

  function Get32(b: Bytes): U32
    requires |b| == 4
  {
    Get16(b[..2]) as int + 0x1_0000 * Get16(b[2..]) as int
  }

  lemma Word16RoundTrip(w: U16)
    ensures Get16(Le16(w)) == w
  {
  }

  /** Writing a word and reading it back. */
  lemma Word32RoundTrip(v: U32)
    ensures Get32(Le32(v)) == v
  {
    var lo, hi := v % 0x1_0000, v / 0x1_0000;
    assert Le32(v)[..2] == Le16(lo) && Le32(v)[2..] == Le16(hi);
    Word16RoundTrip(lo);
    Word16RoundTrip(hi);
  }

  datatype Header = Header(len: U32, typ: U16, flags: U16, seqno: U32, pid: U32)

  function EncodeHeader(h: Header): (b: Bytes)
    ensures |b| == HEADER_SIZE
  {
    Le32(h.len) + Le16(h.typ) + Le16(h.flags) + Le32(h.seqno) + Le32(h.pid)
  }

  /** DeserializeNlMsgHdr on its sixteen bytes. */
  function DecodeHeader(b: Bytes): Header
    requires |b| >= HEADER_SIZE
  {
    Header(Get32(b[0..4]), Get16(b[4..6]), Get16(b[6..8]), Get32(b[8..12]), Get32(b[12..16]))
  }

  lemma HeaderRoundTrip(h: Header, rest: Bytes)
    ensures DecodeHeader(EncodeHeader(h) + rest) == h
  {
    var b := EncodeHeader(h) + rest;
    assert b[0..4] == Le32(h.len) && b[4..6] == Le16(h.typ) && b[6..8] == Le16(h.flags);
    assert b[8..12] == Le32(h.seqno) && b[12..16] == Le32(h.pid);
    Word32RoundTrip(h.len);
    Word16RoundTrip(h.typ);
    Word16RoundTrip(h.flags);
    Word32RoundTrip(h.seqno);
    Word32RoundTrip(h.pid);
  }

  /** Bitwise or with NLM_F_REQUEST, NLM_F_ACK and NLM_F_CREATE: the bit is set,
      and the bits above and below it stay as they were. */
  function OrRequest(flags: U16): (r: U16)
    ensures r % 2 == 1 && r / 2 == flags / 2
  {
    if flags % 2 == 1 then flags else flags + 0x1
  }

  function OrAck(flags: U16): (r: U16)
    ensures r / 4 % 2 == 1 && r / 8 == flags / 8 && r % 4 == flags % 4
  {
    if flags / 4 % 2 == 1 then flags else flags + 0x4
  }

  function OrCreate(flags: U16): (r: U16)
    ensures r / 0x400 % 2 == 1 && r / 0x800 == flags / 0x800 && r % 0x400 == flags % 0x400
  {
    if flags / 0x400 % 2 == 1 then flags else flags + 0x400
  }

  /** A message: a header whose length covers it, then its body. */
  ghost predicate Framed(m: Bytes) {
    |m| >= HEADER_SIZE && DecodeHeader(m).len == |m|
  }

  /**
   BuildWriteRequest: sixteen bytes of header and the body, NLM_F_REQUEST (1) ORed
   into the flags and the pid zero.
   */
  function BuildWrite(typ: U16, flags: U16, seqno: U32, body: Bytes): (m: Bytes)
    ensures |m| == HEADER_SIZE + |body| && m[HEADER_SIZE..] == body
    ensures DecodeHeader(m)
         == Header(|m| % 0x1_0000_0000, typ, OrRequest(flags), seqno, 0)
    ensures |m| < 0x1_0000_0000 ==> Framed(m)
  {
    var len := (HEADER_SIZE + |body|) % 0x1_0000_0000;
    var h := Header(len, typ, OrRequest(flags), seqno, 0);
    HeaderRoundTrip(h, body);
    EncodeHeader(h) + body
  }
}
