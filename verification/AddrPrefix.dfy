/**
 Address prefixes: the prefix test of internal/goip/addr_filter.go and the
 computed broadcast of internal/goip/addr_write.go.

 The test compares whole bytes and then a masked one; it is shown to be
 agreement on the leading bits. The broadcast flips bits in place; it is shown
 to be the greatest, or least, address the test accepts.
 */
module AddrPrefix {
  import opened Shared

  type Octets = seq<bv8>

  const AF_UNSPEC: nat := 0
  const AF_INET: nat := 2
  const AF_INET6: nat := 10

  /** bitlen is zero or less for `default`, `all` and `any`. */
  datatype InetPrefix = InetPrefix(family: nat, data: Octets, bitlen: int)

  // ------------------------------------------------------------------------ bits

  /** The mask of bit `k`, counted from the most significant. */
  function BitMask(k: nat): bv8
    requires k < 8
  {
    if k == 0 then 0x80 else if k == 1 then 0x40 else if k == 2 then 0x20 else if k == 3 then 0x10
    else if k == 4 then 0x08 else if k == 5 then 0x04 else if k == 6 then 0x02 else 0x01
  }

  predicate ByteBit(b: bv8, k: nat)
    requires k < 8
  {
    b & BitMask(k) != 0
  }

  /** Bit `i` of an address, counted from the front. */
  predicate Bit(a: Octets, i: nat)
    requires i < 8 * |a|
  {
    ByteBit(a[i / 8], i % 8)
  }

  ghost predicate Agree(a: Octets, b: Octets, n: nat)
    requires n <= 8 * |a| && n <= 8 * |b|
  {
    forall i :: 0 <= i < n ==> (Bit(a, i) <==> Bit(b, i))
  }

  lemma SameBitsSameByte(x: bv8, y: bv8)
    requires forall k :: 0 <= k < 8 ==> (ByteBit(x, k) <==> ByteBit(y, k))
    ensures x == y
  {
    assert ByteBit(x, 0) <==> ByteBit(y, 0);
    assert ByteBit(x, 1) <==> ByteBit(y, 1);
    assert ByteBit(x, 2) <==> ByteBit(y, 2);
    assert ByteBit(x, 3) <==> ByteBit(y, 3);
    assert ByteBit(x, 4) <==> ByteBit(y, 4);
    assert ByteBit(x, 5) <==> ByteBit(y, 5);
    assert ByteBit(x, 6) <==> ByteBit(y, 6);
    assert ByteBit(x, 7) <==> ByteBit(y, 7);
  }

  /** The mask of the `rest` leading bits of a byte. */
  function TopMask(rest: nat): bv8
    requires rest < 8
  {
    0xff << (8 - rest)
  }

  /** The masked difference is zero exactly when the leading bits agree. */
  lemma MaskedDifference(x: bv8, y: bv8, rest: nat)
    requires 0 < rest < 8
    ensures (x ^ y) & TopMask(rest) == 0
       <==> forall k :: 0 <= k < rest ==> (ByteBit(x, k) <==> ByteBit(y, k))
  {
    if forall k :: 0 <= k < rest ==> (ByteBit(x, k) <==> ByteBit(y, k)) {
      assert ByteBit(x, 0) <==> ByteBit(y, 0);
      assert rest > 1 ==> (ByteBit(x, 1) <==> ByteBit(y, 1));
      assert rest > 2 ==> (ByteBit(x, 2) <==> ByteBit(y, 2));
      assert rest > 3 ==> (ByteBit(x, 3) <==> ByteBit(y, 3));
      assert rest > 4 ==> (ByteBit(x, 4) <==> ByteBit(y, 4));
      assert rest > 5 ==> (ByteBit(x, 5) <==> ByteBit(y, 5));
      assert rest > 6 ==> (ByteBit(x, 6) <==> ByteBit(y, 6));
    }
  }

  lemma WholeBytesAgree(a: Octets, b: Octets, whole: nat)
    requires whole <= |a| && whole <= |b|
    ensures Agree(a, b, 8 * whole) <==> forall i :: 0 <= i < whole ==> a[i] == b[i]
  {
    if Agree(a, b, 8 * whole) {
      forall i | 0 <= i < whole ensures a[i] == b[i] {
        forall k | 0 <= k < 8 ensures ByteBit(a[i], k) <==> ByteBit(b[i], k) {
          assert Bit(a, 8 * i + k) <==> Bit(b, 8 * i + k);
          assert (8 * i + k) / 8 == i && (8 * i + k) % 8 == k;
        }
        SameBitsSameByte(a[i], b[i]);
      }
    }
  }

  lemma RestAgrees(a: Octets, b: Octets, whole: nat, rest: nat)
    requires rest < 8 && 8 * whole + rest <= 8 * |a| && 8 * whole + rest <= 8 * |b|
    requires rest > 0
    ensures Agree(a, b, 8 * whole + rest)
       <==> Agree(a, b, 8 * whole) && (a[whole] ^ b[whole]) & TopMask(rest) == 0
  {
    MaskedDifference(a[whole], b[whole], rest);
    if Agree(a, b, 8 * whole + rest) {
      forall k | 0 <= k < rest ensures ByteBit(a[whole], k) <==> ByteBit(b[whole], k) {
        assert Bit(a, 8 * whole + k) <==> Bit(b, 8 * whole + k);
        assert (8 * whole + k) / 8 == whole && (8 * whole + k) % 8 == k;
      }
    }
    if Agree(a, b, 8 * whole) && (a[whole] ^ b[whole]) & TopMask(rest) == 0 {
      forall i | 0 <= i < 8 * whole + rest ensures Bit(a, i) <==> Bit(b, i) {
        if i >= 8 * whole {
          assert i / 8 == whole && i % 8 == i - 8 * whole;
          assert ByteBit(a[whole], i - 8 * whole) <==> ByteBit(b[whole], i - 8 * whole);
        }
      }
    }
  }

  // --------------------------------------------------------------- the prefix test

  /** `local` falls inside `pfx`: the leading bits agree. No attribute, no
      prefix family and a bitlen of zero or less all pass. */
  ghost predicate InPrefix(pfx: InetPrefix, local: Option<Octets>) {
    || local.None?
    || pfx.family == AF_UNSPEC
    || pfx.bitlen <= 0
    || (&& ((|local.value| == 4 && pfx.family == AF_INET) || (|local.value| == 16 && pfx.family == AF_INET6))
        && pfx.bitlen <= 8 * |local.value| && pfx.bitlen <= 8 * |pfx.data|
        && Agree(local.value, pfx.data, pfx.bitlen))
  }

  /** inetPrefixMatch: whole bytes, then the masked rest. */
  method PrefixMatch(pfx: InetPrefix, local: Option<Octets>) returns (inside: bool)
    ensures inside <==> InPrefix(pfx, local)
  {
    if local.None? || pfx.family == AF_UNSPEC || pfx.bitlen <= 0 {
      return true;
    }
    var addr := local.value;
    var family;
    if |addr| == 4 {
      family := AF_INET;
    } else if |addr| == 16 {
      family := AF_INET6;
    } else {
      return false;
    }
    if family != pfx.family || pfx.bitlen > 8 * |addr| || pfx.bitlen > 8 * |pfx.data| {
      return false;
    }
    var whole, rest := pfx.bitlen / 8, pfx.bitlen % 8;
    WholeBytesAgree(addr, pfx.data, whole);
    if rest != 0 {
      RestAgrees(addr, pfx.data, whole, rest);
    }
    var i := 0;
    while i < whole
      invariant 0 <= i <= whole
      invariant forall j :: 0 <= j < i ==> addr[j] == pfx.data[j]
    {
      if addr[i] != pfx.data[i] {
        return false;
      }
      i := i + 1;
    }
    if rest != 0 {
      var mask: bv8 := 0xff << (8 - rest);
      if (addr[whole] ^ pfx.data[whole]) & mask != 0 {
        return false;
      }
    }
    inside := true;
  }

  // --------------------------------------------------------- the computed broadcast

  /** The address with every bit from `bitlen` on set, or cleared. */
  ghost predicate IsFilled(addr: Octets, peer: Octets, bitlen: nat, ones: bool) {
    && |addr| == |peer| == 4 && bitlen <= 32
    && forall i :: 0 <= i < 32 ==> (Bit(addr, i) <==> if i < bitlen then Bit(peer, i) else ones)
  }

  lemma SetBit(b: bv8, k: nat, j: nat)
    requires k < 8 && j < 8
    ensures ByteBit(b | BitMask(k), j) <==> (j == k || ByteBit(b, j))
  {
  }

  lemma ClearBit(b: bv8, k: nat, j: nat)
    requires k < 8 && j < 8
    ensures ByteBit(b & !BitMask(k), j) <==> (j != k && ByteBit(b, j))
  {
  }

  function ShiftedBit(k: nat): (bit: bv8)
    requires k < 8
    ensures bit == BitMask(k)
  {
    0x80 >> k
  }

  /**
   The loop of computedBroadcast: flip the host bits of the peer, from the last
   bit down to the prefix length. Zero bytes of peer give zero bytes.
   */
  method FillHostBits(peer: Octets, bitlen: nat, plus: bool) returns (brd: Octets)
    requires |peer| == 0 || |peer| == 4
    requires bitlen <= 30
    ensures |brd| == |peer|
    ensures |peer| == 4 ==> IsFilled(brd, peer, bitlen, plus)
  {
    if |peer| == 0 {
      return [];
    }
    var b := new bv8[4](i requires 0 <= i < 4 => peer[i]);
    assert b[..] == peer;
    var i := 31;
    while i >= bitlen
      invariant bitlen - 1 <= i <= 31
      invariant FilledAfter(b[..], peer, i, plus)
    {
      ghost var before := b[..];
      var bit := ShiftedBit(i % 8);
      if plus {
        b[i / 8] := b[i / 8] | bit;
      } else {
        b[i / 8] := b[i / 8] & !bit;
      }
      FlipStep(peer, before, b[..], i, plus);
      i := i - 1;
    }
    brd := b[..];
  }

  /** Bits above `i` are filled, the others still the peer's. */
  ghost predicate FilledAfter(addr: Octets, peer: Octets, i: int, plus: bool) {
    && |addr| == |peer| == 4
    && forall j :: 0 <= j < 32 ==> (Bit(addr, j) <==> if j <= i then Bit(peer, j) else plus)
  }

  lemma FlipStep(peer: Octets, before: Octets, after: Octets, i: nat, plus: bool)
    requires |before| == |after| == 4 && i < 32
    requires forall k :: 0 <= k < 4 && k != i / 8 ==> after[k] == before[k]
    requires after[i / 8] == if plus then before[i / 8] | BitMask(i % 8) else before[i / 8] & !BitMask(i % 8)
    requires FilledAfter(before, peer, i, plus)
    ensures FilledAfter(after, peer, i - 1, plus)
  {
    forall j | 0 <= j < 32 ensures Bit(after, j) <==> if j <= i - 1 then Bit(peer, j) else plus {
      FlipOne(before, after, i, j, plus);
      assert Bit(before, j) <==> if j <= i then Bit(peer, j) else plus;
    }
  }

  lemma FlipOne(before: Octets, after: Octets, i: nat, j: nat, plus: bool)
    requires |before| == |after| == 4 && i < 32 && j < 32
    requires forall k :: 0 <= k < 4 && k != i / 8 ==> after[k] == before[k]
    requires after[i / 8] == if plus then before[i / 8] | BitMask(i % 8) else before[i / 8] & !BitMask(i % 8)
    ensures Bit(after, j) <==> if j == i then plus else Bit(before, j)
  {
    if i / 8 != j / 8 {
      assert after[j / 8] == before[j / 8];
    } else if plus {
      SetBit(before[i / 8], i % 8, j % 8);
    } else {
      ClearBit(before[i / 8], i % 8, j % 8);
    }
  }

  /** The number an address is, most significant bit first. */
  function Value(a: Octets, n: nat): nat
    requires n <= 8 * |a|
  {
    if n == 0 then 0 else 2 * Value(a, n - 1) + (if Bit(a, n - 1) then 1 else 0)
  }

  lemma {:induction false} BitwiseOrder(a: Octets, b: Octets, n: nat)
    requires |a| == |b| && n <= 8 * |a|
    requires forall i :: 0 <= i < n ==> Bit(a, i) ==> Bit(b, i)
    ensures Value(a, n) <= Value(b, n)
    decreases n
  {
    if n > 0 {
      BitwiseOrder(a, b, n - 1);
    }
  }

  /** `brd +` and `brd -` are the greatest and the least address of the peer's
      prefix, and both are in it. */
  lemma BroadcastIsExtremal(peer: Octets, bitlen: nat, plus: Octets, minus: Octets, addr: Octets)
    requires |peer| == |addr| == 4 && bitlen <= 30
    requires IsFilled(plus, peer, bitlen, true) && IsFilled(minus, peer, bitlen, false)
    ensures InPrefix(InetPrefix(AF_INET, peer, bitlen), Some(plus))
    ensures InPrefix(InetPrefix(AF_INET, peer, bitlen), Some(minus))
    ensures InPrefix(InetPrefix(AF_INET, peer, bitlen), Some(addr))
       ==> Value(minus, 32) <= Value(addr, 32) <= Value(plus, 32)
  {
    if InPrefix(InetPrefix(AF_INET, peer, bitlen), Some(addr)) {
      assert forall i :: 0 <= i < bitlen ==> (Bit(addr, i) <==> Bit(peer, i));
      BitwiseOrder(minus, addr, 32);
      BitwiseOrder(addr, plus, 32);
    }
  }

  /** Different addresses have different numbers, so each extreme is unique. */
  lemma {:induction false} ValueIsInjective(a: Octets, b: Octets, n: nat)
    requires |a| == |b| && n <= 8 * |a|
    ensures Value(a, n) == Value(b, n) <==> Agree(a, b, n)
    decreases n
  {
    if n > 0 {
      ValueIsInjective(a, b, n - 1);
    }
  }
}
