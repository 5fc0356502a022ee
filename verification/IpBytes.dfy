/** IPv4 addresses as bytes and as 32-bit words: Go's net.IP, and the words a generated bpftrace
    script compares (shell/tracescript.go). */
module IpBytes {
  import opened GoStrings
  import opened Powers

  type Bytes = seq<bv8>

  predicate IsV4(b: Bytes) { |b| == 4 }

  /** net.IP.To4: the 4-byte form of an address, also of one mapped into IPv6. */
  function To4(ip: Bytes): (r: Option<Bytes>)
    ensures r.Some? ==> IsV4(r.value)
  {
    if |ip| == 4 then Some(ip)
    else if |ip| == 16 && (forall i | 0 <= i < 10 :: ip[i] == 0) && ip[10] == 0xff && ip[11] == 0xff then
      Some(ip[12..])
    else None
  }

  /** The 16-byte form net.ParseIP returns for an IPv4 address. */
  function Mapped(a: Bytes): Bytes
    requires IsV4(a)
  {
    [0, 0, 0, 0, 0, 0, 0, 0, 0, 0, 0xff, 0xff] + a
  }

  /** To4 undoes that form, leaves 4 bytes alone, and refuses everything else. */
  lemma To4Exactly(ip: Bytes, a: Bytes)
    requires IsV4(a)
    ensures To4(ip) == Some(a) <==> ip == a || ip == Mapped(a)
  {
    if |ip| == 16 && To4(ip) == Some(a) {
      assert ip[12..] == a;
      assert ip == ip[..12] + ip[12..];
      assert ip[..12] == [0, 0, 0, 0, 0, 0, 0, 0, 0, 0, 0xff, 0xff];
    }
    if ip == Mapped(a) {
      assert ip[12..] == a;
    }
  }

  function Pack(b0: bv8, b1: bv8, b2: bv8, b3: bv8): bv32
  {
    ((b0 as bv32) << 24) | ((b1 as bv32) << 16) | ((b2 as bv32) << 8) | (b3 as bv32)
  }

  /** binary.BigEndian.Uint32. */
  function BigEndian(b: Bytes): bv32
    requires IsV4(b)
  {
    Pack(b[0], b[1], b[2], b[3])
  }

  /** How a little-endian machine loads four bytes of a packet header. */
  function LittleEndian(b: Bytes): bv32
    requires IsV4(b)
  {
    Pack(b[3], b[2], b[1], b[0])
  }

  function BSwap(x: bv32): bv32
  {
    ((x & 0xff) << 24) | ((x & 0xff00) << 8) | ((x >> 8) & 0xff00) | (x >> 24)
  }

  /** ipToHex. */
  function IpToHex(ip: Bytes): bv32
  {
    var v4 := To4(ip);
    if v4.None? then 0 else BigEndian(v4.value)
  }

  function AndByte(b: bv8, mask: bv8): bv8 { b & mask }

  function MaskBytes(b: Bytes, mask: Bytes): Bytes
    requires IsV4(b) && IsV4(mask)
  {
    [AndByte(b[0], mask[0]), AndByte(b[1], mask[1]), AndByte(b[2], mask[2]), AndByte(b[3], mask[3])]
  }

  // ----- words against bytes -----

  lemma PackInjective(a0: bv8, a1: bv8, a2: bv8, a3: bv8, b0: bv8, b1: bv8, b2: bv8, b3: bv8)
    ensures Pack(a0, a1, a2, a3) == Pack(b0, b1, b2, b3) <==> a0 == b0 && a1 == b1 && a2 == b2 && a3 == b3
  {
  }

  lemma PackMask(a0: bv8, a1: bv8, a2: bv8, a3: bv8, m0: bv8, m1: bv8, m2: bv8, m3: bv8, k: bv32)
    ensures MaskTest(Pack(a0, a1, a2, a3), Pack(m0, m1, m2, m3), k) <==>
            Pack(AndByte(a0, m0), AndByte(a1, m1), AndByte(a2, m2), AndByte(a3, m3)) == k
  {
  }

  lemma SwapPack(b0: bv8, b1: bv8, b2: bv8, b3: bv8)
    ensures BSwap(Pack(b3, b2, b1, b0)) == Pack(b0, b1, b2, b3)
  {
  }

  /** Swapping the loaded word gives the address in network order. */
  lemma SwapLoad(b: Bytes)
    requires IsV4(b)
    ensures BSwap(LittleEndian(b)) == BigEndian(b)
  {
    SwapPack(b[0], b[1], b[2], b[3]);
  }

  lemma WordsEqual(a: Bytes, b: Bytes)
    requires IsV4(a) && IsV4(b)
    ensures BigEndian(a) == BigEndian(b) <==> a == b
  {
    PackInjective(a[0], a[1], a[2], a[3], b[0], b[1], b[2], b[3]);
  }

  lemma MaskedWord(a: Bytes, mask: Bytes, k: bv32)
    requires IsV4(a) && IsV4(mask)
    ensures MaskTest(BigEndian(a), BigEndian(mask), k) <==> BigEndian(MaskBytes(a, mask)) == k
  {
    hide Pack, MaskTest, AndByte;
    PackMask(a[0], a[1], a[2], a[3], mask[0], mask[1], mask[2], mask[3], k);
  }

  predicate MaskTest(x: bv32, mask: bv32, k: bv32) { x & mask == k }

  predicate WordPasses(a: Bytes, mask: bv32, net: bv32)
    requires IsV4(a)
  {
    MaskTest(BigEndian(a), mask, net)
  }

  /** Masking the word is masking every byte. */
  lemma WordsMasked(a: Bytes, mask: Bytes, net: Bytes)
    requires IsV4(a) && IsV4(mask) && IsV4(net)
    ensures WordPasses(a, BigEndian(mask), BigEndian(net)) <==> MaskBytes(a, mask) == net
  {
    hide BigEndian, MaskTest;
    MaskedWord(a, mask, BigEndian(net));
    WordsEqual(MaskBytes(a, mask), net);
  }

  // ----- prefixes -----

  /** The leading ones of one mask byte. */
  function PrefixByte(ones: int): bv8
  {
    if ones >= 8 then 0xff
    else if ones <= 0 then 0
    else if ones == 1 then 0x80
    else if ones == 2 then 0xc0
    else if ones == 3 then 0xe0
    else if ones == 4 then 0xf0
    else if ones == 5 then 0xf8
    else if ones == 6 then 0xfc
    else 0xfe
  }

  /** net.CIDRMask(len, 32). */
  function PrefixMask(len: nat): (mask: Bytes)
    requires len <= 32
    ensures IsV4(mask)
  {
    [PrefixByte(len), PrefixByte(len - 8), PrefixByte(len - 16), PrefixByte(len - 24)]
  }

  function Val(b: bv8): (v: nat)
    ensures v < 256
  {
    b as int
  }

  function Weigh(b0: int, b1: int, b2: int, b3: int): int { 0x100_0000 * b0 + 0x1_0000 * b1 + 0x100 * b2 + b3 }

  /** The number an address stands for. */
  function Number(b: Bytes): int
    requires IsV4(b)
  {
    Weigh(Val(b[0]), Val(b[1]), Val(b[2]), Val(b[3]))
  }

  predicate Passes(a: bv8, mask: bv8, n: bv8) { AndByte(a, mask) == n }

  /** Ones, then zeros. */
  predicate Contiguous(mask: bv8) { !mask & (!mask + 1) == 0 }

  lemma MaskedIsWithin(a: bv8, n: bv8, mask: bv8)
    requires Contiguous(mask) && Passes(n, mask, n) && Passes(a, mask, n)
    ensures Val(n) <= Val(a) <= Val(n) + Val(!mask)
  {
  }

  lemma WithinIsMasked(a: bv8, n: bv8, mask: bv8)
    requires Contiguous(mask) && Passes(n, mask, n) && Val(n) <= Val(a) <= Val(n) + Val(!mask)
    ensures Passes(a, mask, n)
  {
  }

  lemma MaskedFits(n: bv8, mask: bv8)
    requires Passes(n, mask, n)
    ensures Val(n) + Val(!mask) < 256
  {
  }

  /** A contiguous mask selects an interval of bytes. */
  lemma ByteMask(a: bv8, n: bv8, mask: bv8)
    requires Contiguous(mask) && Passes(n, mask, n)
    ensures Passes(a, mask, n) <==> Val(n) <= Val(a) <= Val(n) + Val(!mask)
    ensures Val(n) + Val(!mask) < 256
  {
    hide Contiguous, Passes, Val;
    MaskedFits(n, mask);
    if Passes(a, mask, n) { MaskedIsWithin(a, n, mask); }
    if Val(n) <= Val(a) <= Val(n) + Val(!mask) { WithinIsMasked(a, n, mask); }
  }

  lemma PrefixByteSize(ones: nat)
    requires ones <= 8
    ensures Contiguous(PrefixByte(ones)) && Val(!PrefixByte(ones)) == Pow2(8 - ones) - 1
  {
    Pow2Small();
  }

  lemma ByteInterval(a: bv8, n: bv8, ones: nat)
    requires ones <= 8 && Passes(n, PrefixByte(ones), n)
    ensures Passes(a, PrefixByte(ones), n) <==> Val(n) <= Val(a) < Val(n) + Pow2(8 - ones)
    ensures Val(n) + Pow2(8 - ones) <= 256
  {
    hide PrefixByte, Pow2, Val, Passes, Contiguous;
    PrefixByteSize(ones);
    ByteMask(a, n, PrefixByte(ones));
  }

  lemma Pow2Small()
    ensures Pow2(0) == 1 && Pow2(1) == 2 && Pow2(2) == 4 && Pow2(3) == 8 && Pow2(4) == 16
    ensures Pow2(5) == 32 && Pow2(6) == 64 && Pow2(7) == 128 && Pow2(8) == 256
  {
  }

  lemma ByteEnds(a: bv8, n: bv8)
    ensures Passes(a, 0xff, n) <==> Val(a) == Val(n)
    ensures Passes(a, 0, n) <==> Val(n) == 0
  {
  }

  lemma PrefixMaskAt(len: nat, i: nat)
    requires len <= 32 && i < 4
    ensures PrefixMask(len)[i] == PrefixByte(len - 8 * i)
  {
    hide PrefixByte;
  }

  lemma PrefixMaskBytes(len: nat, q: nat, i: nat)
    requires q < 4 && 8 * q <= len <= 8 * q + 8 && i < 4
    ensures i < q ==> PrefixMask(len)[i] == 0xff
    ensures i == q ==> PrefixMask(len)[i] == PrefixByte(len - 8 * q)
    ensures i > q ==> PrefixMask(len)[i] == 0
  {
    hide PrefixMask;
    PrefixMaskAt(len, i);
  }

  lemma MaskedAt(a: Bytes, mask: Bytes, net: Bytes)
    requires IsV4(a) && IsV4(mask) && IsV4(net)
    ensures MaskBytes(a, mask) == net <==>
            Passes(a[0], mask[0], net[0]) && Passes(a[1], mask[1], net[1]) &&
            Passes(a[2], mask[2], net[2]) && Passes(a[3], mask[3], net[3])
  {
    hide AndByte;
  }

  /** Byte `i` of the test: equality before byte `q`, nothing after it. */
  lemma ByteTest(a: bv8, n: bv8, len: nat, q: nat, i: nat)
    requires q < 4 && 8 * q <= len <= 8 * q + 8 && i < 4 && Passes(n, PrefixMask(len)[i], n)
    ensures i < q ==> (Passes(a, PrefixMask(len)[i], n) <==> Val(a) == Val(n))
    ensures i == q ==> PrefixMask(len)[i] == PrefixByte(len - 8 * q)
    ensures i > q ==> Val(n) == 0 && Passes(a, PrefixMask(len)[i], n)
  {
    hide PrefixMask, PrefixByte, Val, Passes;
    PrefixMaskBytes(len, q, i);
    ByteEnds(a, n);
    ByteEnds(n, n);
  }

  predicate SameBefore(a: Bytes, b: Bytes, q: nat)
    requires IsV4(a) && IsV4(b)
  {
    (q > 0 ==> Val(a[0]) == Val(b[0])) && (q > 1 ==> Val(a[1]) == Val(b[1])) &&
    (q > 2 ==> Val(a[2]) == Val(b[2]))
  }

  /** Whole bytes before byte `q` must be equal, those after it are free. */
  lemma BytesMasked(a: Bytes, net: Bytes, len: nat, q: nat)
    requires IsV4(a) && IsV4(net) && q < 4 && 8 * q <= len <= 8 * q + 8
    requires MaskBytes(net, PrefixMask(len)) == net
    ensures Passes(net[q], PrefixByte(len - 8 * q), net[q])
    ensures (q < 1 ==> Val(net[1]) == 0) && (q < 2 ==> Val(net[2]) == 0) && (q < 3 ==> Val(net[3]) == 0)
    ensures MaskBytes(a, PrefixMask(len)) == net <==>
            SameBefore(a, net, q) && Passes(a[q], PrefixByte(len - 8 * q), net[q])
  {
    hide MaskBytes, PrefixMask, PrefixByte, Val, Passes;
    var mask := PrefixMask(len);
    MaskedAt(net, mask, net);
    MaskedAt(a, mask, net);
    ByteTest(a[0], net[0], len, q, 0);
    ByteTest(a[1], net[1], len, q, 1);
    ByteTest(a[2], net[2], len, q, 2);
    ByteTest(a[3], net[3], len, q, 3);
  }

  function Weight(q: nat): nat
  {
    if q == 0 then 0x100_0000 else if q == 1 then 0x1_0000 else if q == 2 then 0x100 else 1
  }

  /** An interval inside the 256 values of one byte, below the whole bytes `h` and `k`. */
  lemma HeadInterval(h: int, a: int, k: int, n: int, width: nat)
    requires 0 <= a < 256 && 0 <= n && n + width <= 256
    ensures h == k && n <= a < n + width <==> 256 * k + n <= 256 * h + a < 256 * k + n + width
  {
  }

  predicate Between(low: int, x: int, width: int) { low <= x < low + width }

  lemma Tail0(x: int, low: int, width: int, r: nat)
    requires r < 0x100_0000
    ensures Between(low, x, width) <==> Between(0x100_0000 * low, 0x100_0000 * x + r, width * 0x100_0000)
  {
  }

  lemma Tail1(x: int, low: int, width: int, r: nat)
    requires r < 0x1_0000
    ensures Between(low, x, width) <==> Between(0x1_0000 * low, 0x1_0000 * x + r, width * 0x1_0000)
  {
  }

  lemma Tail2(x: int, low: int, width: int, r: nat)
    requires r < 0x100
    ensures Between(low, x, width) <==> Between(0x100 * low, 0x100 * x + r, width * 0x100)
  {
  }

  lemma Interval0(a0: nat, a1: nat, a2: nat, a3: nat, n0: nat, width: nat)
    requires a1 < 256 && a2 < 256 && a3 < 256
    ensures Between(n0, a0, width) <==> Between(Weigh(n0, 0, 0, 0), Weigh(a0, a1, a2, a3), width * 0x100_0000)
  {
    Tail0(a0, n0, width, 0x1_0000 * a1 + 0x100 * a2 + a3);
  }

  lemma Interval1(a0: nat, a1: nat, a2: nat, a3: nat, n0: nat, n1: nat, width: nat)
    requires a1 < 256 && a2 < 256 && a3 < 256 && n1 + width <= 256
    ensures a0 == n0 && Between(n1, a1, width) <==>
            Between(Weigh(n0, n1, 0, 0), Weigh(a0, a1, a2, a3), width * 0x1_0000)
  {
    HeadInterval(a0, a1, n0, n1, width);
    Tail1(256 * a0 + a1, 256 * n0 + n1, width, 0x100 * a2 + a3);
  }

  lemma Interval2(a0: nat, a1: nat, a2: nat, a3: nat, n0: nat, n1: nat, n2: nat, width: nat)
    requires a1 < 256 && a2 < 256 && a3 < 256 && n1 < 256 && n2 + width <= 256
    ensures a0 == n0 && a1 == n1 && Between(n2, a2, width) <==>
            Between(Weigh(n0, n1, n2, 0), Weigh(a0, a1, a2, a3), width * 0x100)
  {
    HeadInterval(256 * a0 + a1, a2, 256 * n0 + n1, n2, width);
    Tail2(0x1_0000 * a0 + 256 * a1 + a2, 0x1_0000 * n0 + 256 * n1 + n2, width, a3);
  }

  lemma Interval3(a0: nat, a1: nat, a2: nat, a3: nat, n0: nat, n1: nat, n2: nat, n3: nat, width: nat)
    requires a1 < 256 && a2 < 256 && a3 < 256 && n1 < 256 && n2 < 256 && n3 + width <= 256
    ensures a0 == n0 && a1 == n1 && a2 == n2 && Between(n3, a3, width) <==>
            Between(Weigh(n0, n1, n2, n3), Weigh(a0, a1, a2, a3), width)
  {
    HeadInterval(0x1_0000 * a0 + 256 * a1 + a2, a3, 0x1_0000 * n0 + 256 * n1 + n2, n3, width);
  }

  /** Equal bytes before byte `q`, an interval at byte `q`, anything after it: an interval. */
  lemma IntervalByBytes(a: Bytes, net: Bytes, q: nat, width: nat)
    requires IsV4(a) && IsV4(net) && q < 4 && Val(net[q]) + width <= 256
    requires (q < 1 ==> Val(net[1]) == 0) && (q < 2 ==> Val(net[2]) == 0) && (q < 3 ==> Val(net[3]) == 0)
    ensures SameBefore(a, net, q) && Between(Val(net[q]), Val(a[q]), width) <==>
            Between(Number(net), Number(a), width * Weight(q))
  {
    hide Val, Weigh, Between;
    var a0, a1, a2, a3 := Val(a[0]), Val(a[1]), Val(a[2]), Val(a[3]);
    var n0, n1, n2, n3 := Val(net[0]), Val(net[1]), Val(net[2]), Val(net[3]);
    if q == 0 {
      Interval0(a0, a1, a2, a3, n0, width);
    } else if q == 1 {
      Interval1(a0, a1, a2, a3, n0, n1, width);
    } else if q == 2 {
      Interval2(a0, a1, a2, a3, n0, n1, n2, width);
    } else {
      Interval3(a0, a1, a2, a3, n0, n1, n2, n3, width);
    }
  }

  lemma PrefixAt(a: Bytes, net: Bytes, len: nat, q: nat)
    requires IsV4(a) && IsV4(net) && q < 4 && 8 * q <= len <= 8 * q + 8
    requires MaskBytes(net, PrefixMask(len)) == net
    ensures MaskBytes(a, PrefixMask(len)) == net <==>
            Between(Number(net), Number(a), Pow2(32 - len))
  {
    hide MaskBytes, PrefixMask, PrefixByte, Pow2, Weight, Number, Val, Passes, SameBefore;
    var ones := len - 8 * q;
    BytesMasked(a, net, len, q);
    ByteInterval(a[q], net[q], ones);
    BlockWidth(ones, q);
    IntervalByBytes(a, net, q, Pow2(8 - ones));
  }

  /** The mask test of a prefix holds exactly on the addresses of its block,
      [net, net + 2^(32 - len)), as in section 3.1 of RFC 4632. */
  lemma PrefixIsInterval(a: Bytes, net: Bytes, len: nat)
    requires IsV4(a) && IsV4(net) && len <= 32 && MaskBytes(net, PrefixMask(len)) == net
    ensures MaskBytes(a, PrefixMask(len)) == net <==>
            Number(net) <= Number(a) < Number(net) + Pow2(32 - len)
  {
    hide MaskBytes, PrefixMask, Pow2, Number;
    PrefixAt(a, net, len, if len <= 8 then 0 else if len <= 16 then 1 else if len <= 24 then 2 else 3);
  }

  lemma BlockWidth(ones: nat, q: nat)
    requires ones <= 8 && q < 4
    ensures Pow2(8 - ones) > 0 && Pow2(32 - (8 * q + ones)) == Pow2(8 - ones) * Weight(q)
  {
    Pow2Add(8 - ones, 24 - 8 * q);
    Pow2Small();
    Pow2Add(8, 8);
    Pow2Add(8, 16);
  }
}
