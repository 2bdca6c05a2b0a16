/**
 The byte-wise IPv4 arithmetic of util/ippool.go: an address is four bytes and a mask is
 four bytes, combined with bitwise AND, OR and NOT. Everything is proved against plain
 integer arithmetic on 32-bit addresses (section 3.1 of RFC 4632).
 */
module Ipv4 {

  const MAX_PREFIX: nat := 32
  const BITS: nat := 8

  type Byte = b: nat | b < 256

  type IPBytes = s: seq<Byte> | |s| == 4 witness [0, 0, 0, 0]

  type Prefix = p: nat | p <= MAX_PREFIX

  /** An IPv4 subnet as net.ParseCIDR returns it: four address bytes and a prefix length. */
  datatype IPNet = IPNet(ip: IPBytes, prefix: Prefix)

  // ---------------------------------------------------------------- integers

  function Pow2(n: nat): (r: nat)
    ensures r >= 1
  {
    if n == 0 then 1 else 2 * Pow2(n - 1)
  }

  /** The number of addresses in a subnet of the given prefix length. */
  function BlockSize(p: Prefix): nat {
    Pow2(MAX_PREFIX - p)
  }

  function Value(b0: nat, b1: nat, b2: nat, b3: nat): nat {
    b0 * 16777216 + b1 * 65536 + b2 * 256 + b3
  }

  function ToInt(b: IPBytes): nat {
    Value(b[0], b[1], b[2], b[3])
  }

  function RoundDown(a: nat, size: nat): int
    requires size > 0
  {
    a / size * size
  }

  /** The lowest address of the block that holds `a`. */
  function NetworkOf(a: nat, p: Prefix): int {
    RoundDown(a, BlockSize(p))
  }

  // ---------------------------------------------------------------- bitwise operators

  /** Bitwise AND of the low `n` bits. */
  function And(a: nat, b: nat, n: nat): nat {
    if n == 0 then 0 else 2 * And(a / 2, b / 2, n - 1) + (if a % 2 == 1 && b % 2 == 1 then 1 else 0)
  }

  /** Bitwise OR of the low `n` bits. */
  function Or(a: nat, b: nat, n: nat): nat {
    if n == 0 then 0 else 2 * Or(a / 2, b / 2, n - 1) + (if a % 2 == 1 || b % 2 == 1 then 1 else 0)
  }

  lemma {:induction false} BitsBound(a: nat, b: nat, n: nat)
    ensures And(a, b, n) < Pow2(n) && Or(a, b, n) < Pow2(n)
  {
    if n > 0 {
      BitsBound(a / 2, b / 2, n - 1);
    }
  }

  /** Bitwise NOT of a byte. */
  function Not(b: Byte): Byte {
    255 - b
  }

  lemma Pow2Small()
    ensures Pow2(0) == 1 && Pow2(1) == 2 && Pow2(2) == 4 && Pow2(3) == 8 && Pow2(4) == 16
    ensures Pow2(5) == 32 && Pow2(6) == 64 && Pow2(7) == 128 && Pow2(8) == 256
  {
    assert Pow2(4) == 16;
    assert Pow2(6) == 64;
  }

  /** Doubling a number rounded down to half the block. */
  lemma RoundHalf(a: nat, half: nat)
    requires half > 0
    ensures RoundDown(a, 2 * half) == 2 * RoundDown(a / 2, half)
  {
    DivDiv(a, 2, half);
    assert a / (2 * half) * (2 * half) == 2 * (a / 2 / half * half);
  }

  lemma {:induction false} AndOnes(a: nat, n: nat)
    requires a < Pow2(n)
    ensures And(a, Pow2(n) - 1, n) == a
  {
    if n > 0 {
      assert (Pow2(n) - 1) / 2 == Pow2(n - 1) - 1;
      AndOnes(a / 2, n - 1);
    }
  }

  lemma {:induction false} OrZero(a: nat, n: nat)
    requires a < Pow2(n)
    ensures Or(a, 0, n) == a
  {
    if n > 0 {
      OrZero(a / 2, n - 1);
    }
  }

  lemma AndEven(a: nat, b: nat, n: nat)
    requires n > 0
    ensures And(a, 2 * b, n) == 2 * And(a / 2, b, n - 1)
  {
    var m := 2 * b;
    assert m / 2 == b && m % 2 == 0;
  }

  lemma OrOdd(a: nat, b: nat, n: nat)
    requires n > 0
    ensures Or(a, 2 * b + 1, n) == 2 * Or(a / 2, b, n - 1) + 1
  {
    var m := 2 * b + 1;
    assert m / 2 == b && m % 2 == 1;
  }

  lemma OrStep(a: nat, half: nat, size: nat, n: nat)
    requires n > 0 && half > 0 && size == 2 * half
    requires Or(a / 2, half - 1, n - 1) == RoundDown(a / 2, half) + half - 1
    ensures Or(a, size - 1, n) == RoundDown(a, size) + size - 1
  {
    OrOdd(a, half - 1, n);
    RoundHalf(a, half);
  }

  /** AND with a mask of leading ones rounds down to the block the zeros span. */
  lemma {:induction false} AndMask(a: nat, n: nat, zeros: nat)
    requires a < Pow2(n) && zeros <= n
    ensures Pow2(n) >= Pow2(zeros)
    ensures And(a, Pow2(n) - Pow2(zeros), n) == RoundDown(a, Pow2(zeros))
  {
    if zeros == 0 {
      AndOnes(a, n);
    } else {
      var half := Pow2(zeros - 1);
      AndMask(a / 2, n - 1, zeros - 1);
      AndEven(a, Pow2(n - 1) - half, n);
      RoundHalf(a, half);
    }
  }

  /** OR with the inverted mask goes to the end of that block. */
  lemma {:induction false} OrInverted(a: nat, n: nat, zeros: nat)
    requires a < Pow2(n) && zeros <= n
    ensures Or(a, Pow2(zeros) - 1, n) == RoundDown(a, Pow2(zeros)) + Pow2(zeros) - 1
  {
    if zeros == 0 {
      OrZero(a, n);
    } else {
      OrInverted(a / 2, n - 1, zeros - 1);
      OrStep(a, Pow2(zeros - 1), Pow2(zeros), n);
    }
  }

  // ---------------------------------------------------------------- masks

  /** How many of the prefix bits fall into byte `i`. */
  function BitsIn(p: Prefix, i: nat): (k: nat)
    requires i < 4
    ensures k <= BITS
  {
    if p >= 8 * i + 8 then BITS else if p <= 8 * i then 0 else p - 8 * i
  }

  /** How many addresses of a block differ in byte `i`. */
  function SizeIn(p: Prefix, i: nat): (s: nat)
    requires i < 4
    ensures s >= 1
  {
    Pow2(BITS - BitsIn(p, i))
  }

  lemma SizeBound(p: Prefix, i: nat)
    requires i < 4
    ensures SizeIn(p, i) <= 256
  {
    Pow2Small();
  }

  /** net.CIDRMask: as many leading ones as prefix bits fall into the byte. */
  function MaskAt(p: Prefix, i: nat): Byte
    requires i < 4
  {
    SizeBound(p, i);
    256 - SizeIn(p, i)
  }

  lemma MaskByte(b: Byte, p: Prefix, i: nat)
    requires i < 4
    ensures And(b, MaskAt(p, i), BITS) == RoundDown(b, SizeIn(p, i))
    ensures Or(b, Not(MaskAt(p, i)), BITS) == RoundDown(b, SizeIn(p, i)) + SizeIn(p, i) - 1
  {
    var zeros := BITS - BitsIn(p, i);
    MaskAnyByte(b, BITS, zeros);
    assert MaskAt(p, i) == 256 - Pow2(zeros);
  }

  lemma MaskAnyByte(b: nat, n: nat, zeros: nat)
    requires n == BITS && b < 256 && zeros <= n
    ensures Pow2(zeros) <= 256
    ensures And(b, 256 - Pow2(zeros), n) == RoundDown(b, Pow2(zeros))
    ensures Or(b, 255 - (256 - Pow2(zeros)), n) == RoundDown(b, Pow2(zeros)) + Pow2(zeros) - 1
  {
    assert Pow2(n) == 256 by {
      Pow2Small();
    }
    AndMask(b, n, zeros);
    OrInverted(b, n, zeros);
  }

  function AndByte(a: Byte, b: Byte): Byte {
    Pow2Small();
    BitsBound(a, b, BITS);
    And(a, b, BITS)
  }

  function OrByte(a: Byte, b: Byte): Byte {
    Pow2Small();
    BitsBound(a, b, BITS);
    Or(a, b, BITS)
  }

  /** IP.Mask: the bitwise AND of every byte with its mask byte. */
  function Masked(b: IPBytes, p: Prefix): IPBytes {
    [AndByte(b[0], MaskAt(p, 0)), AndByte(b[1], MaskAt(p, 1)), AndByte(b[2], MaskAt(p, 2)), AndByte(b[3], MaskAt(p, 3))]
  }

  /** IPNet.Contains: the two addresses agree on every masked byte. */
  predicate ContainsBytes(n: IPNet, ip: IPBytes) {
    forall i :: 0 <= i < 4 ==> AndByte(n.ip[i], MaskAt(n.prefix, i)) == AndByte(ip[i], MaskAt(n.prefix, i))
  }

  /** A subnet in the form net.ParseCIDR leaves it: host bits cleared. */
  predicate Canonical(n: IPNet) {
    Masked(n.ip, n.prefix) == n.ip
  }

  // ---------------------------------------------------------------- division

  lemma Pow2Add(m: nat, n: nat)
    ensures Pow2(m + n) == Pow2(m) * Pow2(n)
  {
    if m == 0 {
    } else {
      Pow2Add(m - 1, n);
      assert Pow2(m + n) == 2 * (Pow2(m - 1) * Pow2(n));
    }
  }

  lemma MulMono(a: nat, b: nat, c: nat)
    requires a <= b
    ensures c * a <= c * b
  {}

  lemma DivUnique(v: nat, d: nat, q: nat, r: nat)
    requires v == d * q + r && r < d
    ensures v / d == q
  {
    var k := v / d;
    assert v == d * k + v % d;
    if k > q {
      MulMono(q + 1, k, d);
    } else if k < q {
      MulMono(k + 1, q, d);
    }
  }

  lemma Distribute(c: nat, d: nat, q: nat, r: nat)
    ensures c * (d * q + r) == c * d * q + c * r
  {}

  lemma DigitBound(c: nat, d: nat, r: nat, s: nat)
    requires s < c && r < d
    ensures c * r + s < c * d
  {
    MulMono(r + 1, d, c);
    assert c * (r + 1) == c * r + c;
  }

  lemma Nested(c: nat, d: nat, q: nat, r: nat, s: nat, e: nat)
    requires e == c * d
    ensures c * (d * q + r) + s == e * q + (c * r + s)
  {
    Distribute(c, d, q, r);
  }

  lemma DivDiv(v: nat, c: nat, d: nat)
    requires c > 0 && d > 0
    ensures c * d > 0 && v / (c * d) == v / c / d
  {
    var u, s := v / c, v % c;
    var q, r := u / d, u % d;
    Rebuilt(v, c);
    Rebuilt(u, d);
    assert v == c * (d * q + r) + s;
    DivDivIs(v, c, d, c * d, q, r, s);
  }

  lemma Rebuilt(v: nat, c: nat)
    requires c > 0
    ensures v == c * (v / c) + v % c && 0 <= v / c && 0 <= v % c < c
  {}

  lemma DivDivIs(v: nat, c: nat, d: nat, e: nat, q: nat, r: nat, s: nat)
    requires e == c * d && s < c && r < d && v == c * (d * q + r) + s
    ensures e > 0 && v / e == q
  {
    Nested(c, d, q, r, s, e);
    DigitBound(c, d, r, s);
    DivUnique(v, e, q, c * r + s);
  }

  lemma RoundByte(high: nat, b: nat, size: nat, count: nat)
    requires size * count == 256 && size > 0
    ensures (high * 256 + b) / size * size == high * 256 + b / size * size
  {
    var d, e := b / size, b % size;
    assert high * 256 == size * (high * count) by {
      assert high * (size * count) == size * (high * count);
    }
    assert high * 256 + b == size * (high * count + d) + e by {
      assert size * (high * count + d) == size * (high * count) + size * d;
    }
    DivUnique(high * 256 + b, size, high * count + d, e);
  }

  /** Rounding inside one byte rounds the whole number, when the bytes below it are cleared. */
  lemma RoundAtByte(high: nat, b: nat, low: nat, weight: nat, size: nat, count: nat)
    requires size * count == 256 && low < weight && size > 0
    ensures weight * size > 0
    ensures RoundDown((high * 256 + b) * weight + low, weight * size) == (high * 256 + RoundDown(b, size)) * weight
  {
    var a := high * 256 + b;
    RoundScaled(a, low, weight, size);
    RoundByte(high, b, size, count);
  }

  lemma RoundScaled(a: nat, low: nat, weight: nat, size: nat)
    requires low < weight && size > 0
    ensures weight * size > 0
    ensures RoundDown(a * weight + low, weight * size) == a / size * size * weight
  {
    var v, q := a * weight + low, a / size;
    DivDiv(v, weight, size);
    DivUnique(v, weight, a, low);
    assert v / (weight * size) == q;
    Regroup(q, weight, size);
  }

  lemma Regroup(q: nat, weight: nat, size: nat)
    ensures q * (weight * size) == q * size * weight
  {}

  // ---------------------------------------------------------------- the bottom of a block

  lemma BlockSizeAt(p: Prefix)
    requires p < MAX_PREFIX
    ensures Pow2(8 - p % 8) * Pow2(p % 8) == 256
    ensures BlockSize(p) == Pow2(24 - p / 8 * 8) * Pow2(8 - p % 8)
    ensures Pow2(0) == 1 && Pow2(8) == 256 && Pow2(16) == 65536 && Pow2(24) == 16777216
  {
    Pow2Small();
    Pow2Add(8, 8);
    Pow2Add(16, 8);
    Pow2Add(8 - p % 8, p % 8);
    Pow2Add(24 - p / 8 * 8, 8 - p % 8);
  }

  /** Rounding down to a block, spelled out byte by byte. */
  function RoundedBytes(b0: nat, b1: nat, b2: nat, b3: nat, p: Prefix): int {
    var size := Pow2(8 - p % 8);
    match p / 8
    case 0 => RoundDown(b0, size) * 16777216
    case 1 => b0 * 16777216 + RoundDown(b1, size) * 65536
    case 2 => b0 * 16777216 + b1 * 65536 + RoundDown(b2, size) * 256
    case 3 => b0 * 16777216 + b1 * 65536 + b2 * 256 + RoundDown(b3, size)
    case _ => Value(b0, b1, b2, b3)
  }

  lemma RoundedBytesValue(b0: nat, b1: nat, b2: nat, b3: nat, p: Prefix)
    requires b1 < 256 && b2 < 256 && b3 < 256
    ensures NetworkOf(Value(b0, b1, b2, b3), p) == RoundedBytes(b0, b1, b2, b3, p)
  {
    if p == MAX_PREFIX {
      assert BlockSize(p) == 1;
      return;
    }
    var size, count := Pow2(8 - p % 8), Pow2(p % 8);
    BlockSizeAt(p);
    match p / 8
    case 0 => RoundAtByte(0, b0, b1 * 65536 + b2 * 256 + b3, 16777216, size, count);
    case 1 => RoundAtByte(b0, b1, b2 * 256 + b3, 65536, size, count);
    case 2 => RoundAtByte(b0 * 256 + b1, b2, b3, 256, size, count);
    case _ => RoundAtByte(b0 * 65536 + b1 * 256 + b2, b3, 0, 1, size, count);
  }

  lemma RoundWhole(b: nat)
    ensures RoundDown(b, 1) == b
    ensures b < 256 ==> RoundDown(b, 256) == 0
  {}

  lemma RoundedByByte(b0: Byte, b1: Byte, b2: Byte, b3: Byte, p: Prefix)
    ensures RoundDown(b0, SizeIn(p, 0)) * 16777216 + RoundDown(b1, SizeIn(p, 1)) * 65536
          + RoundDown(b2, SizeIn(p, 2)) * 256 + RoundDown(b3, SizeIn(p, 3))
         == RoundedBytes(b0, b1, b2, b3, p)
  {
    Pow2Small();
    RoundWhole(b0);
    RoundWhole(b1);
    RoundWhole(b2);
    RoundWhole(b3);
  }

  /** networkIP: masking the bytes is rounding the integer down to its block. */
  lemma NetworkValue(b: IPBytes, p: Prefix)
    ensures ToInt(Masked(b, p)) == NetworkOf(ToInt(b), p)
  {
    MaskByte(b[0], p, 0);
    MaskByte(b[1], p, 1);
    MaskByte(b[2], p, 2);
    MaskByte(b[3], p, 3);
    RoundedByByte(b[0], b[1], b[2], b[3], p);
    RoundedBytesValue(b[0], b[1], b[2], b[3], p);
  }

  // ---------------------------------------------------------------- the top of a block

  /** broadcastIP: every byte of the subnet ORed with its inverted mask byte. */
  function BroadcastBytes(n: IPNet): IPBytes {
    [OrByte(n.ip[0], Not(MaskAt(n.prefix, 0))), OrByte(n.ip[1], Not(MaskAt(n.prefix, 1))),
     OrByte(n.ip[2], Not(MaskAt(n.prefix, 2))), OrByte(n.ip[3], Not(MaskAt(n.prefix, 3)))]
  }

  /** Decrementing a byte, which wraps around at zero. */
  function Decrement(b: Byte): Byte {
    if b == 0 then 255 else b - 1
  }

  /** lastIP: the broadcast bytes with the last byte decremented. */
  function LastBytes(n: IPNet): IPBytes {
    BroadcastBytes(n)[3 := Decrement(BroadcastBytes(n)[3])]
  }

  lemma SizeInAt(p: Prefix, i: nat)
    requires i < 4
    ensures SizeIn(p, i) == if i < p / 8 then 1 else if i == p / 8 then Pow2(8 - p % 8) else 256
  {
    Pow2Small();
  }

  lemma BlockSizeIs(p: Prefix)
    requires p < MAX_PREFIX
    ensures BlockSize(p) == Weight(p / 8) * Pow2(8 - p % 8)
  {
    BlockSizeAt(p);
    assert Pow2(24 - p / 8 * 8) == Weight(p / 8);
  }

  /** What one step of byte `i` is worth. */
  function Weight(i: nat): nat {
    if i == 0 then 16777216 else if i == 1 then 65536 else if i == 2 then 256 else 1
  }

  /** One byte counts up to `size`, the bytes above it stay and the bytes below it run full. */
  lemma BytesCount(s0: int, s1: int, s2: int, s3: int, size: int, i: nat)
    requires i < 4
    requires s0 == if 0 < i then 1 else size
    requires s1 == if 1 < i then 1 else if i == 1 then size else 256
    requires s2 == if 2 < i then 1 else if i == 2 then size else 256
    requires s3 == if i == 3 then size else 256
    ensures Weight(i) * size - 1 == (s0 - 1) * 16777216 + (s1 - 1) * 65536 + (s2 - 1) * 256 + (s3 - 1)
  {}

  lemma BlockSizeByByte(p: Prefix)
    ensures BlockSize(p) - 1
         == (SizeIn(p, 0) - 1) * 16777216 + (SizeIn(p, 1) - 1) * 65536 + (SizeIn(p, 2) - 1) * 256 + (SizeIn(p, 3) - 1)
  {
    SizeInAt(p, 0);
    SizeInAt(p, 1);
    SizeInAt(p, 2);
    SizeInAt(p, 3);
    if p < MAX_PREFIX {
      BlockSizeIs(p);
      BytesCount(SizeIn(p, 0), SizeIn(p, 1), SizeIn(p, 2), SizeIn(p, 3), Pow2(8 - p % 8), p / 8);
    }
  }

  /** broadcastIP is the last address of the block: network + 2^(32-p) - 1. */
  lemma BroadcastValue(n: IPNet)
    ensures ToInt(BroadcastBytes(n)) == NetworkOf(ToInt(n.ip), n.prefix) + BlockSize(n.prefix) - 1
  {
    var b, p := n.ip, n.prefix;
    MaskByte(b[0], p, 0);
    MaskByte(b[1], p, 1);
    MaskByte(b[2], p, 2);
    MaskByte(b[3], p, 3);
    RoundedByByte(b[0], b[1], b[2], b[3], p);
    RoundedBytesValue(b[0], b[1], b[2], b[3], p);
    BlockSizeByByte(p);
  }

  lemma BroadcastLastByte(n: IPNet)
    ensures n.prefix < MAX_PREFIX ==> BroadcastBytes(n)[3] >= 1
    ensures n.prefix == MAX_PREFIX ==> BroadcastBytes(n)[3] == n.ip[3]
  {
    MaskByte(n.ip[3], n.prefix, 3);
    RoundWhole(n.ip[3]);
    if n.prefix < MAX_PREFIX {
      assert SizeIn(n.prefix, 3) >= 2;
    } else {
      assert SizeIn(n.prefix, 3) == 1;
    }
  }

  /**
   lastIP is one below the broadcast address. The decrement of the last byte wraps around
   exactly for a /32 whose last byte is zero, so never for a shorter prefix.
   */
  lemma LastValue(n: IPNet)
    ensures n.prefix < MAX_PREFIX ==>
              ToInt(LastBytes(n)) == NetworkOf(ToInt(n.ip), n.prefix) + BlockSize(n.prefix) - 2
    ensures ToInt(LastBytes(n)) == ToInt(BroadcastBytes(n)) - 1 <==> !(n.prefix == MAX_PREFIX && n.ip[3] == 0)
  {
    BroadcastValue(n);
    BroadcastLastByte(n);
  }

  // ---------------------------------------------------------------- containment

  lemma ToIntInjective(a: IPBytes, b: IPBytes)
    requires ToInt(a) == ToInt(b)
    ensures a == b
  {
    SameDigits(a[0], a[1], a[2], a[3], b[0], b[1], b[2], b[3]);
  }

  lemma SameDigits(a0: Byte, a1: Byte, a2: Byte, a3: Byte, b0: Byte, b1: Byte, b2: Byte, b3: Byte)
    requires Value(a0, a1, a2, a3) == Value(b0, b1, b2, b3)
    ensures a0 == b0 && a1 == b1 && a2 == b2 && a3 == b3
  {}

  lemma SameBlock(a: nat, b: nat, size: nat)
    requires size > 0
    ensures RoundDown(a, size) == RoundDown(b, size) <==> RoundDown(a, size) <= b < RoundDown(a, size) + size
  {
    var q := a / size;
    if RoundDown(a, size) <= b < RoundDown(a, size) + size {
      DivUnique(b, size, q, b - size * q);
    }
  }

  lemma MaskTwice(b: IPBytes, p: Prefix)
    ensures Masked(Masked(b, p), p) == Masked(b, p)
  {
    NetworkValue(b, p);
    NetworkValue(Masked(b, p), p);
    SameBlock(ToInt(b), ToInt(Masked(b, p)), BlockSize(p));
    ToIntInjective(Masked(Masked(b, p), p), Masked(b, p));
  }

  lemma ContainsMasked(n: IPNet, ip: IPBytes)
    ensures ContainsBytes(n, ip) <==> Masked(n.ip, n.prefix) == Masked(ip, n.prefix)
  {
    var a, b := Masked(n.ip, n.prefix), Masked(ip, n.prefix);
    assert forall i :: 0 <= i < 4 ==> a[i] == AndByte(n.ip[i], MaskAt(n.prefix, i));
    assert forall i :: 0 <= i < 4 ==> b[i] == AndByte(ip[i], MaskAt(n.prefix, i));
  }

  /** IPNet.Contains on bytes is membership of the integer interval [network, broadcast]. */
  lemma ContainsValue(n: IPNet, ip: IPBytes)
    ensures ContainsBytes(n, ip)
       <==> NetworkOf(ToInt(n.ip), n.prefix) <= ToInt(ip) < NetworkOf(ToInt(n.ip), n.prefix) + BlockSize(n.prefix)
  {
    ContainsMasked(n, ip);
    NetworkValue(n.ip, n.prefix);
    NetworkValue(ip, n.prefix);
    if ToInt(Masked(n.ip, n.prefix)) == ToInt(Masked(ip, n.prefix)) {
      ToIntInjective(Masked(n.ip, n.prefix), Masked(ip, n.prefix));
    }
    SameBlock(ToInt(n.ip), ToInt(ip), BlockSize(n.prefix));
  }

  // ---------------------------------------------------------------- the source's loops

  method BroadcastIP(n: IPNet) returns (broadcast: array<Byte>)
    ensures fresh(broadcast) && broadcast.Length == 4
    ensures broadcast[..] == BroadcastBytes(n)
    ensures ToInt(broadcast[..]) == NetworkOf(ToInt(n.ip), n.prefix) + BlockSize(n.prefix) - 1
  {
    broadcast := new Byte[|n.ip|];
    for i := 0 to |n.ip|
      invariant forall j :: 0 <= j < i ==> broadcast[j] == BroadcastBytes(n)[j]
    {
      broadcast[i] := OrByte(n.ip[i], Not(MaskAt(n.prefix, i)));
    }
    assert broadcast[..] == BroadcastBytes(n);
    BroadcastValue(n);
  }

  method LastIP(n: IPNet) returns (end: array<Byte>)
    ensures fresh(end) && end.Length == 4
    ensures end[..] == LastBytes(n)
    ensures n.prefix < MAX_PREFIX ==>
              ToInt(end[..]) == NetworkOf(ToInt(n.ip), n.prefix) + BlockSize(n.prefix) - 2
  {
    end := new Byte[|n.ip|];
    for i := 0 to |n.ip|
      invariant forall j :: 0 <= j < i ==> end[j] == BroadcastBytes(n)[j]
    {
      end[i] := OrByte(n.ip[i], Not(MaskAt(n.prefix, i)));
    }
    end[3] := Decrement(end[3]);
    assert end[..] == LastBytes(n);
    LastValue(n);
  }
}
