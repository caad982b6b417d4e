/**
 Variable-length integers: base-128 groups (unsigned LEB128, section 7.6 of DWARF 5) bounded to
 64 bits, and the zigzag map that carries signed integers.
 */
module Varint {
  import opened Wire
  import opened Bits

  function Pow128(k: nat): (r: nat)
    ensures r >= 1
  {
    if k == 0 then 1 else 128 * Pow128(k - 1)
  }

  /** The encoding of `x`: seven bits a byte, low bits first, the high bit marking continuation. */
  function Uvarint(x: nat): (r: bytes)
    ensures |r| >= 1
  {
    if x < 128 then [x] else [x % 128 + 128] + Uvarint(x / 128)
  }

  function UvarintSize(x: nat): (r: nat)
    ensures r >= 1
  {
    if x < 128 then 1 else 1 + UvarintSize(x / 128)
  }

  /** A group of bytes that ends with its first byte below 128. */
  predicate Terminated(g: bytes) {
    |g| > 0 && g[|g| - 1] < 128 && forall i :: 0 <= i < |g| - 1 ==> g[i] >= 128
  }

  /** The number a group spells in base 128. */
  function Sum7(g: bytes): (n: nat) {
    if g == [] then 0 else g[0] % 128 + 128 * Sum7(g[1..])
  }

  /** Reads one group of at most `k` bytes. */
  function ReadGroup(b: bytes, k: nat): Parsed<nat> {
    if k == 0 || b == [] then Fail
    else if b[0] < 128 then Ok(b[0], b[1..])
    else
      var (n, rest) :- ReadGroup(b[1..], k - 1);
      Ok(b[0] - 128 + 128 * n, rest)
  }

  /** Reads one unsigned integer: a group of at most ten bytes whose sum fits 64 bits. */
  function ReadUvarint(b: bytes): Parsed<nat> {
    var (n, rest) :- ReadGroup(b, 10);
    if n < TWO64 then Ok(n, rest) else Fail
  }

  datatype ReadError = NoError | Eof | Overflow

  /** Why a read of one integer stops. */
  function ReadStatus(b: bytes): ReadError {
    match ReadGroup(b, 10)
    case Ok(n, _) => if n < TWO64 then NoError else Overflow
    case Fail => if |b| >= 10 then Overflow else Eof
  }

  /** How many bytes the reader has advanced when it stops, in success and in failure. */
  function ReadUsed(b: bytes): (n: nat) {
    match ReadGroup(b, 10)
    case Ok(_, rest) => if |rest| <= |b| then |b| - |rest| else 0
    case Fail => if |b| >= 10 then 10 else |b|
  }

  // ---------------------------------------------------------------- groups

  lemma {:induction false} GroupShape(b: bytes, k: nat)
    requires ReadGroup(b, k).Ok?
    ensures var r := ReadGroup(b, k);
      && IsSuffix(r.rest, b)
      && 1 <= |b| - |r.rest| <= k
      && Terminated(Consumed(b, r.rest))
      && r.val == Sum7(Consumed(b, r.rest))
  {
    if b[0] < 128 {
      assert Consumed(b, b[1..]) == [b[0]];
      assert Sum7([b[0]]) == b[0] % 128 + 128 * Sum7([]);
    } else {
      var tail := b[1..];
      GroupShape(tail, k - 1);
      var rest := ReadGroup(tail, k - 1).rest;
      var g := Consumed(tail, rest);
      assert Consumed(b, rest) == [b[0]] + g && IsSuffix(rest, b) by { ConsumedMore(b, rest); }
      LongerGroup(b[0], g);
    }
  }

  lemma ConsumedMore(b: bytes, rest: bytes)
    requires b != [] && IsSuffix(rest, b[1..])
    ensures IsSuffix(rest, b) && Consumed(b, rest) == [b[0]] + Consumed(b[1..], rest)
  {
    var tail := b[1..];
    assert b[|b| - |rest|..] == tail[|tail| - |rest|..];
  }

  lemma LongerGroup(d: byte, g: bytes)
    requires d >= 128 && Terminated(g)
    ensures Terminated([d] + g) && Sum7([d] + g) == d - 128 + 128 * Sum7(g)
  {
    assert ([d] + g)[1..] == g;
  }

  lemma {:induction false} GroupAccepted(g: bytes, rest: bytes, k: nat)
    requires Terminated(g) && |g| <= k
    ensures ReadGroup(g + rest, k) == Ok(Sum7(g), rest)
  {
    var b := g + rest;
    if |g| == 1 {
      assert b[1..] == rest && Sum7(g[1..]) == 0;
    } else {
      assert b[1..] == g[1..] + rest;
      GroupAccepted(g[1..], rest, k - 1);
    }
  }

  /**
   A terminated group of at most ten bytes is accepted exactly when its base-128 sum is below 2^64,
   and the result is that sum; nothing else is accepted.
   */
  lemma AcceptedGroups(b: bytes, n: nat, rest: bytes)
    ensures ReadUvarint(b) == Ok(n, rest) <==>
      exists k | 1 <= k <= 10 && k <= |b| ::
        Terminated(b[..k]) && Sum7(b[..k]) == n && n < TWO64 && rest == b[k..]
  {
    if ReadUvarint(b) == Ok(n, rest) {
      GroupShape(b, 10);
      var k := |b| - |rest|;
      assert 1 <= k <= 10 && k <= |b| && b[..k] == Consumed(b, rest);
    }
    forall k | 1 <= k <= 10 && k <= |b| && Terminated(b[..k])
      ensures ReadGroup(b, 10) == Ok(Sum7(b[..k]), b[k..])
    {
      assert b == b[..k] + b[k..];
      GroupAccepted(b[..k], b[k..], 10);
    }
  }

  lemma {:induction false} Sum7Bound(g: bytes)
    ensures Sum7(g) < Pow128(|g|)
  {
    if g != [] {
      Sum7Bound(g[1..]);
    }
  }

  lemma Scale(d: nat, tail: nat, w: nat, s: nat)
    ensures d + 128 * (tail + w * s) == d + 128 * tail + (128 * w) * s
  {
  }

  lemma {:induction false} Sum7Split(p: bytes, q: bytes)
    ensures Sum7(p + q) == Sum7(p) + Pow128(|p|) * Sum7(q)
  {
    if p == [] {
      assert p + q == q;
    } else {
      assert (p + q)[1..] == p[1..] + q;
      Sum7Split(p[1..], q);
      Scale(p[0] % 128, Sum7(p[1..]), Pow128(|p| - 1), Sum7(q));
    }
  }

  /** The decoder's test on the tenth byte is the 64-bit bound. */
  lemma TenthByte(g: bytes)
    requires |g| <= 10 && Terminated(g)
    ensures Sum7(g) < TWO64 <==> (|g| == 10 ==> g[9] <= 1)
  {
    assert Pow128(9) == 0x8000_0000_0000_0000;
    if |g| == 10 {
      assert g == g[..9] + [g[9]];
      Sum7Split(g[..9], [g[9]]);
      Sum7Bound(g[..9]);
      assert Sum7([g[9]]) == g[9] % 128 + 128 * Sum7([]);
    } else {
      Sum7Bound(g);
      Pow128Monotone(|g|, 9);
    }
  }

  lemma {:induction false} Pow128Monotone(i: nat, j: nat)
    requires i <= j
    ensures Pow128(i) <= Pow128(j)
    decreases j
  {
    if i < j {
      Pow128Monotone(i, j - 1);
    }
  }

  // ---------------------------------------------------------------- encoding

  lemma {:induction false} UvarintShape(x: nat)
    ensures Terminated(Uvarint(x)) && Sum7(Uvarint(x)) == x
    ensures |Uvarint(x)| == UvarintSize(x)
  {
    if x < 128 {
      assert Sum7([x]) == x % 128 + 128 * Sum7([]);
    } else {
      UvarintShape(x / 128);
      assert Uvarint(x)[1..] == Uvarint(x / 128);
    }
  }

  /** `k` bytes suffice exactly when `x` is below 128^k. */
  lemma {:induction false} SizeExact(x: nat, k: nat)
    requires k >= 1
    ensures UvarintSize(x) <= k <==> x < Pow128(k)
    decreases k
  {
    if k == 1 {
      assert Pow128(1) == 128 * Pow128(0);
    } else if x >= 128 {
      SizeExact(x / 128, k - 1);
      var p := Pow128(k - 1);
      assert x < 128 * p <==> x / 128 < p;
    } else {
      Pow128Monotone(1, k);
      assert Pow128(1) == 128 * Pow128(0);
    }
  }

  lemma SizeMonotone(x: nat, y: nat)
    requires x <= y
    ensures UvarintSize(x) <= UvarintSize(y)
  {
    SizeExact(y, UvarintSize(y));
    SizeExact(x, UvarintSize(y));
  }

  /** A 64-bit value never needs more than the ten bytes of the encoder's scratch space. */
  lemma SizeAtMostTen(x: nat)
    requires x < TWO64
    ensures UvarintSize(x) <= 10
  {
    assert Pow128(10) == 128 * 0x8000_0000_0000_0000;
    SizeExact(x, 10);
  }

  /** Reading inverts writing, before any suffix. */
  lemma UvarintRoundTrip(x: nat, rest: bytes)
    requires x < TWO64
    ensures ReadUvarint(Uvarint(x) + rest) == Ok(x, rest)
  {
    UvarintShape(x);
    SizeAtMostTen(x);
    GroupAccepted(Uvarint(x), rest, 10);
  }

  /** A successful read consumes one to ten bytes, and never fewer than the encoder would write. */
  lemma ReadUvarintShape(b: bytes)
    requires ReadUvarint(b).Ok?
    ensures var r := ReadUvarint(b);
      && IsSuffix(r.rest, b)
      && r.val < TWO64
      && UvarintSize(r.val) <= |b| - |r.rest| <= 10
      && |r.rest| < |b|
  {
    GroupShape(b, 10);
    var r := ReadUvarint(b);
    var g := Consumed(b, r.rest);
    Sum7Bound(g);
    SizeExact(r.val, |g|);
  }

  /** A read depends only on the bytes it consumes. */
  lemma ReadUvarintLocal(b: bytes, other: bytes)
    requires ReadUvarint(b).Ok?
    ensures var r := ReadUvarint(b);
      ReadUvarint(Consumed(b, r.rest) + other) == Ok(r.val, other)
  {
    GroupShape(b, 10);
    GroupAccepted(Consumed(b, ReadUvarint(b).rest), other, 10);
  }

  // ---------------------------------------------------------------- why a read stops

  lemma {:induction false} GroupFails(b: bytes, k: nat)
    ensures ReadGroup(b, k) == Fail <==> forall i :: 0 <= i < k && i < |b| ==> b[i] >= 128
  {
    if k > 0 && b != [] {
      GroupFails(b[1..], k - 1);
      assert forall i :: 1 <= i < k && i < |b| ==> b[i] == b[1..][i - 1];
      assert forall i :: 0 <= i < k - 1 && i < |b| - 1 ==> b[1..][i] == b[i + 1];
    }
  }

  /**
   A read meets the end of input when fewer than ten bytes are left and all continue; it overflows when nine continue
   and a tenth is above 1. Either way it stops after the first byte that does not continue, or the tenth, or the last.
   */
  lemma StopsExactly(b: bytes)
    ensures ReadStatus(b) == Eof <==> |b| < 10 && forall i :: 0 <= i < |b| ==> b[i] >= 128
    ensures ReadStatus(b) == Overflow <==> |b| >= 10 && b[9] > 1 && forall i :: 0 <= i < 9 ==> b[i] >= 128
    ensures var n := ReadUsed(b);
      && n <= 10 && n <= |b| && (forall i :: 0 <= i < n - 1 ==> b[i] >= 128)
      && (n == |b| || n == 10 || (n > 0 && b[n - 1] < 128))
  {
    GroupFails(b, 10);
    if ReadGroup(b, 10).Ok? {
      GroupShape(b, 10);
      var g := Consumed(b, ReadGroup(b, 10).rest);
      TenthByte(g);
      assert forall i :: 0 <= i < |g| ==> g[i] == b[i];
    }
  }

  // ---------------------------------------------------------------- zigzag

  /** Signed integers in the order 0, -1, 1, -2, 2, ... */
  function ZigZag(v: int): (r: nat) {
    if v >= 0 then 2 * v else -2 * v - 1
  }

  function UnZigZag(x: nat): (r: int) {
    if x % 2 == 0 then x / 2 else -(x / 2) - 1
  }

  predicate IsInt64(v: int) {
    -0x8000_0000_0000_0000 <= v < 0x8000_0000_0000_0000
  }

  /** Zigzag is a bijection between the 64-bit signed integers and the 64-bit patterns. */
  lemma ZigZagBijection(v: int, x: nat)
    ensures UnZigZag(ZigZag(v)) == v && ZigZag(UnZigZag(x)) == x
    ensures IsInt64(v) <==> ZigZag(v) < TWO64
    ensures x < TWO64 <==> IsInt64(UnZigZag(x))
  {
  }

  // Two's complement views of 64-bit patterns.
  function Pattern64(v: int): (r: nat) {
    v % TWO64
  }

  function Signed64(p: nat): (r: int) {
    if p < 0x8000_0000_0000_0000 then p else p - TWO64
  }

  /** The encoder's `x := uint64(v) << 1`, complemented for a negative `v`. */
  function ZigZagBits(v: int): nat {
    var x := (2 * Pattern64(v)) % TWO64;
    if v < 0 then Xor(x, TWO64 - 1) else x
  }

  /** The decoder's `int64(x>>1) ^ -int64(x&1)`. */
  function UnZigZagBits(x: nat): int {
    Signed64(Xor(x / 2, Pattern64(-(x % 2))))
  }

  lemma Pow2Of64()
    ensures Pow2(64) == TWO64
  {
    assert Pow2(8) == 256;
    hide Pow2;
    Pow2Add(8, 8);
    Pow2Add(16, 16);
    Pow2Add(32, 32);
  }

  /** The shift-and-xor code computes the arithmetic zigzag. */
  lemma ZigZagMatchesBits(v: int, x: nat)
    requires IsInt64(v) && x < TWO64
    ensures ZigZagBits(v) == ZigZag(v)
    ensures UnZigZagBits(x) == UnZigZag(x)
  {
    hide Xor, Pow2;
    DoubledPattern(v);
    Complement(if v < 0 then 2 * v + TWO64 else 2 * v);
    Complement(x / 2);
    assert Xor(x / 2, 0) == x / 2 by { XorZero(x / 2); }
    assert Pattern64(-1) == TWO64 - 1;
  }

  lemma DoubledPattern(v: int)
    requires IsInt64(v)
    ensures (2 * Pattern64(v)) % TWO64 == if v < 0 then 2 * v + TWO64 else 2 * v
  {
    if v < 0 {
      assert Pattern64(v) == v + TWO64;
      assert 2 * (v + TWO64) == (2 * v + TWO64) + TWO64;
    }
  }

  lemma XorZero(x: nat)
    ensures Xor(x, 0) == x
  {
  }

  lemma Complement(x: nat)
    requires x < TWO64
    ensures Xor(x, TWO64 - 1) == TWO64 - 1 - x
  {
    Pow2Of64();
    XorOnes(x, 64);
  }

  // ---------------------------------------------------------------- narrowing

  /** The number of values of an integer type of the given width. */
  function Modulus(bits: nat): (m: nat)
    ensures m >= 256
  {
    if bits == 8 then 0x100 else if bits == 16 then 0x1_0000
    else if bits == 32 then 0x1_0000_0000 else TWO64
  }

  /** Conversion of an integer to a signed type: keep the low bits, read them as two's complement. */
  function WrapSigned(v: int, bits: nat): int {
    var m := Modulus(bits);
    (v + m / 2) % m - m / 2
  }

  predicate InSigned(v: int, bits: nat) {
    -(Modulus(bits) / 2) <= v < Modulus(bits) / 2
  }

  /** What a decoded pattern becomes in an integer slot (`T(decodeVarint(x))` or `T(x)`). */
  function VarintValue(x: nat, bits: nat, signed: bool): int {
    if signed then WrapSigned(UnZigZag(x), bits) else x % Modulus(bits)
  }

  /** Values of the slot's own type survive the trip through their pattern. */
  lemma VarintValueRoundTrip(v: int, bits: nat, signed: bool)
    requires if signed then InSigned(v, bits) else 0 <= v < Modulus(bits)
    ensures var x := if signed then ZigZag(v) else v;
      x < TWO64 && VarintValue(x, bits, signed) == v
  {
    var m := Modulus(bits);
    if signed {
      assert 0 <= v + m / 2 < m;
      ZigZagBijection(v, 0);
    }
  }
}
