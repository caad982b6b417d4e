/**
 The readers: a cursor over bytes, in memory or behind a stream, and the bulk integer decoder that
 must behave like a loop of single reads.
 */
module Reader {
  import opened Wire
  import opened Bits
  import opened Varint

  // ---------------------------------------------------------------- accumulating a group

  /** The outcome of a group read whose first `i` bytes have already been folded into `value`. */
  function Lift(value: nat, i: nat, rest: Parsed<nat>): Parsed<nat> {
    match rest
    case Fail => Fail
    case Ok(n, r) => Ok(value + Pow128(i) * n, r)
  }

  lemma {:induction false} Pow128IsPow2(i: nat)
    ensures Pow128(i) == Pow2(7 * i)
  {
    if i > 0 {
      Pow128IsPow2(i - 1);
      assert Pow2(7) == 128;
      Pow2Add(7, 7 * (i - 1));
    }
  }

  /** One step of `value |= uint64(b&0x7f) << shift`, with the shift's truncation to 64 bits. */
  function Accumulate(value: nat, digit: nat, i: nat): nat {
    Or(value, (digit * Pow2(7 * i)) % TWO64)
  }

  // The shifted digit fits 64 bits, so nothing is cut off, and the Or is an addition.
  lemma AccumulateAdds(value: nat, digit: nat, i: nat)
    requires value < Pow128(i) && digit < 128
    requires i <= 8 || (i == 9 && digit <= 1)
    ensures Accumulate(value, digit, i) == value + Pow128(i) * digit < TWO64
    ensures Accumulate(value, digit, i) < Pow128(i + 1)
  {
    hide Pow128, Pow2, Or;
    var p := Pow128(i);
    Pow128Step(i);
    DigitFits(value, p, digit);
    ShiftFits(p, digit, i);
    Pow128IsPow2(i);
    OrDisjoint(value, digit, 7 * i);
    NotCut(digit, p);
  }

  lemma NotCut(digit: nat, p: nat)
    requires p * digit < TWO64
    ensures (digit * p) % TWO64 == p * digit == digit * p
  {
    assert digit * p == p * digit;
  }

  lemma Pow128Step(i: nat)
    ensures Pow128(i + 1) == 128 * Pow128(i)
    ensures i <= 8 ==> 128 * Pow128(i) <= 0x8000_0000_0000_0000
    ensures Pow128(9) == 0x8000_0000_0000_0000
  {
    assert Pow128(9) == 0x8000_0000_0000_0000;
    if i <= 8 {
      Pow128Monotone(i + 1, 9);
    }
  }

  lemma DigitFits(value: nat, p: nat, digit: nat)
    requires value < p && digit < 128
    ensures value + p * digit < 128 * p
    ensures digit <= 1 ==> value + p * digit < 2 * p
  {
    ScaleMonotone(p, digit + 1, 128);
    assert p * (digit + 1) == p * digit + p;
  }

  lemma ShiftFits(p: nat, digit: nat, i: nat)
    requires p == Pow128(i) && digit < 128 && (i <= 8 || (i == 9 && digit <= 1))
    ensures p * digit < TWO64
  {
    Pow128Step(i);
    DigitFits(0, p, digit);
  }

  lemma ScaleMonotone(p: nat, x: nat, y: nat)
    requires x <= y
    ensures p * x <= p * y
  {
  }

  lemma LiftStarts(b: bytes)
    ensures Lift(0, 0, ReadGroup(b, 10)) == ReadGroup(b, 10)
    ensures Pow128(0) == 1
    ensures forall k :: ReadGroup([], k) == Fail
    ensures forall c: bytes :: ReadGroup(c, 0) == Fail
    ensures forall value, i :: Lift(value, i, Fail) == Fail
  {
  }

  lemma LiftOne(d: nat, b: bytes)
    requires d < 128
    ensures d < Pow128(1) && Pow128(0) * d == d
  {
    assert Pow128(1) == 128 * Pow128(0);
  }

  // The groups the bulk decoder handles inline.
  lemma OneByte(b: bytes)
    requires b != [] && b[0] < 128
    ensures Varint.ReadUvarint(b) == Ok(b[0], b[1..])
    ensures ReadUsed(b) == 1 && ReadStatus(b) == NoError
  {
  }

  lemma TwoBytes(b: bytes)
    requires |b| >= 2 && b[0] >= 128 && b[1] < 128
    ensures Varint.ReadUvarint(b) == Ok(Or(b[0] % 128, (b[1] as int) * 128), b[2..])
    ensures ReadUsed(b) == 2 && ReadStatus(b) == NoError
  {
    hide Or;
    TwoByteGroup(b);
    TwoByteSum(b[0] % 128, b[1]);
  }

  lemma TwoByteSum(lo: nat, hi: nat)
    requires lo < 128
    ensures Or(lo, hi * 128) == lo + hi * 128
  {
    assert Pow2(7) == 128;
    hide Pow2, Or;
    OrDisjoint(lo, hi, 7);
  }

  lemma TwoByteGroup(b: bytes)
    requires |b| >= 2 && b[0] >= 128 && b[1] < 128
    ensures var n: nat := (b[0] as int) % 128 + (b[1] as int) * 128; ReadGroup(b, 10) == Ok(n, b[2..])
  {
    assert b[1..][1..] == b[2..];
    assert ReadGroup(b[1..], 9) == Ok(b[1], b[2..]);
  }

  lemma LiftContinues(value: nat, i: nat, b: bytes, k: nat)
    requires k > 0 && b != [] && b[0] >= 128
    ensures Lift(value, i, ReadGroup(b, k))
         == Lift(value + Pow128(i) * (b[0] % 128), i + 1, ReadGroup(b[1..], k - 1))
  {
    match ReadGroup(b[1..], k - 1)
    case Fail =>
    case Ok(n, r) => Distribute(value, Pow128(i), b[0] - 128, n);
  }

  lemma Distribute(v: nat, p: nat, d: nat, n: nat)
    ensures v + p * (d + 128 * n) == (v + p * d) + (128 * p) * n
  {
  }

  // The decoder's only range test, on the tenth byte, decides whether the sum fits.
  lemma LiftEnds(value: nat, i: nat, b: bytes, k: nat)
    requires value < Pow128(i) && i <= 9 && k > 0 && b != [] && b[0] < 128
    ensures Lift(value, i, ReadGroup(b, k)) == Ok(value + Pow128(i) * b[0], b[1..])
    ensures value + Pow128(i) * b[0] < TWO64 <==> !(i == 9 && b[0] > 1)
  {
    Pow128Step(i);
    if i <= 8 || b[0] <= 1 {
      DigitFits(value, Pow128(i), b[0]);
    } else {
      ScaleMonotone(Pow128(9), 2, b[0]);
    }
  }

  // ---------------------------------------------------------------- bulk reads, by the book

  /** What a loop of `n` single reads leaves: the elements written, why it stopped, bytes advanced. */
  datatype Bulk = Bulk(written: seq<int>, status: ReadError, used: nat)

  function BulkRead(b: bytes, n: nat, bits: nat, signed: bool): (r: Bulk)
    decreases n
    ensures |r.written| <= n
    ensures r.status.NoError? <==> |r.written| == n
    ensures r.used <= |b|
  {
    if n == 0 then Bulk([], NoError, 0)
    else if !ReadStatus(b).NoError? then
      UsedInRange(b);
      Bulk([], ReadStatus(b), ReadUsed(b))
    else
      UsedInRange(b);
      var tail := BulkRead(b[ReadUsed(b)..], n - 1, bits, signed);
      Bulk([VarintValue(ReadUvarint(b).val, bits, signed)] + tail.written, tail.status, ReadUsed(b) + tail.used)
  }

  lemma UsedInRange(b: bytes)
    ensures ReadUsed(b) <= |b|
    ensures ReadStatus(b).NoError? <==> ReadUvarint(b).Ok?
    ensures ReadUvarint(b).Ok? ==> ReadUvarint(b).rest == b[ReadUsed(b)..]
  {
    if ReadGroup(b, 10).Ok? {
      GroupShape(b, 10);
    }
  }

  /** `done` elements are written and `used` bytes are behind; the rest of the loop is still to come. */
  ghost predicate BulkPending(all: Bulk, written: seq<int>, used: nat, tail: Bulk) {
    all.written == written + tail.written && all.status == tail.status && all.used == used + tail.used
  }

  /** The outcome of decoding the group at `pos` outside the reader's own cursor. */
  ghost predicate GroupRead(buffer: bytes, pos: nat, x: nat, next: nat, err: ReadError)
    requires pos <= |buffer|
  {
    var b := buffer[pos..];
    && pos <= next <= |buffer| && next == pos + ReadUsed(b) && err == ReadStatus(b)
    && (err.NoError? ==> Varint.ReadUvarint(b) == Ok(x, buffer[next..]))
  }

  // One turn of either bulk loop: the group at `pos` becomes the next element, or ends the loop.
  lemma BulkStep(all: Bulk, done: seq<int>, used: nat, buffer: bytes, pos: nat, x: nat, next: nat, err: ReadError,
                 n: nat, bits: nat, signed: bool)
    requires pos <= |buffer| && n > 0 && GroupRead(buffer, pos, x, next, err)
    requires BulkPending(all, done, used, BulkRead(buffer[pos..], n, bits, signed))
    ensures err.NoError? ==> BulkPending(all, done + [VarintValue(x, bits, signed)], used + (next - pos),
                                         BulkRead(buffer[next..], n - 1, bits, signed))
    ensures !err.NoError? ==> all == Bulk(done, err, used + (next - pos))
  {
    var b := buffer[pos..];
    UsedInRange(b);
    assert b[next - pos..] == buffer[next..];
  }

  lemma BulkStarts(b: bytes, n: nat, bits: nat, signed: bool)
    ensures BulkPending(BulkRead(b, n, bits, signed), [], 0, BulkRead(b, n, bits, signed))
  {
  }

  lemma BulkDone(all: Bulk, done: seq<int>, used: nat, b: bytes, bits: nat, signed: bool)
    requires BulkPending(all, done, used, BulkRead(b, 0, bits, signed))
    ensures all == Bulk(done, NoError, used)
  {
  }

  // ---------------------------------------------------------------- the readers

  /**
   The in-memory reader (`stream` false), and the stream reader as a cursor that does not know how
   many bytes are left (`stream` true).
   */
  class Reader {
    const stream: bool
    var buffer: bytes
    var offset: nat

    constructor (stream: bool, buffer: bytes)
      ensures Valid() && this.stream == stream && this.buffer == buffer && offset == 0
    {
      this.stream := stream;
      this.buffer := buffer;
      offset := 0;
    }

    ghost predicate Valid()
      reads this
    {
      offset <= |buffer|
    }

    /** The bytes not yet read. */
    function Rem(): (b: bytes)
      requires Valid()
      reads this
    {
      buffer[offset..]
    }

    /** The remaining bytes of an in-memory reader, or -1 for a stream. */
    function Available(): int
      requires Valid()
      reads this
    {
      if stream then -1 else |buffer| - offset
    }

    /** Up to `want` bytes, short when fewer remain, end of input only when none do. */
    method Read(want: nat) returns (eof: bool, got: bytes)
      requires Valid()
      modifies this`offset
      ensures Valid()
      ensures eof == (old(Rem()) == [])
      ensures old(Rem()) == got + Rem()
      ensures |got| == if want <= |old(Rem())| then want else |old(Rem())|
    {
      if offset >= |buffer| {
        return true, [];
      }
      var n := if want <= |buffer| - offset then want else |buffer| - offset;
      eof, got := false, buffer[offset..offset + n];
      offset := offset + n;
    }

    method ReadByte() returns (ok: bool, b: byte)
      requires Valid()
      modifies this`offset
      ensures Valid()
      ensures ok == (old(Rem()) != [])
      ensures ok ==> old(Rem()) == [b] + Rem()
      ensures !ok ==> Rem() == old(Rem())
    {
      if offset >= |buffer| {
        return false, 0;
      }
      ok, b := true, buffer[offset];
      offset := offset + 1;
    }

    /** Exactly `n` bytes, or a failure. */
    method Slice(n: int) returns (ok: bool, got: bytes)
      requires Valid()
      modifies this`offset
      ensures Valid()
      ensures ok == (0 <= n <= |old(Rem())| && (stream ==> n <= MAX_INT / 2))
      ensures ok ==> |got| == n && old(Rem()) == got + Rem()
    {
      if n < 0 || (stream && n > MAX_INT / 2) {
        return false, [];
      }
      if n > |buffer| - offset {
        if stream {
          offset := |buffer|;
        }
        return false, [];
      }
      var cur := offset;
      offset := offset + n;
      return true, buffer[cur..offset];
    }

    /** One unsigned integer, byte by byte. */
    method ReadUvarint() returns (value: nat, err: ReadError)
      requires Valid()
      modifies this`offset
      ensures Valid()
      ensures err == ReadStatus(old(Rem()))
      ensures offset == old(offset) + ReadUsed(old(Rem()))
      ensures err.NoError? ==> Varint.ReadUvarint(old(Rem())) == Ok(value, Rem())
    {
      hide Accumulate, Pow128, Sum7, ReadGroup;
      ghost var b := Rem();
      LiftStarts(b);
      value := 0;
      var i := 0;
      while i < 10
        invariant i <= 10 && offset == old(offset) + i && i <= |b|
        invariant i <= 9 ==> value < Pow128(i) && ReadGroup(b, 10) == Lift(value, i, ReadGroup(Rem(), 10 - i))
        invariant i == 10 ==> ReadGroup(b, 10) == Fail
      {
        if offset >= |buffer| {
          assert Rem() == [];
          return 0, Eof;
        }
        ghost var before := Rem();
        var c := buffer[offset];
        offset := offset + 1;
        assert before[1..] == Rem() && before[0] == c;
        if c < 0x80 {
          LiftEnds(value, i, before, 10 - i);
          if i == 9 && c > 1 {
            return value, Overflow;
          }
          AccumulateAdds(value, c, i);
          value := Accumulate(value, c, i);
          return value, NoError;
        }
        LiftContinues(value, i, before, 10 - i);
        if i < 9 {
          AccumulateAdds(value, c % 128, i);
        }
        value := Accumulate(value, c % 128, i);
        i := i + 1;
      }
      return value, Overflow;
    }

    method ReadVarint() returns (value: int, err: ReadError)
      requires Valid()
      modifies this`offset
      ensures Valid()
      ensures err == ReadStatus(old(Rem()))
      ensures offset == old(offset) + ReadUsed(old(Rem()))
      ensures err.NoError? ==>
        var r := Varint.ReadUvarint(old(Rem())); r.Ok? && value == UnZigZag(r.val) && r.rest == Rem()
    {
      var ux;
      ux, err := ReadUvarint();
      value := 0;
      if err.NoError? {
        ReadUvarintShape(old(Rem()));
        ZigZagMatchesBits(0, ux);
        value := UnZigZagBits(ux);
      }
    }

    /** The one-at-a-time loop that serves streams. */
    method ReadEach(values: array<int>, bits: nat, signed: bool) returns (err: ReadError)
      requires Valid()
      modifies this`offset, values
      ensures Valid()
      ensures var r := BulkRead(old(Rem()), values.Length, bits, signed);
        && err == r.status && offset == old(offset) + r.used
        && values[..] == r.written + old(values[..])[|r.written|..]
    {
      hide BulkRead, GroupRead, VarintValue;
      ghost var all, start := BulkRead(Rem(), values.Length, bits, signed), offset;
      ghost var was := values[..];
      ghost var done: seq<int> := [];
      var i := 0;
      while i < values.Length
        invariant 0 <= i == |done| <= values.Length && start <= offset <= |buffer|
        invariant forall k :: 0 <= k < i ==> values[k] == done[k]
        invariant forall k :: i <= k < values.Length ==> values[k] == was[k]
        invariant BulkPending(all, done, offset - start, BulkRead(buffer[offset..], values.Length - i, bits, signed))
      {
        ghost var pos := offset;
        var value;
        ghost var x;
        value, x, err := ReadValue(bits, signed);
        BulkStep(all, done, pos - start, buffer, pos, x, offset, err, values.Length - i, bits, signed);
        if !err.NoError? {
          return;
        }
        values[i] := value;
        done, i := done + [value], i + 1;
      }
      BulkDone(all, done, offset - start, buffer[offset..], bits, signed);
      return NoError;
    }

    /** One integer converted to its slot's type; `x` is the pattern that was read. */
    method ReadValue(bits: nat, signed: bool) returns (value: int, ghost x: nat, err: ReadError)
      requires Valid()
      modifies this`offset
      ensures Valid() && old(offset) <= offset
      ensures GroupRead(buffer, old(offset), x, offset, err)
      ensures err.NoError? ==> value == VarintValue(x, bits, signed)
    {
      UsedInRange(Rem());
      if signed {
        value, err := ReadVarint();
        x := ZigZag(value);
        if err.NoError? {
          ZigZagBijection(value, Varint.ReadUvarint(old(Rem())).val);
        }
        value := WrapSigned(value, bits);
      } else {
        var u;
        u, err := ReadUvarint();
        x, value := u, u % Modulus(bits);
      }
    }

    /**
     The unrolled in-memory decoder: one- and two-byte groups inline, longer ones in a loop, the
     offset kept in a local until the end. It leaves exactly what `ReadEach` leaves.
     */
    method ReadVarints(values: array<int>, bits: nat, signed: bool) returns (err: ReadError)
      requires Valid() && !stream
      modifies this`offset, values
      ensures Valid()
      ensures var r := BulkRead(old(Rem()), values.Length, bits, signed);
        && err == r.status && offset == old(offset) + r.used
        && values[..] == r.written + old(values[..])[|r.written|..]
    {
      hide BulkRead, GroupRead, VarintValue, BulkPending;
      BulkStarts(Rem(), values.Length, bits, signed);
      var pos, i := offset, 0;
      ghost var all, start := BulkRead(Rem(), values.Length, bits, signed), offset;
      ghost var was := values[..];
      ghost var done: seq<int> := [];
      while i < values.Length
        invariant 0 <= i == |done| <= values.Length
        invariant start <= pos <= |buffer| && offset == start
        invariant forall k :: 0 <= k < i ==> values[k] == done[k]
        invariant forall k :: i <= k < values.Length ==> values[k] == was[k]
        invariant BulkPending(all, done, pos - start, BulkRead(buffer[pos..], values.Length - i, bits, signed))
      {
        ghost var at := pos;
        var x;
        x, pos, err := NextGroup(pos);
        BulkStep(all, done, at - start, buffer, at, x, pos, err, values.Length - i, bits, signed);
        if !err.NoError? {
          offset := pos;
          return;
        }
        values[i] := VarintValue(x, bits, signed);
        done, i := done + [values[i]], i + 1;
      }
      BulkDone(all, done, pos - start, buffer[pos..], bits, signed);
      offset := pos;
      return NoError;
    }

    /** The body of the unrolled loop: decodes the group at `pos` without touching the reader. */
    method NextGroup(pos: nat) returns (x: nat, next: nat, err: ReadError)
      requires pos <= |buffer|
      ensures pos <= next <= |buffer| && GroupRead(buffer, pos, x, next, err)
    {
      hide Accumulate, Pow128, Sum7, ReadGroup;
      ghost var rem := buffer[pos..];
      LiftStarts(rem);
      UsedInRange(rem);
      if pos >= |buffer| {
        assert rem == [];
        return 0, pos, Eof;
      }
      var b := buffer[pos];
      next := pos + 1;
      if b < 0x80 {
        OneByte(rem);
        assert rem[1..] == buffer[next..];
        return b, next, NoError;
      }
      if next < |buffer| && buffer[next] < 0x80 {
        TwoBytes(rem);
        assert rem[2..] == buffer[next + 1..];
        return Or(b % 128, (buffer[next] as int) * 128), next + 1, NoError;
      }
      x, next, err := NextLongGroup(pos);
    }

    /** The inner loop, for groups that need more than the inline cases. */
    method NextLongGroup(pos: nat) returns (x: nat, next: nat, err: ReadError)
      requires pos < |buffer| && buffer[pos] >= 128
      ensures pos <= next <= |buffer| && GroupRead(buffer, pos, x, next, err)
    {
      hide Accumulate, Pow128, Sum7, ReadGroup, Lift;
      ghost var rem := buffer[pos..];
      LiftStarts(rem);
      UsedInRange(rem);
      var b := buffer[pos];
      next := pos + 1;
      LiftContinues(0, 0, rem, 10);
      assert rem[1..] == buffer[next..];
      x := b % 128;
      var i := 1;
      LiftOne(b % 128, rem[1..]);
      while i < 10
        invariant 1 <= i <= 10 && next == pos + i && next <= |buffer|
        invariant i <= 9 ==> x < Pow128(i) && ReadGroup(rem, 10) == Lift(x, i, ReadGroup(buffer[next..], 10 - i))
        invariant i == 10 ==> ReadGroup(rem, 10) == Fail
      {
        if next >= |buffer| {
          assert buffer[next..] == [];
          return x, next, Eof;
        }
        ghost var before := buffer[next..];
        b := buffer[next];
        next := next + 1;
        assert before[1..] == buffer[next..] && before[0] == b;
        if b < 0x80 {
          LiftEnds(x, i, before, 10 - i);
          if i == 9 && b > 1 {
            return x, next, Overflow;
          }
          AccumulateAdds(x, b, i);
          x := Accumulate(x, b, i);
          return x, next, NoError;
        }
        LiftContinues(x, i, before, 10 - i);
        if i < 9 {
          AccumulateAdds(x, b % 128, i);
        }
        x := Accumulate(x, b % 128, i);
        i := i + 1;
      }
      return x, next, Overflow;
    }
  }
}
