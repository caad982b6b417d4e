/**
 Sorted integers as differences of neighbours. A slice is sorted in place, each element is written as
 the wrap-around difference from the one before, and the number of elements is not on the wire: the
 reader counts the bytes that end a varint.
 */
module SortedInts {
  import opened Wire
  import opened Varint
  import opened Codec
  import opened Destination
  import opened Permutation
  import opened RoundTrip
  import D = Decoder
  import E = Encoder

  // ---------------------------------------------------------------- machine words

  /** Go's 64-bit arithmetic: `int64` or `uint64`. */
  function Word(signed: bool, v: int): int {
    if signed then WrapSigned(v, 64) else v % TWO64
  }

  /** The values of an element type. */
  predicate Fits(signed: bool, bits: nat, v: int) {
    if signed then InSigned(v, bits) else 0 <= v < Modulus(bits)
  }

  /** The conversion `T(prev)`. */
  function Narrow(signed: bool, bits: nat, v: int): int {
    if signed then WrapSigned(v, bits) else v % Modulus(bits)
  }

  /** The number on the wire for a difference. */
  function Coded(signed: bool, d: int): (u: nat)
    ensures u < TWO64
  {
    if signed then
      ZigZagBijection(WrapSigned(d, 64), 0);
      ZigZag(WrapSigned(d, 64))
    else d % TWO64
  }

  function Decoded(signed: bool, u: nat): int {
    if signed then UnZigZag(u) else u
  }

  /** Adding a decoded difference to the word before gives the word back, however the difference wrapped. */
  lemma Telescopes(signed: bool, bits: nat, prev: int, v: int)
    requires IsIntWidth(bits) && Fits(signed, bits, v)
    ensures Word(signed, prev + Decoded(signed, Coded(signed, v - prev))) == v
    ensures Narrow(signed, bits, v) == v
  {
    NarrowFits(signed, bits, v);
    hide Narrow;
    if signed {
      ZigZagBijection(WrapSigned(v - prev, 64), 0);
      hide WrapSigned, ZigZag, UnZigZag;
      Rewind(prev, v);
    } else {
      RewindUnsigned(prev, v);
    }
  }

  lemma NarrowFits(signed: bool, bits: nat, v: int)
    requires IsIntWidth(bits) && Fits(signed, bits, v)
    ensures Narrow(signed, bits, v) == v
    ensures if signed then IsInt64(v) else 0 <= v < TWO64
  {
  }

  lemma RewindUnsigned(prev: int, v: nat)
    requires v < TWO64
    ensures (prev + (v - prev) % TWO64) % TWO64 == v
  {
    var q := (v - prev) / TWO64;
    assert v - prev == q * TWO64 + (v - prev) % TWO64;
    Shifted(v, q);
  }

  lemma Rewind(prev: int, v: int)
    requires IsInt64(v)
    ensures WrapSigned(prev + WrapSigned(v - prev, 64), 64) == v
  {
    var half := TWO64 / 2;
    var r := (v - prev + half) % TWO64;
    var q := (v - prev + half) / TWO64;
    assert v - prev + half == q * TWO64 + r;
    assert prev + (r - half) + half == v + half - q * TWO64;
    Shifted(v + half, q);
  }

  lemma Shifted(x: nat, q: int)
    requires x < TWO64
    ensures (x - q * TWO64) % TWO64 == x
  {
  }

  // ---------------------------------------------------------------- the stream of differences

  function Deltas(signed: bool, xs: seq<int>, prev: int): (b: bytes)
    ensures |xs| <= |b|
  {
    if xs == [] then [] else Uvarint(Coded(signed, xs[0] - prev)) + Deltas(signed, xs[1..], xs[0])
  }

  /** Reads differences until the bytes run out. */
  function ReadDeltas(signed: bool, bits: nat, b: bytes, prev: int): Parsed<seq<int>>
    decreases |b|
  {
    if b == [] then Ok([], [])
    else
      var u := ReadUvarint(b);
      if u.Fail? then Fail
      else
        ReadUvarintShape(b);
        var next := Word(signed, prev + Decoded(signed, u.val));
        var (xs, r) :- ReadDeltas(signed, bits, u.rest, next);
        Ok([Narrow(signed, bits, next)] + xs, r)
  }

  /** Differences round-trip for every element width, even when they wrap around 64 bits. */
  lemma {:induction false} DeltasRoundTrip(signed: bool, bits: nat, xs: seq<int>, prev: int)
    requires IsIntWidth(bits) && forall k :: 0 <= k < |xs| ==> Fits(signed, bits, xs[k])
    ensures ReadDeltas(signed, bits, Deltas(signed, xs, prev), prev) == Ok(xs, [])
  {
    if xs != [] {
      var u := Coded(signed, xs[0] - prev);
      UvarintRoundTrip(u, Deltas(signed, xs[1..], xs[0]));
      Telescopes(signed, bits, prev, xs[0]);
      DeltasRoundTrip(signed, bits, xs[1..], xs[0]);
      assert [xs[0]] + xs[1..] == xs;
    }
  }

  // ---------------------------------------------------------------- counting elements

  /** The bytes that end a varint. */
  function Terminators(b: bytes): (n: nat)
    ensures n <= |b|
  {
    if b == [] then 0 else (if b[0] < 0x80 then 1 else 0) + Terminators(b[1..])
  }

  lemma {:induction false} TerminatorsOfGroup(b: bytes, k: nat)
    requires ReadGroup(b, k).Ok?
    ensures Terminators(b) == 1 + Terminators(ReadGroup(b, k).rest)
  {
    if b[0] >= 128 {
      TerminatorsOfGroup(b[1..], k - 1);
    }
  }

  /** Every successful read of a varint accounts for one terminator. */
  lemma OneTerminator(b: bytes)
    requires ReadUvarint(b).Ok?
    ensures Terminators(b) == 1 + Terminators(ReadUvarint(b).rest)
  {
    TerminatorsOfGroup(b, 10);
  }

  /** Counting terminators counts elements, whenever the bytes decode at all. */
  lemma {:induction false} CountIsLength(signed: bool, bits: nat, b: bytes, prev: int)
    requires ReadDeltas(signed, bits, b, prev).Ok?
    ensures |ReadDeltas(signed, bits, b, prev).val| == Terminators(b)
    ensures ReadDeltas(signed, bits, b, prev).rest == []
    decreases |b|
  {
    if b != [] {
      var u := ReadUvarint(b);
      ReadUvarintShape(b);
      OneTerminator(b);
      CountIsLength(signed, bits, u.rest, Word(signed, prev + Decoded(signed, u.val)));
    }
  }

  method CountVarints(b: bytes) returns (count: nat)
    ensures count == Terminators(b)
  {
    count := 0;
    assert b[0..] == b;
    for i := 0 to |b|
      invariant Terminators(b) == count + Terminators(b[i..])
    {
      assert b[i..][0] == b[i] && b[i..][1..] == b[i + 1..];
      if b[i] < 0x80 {
        count := count + 1;
      }
    }
  }

  // ---------------------------------------------------------------- encoding

  /** `appendIntDeltas` and `appendUintDeltas`, which differ in the word they compute with. */
  method AppendDeltas(signed: bool, dst: bytes, data: array<int>) returns (buffer: bytes)
    ensures buffer == dst + Deltas(signed, data[..], 0)
  {
    hide Coded, Uvarint;
    var prev := 0;
    buffer := dst;
    ghost var all := data[..];
    assert all[0..] == all;
    for i := 0 to data.Length
      invariant dst + Deltas(signed, all, 0) == buffer + Deltas(signed, all[i..], prev)
    {
      var curr := data[i];
      assert all[i..][0] == curr && all[i..][1..] == all[i + 1..];
      DeltasStep(signed, all[i..], prev);
      buffer := buffer + Uvarint(Coded(signed, curr - prev));
      prev := curr;
    }
    assert all[data.Length..] == [];
  }

  lemma DeltasStep(signed: bool, xs: seq<int>, prev: int)
    requires xs != []
    ensures Deltas(signed, xs, prev) == Uvarint(Coded(signed, xs[0] - prev)) + Deltas(signed, xs[1..], xs[0])
  {
  }

  /** What the slice holds once it is encoded: sorted if it was not. */
  function InOrder(xs: seq<int>, script: Script): (r: seq<int>)
    requires Sorts(xs, script)
    ensures Sorted(r) && |r| == |xs|
  {
    if Sorted(xs) then xs else Apply(xs, script)
  }

  function EncSorted(signed: bool, xs: seq<int>): bytes {
    Blob(Deltas(signed, xs, 0))
  }

  // A difference takes at most ten bytes.
  lemma {:induction false} DeltasSize(signed: bool, xs: seq<int>, prev: int)
    ensures |Deltas(signed, xs, prev)| <= 10 * |xs|
  {
    if xs != [] {
      SizeAtMostTen(Coded(signed, xs[0] - prev));
      UvarintShape(Coded(signed, xs[0] - prev));
      DeltasSize(signed, xs[1..], xs[0]);
    }
  }

  /** `deltaSliceCodec.EncodeTo`: sorts the caller's slice in place, then writes it as one blob. */
  method EncodeSorted(e: E.Encoder, signed: bool, a: array<int>, script: Script)
    requires e.Valid() && a.Length <= MAX_INT / 10 && Sorts(a[..], script)
    requires a as object != e.scratch
    modifies a, e, e.out, e.scratch
    ensures e.Valid() && a[..] == InOrder(old(a[..]), script)
    ensures E.Emits(old(e.State()), e.State(), EncSorted(signed, a[..]))
  {
    SortInPlace(a, script);
    var buffer := AppendDeltas(signed, [], a);
    assert [] + Deltas(signed, a[..], 0) == Deltas(signed, a[..], 0);
    DeltasSize(signed, a[..], 0);
    e.WriteBlob(buffer);
  }

  method SortInPlace(a: array<int>, script: Script)
    requires Sorts(a[..], script)
    modifies a
    ensures a[..] == InOrder(old(a[..]), script)
  {
    var sorted := IsSorted(a);
    if !sorted {
      Sort(a, script);
    }
  }

  // ---------------------------------------------------------------- decoding

  /** `decodeIntDeltas` and `decodeUintDeltas`. */
  method DecodeDeltas(signed: bool, bits: nat, dst: array<int>, count: nat, data: bytes) returns (ok: bool)
    requires count == Terminators(data) && count <= dst.Length
    modifies dst
    ensures ok <==> ReadDeltas(signed, bits, data, 0).Ok?
    ensures ok ==> dst[..count] == ReadDeltas(signed, bits, data, 0).val
    ensures dst[count..] == old(dst[count..])
  {
    hide Narrow, Word, Decoded, ReadUvarint, Terminators;
    ghost var all, done := ReadDeltas(signed, bits, data, 0), [];
    var prev, i, j := 0, 0, 0;
    assert data[0..] == data;
    OntoNone(all);
    while i < |data|
      invariant 0 <= i <= |data| && 0 <= j <= count
      invariant count == j + Terminators(data[i..])
      invariant |done| == j && forall k :: 0 <= k < j ==> dst[k] == done[k]
      invariant all == Onto(done, ReadDeltas(signed, bits, data[i..], prev))
      invariant forall k :: count <= k < dst.Length ==> dst[k] == old(dst[k])
    {
      ReadStep(signed, bits, data, i, done, prev);
      var diff := ReadUvarint(data[i..]);
      if diff.Fail? {
        return false;
      }
      var n := |data[i..]| - |diff.rest|;
      prev := Word(signed, prev + Decoded(signed, diff.val));
      dst[j] := Narrow(signed, bits, prev);
      done := done + [dst[j]];
      i, j := i + n, j + 1;
    }
    assert data[i..] == [];
    assert done + [] == done;
    return true;
  }

  lemma ReadStep(signed: bool, bits: nat, data: bytes, i: nat, done: seq<int>, prev: int)
    requires i < |data|
    ensures var u := ReadUvarint(data[i..]);
      && (u.Fail? ==> ReadDeltas(signed, bits, data[i..], prev).Fail?)
      && (u.Ok? ==>
            var next := Word(signed, prev + Decoded(signed, u.val));
            var n := |data[i..]| - |u.rest|;
            && 0 < n <= |data| - i && data[i + n..] == u.rest
            && Terminators(data[i..]) == 1 + Terminators(data[i + n..])
            && Onto(done, ReadDeltas(signed, bits, data[i..], prev)) ==
               Onto(done + [Narrow(signed, bits, next)], ReadDeltas(signed, bits, data[i + n..], next)))
  {
    hide Narrow, Word, Decoded, ReadUvarint;
    var b := data[i..];
    if ReadUvarint(b).Ok? {
      ReadUvarintShape(b);
      OneTerminator(b);
      var u := ReadUvarint(b);
      var n := |b| - |u.rest|;
      assert b[n..] == data[i + n..];
      var next := Word(signed, prev + Decoded(signed, u.val));
      match ReadDeltas(signed, bits, u.rest, next)
      case Fail =>
      case Ok(xs, _) =>
        assert done + ([Narrow(signed, bits, next)] + xs) == (done + [Narrow(signed, bits, next)]) + xs;
    }
  }

  function DecSorted(stream: bool, signed: bool, bits: nat, b: bytes): Parsed<seq<int>> {
    var (body, r) :- ReadBlobFrom(stream, b);
    var (xs, _) :- ReadDeltas(signed, bits, body, 0);
    Ok(xs, r)
  }

  /** `deltaSliceCodec.DecodeTo`, into a slice whose memory is reused when it is large enough. */
  method DecodeSorted(d: D.Decoder, signed: bool, bits: nat, dst: array<int>)
    returns (ok: bool, out: array<int>, len: nat)
    requires d.reader.Valid()
    modifies d.reader`offset, dst
    ensures d.reader.Valid() && (out == dst || fresh(out)) && len <= out.Length
    ensures var g := DecSorted(d.reader.stream, signed, bits, old(d.Rem()));
      ok == g.Ok? && (ok ==> out[..len] == g.val && d.Rem() == g.rest)
  {
    hide ReadDeltas;
    var n, body;
    out, len := dst, 0;
    ok, n := d.ReadLen();
    if !ok {
      return;
    }
    if n == 0 {
      NoDeltas(signed, bits);
      assert d.Rem()[..0] == [] && d.Rem()[0..] == d.Rem();
      return;
    }
    ok, body := d.ReadBytes(n);
    if !ok {
      return;
    }
    var count := CountVarints(body);
    if dst.Length < count {
      out := new int[count](_ => 0);
    }
    ok := DecodeDeltas(signed, bits, out, count, body);
    len := count;
  }

  lemma NoWords()
    ensures forall signed, prev :: Deltas(signed, [], prev) == []
  {
  }

  lemma NoDeltas(signed: bool, bits: nat)
    ensures ReadDeltas(signed, bits, [], 0) == Ok([], [])
  {
  }

  // ---------------------------------------------------------------- the laws

  /**
   Whatever swaps the sort makes: the slice ends sorted with the same elements and decoding returns it
   before any suffix. Any list with these elements, this one again included, ends as the same slice.
   */
  lemma SortedRoundTrip(stream: bool, signed: bool, bits: nat, xs: seq<int>, script: Script, rest: bytes)
    requires IsIntWidth(bits) && Sorts(xs, script) && forall k :: 0 <= k < |xs| ==> Fits(signed, bits, xs[k])
    requires 10 * |xs| <= MAX_LEN
    ensures var ys := InOrder(xs, script);
      && multiset(ys) == multiset(xs) && Sorted(ys)
      && DecSorted(stream, signed, bits, EncSorted(signed, ys) + rest) == Ok(ys, rest)
      && forall zs, again :: multiset(zs) == multiset(ys) && Sorts(zs, again) ==>
           InOrder(zs, again) == ys
  {
    var ys := InOrder(xs, script);
    ApplyPermutes(xs, script);
    forall k | 0 <= k < |ys|
      ensures Fits(signed, bits, ys[k])
    {
      assert ys[k] in multiset(xs);
    }
    forall zs, again | multiset(zs) == multiset(ys) && Sorts(zs, again)
      ensures InOrder(zs, again) == ys
    {
      ApplyPermutes(zs, again);
      SortedUnique(InOrder(zs, again), ys);
    }
    hide Fits, Deltas, ReadDeltas;
    DeltasRoundTrip(signed, bits, ys, 0);
    DeltasSize(signed, ys, 0);
    BlobRoundTrip(Deltas(signed, ys, 0), rest);
  }

  /** The bytes depend only on which elements there are, not on their order nor on the sort. */
  lemma SortedCanonical(signed: bool, xs: seq<int>, ys: seq<int>, p: Script, q: Script)
    requires Sorts(xs, p) && Sorts(ys, q) && multiset(xs) == multiset(ys)
    ensures EncSorted(signed, InOrder(xs, p)) == EncSorted(signed, InOrder(ys, q))
  {
    ApplyPermutes(xs, p);
    ApplyPermutes(ys, q);
    SortedUnique(InOrder(xs, p), InOrder(ys, q));
  }

  /** The elements of a plain `[]uint64`. */
  function Uints(xs: seq<int>): seq<Value> {
    if xs == [] then [] else [VUint(if xs[0] >= 0 then xs[0] else 0)] + Uints(xs[1..])
  }

  /** Sorted unsigned numbers never take more room as differences than as they are. */
  lemma {:induction false} DeltasNoLonger(xs: seq<int>, prev: int)
    requires Sorted(xs) && 0 <= prev && forall k :: 0 <= k < |xs| ==> prev <= xs[k] < TWO64
    ensures |Deltas(false, xs, prev)| <= |EncMany(Prim(KUint(64, false)), Uints(xs))|
  {
    if xs != [] {
      var d := xs[0] - prev;
      assert d % TWO64 == d;
      UvarintShape(d);
      UvarintShape(xs[0]);
      SizeMonotone(d, xs[0]);
      DeltasNoLonger(xs[1..], xs[0]);
      var c, vs := Prim(KUint(64, false)), Uints(xs);
      assert vs[1..] == Uints(xs[1..]) && Enc(c, vs[0]) == Uvarint(xs[0]);
    }
  }

  // ---------------------------------------------------------------- a known number of differences

  /** Reads `n` differences of unsigned words; bytes may be left over. */
  function ReadWords(n: nat, b: bytes, prev: int): Parsed<seq<int>> {
    if n == 0 then Ok([], b)
    else
      var (u, r) :- ReadUvarint(b);
      var next := (prev + u) % TWO64;
      var (xs, r2) :- ReadWords(n - 1, r, next);
      Ok([next] + xs, r2)
  }

  lemma {:induction false} ReadWordsShape(n: nat, b: bytes, prev: int)
    requires ReadWords(n, b, prev).Ok?
    ensures var r := ReadWords(n, b, prev);
      |r.val| == n && IsSuffix(r.rest, b) && n <= |b| - |r.rest|
  {
    if n > 0 {
      var u := ReadUvarint(b);
      ReadUvarintShape(b);
      ReadWordsShape(n - 1, u.rest, (prev + u.val) % TWO64);
      SuffixTrans(ReadWords(n, b, prev).rest, u.rest, b);
    }
  }

  lemma {:induction false} WordsDeltas(xs: seq<int>, prev: int, rest: bytes)
    requires forall k :: 0 <= k < |xs| ==> 0 <= xs[k] < TWO64
    ensures ReadWords(|xs|, Deltas(false, xs, prev) + rest, prev) == Ok(xs, rest)
  {
    if xs == [] {
      assert Deltas(false, xs, prev) + rest == rest;
    } else {
      var u := Coded(false, xs[0] - prev);
      var tail := Deltas(false, xs[1..], xs[0]) + rest;
      assert Deltas(false, xs, prev) + rest == Uvarint(u) + tail;
      UvarintRoundTrip(u, tail);
      RewindUnsigned(prev, xs[0]);
      WordsDeltas(xs[1..], xs[0], rest);
      assert [xs[0]] + xs[1..] == xs;
    }
  }

  /** `readDelta`: fills `n` slots and says how many bytes it used. */
  method ReadDelta(dst: array<int>, n: nat, src: bytes) returns (ok: bool, read: nat)
    requires n <= dst.Length
    modifies dst
    ensures read <= |src| && dst[n..] == old(dst[n..])
    ensures ok <==> ReadWords(n, src, 0).Ok?
    ensures ok ==> dst[..n] == ReadWords(n, src, 0).val && src[read..] == ReadWords(n, src, 0).rest
  {
    hide ReadUvarint;
    ghost var all, done := ReadWords(n, src, 0), [];
    var prev := 0;
    read := 0;
    assert src[0..] == src;
    OntoNone(all);
    for i := 0 to n
      invariant read <= |src| && |done| == i && forall k :: 0 <= k < i ==> dst[k] == done[k]
      invariant all == Onto(done, ReadWords(n - i, src[read..], prev))
      invariant forall k :: n <= k < dst.Length ==> dst[k] == old(dst[k])
    {
      WordsStep(n - i, src, read, done, prev);
      var diff := ReadUvarint(src[read..]);
      if diff.Fail? {
        return false, read;
      }
      read := read + (|src[read..]| - |diff.rest|);
      prev := (prev + diff.val) % TWO64;
      dst[i] := prev;
      done := done + [prev];
    }
    assert done + [] == done;
    return true, read;
  }

  lemma WordsStep(n: nat, src: bytes, read: nat, done: seq<int>, prev: int)
    requires n > 0 && read <= |src|
    ensures var u := ReadUvarint(src[read..]);
      && (u.Fail? ==> ReadWords(n, src[read..], prev).Fail?)
      && (u.Ok? ==>
            var next := (prev + u.val) % TWO64;
            var used := |src[read..]| - |u.rest|;
            && 0 < used <= |src| - read && src[read + used..] == u.rest
            && Onto(done, ReadWords(n, src[read..], prev)) ==
               Onto(done + [next], ReadWords(n - 1, src[read + used..], next)))
  {
    hide ReadUvarint;
    var b := src[read..];
    if ReadUvarint(b).Ok? {
      ReadUvarintShape(b);
      var u := ReadUvarint(b);
      assert b[|b| - |u.rest|..] == src[read + (|b| - |u.rest|)..];
      var next := (prev + u.val) % TWO64;
      match ReadWords(n - 1, u.rest, next)
      case Fail =>
      case Ok(xs, _) => assert done + ([next] + xs) == (done + [next]) + xs;
    }
  }

  // ---------------------------------------------------------------- timestamps

  function EncStamps(xs: seq<int>): bytes {
    Uvarint(|xs|) + Blob(Deltas(false, xs, 0))
  }

  function DecStamps(stream: bool, b: bytes): Parsed<seq<int>> {
    var (n, b1) :- ReadLength(b);
    var (size, b2) :- ReadLength(b1);
    if n > size then Fail
    else
      var (buffer, r) :- SliceFrom(stream, size, b2);
      var (xs, _) :- ReadWords(n, buffer, 0);
      Ok(xs, r)
  }

  /** `timestampCodec.EncodeTo` */
  method EncodeStamps(e: E.Encoder, a: array<int>, script: Script)
    requires e.Valid() && a.Length <= MAX_INT / 10 && Sorts(a[..], script)
    requires a as object != e.scratch
    modifies a, e, e.out, e.scratch
    ensures e.Valid() && a[..] == InOrder(old(a[..]), script)
    ensures E.Emits(old(e.State()), e.State(), EncStamps(a[..]))
  {
    ghost var p := e.State();
    SortInPlace(a, script);
    var buffer := AppendDeltas(false, [], a);
    assert [] + Deltas(false, a[..], 0) == Deltas(false, a[..], 0);
    DeltasSize(false, a[..], 0);
    e.WriteUvarint(a.Length);
    ghost var q := e.State();
    e.WriteBlob(buffer);
    E.EmitsBoth(p, q, e.State(), Uvarint(a.Length), Blob(buffer));
  }

  /** `timestampCodec.DecodeTo` */
  method DecodeStamps(d: D.Decoder, dst: array<int>) returns (ok: bool, out: array<int>, len: nat)
    requires d.reader.Valid()
    modifies d.reader`offset, dst
    ensures d.reader.Valid() && (out == dst || fresh(out)) && len <= out.Length
    ensures var g := DecStamps(d.reader.stream, old(d.Rem()));
      ok == g.Ok? && (ok ==> out[..len] == g.val && d.Rem() == g.rest)
  {
    hide ReadWords, ReadLength;
    var n, size, buffer, read;
    out, len := dst, 0;
    ok, n := d.ReadLen();
    if !ok {
      return;
    }
    ok, size := d.ReadLen();
    if !ok || n > size {
      return false, dst, 0;
    }
    ok, buffer := d.ReadBytes(size);
    if !ok {
      return;
    }
    if dst.Length < n {
      out := new int[n](_ => 0);
    }
    ok, read := ReadDelta(out, n, buffer);
    len := n;
  }

  /** The same law for timestamps; the early check never rejects what an encoder wrote. */
  lemma StampsRoundTrip(stream: bool, xs: seq<int>, script: Script, rest: bytes)
    requires Sorts(xs, script) && forall k :: 0 <= k < |xs| ==> 0 <= xs[k] < TWO64
    requires 10 * |xs| <= MAX_LEN
    ensures var ys := InOrder(xs, script);
      && multiset(ys) == multiset(xs) && Sorted(ys)
      && DecStamps(stream, EncStamps(ys) + rest) == Ok(ys, rest)
  {
    var ys := InOrder(xs, script);
    ApplyPermutes(xs, script);
    forall k | 0 <= k < |ys|
      ensures 0 <= ys[k] < TWO64
    {
      assert ys[k] in multiset(xs);
    }
    StampsWire(stream, ys, rest);
  }

  lemma StampsWire(stream: bool, xs: seq<int>, rest: bytes)
    requires 10 * |xs| <= MAX_LEN && forall k :: 0 <= k < |xs| ==> 0 <= xs[k] < TWO64
    ensures DecStamps(stream, EncStamps(xs) + rest) == Ok(xs, rest)
  {
    hide Deltas, ReadWords, ReadLength, Uvarint;
    var body := Deltas(false, xs, 0);
    DeltasSize(false, xs, 0);
    WordsDeltas(xs, 0, []);
    assert body + [] == body;
    assert EncStamps(xs) + rest == Uvarint(|xs|) + (Uvarint(|body|) + (body + rest));
    LengthRoundTrip(|xs|, Uvarint(|body|) + (body + rest));
    LengthRoundTrip(|body|, body + rest);
    TakePrefix(body, rest);
  }

  /** Nor does it reject anything the element loop would accept. */
  lemma StampsCheckSound(n: nat, buffer: bytes)
    requires ReadWords(n, buffer, 0).Ok?
    ensures n <= |buffer|
  {
    ReadWordsShape(n, buffer, 0);
  }
}
