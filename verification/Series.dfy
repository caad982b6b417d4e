/**
 Time series and time counters: two parallel lists sorted together by time, and two streams in one
 buffer whose boundary is not on the wire. Values are 32-bit float patterns, bit-reversed and XORed
 with their predecessor, or 64-bit counters written as differences.
 */
module Series {
  import opened Wire
  import opened Bits
  import opened Varint
  import opened Codec
  import opened Destination
  import opened Permutation
  import opened RoundTrip
  import opened SortedInts
  import D = Decoder
  import E = Encoder

  datatype Kind = Floats | Counters

  const TWO32 := 0x1_0000_0000

  predicate ValueFits(k: Kind, v: int) {
    0 <= v < if k.Floats? then TWO32 else TWO64
  }

  // ---------------------------------------------------------------- XOR streams

  /** `bits.Reverse32` of a float's pattern. */
  function Flipped(v: nat): nat {
    Reverse(v % TWO32, 32)
  }

  lemma FlippedTwice(v: nat)
    requires v < TWO32
    ensures Flipped(v) < TWO32 && Flipped(Flipped(v)) == v
  {
    hide Pow2, Reverse;
    PowerOf32();
    ReverseBound(v, 32);
    ReverseInvolution(v, 32);
  }

  lemma PowerOf32()
    ensures Pow2(32) == TWO32
  {
    assert Pow2(4) == 16;
    hide Pow2;
    Pow2Add(4, 4);
    Pow2Add(8, 8);
    Pow2Add(16, 16);
  }

  function Xors(vs: seq<int>, prev: nat): (b: bytes)
    ensures |vs| <= |b|
  {
    if vs == [] then []
    else
      var curr := Flipped(if vs[0] >= 0 then vs[0] else 0);
      Uvarint(Xor(curr, prev)) + Xors(vs[1..], curr)
  }

  function ReadXors(n: nat, b: bytes, prev: nat): Parsed<seq<int>> {
    if n == 0 then Ok([], b)
    else
      var (diff, r) :- ReadUvarint(b);
      var curr := Xor(prev, diff);
      var (vs, r2) :- ReadXors(n - 1, r, curr);
      Ok([Flipped(curr)] + vs, r2)
  }

  lemma {:induction false} XorCommutes(x: nat, y: nat)
    ensures Xor(x, y) == Xor(y, x)
    decreases x + y
  {
    if x != 0 && y != 0 {
      XorCommutes(x / 2, y / 2);
    }
  }

  /** The XOR of neighbours undone: what was written comes back. */
  lemma XorUndone(v: nat, prev: nat)
    requires v < TWO32 && prev < TWO32
    ensures var diff := Xor(Flipped(v), prev);
      diff < TWO32 && Xor(prev, diff) == Flipped(v) < TWO32 && Flipped(Xor(prev, diff)) == v
  {
    hide Pow2, Flipped, Xor;
    FlippedTwice(v);
    FlippedTwice(0);
    PowerOf32();
    XorBound(Flipped(v), prev, 32);
    XorCommutes(prev, Xor(Flipped(v), prev));
    XorSelfInverse(Flipped(v), prev);
  }

  lemma {:induction false} XorsRoundTrip(vs: seq<int>, prev: nat, rest: bytes)
    requires prev < TWO32 && forall k :: 0 <= k < |vs| ==> 0 <= vs[k] < TWO32
    ensures ReadXors(|vs|, Xors(vs, prev) + rest, prev) == Ok(vs, rest)
  {
    hide Flipped, Xor, ReadUvarint, Uvarint;
    if vs == [] {
      assert Xors(vs, prev) + rest == rest;
    } else {
      var curr := Flipped(vs[0]);
      var diff := Xor(curr, prev);
      var tail := Xors(vs[1..], curr) + rest;
      assert Xors(vs, prev) + rest == Uvarint(diff) + tail;
      XorUndone(vs[0], prev);
      UvarintRoundTrip(diff, tail);
      XorsRoundTrip(vs[1..], curr, rest);
      assert [vs[0]] + vs[1..] == vs;
    }
  }

  lemma {:induction false} XorsSize(vs: seq<int>, prev: nat)
    requires prev < TWO32 && forall k :: 0 <= k < |vs| ==> 0 <= vs[k] < TWO32
    ensures |Xors(vs, prev)| <= 10 * |vs|
  {
    hide Flipped, Xor, Uvarint;
    if vs != [] {
      XorUndone(vs[0], prev);
      SizeAtMostTen(Xor(Flipped(vs[0]), prev));
      UvarintShape(Xor(Flipped(vs[0]), prev));
      XorsSize(vs[1..], Flipped(vs[0]));
    }
  }

  lemma {:induction false} ReadXorsShape(n: nat, b: bytes, prev: nat)
    requires ReadXors(n, b, prev).Ok?
    ensures var r := ReadXors(n, b, prev);
      |r.val| == n && IsSuffix(r.rest, b) && n <= |b| - |r.rest|
  {
    if n > 0 {
      var u := ReadUvarint(b);
      ReadUvarintShape(b);
      ReadXorsShape(n - 1, u.rest, Xor(prev, u.val));
      SuffixTrans(ReadXors(n, b, prev).rest, u.rest, b);
    }
  }

  // ---------------------------------------------------------------- the two streams

  function Values(k: Kind, vs: seq<int>): (b: bytes)
    ensures |vs| <= |b|
  {
    if k.Floats? then Xors(vs, 0) else Deltas(false, vs, 0)
  }

  function ReadValues(k: Kind, n: nat, b: bytes): Parsed<seq<int>> {
    if k.Floats? then ReadXors(n, b, 0) else ReadWords(n, b, 0)
  }

  function EncSeries(k: Kind, times: seq<int>, values: seq<int>): bytes {
    Uvarint(|times|) + Blob(Deltas(false, times, 0) + Values(k, values))
  }

  /** Nothing says where the first stream ends: the second starts where reading the first stopped. */
  function ReadStreams(k: Kind, n: nat, b: bytes): Parsed<(seq<int>, seq<int>)> {
    var (times, r) :- ReadWords(n, b, 0);
    var (values, r2) :- ReadValues(k, n, r);
    Ok((times, values), r2)
  }

  function DecSeries(stream: bool, k: Kind, b: bytes): Parsed<(seq<int>, seq<int>)> {
    var (n, b1) :- ReadLength(b);
    var (size, b2) :- ReadLength(b1);
    if n > size / 2 then Fail
    else
      var (buffer, r) :- SliceFrom(stream, size, b2);
      var (pairs, _) :- ReadStreams(k, n, buffer);
      Ok(pairs, r)
  }

  lemma ValuesRoundTrip(k: Kind, vs: seq<int>)
    requires forall i :: 0 <= i < |vs| ==> ValueFits(k, vs[i])
    ensures ReadValues(k, |vs|, Values(k, vs)) == Ok(vs, [])
    ensures |Values(k, vs)| <= 10 * |vs|
  {
    hide Deltas, ReadWords, Xors, ReadXors;
    assert Values(k, vs) + [] == Values(k, vs);
    if k.Floats? {
      XorsRoundTrip(vs, 0, []);
      XorsSize(vs, 0);
    } else {
      WordsDeltas(vs, 0, []);
      DeltasSize(false, vs, 0);
    }
  }

  // ---------------------------------------------------------------- the classes

  /** `TimeSeries` and `TimeCounters`. */
  class Pairs {
    var time: seq<int>
    var data: seq<int>

    constructor ()
      ensures time == [] && data == []
    {
      time, data := [], [];
    }

    method Append(t: int, v: int)
      modifies this
      ensures time == old(time) + [t] && data == old(data) + [v]
    {
      time, data := time + [t], data + [v];
    }

    function Len(): nat
      reads this
    {
      |time|
    }

    predicate Less(i: nat, j: nat)
      requires i < Len() && j < Len()
      reads this
    {
      time[i] < time[j]
    }

    method Swap(i: nat, j: nat)
      requires i < Len() == |data| && j < Len()
      modifies this
      ensures time == Swapped(old(time), i, j) && data == Swapped(old(data), i, j)
    {
      time := time[i := time[j]][j := time[i]];
      data := data[i := data[j]][j := data[i]];
    }

    /** `sort.Sort` on the pair of lists. */
    method Sort(script: Script)
      requires Len() == |data| && InRange(script, Len())
      modifies this
      ensures time == Apply(old(time), script) && data == Apply(old(data), script)
    {
      ghost var ts, vs := time, data;
      assert script[0..] == script;
      for k := 0 to |script|
        invariant |time| == |data| == |ts|
        invariant Apply(time, script[k..]) == Apply(ts, script)
        invariant Apply(data, script[k..]) == Apply(vs, script)
      {
        assert script[k..][1..] == script[k + 1..];
        Swap(script[k].0, script[k].1);
      }
      assert script[|script|..] == [];
    }

    method TimesSorted() returns (r: bool)
      ensures r <==> Sorted(time)
    {
      var i := 1;
      while i < Len()
        invariant 1 <= i && (i <= Len() || Len() == 0)
        invariant forall k :: 0 < k < i && k < Len() ==> time[k - 1] <= time[k]
      {
        if Less(i, i - 1) {
          return false;
        }
        i := i + 1;
      }
      AdjacentSorted(time);
      return true;
    }

    /**
     `EncodeTo`: lists of different lengths are refused before anything is touched; otherwise the
     lists are sorted together in place and both streams go out in one blob.
     */
    method EncodeTo(e: E.Encoder, k: Kind, script: Script) returns (ok: bool)
      requires e.Valid() && |time| <= MAX_INT / 20
      requires Sorts(time, script) && forall i :: 0 <= i < |data| ==> ValueFits(k, data[i])
      requires this as object !in {e, e.out, e.scratch}
      modifies this, e, e.out, e.scratch
      ensures e.Valid() && ok == (|old(time)| == |old(data)|)
      ensures !ok ==> time == old(time) && data == old(data) && e.State() == old(e.State())
      ensures ok ==>
        && (time, data) == Together(old(time), old(data), script)
        && E.Emits(old(e.State()), e.State(), EncSeries(k, time, data))
    {
      if |time| != |data| {
        return false;
      }
      var sorted := TimesSorted();
      if !sorted {
        Sort(script);
      }
      DataFits(k, old(data), script);
      WriteStreams(e, k, time, data);
      return true;
    }
  }

  method WriteStreams(e: E.Encoder, k: Kind, times: seq<int>, values: seq<int>)
    requires e.Valid() && |times| == |values| <= MAX_INT / 20
    requires forall i :: 0 <= i < |values| ==> ValueFits(k, values[i])
    modifies e, e.out, e.scratch
    ensures e.Valid() && E.Emits(old(e.State()), e.State(), EncSeries(k, times, values))
  {
    hide Deltas, Values, ValueFits, E.Emits;
    ghost var p := e.State();
    var buffer := AppendDelta([], times);
    buffer := AppendValues(k, buffer, values);
    DeltasSize(false, times, 0);
    ValuesRoundTrip(k, values);
    assert buffer == Deltas(false, times, 0) + Values(k, values);
    e.WriteUvarint(|times|);
    ghost var q := e.State();
    e.WriteBlob(buffer);
    E.EmitsBoth(p, q, e.State(), Uvarint(|times|), Blob(buffer));
  }

  /** Both lists after encoding. */
  function Together(ts: seq<int>, vs: seq<int>, script: Script): (r: (seq<int>, seq<int>))
    requires |ts| == |vs| && Sorts(ts, script)
    ensures |r.0| == |r.1| == |ts| && Sorted(r.0)
  {
    if Sorted(ts) then (ts, vs) else (Apply(ts, script), Apply(vs, script))
  }

  lemma DataFits(k: Kind, vs: seq<int>, script: Script)
    requires InRange(script, |vs|) && forall i :: 0 <= i < |vs| ==> ValueFits(k, vs[i])
    ensures forall i :: 0 <= i < |vs| ==> ValueFits(k, Apply(vs, script)[i])
  {
    ApplyPermutes(vs, script);
    forall i | 0 <= i < |vs|
      ensures ValueFits(k, Apply(vs, script)[i])
    {
      assert Apply(vs, script)[i] in multiset(vs);
    }
  }

  /** `appendDelta` */
  method AppendDelta(dst: bytes, data: seq<int>) returns (buffer: bytes)
    ensures buffer == dst + Deltas(false, data, 0)
  {
    hide Coded, Uvarint;
    var prev := 0;
    buffer := dst;
    assert data[0..] == data;
    for i := 0 to |data|
      invariant dst + Deltas(false, data, 0) == buffer + Deltas(false, data[i..], prev)
    {
      assert data[i..][0] == data[i] && data[i..][1..] == data[i + 1..];
      DeltasStep(false, data[i..], prev);
      buffer := buffer + Uvarint(Coded(false, data[i] - prev));
      prev := data[i];
    }
    assert data[|data|..] == [];
  }

  method AppendValues(k: Kind, dst: bytes, data: seq<int>) returns (buffer: bytes)
    requires forall i :: 0 <= i < |data| ==> ValueFits(k, data[i])
    ensures buffer == dst + Values(k, data)
  {
    if k.Counters? {
      buffer := AppendDelta(dst, data);
      return;
    }
    hide Flipped, Xor, Uvarint;
    var prev := 0;
    buffer := dst;
    assert data[0..] == data;
    for i := 0 to |data|
      invariant dst + Xors(data, 0) == buffer + Xors(data[i..], prev)
    {
      assert data[i..][0] == data[i] && data[i..][1..] == data[i + 1..];
      var curr := Flipped(data[i]);
      XorsStep(data[i..], prev);
      buffer := buffer + Uvarint(Xor(curr, prev));
      prev := curr;
    }
    assert data[|data|..] == [];
  }

  lemma XorsStep(vs: seq<int>, prev: nat)
    requires vs != [] && vs[0] >= 0
    ensures Xors(vs, prev) == Uvarint(Xor(Flipped(vs[0]), prev)) + Xors(vs[1..], Flipped(vs[0]))
  {
  }

  // ---------------------------------------------------------------- decoding

  /** `DecodeTo`, into two slices whose memory is reused when it is large enough. */
  method DecodeSeries(d: D.Decoder, k: Kind, times: array<int>, values: array<int>)
    returns (ok: bool, ts: array<int>, vs: array<int>, len: nat)
    requires d.reader.Valid() && times != values
    modifies d.reader`offset, times, values
    ensures d.reader.Valid() && len <= ts.Length && len <= vs.Length
    ensures (ts == times || fresh(ts)) && (vs == values || fresh(vs))
    ensures var g := DecSeries(d.reader.stream, k, old(d.Rem()));
      ok == g.Ok? && (ok ==> (ts[..len], vs[..len]) == g.val && d.Rem() == g.rest)
  {
    hide ReadWords, ReadXors, ReadLength;
    var n, size, buffer, offset;
    ts, vs, len := times, values, 0;
    ok, n := d.ReadLen();
    if !ok {
      return;
    }
    ok, size := d.ReadLen();
    if !ok || n > size / 2 {
      ok := false;
      return;
    }
    ok, buffer := d.ReadBytes(size);
    if !ok {
      return;
    }
    if times.Length < n {
      ts := new int[n](_ => 0);
    }
    if values.Length < n {
      vs := new int[n](_ => 0);
    }
    len := n;
    ok, offset := ReadDelta(ts, n, buffer);
    if ok {
      ghost var first := ts[..n];
      ok := ReadInto(k, vs, n, buffer[offset..]);
      assert ts[..n] == first;
    }
  }

  method ReadInto(k: Kind, dst: array<int>, n: nat, src: bytes) returns (ok: bool)
    requires n <= dst.Length
    modifies dst
    ensures ok <==> ReadValues(k, n, src).Ok?
    ensures ok ==> dst[..n] == ReadValues(k, n, src).val
  {
    if k.Counters? {
      var read;
      ok, read := ReadDelta(dst, n, src);
      return;
    }
    hide ReadUvarint, Flipped, Xor;
    ghost var all, done := ReadXors(n, src, 0), [];
    var prev: nat, offset: nat := 0, 0;
    assert src[0..] == src;
    OntoNone(all);
    for i := 0 to n
      invariant offset <= |src| && |done| == i && forall k :: 0 <= k < i ==> dst[k] == done[k]
      invariant all == Onto(done, ReadXors(n - i, src[offset..], prev))
    {
      ReadXorsStep(n - i, src, offset, done, prev);
      var diff := ReadUvarint(src[offset..]);
      if diff.Fail? {
        return false;
      }
      offset := offset + (|src[offset..]| - |diff.rest|);
      prev := Xor(prev, diff.val);
      dst[i] := Flipped(prev);
      done := done + [dst[i]];
    }
    assert done + [] == done;
    return true;
  }

  lemma ReadXorsStep(n: nat, src: bytes, offset: nat, done: seq<int>, prev: nat)
    requires n > 0 && offset <= |src|
    ensures var u := ReadUvarint(src[offset..]);
      && (u.Fail? ==> ReadXors(n, src[offset..], prev).Fail?)
      && (u.Ok? ==>
            var next := Xor(prev, u.val);
            var used := |src[offset..]| - |u.rest|;
            && 0 < used <= |src| - offset && src[offset + used..] == u.rest
            && Onto(done, ReadXors(n, src[offset..], prev)) ==
               Onto(done + [Flipped(next)], ReadXors(n - 1, src[offset + used..], next)))
  {
    hide ReadUvarint, Xor, Flipped;
    var b := src[offset..];
    if ReadUvarint(b).Ok? {
      ReadUvarintShape(b);
      var u := ReadUvarint(b);
      assert b[|b| - |u.rest|..] == src[offset + (|b| - |u.rest|)..];
      var next := Xor(prev, u.val);
      match ReadXors(n - 1, u.rest, next)
      case Fail =>
      case Ok(xs, _) => assert done + ([Flipped(next)] + xs) == (done + [Flipped(next)]) + xs;
    }
  }

  // ---------------------------------------------------------------- the laws

  /**
   Whatever swaps the sort makes, encoding leaves the times sorted and moves every value with its
   time; decoding returns both lists before any suffix, and so the same pairs as a multiset. (Sorted
   times are not sorted again, so what was decoded is encoded to the same bytes.)
   */
  lemma SeriesRoundTrip(stream: bool, k: Kind, ts: seq<int>, vs: seq<int>, script: Script, rest: bytes)
    requires |ts| == |vs| && Sorts(ts, script) && 20 * |ts| <= MAX_LEN
    requires forall i :: 0 <= i < |ts| ==> 0 <= ts[i] < TWO64 && ValueFits(k, vs[i])
    ensures var (ts2, vs2) := Together(ts, vs, script);
      && Sorted(ts2) && multiset(Zip(ts2, vs2)) == multiset(Zip(ts, vs))
      && DecSeries(stream, k, EncSeries(k, ts2, vs2) + rest) == Ok((ts2, vs2), rest)
  {
    var (ts2, vs2) := Together(ts, vs, script);
    ApplyZip(ts, vs, script);
    ApplyPermutes(Zip(ts, vs), script);
    DataFits(k, vs, script);
    DataFits(Counters, ts, script);
    hide Together, Apply, Zip, Sorted;
    WireRoundTrip(stream, k, ts2, vs2, rest);
  }

  /** The boundary between the streams is recovered, and the early check lets the payload through. */
  lemma WireRoundTrip(stream: bool, k: Kind, ts: seq<int>, vs: seq<int>, rest: bytes)
    requires |ts| == |vs| && 20 * |ts| <= MAX_LEN
    requires forall i :: 0 <= i < |ts| ==> 0 <= ts[i] < TWO64 && ValueFits(k, vs[i])
    ensures DecSeries(stream, k, EncSeries(k, ts, vs) + rest) == Ok((ts, vs), rest)
  {
    hide Deltas, Values, ReadWords, ReadValues, ReadLength, Uvarint;
    var first, second := Deltas(false, ts, 0), Values(k, vs);
    var body := first + second;
    DeltasSize(false, ts, 0);
    ValuesRoundTrip(k, vs);
    WordsDeltas(ts, 0, second);
    assert EncSeries(k, ts, vs) + rest == Uvarint(|ts|) + (Uvarint(|body|) + (body + rest));
    LengthRoundTrip(|ts|, Uvarint(|body|) + (body + rest));
    LengthRoundTrip(|body|, body + rest);
    TakePrefix(body, rest);
  }

  /** The early check `n > size / 2` rejects nothing the two loops would accept. */
  lemma SeriesCheckSound(k: Kind, n: nat, buffer: bytes)
    requires ReadStreams(k, n, buffer).Ok?
    ensures n <= |buffer| / 2
  {
    var r := ReadWords(n, buffer, 0).rest;
    ReadWordsShape(n, buffer, 0);
    if k.Floats? {
      ReadXorsShape(n, r, 0);
    } else {
      ReadWordsShape(n, r, 0);
    }
  }
}
