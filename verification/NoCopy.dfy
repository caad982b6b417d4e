/**
 The maps of the nocopy package: their wire forms, the buffered encoder that goes over the map twice,
 and the early capacity check of the in-memory decoder. A map is a Dafny map; every pass over one
 visits its keys in an order of its own.
 */
module NoCopy {
  import opened Wire
  import opened Varint
  import opened Codec
  import opened RoundTrip
  import opened Destination
  import opened Agreement
  import Permutation
  import D = Decoder
  import E = Encoder

  datatype Flavour = Dictionary | ByteMap | HashMap

  datatype Key = Text(s: bytes) | Number(n: nat)

  type Dict = map<Key, bytes>

  /** The values of the Go type. */
  predicate Typed(f: Flavour, m: Dict) {
    && |m| <= MAX_INT
    && forall k :: k in m ==>
      && (if f.HashMap? then k.Number? && k.n < TWO64 else k.Text? && |k.s| <= MAX_LEN)
      && |m[k]| <= MAX_LEN
  }

  const MAX_U16 := 0xFFFF
  const MAX_U32 := 0xFFFF_FFFF

  /** The maps the wire has room for. */
  predicate Accepted(f: Flavour, m: Dict) {
    if f.HashMap? then |m| <= MAX_U32 && forall k :: k in m ==> |m[k]| <= MAX_U32 else |m| <= MAX_U16
  }

  /** One pass over the map visits each key once. */
  predicate Lists(order: seq<Key>, m: Dict) {
    multiset(order) == multiset(m.Keys)
  }

  lemma ListsKeys(order: seq<Key>, m: Dict)
    requires Lists(order, m)
    ensures |order| == |m| && forall k :: k in order <==> k in m
  {
    assert |multiset(order)| == |order| && |multiset(m.Keys)| == |m.Keys|;
    forall k
      ensures k in order <==> k in m
    {
      assert k in order <==> k in multiset(order);
      assert k in m <==> k in multiset(m.Keys);
    }
  }

  /** `for key := range m` */
  method Iterate(m: Dict) returns (order: seq<Key>)
    ensures Lists(order, m)
  {
    var left := m.Keys;
    order := [];
    while left != {}
      invariant left <= m.Keys && multiset(order) + multiset(left) == multiset(m.Keys)
      decreases |left|
    {
      var k :| k in left;
      order, left := order + [k], left - {k};
    }
  }

  // ---------------------------------------------------------------- wire form

  function HeadWidth(f: Flavour): nat {
    if f.HashMap? then 4 else 2
  }

  function EncPair(f: Flavour, k: Key, v: bytes): bytes {
    match k
    case Number(n) => if f.HashMap? then LE(n, 8) + LE(|v|, 4) + v else []
    case Text(s) => if f.HashMap? then [] else Blob(s) + Blob(v)
  }

  function EncPairs(f: Flavour, order: seq<Key>, m: Dict): bytes
    requires forall k :: k in order ==> k in m
  {
    if order == [] then [] else EncPair(f, order[0], m[order[0]]) + EncPairs(f, order[1..], m)
  }

  function EncMap(f: Flavour, order: seq<Key>, m: Dict): bytes
    requires forall k :: k in order ==> k in m
  {
    LE(|m|, HeadWidth(f)) + EncPairs(f, order, m)
  }

  // ---------------------------------------------------------------- decoding

  /** A value: its length, and its bytes unless there are none. */
  function ReadText(stream: bool, b: bytes): Parsed<bytes> {
    var (n, b1) :- ReadUvarint(b);
    if n == 0 then Ok([], b1) else if n > MAX_INT then Fail else SliceFrom(stream, n, b1)
  }

  function ReadKey(stream: bool, f: Flavour, b: bytes): Parsed<Key> {
    if f.HashMap? then
      var (w, r) :- SliceFrom(stream, 8, b);
      Ok(Number(FromLE(w)), r)
    else
      var (s, r) :- ReadBlobFrom(stream, b);
      Ok(Text(s), r)
  }

  function ReadVal(stream: bool, f: Flavour, b: bytes): Parsed<bytes> {
    match f
    case Dictionary => ReadBlobFrom(stream, b)
    case ByteMap => ReadText(stream, b)
    case HashMap =>
      var (w, b1) :- SliceFrom(stream, 4, b);
      if FromLE(w) == 0 then Ok([], b1) else SliceFrom(stream, FromLE(w), b1)
  }

  function ReadPairs(stream: bool, f: Flavour, n: nat, b: bytes, acc: Dict): Parsed<Dict> {
    if n == 0 then Ok(acc, b)
    else
      var (k, b1) :- ReadKey(stream, f, b);
      var (v, b2) :- ReadVal(stream, f, b1);
      ReadPairs(stream, f, n - 1, b2, acc[k := v])
  }

  /** `mapCapacity`: in memory, `n` entries need `n` times the least size of one. */
  function LeastPair(f: Flavour): (n: nat)
    ensures n > 0
  {
    if f.HashMap? then 12 else 2
  }

  predicate RoomFor(stream: bool, f: Flavour, n: nat, b: bytes) {
    stream || n <= |b| / LeastPair(f)
  }

  function DecMap(stream: bool, f: Flavour, b: bytes): Parsed<Dict> {
    var (w, b1) :- SliceFrom(stream, HeadWidth(f), b);
    if !RoomFor(stream, f, FromLE(w), b1) then Fail else ReadPairs(stream, f, FromLE(w), b1, map[])
  }

  // One turn of the loop.
  lemma PairsStep(stream: bool, f: Flavour, n: nat, b: bytes, m: Dict)
    ensures n == 0 ==> ReadPairs(stream, f, n, b, m) == Ok(m, b)
    ensures n > 0 ==>
      var k := ReadKey(stream, f, b);
      if k.Fail? then ReadPairs(stream, f, n, b, m) == Fail
      else
        var v := ReadVal(stream, f, k.rest);
        ReadPairs(stream, f, n, b, m) ==
          if v.Fail? then Fail else ReadPairs(stream, f, n - 1, v.rest, m[k.val := v.val])
  {
    hide ReadKey, ReadVal;
  }

  // ---------------------------------------------------------------- the early check

  lemma PairSize(stream: bool, f: Flavour, b: bytes)
    requires ReadKey(stream, f, b).Ok? && ReadVal(stream, f, ReadKey(stream, f, b).rest).Ok?
    ensures |ReadVal(stream, f, ReadKey(stream, f, b).rest).rest| + LeastPair(f) <= |b|
  {
    var b1 := ReadKey(stream, f, b).rest;
    if !f.HashMap? {
      ReadUvarintShape(b);
      ReadUvarintShape(b1);
    }
  }

  lemma {:induction false} PairsSize(stream: bool, f: Flavour, n: nat, b: bytes, acc: Dict)
    requires ReadPairs(stream, f, n, b, acc).Ok?
    ensures n * LeastPair(f) <= |b|
    decreases n
  {
    hide ReadKey, ReadVal, LeastPair;
    if n > 0 {
      PairSize(stream, f, b);
      var k := ReadKey(stream, f, b);
      var v := ReadVal(stream, f, k.rest);
      PairsSize(stream, f, n - 1, v.rest, acc[k.val := v.val]);
      assert n * LeastPair(f) == (n - 1) * LeastPair(f) + LeastPair(f);
    }
  }

  /** The capacity check never refuses a count whose entries would all decode. */
  lemma RoomSound(stream: bool, f: Flavour, n: nat, b: bytes)
    requires ReadPairs(stream, f, n, b, map[]).Ok?
    ensures RoomFor(stream, f, n, b)
  {
    PairsSize(stream, f, n, b, map[]);
    DivAtMost(n, LeastPair(f), |b|);
  }

  lemma {:induction false} PairsAgree(f: Flavour, n: nat, b: bytes, acc: Dict)
    requires |b| <= MAX_LEN
    ensures ReadPairs(true, f, n, b, acc) == ReadPairs(false, f, n, b, acc)
    decreases n
  {
    hide ReadPairs, ReadKey, ReadVal;
    PairsStep(true, f, n, b, acc);
    PairsStep(false, f, n, b, acc);
    if n > 0 {
      PairAgrees(f, b);
      var k := ReadKey(false, f, b);
      if k.Ok? {
        PairAgrees(f, k.rest);
        var v := ReadVal(false, f, k.rest);
        if v.Ok? {
          PairSize(false, f, b);
          PairsAgree(f, n - 1, v.rest, acc[k.val := v.val]);
        }
      }
    }
  }

  lemma PairAgrees(f: Flavour, b: bytes)
    requires |b| <= MAX_LEN
    ensures ReadKey(true, f, b) == ReadKey(false, f, b)
    ensures ReadVal(true, f, b) == ReadVal(false, f, b)
    ensures ReadKey(false, f, b).Ok? ==> |ReadKey(false, f, b).rest| <= |b|
  {
    if ReadUvarint(b).Ok? {
      ReadUvarintShape(b);
    }
  }

  /** In memory and from a stream, the same inputs decode, to the same map, leaving the same bytes. */
  lemma MemoryStreamAgree(f: Flavour, b: bytes)
    requires |b| <= MAX_LEN
    ensures DecMap(true, f, b) == DecMap(false, f, b)
  {
    hide ReadPairs, RoomFor;
    var w := SliceFrom(false, HeadWidth(f), b);
    if w.Ok? {
      var n := FromLE(w.val);
      PairsAgree(f, n, w.rest, map[]);
      if ReadPairs(false, f, n, w.rest, map[]).Ok? {
        RoomSound(false, f, n, w.rest);
      }
      NoCheck(f, n, w.rest);
    }
  }

  lemma NoCheck(f: Flavour, n: nat, b: bytes)
    ensures RoomFor(true, f, n, b)
  {
  }

  // ---------------------------------------------------------------- round trip

  /** The map after entering the keys of `order`. */
  function Fill(acc: Dict, order: seq<Key>, m: Dict): Dict
    requires forall k :: k in order ==> k in m
    decreases |order|
  {
    if order == [] then acc else Fill(acc[order[0] := m[order[0]]], order[1..], m)
  }

  lemma {:induction false} FillIs(acc: Dict, order: seq<Key>, m: Dict)
    requires forall k :: k in order ==> k in m
    ensures var r := Fill(acc, order, m);
      && (forall k :: k in r <==> k in acc || k in order)
      && (forall k :: k in r ==> r[k] == if k in order then m[k] else acc[k])
    decreases |order|
  {
    if order != [] {
      FillIs(acc[order[0] := m[order[0]]], order[1..], m);
      assert order == [order[0]] + order[1..];
    }
  }

  lemma SmallFits(n: nat)
    ensures n <= MAX_U16 ==> n < Pow256(2)
    ensures n <= MAX_U32 ==> n < Pow256(4)
    ensures n < TWO64 ==> n < Pow256(8)
  {
    assert Pow256(2) == 0x1_0000;
    assert Pow256(4) == 0x1_0000 * 0x1_0000;
    assert Pow256(6) == 0x1_0000 * Pow256(4);
    assert Pow256(8) == 0x1_0000 * Pow256(6);
  }

  lemma FixedRoundTrip(stream: bool, n: nat, w: nat, rest: bytes)
    requires n < Pow256(w) && w <= 8
    ensures SliceFrom(stream, w, LE(n, w) + rest) == Ok(LE(n, w), rest) && FromLE(LE(n, w)) == n
  {
    LERoundTrip(n, w);
    TakePrefix(LE(n, w), rest);
  }

  lemma TextRoundTrip(stream: bool, s: bytes, rest: bytes)
    requires |s| <= MAX_LEN
    ensures ReadBlobFrom(stream, Blob(s) + rest) == Ok(s, rest) == ReadText(stream, Blob(s) + rest)
  {
    hide ReadUvarint, Uvarint;
    UvarintRoundTrip(|s|, s + rest);
    assert Blob(s) + rest == Uvarint(|s|) + (s + rest);
    TakePrefix(s, rest);
    assert s == [] ==> s + rest == rest;
  }

  lemma PairRoundTrip(stream: bool, f: Flavour, k: Key, v: bytes, rest: bytes)
    requires |v| <= MAX_LEN
    requires if f.HashMap? then k.Number? && k.n < TWO64 && |v| <= MAX_U32 else k.Text? && |k.s| <= MAX_LEN
    ensures var b := EncPair(f, k, v) + rest;
      var r := ReadKey(stream, f, b);
      r.Ok? && r.val == k && ReadVal(stream, f, r.rest) == Ok(v, rest)
  {
    hide ReadBlobFrom, ReadText, Blob;
    if f.HashMap? {
      HashPairRoundTrip(stream, k.n, v, rest);
    } else {
      assert EncPair(f, k, v) + rest == Blob(k.s) + (Blob(v) + rest);
      TextRoundTrip(stream, k.s, Blob(v) + rest);
      TextRoundTrip(stream, v, rest);
    }
  }

  lemma HashPairRoundTrip(stream: bool, n: nat, v: bytes, rest: bytes)
    requires n < TWO64 && |v| <= MAX_LEN && |v| <= MAX_U32
    ensures var b := EncPair(HashMap, Number(n), v) + rest;
      var r := ReadKey(stream, HashMap, b);
      r.Ok? && r.val == Number(n) && ReadVal(stream, HashMap, r.rest) == Ok(v, rest)
  {
    hide LE, FromLE, Pow256, ReadBlobFrom, ReadText;
    SmallFits(n);
    SmallFits(|v|);
    var tail := LE(|v|, 4) + (v + rest);
    assert EncPair(HashMap, Number(n), v) + rest == LE(n, 8) + tail;
    FixedRoundTrip(stream, n, 8, tail);
    FixedRoundTrip(stream, |v|, 4, v + rest);
    TakePrefix(v, rest);
    assert v == [] ==> v + rest == rest;
  }

  lemma {:induction false} PairsRoundTrip(stream: bool, f: Flavour, order: seq<Key>, m: Dict, acc: Dict, rest: bytes)
    requires Typed(f, m) && Accepted(f, m) && forall k :: k in order ==> k in m
    ensures ReadPairs(stream, f, |order|, EncPairs(f, order, m) + rest, acc) == Ok(Fill(acc, order, m), rest)
    decreases |order|
  {
    if order == [] {
      assert EncPairs(f, order, m) + rest == rest;
    } else {
      var k := order[0];
      var tail := EncPairs(f, order[1..], m) + rest;
      assert EncPairs(f, order, m) + rest == EncPair(f, k, m[k]) + tail;
      assert k in m;
      PairRoundTrip(stream, f, k, m[k], tail);
      hide ReadKey, ReadVal, EncPair, Typed, Accepted;
      PairsRoundTrip(stream, f, order[1..], m, acc[k := m[k]], rest);
    }
  }

  /** Whatever the order of the pass that wrote it, a map decodes to itself before any suffix. */
  lemma MapRoundTrip(stream: bool, f: Flavour, order: seq<Key>, m: Dict, rest: bytes)
    requires Typed(f, m) && Accepted(f, m) && Lists(order, m)
    ensures (forall k :: k in order ==> k in m) && DecMap(stream, f, EncMap(f, order, m) + rest) == Ok(m, rest)
  {
    hide EncPairs, ReadPairs, Fill, Typed, Accepted, Lists, FromLE, LE;
    ListsKeys(order, m);
    FillAll(order, m);
    var tail := EncPairs(f, order, m) + rest;
    assert EncMap(f, order, m) + rest == LE(|m|, HeadWidth(f)) + tail;
    HeadRoundTrip(stream, f, m, tail);
    PairsRoundTrip(stream, f, order, m, map[], rest);
    hide HeadWidth, SliceFrom, RoomFor;
    RoomSound(stream, f, |m|, tail);
  }

  lemma HeadRoundTrip(stream: bool, f: Flavour, m: Dict, rest: bytes)
    requires Accepted(f, m)
    ensures SliceFrom(stream, HeadWidth(f), LE(|m|, HeadWidth(f)) + rest) == Ok(LE(|m|, HeadWidth(f)), rest)
    ensures FromLE(LE(|m|, HeadWidth(f))) == |m|
  {
    hide LE, FromLE, Pow256;
    SmallFits(|m|);
    FixedRoundTrip(stream, |m|, HeadWidth(f), rest);
  }

  lemma FillAll(order: seq<Key>, m: Dict)
    requires Lists(order, m)
    ensures (forall k :: k in order ==> k in m) && Fill(map[], order, m) == m
  {
    ListsKeys(order, m);
    FillIs(map[], order, m);
  }

  // ---------------------------------------------------------------- sizes

  /** What the sizing pass adds up. */
  function Room(f: Flavour, order: seq<Key>, m: Dict): nat
    requires forall k :: k in order ==> k in m
  {
    if order == [] then 0 else |EncPair(f, order[0], m[order[0]])| + Room(f, order[1..], m)
  }

  lemma {:induction false} RoomIsSize(f: Flavour, order: seq<Key>, m: Dict)
    requires forall k :: k in order ==> k in m
    ensures Room(f, order, m) == |EncPairs(f, order, m)|
    decreases |order|
  {
    hide EncPair;
    if order != [] {
      RoomIsSize(f, order[1..], m);
    }
  }

  lemma {:induction false} RoomWithout(f: Flavour, order: seq<Key>, m: Dict, i: nat)
    requires i < |order| && forall k :: k in order ==> k in m
    ensures var less := order[..i] + order[i + 1..];
      (forall k :: k in less ==> k in m) && Room(f, order, m) == |EncPair(f, order[i], m[order[i]])| + Room(f, less, m)
    decreases i
  {
    hide EncPair;
    var less := order[..i] + order[i + 1..];
    assert forall k :: k in less ==> k in order;
    if i == 0 {
      assert less == order[1..];
    } else {
      RoomWithout(f, order[1..], m, i - 1);
      assert less[1..] == order[1..][..i - 1] + order[1..][i..];
    }
  }

  /** The size summed in one order of iteration is exactly the size of the bytes written in any other. */
  lemma {:induction false} SizeAnyOrder(f: Flavour, sizing: seq<Key>, order: seq<Key>, m: Dict)
    requires multiset(sizing) == multiset(order) && forall k :: k in order ==> k in m
    ensures (forall k :: k in sizing ==> k in m) && Room(f, sizing, m) == |EncPairs(f, order, m)|
    decreases |sizing|
  {
    hide EncPair;
    Permutation.SameLength(sizing, order);
    forall k | k in sizing
      ensures k in m
    {
      assert k in multiset(order);
    }
    RoomIsSize(f, order, m);
    if sizing != [] {
      var i := Permutation.MatchHead(sizing, order);
      var less := order[..i] + order[i + 1..];
      RoomWithout(f, order, m, i);
      RoomIsSize(f, less, m);
      SizeAnyOrder(f, sizing[1..], less, m);
    }
  }

  // ---------------------------------------------------------------- the encoder

  /** `EncodeTo` of all three codecs; `order` is the order of the pass that wrote the bytes. */
  method Encode(e: E.Encoder, f: Flavour, m: Dict) returns (ok: bool, order: seq<Key>)
    requires e.Valid() && Typed(f, m)
    modifies e, e.out, e.scratch
    ensures e.Valid() && Lists(order, m) && forall k :: k in order ==> k in m
    ensures E.Reports(ok, Accepted(f, m), old(e.State()), e.State(), EncMap(f, order, m))
    ensures ok <==> Accepted(f, m)
    ensures !ok ==> e.State() == old(e.State())
  {
    hide E.Emits, EncPairs, Typed, LE, Lists;
    ghost var p := e.State();
    order := Iterate(m);
    ListsKeys(order, m);
    ok := Fits(f, m);
    if !ok {
      E.Refused(p, EncMap(f, order, m));
      return;
    }
    if |m| >= 8 && e.buffered && !f.Dictionary? {
      var buffer := Buffered(f, m, order);
      e.Write(buffer);
    } else {
      e.Write(LE(|m|, HeadWidth(f)));
      ghost var q := e.State();
      WritePairs(e, f, m, order);
      E.EmitsBoth(p, q, e.State(), LE(|m|, HeadWidth(f)), EncPairs(f, order, m));
    }
    E.Completed(true, p, e.State(), EncMap(f, order, m));
  }

  /** The limits, checked before anything is written. */
  method Fits(f: Flavour, m: Dict) returns (ok: bool)
    ensures ok <==> Accepted(f, m)
  {
    if !f.HashMap? {
      return |m| <= MAX_U16;
    }
    if |m| > MAX_U32 {
      return false;
    }
    var order := Iterate(m);
    ListsKeys(order, m);
    for i := 0 to |order|
      invariant forall j :: 0 <= j < i ==> |m[order[j]]| <= MAX_U32
    {
      assert order[i] in order;
      if |m[order[i]]| > MAX_U32 {
        return false;
      }
    }
    forall k | k in m
      ensures |m[k]| <= MAX_U32
    {
      assert k in order;
    }
    return true;
  }

  method PairRoom(f: Flavour, k: Key, v: bytes) returns (size: nat)
    requires f.HashMap? <==> k.Number?
    ensures size == |EncPair(f, k, v)|
  {
    hide Uvarint, LE;
    match k
    case Number(_) => return 12 + |v|;
    case Text(s) =>
      var m := E.Encoder.SizeOfUvarint(|s|);
      var n := E.Encoder.SizeOfUvarint(|v|);
      return m + |s| + n + |v|;
  }

  /** The buffered pair of passes: one to size the buffer, one to fill it. */
  method Buffered(f: Flavour, m: Dict, order: seq<Key>) returns (buffer: bytes)
    requires Typed(f, m) && Lists(order, m) && forall k :: k in order ==> k in m
    ensures buffer == EncMap(f, order, m)
  {
    hide EncPair, EncPairs, Room, LE;
    var sizing := Iterate(m);
    ListsKeys(sizing, m);
    var size := HeadWidth(f);
    RoomWhole(f, sizing, m);
    for i := 0 to |sizing|
      invariant HeadWidth(f) + Room(f, sizing, m) == size + Room(f, sizing[i..], m)
    {
      assert sizing[i] in sizing && sizing[i] in m;
      RoomFrom(f, sizing, m, i);
      var n := PairRoom(f, sizing[i], m[sizing[i]]);
      size := size + n;
    }
    assert sizing[|sizing|..] == [];
    RoomWhole(f, [], m);
    buffer := LE(|m|, HeadWidth(f));
    PairsWhole(f, order, m);
    for i := 0 to |order|
      invariant EncMap(f, order, m) == buffer + EncPairs(f, order[i..], m)
    {
      assert order[i] in order;
      PairsFrom(f, order, m, i);
      buffer := buffer + EncPair(f, order[i], m[order[i]]);
    }
    assert order[|order|..] == [];
    PairsWhole(f, [], m);
    SizeAnyOrder(f, sizing, order, m);
    assert |buffer| == size;
  }

  method WritePairs(e: E.Encoder, f: Flavour, m: Dict, order: seq<Key>)
    requires e.Valid() && Typed(f, m) && forall k :: k in order ==> k in m
    modifies e, e.out, e.scratch
    ensures e.Valid() && E.Emits(old(e.State()), e.State(), EncPairs(f, order, m))
  {
    hide EncPair, EncPairs, E.Emits;
    ghost var p, done := e.State(), [];
    E.EmitsNothing(p);
    PairsWhole(f, order, m);
    var i := 0;
    while i < |order|
      invariant 0 <= i <= |order| && e.Valid() && E.Emits(p, e.State(), done)
      invariant EncPairs(f, order, m) == done + EncPairs(f, order[i..], m)
    {
      assert order[i] in order && order[i] in m;
      PairsFrom(f, order, m, i);
      ghost var q, bs := e.State(), EncPair(f, order[i], m[order[i]]);
      WritePair(e, f, order[i], m[order[i]]);
      E.EmitsBoth(p, q, e.State(), done, bs);
      assert (done + bs) + EncPairs(f, order[i + 1..], m) == EncPairs(f, order, m);
      done, i := done + bs, i + 1;
    }
    assert order[i..] == [];
    PairsWhole(f, [], m);
    assert done + [] == done;
  }

  method WritePair(e: E.Encoder, f: Flavour, k: Key, v: bytes)
    requires e.Valid() && |v| <= MAX_LEN
    requires if f.HashMap? then k.Number? && k.n < TWO64 else k.Text? && |k.s| <= MAX_LEN
    modifies e, e.out, e.scratch
    ensures e.Valid() && E.Emits(old(e.State()), e.State(), EncPair(f, k, v))
  {
    hide E.Emits, LE, Blob;
    ghost var p := e.State();
    match k
    case Number(n) =>
      e.Write(LE(n, 8));
      ghost var q := e.State();
      e.Write(LE(|v|, 4));
      ghost var r := e.State();
      E.EmitsBoth(p, q, r, LE(n, 8), LE(|v|, 4));
      e.Write(v);
      E.EmitsBoth(p, r, e.State(), LE(n, 8) + LE(|v|, 4), v);
    case Text(s) =>
      e.WriteBlob(s);
      ghost var q := e.State();
      e.WriteBlob(v);
      E.EmitsBoth(p, q, e.State(), Blob(s), Blob(v));
  }

  lemma RoomWhole(f: Flavour, order: seq<Key>, m: Dict)
    requires forall k :: k in order ==> k in m
    ensures Room(f, order, m) == Room(f, order[0..], m)
    ensures order == [] ==> Room(f, order, m) == 0
  {
    assert order[0..] == order;
  }

  lemma RoomFrom(f: Flavour, order: seq<Key>, m: Dict, i: nat)
    requires i < |order| && forall k :: k in order ==> k in m
    ensures Room(f, order[i..], m) == |EncPair(f, order[i], m[order[i]])| + Room(f, order[i + 1..], m)
  {
    assert order[i..][1..] == order[i + 1..];
  }

  lemma PairsWhole(f: Flavour, order: seq<Key>, m: Dict)
    requires forall k :: k in order ==> k in m
    ensures EncPairs(f, order, m) == [] + EncPairs(f, order[0..], m)
    ensures order == [] ==> EncPairs(f, order, m) == []
  {
    assert order[0..] == order;
  }

  lemma PairsFrom(f: Flavour, order: seq<Key>, m: Dict, i: nat)
    requires i < |order| && forall k :: k in order ==> k in m
    ensures EncPairs(f, order[i..], m) == EncPair(f, order[i], m[order[i]]) + EncPairs(f, order[i + 1..], m)
  {
    assert order[i..][1..] == order[i + 1..];
  }

  // ---------------------------------------------------------------- the decoder

  /** `DecodeTo` of all three codecs; whatever the destination held is cleared first. */
  method Decode(d: D.Decoder, f: Flavour, dest: Dict) returns (ok: bool, m: Dict)
    requires d.reader.Valid()
    modifies d.reader`offset
    ensures d.reader.Valid() && D.Outcome(ok, m, d.Rem(), DecMap(d.reader.stream, f, old(d.Rem())))
  {
    hide ReadPairs, FromLE, ReadKey, ReadVal;
    var w;
    m := dest;
    ok, w := d.ReadBytes(HeadWidth(f));
    if !ok {
      return;
    }
    var n := FromLE(w);
    var available := d.reader.Available();
    if available >= 0 && n > available / LeastPair(f) {
      return false, m;
    }
    m := map[];
    ghost var all := ReadPairs(d.reader.stream, f, n, d.Rem(), m);
    var i := 0;
    while i < n
      invariant 0 <= i <= n && d.reader.Valid()
      invariant all == ReadPairs(d.reader.stream, f, n - i, d.Rem(), m)
    {
      PairsStep(d.reader.stream, f, n - i, d.Rem(), m);
      var k, v;
      ok, k := DecodeKey(d, f);
      if !ok {
        return;
      }
      ok, v := DecodeVal(d, f);
      if !ok {
        return;
      }
      m, i := m[k := v], i + 1;
    }
    PairsStep(d.reader.stream, f, 0, d.Rem(), m);
    return true, m;
  }

  method DecodeKey(d: D.Decoder, f: Flavour) returns (ok: bool, k: Key)
    requires d.reader.Valid()
    modifies d.reader`offset
    ensures d.reader.Valid() && D.Outcome(ok, k, d.Rem(), ReadKey(d.reader.stream, f, old(d.Rem())))
  {
    hide FromLE;
    var s;
    if f.HashMap? {
      ok, s := d.ReadBytes(8);
      k := Number(FromLE(s));
    } else {
      ok, s := d.ReadSlice();
      k := Text(s);
    }
  }

  method DecodeVal(d: D.Decoder, f: Flavour) returns (ok: bool, v: bytes)
    requires d.reader.Valid()
    modifies d.reader`offset
    ensures d.reader.Valid() && D.Outcome(ok, v, d.Rem(), ReadVal(d.reader.stream, f, old(d.Rem())))
  {
    hide FromLE, ReadUvarint;
    v := [];
    match f
    case Dictionary => ok, v := d.ReadSlice();
    case ByteMap =>
      var n;
      ok, n := d.ReadUint();
      if !ok || n == 0 {
        return;
      }
      if n > MAX_INT {
        return false, v;
      }
      ok, v := d.ReadBytes(n);
    case HashMap =>
      var w;
      ok, w := d.ReadBytes(4);
      if !ok || FromLE(w) == 0 {
        return;
      }
      ok, v := d.ReadBytes(FromLE(w));
  }
}
