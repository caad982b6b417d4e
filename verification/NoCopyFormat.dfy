/** The messages of the nocopy maps, said without their encoders and decoders, and how long they are. */
module NoCopyFormat {
  import opened Wire
  import opened Varint
  import opened Codec
  import opened RoundTrip
  import opened Analysis
  import opened GoFormat
  import opened GoLeaves
  import opened StreamFormat
  import N = NoCopy

  // ---------------------------------------------------------------- messages written

  /** A number of 8 bytes and a value with a 4-byte length, or two texts. */
  predicate PairWritten(f: N.Flavour, k: N.Key, v: bytes, b: bytes) {
    match f
    case HashMap =>
      k.Number? && |b| == 12 + |v| && Fixed(k.n, 8, b[..8]) && Fixed(|v|, 4, b[8..12]) && b[12..] == v
    case _ =>
      k.Text? && exists i | 0 <= i <= |b| :: Texts(k.s, b[..i]) && Texts(v, b[i..])
  }

  predicate PairsWritten(f: N.Flavour, order: seq<N.Key>, m: N.Dict, b: bytes)
    requires forall k :: k in order ==> k in m
  {
    if order == [] then b == []
    else
      exists i | 0 <= i <= |b| ::
        PairWritten(f, order[0], m[order[0]], b[..i]) && PairsWritten(f, order[1..], m, b[i..])
  }

  /** The number of entries in 4 bytes for a `HashMap` and in 2 for the others, and the entries in some order. */
  predicate MapWritten(f: N.Flavour, order: seq<N.Key>, m: N.Dict, b: bytes)
    requires forall k :: k in order ==> k in m
  {
    match f
    case HashMap => |b| >= 4 && Fixed(|m|, 4, b[..4]) && PairsWritten(f, order, m, b[4..])
    case _ => |b| >= 2 && Fixed(|m|, 2, b[..2]) && PairsWritten(f, order, m, b[2..])
  }

  /** Keys of the map's own kind. */
  predicate Keyed(f: N.Flavour, order: seq<N.Key>) {
    forall i :: 0 <= i < |order| ==> (order[i].Number? <==> f.HashMap?)
  }

  lemma PairWrittenExactly(f: N.Flavour, k: N.Key, v: bytes, b: bytes)
    requires k.Number? <==> f.HashMap?
    ensures PairWritten(f, k, v, b) <==> b == N.EncPair(f, k, v)
  {
    hide Fixed, Texts, LE, Blob;
    match k
    case Number(n) =>
      if |b| == 12 + |v| {
        FixedExactly(n, 8, b[..8]);
        FixedExactly(|v|, 4, b[8..12]);
        assert b == b[..8] + b[8..12] + b[12..];
      }
      if b == LE(n, 8) + LE(|v|, 4) + v {
        assert b[..8] == LE(n, 8) && b[8..12] == LE(|v|, 4) && b[12..] == v;
      }
    case Text(s) =>
      forall i | 0 <= i <= |b|
        ensures Texts(s, b[..i]) && Texts(v, b[i..]) <==> b[..i] == Blob(s) && b[i..] == Blob(v)
      {
        TextsExactly(s, b[..i]);
        TextsExactly(v, b[i..]);
      }
      CutOnce(Blob(s), Blob(v), b);
  }

  lemma {:induction false} PairsWrittenExactly(f: N.Flavour, order: seq<N.Key>, m: N.Dict, b: bytes)
    requires Keyed(f, order) && forall k :: k in order ==> k in m
    ensures PairsWritten(f, order, m, b) <==> b == N.EncPairs(f, order, m)
    decreases |order|
  {
    hide PairWritten, N.EncPair;
    if order != [] {
      var x, y := N.EncPair(f, order[0], m[order[0]]), N.EncPairs(f, order[1..], m);
      forall i | 0 <= i <= |b|
        ensures PairWritten(f, order[0], m[order[0]], b[..i]) && PairsWritten(f, order[1..], m, b[i..]) <==>
          b[..i] == x && b[i..] == y
      {
        PairWrittenExactly(f, order[0], m[order[0]], b[..i]);
        PairsWrittenExactly(f, order[1..], m, b[i..]);
      }
      CutOnce(x, y, b);
    }
  }

  lemma HeadCut(n: nat, w: nat, x: bytes, b: bytes)
    ensures b == LE(n, w) + x <==> |b| >= w && Fixed(n, w, b[..w]) && b[w..] == x
  {
    hide Fixed, LE;
    if |b| >= w {
      FixedExactly(n, w, b[..w]);
      assert b == b[..w] + b[w..];
    }
    if b == LE(n, w) + x {
      assert b[..w] == LE(n, w) && b[w..] == x;
    }
  }

  /** The encoder of each type writes exactly the type's messages. */
  lemma MapWrittenExactly(f: N.Flavour, order: seq<N.Key>, m: N.Dict, b: bytes)
    requires Keyed(f, order) && forall k :: k in order ==> k in m
    ensures MapWritten(f, order, m, b) <==> b == N.EncMap(f, order, m)
  {
    hide Fixed, LE, N.EncPairs, PairsWritten;
    var w := if f.HashMap? then 4 else 2;
    HeadCut(|m|, w, N.EncPairs(f, order, m), b);
    if |b| >= w {
      PairsWrittenExactly(f, order, m, b[w..]);
    }
  }

  // ---------------------------------------------------------------- how long a message is

  /** The bytes of the entries, added up in the order of any pass over the map. */
  function Sizes(f: N.Flavour, order: seq<N.Key>, m: N.Dict): nat
    requires forall k :: k in order ==> k in m
  {
    if order == [] then 0
    else
      var v := |m[order[0]]|;
      var size :=
        match order[0]
        case Number(_) => 12 + v
        case Text(s) => UvarintSize(|s|) + |s| + UvarintSize(v) + v;
      size + Sizes(f, order[1..], m)
  }

  lemma {:induction false} SizesAddUp(f: N.Flavour, order: seq<N.Key>, m: N.Dict)
    requires Keyed(f, order) && forall k :: k in order ==> k in m
    ensures Sizes(f, order, m) == N.Room(f, order, m)
    decreases |order|
  {
    hide Uvarint, LE;
    if order != [] {
      SizesAddUp(f, order[1..], m);
      UvarintShape(|m[order[0]]|);
      if order[0].Text? {
        UvarintShape(|order[0].s|);
      }
    }
  }

  /**
   Whatever order the entries are written in, the message is as long as any pass over the map adds up: two bytes or
   four, twelve and the value for a hash, and otherwise two texts with their lengths.
   */
  lemma EncodedSize(f: N.Flavour, sizing: seq<N.Key>, order: seq<N.Key>, m: N.Dict)
    requires Keyed(f, sizing) && N.Lists(sizing, m) && N.Lists(order, m)
    ensures (forall k :: k in sizing ==> k in m) && forall k :: k in order ==> k in m
    ensures |N.EncMap(f, order, m)| == (if f.HashMap? then 4 else 2) + Sizes(f, sizing, m)
  {
    hide N.EncPairs, N.Room, Sizes, LE;
    N.ListsKeys(sizing, m);
    N.ListsKeys(order, m);
    SizesAddUp(f, sizing, m);
    N.SizeAnyOrder(f, sizing, order, m);
  }

  // ---------------------------------------------------------------- messages read

  predicate PairReads(f: N.Flavour, k: N.Key, v: bytes, b: bytes) {
    match f
    case HashMap =>
      && k.Number? && k.n < 0x1_0000_0000_0000_0000 && |v| < 0x1_0000_0000
      && |b| == 12 + |v| && Fixed(k.n, 8, b[..8]) && Fixed(|v|, 4, b[8..12]) && b[12..] == v
    case _ =>
      k.Text? && exists i | 0 <= i <= |b| :: TextReads(k.s, b[..i]) && TextReads(v, b[i..])
  }

  /** `n` entries are assigned, in the order they come, to a map that holds `acc`: the last value of a key stays. */
  ghost predicate PairsRead(f: N.Flavour, n: nat, acc: N.Dict, m: N.Dict, b: bytes) {
    if n == 0 then m == acc && b == []
    else
      exists i, k, v | 0 <= i <= |b| :: PairReads(f, k, v, b[..i]) && PairsRead(f, n - 1, acc[k := v], m, b[i..])
  }

  ghost predicate MapReads(f: N.Flavour, m: N.Dict, b: bytes) {
    match f
    case HashMap =>
      |b| >= 4 && exists n | 0 <= n < 0x1_0000_0000 :: Fixed(n, 4, b[..4]) && PairsRead(f, n, map[], m, b[4..])
    case _ =>
      |b| >= 2 && exists n | 0 <= n < 0x1_0000 :: Fixed(n, 2, b[..2]) && PairsRead(f, n, map[], m, b[2..])
  }

  /** Reading a key and then a value, as one step. */
  function ReadPair(f: N.Flavour, b: bytes): Parsed<(N.Key, bytes)> {
    var (k, b1) :- N.ReadKey(false, f, b);
    var (v, b2) :- N.ReadVal(false, f, b1);
    Ok((k, v), b2)
  }

  lemma TextAny(b: bytes)
    ensures N.ReadText(false, b) == ReadBlob(b)
  {
    hide ReadUvarint;
    if ReadUvarint(b).Ok? {
      var r := ReadUvarint(b).rest;
      assert r[..0] == [] && r[0..] == r;
    }
  }

  lemma TextPair(f: N.Flavour, b: bytes)
    requires !f.HashMap?
    ensures ReadPair(f, b) ==
      if ReadBlob(b).Fail? || ReadBlob(ReadBlob(b).rest).Fail? then Fail
      else
        var r := ReadBlob(b).rest;
        Ok((N.Text(ReadBlob(b).val), ReadBlob(r).val), ReadBlob(r).rest)
  {
    hide ReadUvarint, N.ReadText;
    if ReadBlob(b).Ok? {
      TextAny(ReadBlob(b).rest);
    }
  }

  lemma PairReadsExactly(f: N.Flavour, k: N.Key, v: bytes, b: bytes, rest: bytes)
    ensures PairReads(f, k, v, b) <==> ReadPair(f, b + rest) == Ok((k, v), rest)
  {
    if f.HashMap? {
      HashPairReads(k, v, b, rest);
    } else {
      TextPairReads(f, k, v, b, rest);
    }
  }

  lemma TextPairReads(f: N.Flavour, k: N.Key, v: bytes, b: bytes, rest: bytes)
    requires !f.HashMap?
    ensures PairReads(f, k, v, b) <==> ReadPair(f, b + rest) == Ok((k, v), rest)
  {
    TextPair(f, b + rest);
    hide ReadPair, ReadBlob, TextReads;
    if PairReads(f, k, v, b) {
      var i :| 0 <= i <= |b| && TextReads(k.s, b[..i]) && TextReads(v, b[i..]);
      Front(b, rest, i);
      TextReadsExactly(k.s, b[..i], b[i..] + rest);
      TextReadsExactly(v, b[i..], rest);
    }
    if ReadPair(f, b + rest) == Ok((k, v), rest) {
      var d := ReadBlob(b + rest);
      BlobShape(b + rest);
      BlobShape(d.rest);
      var i := Middle(b, rest, d.rest);
      TextReadsExactly(d.val, b[..i], d.rest);
      TextReadsExactly(v, b[i..], rest);
    }
  }

  lemma HashPair(b: bytes)
    ensures ReadPair(N.HashMap, b) ==
      if |b| < 12 then Fail
      else
        var n := FromLE(b[8..12]);
        if 12 + n > |b| then Fail else Ok((N.Number(FromLE(b[..8])), b[12..12 + n]), b[12 + n..])
  {
    hide FromLE;
    if |b| >= 8 {
      var b1 := b[8..];
      if |b1| >= 4 {
        assert b1[..4] == b[8..12] && b1[4..] == b[12..];
        var n := FromLE(b[8..12]);
        if 12 + n <= |b| {
          assert b[12..][..n] == b[12..12 + n] && b[12..][n..] == b[12 + n..];
        }
      }
    }
  }

  lemma HashPairReads(k: N.Key, v: bytes, b: bytes, rest: bytes)
    ensures PairReads(N.HashMap, k, v, b) <==> ReadPair(N.HashMap, b + rest) == Ok((k, v), rest)
  {
    HashPair(b + rest);
    hide ReadPair, Fixed, FromLE, Pow256;
    N.SmallFits(0);
    if |b| >= 12 {
      assert (b + rest)[..8] == b[..8] && (b + rest)[8..12] == b[8..12];
      FixedReads(|v|, 4, b[8..12]);
      if k.Number? {
        FixedReads(k.n, 8, b[..8]);
      }
      Widths();
      if |b| == 12 + |v| {
        assert (b + rest)[12..12 + |v|] == b[12..] && (b + rest)[12 + |v|..] == rest;
      }
    }
  }

  lemma Widths()
    ensures Pow256(2) == 0x1_0000 && Pow256(4) == 0x1_0000_0000 && Pow256(8) == 0x1_0000_0000_0000_0000
  {
    Pow256OfBits(16);
    Pow256OfBits(32);
    Pow256OfBits(64);
  }

  // One entry of the reader.
  lemma PairsStep(f: N.Flavour, n: nat, b: bytes, acc: N.Dict)
    requires n > 0
    ensures var d := ReadPair(f, b);
      N.ReadPairs(false, f, n, b, acc) ==
        if d.Fail? then Fail else N.ReadPairs(false, f, n - 1, d.rest, acc[d.val.0 := d.val.1])
  {
    hide N.ReadKey, N.ReadVal;
  }

  lemma PairShape(f: N.Flavour, b: bytes)
    requires ReadPair(f, b).Ok?
    ensures IsSuffix(ReadPair(f, b).rest, b)
  {
    if f.HashMap? {
      HashPair(b);
    } else {
      TextPair(f, b);
      hide ReadPair, ReadBlob;
      BlobShape(b);
      BlobShape(ReadBlob(b).rest);
      SuffixTrans(ReadPair(f, b).rest, ReadBlob(b).rest, b);
    }
  }

  lemma {:induction false} PairsShape(f: N.Flavour, n: nat, b: bytes, acc: N.Dict)
    requires N.ReadPairs(false, f, n, b, acc).Ok?
    ensures IsSuffix(N.ReadPairs(false, f, n, b, acc).rest, b)
    decreases n
  {
    hide ReadPair, N.ReadKey, N.ReadVal;
    if n > 0 {
      PairsStep(f, n, b, acc);
      var d := ReadPair(f, b);
      PairShape(f, b);
      PairsShape(f, n - 1, d.rest, acc[d.val.0 := d.val.1]);
      SuffixTrans(N.ReadPairs(false, f, n, b, acc).rest, d.rest, b);
    }
  }

  // One entry of the grammar.
  lemma PairSplit(f: N.Flavour, n: nat, acc: N.Dict, m: N.Dict, b: bytes) returns (i: nat, k: N.Key, v: bytes)
    requires n > 0 && PairsRead(f, n, acc, m, b)
    ensures i <= |b| && PairReads(f, k, v, b[..i]) && PairsRead(f, n - 1, acc[k := v], m, b[i..])
  {
    hide PairReads;
    i, k, v :| i <= |b| && PairReads(f, k, v, b[..i]) && PairsRead(f, n - 1, acc[k := v], m, b[i..]);
  }

  lemma PairJoin(f: N.Flavour, n: nat, acc: N.Dict, m: N.Dict, b: bytes, i: nat, k: N.Key, v: bytes)
    requires n > 0 && i <= |b| && PairReads(f, k, v, b[..i]) && PairsRead(f, n - 1, acc[k := v], m, b[i..])
    ensures PairsRead(f, n, acc, m, b)
  {
    hide PairReads;
  }

  lemma {:induction false} PairsReadExactly(f: N.Flavour, n: nat, acc: N.Dict, m: N.Dict, b: bytes, rest: bytes)
    ensures PairsRead(f, n, acc, m, b) <==> N.ReadPairs(false, f, n, b + rest, acc) == Ok(m, rest)
    decreases n, 1
  {
    if n == 0 {
      NothingRead(b, rest);
    } else {
      hide *;
      if PairsRead(f, n, acc, m, b) {
        PairsReadOn(f, n, acc, m, b, rest);
      }
      if N.ReadPairs(false, f, n, b + rest, acc) == Ok(m, rest) {
        PairsReadBack(f, n, acc, m, b, rest);
      }
    }
  }

  lemma {:induction false} PairsReadOn(f: N.Flavour, n: nat, acc: N.Dict, m: N.Dict, b: bytes, rest: bytes)
    requires n > 0 && PairsRead(f, n, acc, m, b)
    ensures N.ReadPairs(false, f, n, b + rest, acc) == Ok(m, rest)
    decreases n, 0
  {
    hide *;
    PairsStep(f, n, b + rest, acc);
    var i, k, v := PairSplit(f, n, acc, m, b);
    Front(b, rest, i);
    PairReadsExactly(f, k, v, b[..i], b[i..] + rest);
    PairsReadExactly(f, n - 1, acc[k := v], m, b[i..], rest);
  }

  lemma {:induction false} PairsReadBack(f: N.Flavour, n: nat, acc: N.Dict, m: N.Dict, b: bytes, rest: bytes)
    requires n > 0 && N.ReadPairs(false, f, n, b + rest, acc) == Ok(m, rest)
    ensures PairsRead(f, n, acc, m, b)
    decreases n, 0
  {
    hide *;
    PairsStep(f, n, b + rest, acc);
    var d := ReadPair(f, b + rest);
    PairShape(f, b + rest);
    var k, v := d.val.0, d.val.1;
    PairsShape(f, n - 1, d.rest, acc[k := v]);
    var i := Middle(b, rest, d.rest);
    PairReadsExactly(f, k, v, b[..i], d.rest);
    PairsReadExactly(f, n - 1, acc[k := v], m, b[i..], rest);
    PairJoin(f, n, acc, m, b, i, k, v);
  }

  lemma MapSteps(f: N.Flavour, w: nat, b: bytes)
    requires w == if f.HashMap? then 4 else 2
    ensures N.DecMap(false, f, b) ==
      if |b| < w then Fail else N.ReadPairs(false, f, FromLE(b[..w]), b[w..], map[])
  {
    hide N.ReadPairs, FromLE, N.LeastPair;
    if |b| >= w {
      var n := FromLE(b[..w]);
      if N.ReadPairs(false, f, n, b[w..], map[]).Ok? {
        N.RoomSound(false, f, n, b[w..]);
      }
    }
  }

  lemma HeadReads(f: N.Flavour, w: nat, m: N.Dict, b: bytes)
    requires w == if f.HashMap? then 4 else 2
    ensures MapReads(f, m, b) <==> |b| >= w && PairsRead(f, FromLE(b[..w]), map[], m, b[w..])
  {
    hide FromLE, Fixed, Pow256, PairsRead;
    Widths();
    if |b| >= w {
      var n := FromLE(b[..w]);
      FixedReads(n, w, b[..w]);
      assert n < Pow256(w) && Fixed(n, w, b[..w]);
      forall i: nat | i < Pow256(w) && Fixed(i, w, b[..w])
        ensures i == n
      {
        FixedReads(i, w, b[..w]);
      }
      if f.HashMap? {
        assert MapReads(f, m, b) <==> PairsRead(f, n, map[], m, b[4..]);
      } else {
        assert MapReads(f, m, b) <==> PairsRead(f, n, map[], m, b[2..]);
      }
    }
  }

  /** The decoder of each type reads exactly the type's messages, each as the map it says, whatever follows. */
  lemma MapReadsExactly(f: N.Flavour, m: N.Dict, b: bytes, rest: bytes)
    ensures MapReads(f, m, b) <==> N.DecMap(false, f, b + rest) == Ok(m, rest)
  {
    var w := if f.HashMap? then 4 else 2;
    HeadReads(f, w, m, b);
    hide *;
    if |b| >= w {
      HeadPresent(f, w, m, b, rest);
    } else {
      HeadMissing(f, w, m, b, rest);
    }
  }

  lemma HeadPresent(f: N.Flavour, w: nat, m: N.Dict, b: bytes, rest: bytes)
    requires w == (if f.HashMap? then 4 else 2) && |b| >= w
    ensures PairsRead(f, FromLE(b[..w]), map[], m, b[w..]) <==> N.DecMap(false, f, b + rest) == Ok(m, rest)
  {
    hide *;
    MapSteps(f, w, b + rest);
    assert (b + rest)[..w] == b[..w] && (b + rest)[w..] == b[w..] + rest;
    PairsReadExactly(f, FromLE(b[..w]), map[], m, b[w..], rest);
  }

  lemma HeadMissing(f: N.Flavour, w: nat, m: N.Dict, b: bytes, rest: bytes)
    requires w == (if f.HashMap? then 4 else 2) && |b| < w
    ensures N.DecMap(false, f, b + rest) != Ok(m, rest)
  {
    MapSteps(f, w, b + rest);
    hide *;
    if |b + rest| >= w && N.DecMap(false, f, b + rest).Ok? {
      var tail := (b + rest)[w..];
      PairsShape(f, FromLE((b + rest)[..w]), tail, map[]);
      NotLonger(N.DecMap(false, f, b + rest).rest, tail);
    }
  }

  lemma NotLonger(rest: bytes, b: bytes)
    requires IsSuffix(rest, b)
    ensures |rest| <= |b|
  {
  }

  /** A map is refused exactly when its size, or the length of a hash's value, is more than its field can hold. */
  lemma RefusedExactly(f: N.Flavour, m: N.Dict)
    ensures N.Accepted(f, m) <==>
      && |m| < (if f.HashMap? then 0x1_0000_0000 else 0x1_0000)
      && (f.HashMap? ==> forall k :: k in m ==> |m[k]| < 0x1_0000_0000)
  {
  }
}
