/**
 The static analyses of a codec tree are sound on both sides: `WireMin` bounds what every encoding
 has and what every successful decode consumes, and zero-wire codecs are those with empty encodings.
 Decoding is local: it depends only on the bytes it consumes.
 */
module Analysis {
  import opened Wire
  import opened Varint
  import opened Codec
  import opened RoundTrip
  import opened Compatibility

  // ---------------------------------------------------------------- zero-wire codecs

  /** Go's zero value. */
  function ZeroValue(c: Codec): Value
    decreases c, 1
  {
    match c
    case Prim(k) => ZeroPrim(k)
    case Pointer(_) => VNil
    case Bytes => VStr([])
    case Bools => VStr([])
    case Seq(_, elem, isArray, length) => VSeq(if isArray then Copies(ZeroValue(elem), length) else [])
    case Struct(fields) => VSeq(ZeroFields(fields))
    case Union(arms) => VSlots(Nils(|arms|))
    case Map(_, _, _) => VMap([])
  }

  function ZeroPrim(k: Kind): Value {
    match k
    case KString => VStr([])
    case KBool => VBool(false)
    case KInt(_, _) => VInt(0)
    case KUint(_, _) => VUint(0)
    case KWords(_, parts) => VWords(seq(parts, _ => 0))
  }

  function Copies(v: Value, n: nat): (r: seq<Value>)
    ensures |r| == n && forall i :: 0 <= i < n ==> r[i] == v
  {
    if n == 0 then [] else [v] + Copies(v, n - 1)
  }

  function ZeroFields(fs: seq<Codec>): (r: seq<Value>)
    ensures |r| == |fs| && forall i :: 0 <= i < |fs| ==> r[i] == ZeroValue(fs[i])
    decreases fs, 0
  {
    if fs == [] then [] else [ZeroValue(fs[0])] + ZeroFields(fs[1..])
  }

  lemma {:induction false} ZeroValueGood(c: Codec)
    requires WF(c)
    ensures Typed(c, ZeroValue(c)) && Encodable(c, ZeroValue(c))
  {
    match c
    case Prim(k) =>
    case Seq(_, elem, _, _) => ZeroValueGood(elem);
    case Struct(fields) =>
      forall i | 0 <= i < |fields|
        ensures Typed(fields[i], ZeroFields(fields)[i]) && Encodable(fields[i], ZeroFields(fields)[i])
      {
        ZeroValueGood(fields[i]);
      }
    case _ =>
  }

  /** A zero-wire codec decodes from nothing, consumes nothing, and has one value. */
  lemma {:induction false} ZeroWireDecode(c: Codec, b: bytes)
    requires IsZeroWire(c)
    ensures Dec(c, b) == Ok(ZeroValue(c), b)
    decreases c, 1
  {
    match c
    case Seq(_, elem, _, length) => ZeroWireMany(elem, length, b);
    case Struct(fields) => ZeroWireFields(fields, b);
  }

  lemma {:induction false} ZeroWireMany(c: Codec, n: nat, b: bytes)
    requires n == 0 || IsZeroWire(c)
    ensures DecMany(c, n, b) == Ok(Copies(ZeroValue(c), n), b)
    decreases c, 2, n
  {
    if n > 0 {
      ZeroWireDecode(c, b);
      ZeroWireMany(c, n - 1, b);
    }
  }

  lemma {:induction false} ZeroWireFields(fs: seq<Codec>, b: bytes)
    requires forall i :: 0 <= i < |fs| ==> IsZeroWire(fs[i])
    ensures DecFields(fs, b) == Ok(ZeroFields(fs), b)
    decreases fs, 0
  {
    if fs != [] {
      ZeroWireDecode(fs[0], b);
      ZeroWireFields(fs[1..], b);
    }
  }

  // ---------------------------------------------------------------- lower bounds

  /** The wire bytes of one element: `WireMin`, but exact for fixed-width words. */
  function ElemMin(c: Codec): nat {
    if c.Prim? && c.kind.KWords? then c.kind.width * c.kind.parts else WireMin(c)
  }

  lemma ElemMinAtLeast(c: Codec)
    requires WF(c)
    ensures ElemMin(c) >= WireMin(c)
  {
  }

  lemma ScaleUp(n: nat, a: nat, b: nat)
    requires a <= b
    ensures n * a <= n * b
  {
  }

  // An array's bound, per element.
  lemma ArrayMin(c: Codec)
    requires c.Seq? && WF(c) && c.isArray
    ensures WireMin(c) <= c.length * ElemMin(c.elem)
  {
    ElemMinAtLeast(c.elem);
    if c.flavour.OfString? {
      assert ElemMin(c.elem) == 1;
    } else {
      ScaleUp(c.length, WireMin(c.elem), ElemMin(c.elem));
    }
  }

  /** Every encoding has at least `WireMin` bytes. */
  lemma {:induction false} EncAtLeast(c: Codec, v: Value)
    requires WF(c) && Typed(c, v)
    ensures |Enc(c, v)| >= ElemMin(c) >= WireMin(c)
    decreases c, 1
  {
    ElemMinAtLeast(c);
    match c
    case Seq(_, elem, isArray, length) =>
      EncManyAtLeast(elem, v.vs);
      if isArray {
        ArrayMin(c);
      }
    case Struct(fields) => EncFieldsAtLeast(fields, v.vs);
    case _ =>
  }

  lemma {:induction false} EncManyAtLeast(c: Codec, vs: seq<Value>)
    requires WF(c) && forall i :: 0 <= i < |vs| ==> Typed(c, vs[i])
    ensures |EncMany(c, vs)| >= |vs| * ElemMin(c)
    decreases c, 2, |vs|
  {
    hide Enc, ElemMin, WF, Typed;
    if vs != [] {
      EncAtLeast(c, vs[0]);
      EncManyAtLeast(c, vs[1..]);
      OneMore(|vs| - 1, ElemMin(c));
    }
  }

  lemma {:induction false} EncFieldsAtLeast(fs: seq<Codec>, vs: seq<Value>)
    requires |fs| == |vs| && forall i :: 0 <= i < |fs| ==> WF(fs[i]) && Typed(fs[i], vs[i])
    ensures |EncFields(fs, vs)| >= WireMinSum(fs)
    decreases fs, 0
  {
    if fs != [] {
      EncAtLeast(fs[0], vs[0]);
      EncFieldsAtLeast(fs[1..], vs[1..]);
    }
  }

  // ---------------------------------------------------------------- decoding consumes a prefix

  lemma BlobShape(b: bytes)
    requires ReadBlob(b).Ok?
    ensures IsSuffix(ReadBlob(b).rest, b) && |ReadBlob(b).rest| < |b|
  {
    ReadUvarintShape(b);
    SuffixTrans(ReadBlob(b).rest, ReadLength(b).rest, b);
  }

  lemma {:induction false} WordsShape(b: bytes, width: nat, parts: nat)
    requires DecWords(b, width, parts).Ok?
    ensures var r := DecWords(b, width, parts).rest; IsSuffix(r, b) && |b| - |r| == width * parts
  {
    if parts > 0 {
      WordsShape(b[width..], width, parts - 1);
      SuffixTrans(DecWords(b, width, parts).rest, b[width..], b);
      assert width * parts == width + width * (parts - 1);
    }
  }

  lemma PrimShape(k: Kind, b: bytes)
    requires WFKind(k) && DecPrim(k, b).Ok?
    ensures IsSuffix(DecPrim(k, b).rest, b)
    ensures |b| - |DecPrim(k, b).rest| >= ElemMin(Prim(k))
  {
    match k
    case KString => BlobShape(b);
    case KBool =>
    case KInt(_, _) => ReadUvarintShape(b);
    case KUint(_, _) => ReadUvarintShape(b);
    case KWords(width, parts) => WordsShape(b, width, parts);
  }

  /** The fewest bytes a map key of a primitive kind takes. */
  function KeyMin(k: Codec): nat {
    if k == Prim(KString) then 2
    else if k.Prim? && FixedKey(k.kind) then k.kind.bits / 8
    else WireMin(k)
  }

  lemma TakeShape(b: bytes, n: nat)
    requires Take(b, n).Ok?
    ensures IsSuffix(Take(b, n).rest, b) && |b| - |Take(b, n).rest| == n
  {
  }

  lemma PrimKeyShape(k: Kind, b: bytes)
    requires WFKind(k) && DecPrimKey(k, b).Ok?
    ensures IsSuffix(DecPrimKey(k, b).rest, b)
    ensures |b| - |DecPrimKey(k, b).rest| >= KeyMin(Prim(k)) >= 1
  {
    hide Take, FromLE, WrapSigned, DecPrim;
    if FixedKey(k) {
      TakeShape(b, k.bits / 8);
    } else if k.KString? {
      StringKeyShape(b);
    } else {
      PrimShape(k, b);
    }
  }

  lemma StringKeyShape(b: bytes)
    requires DecPrimKey(KString, b).Ok?
    ensures IsSuffix(DecPrimKey(KString, b).rest, b) && |b| - |DecPrimKey(KString, b).rest| >= 2
  {
    hide Take, FromLE;
    var w := Take(b, 2);
    TakeShape(b, 2);
    TakeShape(w.rest, FromLE(w.val));
    SuffixTrans(DecPrimKey(KString, b).rest, w.rest, b);
  }

  /** A successful decode leaves a suffix, and has consumed at least `WireMin` bytes. */
  lemma {:induction false} DecAtLeast(c: Codec, b: bytes)
    requires WF(c) && Dec(c, b).Ok?
    ensures IsSuffix(Dec(c, b).rest, b)
    ensures |b| - |Dec(c, b).rest| >= ElemMin(c) >= WireMin(c)
    decreases c, 1
  {
    hide ReadUvarint, ReadBlob, DecPrim, DecMany, DecFields, DecUnion, DecEntries;
    ElemMinAtLeast(c);
    match c
    case Prim(k) => PrimShape(k, b);
    case Pointer(_) => PointerAtLeast(c, b);
    case Bytes => BlobShape(b);
    case Bools => BlobShape(b);
    case Seq(_, _, _, _) => SeqAtLeast(c, b);
    case Struct(fields) => FieldsAtLeast(fields, b);
    case Union(_) => UnionAtLeast(c, b);
    case Map(_, _, _) => MapAtLeast(c, b);
  }

  lemma {:induction false} PointerAtLeast(c: Codec, b: bytes)
    requires c.Pointer? && WF(c) && Dec(c, b).Ok?
    ensures IsSuffix(Dec(c, b).rest, b) && |Dec(c, b).rest| < |b|
    decreases c, 0
  {
    if b[0] != 1 {
      DecAtLeast(c.elem, b[1..]);
      SuffixTrans(Dec(c, b).rest, b[1..], b);
    }
  }

  lemma {:induction false} SeqAtLeast(c: Codec, b: bytes)
    requires c.Seq? && WF(c) && Dec(c, b).Ok?
    ensures IsSuffix(Dec(c, b).rest, b)
    ensures |b| - |Dec(c, b).rest| >= WireMin(c)
    decreases c, 0
  {
    hide ReadUvarint;
    var n, b1 := ReadCount(c.isArray, c.length, b).val, ReadCount(c.isArray, c.length, b).rest;
    ManyAtLeast(c.elem, n, b1);
    if c.isArray {
      ArrayMin(c);
    } else {
      ReadUvarintShape(b);
    }
    SuffixTrans(Dec(c, b).rest, b1, b);
  }

  lemma {:induction false} ManyAtLeast(c: Codec, n: nat, b: bytes)
    requires WF(c) && DecMany(c, n, b).Ok?
    ensures IsSuffix(DecMany(c, n, b).rest, b)
    ensures |b| - |DecMany(c, n, b).rest| >= n * ElemMin(c)
    decreases c, 2, n
  {
    hide Dec, ElemMin, WF;
    if n > 0 {
      var b1 := Dec(c, b).rest;
      DecAtLeast(c, b);
      ManyAtLeast(c, n - 1, b1);
      SuffixTrans(DecMany(c, n, b).rest, b1, b);
      OneMore(n - 1, ElemMin(c));
    }
  }

  lemma OneMore(n: nat, m: nat)
    ensures (n + 1) * m == m + n * m
  {
  }

  lemma {:induction false} FieldsAtLeast(fs: seq<Codec>, b: bytes)
    requires (forall i :: 0 <= i < |fs| ==> WF(fs[i])) && DecFields(fs, b).Ok?
    ensures IsSuffix(DecFields(fs, b).rest, b)
    ensures |b| - |DecFields(fs, b).rest| >= WireMinSum(fs)
    decreases fs, 0
  {
    if fs != [] {
      var b1 := Dec(fs[0], b).rest;
      DecAtLeast(fs[0], b);
      FieldsAtLeast(fs[1..], b1);
      SuffixTrans(DecFields(fs, b).rest, b1, b);
    }
  }

  lemma UnionAtLeast(c: Codec, b: bytes)
    requires c.Union? && WF(c) && Dec(c, b).Ok?
    ensures IsSuffix(Dec(c, b).rest, b)
    ensures |b| - |Dec(c, b).rest| >= 2
  {
    hide Dec, Lookup;
    UnionFrame(c, b);
  }

  // Whatever the arm does, a union ends right after its body.
  lemma UnionFrame(c: Codec, b: bytes)
    requires c.Union? && Dec(c, b).Ok?
    ensures ReadUvarint(b).Ok? && ReadBlob(ReadUvarint(b).rest).Ok?
    ensures Dec(c, b).rest == ReadBlob(ReadUvarint(b).rest).rest
    ensures IsSuffix(Dec(c, b).rest, b) && |b| - |Dec(c, b).rest| >= 2
  {
    var b1 := ReadUvarint(b).rest;
    assert ReadUvarint(b).Ok? && ReadBlob(b1).Ok? && Dec(c, b).rest == ReadBlob(b1).rest;
    hide Dec, ReadUvarint, ReadBlob;
    ReadUvarintShape(b);
    BlobShape(b1);
    SuffixTrans(ReadBlob(b1).rest, b1, b);
  }

  lemma {:induction false} MapAtLeast(c: Codec, b: bytes)
    requires c.Map? && WF(c) && Dec(c, b).Ok?
    ensures IsSuffix(Dec(c, b).rest, b)
    ensures |b| - |Dec(c, b).rest| >= 1
    decreases c, 0
  {
    hide ReadUvarint;
    var b1 := ReadLength(b).rest;
    ReadUvarintShape(b);
    EntriesAtLeast(c, ReadLength(b).val, b1, []);
    SuffixTrans(Dec(c, b).rest, b1, b);
  }

  /** The bytes one map entry takes at the least. */
  function EntryMin(c: Codec): nat
    requires c.Map?
  {
    KeyMin(c.key) + WireMin(c.val)
  }

  lemma {:induction false} KeyAtLeast(k: Codec, b: bytes)
    requires WF(k) && DecKey(k, b).Ok?
    ensures IsSuffix(DecKey(k, b).rest, b)
    ensures |b| - |DecKey(k, b).rest| >= KeyMin(k) >= WireMin(k)
    decreases k, 2
  {
    if k.Prim? {
      PrimKeyShape(k.kind, b);
    } else {
      DecAtLeast(k, b);
    }
  }

  lemma {:induction false} EntriesAtLeast(c: Codec, n: nat, b: bytes, acc: seq<Entry>)
    requires c.Map? && WF(c) && DecEntries(c, n, b, acc).Ok?
    ensures IsSuffix(DecEntries(c, n, b, acc).rest, b)
    ensures |b| - |DecEntries(c, n, b, acc).rest| >= n * EntryMin(c)
    decreases c, 0, n
  {
    hide Dec, DecKey, Put;
    if n > 0 {
      var k := DecKey(c.key, b);
      var v := Dec(c.val, k.rest);
      KeyAtLeast(c.key, b);
      DecAtLeast(c.val, k.rest);
      var acc' := Put(acc, k.val, v.val);
      EntriesAtLeast(c, n - 1, v.rest, acc');
      var end := DecEntries(c, n, b, acc).rest;
      SuffixTrans(v.rest, k.rest, b);
      SuffixTrans(end, v.rest, b);
      assert n * EntryMin(c) == EntryMin(c) + (n - 1) * EntryMin(c);
    }
  }

  /** The bounds the map decoders test before they start: 3 and 9 bytes an entry, or the analysed sum. */
  function EarlyMin(c: Codec): nat
    requires c.Map?
  {
    match c.mflavour
    case StringMap => 3
    case Uint64Map => 9
    case ReflectMap => WireMin(c.key) + WireMin(c.val)
  }

  lemma EarlyMinSound(c: Codec)
    requires c.Map? && WF(c)
    ensures EarlyMin(c) <= EntryMin(c)
  {
    if c.key.Prim? {
      assert KeyMin(c.key) >= 1;
    }
  }

  // ---------------------------------------------------------------- zero means zero

  lemma {:induction false} ZeroIffMin(c: Codec)
    requires WF(c)
    ensures IsZeroWire(c) <==> WireMin(c) == 0
    decreases c, 1
  {
    match c
    case Seq(f, elem, isArray, length) =>
      if isArray {
        ZeroIffMin(elem);
        if f.OfWords? {
          assert elem.kind.width * elem.kind.parts > 0;
        }
      }
    case Struct(fields) => ZeroIffMinSum(fields);
    case _ =>
  }

  lemma {:induction false} ZeroIffMinSum(fs: seq<Codec>)
    requires forall i :: 0 <= i < |fs| ==> WF(fs[i])
    ensures (forall i :: 0 <= i < |fs| ==> IsZeroWire(fs[i])) <==> WireMinSum(fs) == 0
    decreases fs, 0
  {
    if fs != [] {
      ZeroIffMin(fs[0]);
      ZeroIffMinSum(fs[1..]);
      assert forall i :: 0 <= i < |fs[1..]| ==> fs[1..][i] == fs[i + 1];
      if WireMinSum(fs) == 0 {
        forall i | 0 <= i < |fs|
          ensures IsZeroWire(fs[i])
        {
          assert i == 0 || fs[i] == fs[1..][i - 1];
        }
      }
    }
  }

  /**
   The three notions of a type without wire data coincide: the analysis says so, its lower bound is
   zero, and every value's encoding is empty.
   */
  lemma ZeroWireExactly(c: Codec)
    requires WF(c)
    ensures IsZeroWire(c) <==> WireMin(c) == 0
    ensures IsZeroWire(c) <==> forall v :: Typed(c, v) && Encodable(c, v) ==> Enc(c, v) == []
  {
    ZeroIffMin(c);
    if IsZeroWire(c) {
      forall v | Typed(c, v) && Encodable(c, v)
        ensures Enc(c, v) == []
      {
        RoundTripLaw(c, v, []);
        assert Enc(c, v) + [] == Enc(c, v);
        ZeroWireDecode(c, Enc(c, v));
      }
    } else {
      ZeroValueGood(c);
      EncAtLeast(c, ZeroValue(c));
    }
  }

  // ---------------------------------------------------------------- locality

  lemma ConsumedTwice(b: bytes, mid: bytes, rest: bytes, other: bytes)
    requires IsSuffix(mid, b) && IsSuffix(rest, mid)
    ensures Consumed(b, rest) + other == Consumed(b, mid) + (Consumed(mid, rest) + other)
  {
    SuffixTrans(rest, mid, b);
  }

  lemma BlobLocal(b: bytes, other: bytes)
    requires ReadBlob(b).Ok?
    ensures ReadBlob(Consumed(b, ReadBlob(b).rest) + other) == Ok(ReadBlob(b).val, other)
  {
    var mid, rest, s := ReadLength(b).rest, ReadBlob(b).rest, ReadBlob(b).val;
    ReadUvarintShape(b);
    ReadUvarintLocal(b, s + other);
    assert Consumed(mid, rest) == s;
    ConsumedTwice(b, mid, rest, other);
    TakePrefix(s, other);
  }

  lemma TakeLocal(b: bytes, n: nat, other: bytes)
    requires Take(b, n).Ok?
    ensures Take(Consumed(b, Take(b, n).rest) + other, n) == Ok(Take(b, n).val, other)
  {
    TakePrefix(b[..n], other);
  }

  lemma {:induction false} WordsLocal(b: bytes, width: nat, parts: nat, other: bytes)
    requires DecWords(b, width, parts).Ok?
    ensures var r := DecWords(b, width, parts);
      DecWords(Consumed(b, r.rest) + other, width, parts) == Ok(r.val, other)
  {
    hide Take, FromLE;
    var r := DecWords(b, width, parts);
    if parts == 0 {
      assert Consumed(b, b) + other == other;
    } else {
      var mid := Take(b, width).rest;
      TakeShape(b, width);
      WordsShape(mid, width, parts - 1);
      TakeLocal(b, width, Consumed(mid, r.rest) + other);
      ConsumedTwice(b, mid, r.rest, other);
      WordsLocal(mid, width, parts - 1, other);
    }
  }

  lemma PrimLocal(k: Kind, b: bytes, other: bytes)
    requires DecPrim(k, b).Ok?
    ensures DecPrim(k, Consumed(b, DecPrim(k, b).rest) + other) == Ok(DecPrim(k, b).val, other)
  {
    hide ReadUvarint, ReadBlob, DecWords;
    match k
    case KString => BlobLocal(b, other);
    case KBool => assert (Consumed(b, b[1..]) + other)[1..] == other;
    case KInt(_, _) => ReadUvarintLocal(b, other);
    case KUint(_, _) => ReadUvarintLocal(b, other);
    case KWords(width, parts) => WordsLocal(b, width, parts, other);
  }

  lemma PrimKeyLocal(k: Kind, b: bytes, other: bytes)
    requires DecPrimKey(k, b).Ok?
    ensures DecPrimKey(k, Consumed(b, DecPrimKey(k, b).rest) + other) == Ok(DecPrimKey(k, b).val, other)
  {
    hide Take, FromLE, WrapSigned, DecPrim;
    if FixedKey(k) {
      TakeLocal(b, k.bits / 8, other);
    } else if k.KString? {
      var w := Take(b, 2);
      var rest := DecPrimKey(k, b).rest;
      TakeShape(b, 2);
      TakeShape(w.rest, FromLE(w.val));
      TakeLocal(b, 2, Consumed(w.rest, rest) + other);
      TakeLocal(w.rest, FromLE(w.val), other);
      ConsumedTwice(b, w.rest, rest, other);
    } else {
      PrimLocal(k, b, other);
    }
  }

  /** Replacing everything after the consumed bytes changes neither the value nor where it ends. */
  lemma {:induction false} DecLocal(c: Codec, b: bytes, other: bytes)
    requires WF(c) && Dec(c, b).Ok?
    ensures Dec(c, Consumed(b, Dec(c, b).rest) + other) == Ok(Dec(c, b).val, other)
    decreases c, 1
  {
    hide ReadUvarint, ReadBlob, DecPrim;
    var rest := Dec(c, b).rest;
    match c
    case Prim(k) => PrimLocal(k, b, other);
    case Pointer(elem) =>
      var a := Consumed(b, rest) + other;
      if b[0] == 1 {
        assert a == [1] + other && a[1..] == other;
      } else {
        DecAtLeast(elem, b[1..]);
        assert a[0] == b[0] && a[1..] == Consumed(b[1..], rest) + other;
        DecLocal(elem, b[1..], other);
      }
    case Bytes => BlobLocal(b, other);
    case Bools => BlobLocal(b, other);
    case Seq(_, _, _, _) => SeqLocal(c, b, other);
    case Struct(fields) => FieldsLocal(fields, b, other);
    case Union(_) => UnionLocal(c, b, other);
    case Map(_, _, _) => MapLocal(c, b, other);
  }

  lemma CountLocal(isArray: bool, length: nat, b: bytes, other: bytes)
    requires ReadCount(isArray, length, b).Ok?
    ensures var r := ReadCount(isArray, length, b);
      IsSuffix(r.rest, b) && ReadCount(isArray, length, Consumed(b, r.rest) + other) == Ok(r.val, other)
  {
    hide ReadUvarint;
    if isArray {
      assert Consumed(b, b) + other == other;
    } else {
      ReadUvarintShape(b);
      ReadUvarintLocal(b, other);
    }
  }

  lemma {:induction false} SeqLocal(c: Codec, b: bytes, other: bytes)
    requires c.Seq? && WF(c) && Dec(c, b).Ok?
    ensures Dec(c, Consumed(b, Dec(c, b).rest) + other) == Ok(Dec(c, b).val, other)
    decreases c, 0
  {
    hide DecMany, ReadCount;
    var rest := Dec(c, b).rest;
    var n := ReadCount(c.isArray, c.length, b);
    CountLocal(c.isArray, c.length, b, Consumed(n.rest, rest) + other);
    ManyAtLeast(c.elem, n.val, n.rest);
    ManyLocal(c.elem, n.val, n.rest, other);
    ConsumedTwice(b, n.rest, rest, other);
  }

  lemma {:induction false} ManyLocal(c: Codec, n: nat, b: bytes, other: bytes)
    requires WF(c) && DecMany(c, n, b).Ok?
    ensures var r := DecMany(c, n, b); DecMany(c, n, Consumed(b, r.rest) + other) == Ok(r.val, other)
    decreases c, 2, n
  {
    hide Dec;
    var rest := DecMany(c, n, b).rest;
    if n == 0 {
      assert Consumed(b, b) + other == other;
    } else {
      var mid := Dec(c, b).rest;
      DecAtLeast(c, b);
      ManyAtLeast(c, n - 1, mid);
      DecLocal(c, b, Consumed(mid, rest) + other);
      ManyLocal(c, n - 1, mid, other);
      ConsumedTwice(b, mid, rest, other);
    }
  }

  lemma {:induction false} FieldsLocal(fs: seq<Codec>, b: bytes, other: bytes)
    requires (forall i :: 0 <= i < |fs| ==> WF(fs[i])) && DecFields(fs, b).Ok?
    ensures var r := DecFields(fs, b); DecFields(fs, Consumed(b, r.rest) + other) == Ok(r.val, other)
    decreases fs, 0
  {
    hide Dec, WF;
    var rest := DecFields(fs, b).rest;
    if fs == [] {
      assert Consumed(b, b) + other == other;
    } else {
      var mid := Dec(fs[0], b).rest;
      DecAtLeast(fs[0], b);
      FieldsAtLeast(fs[1..], mid);
      DecLocal(fs[0], b, Consumed(mid, rest) + other);
      FieldsLocal(fs[1..], mid, other);
      ConsumedTwice(b, mid, rest, other);
    }
  }

  lemma UnionLocal(c: Codec, b: bytes, other: bytes)
    requires c.Union? && WF(c) && Dec(c, b).Ok?
    ensures Dec(c, Consumed(b, Dec(c, b).rest) + other) == Ok(Dec(c, b).val, other)
  {
    hide ReadUvarint, ReadBlob;
    UnionFrame(c, b);
    var mid, rest := ReadUvarint(b).rest, Dec(c, b).rest;
    ReadUvarintShape(b);
    BlobShape(mid);
    ReadUvarintLocal(b, Consumed(mid, rest) + other);
    BlobLocal(mid, other);
    ConsumedTwice(b, mid, rest, other);
  }

  lemma {:induction false} MapLocal(c: Codec, b: bytes, other: bytes)
    requires c.Map? && WF(c) && Dec(c, b).Ok?
    ensures Dec(c, Consumed(b, Dec(c, b).rest) + other) == Ok(Dec(c, b).val, other)
    decreases c, 0
  {
    hide ReadUvarint, DecEntries;
    var mid, rest := ReadLength(b).rest, Dec(c, b).rest;
    var n := ReadLength(b).val;
    ReadUvarintShape(b);
    ReadUvarintLocal(b, Consumed(mid, rest) + other);
    EntriesAtLeast(c, n, mid, []);
    EntriesLocal(c, n, mid, [], other);
    ConsumedTwice(b, mid, rest, other);
  }

  lemma {:induction false} KeyLocal(k: Codec, b: bytes, other: bytes)
    requires WF(k) && DecKey(k, b).Ok?
    ensures DecKey(k, Consumed(b, DecKey(k, b).rest) + other) == Ok(DecKey(k, b).val, other)
    decreases k, 2
  {
    if k.Prim? {
      PrimKeyLocal(k.kind, b, other);
    } else {
      DecLocal(k, b, other);
    }
  }

  lemma {:induction false} EntriesLocal(c: Codec, n: nat, b: bytes, acc: seq<Entry>, other: bytes)
    requires c.Map? && WF(c) && DecEntries(c, n, b, acc).Ok?
    ensures var r := DecEntries(c, n, b, acc);
      DecEntries(c, n, Consumed(b, r.rest) + other, acc) == Ok(r.val, other)
    decreases c, 0, n
  {
    hide Dec, DecKey, Put;
    var rest := DecEntries(c, n, b, acc).rest;
    if n == 0 {
      assert Consumed(b, b) + other == other;
    } else {
      var k := DecKey(c.key, b);
      var v := Dec(c.val, k.rest);
      var acc' := Put(acc, k.val, v.val);
      KeyAtLeast(c.key, b);
      DecAtLeast(c.val, k.rest);
      EntriesAtLeast(c, n - 1, v.rest, acc');
      var tail := Consumed(v.rest, rest) + other;
      KeyLocal(c.key, b, Consumed(k.rest, v.rest) + tail);
      DecLocal(c.val, k.rest, tail);
      EntriesLocal(c, n - 1, v.rest, acc', other);
      SuffixTrans(rest, v.rest, k.rest);
      ConsumedTwice(k.rest, v.rest, rest, other);
      ConsumedTwice(b, k.rest, rest, other);
    }
  }

  /** Truncation is always detected: every strict prefix of an encoding fails to decode. */
  lemma TruncationDetected(c: Codec, v: Value, k: nat)
    requires WF(c) && Typed(c, v) && Encodable(c, v) && k < |Enc(c, v)|
    ensures Dec(c, Enc(c, v)[..k]).Fail?
  {
    hide Dec, Enc, WF, Typed, Encodable;
    var e := Enc(c, v);
    var p := e[..k];
    if Dec(c, p).Ok? {
      var rest := Dec(c, p).rest;
      DecAtLeast(c, p);
      DecLocal(c, p, rest + e[k..]);
      assert Consumed(p, rest) + (rest + e[k..]) == e + [];
      RoundTripLaw(c, v, []);
    }
  }
}
