/**
 The library's decoder against the grammar. Whatever the destination held before, and whether the
 bytes are in memory or come from a stream, a payload that `Dec` accepts is decoded to its value.
 */
module Agreement {
  import opened Wire
  import opened Varint
  import opened Codec
  import opened RoundTrip
  import opened Compatibility
  import opened Analysis
  import opened Destination

  /** The destination now views what the grammar reads, and the reader stands where it ends. */
  ghost predicate Delivers(c: Codec, d: Parsed<Cell>, g: Parsed<Value>) {
    g.Ok? && d.Ok? && Shaped(c, d.val) && View(d.val) == g.val && d.rest == g.rest
  }

  lemma LengthShape(b: bytes)
    requires ReadLength(b).Ok?
    ensures IsSuffix(ReadLength(b).rest, b) && |ReadLength(b).rest| < |b|
  {
    ReadUvarintShape(b);
  }

  // ---------------------------------------------------------------- blobs

  lemma BlobFrom(stream: bool, b: bytes)
    requires ReadBlob(b).Ok? && |b| <= MAX_LEN
    ensures ReadBlobFrom(stream, b) == ReadBlob(b)
  {
    LengthShape(b);
  }

  lemma BlobFromOnly(stream: bool, b: bytes)
    requires ReadBlobFrom(stream, b).Ok?
    ensures ReadBlob(b) == ReadBlobFrom(stream, b)
  {
  }

  lemma CopyView(len: nat, mem: bytes, b: bytes)
    requires len <= |b|
    ensures View(CBlob(len, CopyOver(ResizedBytes(mem, len), len, b))) == VStr(b[..len])
    ensures After(len, b) == b[len..]
  {
  }

  lemma BytesOk(stream: bool, x: Cell, b: bytes)
    requires Shaped(Bytes, x) && |b| <= MAX_LEN && Dec(Bytes, b).Ok?
    ensures Delivers(Bytes, BytesInto(stream, x, b), Dec(Bytes, b))
    ensures Delivers(Bytes, DirectBytes(stream, x, b), Dec(Bytes, b))
    ensures Delivers(Bools, BoolsInto(stream, x, b), Dec(Bools, b))
  {
    LengthShape(b);
    hide ReadLength, CopyOver, ResizedBytes;
    var n, b1 := ReadLength(b).val, ReadLength(b).rest;
    CopyView(n, x.mem, b1);
    assert n == 0 ==> b1[..n] == [] && b1[n..] == b1;
  }

  // ---------------------------------------------------------------- every accepted payload

  lemma {:induction false} IntoOk(stream: bool, c: Codec, x: Cell, b: bytes)
    requires WF(c) && Shaped(c, x) && |b| <= MAX_LEN && Dec(c, b).Ok?
    ensures Delivers(c, DecInto(stream, c, x, b), Dec(c, b))
    decreases c, 1
  {
    match c
    case Prim(k) =>
      if k.KString? {
        BlobFrom(stream, b);
      }
    case Pointer(elem) =>
      if b[0] != 1 {
        IntoOk(stream, elem, if x.CPtr? then x.target else Zero(elem), b[1..]);
      }
    case Bytes => BytesOk(stream, x, b);
    case Bools => BytesOk(stream, x, b);
    case Seq(_, _, isArray, _) =>
      if isArray {
        ArrayOk(stream, c, x, b);
      } else {
        SliceOk(stream, c, x, b);
      }
    case Struct(fields) => FieldsOk(stream, Direct(fields), fields, x.fields, b);
    case Union(_) => UnionOk(stream, c, x, b);
    case Map(_, _, _) => MapOk(stream, c, x, b);
  }

  lemma {:induction false} CellsOk(stream: bool, c: Codec, xs: seq<Cell>, b: bytes)
    requires WF(c) && |b| <= MAX_LEN && DecMany(c, |xs|, b).Ok?
    requires forall i :: 0 <= i < |xs| ==> Shaped(c, xs[i])
    ensures var d, g := CellsInto(stream, c, xs, b), DecMany(c, |xs|, b);
      && d.Ok? && |d.val| == |xs| && d.rest == g.rest
      && (forall i :: 0 <= i < |xs| ==> Shaped(c, d.val[i]))
      && Views(d.val, |xs|) == g.val
    decreases c, 2, |xs|
  {
    hide Dec, DecInto, Shaped, View;
    if xs != [] {
      IntoOk(stream, c, xs[0], b);
      DecAtLeast(c, b);
      CellsOk(stream, c, xs[1..], Dec(c, b).rest);
    }
  }

  // One level of the definitions, so that the proofs below need not open the recursion.
  lemma SeqParts(c: Codec, b: bytes)
    requires c.Seq? && Dec(c, b).Ok?
    ensures var n := ReadCount(c.isArray, c.length, b);
      && n.Ok? && DecMany(c.elem, n.val, n.rest).Ok?
      && Dec(c, b) == Ok(VSeq(DecMany(c.elem, n.val, n.rest).val), DecMany(c.elem, n.val, n.rest).rest)
  {
  }

  lemma ArrayShape(c: Codec, x: Cell)
    requires c.Seq? && c.isArray
    ensures Shaped(c, x) <==>
      x.CRec? && |x.fields| == c.length && forall i :: 0 <= i < c.length ==> Shaped(c.elem, x.fields[i])
    ensures x.CRec? ==> View(x) == VSeq(Views(x.fields, |x.fields|))
  {
  }

  lemma SliceShape(c: Codec, x: Cell)
    requires c.Seq? && !c.isArray
    ensures Shaped(c, x) <==>
      x.CSlice? && x.len <= |x.cells| && forall i :: 0 <= i < |x.cells| ==> Shaped(c.elem, x.cells[i])
    ensures x.CSlice? ==> View(x) == VSeq(Views(x.cells, x.len))
  {
  }

  lemma {:induction false} ArrayOk(stream: bool, c: Codec, x: Cell, b: bytes)
    requires c.Seq? && c.isArray && WF(c) && Shaped(c, x) && |b| <= MAX_LEN && Dec(c, b).Ok?
    ensures Delivers(c, ArrayInto(stream, c, x, b), Dec(c, b))
    decreases c, 0
  {
    SeqParts(c, b);
    ArrayShape(c, x);
    ArrayCheckPasses(stream, c, b);
    hide Dec, DecMany, CellsInto, Shaped, View, Views, ArrayCheck;
    CellsOk(stream, c.elem, x.fields, b);
    ArrayShape(c, CRec(CellsInto(stream, c.elem, x.fields, b).val));
  }

  lemma ArrayCheckPasses(stream: bool, c: Codec, b: bytes)
    requires c.Seq? && c.isArray && WF(c) && |b| <= MAX_LEN && DecMany(c.elem, c.length, b).Ok?
    ensures ArrayCheck(stream, c, b)
  {
    ManyAtLeast(c.elem, c.length, b);
    assert c.flavour.OfString? ==> ElemMin(c.elem) == 1;
  }

  lemma DivAtMost(n: nat, m: nat, total: nat)
    requires m > 0 && n * m <= total
    ensures n <= total / m
  {
    var q := total / m;
    assert total == m * q + total % m;
    assert n * m < (q + 1) * m;
    CancelFactor(n, q + 1, m);
  }

  lemma CancelFactor(n: nat, k: nat, m: nat)
    requires n * m < k * m
    ensures n < k
  {
  }

  /** The early checks never turn down a payload whose elements the loop would accept. */
  lemma SliceCheckPasses(stream: bool, c: Codec, n: nat, b: bytes)
    requires c.Seq? && WF(c) && |b| <= MAX_LEN && DecMany(c.elem, n, b).Ok?
    ensures SliceCheck(stream, c, n, b)
  {
    var m := ElemMin(c.elem);
    ManyAtLeast(c.elem, n, b);
    ElemMinAtLeast(c.elem);
    match c.flavour
    case Generic =>
      ScaleUp(n, WireMin(c.elem), m);
      if WireMin(c.elem) > 0 {
        DivAtMost(n, WireMin(c.elem), |b|);
      }
    case OfWords =>
      if m > 0 {
        DivAtMost(n, m, MAX_INT);
      }
    case _ =>
      assert m == 1;
  }

  lemma {:induction false} SliceOk(stream: bool, c: Codec, x: Cell, b: bytes)
    requires c.Seq? && !c.isArray && WF(c) && Shaped(c, x) && |b| <= MAX_LEN && Dec(c, b).Ok?
    ensures Delivers(c, SliceInto(stream, c, x, b), Dec(c, b))
    decreases c, 0
  {
    LengthShape(b);
    SeqParts(c, b);
    SliceShape(c, x);
    hide Dec, DecMany, ElementsInto, Shaped, View, Views, ReadLength, SliceCheck, Resized, Fresh;
    var n, b1 := ReadLength(b).val, ReadLength(b).rest;
    SliceCheckPasses(stream, c, n, b1);
    if c.flavour.Generic? && IsZeroWire(c.elem) {
      ZeroWireMany(c.elem, n, b1);
      ZeroWireViews(c.elem, Resized(c.elem, x.cells, n), n);
      SliceShape(c, CSlice(n, Resized(c.elem, x.cells, n)));
    } else {
      ElementsOk(stream, c.elem, x.cells, n, b1);
      SliceShape(c, CSlice(n, ElementsInto(stream, c.elem, x.cells, n, b1).val));
    }
  }

  /** The elements of a slice that was resized to `n`, stale or fresh, and what stays beyond them. */
  lemma {:induction false} ElementsOk(stream: bool, c: Codec, cells: seq<Cell>, n: nat, b: bytes)
    requires WF(c) && |b| <= MAX_LEN && DecMany(c, n, b).Ok? && forall i :: 0 <= i < |cells| ==> Shaped(c, cells[i])
    ensures var d, g := ElementsInto(stream, c, cells, n, b), DecMany(c, n, b);
      && d.Ok? && d.rest == g.rest && n <= |d.val|
      && (forall i :: 0 <= i < |d.val| ==> Shaped(c, d.val[i]))
      && Views(d.val, n) == g.val
    decreases c, 3
  {
    hide Shaped, Dec, DecInto, View;
    var mem := Resized(c, cells, n);
    CellsOk(stream, c, mem[..n], b);
    ViewsPrefix(CellsInto(stream, c, mem[..n], b).val, mem[n..]);
  }

  // A zero-wire variable has one view, stale or not.
  lemma {:induction false} ZeroWireView(c: Codec, x: Cell)
    requires IsZeroWire(c) && Shaped(c, x)
    ensures View(x) == ZeroValue(c)
    decreases c, 1
  {
    match c
    case Seq(_, elem, _, length) => ZeroWireViews(elem, x.fields, length);
    case Struct(fields) => ZeroWireFieldViews(fields, x.fields);
  }

  lemma {:induction false} ZeroWireViews(c: Codec, xs: seq<Cell>, n: nat)
    requires n <= |xs| && (n == 0 || IsZeroWire(c)) && forall i :: 0 <= i < |xs| ==> Shaped(c, xs[i])
    ensures Views(xs, n) == Copies(ZeroValue(c), n)
    decreases c, 2, n
  {
    if n > 0 {
      ZeroWireView(c, xs[0]);
      ZeroWireViews(c, xs[1..], n - 1);
    }
  }

  lemma {:induction false} ZeroWireFieldViews(fs: seq<Codec>, xs: seq<Cell>)
    requires |xs| == |fs| && forall i :: 0 <= i < |fs| ==> IsZeroWire(fs[i]) && Shaped(fs[i], xs[i])
    ensures Views(xs, |xs|) == ZeroFields(fs)
    decreases fs, 0
  {
    if fs != [] {
      ZeroWireView(fs[0], xs[0]);
      ZeroWireFieldViews(fs[1..], xs[1..]);
    }
  }

  lemma {:induction false} FieldsOk(stream: bool, direct: bool, fs: seq<Codec>, xs: seq<Cell>, b: bytes)
    requires |xs| == |fs| && |b| <= MAX_LEN && DecFields(fs, b).Ok?
    requires forall i :: 0 <= i < |fs| ==> WF(fs[i]) && Shaped(fs[i], xs[i])
    ensures var d, g := FieldsInto(stream, direct, fs, xs, b), DecFields(fs, b);
      && d.Ok? && |d.val| == |xs| && d.rest == g.rest
      && (forall i :: 0 <= i < |xs| ==> Shaped(fs[i], d.val[i]))
      && Views(d.val, |xs|) == g.val
    decreases fs, 0
  {
    hide Dec, FieldInto, Shaped, View, WF;
    if fs != [] {
      FieldOk(stream, direct, fs[0], xs[0], b);
      DecAtLeast(fs[0], b);
      FieldsOk(stream, direct, fs[1..], xs[1..], Dec(fs[0], b).rest);
    }
  }

  lemma {:induction false} FieldOk(stream: bool, direct: bool, f: Codec, x: Cell, b: bytes)
    requires WF(f) && Shaped(f, x) && |b| <= MAX_LEN && Dec(f, b).Ok?
    ensures Delivers(f, FieldInto(stream, direct, f, x, b), Dec(f, b))
    decreases f, 2
  {
    if direct && f.Bytes? {
      BytesOk(stream, x, b);
    } else if direct && IsVaruints(f) {
      VaruintsOk(stream, f, x, b);
    } else {
      IntoOk(stream, f, x, b);
    }
  }

  lemma VaruintCount(c: Codec, n: nat, b: bytes)
    requires c.Prim? && c.kind.KUint? && WF(c) && DecMany(c, n, b).Ok?
    ensures n <= |b|
  {
    hide DecMany;
    ManyAtLeast(c, n, b);
  }

  lemma {:induction false} VaruintsOk(stream: bool, f: Codec, x: Cell, b: bytes)
    requires IsVaruints(f) && WF(f) && Shaped(f, x) && |b| <= MAX_LEN && Dec(f, b).Ok?
    ensures Delivers(f, DirectVaruints(stream, f, x, b), Dec(f, b))
    decreases f, 0
  {
    LengthShape(b);
    SeqParts(f, b);
    SliceShape(f, x);
    var n, b1 := ReadLength(b).val, ReadLength(b).rest;
    VaruintCount(f.elem, n, b1);
    hide Dec, DecMany, ElementsInto, Shaped, View, Views, ReadLength, WF;
    ElementsOk(stream, f.elem, x.cells, n, b1);
    SliceShape(f, CSlice(n, ElementsInto(stream, f.elem, x.cells, n, b1).val));
  }

  lemma NilViews(n: nat, i: int, y: Cell)
    requires -1 <= i < n
    ensures Views(if i < 0 then CNils(n) else CNils(n)[i := CPtr(y)], n)
         == if i < 0 then Nils(n) else Nils(n)[i := VPtr(View(y))]
  {
    var xs := if i < 0 then CNils(n) else CNils(n)[i := CPtr(y)];
    forall j | 0 <= j < n
      ensures Views(xs, n)[j] == View(xs[j])
    {
      ViewsAt(xs, n, j);
    }
  }

  lemma {:induction false} UnionOk(stream: bool, c: Codec, x: Cell, b: bytes)
    requires c.Union? && WF(c) && Shaped(c, x) && |b| <= MAX_LEN && Dec(c, b).Ok?
    ensures Delivers(c, UnionInto(stream, c, x, b), Dec(c, b))
    decreases c, 0
  {
    UnionFrame(c, b);
    var b1 := ReadUvarint(b).rest;
    ReadUvarintShape(b);
    BlobFrom(stream, b1);
    BlobSize(b1);
    hide ReadUvarint, ReadBlob, ReadBlobFrom, Lookup, Views, CNils, Nils;
    var body := ReadBlob(b1).val;
    var i := Lookup(c.arms, ReadUvarint(b).val);
    NilShapes(c);
    if i < 0 {
      NilViews(|c.arms|, i, CNil);
    } else {
      var arm := c.arms[i].codec;
      var t := if x.slots[i].CPtr? then x.slots[i].target else Zero(arm);
      IntoOk(false, arm, t, body);
      NilViews(|c.arms|, i, DecInto(false, arm, t, body).val);
    }
  }

  lemma NilShapes(c: Codec)
    requires c.Union?
    ensures Shaped(c, CSlots(CNils(|c.arms|)))
    ensures forall i, y :: 0 <= i < |c.arms| && Shaped(c.arms[i].codec, y) ==>
      Shaped(c, CSlots(CNils(|c.arms|)[i := CPtr(y)]))
  {
  }

  lemma BlobSize(b: bytes)
    requires ReadBlob(b).Ok?
    ensures |ReadBlob(b).val| <= |b|
  {
    LengthShape(b);
  }

  lemma MapParts(c: Codec, b: bytes)
    requires c.Map? && Dec(c, b).Ok?
    ensures var n := ReadLength(b);
      && n.Ok? && DecEntries(c, n.val, n.rest, []).Ok?
      && Dec(c, b) == Ok(VMap(DecEntries(c, n.val, n.rest, []).val), DecEntries(c, n.val, n.rest, []).rest)
  {
  }

  lemma {:induction false} MapOk(stream: bool, c: Codec, x: Cell, b: bytes)
    requires c.Map? && WF(c) && Shaped(c, x) && |b| <= MAX_LEN && Dec(c, b).Ok?
    ensures Delivers(c, DecInto(stream, c, x, b), Dec(c, b))
    decreases c, 0
  {
    LengthShape(b);
    MapParts(c, b);
    hide ReadLength, EntriesInto, DecEntries, Dec, MapCheck, WF;
    var n, b1 := ReadLength(b).val, ReadLength(b).rest;
    MapCheckPasses(stream, c, n, b1);
    EntriesOk(stream, c, n, b1, []);
  }

  lemma MapCheckPasses(stream: bool, c: Codec, n: nat, b: bytes)
    requires c.Map? && WF(c) && DecEntries(c, n, b, []).Ok?
    ensures MapCheck(stream, c, n, b)
  {
    hide DecEntries, WF;
    EntriesAtLeast(c, n, b, []);
    EarlyMinSound(c);
    ScaleUp(n, EarlyMin(c), EntryMin(c));
    if EarlyMin(c) > 0 {
      DivAtMost(n, EarlyMin(c), |b|);
    }
  }

  lemma {:induction false} KeyIntoOk(stream: bool, k: Codec, b: bytes)
    requires WF(k) && |b| <= MAX_LEN && DecKey(k, b).Ok?
    ensures KeyInto(stream, k, b) == DecKey(k, b)
    decreases k, 2
  {
    if !(k.Prim? && (FixedKey(k.kind) || k.kind.KString?)) {
      IntoOk(stream, k, Zero(k), b);
    }
  }

  lemma {:induction false} EntriesOk(stream: bool, c: Codec, n: nat, b: bytes, acc: seq<Entry>)
    requires c.Map? && WF(c) && |b| <= MAX_LEN && DecEntries(c, n, b, acc).Ok?
    ensures EntriesInto(stream, c, n, b, acc) == DecEntries(c, n, b, acc)
    decreases c, 0, n
  {
    hide Dec, DecInto, DecKey, KeyInto, Put, View;
    if n > 0 {
      var k := DecKey(c.key, b);
      var v := Dec(c.val, k.rest);
      KeyAtLeast(c.key, b);
      DecAtLeast(c.val, k.rest);
      KeyIntoOk(stream, c.key, b);
      IntoOk(stream, c.val, Zero(c.val), k.rest);
      EntriesOk(stream, c, n - 1, v.rest, Put(acc, k.val, v.val));
    }
  }

  // ---------------------------------------------------------------- the laws

  /**
   Decoding an encoder's output does not depend on the destination: whatever `x` held, it ends up
   viewing the value, and exactly the encoding is consumed.
   */
  lemma DestinationIndependent(stream: bool, c: Codec, x: Cell, v: Value, rest: bytes)
    requires WF(c) && Shaped(c, x) && Typed(c, v) && Encodable(c, v) && |Enc(c, v) + rest| <= MAX_LEN
    ensures var d := DecInto(stream, c, x, Enc(c, v) + rest);
      d.Ok? && Shaped(c, d.val) && View(d.val) == v && d.rest == rest
  {
    hide Dec, DecInto, Enc, WF, Typed, Encodable, Shaped, View;
    RoundTripLaw(c, v, rest);
    IntoOk(stream, c, x, Enc(c, v) + rest);
  }

  /** A reader whose schema lacks arms, decoding into any destination. */
  lemma ForwardInto(stream: bool, w: Codec, r: Codec, x: Cell, v: Value, rest: bytes)
    requires WF(w) && WF(r) && Erases(w, r) && Shaped(r, x) && Typed(w, v) && Encodable(w, v)
    requires |Enc(w, v) + rest| <= MAX_LEN
    ensures var d := DecInto(stream, r, x, Enc(w, v) + rest);
      d.Ok? && View(d.val) == Project(w, r, v) && d.rest == rest
  {
    hide Dec, DecInto, Enc, WF, Typed, Encodable, Shaped, View;
    ForwardCompatible(w, r, v, rest);
    IntoOk(stream, r, x, Enc(w, v) + rest);
  }
}
