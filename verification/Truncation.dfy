/**
 Truncated input. Over a used destination a strict prefix of an encoding may slip through in memory;
 on a stream it never does, because an arm body that is cut short is not handed out.
 */
module Truncation {
  import opened Wire
  import opened Varint
  import opened Codec
  import opened Compatibility
  import opened Analysis
  import opened Destination
  import opened Agreement
  import opened Acceptance
  import opened SlipGuards

  // ---------------------------------------------------------------- more input never mends a slip on a stream

  /**
   A stream slips only inside an arm body that is all there and does not decode, or on a count over
   the limit; the grammar then rejects the input however it goes on.
   */
  lemma {:induction false} SlipsOnStream(c: Codec, x: Cell, b: bytes, more: bytes)
    requires WF(c) && Shaped(c, x) && |b| <= MAX_LEN && SlipsIn(true, c, x, b)
    ensures Dec(c, b + more).Fail?
    decreases c, 1
  {
    match c
    case Pointer(elem) =>
      assert (b + more)[1..] == b[1..] + more;
      SlipsOnStream(elem, x.target, b[1..], more);
    case Seq(_, elem, isArray, length) =>
      if isArray {
        ManyOnStream(elem, x.fields, b, more);
      } else {
        SliceOnStream(c, x, b, more);
      }
    case Struct(fields) => FieldsOnStream(Direct(fields), fields, x.fields, b, more);
    case Union(_) => UnionOnStream(c, x, b, more);
  }

  lemma LengthGoesOn(b: bytes, more: bytes)
    requires ReadLength(b).Ok?
    ensures ReadLength(b + more) == Ok(ReadLength(b).val, ReadLength(b).rest + more)
    ensures |ReadLength(b).rest| <= |b|
  {
    UvarintGoesOn(b, more);
  }

  lemma UvarintGoesOn(b: bytes, more: bytes)
    requires ReadUvarint(b).Ok?
    ensures ReadUvarint(b + more) == Ok(ReadUvarint(b).val, ReadUvarint(b).rest + more)
    ensures |ReadUvarint(b).rest| <= |b|
  {
    var r := ReadUvarint(b).rest;
    ReadUvarintShape(b);
    ReadUvarintLocal(b, r + more);
    assert Consumed(b, r) + (r + more) == b + more;
  }

  lemma DecGoesOn(c: Codec, b: bytes, more: bytes)
    requires WF(c) && Dec(c, b).Ok?
    ensures Dec(c, b + more) == Ok(Dec(c, b).val, Dec(c, b).rest + more)
    ensures |Dec(c, b).rest| <= |b|
  {
    hide Dec;
    var r := Dec(c, b).rest;
    DecAtLeast(c, b);
    DecLocal(c, b, r + more);
    assert Consumed(b, r) + (r + more) == b + more;
  }

  lemma {:induction false} ManyOnStream(c: Codec, xs: seq<Cell>, b: bytes, more: bytes)
    requires WF(c) && |b| <= MAX_LEN && forall i :: 0 <= i < |xs| ==> Shaped(c, xs[i])
    requires SlipsMany(true, c, xs, b)
    ensures DecMany(c, |xs|, b + more).Fail?
    decreases c, 2, |xs|
  {
    hide Dec, DecInto, SlipsIn, Shaped, WF;
    if SlipsIn(true, c, xs[0], b) {
      SlipsOnStream(c, xs[0], b, more);
    } else {
      DecGoesOn(c, b, more);
      ManyOnStream(c, xs[1..], Dec(c, b).rest, more);
    }
  }

  lemma {:induction false} SliceOnStream(c: Codec, x: Cell, b: bytes, more: bytes)
    requires c.Seq? && !c.isArray && WF(c) && Shaped(c, x) && |b| <= MAX_LEN && SlipsSlice(true, c, x, b)
    ensures Dec(c, b + more).Fail?
    decreases c, 0
  {
    LengthGoesOn(b, more);
    hide ReadLength, SliceCheck, DecMany;
    var n := ReadLength(b);
    if !(c.flavour.Generic? && IsZeroWire(c.elem)) {
      ManyOnStream(c.elem, x.cells[..n.val], n.rest, more);
    }
  }

  lemma {:induction false} FieldsOnStream(direct: bool, fs: seq<Codec>, xs: seq<Cell>, b: bytes, more: bytes)
    requires |xs| == |fs| && |b| <= MAX_LEN
    requires forall i :: 0 <= i < |fs| ==> WF(fs[i]) && Shaped(fs[i], xs[i])
    requires SlipsFields(true, direct, fs, xs, b)
    ensures DecFields(fs, b + more).Fail?
    decreases fs, 0
  {
    hide Dec, FieldInto, SlipsIn, Shaped, WF;
    if SlipsField(true, direct, fs[0], xs[0], b) {
      SlipsOnStream(fs[0], xs[0], b, more);
    } else {
      DecGoesOn(fs[0], b, more);
      FieldsOnStream(direct, fs[1..], xs[1..], Dec(fs[0], b).rest, more);
    }
  }

  lemma UnionOnStream(c: Codec, x: Cell, b: bytes, more: bytes)
    requires c.Union? && WF(c) && Shaped(c, x) && |b| <= MAX_LEN && SlipsUnion(true, c, x, b)
    ensures Dec(c, b + more).Fail?
    decreases c, 0
  {
    var b1 := ReadUvarint(b).rest;
    UvarintGoesOn(b, more);
    BlobFromOnly(true, b1);
    BlobGoesOn(b1, more);
    BlobSize(b1);
    hide ReadUvarint, ReadBlob, ReadBlobFrom;
    var i := Lookup(c.arms, ReadUvarint(b).val);
    IntoExactly(false, c.arms[i].codec, x.slots[i].target, ReadBlob(b1).val);
  }

  lemma BlobGoesOn(b: bytes, more: bytes)
    requires ReadBlob(b).Ok?
    ensures ReadBlob(b + more) == Ok(ReadBlob(b).val, ReadBlob(b).rest + more)
  {
    var r := ReadBlob(b).rest;
    BlobShape(b);
    BlobLocal(b, r + more);
    assert Consumed(b, r) + (r + more) == b + more;
  }

  // ---------------------------------------------------------------- truncated encodings

  /**
   A truncated encoding is accepted over a destination exactly when decoding it slips there. It never
   does over a fresh destination, and it never does on a stream, whatever the destination held.
   */
  lemma TruncationExactly(stream: bool, c: Codec, x: Cell, v: Value, k: nat)
    requires WF(c) && Shaped(c, x) && Typed(c, v) && Encodable(c, v) && k < |Enc(c, v)| <= MAX_LEN
    ensures DecInto(stream, c, x, Enc(c, v)[..k]).Ok? <==> SlipsIn(stream, c, x, Enc(c, v)[..k])
    ensures stream || x == Zero(c) ==> DecInto(stream, c, x, Enc(c, v)[..k]).Fail?
  {
    hide Dec, DecInto, Enc, WF, Typed, Encodable, Shaped, SlipsIn;
    var whole := Enc(c, v);
    TruncationDetected(c, v, k);
    IntoExactly(stream, c, x, whole[..k]);
    FreshNeverSlips(stream, c, whole[..k]);
    NoSlipInPrefix(c, x, v, k);
  }

  /** A stream that ends early never cuts an arm body short: the body would not be handed out. */
  lemma NoSlipInPrefix(c: Codec, x: Cell, v: Value, k: nat)
    requires WF(c) && Shaped(c, x) && Typed(c, v) && Encodable(c, v) && k < |Enc(c, v)| <= MAX_LEN
    ensures !SlipsIn(true, c, x, Enc(c, v)[..k])
  {
    hide Dec, Enc, WF, Typed, Encodable, Shaped, SlipsIn;
    var whole := Enc(c, v);
    assert whole[..k] + whole[k..] == whole + [];
    RoundTripLaw(c, v, []);
    if SlipsIn(true, c, x, whole[..k]) {
      SlipsOnStream(c, x, whole[..k], whole[k..]);
    }
  }

  // ---------------------------------------------------------------- the condition is not empty

  /**
   A complete message on a stream: the arm is already set, its `[]byte` field has room for two bytes,
   and the body ends after one of them. The grammar rejects it, the decoder keeps a stale byte.
   */
  lemma ArmSlips(record: Codec, cell: Cell, b: bytes)
    requires record == Struct([Prim(KUint(8, false)), Bytes])
    requires cell == CRec([CScalar(VUint(0)), CBlob(0, [7, 7])])
    requires b == [1, 3, 5, 2, 1]
    ensures var c, x := Union([Arm(1, record)]), CSlots([CPtr(cell)]);
      && WF(c) && Shaped(c, x) && SlipsIn(true, c, x, b)
      && Dec(c, b).Fail? && DecInto(true, c, x, b).Ok?
  {
    var c := Union([Arm(1, record)]);
    assert WF(c);
    var body: bytes := [5, 2, 1];
    RecordSlips(record, cell, body);
    MessageParts();
    hide SlipsIn, Dec, DecInto, ReadUvarint, ReadBlobFrom, WF;
    ArmSlipsIn(record, cell, body, b);
    IntoExactly(true, c, CSlots([CPtr(cell)]), b);
  }

  lemma ArmSlipsIn(arm: Codec, cell: Cell, body: bytes, b: bytes)
    requires Shaped(arm, cell) && SlipsIn(false, arm, cell, body)
    requires ReadUvarint(b).Ok? && ReadUvarint(b).val == 1
    requires ReadBlobFrom(true, ReadUvarint(b).rest).Ok? && ReadBlobFrom(true, ReadUvarint(b).rest).val == body
    ensures var c, x := Union([Arm(1, arm)]), CSlots([CPtr(cell)]); Shaped(c, x) && SlipsIn(true, c, x, b)
  {
    hide ReadUvarint, ReadBlobFrom, SlipsFields, SlipsMany;
    var c, x := Union([Arm(1, arm)]), CSlots([CPtr(cell)]);
    assert Lookup(c.arms, 1) == 0;
    assert Shaped(c, x);
    assert SlipsUnion(true, c, x, b);
  }

  lemma MessageParts()
    ensures ReadUvarint([1, 3, 5, 2, 1]) == Ok(1, [3, 5, 2, 1])
    ensures ReadBlobFrom(true, [3, 5, 2, 1]) == Ok([5, 2, 1], [])
  {
    var body: bytes := [5, 2, 1];
    assert body[..3] == body && body[3..] == [];
    assert ReadUvarint([3, 5, 2, 1]) == Ok(3, body);
  }

  lemma RecordSlips(record: Codec, x: Cell, body: bytes)
    requires record == Struct([Prim(KUint(8, false)), Bytes])
    requires x == CRec([CScalar(VUint(0)), CBlob(0, [7, 7])]) && body == [5, 2, 1]
    ensures Shaped(record, x) && SlipsIn(false, record, x, body)
  {
    var fs, xs := record.fields, x.fields;
    assert fs[0].Prim?;
    assert Direct(fs);
    BytesSlip(xs[1]);
    HeadBytes(fs[0], body);
    assert fs[1..] == [Bytes] && xs[1..] == [xs[1]];
    hide Dec, Direct, SlipsField;
    assert SlipsFields(false, true, fs, xs, body);
  }

  lemma HeadBytes(f: Codec, b: bytes)
    requires f == Prim(KUint(8, false)) && b == [5, 2, 1]
    ensures Dec(f, b) == Ok(VUint(5), [2, 1])
    ensures forall x :: Shaped(f, x) ==> !SlipsField(false, true, f, x, b)
  {
    assert ReadUvarint(b) == Ok(5, [2, 1]);
  }

  lemma BytesSlip(x: Cell)
    requires x == CBlob(0, [7, 7])
    ensures SlipsFields(false, true, [Bytes], [x], [2, 1])
  {
    assert ReadUvarint([2, 1]) == Ok(2, [1]);
    assert DecFields([], []).Ok?;
  }

  // ---------------------------------------------------------------- at any depth

  /**
   What slips on its own slips inside another type that holds it, as long as the old value is used again: behind a
   pointer that is set, in an array, in a struct, and in a slice with the room whose early check lets it pass.
   */
  lemma SlipsInside(stream: bool, elem: Codec, y: Cell, b: bytes)
    requires WF(elem) && Shaped(elem, y) && SlipsIn(stream, elem, y, b) && |b| <= MAX_LEN
    ensures Shaped(Pointer(elem), CPtr(y)) && SlipsIn(stream, Pointer(elem), CPtr(y), [0] + b)
    ensures var c := Seq(Generic, elem, true, 1); Shaped(c, CRec([y])) && SlipsIn(stream, c, CRec([y]), b)
    ensures Shaped(Struct([elem]), CRec([y])) && SlipsIn(stream, Struct([elem]), CRec([y]), b)
    ensures var c := Seq(Generic, elem, false, 0);
      Shaped(c, CSlice(1, [y])) &&
      (!IsZeroWire(elem) && SliceCheck(stream, c, 1, b) ==> SlipsIn(stream, c, CSlice(1, [y]), [1] + b))
  {
    SlipsInSlice(stream, elem, y, b);
    assert ([0] + b)[1..] == b;
    IntoExactly(stream, elem, y, b);
    SlipsInOne(stream, elem, y, b);
    SlipsInRecord(stream, elem, y, b);
  }

  lemma SlipsInOne(stream: bool, elem: Codec, y: Cell, b: bytes)
    requires Shaped(elem, y) && SlipsIn(stream, elem, y, b) && DecInto(stream, elem, y, b).Ok?
    ensures var c := Seq(Generic, elem, true, 1); Shaped(c, CRec([y])) && SlipsIn(stream, c, CRec([y]), b)
  {
    var c, x := Seq(Generic, elem, true, 1), CRec([y]);
    assert Shaped(c, x) && ArrayCheck(stream, c, b);
    assert DecMany(elem, 0, DecInto(stream, elem, y, b).rest).Ok?;
    hide Dec, DecInto, Shaped, DecMany;
    assert SlipsMany(stream, elem, [y], b);
  }

  lemma SlipsInSlice(stream: bool, elem: Codec, y: Cell, b: bytes)
    requires WF(elem) && Shaped(elem, y) && SlipsIn(stream, elem, y, b) && |b| <= MAX_LEN
    ensures var c := Seq(Generic, elem, false, 0);
      Shaped(c, CSlice(1, [y])) &&
      (!IsZeroWire(elem) && SliceCheck(stream, c, 1, b) ==> SlipsIn(stream, c, CSlice(1, [y]), [1] + b))
  {
    var c, x := Seq(Generic, elem, false, 0), CSlice(1, [y]);
    assert Shaped(c, x);
    OneRead(b);
    IntoExactly(stream, elem, y, b);
    assert DecMany(elem, 0, DecInto(stream, elem, y, b).rest).Ok?;
    hide Dec, DecInto, Shaped, DecMany, ReadLength, SliceCheck, IsZeroWire;
    assert x.cells[..1] == [y];
    assert SlipsMany(stream, elem, [y], b);
  }

  lemma OneRead(b: bytes)
    ensures ReadLength([1] + b) == Ok(1, b)
  {
    UvarintRoundTrip(1, b);
  }

  lemma SlipsInRecord(stream: bool, elem: Codec, y: Cell, b: bytes)
    requires Shaped(elem, y) && SlipsIn(stream, elem, y, b) && DecInto(stream, elem, y, b).Ok?
    ensures Shaped(Struct([elem]), CRec([y])) && SlipsIn(stream, Struct([elem]), CRec([y]), b)
  {
    var fs, x := [elem], CRec([y]);
    assert !elem.Prim?;
    assert fs[1..] == [] && [y][1..] == [];
    assert Shaped(Struct(fs), x) && !Direct(fs);
    assert DecFields([], DecInto(stream, elem, y, b).rest).Ok?;
    hide Dec, DecInto, DecFields, Direct;
    assert SlipsField(stream, false, elem, y, b);
    assert SlipsFields(stream, false, fs, [y], b);
  }

  /** Inside the body of an arm that is set, what slips in memory slips, whether the message is in memory or not. */
  lemma SlipsInArm(stream: bool, tag: nat, elem: Codec, y: Cell, body: bytes, rest: bytes)
    requires WF(elem) && Shaped(elem, y) && SlipsIn(false, elem, y, body)
    requires 1 <= tag <= MAX_TAG && |body| <= MAX_LEN
    ensures var c, x := Union([Arm(tag, elem)]), CSlots([CPtr(y)]);
      Shaped(c, x) && SlipsIn(stream, c, x, Uvarint(tag) + (Blob(body) + rest))
  {
    var c, x, b := Union([Arm(tag, elem)]), CSlots([CPtr(y)]), Uvarint(tag) + (Blob(body) + rest);
    UvarintRoundTrip(tag, Blob(body) + rest);
    BodyRead(stream, body, rest);
    hide ReadUvarint, ReadBlobFrom, Uvarint, Blob;
    assert Lookup(c.arms, tag) == 0;
    assert Shaped(c, x);
    assert SlipsUnion(stream, c, x, b);
  }

  lemma BodyRead(stream: bool, body: bytes, rest: bytes)
    requires |body| <= MAX_LEN
    ensures ReadBlobFrom(stream, Blob(body) + rest) == Ok(body, rest)
  {
    hide ReadUvarint, Uvarint;
    UvarintRoundTrip(|body|, body + rest);
    assert Blob(body) + rest == Uvarint(|body|) + (body + rest);
  }
}
