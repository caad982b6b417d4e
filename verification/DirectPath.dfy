/**
 The direct struct path: a switch on a field's packed kind instead of a call through its codec, and the
 exact condition under which it decodes like the field-by-field path.
 */
module DirectPath {
  import opened Wire
  import opened Varint
  import opened Codec
  import opened Analysis
  import opened Destination
  import opened Agreement
  import opened Acceptance
  import opened SlipGuards
  import opened FieldWords

  // ---------------------------------------------------------------- the switch on the packed kind

  /** The encoder's switch. */
  function DirectEnc(kind: nat, f: Codec, v: Value): bytes {
    if kind == 24 && v.VStr? then Uvarint(|v.s|) + v.s
    else if kind == 1 && v.VBool? then [if v.b then 1 else 0]
    else if 2 <= kind <= 6 && v.VInt? then Uvarint(ZigZag(v.i))
    else if 7 <= kind <= 11 && v.VUint? then Uvarint(v.n)
    else if 13 <= kind <= 16 && v.VWords? then EncWords(v.ws, KindWords(kind).0)
    else if kind == 30 && v.VStr? then Uvarint(|v.s|) + v.s
    else if 27 <= kind <= 29 && v.VSeq? then Uvarint(|v.vs|) + EncMany(Prim(KUint(KindBits(kind), false)), v.vs)
    else Enc(f, v)
  }

  lemma {:induction false} SameUints(k: Kind, l: Kind, vs: seq<Value>)
    requires k.KUint? && l.KUint?
    ensures EncMany(Prim(k), vs) == EncMany(Prim(l), vs)
  {
    if vs != [] {
      assert Enc(Prim(k), vs[0]) == Enc(Prim(l), vs[0]);
      SameUints(k, l, vs[1..]);
    }
  }

  /** Encoding through the packed kind writes the bytes the field's codec writes. */
  lemma DirectEncSame(f: Codec, v: Value)
    requires WF(f) && Typed(f, v)
    ensures DirectEnc(KindNumber(f), f, v) == Enc(f, v)
  {
    if IsVaruints(f) {
      SameUints(f.elem.kind, KUint(KindBits(KindNumber(f)), false), v.vs);
    }
  }

  /** The decoder's switch: the primitive kinds, and the rest. */
  function DirectScalar(stream: bool, kind: nat, b: bytes): Parsed<Cell> {
    if kind == 24 then
      var (s, r) :- ReadBlobFrom(stream, b);
      Ok(CScalar(VStr(s)), r)
    else if kind == 1 then
      (if b == [] then Fail else Ok(CScalar(VBool(b[0] == 1)), b[1..]))
    else if 2 <= kind <= 6 then
      var (u, r) :- ReadUvarint(b);
      Ok(CScalar(VInt(WrapSigned(UnZigZag(u), KindBits(kind)))), r)
    else if 7 <= kind <= 11 then
      var (u, r) :- ReadUvarint(b);
      Ok(CScalar(VUint(u % Modulus(KindBits(kind)))), r)
    else
      var (ws, r) :- DecWords(b, KindWords(kind).0, KindWords(kind).1);
      Ok(CScalar(VWords(ws)), r)
  }

  function DirectDec(stream: bool, kind: nat, f: Codec, x: Cell, b: bytes): Parsed<Cell>
    requires Shaped(f, x)
  {
    if 1 <= kind <= 24 then DirectScalar(stream, kind, b)
    else if kind == 30 && f.Bytes? then DirectBytes(stream, x, b)
    else if 27 <= kind <= 29 && IsVaruints(f) then DirectVaruints(stream, f, x, b)
    else DecInto(stream, f, x, b)
  }

  lemma DirectDecSame(stream: bool, f: Codec, x: Cell, b: bytes)
    requires WF(f) && Shaped(f, x)
    ensures DirectDec(stream, KindNumber(f), f, x, b) == FieldInto(stream, true, f, x, b)
  {
    hide ReadUvarint, DecWords, ReadBlobFrom;
  }

  // ---------------------------------------------------------------- one field

  /** Same success, and on success the same value and the same bytes consumed. */
  ghost predicate SameOutcome(d: Parsed<Cell>, e: Parsed<Cell>) {
    (d.Ok? <==> e.Ok?) && (d.Ok? ==> View(d.val) == View(e.val) && d.rest == e.rest)
  }

  /**
   The direct branch for a `[]byte` field decodes like `byteSliceCodec` exactly when the capacity is
   too small, or all the bytes remain, or none does; a stream always qualifies.
   */
  lemma DirectBytesExact(stream: bool, x: Cell, b: bytes)
    requires Shaped(Bytes, x) && (stream ==> |b| <= MAX_LEN)
    ensures SameOutcome(DirectBytes(stream, x, b), BytesInto(stream, x, b)) <==> stream || !ShortRead(x, b)
  {
    if ReadLength(b).Ok? {
      LengthShape(b);
      hide ReadLength, CopyOver, ResizedBytes;
      var n, b1 := ReadLength(b).val, ReadLength(b).rest;
      if n <= |b1| {
        CopyView(n, x.mem, b1);
        assert n == 0 ==> b1[..n] == [] && b1[n..] == b1;
      }
    }
  }

  lemma {:induction false} UintCells(stream: bool, c: Codec, xs: seq<Cell>, b: bytes)
    requires c.Prim? && c.kind.KUint? && forall i :: 0 <= i < |xs| ==> Shaped(c, xs[i])
    requires CellsInto(stream, c, xs, b).Ok?
    ensures |xs| <= |b|
  {
    if xs != [] {
      ReadUvarintShape(b);
      UintCells(stream, c, xs[1..], ReadUvarint(b).rest);
    }
  }

  /** Skipping the early check is harmless for integers: reading them finds the end of input anyway. */
  lemma DirectVaruintsSame(stream: bool, f: Codec, x: Cell, b: bytes)
    requires IsVaruints(f) && Shaped(f, x)
    ensures SameOutcome(DirectVaruints(stream, f, x, b), DecInto(stream, f, x, b))
  {
    if ReadLength(b).Ok? {
      var n, b1 := ReadLength(b).val, ReadLength(b).rest;
      var mem := Resized(f.elem, x.cells, n);
      if CellsInto(stream, f.elem, mem[..n], b1).Ok? {
        UintCells(stream, f.elem, mem[..n], b1);
      }
    }
  }

  lemma FieldSame(stream: bool, f: Codec, x: Cell, b: bytes)
    requires Shaped(f, x) && (stream ==> |b| <= MAX_LEN)
    ensures SameOutcome(FieldInto(stream, true, f, x, b), FieldInto(stream, false, f, x, b)) <==>
      stream || !(f.Bytes? && ShortRead(x, b))
  {
    if f.Bytes? {
      DirectBytesExact(stream, x, b);
    } else if IsVaruints(f) {
      DirectVaruintsSame(stream, f, x, b);
    }
  }

  // ---------------------------------------------------------------- nothing left to read

  /** At the end of input exactly the zero-wire codecs decode. */
  lemma {:induction false} EmptyInput(c: Codec, x: Cell)
    requires WF(c) && Shaped(c, x)
    ensures DecInto(false, c, x, []).Ok? <==> IsZeroWire(c)
    decreases c, 1
  {
    assert ReadUvarint([]).Fail?;
    if IsZeroWire(c) {
      ZeroWireDecode(c, []);
      IntoOk(false, c, x, []);
    } else {
      match c
      case Prim(k) => assert DecPrim(k, []).Fail?;
      case Seq(f, elem, isArray, length) =>
        if isArray && f.Generic? {
          EmptyInput(elem, x.fields[0]);
          assert CellsInto(false, elem, x.fields, []).Fail?;
          assert ArrayInto(false, c, x, []).Fail?;
        } else if isArray && f.OfWords? {
          assert length * ElemMin(elem) > 0;
        }
      case Struct(fields) => EmptyFields(Direct(fields), fields, x.fields);
      case _ =>
    }
  }

  lemma {:induction false} EmptyFields(direct: bool, fs: seq<Codec>, xs: seq<Cell>)
    requires |xs| == |fs| && forall i :: 0 <= i < |fs| ==> WF(fs[i]) && Shaped(fs[i], xs[i])
    ensures FieldsInto(false, direct, fs, xs, []).Ok? <==> forall i :: 0 <= i < |fs| ==> IsZeroWire(fs[i])
    decreases fs, 0
  {
    hide IsZeroWire, DecInto, Shaped, WF;
    if fs != [] {
      EmptyField(direct, fs[0], xs[0]);
      EmptyFields(direct, fs[1..], xs[1..]);
      assert forall i :: 0 <= i < |fs[1..]| ==> fs[1..][i] == fs[i + 1];
      assert forall i :: 1 <= i < |fs| ==> fs[i] == fs[1..][i - 1];
    }
  }

  lemma {:induction false} EmptyField(direct: bool, f: Codec, x: Cell)
    requires WF(f) && Shaped(f, x)
    ensures FieldInto(false, direct, f, x, []).Ok? <==> IsZeroWire(f)
    ensures IsZeroWire(f) ==> FieldInto(false, direct, f, x, []).rest == []
    decreases f, 2
  {
    EmptyInput(f, x);
    if IsZeroWire(f) {
      ZeroWireDecode(f, []);
      IntoOk(false, f, x, []);
    }
  }

  // ---------------------------------------------------------------- whole field lists

  ghost predicate SameFields(d: Parsed<seq<Cell>>, e: Parsed<seq<Cell>>) {
    && (d.Ok? <==> e.Ok?)
    && (d.Ok? ==> |d.val| == |e.val| && Views(d.val, |d.val|) == Views(e.val, |e.val|) && d.rest == e.rest)
  }

  /**
   A `[]byte` field comes up short in memory and every field behind it has no wire data, so that
   nothing later notices that the input has ended.
   */
  predicate Slips(fs: seq<Codec>, xs: seq<Cell>, b: bytes)
    requires |xs| == |fs| && forall i :: 0 <= i < |fs| ==> Shaped(fs[i], xs[i])
    decreases |fs|
  {
    fs != [] &&
    if fs[0].Bytes? && ShortRead(xs[0], b) then forall i :: 1 <= i < |fs| ==> IsZeroWire(fs[i])
    else
      var d := FieldInto(false, false, fs[0], xs[0], b);
      d.Ok? && Slips(fs[1..], xs[1..], d.rest)
  }

  lemma ShortReadDrains(x: Cell, b: bytes)
    requires Shaped(Bytes, x) && ShortRead(x, b)
    ensures DirectBytes(false, x, b).Ok? && DirectBytes(false, x, b).rest == []
    ensures BytesInto(false, x, b).Fail?
  {
  }

  /**
   For every field list, destination and input, in memory and from a stream: a struct's fields decoded
   directly and through their codecs have the same outcome exactly when no short read slips through;
   on a stream none ever does. Structs inside the fields are decoded alike on both sides.
   */
  lemma {:induction false} DirectPathExact(stream: bool, fs: seq<Codec>, xs: seq<Cell>, b: bytes)
    requires |xs| == |fs| && (stream ==> |b| <= MAX_LEN)
    requires forall i :: 0 <= i < |fs| ==> WF(fs[i]) && Shaped(fs[i], xs[i])
    ensures SameFields(FieldsInto(stream, true, fs, xs, b), FieldsInto(stream, false, fs, xs, b)) <==>
      stream || !Slips(fs, xs, b)
    decreases |fs|
  {
    hide DecInto, Shaped, WF, IsZeroWire, FieldInto, SlipsField, Dec;
    if fs != [] {
      var f, x := fs[0], xs[0];
      var d, e := FieldInto(stream, true, f, x, b), FieldInto(stream, false, f, x, b);
      FieldSame(stream, f, x, b);
      if !stream && f.Bytes? && ShortRead(x, b) {
        BytesFieldIs(x, b);
        ShortReadDrains(x, b);
        EmptyFields(true, fs[1..], xs[1..]);
        assert forall i :: 0 <= i < |fs[1..]| ==> fs[1..][i] == fs[i + 1];
        assert forall i :: 1 <= i < |fs| ==> fs[i] == fs[1..][i - 1];
      } else if e.Ok? {
        if stream {
          FieldExactly(stream, false, f, x, b);
        }
        DirectPathExact(stream, fs[1..], xs[1..], e.rest);
        HeadSame(d.val, e.val, FieldsInto(stream, true, fs[1..], xs[1..], d.rest),
                 FieldsInto(stream, false, fs[1..], xs[1..], e.rest));
      }
    }
  }

  lemma BytesFieldIs(x: Cell, b: bytes)
    requires Shaped(Bytes, x)
    ensures FieldInto(false, true, Bytes, x, b) == DirectBytes(false, x, b)
    ensures FieldInto(false, false, Bytes, x, b) == BytesInto(false, x, b)
  {
  }

  /** The outcome of a field in front of the outcome of the fields behind it. */
  function Prepend(y: Cell, d: Parsed<seq<Cell>>): Parsed<seq<Cell>> {
    match d
    case Fail => Fail
    case Ok(ys, r) => Ok([y] + ys, r)
  }

  lemma HeadSame(y: Cell, z: Cell, d: Parsed<seq<Cell>>, e: Parsed<seq<Cell>>)
    requires View(y) == View(z)
    ensures SameFields(Prepend(y, d), Prepend(z, e)) <==> SameFields(d, e)
  {
    hide View;
    if d.Ok? && e.Ok? {
      assert Views([y] + d.val, 1 + |d.val|) == [View(y)] + Views(d.val, |d.val|);
      assert Views([z] + e.val, 1 + |e.val|) == [View(z)] + Views(e.val, |e.val|);
      assert ([View(y)] + Views(d.val, |d.val|))[1..] == Views(d.val, |d.val|);
      assert ([View(z)] + Views(e.val, |e.val|))[1..] == Views(e.val, |e.val|);
    }
  }

  /**
   The condition is not empty: with two bytes of capacity left over, a truncated input decodes through
   the direct path, keeping a stale byte, where the field-by-field path reports the end of input.
   */
  lemma ShortReadSlips()
    ensures var fs := [Prim(KUint(8, false)), Bytes];
      var xs := [CScalar(VUint(0)), CBlob(0, [7, 7])];
      var whole: bytes := [5, 2, 1, 9];
      && whole == EncFields(fs, [VUint(5), VStr([1, 9])])
      && Direct(fs) && Slips(fs, xs, whole[..3])
      && FieldsInto(false, true, fs, xs, whole[..3]) == Ok([CScalar(VUint(5)), CBlob(2, [1, 7])], [])
      && FieldsInto(false, false, fs, xs, whole[..3]).Fail?
  {
    hide EncFields, Slips, FieldsInto;
    var fs := [Prim(KUint(8, false)), Bytes];
    assert fs[0].Prim?;
    ShortReadWhole();
    ShortReadTail();
    ShortReadHead();
    assert [CScalar(VUint(5))] + [CBlob(2, [1, 7])] == [CScalar(VUint(5)), CBlob(2, [1, 7])];
  }

  lemma ShortReadWhole()
    ensures var whole: bytes := [5, 2, 1, 9];
      whole == EncFields([Prim(KUint(8, false)), Bytes], [VUint(5), VStr([1, 9])]) && whole[..3] == [5, 2, 1]
  {
    assert EncFields([Bytes], [VStr([1, 9])]) == [2, 1, 9];
  }

  lemma ShortReadHead()
    ensures var f, x, y := Prim(KUint(8, false)), CScalar(VUint(0)), CScalar(VUint(5));
      var tail := CBlob(0, [7, 7]);
      && (Slips([Bytes], [tail], [2, 1]) ==> Slips([f, Bytes], [x, tail], [5, 2, 1]))
      && forall direct ::
           FieldsInto(false, direct, [f, Bytes], [x, tail], [5, 2, 1]) ==
           Prepend(y, FieldsInto(false, direct, [Bytes], [tail], [2, 1]))
  {
    hide ShortRead;
    var f, x, y := Prim(KUint(8, false)), CScalar(VUint(0)), CScalar(VUint(5));
    var tail := CBlob(0, [7, 7]);
    assert ReadUvarint([5, 2, 1]) == Ok(5, [2, 1]);
    assert DecInto(false, f, x, [5, 2, 1]) == Ok(y, [2, 1]);
    assert [f, Bytes][1..] == [Bytes] && [x, tail][1..] == [tail];
    hide ReadUvarint, DecInto;
    forall direct: bool
      ensures FieldsInto(false, direct, [f, Bytes], [x, tail], [5, 2, 1]) ==
        Prepend(y, FieldsInto(false, direct, [Bytes], [tail], [2, 1]))
    {
    }
  }

  lemma ShortReadTail()
    ensures var x := CBlob(0, [7, 7]);
      && Slips([Bytes], [x], [2, 1])
      && FieldsInto(false, true, [Bytes], [x], [2, 1]) == Ok([CBlob(2, [1, 7])], [])
      && FieldsInto(false, false, [Bytes], [x], [2, 1]).Fail?
  {
    var x := CBlob(0, [7, 7]);
    assert ReadUvarint([2, 1]) == Ok(2, [1]);
    assert CopyOver([7, 7], 2, [1]) == [1, 7];
    BytesFieldIs(x, [2, 1]);
    assert DirectBytes(false, x, [2, 1]) == Ok(CBlob(2, [1, 7]), []);
    assert FieldsInto(false, true, [], [], []) == Ok([], []);
    assert [CBlob(2, [1, 7])] + [] == [CBlob(2, [1, 7])];
  }
}
