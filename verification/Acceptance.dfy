/**
 The library's decoder accepts what the grammar accepts and what slips past one of the two guards, and
 nothing else.
 */
module Acceptance {
  import opened Wire
  import opened Varint
  import opened Codec
  import opened Compatibility
  import opened Analysis
  import opened Destination
  import opened Agreement
  import opened SlipGuards

  // ---------------------------------------------------------------- the exact condition

  /**
   For every codec tree, destination and input, in memory and from a stream: the decoder accepts what
   the grammar accepts and what slips, and nothing slips that the grammar accepts.
   */
  lemma {:induction false} IntoExactly(stream: bool, c: Codec, x: Cell, b: bytes)
    requires WF(c) && Shaped(c, x) && |b| <= MAX_LEN
    ensures Exactly(DecInto(stream, c, x, b), Dec(c, b), SlipsIn(stream, c, x, b), b)
    decreases c, 1
  {
    if Dec(c, b).Ok? {
      IntoOk(stream, c, x, b);
      DecAtLeast(c, b);
    }
    match c
    case Prim(k) =>
    case Pointer(elem) =>
      if b != [] && b[0] != 1 {
        FreshNeverSlips(stream, elem, b[1..]);
        IntoExactly(stream, elem, if x.CPtr? then x.target else Zero(elem), b[1..]);
      }
    case Bytes =>
    case Bools =>
    case Seq(_, elem, isArray, length) =>
      if isArray {
        ArrayExactly(stream, c, x, b);
      } else {
        SliceExactly(stream, c, x, b);
      }
    case Struct(fields) => FieldsExactly(stream, Direct(fields), fields, x.fields, b);
    case Union(_) => UnionExactly(stream, c, x, b);
    case Map(_, _, _) => MapExactly(stream, c, x, b);
  }

  lemma {:induction false} CellsExactly(stream: bool, c: Codec, xs: seq<Cell>, b: bytes)
    requires WF(c) && |b| <= MAX_LEN && forall i :: 0 <= i < |xs| ==> Shaped(c, xs[i])
    ensures Exactly(CellsInto(stream, c, xs, b), DecMany(c, |xs|, b), SlipsMany(stream, c, xs, b), b)
    decreases c, 2, |xs|
  {
    hide Dec, DecInto, SlipsIn, Shaped, WF;
    if xs != [] {
      IntoExactly(stream, c, xs[0], b);
      var d := DecInto(stream, c, xs[0], b);
      if Dec(c, b).Ok? {
        IntoOk(stream, c, xs[0], b);
        DecAtLeast(c, b);
        CellsExactly(stream, c, xs[1..], d.rest);
      } else if SlipsIn(stream, c, xs[0], b) {
        CellsExactly(stream, c, xs[1..], d.rest);
      }
    }
  }

  lemma {:induction false} ArrayExactly(stream: bool, c: Codec, x: Cell, b: bytes)
    requires c.Seq? && c.isArray && WF(c) && Shaped(c, x) && |b| <= MAX_LEN
    ensures Exactly(ArrayInto(stream, c, x, b), Dec(c, b), SlipsIn(stream, c, x, b), b)
    decreases c, 0
  {
    ArrayShape(c, x);
    hide CellsInto, SlipsMany, ArrayCheck, DecMany, Shaped;
    CellsExactly(stream, c.elem, x.fields, b);
    if DecMany(c.elem, c.length, b).Ok? {
      ArrayCheckPasses(stream, c, b);
    }
  }

  lemma {:induction false} SliceExactly(stream: bool, c: Codec, x: Cell, b: bytes)
    requires c.Seq? && !c.isArray && WF(c) && Shaped(c, x) && |b| <= MAX_LEN
    ensures Exactly(SliceInto(stream, c, x, b), Dec(c, b), SlipsSlice(stream, c, x, b), b)
    decreases c, 0
  {
    if ReadLength(b).Ok? {
      LengthShape(b);
      var n, b1 := ReadLength(b).val, ReadLength(b).rest;
      if DecMany(c.elem, n, b1).Ok? {
        SliceCheckPasses(stream, c, n, b1);
      }
      hide ReadLength, SliceCheck, DecMany;
      if c.flavour.Generic? && IsZeroWire(c.elem) {
        ZeroWireMany(c.elem, n, b1);
      } else {
        ElementsExactly(stream, c.elem, x.cells, n, b1);
        if DecMany(c.elem, n, b1).Ok? {
          CountFits(c, n, b1);
        }
      }
    }
  }

  lemma {:induction false} ElementsExactly(stream: bool, c: Codec, cells: seq<Cell>, n: nat, b: bytes)
    requires WF(c) && |b| <= MAX_LEN && forall i :: 0 <= i < |cells| ==> Shaped(c, cells[i])
    ensures Exactly(ElementsInto(stream, c, cells, n, b), DecMany(c, n, b),
                    n <= |cells| && SlipsMany(stream, c, cells[..n], b), b)
    decreases c, 3
  {
    hide DecMany, CellsInto, SlipsMany;
    CellsExactly(stream, c, Resized(c, cells, n)[..n], b);
    if n > |cells| {
      assert Resized(c, cells, n)[..n] == Fresh(c, n);
      FreshCellsNeverSlip(stream, c, n, b);
    }
  }

  lemma {:induction false} FieldsExactly(stream: bool, direct: bool, fs: seq<Codec>, xs: seq<Cell>, b: bytes)
    requires |xs| == |fs| && |b| <= MAX_LEN
    requires forall i :: 0 <= i < |fs| ==> WF(fs[i]) && Shaped(fs[i], xs[i])
    ensures Exactly(FieldsInto(stream, direct, fs, xs, b), DecFields(fs, b), SlipsFields(stream, direct, fs, xs, b), b)
    decreases fs, 0
  {
    hide Dec, FieldInto, SlipsField, Shaped, WF;
    if fs != [] {
      FieldExactly(stream, direct, fs[0], xs[0], b);
      var d := FieldInto(stream, direct, fs[0], xs[0], b);
      if Dec(fs[0], b).Ok? {
        FieldOk(stream, direct, fs[0], xs[0], b);
        DecAtLeast(fs[0], b);
        FieldsExactly(stream, direct, fs[1..], xs[1..], d.rest);
      } else if SlipsField(stream, direct, fs[0], xs[0], b) {
        FieldsExactly(stream, direct, fs[1..], xs[1..], d.rest);
      }
    }
  }

  lemma {:induction false} FieldExactly(stream: bool, direct: bool, f: Codec, x: Cell, b: bytes)
    requires WF(f) && Shaped(f, x) && |b| <= MAX_LEN
    ensures Exactly(FieldInto(stream, direct, f, x, b), Dec(f, b), SlipsField(stream, direct, f, x, b), b)
    decreases f, 2
  {
    if direct && f.Bytes? {
      DirectBytesSlip(stream, x, b);
    } else if direct && IsVaruints(f) {
      VaruintsExactly(stream, f, x, b);
    } else {
      IntoExactly(stream, f, x, b);
    }
  }

  lemma {:induction false} VaruintsExactly(stream: bool, f: Codec, x: Cell, b: bytes)
    requires IsVaruints(f) && WF(f) && Shaped(f, x) && |b| <= MAX_LEN
    ensures Exactly(DirectVaruints(stream, f, x, b), Dec(f, b), false, b)
    decreases f, 0
  {
    if Dec(f, b).Ok? {
      VaruintsOk(stream, f, x, b);
    }
    if ReadLength(b).Ok? {
      LengthShape(b);
      var n, b1 := ReadLength(b).val, ReadLength(b).rest;
      hide ReadLength, DecMany, SlipsMany;
      ElementsExactly(stream, f.elem, x.cells, n, b1);
      if n <= |x.cells| {
        PrimsNeverSlip(stream, f.elem, x.cells[..n], b1);
      }
      if DecMany(f.elem, n, b1).Ok? {
        VaruintCount(f.elem, n, b1);
      }
    }
  }

  lemma {:induction false} UnionExactly(stream: bool, c: Codec, x: Cell, b: bytes)
    requires c.Union? && WF(c) && Shaped(c, x) && |b| <= MAX_LEN
    ensures Exactly(UnionInto(stream, c, x, b), Dec(c, b), SlipsUnion(stream, c, x, b), b)
    decreases c, 0
  {
    if ReadUvarint(b).Ok? {
      var b1 := ReadUvarint(b).rest;
      ReadUvarintShape(b);
      if ReadBlob(b1).Ok? {
        BlobFrom(stream, b1);
        BlobSize(b1);
        BlobShape(b1);
      } else if ReadBlobFrom(stream, b1).Ok? {
        BlobFromOnly(stream, b1);
      }
      hide ReadUvarint, ReadBlob, ReadBlobFrom;
      var i := Lookup(c.arms, ReadUvarint(b).val);
      if ReadBlob(b1).Ok? && i >= 0 {
        var arm := c.arms[i].codec;
        FreshNeverSlips(false, arm, ReadBlob(b1).val);
        IntoExactly(false, arm, if x.slots[i].CPtr? then x.slots[i].target else Zero(arm), ReadBlob(b1).val);
      }
    }
  }

  lemma {:induction false} MapExactly(stream: bool, c: Codec, x: Cell, b: bytes)
    requires c.Map? && WF(c) && Shaped(c, x) && |b| <= MAX_LEN
    ensures Exactly(DecInto(stream, c, x, b), Dec(c, b), false, b)
    decreases c, 0
  {
    if Dec(c, b).Ok? {
      MapOk(stream, c, x, b);
      DecAtLeast(c, b);
    }
    if ReadLength(b).Ok? {
      LengthShape(b);
      var n, b1 := ReadLength(b).val, ReadLength(b).rest;
      if DecEntries(c, n, b1, []).Ok? {
        MapCheckPasses(stream, c, n, b1);
      }
      hide ReadLength, MapCheck, DecEntries;
      EntriesExactly(stream, c, n, b1, []);
    }
  }

  lemma {:induction false} EntriesExactly(stream: bool, c: Codec, n: nat, b: bytes, acc: seq<Entry>)
    requires c.Map? && WF(c) && |b| <= MAX_LEN
    ensures EntriesInto(stream, c, n, b, acc).Ok? <==> DecEntries(c, n, b, acc).Ok?
    decreases c, 0, n
  {
    hide Dec, DecInto, DecKey, KeyInto, Put, View, SlipsIn;
    if n > 0 {
      KeyExactly(stream, c.key, b);
      if DecKey(c.key, b).Ok? {
        KeyIntoOk(stream, c.key, b);
        KeyAtLeast(c.key, b);
        var k := DecKey(c.key, b);
        FreshNeverSlips(stream, c.val, k.rest);
        IntoExactly(stream, c.val, Zero(c.val), k.rest);
        if Dec(c.val, k.rest).Ok? {
          IntoOk(stream, c.val, Zero(c.val), k.rest);
          DecAtLeast(c.val, k.rest);
          var v := Dec(c.val, k.rest);
          EntriesExactly(stream, c, n - 1, v.rest, Put(acc, k.val, v.val));
        }
      }
    }
  }

  lemma {:induction false} KeyExactly(stream: bool, k: Codec, b: bytes)
    requires WF(k) && |b| <= MAX_LEN
    ensures KeyInto(stream, k, b).Ok? <==> DecKey(k, b).Ok?
    decreases k, 2
  {
    if !(k.Prim? && (FixedKey(k.kind) || k.kind.KString?)) {
      FreshNeverSlips(stream, k, b);
      IntoExactly(stream, k, Zero(k), b);
    }
  }
}
