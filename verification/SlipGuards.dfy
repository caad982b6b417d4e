/**
 What the library's decoder accepts beyond the grammar. Two guards let something through when a
 destination is used again: a `[]byte` field of the direct struct path that already has the capacity,
 and a slice of elements without wire data that is already as long as no slice could be allocated.
 `SlipsIn` says where that happens.
 */
module SlipGuards {
  import opened Wire
  import opened Varint
  import opened Codec
  import opened Compatibility
  import opened Analysis
  import opened Destination
  import opened Agreement

  // ---------------------------------------------------------------- where a decode slips

  /** The capacity suffices but the input does not: some, but not all, of the bytes remain. */
  predicate ShortRead(x: Cell, b: bytes)
    requires Shaped(Bytes, x)
  {
    ReadLength(b).Ok? && 0 < |ReadLength(b).rest| < ReadLength(b).val <= |x.mem|
  }

  /** Decoding `b` over `x` gets past a guard of the grammar, here or inside, and goes on to the end. */
  predicate SlipsIn(stream: bool, c: Codec, x: Cell, b: bytes)
    requires Shaped(c, x)
    decreases c, 1
  {
    match c
    case Pointer(elem) => b != [] && b[0] != 1 && x.CPtr? && SlipsIn(stream, elem, x.target, b[1..])
    case Seq(_, elem, isArray, _) =>
      if isArray then ArrayCheck(stream, c, b) && SlipsMany(stream, elem, x.fields, b)
      else SlipsSlice(stream, c, x, b)
    case Struct(fields) => SlipsFields(stream, Direct(fields), fields, x.fields, b)
    case Union(_) => SlipsUnion(stream, c, x, b)
    case _ => false
  }

  /** A slice that need not grow: its count is not held against the allocation limit. */
  predicate SlipsSlice(stream: bool, c: Codec, x: Cell, b: bytes)
    requires c.Seq? && !c.isArray && Shaped(c, x)
    decreases c, 0
  {
    var n := ReadLength(b);
    n.Ok? && n.val <= |x.cells| && SliceCheck(stream, c, n.val, n.rest) &&
    if c.flavour.Generic? && IsZeroWire(c.elem) then n.val > MAX_LEN
    else SlipsMany(stream, c.elem, x.cells[..n.val], n.rest)
  }

  /** Elements decode by the grammar up to one that slips; those behind it decode or slip in turn. */
  predicate SlipsMany(stream: bool, c: Codec, xs: seq<Cell>, b: bytes)
    requires forall i :: 0 <= i < |xs| ==> Shaped(c, xs[i])
    decreases c, 2, |xs|
  {
    xs != [] &&
    if SlipsIn(stream, c, xs[0], b) then
      var d := DecInto(stream, c, xs[0], b);
      d.Ok? && (DecMany(c, |xs| - 1, d.rest).Ok? || SlipsMany(stream, c, xs[1..], d.rest))
    else
      Dec(c, b).Ok? && SlipsMany(stream, c, xs[1..], Dec(c, b).rest)
  }

  predicate SlipsFields(stream: bool, direct: bool, fs: seq<Codec>, xs: seq<Cell>, b: bytes)
    requires |xs| == |fs| && forall i :: 0 <= i < |fs| ==> Shaped(fs[i], xs[i])
    decreases fs, 0
  {
    fs != [] &&
    if SlipsField(stream, direct, fs[0], xs[0], b) then
      var d := FieldInto(stream, direct, fs[0], xs[0], b);
      d.Ok? && (DecFields(fs[1..], d.rest).Ok? || SlipsFields(stream, direct, fs[1..], xs[1..], d.rest))
    else
      Dec(fs[0], b).Ok? && SlipsFields(stream, direct, fs[1..], xs[1..], Dec(fs[0], b).rest)
  }

  predicate SlipsField(stream: bool, direct: bool, f: Codec, x: Cell, b: bytes)
    requires Shaped(f, x)
    decreases f, 2
  {
    if direct && f.Bytes? then !stream && ShortRead(x, b)
    else !(direct && IsVaruints(f)) && SlipsIn(stream, f, x, b)
  }

  /** An arm that is already set is decoded in memory, from its body alone. */
  predicate SlipsUnion(stream: bool, c: Codec, x: Cell, b: bytes)
    requires c.Union? && Shaped(c, x)
    decreases c, 0
  {
    ReadUvarint(b).Ok? && ReadBlobFrom(stream, ReadUvarint(b).rest).Ok? &&
    var i := Lookup(c.arms, ReadUvarint(b).val);
    i >= 0 && x.slots[i].CPtr? &&
    SlipsIn(false, c.arms[i].codec, x.slots[i].target, ReadBlobFrom(stream, ReadUvarint(b).rest).val)
  }

  // ---------------------------------------------------------------- fresh destinations never slip

  lemma {:induction false} FreshNeverSlips(stream: bool, c: Codec, b: bytes)
    ensures !SlipsIn(stream, c, Zero(c), b)
    decreases c, 1
  {
    match c
    case Seq(_, elem, isArray, length) =>
      if isArray {
        FreshCellsNeverSlip(stream, elem, length, b);
      } else {
        FreshSliceNeverSlips(stream, c, b);
      }
    case Struct(fields) => FreshFieldsNeverSlip(stream, Direct(fields), fields, b);
    case _ =>
  }

  lemma FreshSliceNeverSlips(stream: bool, c: Codec, b: bytes)
    requires c.Seq? && !c.isArray
    ensures !SlipsSlice(stream, c, CSlice(0, []), b)
  {
    var x := CSlice(0, []);
    if ReadLength(b).Ok? && ReadLength(b).val <= |x.cells| {
      assert x.cells[..ReadLength(b).val] == [];
    }
  }

  lemma {:induction false} FreshCellsNeverSlip(stream: bool, c: Codec, n: nat, b: bytes)
    ensures !SlipsMany(stream, c, Fresh(c, n), b)
    decreases c, 2, n
  {
    hide SlipsIn, Dec, DecInto, Shaped;
    if n > 0 {
      FreshNeverSlips(stream, c, b);
      assert Fresh(c, n)[1..] == Fresh(c, n - 1);
      if Dec(c, b).Ok? {
        FreshCellsNeverSlip(stream, c, n - 1, Dec(c, b).rest);
      }
    }
  }

  lemma {:induction false} FreshFieldsNeverSlip(stream: bool, direct: bool, fs: seq<Codec>, b: bytes)
    ensures !SlipsFields(stream, direct, fs, FreshFields(fs), b)
    decreases fs, 0
  {
    hide SlipsIn, Dec, FieldInto, Shaped, Zero;
    if fs != [] {
      FreshFieldNeverSlips(stream, direct, fs[0], b);
      assert FreshFields(fs)[1..] == FreshFields(fs[1..]);
      if Dec(fs[0], b).Ok? {
        FreshFieldsNeverSlip(stream, direct, fs[1..], Dec(fs[0], b).rest);
      }
    }
  }

  lemma {:induction false} FreshFieldNeverSlips(stream: bool, direct: bool, f: Codec, b: bytes)
    ensures !SlipsField(stream, direct, f, Zero(f), b)
    decreases f, 2
  {
    FreshNeverSlips(stream, f, b);
  }

  // ---------------------------------------------------------------- against the grammar

  /** The outcome over a destination, against the grammar's outcome and whether the decode slipped. */
  ghost predicate Exactly<T, U>(d: Parsed<T>, g: Parsed<U>, slips: bool, b: bytes) {
    && (d.Ok? <==> g.Ok? || slips)
    && (slips ==> g.Fail?)
    && (d.Ok? ==> |d.rest| <= |b|)
  }

  lemma DirectBytesSlip(stream: bool, x: Cell, b: bytes)
    requires Shaped(Bytes, x) && |b| <= MAX_LEN
    ensures Exactly(DirectBytes(stream, x, b), Dec(Bytes, b), !stream && ShortRead(x, b), b)
  {
    if ReadLength(b).Ok? {
      LengthShape(b);
      hide ReadLength, CopyOver, ResizedBytes;
    }
  }

  lemma {:induction false} PrimsNeverSlip(stream: bool, c: Codec, xs: seq<Cell>, b: bytes)
    requires c.Prim? && forall i :: 0 <= i < |xs| ==> Shaped(c, xs[i])
    ensures !SlipsMany(stream, c, xs, b)
    decreases |xs|
  {
    hide Dec;
    if xs != [] && Dec(c, b).Ok? {
      PrimsNeverSlip(stream, c, xs[1..], Dec(c, b).rest);
    }
  }

  /** Elements with wire data are no more than the bytes they are read from. */
  lemma CountFits(c: Codec, n: nat, b: bytes)
    requires c.Seq? && !c.isArray && WF(c) && !(c.flavour.Generic? && IsZeroWire(c.elem))
    requires |b| <= MAX_LEN && DecMany(c.elem, n, b).Ok?
    ensures n <= MAX_LEN
  {
    hide DecMany;
    ManyAtLeast(c.elem, n, b);
    ElemMinAtLeast(c.elem);
    ZeroIffMin(c.elem);
    ScaleUp(n, 1, ElemMin(c.elem));
  }

  // ---------------------------------------------------------------- what lies in the memory afterwards

  /** After a short read the value has the length on the wire: what remained of the input, and then stale bytes. */
  lemma ShortReadLeaves(x: Cell, b: bytes)
    requires Shaped(Bytes, x) && ShortRead(x, b)
    ensures var n, more := ReadLength(b).val, ReadLength(b).rest;
      var d := DirectBytes(false, x, b);
      && d.Ok? && d.rest == [] && d.val.CBlob? && d.val.len == n && |d.val.mem| == |x.mem|
      && forall i :: 0 <= i < |x.mem| ==> d.val.mem[i] == if i < |more| then more[i] else x.mem[i]
  {
    hide ReadLength;
  }

  /**
   A byte slice keeps its memory when it is large enough, and what lies behind the new value in it; otherwise, and from
   a stream, its capacity is the length of the value.
   */
  lemma BytesLeave(stream: bool, x: Cell, b: bytes)
    requires Shaped(Bytes, x) && BytesInto(stream, x, b).Ok?
    ensures var n, more := ReadLength(b).val, ReadLength(b).rest;
      var y := BytesInto(stream, x, b).val;
      && ReadLength(b).Ok? && y.CBlob? && y.len == n <= |more|
      && |y.mem| == (if (stream && n > 0) || n > |x.mem| then n else |x.mem|)
      && (forall i :: 0 <= i < n ==> y.mem[i] == more[i])
      && (|y.mem| > n ==> forall i :: n <= i < |y.mem| ==> y.mem[i] == x.mem[i])
  {
    hide ReadLength;
  }

  /** A bool slice keeps its memory in the same way, in memory and from a stream. */
  lemma BoolsLeave(stream: bool, x: Cell, b: bytes)
    requires Shaped(Bools, x) && BoolsInto(stream, x, b).Ok?
    ensures var n, more := ReadLength(b).val, ReadLength(b).rest;
      var y := BoolsInto(stream, x, b).val;
      && ReadLength(b).Ok? && y.CBlob? && y.len == n <= |more|
      && |y.mem| == (if n > |x.mem| then n else |x.mem|)
      && (forall i :: 0 <= i < n ==> y.mem[i] == more[i])
      && (|y.mem| > n ==> forall i :: n <= i < |y.mem| ==> y.mem[i] == x.mem[i])
  {
    hide ReadLength;
  }

  lemma {:induction false} AsManyCells(stream: bool, c: Codec, xs: seq<Cell>, b: bytes)
    requires forall i :: 0 <= i < |xs| ==> Shaped(c, xs[i])
    requires CellsInto(stream, c, xs, b).Ok?
    ensures |CellsInto(stream, c, xs, b).val| == |xs|
    decreases |xs|
  {
    hide DecInto, Shaped;
    if xs != [] {
      AsManyCells(stream, c, xs[1..], DecInto(stream, c, xs[0], b).rest);
    }
  }

  /** A slice keeps its elements' memory when there is room, those behind its new length as they were. */
  lemma SliceLeaves(stream: bool, c: Codec, x: Cell, b: bytes)
    requires c.Seq? && !c.isArray && Shaped(c, x) && SliceInto(stream, c, x, b).Ok?
    ensures var n, y := ReadLength(b).val, SliceInto(stream, c, x, b).val;
      && ReadLength(b).Ok? && y.CSlice? && y.len == n
      && |y.cells| == (if n > |x.cells| then n else |x.cells|)
      && (|y.cells| > n ==> forall i :: n <= i < |y.cells| ==> y.cells[i] == x.cells[i])
  {
    hide ReadLength, CellsInto, SliceCheck, IsZeroWire;
    var n, b1 := ReadLength(b).val, ReadLength(b).rest;
    var mem := Resized(c.elem, x.cells, n);
    if CellsInto(stream, c.elem, mem[..n], b1).Ok? {
      AsManyCells(stream, c.elem, mem[..n], b1);
    }
  }

  /** A slice of elements without wire data that need not grow gets the length on the wire, and nothing is read. */
  lemma ZeroWireLeaves(stream: bool, c: Codec, x: Cell, b: bytes)
    requires c.Seq? && !c.isArray && c.flavour.Generic? && IsZeroWire(c.elem) && Shaped(c, x)
    requires ReadLength(b).Ok? && ReadLength(b).val <= |x.cells|
    ensures SliceInto(stream, c, x, b) == Ok(CSlice(ReadLength(b).val, x.cells), ReadLength(b).rest)
    ensures ReadLength(b).val > 0x3FFF_FFFF_FFFF_FFFF ==> Dec(c, b) == Fail
  {
    hide ReadLength, Shaped;
    assert MAX_LEN == 0x3FFF_FFFF_FFFF_FFFF;
  }
}
