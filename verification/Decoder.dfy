/**
 The decoder as it runs: one cursor that every read advances, loops over elements, fields and map
 entries, a union arm decoded by swapping the cursor's buffer for the body, and the map arena.
 Every method computes what `DecInto` says, gives the buffer back, and keeps every arena view intact.
 */
module Decoder {
  import opened Wire
  import opened Varint
  import opened Codec
  import opened Analysis
  import opened Destination
  import opened Acceptance
  import opened SlipGuards
  import opened Agreement
  import opened DirectPath
  import opened FieldWords
  import opened Arena
  import R = Reader
  import Scanner

  // ---------------------------------------------------------------- loops, one step at a time

  lemma CellsStep(stream: bool, c: Codec, xs: seq<Cell>, i: nat, ys: seq<Cell>, b: bytes)
    requires i < |xs| && forall j :: 0 <= j < |xs| ==> Shaped(c, xs[j])
    ensures Onto(ys, CellsInto(stream, c, xs[i..], b)) ==
      match DecInto(stream, c, xs[i], b)
      case Fail => Fail
      case Ok(y, r) => Onto(ys + [y], CellsInto(stream, c, xs[i + 1..], r))
  {
    assert xs[i..][1..] == xs[i + 1..];
    match DecInto(stream, c, xs[i], b)
    case Fail =>
    case Ok(y, r) =>
      match CellsInto(stream, c, xs[i + 1..], r)
      case Fail =>
      case Ok(zs, _) => assert ys + ([y] + zs) == (ys + [y]) + zs;
  }

  lemma FieldsStep(stream: bool, direct: bool, fs: seq<Codec>, xs: seq<Cell>, i: nat, ys: seq<Cell>, b: bytes)
    requires |xs| == |fs| && i < |fs| && forall j :: 0 <= j < |fs| ==> Shaped(fs[j], xs[j])
    ensures Onto(ys, FieldsInto(stream, direct, fs[i..], xs[i..], b)) ==
      match FieldInto(stream, direct, fs[i], xs[i], b)
      case Fail => Fail
      case Ok(y, r) => Onto(ys + [y], FieldsInto(stream, direct, fs[i + 1..], xs[i + 1..], r))
  {
    hide FieldInto;
    assert xs[i..][1..] == xs[i + 1..] && fs[i..][1..] == fs[i + 1..];
    match FieldInto(stream, direct, fs[i], xs[i], b)
    case Fail =>
    case Ok(y, r) =>
      match FieldsInto(stream, direct, fs[i + 1..], xs[i + 1..], r)
      case Fail =>
      case Ok(zs, _) => assert ys + ([y] + zs) == (ys + [y]) + zs;
  }

  // ---------------------------------------------------------------- bulk integers

  function IntCell(k: Kind, w: int): Cell {
    CScalar(if k.KInt? then VInt(w) else VUint(if w >= 0 then w else 0))
  }

  function IntCells(k: Kind, ws: seq<int>): (r: seq<Cell>)
    ensures |r| == |ws|
  {
    if ws == [] then [] else [IntCell(k, ws[0])] + IntCells(k, ws[1..])
  }

  /** The bulk decoder reads what decoding the elements one by one reads. */
  lemma {:induction false} BulkCells(stream: bool, k: Kind, xs: seq<Cell>, b: bytes)
    requires (k.KInt? || k.KUint?) && forall j :: 0 <= j < |xs| ==> Shaped(Prim(k), xs[j])
    ensures var r := R.BulkRead(b, |xs|, k.bits, k.KInt?);
      CellsInto(stream, Prim(k), xs, b) ==
        if r.status.NoError? then Ok(IntCells(k, r.written), b[r.used..]) else Fail
    decreases |xs|
  {
    hide ReadUvarint, ReadStatus, ReadUsed, VarintValue, Modulus;
    if xs != [] {
      R.UsedInRange(b);
      if ReadStatus(b).NoError? {
        var rest := b[ReadUsed(b)..];
        BulkCells(stream, k, xs[1..], rest);
        BulkHead(stream, k, xs[0], b);
        var tail := R.BulkRead(rest, |xs| - 1, k.bits, k.KInt?);
        assert rest[tail.used..] == b[ReadUsed(b) + tail.used..];
      }
    }
  }

  lemma BulkHead(stream: bool, k: Kind, x: Cell, b: bytes)
    requires (k.KInt? || k.KUint?) && ReadUvarint(b).Ok? && Shaped(Prim(k), x)
    ensures DecInto(stream, Prim(k), x, b)
         == Ok(IntCell(k, VarintValue(ReadUvarint(b).val, k.bits, k.KInt?)), ReadUvarint(b).rest)
  {
  }

  // ---------------------------------------------------------------- fixed-width words

  lemma OneWordMore(width: nat, parts: nat)
    ensures width * (parts + 1) == width + width * parts && width * parts >= 0
  {
  }

  lemma {:induction false} WordsFit(b: bytes, width: nat, parts: nat)
    ensures DecWords(b, width, parts).Ok? <==> width * parts <= |b|
  {
    hide FromLE;
    if parts > 0 {
      OneWordMore(width, parts - 1);
      if width <= |b| {
        WordsFit(b[width..], width, parts - 1);
      }
    }
  }

  // Reading all the bytes of some words at once, then the words.
  lemma WordsAtOnce(b: bytes, width: nat, parts: nat)
    ensures width * parts > |b| ==> DecWords(b, width, parts).Fail?
    ensures width * parts <= |b| ==>
      var d := DecWords(b[..width * parts], width, parts);
      d.Ok? && DecWords(b, width, parts) == Ok(d.val, b[width * parts..])
  {
    hide DecWords;
    WordsFit(b, width, parts);
    if width * parts <= |b| {
      var r := DecWords(b, width, parts).rest;
      WordsShape(b, width, parts);
      WordsLocal(b, width, parts, []);
      assert Consumed(b, r) + [] == b[..width * parts];
    }
  }

  // ---------------------------------------------------------------- the decoder

  ghost predicate Outcome<T>(ok: bool, y: T, rem: bytes, d: Parsed<T>) {
    ok == d.Ok? && (ok ==> y == d.val && rem == d.rest)
  }

  datatype Result = Result(ok: bool, val: Cell, rest: bytes)

  class Decoder {
    const reader: R.Reader
    const arena: Arena

    constructor (stream: bool, input: bytes)
      requires |input| <= MAX_LEN
      ensures Valid() && fresh(reader) && fresh(arena)
      ensures reader.stream == stream && reader.buffer == input && reader.offset == 0
      ensures arena.views == [] && arena.mem == null
    {
      reader := new R.Reader(stream, input);
      arena := new Arena();
    }

    ghost predicate Valid()
      reads this, reader, arena, arena.Memories()
    {
      reader.Valid() && |reader.buffer| <= MAX_LEN && arena.Valid()
    }

    function Rem(): bytes
      requires reader.Valid()
      reads this, reader
    {
      reader.Rem()
    }

    /**
     What any stretch of decoding preserves: the reader has its buffer back, every view handed out
     before is still listed, and the arena is never lost, only extended or moved to new memory.
     */
    twostate predicate Advanced()
      reads this, reader, arena
    {
      && reader.buffer == old(reader.buffer)
      && old(arena.views) <= arena.views
      && (arena.mem == null || arena.mem == old(arena.mem) || fresh(arena.mem))
      && (old(arena.mem) != null ==> arena.mem != null)
      && forall v :: v in arena.views ==> v in old(arena.views) || v.mem == old(arena.mem) || fresh(v.mem)
    }

    // -------------------------------------------------------------- lengths, blobs, scalars

    method ReadUint() returns (ok: bool, x: nat)
      requires reader.Valid()
      modifies reader`offset
      ensures reader.Valid() && Outcome(ok, x, Rem(), ReadUvarint(old(Rem())))
    {
      R.UsedInRange(Rem());
      var err;
      x, err := reader.ReadUvarint();
      ok := err.NoError?;
    }

    method ReadLen() returns (ok: bool, n: nat)
      requires reader.Valid()
      modifies reader`offset
      ensures reader.Valid() && Outcome(ok, n, Rem(), ReadLength(old(Rem())))
    {
      ok, n := ReadUint();
      ok := ok && n <= MAX_INT;
    }

    method ReadBytes(n: nat) returns (ok: bool, s: bytes)
      requires reader.Valid()
      modifies reader`offset
      ensures reader.Valid() && Outcome(ok, s, Rem(), SliceFrom(reader.stream, n, old(Rem())))
    {
      ok, s := reader.Slice(n);
    }

    method ReadSlice() returns (ok: bool, s: bytes)
      requires reader.Valid()
      modifies reader`offset
      ensures reader.Valid() && Outcome(ok, s, Rem(), ReadBlobFrom(reader.stream, old(Rem())))
    {
      var n;
      s := [];
      ok, n := ReadLen();
      if ok {
        ok, s := ReadBytes(n);
      }
    }

    // -------------------------------------------------------------- scalars and blobs

    method DecodePrim(k: Kind, x: Cell) returns (ok: bool, y: Cell)
      requires reader.Valid() && WFKind(k) && x.CScalar?
      modifies reader`offset
      ensures reader.Valid()
      ensures Outcome(ok, y, Rem(), DecInto(reader.stream, Prim(k), x, old(Rem())))
    {
      y := x;
      match k {
        case KString =>
          var s;
          ok, s := ReadSlice();
          if ok && x.v != VStr(s) {
            y := CScalar(VStr(s));
          }
        case KBool =>
          var b;
          ok, b := reader.ReadByte();
          y := CScalar(VBool(b == 1));
        case KInt(bits, _) =>
          R.UsedInRange(Rem());
          var i, err := reader.ReadVarint();
          ok, y := err.NoError?, CScalar(VInt(WrapSigned(i, bits)));
        case KUint(bits, _) =>
          var n;
          ok, n := ReadUint();
          y := CScalar(VUint(n % Modulus(bits)));
        case KWords(width, parts) =>
          var data;
          WordsAtOnce(Rem(), width, parts);
          ok, data := ReadBytes(width * parts);
          if ok {
            y := CScalar(VWords(DecWords(data, width, parts).val));
          }
      }
    }

    /** `ensureAvailable` */
    predicate HasBytes(n: nat)
      requires reader.Valid()
      reads reader
      ensures HasBytes(n) == Enough(reader.stream, n, reader.Rem())
    {
      reader.Available() < 0 || n <= reader.Available()
    }

    /** `ensureElements` */
    predicate HasElements(n: nat, min: nat)
      requires reader.Valid()
      reads reader
      ensures HasElements(n, min) == EnoughFor(reader.stream, n, min, reader.Rem())
    {
      reader.Available() < 0 || min == 0 || n <= reader.Available() / min
    }

    method DecodeBytes(x: Cell) returns (ok: bool, y: Cell)
      requires reader.Valid() && Shaped(Bytes, x)
      modifies reader`offset
      ensures reader.Valid() && Outcome(ok, y, Rem(), BytesInto(reader.stream, x, old(Rem())))
    {
      var n;
      y := x;
      ok, n := ReadLen();
      if !ok {
        return;
      }
      if reader.stream {
        if n == 0 {
          return true, CBlob(0, x.mem);
        }
        var data;
        ok, data := ReadBytes(n);
        return ok, CBlob(n, data);
      }
      if !HasBytes(n) || (n > |x.mem| && n > MAX_LEN) {
        return false, x;
      }
      var mem := ResizedBytes(x.mem, n);
      if n > 0 {
        var eof, got := reader.Read(n);
        mem := got + mem[n..];
      } else {
        assert CopyOver(mem, n, Rem()) == mem && After(n, Rem()) == Rem();
      }
      return true, CBlob(n, mem);
    }

    method DecodeBools(x: Cell) returns (ok: bool, y: Cell)
      requires reader.Valid() && Shaped(Bools, x)
      modifies reader`offset
      ensures reader.Valid() && Outcome(ok, y, Rem(), BoolsInto(reader.stream, x, old(Rem())))
    {
      var n;
      y := x;
      ok, n := ReadLen();
      if !ok {
        return;
      }
      var mem := ResizedBytes(x.mem, n);
      var got: bytes := [];
      if reader.stream {
        ok, got := ReadBytes(n);
        if !ok || (n > |x.mem| && n > MAX_LEN) {
          return false, x;
        }
      } else {
        if !HasBytes(n) || (n > |x.mem| && n > MAX_LEN) {
          return false, x;
        }
        if n > 0 {
          var eof;
          eof, got := reader.Read(n);
        }
      }
      return true, CBlob(n, got + mem[n..]);
    }

    /** The direct struct path's own `[]byte` branch. */
    method DecodeDirectBytes(x: Cell) returns (ok: bool, y: Cell)
      requires reader.Valid() && Shaped(Bytes, x)
      modifies reader`offset
      ensures reader.Valid() && Outcome(ok, y, Rem(), DirectBytes(reader.stream, x, old(Rem())))
    {
      var n;
      y := x;
      ok, n := ReadLen();
      if !ok {
        return;
      }
      if n > |x.mem| && (!HasBytes(n) || n > MAX_LEN) {
        return false, x;
      }
      var mem := ResizedBytes(x.mem, n);
      if n > 0 {
        if reader.stream && n > |reader.buffer| - reader.offset {
          return false, x;  // io.ReadFull
        }
        var eof, got := reader.Read(n);
        if eof {
          return false, x;
        }
        mem := got + mem[|got|..];
      }
      return true, CBlob(n, mem);
    }

    // -------------------------------------------------------------- jobs

    /** Puts the decoder on a new input, as the pool does between two calls of `Unmarshal`. */
    method Reset(input: bytes)
      requires Valid() && |input| <= MAX_LEN
      modifies reader
      ensures Valid() && Rem() == input && reader.buffer == input
    {
      reader.buffer, reader.offset := input, 0;
    }

    /** `Decode`: one value, with a new arena; what earlier calls handed out stays as it was. */
    method Decode(c: Codec, x: Cell) returns (ok: bool, y: Cell)
      requires Valid() && WF(c) && Shaped(c, x)
      modifies reader, arena, arena.mem
      ensures Valid() && reader.buffer == old(reader.buffer) && old(arena.views) <= arena.views
      ensures arena.mem == null || fresh(arena.mem)
      ensures Outcome(ok, y, Rem(), DecInto(reader.stream, c, x, old(Rem())))
    {
      arena.Drop();
      ok, y := DecodeTo(c, x);
    }

    // -------------------------------------------------------------- the codec tree

    method DecodeTo(c: Codec, x: Cell) returns (ok: bool, y: Cell)
      requires Valid() && WF(c) && Shaped(c, x)
      modifies reader, arena, arena.mem
      ensures Valid() && Advanced()
      ensures Outcome(ok, y, Rem(), DecInto(reader.stream, c, x, old(Rem())))
      ensures ok && c.Map? && !reader.stream ==> y.CMap? && Backed(c, y.es, arena.views)
      decreases c, 2
    {
      hide Backed;
      match c {
        case Prim(k) => ok, y := DecodePrim(k, x);
        case Pointer(_) => ok, y := DecodePointer(c, x);
        case Bytes => ok, y := DecodeBytes(x);
        case Bools => ok, y := DecodeBools(x);
        case Seq(_, _, isArray, _) =>
          if isArray {
            ok, y := DecodeArray(c, x);
          } else {
            ok, y := DecodeSlice(c, x);
          }
        case Struct(fields) =>
          var ys;
          var slots, table := Layout(fields);
          ok, ys := DecodeFields(fields, slots, table, x.fields);
          y := CRec(ys);
        case Union(_) => ok, y := DecodeUnion(c, x);
        case Map(_, _, _) => ok, y := DecodeMap(c);
      }
    }

    method DecodePointer(c: Codec, x: Cell) returns (ok: bool, y: Cell)
      requires Valid() && c.Pointer? && WF(c) && Shaped(c, x)
      modifies reader, arena, arena.mem
      ensures Valid() && Advanced()
      ensures Outcome(ok, y, Rem(), DecInto(reader.stream, c, x, old(Rem())))
      decreases c, 0
    {
      var b;
      y := x;
      ok, b := reader.ReadByte();
      if !ok {
        return;
      }
      assert old(Rem())[1..] == Rem();
      if b == 1 {
        return true, CNil;
      }
      var z;
      ok, z := DecodeTo(c.elem, if x.CPtr? then x.target else Zero(c.elem));
      y := CPtr(z);
    }

    /** The element loop every slice and array codec shares. */
    method DecodeCells(c: Codec, xs: seq<Cell>) returns (ok: bool, ys: seq<Cell>)
      requires Valid() && WF(c) && forall i :: 0 <= i < |xs| ==> Shaped(c, xs[i])
      modifies reader, arena, arena.mem
      ensures Valid() && Advanced()
      ensures Outcome(ok, ys, Rem(), CellsInto(reader.stream, c, xs, old(Rem())))
      decreases c, 3
    {
      hide DecInto, CellsInto, Shaped, WF;
      ghost var all := CellsInto(reader.stream, c, xs, Rem());
      ys := [];
      var i := 0;
      assert xs[0..] == xs;
      OntoNone(all);
      while i < |xs|
        invariant 0 <= i <= |xs| && Valid() && Advanced()
        invariant all == Onto(ys, CellsInto(reader.stream, c, xs[i..], Rem()))
      {
        CellsStep(reader.stream, c, xs, i, ys, Rem());
        var y;
        ok, y := DecodeTo(c, xs[i]);
        if !ok {
          return;
        }
        ys, i := ys + [y], i + 1;
      }
      CellsDone(reader.stream, c, Rem());
      return true, ys;
    }

    /** Integers of one width, through the bulk decoder in memory and one by one from a stream. */
    method DecodeInts(k: Kind, xs: seq<Cell>) returns (ok: bool, ys: seq<Cell>)
      requires reader.Valid() && (k.KInt? || k.KUint?) && forall i :: 0 <= i < |xs| ==> Shaped(Prim(k), xs[i])
      modifies reader`offset
      ensures reader.Valid() && Outcome(ok, ys, Rem(), CellsInto(reader.stream, Prim(k), xs, old(Rem())))
    {
      hide CellsInto, R.BulkRead, Shaped;
      ghost var b := Rem();
      BulkCells(reader.stream, k, xs, b);
      var values := new int[|xs|];
      var err;
      if reader.stream {
        err := reader.ReadEach(values, k.bits, k.KInt?);
      } else {
        err := reader.ReadVarints(values, k.bits, k.KInt?);
      }
      ok := err.NoError?;
      ys := IntCells(k, values[..]);
      ghost var bulk := R.BulkRead(b, |xs|, k.bits, k.KInt?);
      if ok {
        assert values[..] == bulk.written && Rem() == b[bulk.used..];
      }
    }

    /** Floats and complex numbers: all the bytes at once, then the words out of them. */
    method DecodeFixed(elem: Codec, xs: seq<Cell>) returns (ok: bool, ys: seq<Cell>)
      requires reader.Valid() && elem.Prim? && elem.kind.KWords? && WF(elem)
      requires |xs| * ElemMin(elem) <= |Rem()| && (reader.stream ==> |xs| * ElemMin(elem) <= MAX_LEN)
      requires forall i :: 0 <= i < |xs| ==> Shaped(elem, xs[i])
      modifies reader`offset
      ensures reader.Valid() && ok && Outcome(ok, ys, Rem(), CellsInto(reader.stream, elem, xs, old(Rem())))
    {
      hide CellsInto, ElemMin, Shaped;
      ghost var b := Rem();
      var data;
      ok, data := ReadBytes(|xs| * ElemMin(elem));
      assert b == data + Rem();
      assert Spans(|xs|, elem, |data|);
      ys := FixedCells(reader.stream, elem, xs, data, Rem());
    }

    method DecodeArray(c: Codec, x: Cell) returns (ok: bool, y: Cell)
      requires Valid() && c.Seq? && c.isArray && WF(c) && Shaped(c, x)
      modifies reader, arena, arena.mem
      ensures Valid() && Advanced()
      ensures Outcome(ok, y, Rem(), ArrayInto(reader.stream, c, x, old(Rem())))
      decreases c, 0
    {
      hide CellsInto;
      var ys;
      y := x;
      if c.flavour.OfString? && !HasBytes(c.length) {
        return false, x;
      }
      if c.flavour.OfWords? {
        var size := c.length * ElemMin(c.elem);
        if !FixedFits(size) {
          return false, x;
        }
        ok, ys := DecodeFixed(c.elem, x.fields);
      } else {
        ok, ys := DecodeCells(c.elem, x.fields);
      }
      y := CRec(ys);
    }

    /** Whether `Slice(size)` would succeed. */
    predicate FixedFits(size: nat)
      requires reader.Valid()
      reads reader
    {
      size <= |reader.buffer| - reader.offset && (reader.stream ==> size <= MAX_LEN)
    }

    method DecodeSlice(c: Codec, x: Cell) returns (ok: bool, y: Cell)
      requires Valid() && c.Seq? && !c.isArray && WF(c) && Shaped(c, x)
      modifies reader, arena, arena.mem
      ensures Valid() && Advanced()
      ensures Outcome(ok, y, Rem(), SliceInto(reader.stream, c, x, old(Rem())))
      decreases c, 1
    {
      hide ElementsInto, ReadLength;
      var n;
      y := x;
      ok, n := ReadLen();
      if !ok {
        return;
      }
      var fits: bool;
      match c.flavour {
        case Generic => fits := IsZeroWire(c.elem) || HasElements(n, WireMin(c.elem));
        case OfWords =>
          var size := ElemMin(c.elem);
          fits := (size > 0 ==> n <= MAX_INT / size) && FixedFits(n * size);
        case _ => fits := HasBytes(n);
      }
      assert fits == SliceCheck(reader.stream, c, n, Rem());
      hide SliceCheck, Disjoint;
      if !fits || (n > |x.cells| && n > MAX_LEN) {
        return false, x;
      }
      if c.flavour.Generic? && IsZeroWire(c.elem) {
        return true, CSlice(n, Resized(c.elem, x.cells, n));
      }
      var ys;
      ok, ys := DecodeElements(c, x.cells, n);
      y := CSlice(n, ys);
    }

    method DecodeElements(c: Codec, cells: seq<Cell>, n: nat) returns (ok: bool, ys: seq<Cell>)
      requires Valid() && c.Seq? && !c.isArray && WF(c) && forall i :: 0 <= i < |cells| ==> Shaped(c.elem, cells[i])
      requires c.flavour.OfWords? ==>
        n * ElemMin(c.elem) <= |Rem()| && (reader.stream ==> n * ElemMin(c.elem) <= MAX_LEN)
      modifies reader, arena, arena.mem
      ensures Valid() && Advanced()
      ensures Outcome(ok, ys, Rem(), ElementsInto(reader.stream, c.elem, cells, n, old(Rem())))
      decreases c, 0
    {
      hide CellsInto;
      var mem := Resized(c.elem, cells, n);
      if c.flavour.OfWords? {
        ok, ys := DecodeFixed(c.elem, mem[..n]);
      } else if c.flavour.OfVarint? {
        ok, ys := DecodeInts(c.elem.kind, mem[..n]);
      } else {
        ok, ys := DecodeCells(c.elem, mem[..n]);
      }
      ys := ys + mem[n..];
    }

    // -------------------------------------------------------------- structs

    /** Goes over all fields of the Go struct: `table` is the codec, and `xs` lists the included fields. */
    method DecodeFields(ghost fs: seq<Codec>, ghost slots: seq<Slot>, table: seq<FieldCodec>, xs: seq<Cell>)
      returns (ok: bool, ys: seq<Cell>)
      requires Valid() && Packs(slots, table) && Included(slots) == fs && FieldsFit(fs, xs)
      modifies reader, arena, arena.mem
      ensures Valid() && Advanced()
      ensures Outcome(ok, ys, Rem(), FieldsInto(reader.stream, Direct(fs), fs, xs, old(Rem())))
      decreases fs
    {
      hide FieldInto, FieldsInto, Decoded, Shaped, WF, Included, ToCome, Direct, Packs, Reads, KindNumber;
      hide FieldCodec.IsIncluded, FieldCodec.IsWritable, FieldCodec.Kind, FieldCodec.IsDirect;
      var direct := IsDirectTable(slots, table);
      ghost var all := FieldsInto(reader.stream, direct, fs, xs, Rem());
      ys := [];
      NoneDecoded(reader.stream, direct, fs, xs, Rem());
      AllToCome(slots, fs);
      TableSize(slots, table);
      var j := 0;
      for i := 0 to |table|
        invariant 0 <= j && ToCome(slots, i, fs, j) && Valid() && Advanced()
        invariant Decoded(all, ys, reader.stream, direct, fs, xs, j, Rem())
      {
        SlotReads(slots, table, i, fs, j);
        if table[i].IsWritable() {
          var y;
          FieldFits(fs, xs, j);
          NextDecoded(all, ys, reader.stream, direct, fs, xs, j, Rem());
          ok, y := DecodeField(table[i], direct, xs[j]);
          if !ok {
            return;
          }
          ys, j := ys + [y], j + 1;
        }
      }
      NoneToCome(slots, fs, j);
      AllDecoded(all, ys, reader.stream, direct, fs, xs, Rem());
      return true, ys;
    }

    method DecodeField(f: FieldCodec, direct: bool, x: Cell) returns (ok: bool, y: Cell)
      requires Valid() && f.Kind() == KindNumber(f.codec) && WF(f.codec) && Shaped(f.codec, x)
      modifies reader, arena, arena.mem
      ensures Valid() && Advanced()
      ensures Outcome(ok, y, Rem(), FieldInto(reader.stream, direct, f.codec, x, old(Rem())))
      decreases f.codec, 4
    {
      if direct {
        DirectDecSame(reader.stream, f.codec, x, Rem());
        ok, y := DecodeDirect(f, x);
      } else {
        ok, y := DecodeTo(f.codec, x);
      }
    }

    /** The direct path: a switch on the packed kind instead of a call through the codec. */
    method DecodeDirect(f: FieldCodec, x: Cell) returns (ok: bool, y: Cell)
      requires Valid() && f.Kind() == KindNumber(f.codec) && WF(f.codec) && Shaped(f.codec, x)
      modifies reader, arena, arena.mem
      ensures Valid() && Advanced()
      ensures Outcome(ok, y, Rem(), DirectDec(reader.stream, KindNumber(f.codec), f.codec, x, old(Rem())))
      decreases f.codec, 3
    {
      var kind := f.Kind();
      KindCodec(f.codec);
      hide FieldCodec.Kind, KindNumber, DecInto, Shaped, WF, ReadUvarint, DirectBytes, DirectVaruints;
      if 1 <= kind <= 24 {
        ok, y := DecodeScalar(kind, x);
      } else if kind == 30 {
        ok, y := DecodeDirectBytes(x);
      } else if 27 <= kind <= 29 {
        ok, y := DecodeDirectVaruints(f.codec, x);
      } else {
        ok, y := DecodeTo(f.codec, x);
      }
    }

    method DecodeScalar(kind: nat, x: Cell) returns (ok: bool, y: Cell)
      requires reader.Valid() && 1 <= kind <= 24 && kind != 12 && !(16 < kind < 24) && x.CScalar?
      modifies reader`offset
      ensures reader.Valid()
      ensures Outcome(ok, y, Rem(), DirectScalar(reader.stream, kind, old(Rem())))
    {
      hide ReadUvarint, DecWords;
      y := x;
      if kind == 24 {
        var s;
        ok, s := ReadSlice();
        if ok && x.v != VStr(s) {
          y := CScalar(VStr(s));
        }
      } else if kind == 1 {
        var b;
        ok, b := reader.ReadByte();
        y := CScalar(VBool(b == 1));
      } else if 2 <= kind <= 6 {
        R.UsedInRange(Rem());
        var i, err := reader.ReadVarint();
        ok, y := err.NoError?, CScalar(VInt(WrapSigned(i, KindBits(kind))));
      } else if 7 <= kind <= 11 {
        var n;
        ok, n := ReadUint();
        y := CScalar(VUint(n % Modulus(KindBits(kind))));
      } else {
        var (width, parts) := KindWords(kind);
        var data;
        WordsAtOnce(Rem(), width, parts);
        ok, data := ReadBytes(width * parts);
        if ok {
          y := CScalar(VWords(DecWords(data, width, parts).val));
        }
      }
    }

    method DecodeDirectVaruints(f: Codec, x: Cell) returns (ok: bool, y: Cell)
      requires Valid() && IsVaruints(f) && WF(f) && Shaped(f, x)
      modifies reader`offset
      ensures Valid() && Advanced()
      ensures Outcome(ok, y, Rem(), DirectVaruints(reader.stream, f, x, old(Rem())))
    {
      hide CellsInto, ReadLength;
      var n;
      y := x;
      ok, n := ReadLen();
      if !ok {
        return;
      }
      if n > |x.cells| && (!HasBytes(n) || n > MAX_LEN) {
        return false, x;
      }
      var mem := Resized(f.elem, x.cells, n);
      var ys;
      ok, ys := DecodeInts(f.elem.kind, mem[..n]);
      y := CSlice(n, ys + mem[n..]);
    }

    // -------------------------------------------------------------- maps

    /** A key; through the arena when it is a plain string and the arena is open. */
    method DecodeKey(k: Codec, useArena: bool) returns (ok: bool, v: Value)
      requires Valid() && WF(k) && (useArena ==> arena.mem != null && !reader.stream)
      modifies reader, arena, arena.mem
      ensures Valid() && Advanced()
      ensures Outcome(ok, v, Rem(), KeyInto(reader.stream, k, old(Rem())))
      ensures ok && useArena ==> KeyBacked(k, v, arena.views)
      ensures old(arena.views) <= arena.views
      decreases k, 3
    {
      hide Shaped, Disjoint;
      if k.Prim? && FixedKey(k.kind) {
        var w;
        ok, w := ReadBytes(k.kind.bits / 8);
        v := if k.kind.KInt? then VInt(WrapSigned(FromLE(w), k.kind.bits)) else VUint(FromLE(w));
      } else if k == Prim(KString) {
        var s;
        ok, s := ReadShortString();
        v := VStr(s);
        if ok && useArena {
          var view := arena.Append(s);
          v := VStr(view.text);
          assert arena.views[|arena.views| - 1] == view;
        }
      } else {
        hide DecInto;
        var y;
        ok, y := DecodeTo(k, Zero(k));
        v := View(y);
      }
    }

    /** A two-byte length and that many bytes. */
    method ReadShortString() returns (ok: bool, s: bytes)
      requires reader.Valid()
      modifies reader`offset
      ensures reader.Valid()
      ensures var d := DecPrimKey(KString, old(Rem())); ok == d.Ok? && (ok ==> VStr(s) == d.val && Rem() == d.rest)
    {
      hide FromLE;
      var w;
      s := [];
      ok, w := ReadBytes(2);
      if ok {
        ShortLength(w);
        ok, s := ReadBytes(FromLE(w));
      }
    }

    /** A value; plain strings and byte slices go through the arena when it is open. */
    method DecodeVal(c: Codec, useArena: bool) returns (ok: bool, v: Value)
      requires Valid() && WF(c) && (useArena ==> arena.mem != null && !reader.stream)
      modifies reader, arena, arena.mem
      ensures Valid() && Advanced()
      ensures var d := DecInto(reader.stream, c, Zero(c), old(Rem()));
        ok == d.Ok? && (ok ==> v == View(d.val) && Rem() == d.rest)
      ensures ok && useArena ==> ValBacked(c, v, arena.views)
      ensures old(arena.views) <= arena.views
      decreases c, 3
    {
      if useArena && (c == Prim(KString) || c == Bytes) {
        var s;
        PlainValue(c, Rem());
        hide DecInto, View, Zero, ReadBlobFrom;
        ok, s := ReadSlice();
        v := VStr(s);
        if ok && (c != Bytes || s != []) {
          var view := arena.Append(s);
          v := VStr(view.text);
          assert arena.views[|arena.views| - 1] == view;
        }
      } else {
        hide DecInto, View;
        var y;
        ok, y := DecodeTo(c, Zero(c));
        v := View(y);
      }
    }

    method DecodeMap(c: Codec) returns (ok: bool, y: Cell)
      requires Valid() && c.Map? && WF(c)
      modifies reader, arena, arena.mem
      ensures Valid() && Advanced()
      ensures Outcome(ok, y, Rem(), DecInto(reader.stream, c, CMap([]), old(Rem())))
      ensures ok && !reader.stream ==> y.CMap? && Backed(c, y.es, arena.views)
      decreases c, 1
    {
      hide EntriesInto, ReadLength, Disjoint, Backed;
      var n;
      y := CMap([]);
      ok, n := ReadLen();
      if !ok {
        return;
      }
      if !(c.mflavour.ReflectMap? && n <= 1) && !HasElements(n, EarlyMin(c)) {
        return false, y;
      }
      var es;
      ok, es := DecodeCounted(c, n);
      y := CMap(es);
    }

    /** Opens the arena if the map can use it, then decodes the entries. */
    method DecodeCounted(c: Codec, n: nat) returns (ok: bool, es: seq<Entry>)
      requires Valid() && c.Map? && WF(c)
      modifies reader, arena, arena.mem
      ensures Valid() && Advanced()
      ensures Outcome(ok, es, Rem(), EntriesInto(reader.stream, c, n, old(Rem()), []))
      ensures ok && !reader.stream ==> Backed(c, es, arena.views)
      decreases c, 0, 1
    {
      hide EntriesInto, Disjoint, Backed, WF;
      var plain := c.key == Prim(KString) || c.val == Prim(KString) || c.val == Bytes;
      var useArena := false;
      if n > 0 && plain && !reader.stream {
        useArena := arena.Open(|reader.buffer| - reader.offset);
        if !useArena {
          assert Rem() == [];
          NoEntries(reader.stream, c, n);
        }
      }
      ok, es := DecodeEntries(c, n, useArena);
      NoneBacked(c, arena.views);
      NotPlain(c, es, arena.views);
    }

    method DecodeEntries(c: Codec, n: nat, useArena: bool) returns (ok: bool, es: seq<Entry>)
      requires Valid() && c.Map? && WF(c) && (useArena ==> arena.mem != null && !reader.stream)
      modifies reader, arena, arena.mem
      ensures Valid() && Advanced()
      ensures Outcome(ok, es, Rem(), EntriesInto(reader.stream, c, n, old(Rem()), []))
      ensures ok && n == 0 ==> es == []
      ensures ok && useArena ==> Backed(c, es, arena.views)
      decreases c, 0, 0
    {
      hide EntriesInto, KeyInto, DecInto, Put, View, WF, Backed, KeyBacked, ValBacked;
      NoneBacked(c, arena.views);
      WFMap(c);
      ghost var all := EntriesInto(reader.stream, c, n, Rem(), []);
      es := [];
      var i := 0;
      while i < n
        invariant 0 <= i <= n && Valid() && Advanced()
        invariant all == EntriesInto(reader.stream, c, n - i, Rem(), es)
        invariant (i == 0 ==> es == []) && (useArena ==> Backed(c, es, arena.views))
      {
        EntriesStep(reader.stream, c, n - i, Rem(), es);
        ghost var before := arena.views;
        var k, v;
        ok, k := DecodeKey(c.key, useArena);
        if !ok {
          return;
        }
        ghost var between := arena.views;
        ok, v := DecodeVal(c.val, useArena);
        if !ok {
          return;
        }
        if useArena {
          BackedPut(c, es, k, v, before, between, arena.views);
        }
        es, i := Put(es, k, v), i + 1;
      }
      EntriesStep(reader.stream, c, 0, Rem(), es);
      return true, es;
    }

    // -------------------------------------------------------------- unions

    /**
     Decodes the tagged body in a window: the reader's buffer is swapped for the body and given
     back. Once the header is read the reader ends exactly past the body, whether the arm succeeds or
     not; a failed arm leaves no arm set; and an arena born inside the window does not outlive it.
     */
    method DecodeUnion(c: Codec, x: Cell) returns (ok: bool, y: Cell)
      requires Valid() && c.Union? && WF(c) && Shaped(c, x)
      modifies reader, arena, arena.mem
      ensures Valid() && Advanced()
      ensures Outcome(ok, y, Rem(), UnionInto(reader.stream, c, x, old(Rem())))
      ensures var tag := ReadUvarint(old(Rem()));
        tag.Ok? && ReadBlobFrom(reader.stream, tag.rest).Ok? ==>
          && Rem() == ReadBlobFrom(reader.stream, tag.rest).rest
          && (!ok ==> y == CSlots(CNils(|c.arms|)))
      ensures old(arena.mem) == null ==> arena.mem == null
      decreases c, 0
    {
      hide DecInto, ReadUvarint, ReadBlobFrom;
      var tag, body;
      y := x;
      ok, tag := ReadUint();
      if !ok {
        return;
      }
      ghost var b1 := Rem();
      ok, body := ReadSlice();
      if !ok {
        return;
      }
      BodyFits(reader.stream, b1);
      var i := FindArm(c.arms, tag);
      if i < 0 {
        return true, CSlots(CNils(|c.arms|));
      }
      var arm := c.arms[i].codec;
      var target := if x.slots[i].CPtr? then x.slots[i].target else Zero(arm);
      var z;
      ok, z := DecodeArm(arm, target, body);
      y := CSlots(if ok then CNils(|c.arms|)[i := CPtr(z)] else CNils(|c.arms|));
    }

    method DecodeArm(arm: Codec, target: Cell, body: bytes) returns (ok: bool, z: Cell)
      requires Valid() && WF(arm) && Shaped(arm, target) && |body| <= MAX_LEN
      modifies reader, arena, arena.mem
      ensures Valid() && Advanced() && reader.offset == old(reader.offset)
      ensures var d := DecInto(false, arm, target, body); ok == d.Ok? && (ok ==> z == d.val)
      ensures old(arena.mem) == null ==> arena.mem == null
      decreases arm, 5
    {
      if !reader.stream {
        ok, z := DecodeInWindow(arm, target, body);
      } else {
        ok, z := DecodeApart(arm, target, body);
      }
    }

    method DecodeInWindow(arm: Codec, target: Cell, body: bytes) returns (ok: bool, z: Cell)
      requires Valid() && !reader.stream && WF(arm) && Shaped(arm, target) && |body| <= MAX_LEN
      modifies reader, arena, arena.mem
      ensures Valid() && Advanced() && reader.offset == old(reader.offset)
      ensures var d := DecInto(false, arm, target, body); ok == d.Ok? && (ok ==> z == d.val)
      ensures old(arena.mem) == null ==> arena.mem == null
      decreases arm, 3
    {
      hide DecInto, Shaped, WF, Disjoint;
      var buffer, offset := reader.buffer, reader.offset;
      var hadArena := arena.mem != null;
      reader.buffer, reader.offset := body, 0;
      assert Rem() == body;
      ok, z := DecodeTo(arm, target);
      reader.buffer, reader.offset := buffer, offset;
      if !hadArena {
        arena.Drop();
      }
    }

    /** On a stream the body is decoded by another decoder, with an arena of its own. */
    method DecodeApart(arm: Codec, target: Cell, body: bytes) returns (ok: bool, z: Cell)
      requires Valid() && WF(arm) && Shaped(arm, target) && |body| <= MAX_LEN
      modifies arena`views
      ensures Valid() && Advanced()
      ensures var d := DecInto(false, arm, target, body); ok == d.Ok? && (ok ==> z == d.val)
      decreases arm, 4
    {
      hide DecInto, Shaped, WF, Disjoint;
      ghost var views;
      ok, z, views := DecodeAlone(arm, target, body);
      arena.Adopt(views);
    }

    static method DecodeAlone(arm: Codec, target: Cell, body: bytes)
      returns (ok: bool, z: Cell, ghost views: seq<ArenaView>)
      requires WF(arm) && Shaped(arm, target) && |body| <= MAX_LEN
      ensures var d := DecInto(false, arm, target, body); ok == d.Ok? && (ok ==> z == d.val)
      ensures Disjoint(views) && forall v :: v in views ==> v.Intact() && v.Tight() && fresh(v.mem)
      decreases arm, 3
    {
      hide DecInto, Shaped, WF, Disjoint;
      var inner := new Decoder(false, body);
      assert inner.Rem() == body;
      ok, z := inner.DecodeTo(arm, target);
      views := inner.arena.views;
    }
  }

  // ---------------------------------------------------------------- strings of maps are arena views

  /** A plain string key is the text of a view that was handed out. */
  ghost predicate KeyBacked(k: Codec, v: Value, views: seq<ArenaView>) {
    k == Prim(KString) ==> exists i :: 0 <= i < |views| && v == VStr(views[i].text)
  }

  /** So is a plain string or byte slice value; empty byte slices need no memory. */
  ghost predicate ValBacked(c: Codec, v: Value, views: seq<ArenaView>) {
    c == Prim(KString) || (c == Bytes && v != VStr([])) ==> exists i :: 0 <= i < |views| && v == VStr(views[i].text)
  }

  ghost predicate Backed(c: Codec, es: seq<Entry>, views: seq<ArenaView>)
    requires c.Map?
  {
    forall i :: 0 <= i < |es| ==> KeyBacked(c.key, es[i].key, views) && ValBacked(c.val, es[i].val, views)
  }

  lemma NoneBacked(c: Codec, views: seq<ArenaView>)
    requires c.Map?
    ensures Backed(c, [], views)
  {
  }

  /** Maps without plain strings hold nothing of the arena. */
  lemma NotPlain(c: Codec, es: seq<Entry>, views: seq<ArenaView>)
    requires c.Map?
    ensures c.key != Prim(KString) && c.val != Prim(KString) && c.val != Bytes ==> Backed(c, es, views)
  {
  }

  lemma BackedPut(c: Codec, es: seq<Entry>, k: Value, v: Value,
                  before: seq<ArenaView>, between: seq<ArenaView>, after: seq<ArenaView>)
    requires c.Map? && before <= between <= after
    requires Backed(c, es, before) && KeyBacked(c.key, k, between) && ValBacked(c.val, v, after)
    ensures Backed(c, Put(es, k, v), after)
  {
    hide KeyBacked, ValBacked;
    StaysBacked(c, Entry(k, v), between, after);
    forall i | 0 <= i < |es|
      ensures KeyBacked(c.key, es[i].key, after) && ValBacked(c.val, es[i].val, after)
    {
      StaysBacked(c, es[i], before, after);
    }
    BackedEntry(c, es, k, v, after);
  }

  lemma StaysBacked(c: Codec, e: Entry, views: seq<ArenaView>, more: seq<ArenaView>)
    requires c.Map? && views <= more
    ensures KeyBacked(c.key, e.key, views) ==> KeyBacked(c.key, e.key, more)
    ensures ValBacked(c.val, e.val, views) ==> ValBacked(c.val, e.val, more)
  {
  }

  lemma {:induction false} BackedEntry(c: Codec, es: seq<Entry>, k: Value, v: Value, views: seq<ArenaView>)
    requires c.Map? && Backed(c, es, views) && KeyBacked(c.key, k, views) && ValBacked(c.val, v, views)
    ensures Backed(c, Put(es, k, v), views)
    decreases |es|
  {
    hide KeyBacked, ValBacked;
    if es != [] && es[0].key != k {
      BackedEntry(c, es[1..], k, v, views);
    }
  }

  /** With nothing left to read, no entry with a plain string decodes. */
  lemma NoEntries(stream: bool, c: Codec, n: nat)
    requires c.Map? && WF(c) && n > 0 && (c.key == Prim(KString) || c.val == Prim(KString) || c.val == Bytes)
    ensures EntriesInto(stream, c, n, [], []).Fail?
  {
    var k := KeyInto(stream, c.key, []);
    if k.Ok? {
      KeyExactly(stream, c.key, []);
      KeyIntoOk(stream, c.key, []);
      KeyAtLeast(c.key, []);
      assert k.rest == [];
      assert ReadUvarint([]).Fail?;
    }
  }

  /** Looks a tag up in the dense table the scanner builds for these arms. */
  method FindArm(arms: seq<Arm>, tag: nat) returns (i: int)
    requires DistinctTags(arms)
    ensures i == Lookup(arms, tag)
  {
    var maxTag := 0;
    for j := 0 to |arms|
      invariant forall k :: 0 <= k < j ==> arms[k].tag <= maxTag
    {
      if arms[j].tag > maxTag {
        maxTag := arms[j].tag;
      }
    }
    var table := new Scanner.UnionTable(arms, maxTag);
    i := table.Find(tag);
  }

  /** What a kind says about the field's codec. */
  lemma KindCodec(f: Codec)
    requires WF(f)
    ensures var kind := KindNumber(f);
      && (kind == 0 || 1 <= kind <= 11 || 13 <= kind <= 16 || kind == 24 || 27 <= kind <= 30)
      && (1 <= kind <= 24 <==> f.Prim?) && (kind == 30 <==> f.Bytes?) && (27 <= kind <= 29 <==> IsVaruints(f))
  {
  }

  lemma BodyFits(stream: bool, b: bytes)
    requires ReadBlobFrom(stream, b).Ok?
    ensures |ReadBlobFrom(stream, b).val| <= |b|
  {
    ReadUvarintShape(b);
  }

  ghost predicate FieldsFit(fs: seq<Codec>, xs: seq<Cell>) {
    |xs| == |fs| && forall i :: 0 <= i < |fs| ==> WF(fs[i]) && Shaped(fs[i], xs[i])
  }

  lemma FieldFits(fs: seq<Codec>, xs: seq<Cell>, j: nat)
    requires FieldsFit(fs, xs) && j < |fs|
    ensures |xs| == |fs| && WF(fs[j]) && Shaped(fs[j], xs[j])
  {
  }

  /** The fields before `j` are decoded to `ys`; `b` is what the others are read from. */
  ghost predicate Decoded(all: Parsed<seq<Cell>>, ys: seq<Cell>, stream: bool, direct: bool,
                          fs: seq<Codec>, xs: seq<Cell>, j: nat, b: bytes)
    requires FieldsFit(fs, xs)
  {
    j <= |fs| && all == Onto(ys, FieldsInto(stream, direct, fs[j..], xs[j..], b))
  }

  lemma NoneDecoded(stream: bool, direct: bool, fs: seq<Codec>, xs: seq<Cell>, b: bytes)
    requires FieldsFit(fs, xs)
    ensures Decoded(FieldsInto(stream, direct, fs, xs, b), [], stream, direct, fs, xs, 0, b)
  {
    assert xs[0..] == xs && fs[0..] == fs;
    OntoNone(FieldsInto(stream, direct, fs, xs, b));
  }

  lemma NextDecoded(all: Parsed<seq<Cell>>, ys: seq<Cell>, stream: bool, direct: bool,
                    fs: seq<Codec>, xs: seq<Cell>, j: nat, b: bytes)
    requires FieldsFit(fs, xs) && j < |fs|
    requires Decoded(all, ys, stream, direct, fs, xs, j, b)
    ensures var d := FieldInto(stream, direct, fs[j], xs[j], b);
      if d.Ok? then Decoded(all, ys + [d.val], stream, direct, fs, xs, j + 1, d.rest) else all.Fail?
  {
    hide FieldInto, FieldsInto, Shaped;
    FieldsStep(stream, direct, fs, xs, j, ys, b);
  }

  lemma AllDecoded(all: Parsed<seq<Cell>>, ys: seq<Cell>, stream: bool, direct: bool,
                   fs: seq<Codec>, xs: seq<Cell>, b: bytes)
    requires FieldsFit(fs, xs)
    requires Decoded(all, ys, stream, direct, fs, xs, |fs|, b)
    ensures all == Ok(ys, b)
  {
    assert xs[|fs|..] == [] && fs[|fs|..] == [];
    FieldsDone(stream, direct, b);
  }

  lemma FieldsDone(stream: bool, direct: bool, b: bytes)
    ensures forall ys :: Onto(ys, FieldsInto(stream, direct, [], [], b)) == Ok(ys, b)
  {
    forall ys: seq<Cell>
      ensures ys + [] == ys
    {
    }
  }

  /** The loop over the fixed-width elements of `data`; `tail` is what follows them in the input. */
  method FixedCells(ghost stream: bool, elem: Codec, xs: seq<Cell>, data: bytes, ghost tail: bytes)
    returns (ys: seq<Cell>)
    requires elem.Prim? && elem.kind.KWords? && Spans(|xs|, elem, |data|)
    requires forall i :: 0 <= i < |xs| ==> Shaped(elem, xs[i])
    ensures CellsInto(stream, elem, xs, data + tail) == Ok(ys, tail)
  {
    hide CellsInto, Shaped, Spans;
    var n, size := |xs|, ElemMin(elem);
    ghost var b := data + tail;
    ghost var all := CellsInto(stream, elem, xs, b);
    ys := [];
    var i, at := 0, 0;
    assert xs[0..] == xs && b[0..] == b;
    OntoNone(all);
    while i < n
      invariant 0 <= i <= n && 0 <= at <= |data| && Spans(n - i, elem, |data| - at)
      invariant all == Onto(ys, CellsInto(stream, elem, xs[i..], b[at..]))
    {
      SpansStep(n - i, elem, |data| - at);
      FixedStep(stream, elem, xs, i, ys, b, at);
      assert b[at..at + size] == data[at..at + size];
      ys := ys + [CScalar(VWords(DecWords(data[at..at + size], elem.kind.width, elem.kind.parts).val))];
      i, at := i + 1, at + size;
    }
    SpansStep(n - i, elem, |data| - at);
    CellsDone(stream, elem, tail);
    assert xs[n..] == [] && b[at..] == tail;
  }

  /** `len` bytes hold exactly `n` elements. */
  predicate Spans(n: nat, elem: Codec, len: nat) {
    len == n * ElemMin(elem)
  }

  lemma SpansStep(n: nat, elem: Codec, len: nat)
    requires Spans(n, elem, len)
    ensures n == 0 ==> len == 0
    ensures n > 0 ==> len >= ElemMin(elem) && Spans(n - 1, elem, len - ElemMin(elem))
  {
    if n > 0 {
      assert n * ElemMin(elem) == ElemMin(elem) + (n - 1) * ElemMin(elem);
    }
  }

  lemma WFMap(c: Codec)
    requires c.Map? && WF(c)
    ensures WF(c.key) && WF(c.val)
  {
  }

  lemma EntriesStep(stream: bool, c: Codec, n: nat, b: bytes, es: seq<Entry>)
    requires c.Map?
    ensures n == 0 ==> EntriesInto(stream, c, n, b, es) == Ok(es, b)
    ensures n > 0 ==>
      var k := KeyInto(stream, c.key, b);
      (k.Fail? ==> EntriesInto(stream, c, n, b, es) == Fail)
    ensures n > 0 && KeyInto(stream, c.key, b).Ok? ==>
      var k := KeyInto(stream, c.key, b);
      var v := DecInto(stream, c.val, Zero(c.val), k.rest);
      EntriesInto(stream, c, n, b, es) ==
        if v.Fail? then Fail else EntriesInto(stream, c, n - 1, v.rest, Put(es, k.val, View(v.val)))
  {
  }

  lemma ShortLength(w: bytes)
    requires |w| == 2
    ensures FromLE(w) <= MAX_KEY
  {
    FromLEBound(w);
    assert Pow256(2) == 0x1_0000;
  }

  // In memory, a plain string or byte slice decoded to a fresh variable is just its bytes.
  lemma PlainValue(c: Codec, b: bytes)
    requires (c == Prim(KString) || c == Bytes) && |b| <= MAX_LEN
    ensures var d, s := DecInto(false, c, Zero(c), b), ReadBlobFrom(false, b);
      (d.Ok? <==> s.Ok?) && (d.Ok? ==> View(d.val) == VStr(s.val) && d.rest == s.rest)
  {
    if ReadLength(b).Ok? {
      ReadUvarintShape(b);
      var n, b1 := ReadLength(b).val, ReadLength(b).rest;
      if n <= |b1| {
        assert n == 0 ==> b1[..n] == [] && b1[n..] == b1;
      }
    }
  }

  lemma FixedStep(stream: bool, elem: Codec, xs: seq<Cell>, i: nat, ys: seq<Cell>, b: bytes, at: nat)
    requires elem.Prim? && elem.kind.KWords? && i < |xs| && at + ElemMin(elem) <= |b|
    requires forall j :: 0 <= j < |xs| ==> Shaped(elem, xs[j])
    ensures var size := ElemMin(elem);
      var d := DecWords(b[at..at + size], elem.kind.width, elem.kind.parts);
      d.Ok? && Onto(ys, CellsInto(stream, elem, xs[i..], b[at..])) ==
        Onto(ys + [CScalar(VWords(d.val))], CellsInto(stream, elem, xs[i + 1..], b[at + size..]))
  {
    hide CellsInto, DecWords;
    var size := ElemMin(elem);
    CellsStep(stream, elem, xs, i, ys, b[at..]);
    WordsAtOnce(b[at..], elem.kind.width, elem.kind.parts);
    assert b[at..][..size] == b[at..at + size] && b[at..][size..] == b[at + size..];
  }

  lemma CellsDone(stream: bool, c: Codec, b: bytes)
    ensures forall ys :: Onto(ys, CellsInto(stream, c, [], b)) == Ok(ys, b)
  {
    forall ys: seq<Cell>
      ensures ys + [] == ys
    {
    }
  }
}
