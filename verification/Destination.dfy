/**
 Decoding as the library does it: into a destination that may hold stale data, with early checks on
 the bytes that remain, for an in-memory reader or a stream. `DecInto` is related to the plain
 grammar `Dec`: on every input `Dec` accepts, any destination ends up viewing the decoded value.
 */
module Destination {
  import opened Wire
  import opened Varint
  import opened Codec
  import opened Analysis

  // ---------------------------------------------------------------- destinations

  /** Memory of a Go variable. Slices keep what lies between their length and their capacity. */
  datatype Cell =
    | CScalar(v: Value)                   // string, bool, number
    | CNil
    | CPtr(target: Cell)
    | CBlob(len: nat, mem: bytes)         // []byte and []bool
    | CSlice(len: nat, cells: seq<Cell>)
    | CRec(fields: seq<Cell>)             // array and struct
    | CSlots(slots: seq<Cell>)            // the arm pointers of a union
    | CMap(es: seq<Entry>)

  /** The value a program sees in a variable. */
  function View(x: Cell): Value
    decreases x, 0
  {
    match x
    case CScalar(v) => v
    case CNil => VNil
    case CPtr(t) => VPtr(View(t))
    case CBlob(len, mem) => VStr(if len <= |mem| then mem[..len] else mem)
    case CSlice(len, cells) => VSeq(Views(cells, len))
    case CRec(fields) => VSeq(Views(fields, |fields|))
    case CSlots(slots) => VSlots(Views(slots, |slots|))
    case CMap(es) => VMap(es)
  }

  function Views(cells: seq<Cell>, n: nat): (r: seq<Value>)
    ensures |r| == if n <= |cells| then n else |cells|
    decreases cells, n
  {
    if n == 0 || cells == [] then [] else [View(cells[0])] + Views(cells[1..], n - 1)
  }

  lemma {:induction false} ViewsAt(cells: seq<Cell>, n: nat, i: nat)
    requires i < n <= |cells|
    ensures Views(cells, n)[i] == View(cells[i])
  {
    if i > 0 {
      ViewsAt(cells[1..], n - 1, i - 1);
    }
  }

  lemma {:induction false} ViewsPrefix(xs: seq<Cell>, tail: seq<Cell>)
    ensures Views(xs + tail, |xs|) == Views(xs, |xs|)
  {
    if xs != [] {
      assert (xs + tail)[1..] == xs[1..] + tail;
      ViewsPrefix(xs[1..], tail);
    }
  }

  /** A variable of the Go type behind `c`. */
  predicate Shaped(c: Codec, x: Cell)
    decreases c
  {
    match c
    case Prim(_) => x.CScalar?
    case Pointer(elem) => x.CNil? || (x.CPtr? && Shaped(elem, x.target))
    case Bytes => x.CBlob? && x.len <= |x.mem|
    case Bools => x.CBlob? && x.len <= |x.mem|
    case Seq(_, elem, isArray, length) =>
      if isArray then x.CRec? && |x.fields| == length && forall i :: 0 <= i < length ==> Shaped(elem, x.fields[i])
      else x.CSlice? && x.len <= |x.cells| && forall i :: 0 <= i < |x.cells| ==> Shaped(elem, x.cells[i])
    case Struct(fields) =>
      x.CRec? && |x.fields| == |fields| && forall i :: 0 <= i < |fields| ==> Shaped(fields[i], x.fields[i])
    case Union(arms) =>
      && x.CSlots? && |x.slots| == |arms|
      && (forall i :: 0 <= i < |arms| ==> x.slots[i].CNil? || x.slots[i].CPtr?)
      && (forall i :: 0 <= i < |arms| && x.slots[i].CPtr? ==> Shaped(arms[i].codec, x.slots[i].target))
    case Map(_, _, _) => x.CMap?
  }

  /** A freshly allocated variable. */
  function Zero(c: Codec): (x: Cell)
    ensures Shaped(c, x)
    decreases c, 1
  {
    match c
    case Prim(k) => CScalar(ZeroPrim(k))
    case Pointer(_) => CNil
    case Bytes => CBlob(0, [])
    case Bools => CBlob(0, [])
    case Seq(_, elem, isArray, length) => if isArray then CRec(Fresh(elem, length)) else CSlice(0, [])
    case Struct(fields) => CRec(FreshFields(fields))
    case Union(arms) => CSlots(CNils(|arms|))
    case Map(_, _, _) => CMap([])
  }

  function Fresh(c: Codec, n: nat): (r: seq<Cell>)
    ensures |r| == n && forall i :: 0 <= i < n ==> r[i] == Zero(c) && Shaped(c, r[i])
    decreases c, 2, n
  {
    if n == 0 then [] else [Zero(c)] + Fresh(c, n - 1)
  }

  function FreshFields(fs: seq<Codec>): (r: seq<Cell>)
    ensures |r| == |fs| && forall i :: 0 <= i < |fs| ==> r[i] == Zero(fs[i]) && Shaped(fs[i], r[i])
    decreases fs, 0
  {
    if fs == [] then [] else [Zero(fs[0])] + FreshFields(fs[1..])
  }

  function CNils(n: nat): (r: seq<Cell>)
    ensures |r| == n && forall i :: 0 <= i < n ==> r[i] == CNil
  {
    seq(n, _ => CNil)
  }

  // ---------------------------------------------------------------- reads and early checks

  /** A stream refuses to allocate more than half of Go's largest slice at once. */
  function SliceFrom(stream: bool, n: nat, b: bytes): Parsed<bytes> {
    if stream && n > MAX_LEN then Fail else Take(b, n)
  }

  function ReadBlobFrom(stream: bool, b: bytes): Parsed<bytes> {
    var (n, b1) :- ReadLength(b);
    SliceFrom(stream, n, b1)
  }

  /** `ensureAvailable`: only an in-memory reader knows what remains. */
  predicate Enough(stream: bool, n: nat, b: bytes) {
    stream || n <= |b|
  }

  /** `ensureElements`: `n` elements of at least `min` bytes each. */
  predicate EnoughFor(stream: bool, n: nat, min: nat, b: bytes) {
    stream || min == 0 || n <= |b| / min
  }

  /** Go grows a slice only when it must, and only within the allocation limit. */
  predicate CanResize(cap: nat, n: nat) {
    n <= cap || n <= MAX_LEN
  }

  function ResizedBytes(mem: bytes, n: nat): (r: bytes)
    ensures |r| >= n
  {
    if n <= |mem| then mem else seq(n, _ => 0)
  }

  function Resized(c: Codec, cells: seq<Cell>, n: nat): (r: seq<Cell>)
    requires forall i :: 0 <= i < |cells| ==> Shaped(c, cells[i])
    ensures |r| >= n && forall i :: 0 <= i < |r| ==> Shaped(c, r[i])
  {
    if n <= |cells| then cells else Fresh(c, n)
  }

  /** Copies up to `n` bytes over `mem`: the bytes beyond the end of input stay as they were. */
  function CopyOver(mem: bytes, n: nat, b: bytes): (r: bytes)
    requires n <= |mem|
    ensures |r| == |mem|
  {
    var k := if n <= |b| then n else |b|;
    b[..k] + mem[k..]
  }

  function After(n: nat, b: bytes): bytes {
    if n <= |b| then b[n..] else []
  }

  /** What each slice codec tests before it allocates. */
  predicate SliceCheck(stream: bool, c: Codec, n: nat, b: bytes)
    requires c.Seq?
  {
    match c.flavour
    case Generic => IsZeroWire(c.elem) || EnoughFor(stream, n, WireMin(c.elem), b)
    case OfWords =>
      var size := ElemMin(c.elem);
      && (size > 0 ==> n <= MAX_INT / size)
      && n * size <= |b| && (stream ==> n * size <= MAX_LEN)
    case _ => Enough(stream, n, b)
  }

  /** What each array codec tests before it reads. */
  predicate ArrayCheck(stream: bool, c: Codec, b: bytes)
    requires c.Seq?
  {
    match c.flavour
    case OfString => Enough(stream, c.length, b)
    case OfWords =>
      var size := c.length * ElemMin(c.elem);
      size <= |b| && (stream ==> size <= MAX_LEN)
    case _ => true
  }

  /** What each map codec tests before it allocates. */
  predicate MapCheck(stream: bool, c: Codec, n: nat, b: bytes)
    requires c.Map?
  {
    (c.mflavour.ReflectMap? && n <= 1) || EnoughFor(stream, n, EarlyMin(c), b)
  }

  // ---------------------------------------------------------------- decoding into a destination

  function PrimFrom(stream: bool, k: Kind, b: bytes): Parsed<Value> {
    if k.KString? then
      var (s, r) :- ReadBlobFrom(stream, b);
      Ok(VStr(s), r)
    else DecPrim(k, b)
  }

  function BytesInto(stream: bool, x: Cell, b: bytes): Parsed<Cell>
    requires Shaped(Bytes, x)
  {
    var (n, b1) :- ReadLength(b);
    if stream then
      if n == 0 then Ok(CBlob(0, x.mem), b1)
      else
        var (s, r) :- SliceFrom(stream, n, b1);
        Ok(CBlob(n, s), r)
    else if !Enough(stream, n, b1) || !CanResize(|x.mem|, n) then Fail
    else Ok(CBlob(n, CopyOver(ResizedBytes(x.mem, n), n, b1)), After(n, b1))
  }

  function BoolsInto(stream: bool, x: Cell, b: bytes): Parsed<Cell>
    requires Shaped(Bools, x)
  {
    var (n, b1) :- ReadLength(b);
    if (if stream then SliceFrom(stream, n, b1).Fail? else !Enough(stream, n, b1)) || !CanResize(|x.mem|, n) then Fail
    else Ok(CBlob(n, CopyOver(ResizedBytes(x.mem, n), n, b1)), After(n, b1))
  }

  /**
   The `[]byte` branch of the direct struct path: when the capacity suffices nothing checks that
   `n` bytes remain, and an in-memory read may come up short without failing.
   */
  function DirectBytes(stream: bool, x: Cell, b: bytes): Parsed<Cell>
    requires Shaped(Bytes, x)
  {
    var (n, b1) :- ReadLength(b);
    if n > |x.mem| && (!Enough(stream, n, b1) || n > MAX_LEN) then Fail
    else if n == 0 then Ok(CBlob(0, x.mem), b1)
    else if (if stream then n > |b1| else b1 == []) then Fail
    else Ok(CBlob(n, CopyOver(ResizedBytes(x.mem, n), n, b1)), After(n, b1))
  }

  function DecInto(stream: bool, c: Codec, x: Cell, b: bytes): Parsed<Cell>
    requires Shaped(c, x)
    decreases c, 1
  {
    match c
    case Prim(k) =>
      var (v, r) :- PrimFrom(stream, k, b);
      Ok(CScalar(v), r)
    case Pointer(elem) =>
      if b == [] then Fail
      else if b[0] == 1 then Ok(CNil, b[1..])
      else
        var (y, r) :- DecInto(stream, elem, if x.CPtr? then x.target else Zero(elem), b[1..]);
        Ok(CPtr(y), r)
    case Bytes => BytesInto(stream, x, b)
    case Bools => BoolsInto(stream, x, b)
    case Seq(_, _, isArray, _) => if isArray then ArrayInto(stream, c, x, b) else SliceInto(stream, c, x, b)
    case Struct(fields) =>
      var (ys, r) :- FieldsInto(stream, Direct(fields), fields, x.fields, b);
      Ok(CRec(ys), r)
    case Union(_) => UnionInto(stream, c, x, b)
    case Map(_, _, _) =>
      var (n, b1) :- ReadLength(b);
      if !MapCheck(stream, c, n, b1) then Fail
      else
        var (es, r) :- EntriesInto(stream, c, n, b1, []);
        Ok(CMap(es), r)
  }

  function ArrayInto(stream: bool, c: Codec, x: Cell, b: bytes): Parsed<Cell>
    requires c.Seq? && c.isArray && Shaped(c, x)
    decreases c, 0
  {
    if !ArrayCheck(stream, c, b) then Fail
    else
      var (ys, r) :- CellsInto(stream, c.elem, x.fields, b);
      Ok(CRec(ys), r)
  }

  function SliceInto(stream: bool, c: Codec, x: Cell, b: bytes): Parsed<Cell>
    requires c.Seq? && !c.isArray && Shaped(c, x)
    decreases c, 0
  {
    var (n, b1) :- ReadLength(b);
    if !SliceCheck(stream, c, n, b1) || !CanResize(|x.cells|, n) then Fail
    else if c.flavour.Generic? && IsZeroWire(c.elem) then Ok(CSlice(n, Resized(c.elem, x.cells, n)), b1)
    else
      var (ys, r) :- ElementsInto(stream, c.elem, x.cells, n, b1);
      Ok(CSlice(n, ys), r)
  }

  /** Decodes `n` elements into a slice resized to hold them; what lies beyond them stays. */
  function ElementsInto(stream: bool, c: Codec, cells: seq<Cell>, n: nat, b: bytes): Parsed<seq<Cell>>
    requires forall i :: 0 <= i < |cells| ==> Shaped(c, cells[i])
    decreases c, 3
  {
    var mem := Resized(c, cells, n);
    var (ys, r) :- CellsInto(stream, c, mem[..n], b);
    Ok(ys + mem[n..], r)
  }

  function CellsInto(stream: bool, c: Codec, xs: seq<Cell>, b: bytes): Parsed<seq<Cell>>
    requires forall i :: 0 <= i < |xs| ==> Shaped(c, xs[i])
    decreases c, 2, |xs|
  {
    if xs == [] then Ok([], b)
    else
      var (y, b1) :- DecInto(stream, c, xs[0], b);
      var (ys, r) :- CellsInto(stream, c, xs[1..], b1);
      Ok([y] + ys, r)
  }

  /** Structs with a primitive field are decoded through field offsets. */
  predicate Direct(fields: seq<Codec>) {
    exists i :: 0 <= i < |fields| && fields[i].Prim?
  }

  predicate IsVaruints(f: Codec) {
    f.Seq? && f.flavour.OfVarint? && f.elem.Prim? && f.elem.kind.KUint? && !f.isArray
  }

  function FieldsInto(stream: bool, direct: bool, fs: seq<Codec>, xs: seq<Cell>, b: bytes): Parsed<seq<Cell>>
    requires |xs| == |fs| && forall i :: 0 <= i < |fs| ==> Shaped(fs[i], xs[i])
    decreases fs, 0
  {
    if fs == [] then Ok([], b)
    else
      var (y, b1) :- FieldInto(stream, direct, fs[0], xs[0], b);
      var (ys, r) :- FieldsInto(stream, direct, fs[1..], xs[1..], b1);
      Ok([y] + ys, r)
  }

  function FieldInto(stream: bool, direct: bool, f: Codec, x: Cell, b: bytes): Parsed<Cell>
    requires Shaped(f, x)
    decreases f, 2
  {
    if direct && f.Bytes? then DirectBytes(stream, x, b)
    else if direct && IsVaruints(f) then DirectVaruints(stream, f, x, b)
    else DecInto(stream, f, x, b)
  }

  function DirectVaruints(stream: bool, f: Codec, x: Cell, b: bytes): Parsed<Cell>
    requires IsVaruints(f) && Shaped(f, x)
    decreases f, 0
  {
    var (n, b1) :- ReadLength(b);
    if n > |x.cells| && (!Enough(stream, n, b1) || n > MAX_LEN) then Fail
    else
      var (ys, r) :- ElementsInto(stream, f.elem, x.cells, n, b1);
      Ok(CSlice(n, ys), r)
  }

  /** An arm is always decoded in memory, from its body, into the arm already set if there is one. */
  function UnionInto(stream: bool, c: Codec, x: Cell, b: bytes): Parsed<Cell>
    requires c.Union? && Shaped(c, x)
    decreases c, 0
  {
    var (tag, b1) :- ReadUvarint(b);
    var (body, r) :- ReadBlobFrom(stream, b1);
    var i := Lookup(c.arms, tag);
    if i < 0 then Ok(CSlots(CNils(|c.arms|)), r)
    else
      var arm := c.arms[i].codec;
      var (y, _) :- DecInto(false, arm, if x.slots[i].CPtr? then x.slots[i].target else Zero(arm), body);
      Ok(CSlots(CNils(|c.arms|)[i := CPtr(y)]), r)
  }

  function KeyInto(stream: bool, k: Codec, b: bytes): Parsed<Value>
    decreases k, 2
  {
    if k.Prim? && (FixedKey(k.kind) || k.kind.KString?) then DecPrimKey(k.kind, b)
    else
      var (y, r) :- DecInto(stream, k, Zero(k), b);
      Ok(View(y), r)
  }

  /** Keys and values are decoded into fresh variables and copied into the cleared map. */
  function EntriesInto(stream: bool, c: Codec, n: nat, b: bytes, acc: seq<Entry>): Parsed<seq<Entry>>
    requires c.Map?
    decreases c, 0, n
  {
    if n == 0 then Ok(acc, b)
    else
      var (k, b1) :- KeyInto(stream, c.key, b);
      var (y, b2) :- DecInto(stream, c.val, Zero(c.val), b1);
      EntriesInto(stream, c, n - 1, b2, Put(acc, k, View(y)))
  }
}
