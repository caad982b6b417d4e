/**
 The codec tree a Go type is scanned into, the values such a type carries, and the wire format:
 `Enc` writes a value, `Dec` reads one and returns the bytes it did not consume.
 */
module Codec {
  import opened Wire
  import opened Varint

  // ---------------------------------------------------------------- codecs

  /** The kinds a `primitiveCodec` serves. `native` marks Go's platform `int` and `uint`. */
  datatype Kind =
    | KString
    | KBool
    | KInt(bits: nat, native: bool)
    | KUint(bits: nat, native: bool)
    | KWords(width: nat, parts: nat)  // floats (one word) and complex numbers (two), as bit patterns

  /** Which Go codec handles a slice or an array; the wire format is that of its elements in order. */
  datatype Flavour = Generic | OfPtr | OfString | OfWords | OfVarint

  datatype MapFlavour = ReflectMap | StringMap | Uint64Map

  datatype Arm = Arm(tag: nat, codec: Codec)

  datatype Codec =
    | Prim(kind: Kind)
    | Pointer(elem: Codec)
    | Bytes
    | Bools
    | Seq(flavour: Flavour, elem: Codec, isArray: bool, length: nat)
    | Struct(fields: seq<Codec>)  // the included fields, in order
    | Union(arms: seq<Arm>)
    | Map(mflavour: MapFlavour, key: Codec, val: Codec)

  /** The arm a tag selects, or -1. */
  function Lookup(arms: seq<Arm>, tag: nat): (i: int)
    ensures -1 <= i < |arms|
    ensures i >= 0 ==> arms[i].tag == tag
    ensures i < 0 ==> forall j :: 0 <= j < |arms| ==> arms[j].tag != tag
  {
    if arms == [] then -1
    else
      var last := |arms| - 1;
      if arms[last].tag == tag then last else Lookup(arms[..last], tag)
  }

  const MAX_TAG := 255

  predicate DistinctTags(arms: seq<Arm>) {
    && (forall i :: 0 <= i < |arms| ==> 1 <= arms[i].tag <= MAX_TAG)
    && (forall i, j :: 0 <= i < j < |arms| ==> arms[i].tag != arms[j].tag)
  }

  predicate IsIntWidth(bits: nat) {
    bits == 8 || bits == 16 || bits == 32 || bits == 64
  }

  predicate WFKind(k: Kind) {
    match k
    case KString => true
    case KBool => true
    case KInt(bits, native) => IsIntWidth(bits) && (native ==> bits == 64)
    case KUint(bits, native) => IsIntWidth(bits) && (native ==> bits == 64)
    case KWords(width, parts) => (width == 4 || width == 8) && (parts == 1 || parts == 2)
  }

  /** Element codecs each specialised slice codec stands for. */
  predicate FlavourFits(f: Flavour, elem: Codec, isArray: bool) {
    match f
    case Generic => true
    case OfPtr => elem.Pointer? && !isArray
    case OfString => elem == Prim(KString)
    case OfWords => elem.Prim? && elem.kind.KWords?
    case OfVarint => elem.Prim? && (elem.kind.KInt? || (elem.kind.KUint? && elem.kind.bits != 8)) && !isArray
  }

  predicate MapFlavourFits(f: MapFlavour, key: Codec, val: Codec) {
    match f
    case ReflectMap => true
    case StringMap => key == Prim(KString) && (val == Prim(KString) || val == Bytes || val == Prim(KUint(64, false)))
    case Uint64Map => key == Prim(KUint(64, false)) && val == Prim(KUint(64, false))
  }

  /** Key types compared by content: no pointers, no floats, and nothing Go cannot hash. */
  predicate KeyOk(c: Codec) {
    match c
    case Prim(k) => !k.KWords?
    case Seq(_, elem, isArray, _) => isArray && KeyOk(elem)
    case Struct(fields) => forall i :: 0 <= i < |fields| ==> KeyOk(fields[i])
    case _ => false
  }

  /** Codec trees the scanner can build. */
  predicate WF(c: Codec) {
    match c
    case Prim(k) => WFKind(k)
    case Pointer(elem) => WF(elem)
    case Bytes => true
    case Bools => true
    case Seq(f, elem, isArray, _) => WF(elem) && FlavourFits(f, elem, isArray)
    case Struct(fields) => forall i :: 0 <= i < |fields| ==> WF(fields[i])
    case Union(arms) =>
      && arms != [] && DistinctTags(arms)
      && forall i :: 0 <= i < |arms| ==> WF(arms[i].codec)
    case Map(f, key, val) => WF(key) && KeyOk(key) && WF(val) && MapFlavourFits(f, key, val)
  }

  // ---------------------------------------------------------------- values

  datatype Entry = Entry(key: Value, val: Value)

  /**
   Values as the wire sees them. Nil and empty slices are one value, and so are nil and empty maps. A map lists its
   entries in the order Go happens to iterate them; a union has one slot for each arm.
   */
  datatype Value =
    | VStr(s: bytes)          // string, []byte, and []bool as its memory cells
    | VBool(b: bool)
    | VInt(i: int)
    | VUint(n: nat)
    | VWords(ws: seq<nat>)
    | VNil
    | VPtr(v: Value)
    | VSeq(vs: seq<Value>)    // slice, array, struct
    | VSlots(slots: seq<Value>)
    | VMap(es: seq<Entry>)

  predicate TypedPrim(k: Kind, v: Value) {
    match k
    case KString => v.VStr? && |v.s| <= MAX_INT
    case KBool => v.VBool?
    case KInt(bits, _) => v.VInt? && InSigned(v.i, bits)
    case KUint(bits, _) => v.VUint? && v.n < Modulus(bits)
    case KWords(width, parts) => v.VWords? && |v.ws| == parts && forall i :: 0 <= i < parts ==> v.ws[i] < Pow256(width)
  }

  predicate DistinctKeys(es: seq<Entry>) {
    forall i, j :: 0 <= i < j < |es| ==> es[i].key != es[j].key
  }

  /** The first slot that is set, or -1. */
  function Selected(slots: seq<Value>): (i: int)
    ensures -1 <= i < |slots|
    ensures i >= 0 ==> slots[i].VPtr?
    ensures forall j :: 0 <= j < (if i < 0 then |slots| else i) ==> !slots[j].VPtr?
  {
    if slots == [] then -1
    else if slots[0].VPtr? then 0
    else
      var i := Selected(slots[1..]);
      if i < 0 then -1 else i + 1
  }

  predicate AtMostOneSet(slots: seq<Value>) {
    forall i, j :: 0 <= i < j < |slots| ==> !(slots[i].VPtr? && slots[j].VPtr?)
  }

  /** The longest slice the decoder will allocate. */
  const MAX_LEN: nat := MAX_INT / 2

  /** Values of the Go type behind `c`, within the decoder's length limits. */
  predicate Typed(c: Codec, v: Value)
    decreases c
  {
    match c
    case Prim(k) => TypedPrim(k, v)
    case Pointer(elem) => v.VNil? || (v.VPtr? && Typed(elem, v.v))
    case Bytes => v.VStr? && |v.s| <= MAX_LEN
    case Bools => v.VStr? && |v.s| <= MAX_LEN && forall i :: 0 <= i < |v.s| ==> v.s[i] <= 1
    case Seq(_, elem, isArray, length) =>
      && v.VSeq? && (if isArray then |v.vs| == length else |v.vs| <= MAX_LEN)
      && forall i :: 0 <= i < |v.vs| ==> Typed(elem, v.vs[i])
    case Struct(fields) =>
      && v.VSeq? && |v.vs| == |fields|
      && forall i :: 0 <= i < |fields| ==> Typed(fields[i], v.vs[i])
    case Union(arms) =>
      && v.VSlots? && |v.slots| == |arms|
      && (forall i :: 0 <= i < |arms| ==> v.slots[i].VNil? || v.slots[i].VPtr?)
      && (forall i :: 0 <= i < |arms| && v.slots[i].VPtr? ==>
            Typed(arms[i].codec, v.slots[i].v) && |Enc(arms[i].codec, v.slots[i].v)| <= MAX_INT)
    case Map(_, key, val) =>
      && v.VMap? && |v.es| <= MAX_INT && DistinctKeys(v.es)
      && forall i :: 0 <= i < |v.es| ==> Typed(key, v.es[i].key) && Typed(val, v.es[i].val)
  }

  const MAX_KEY := 0xFFFF

  /** A string key has a two-byte length. */
  predicate KeyFits(k: Codec, key: Value) {
    k == Prim(KString) && key.VStr? ==> |key.s| <= MAX_KEY
  }

  /** Values the encoder accepts: no union with two arms set, no string key over 65535 bytes. */
  predicate Encodable(c: Codec, v: Value)
    decreases c
  {
    match c
    case Pointer(elem) => v.VPtr? ==> Encodable(elem, v.v)
    case Seq(_, elem, _, _) => v.VSeq? ==> forall i :: 0 <= i < |v.vs| ==> Encodable(elem, v.vs[i])
    case Struct(fields) =>
      v.VSeq? && |v.vs| == |fields| ==> forall i :: 0 <= i < |fields| ==> Encodable(fields[i], v.vs[i])
    case Union(arms) =>
      v.VSlots? && |v.slots| == |arms| ==>
        && AtMostOneSet(v.slots)
        && (forall i :: 0 <= i < |arms| && v.slots[i].VPtr? ==> Encodable(arms[i].codec, v.slots[i].v))
    case Map(_, key, val) =>
      v.VMap? ==> forall i :: 0 <= i < |v.es| ==>
        KeyFits(key, v.es[i].key) && Encodable(key, v.es[i].key) && Encodable(val, v.es[i].val)
    case _ => true
  }

  // ---------------------------------------------------------------- encoding

  function Blob(s: bytes): bytes {
    Uvarint(|s|) + s
  }

  function EncWords(ws: seq<nat>, width: nat): (r: bytes)
    ensures |r| == |ws| * width
  {
    if ws == [] then [] else LE(ws[0], width) + EncWords(ws[1..], width)
  }

  function EncPrim(k: Kind, v: Value): bytes {
    match k
    case KString => if v.VStr? then Blob(v.s) else []
    case KBool => if v.VBool? && v.b then [1] else [0]
    case KInt(_, _) => if v.VInt? then Uvarint(ZigZag(v.i)) else []
    case KUint(_, _) => if v.VUint? then Uvarint(v.n) else []
    case KWords(width, _) => if v.VWords? then EncWords(v.ws, width) else []
  }

  /** Integer map keys of 16, 32 and 64 bits have a fixed width of their own. */
  predicate FixedKey(k: Kind) {
    (k.KInt? || k.KUint?) && !k.native && k.bits != 8
  }

  function EncPrimKey(k: Kind, v: Value): bytes {
    if FixedKey(k) then
      (if v.VInt? then LE(v.i % Modulus(k.bits), k.bits / 8)
       else if v.VUint? then LE(v.n % Modulus(k.bits), k.bits / 8) else [])
    else if k.KString? then (if v.VStr? then LE(|v.s|, 2) + v.s else [])
    else EncPrim(k, v)
  }

  function Enc(c: Codec, v: Value): bytes
    decreases c, 1
  {
    match c
    case Prim(k) => EncPrim(k, v)
    case Pointer(elem) => if v.VPtr? then [0] + Enc(elem, v.v) else [1]
    case Bytes => if v.VStr? then Blob(v.s) else []
    case Bools => if v.VStr? then Blob(v.s) else []
    case Seq(_, elem, isArray, _) =>
      if v.VSeq? then (if isArray then [] else Uvarint(|v.vs|)) + EncMany(elem, v.vs) else []
    case Struct(fields) => if v.VSeq? then EncFields(fields, v.vs) else []
    case Union(arms) => if v.VSlots? && |v.slots| == |arms| then EncUnion(c, v.slots) else []
    case Map(_, _, _) => if v.VMap? then Uvarint(|v.es|) + EncEntries(c, v.es) else []
  }

  function EncMany(c: Codec, vs: seq<Value>): bytes
    decreases c, 2, |vs|
  {
    if vs == [] then [] else Enc(c, vs[0]) + EncMany(c, vs[1..])
  }

  function EncFields(fs: seq<Codec>, vs: seq<Value>): bytes
    decreases fs, 0
  {
    if fs == [] || vs == [] then [] else Enc(fs[0], vs[0]) + EncFields(fs[1..], vs[1..])
  }

  function EncUnion(c: Codec, slots: seq<Value>): bytes
    requires c.Union? && |slots| == |c.arms|
    decreases c, 0
  {
    var i := Selected(slots);
    if i < 0 then Uvarint(0) + Blob([])
    else Uvarint(c.arms[i].tag) + Blob(Enc(c.arms[i].codec, slots[i].v))
  }

  function EncKey(k: Codec, v: Value): bytes
    decreases k, 2
  {
    if k.Prim? then EncPrimKey(k.kind, v) else Enc(k, v)
  }

  function EncEntries(c: Codec, es: seq<Entry>): bytes
    requires c.Map?
    decreases c, 0, |es|
  {
    if es == [] then []
    else EncKey(c.key, es[0].key) + Enc(c.val, es[0].val) + EncEntries(c, es[1..])
  }

  // ---------------------------------------------------------------- decoding

  function Take(b: bytes, n: nat): Parsed<bytes> {
    if n <= |b| then Ok(b[..n], b[n..]) else Fail
  }

  /** A length that fits Go's `int`. */
  function ReadLength(b: bytes): Parsed<nat> {
    var (n, b1) :- ReadUvarint(b);
    if n <= MAX_INT then Ok(n, b1) else Fail
  }

  function ReadBlob(b: bytes): Parsed<bytes> {
    var (n, b1) :- ReadLength(b);
    Take(b1, n)
  }

  function DecWords(b: bytes, width: nat, parts: nat): Parsed<seq<nat>> {
    if parts == 0 then Ok([], b)
    else
      var (w, b1) :- Take(b, width);
      var (ws, b2) :- DecWords(b1, width, parts - 1);
      Ok([FromLE(w)] + ws, b2)
  }

  function DecPrim(k: Kind, b: bytes): Parsed<Value> {
    match k
    case KString =>
      var (s, r) :- ReadBlob(b);
      Ok(VStr(s), r)
    case KBool => if b == [] then Fail else Ok(VBool(b[0] == 1), b[1..])
    case KInt(bits, _) =>
      var (x, r) :- ReadUvarint(b);
      Ok(VInt(VarintValue(x, bits, true)), r)
    case KUint(bits, _) =>
      var (x, r) :- ReadUvarint(b);
      Ok(VUint(x % Modulus(bits)), r)
    case KWords(width, parts) =>
      var (ws, r) :- DecWords(b, width, parts);
      Ok(VWords(ws), r)
  }

  function DecPrimKey(k: Kind, b: bytes): Parsed<Value> {
    if FixedKey(k) then
      var (w, r) :- Take(b, k.bits / 8);
      Ok(if k.KInt? then VInt(WrapSigned(FromLE(w), k.bits)) else VUint(FromLE(w)), r)
    else if k.KString? then
      var (w, r1) :- Take(b, 2);
      var (s, r) :- Take(r1, FromLE(w));
      Ok(VStr(s), r)
    else DecPrim(k, b)
  }

  function Nils(n: nat): (r: seq<Value>)
    ensures |r| == n && forall i :: 0 <= i < n ==> r[i] == VNil
  {
    seq(n, _ => VNil)
  }

  /** Assignment to a Go map: the last value written to a key wins. */
  function Put(es: seq<Entry>, key: Value, val: Value): (r: seq<Entry>)
    ensures |es| <= |r| <= |es| + 1
  {
    if es == [] then [Entry(key, val)]
    else if es[0].key == key then [Entry(key, val)] + es[1..]
    else [es[0]] + Put(es[1..], key, val)
  }

  function Dec(c: Codec, b: bytes): Parsed<Value>
    decreases c, 1
  {
    match c
    case Prim(k) => DecPrim(k, b)
    case Pointer(elem) =>
      if b == [] then Fail
      else if b[0] == 1 then Ok(VNil, b[1..])
      else
        var (v, r) :- Dec(elem, b[1..]);
        Ok(VPtr(v), r)
    case Bytes =>
      var (s, r) :- ReadBlob(b);
      Ok(VStr(s), r)
    case Bools =>
      var (s, r) :- ReadBlob(b);
      Ok(VStr(s), r)
    case Seq(_, elem, isArray, length) =>
      var (n, b1) :- ReadCount(isArray, length, b);
      var (vs, r) :- DecMany(elem, n, b1);
      Ok(VSeq(vs), r)
    case Struct(fields) =>
      var (vs, r) :- DecFields(fields, b);
      Ok(VSeq(vs), r)
    case Union(_) => DecUnion(c, b)
    case Map(_, _, _) =>
      var (n, b1) :- ReadLength(b);
      var (es, r) :- DecEntries(c, n, b1, []);
      Ok(VMap(es), r)
  }

  /** An array's length is its type's; a slice's is on the wire and bounded by what can be allocated. */
  function ReadCount(isArray: bool, length: nat, b: bytes): Parsed<nat> {
    if isArray then Ok(length, b)
    else
      var (n, b1) :- ReadLength(b);
      if n <= MAX_LEN then Ok(n, b1) else Fail
  }

  function DecMany(c: Codec, n: nat, b: bytes): Parsed<seq<Value>>
    decreases c, 2, n
  {
    if n == 0 then Ok([], b)
    else
      var (v, b1) :- Dec(c, b);
      var (vs, r) :- DecMany(c, n - 1, b1);
      Ok([v] + vs, r)
  }

  function DecFields(fs: seq<Codec>, b: bytes): Parsed<seq<Value>>
    decreases fs, 0
  {
    if fs == [] then Ok([], b)
    else
      var (v, b1) :- Dec(fs[0], b);
      var (vs, r) :- DecFields(fs[1..], b1);
      Ok([v] + vs, r)
  }

  /** The tagged body decides one slot; bytes of the body that its arm leaves are skipped. */
  function DecUnion(c: Codec, b: bytes): Parsed<Value>
    requires c.Union?
    decreases c, 0
  {
    var (tag, b1) :- ReadUvarint(b);
    var (body, r) :- ReadBlob(b1);
    var i := Lookup(c.arms, tag);
    if i < 0 then Ok(VSlots(Nils(|c.arms|)), r)
    else
      var (v, _) :- Dec(c.arms[i].codec, body);
      Ok(VSlots(Nils(|c.arms|)[i := VPtr(v)]), r)
  }

  function DecKey(k: Codec, b: bytes): Parsed<Value>
    decreases k, 2
  {
    if k.Prim? then DecPrimKey(k.kind, b) else Dec(k, b)
  }

  function DecEntries(c: Codec, n: nat, b: bytes, acc: seq<Entry>): Parsed<seq<Entry>>
    requires c.Map?
    decreases c, 0, n
  {
    if n == 0 then Ok(acc, b)
    else
      var (k, b1) :- DecKey(c.key, b);
      var (v, b2) :- Dec(c.val, b1);
      DecEntries(c, n - 1, b2, Put(acc, k, v))
  }

  // ---------------------------------------------------------------- static analyses

  /** A codec none of whose values has any wire bytes. */
  predicate IsZeroWire(c: Codec) {
    match c
    case Struct(fields) => forall i :: 0 <= i < |fields| ==> IsZeroWire(fields[i])
    case Seq(Generic, elem, isArray, length) => isArray && (length == 0 || IsZeroWire(elem))
    case Seq(OfString, _, isArray, length) => isArray && length == 0
    case Seq(OfWords, _, isArray, length) => isArray && length == 0
    case _ => false
  }

  /** A lower bound on the wire bytes of any value. */
  function WireMin(c: Codec): (n: nat)
    decreases c, 1
  {
    match c
    case Union(_) => 2
    case Struct(fields) => WireMinSum(fields)
    case Seq(f, elem, isArray, length) =>
      if !isArray then 1
      else if f.OfWords? && elem.Prim? && elem.kind.KWords? then length * (elem.kind.width * elem.kind.parts)
      else if f.OfString? then length
      else length * WireMin(elem)
    case _ => 1
  }

  function WireMinSum(fs: seq<Codec>): (n: nat)
    decreases fs, 0
  {
    if fs == [] then 0 else WireMin(fs[0]) + WireMinSum(fs[1..])
  }
}
