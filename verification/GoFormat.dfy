/**
 The values of Go types, the messages that stand for them and the messages that are read as them, said type by
 type in literal numbers: no codec, no scanner, no encoder and no decoder appears here. The other modules are
 measured against these definitions.
 */
module GoFormat {
  import opened Wire
  import opened Varint
  import opened Codec
  import opened Scanner

  // ---------------------------------------------------------------- numbers

  predicate SignedRange(bits: nat, i: int) {
    if bits == 8 then -128 <= i < 128
    else if bits == 16 then -0x8000 <= i < 0x8000
    else if bits == 32 then -0x8000_0000 <= i < 0x8000_0000
    else -0x8000_0000_0000_0000 <= i < 0x8000_0000_0000_0000
  }

  predicate UnsignedRange(bits: nat, n: int) {
    if bits == 8 then 0 <= n < 256
    else if bits == 16 then 0 <= n < 0x1_0000
    else if bits == 32 then 0 <= n < 0x1_0000_0000
    else 0 <= n < 0x1_0000_0000_0000_0000
  }

  /** The same low bits. */
  predicate Congruent(bits: nat, x: int, y: int) {
    if bits == 8 then (x - y) % 256 == 0
    else if bits == 16 then (x - y) % 0x1_0000 == 0
    else if bits == 32 then (x - y) % 0x1_0000_0000 == 0
    else (x - y) % 0x1_0000_0000_0000_0000 == 0
  }

  /** The shortest group of base-128 digits for `n`. */
  predicate Spells(n: nat, g: bytes) {
    Terminated(g) && Sum7(g) == n && (|g| == 1 || g[|g| - 1] != 0)
  }

  /** A group of base-128 digits that is read as `n`: leading zeros are tolerated, more than 64 bits are not. */
  predicate Counts(n: nat, g: bytes) {
    Terminated(g) && Sum7(g) == n && |g| <= 10 && n < 0x1_0000_0000_0000_0000
  }

  /** A word of `w` bytes with the low bits of `n`, low byte first. */
  predicate Fixed(n: nat, w: nat, b: bytes) {
    |b| == w && forall j :: 0 <= j < w ==> b[j] == (n / Pow256(j)) % 256
  }

  /** The signed number with the zigzag code `n`: 0, -1, 1, -2, 2, ... */
  predicate Zigzag(n: nat, i: int) {
    if i >= 0 then n == 2 * i else n == -2 * i - 1
  }

  // ---------------------------------------------------------------- values

  predicate PrimValue(k: Kind, v: Value) {
    match k
    case KString => v.VStr? && |v.s| <= 0x7FFF_FFFF_FFFF_FFFF
    case KBool => v.VBool?
    case KInt(bits, _) => v.VInt? && SignedRange(bits, v.i)
    case KUint(bits, _) => v.VUint? && UnsignedRange(bits, v.n)
    case KWords(width, parts) =>
      v.VWords? && |v.ws| == parts && forall j :: 0 <= j < parts ==> UnsignedRange(8 * width, v.ws[j])
  }

  predicate IsByte(t: Type) {
    t.TPrim? && t.kind == KUint(8, false)
  }

  predicate IsBool(t: Type) {
    t.TPrim? && t.kind == KBool
  }

  /** The values of a Go type; a struct has one for each field with wire data. */
  ghost predicate GoValue(t: Type, v: Value)
    decreases t, 1
  {
    match t
    case TPrim(k, _) => PrimValue(k, v)
    case TPtr(elem) => v.VNil? || (v.VPtr? && GoValue(elem, v.v))
    case TArray(n, elem) => v.VSeq? && |v.vs| == n && forall i :: 0 <= i < |v.vs| ==> GoValue(elem, v.vs[i])
    case TSlice(elem, _) =>
      if IsByte(elem) then v.VStr? && |v.s| <= 0x3FFF_FFFF_FFFF_FFFF
      else if IsBool(elem) then v.VStr? && |v.s| <= 0x3FFF_FFFF_FFFF_FFFF && forall i :: 0 <= i < |v.s| ==> v.s[i] <= 1
      else v.VSeq? && |v.vs| <= 0x3FFF_FFFF_FFFF_FFFF && forall i :: 0 <= i < |v.vs| ==> GoValue(elem, v.vs[i])
    case TStruct(fields) =>
      if HasTagged(fields) then v.VSlots? && FieldValues(fields, v.slots) && BodiesFit(fields, v.slots)
      else v.VSeq? && FieldValues(fields, v.vs)
    case TMap(key, val, _) =>
      && v.VMap? && |v.es| <= 0x7FFF_FFFF_FFFF_FFFF
      && (forall i, j :: 0 <= i < j < |v.es| ==> v.es[i].key != v.es[j].key)
      && forall i :: 0 <= i < |v.es| ==> GoValue(key, v.es[i].key) && GoValue(val, v.es[i].val)
    case TOther => false
  }

  ghost predicate FieldValues(fields: seq<Field>, vs: seq<Value>)
    decreases fields, 0
  {
    if fields == [] then vs == []
    else if fields[0].Skipped() then FieldValues(fields[1..], vs)
    else vs != [] && GoValue(fields[0].typ, vs[0]) && FieldValues(fields[1..], vs[1..])
  }

  /** The message of an arm that is set has a length that fits Go's `int`. */
  ghost predicate BodiesFit(fields: seq<Field>, slots: seq<Value>) {
    if fields == [] || slots == [] then true
    else if fields[0].Skipped() then BodiesFit(fields[1..], slots)
    else
      && (forall b: bytes :: slots[0].VPtr? && fields[0].typ.TPtr? && Written(fields[0].typ.elem, slots[0].v, b) ==>
            |b| <= 0x7FFF_FFFF_FFFF_FFFF)
      && BodiesFit(fields[1..], slots[1..])
  }

  /** What the encoder does not refuse: at most one arm of a union is set, and string keys have a two-byte length. */
  ghost predicate Sends(t: Type, v: Value)
    decreases t, 1
  {
    match t
    case TPtr(elem) => v.VPtr? ==> Sends(elem, v.v)
    case TArray(_, elem) => v.VSeq? ==> forall i :: 0 <= i < |v.vs| ==> Sends(elem, v.vs[i])
    case TSlice(elem, _) => v.VSeq? ==> forall i :: 0 <= i < |v.vs| ==> Sends(elem, v.vs[i])
    case TStruct(fields) =>
      && (v.VSeq? ==> FieldsSend(fields, v.vs))
      && (v.VSlots? ==>
            && FieldsSend(fields, v.slots)
            && forall i, j :: 0 <= i < j < |v.slots| ==> v.slots[i].VNil? || v.slots[j].VNil?)
    case TMap(key, val, _) =>
      v.VMap? ==> forall i :: 0 <= i < |v.es| ==>
        && (key.TPrim? && key.kind.KString? && v.es[i].key.VStr? ==> |v.es[i].key.s| <= 65535)
        && Sends(key, v.es[i].key) && Sends(val, v.es[i].val)
    case _ => true
  }

  ghost predicate FieldsSend(fields: seq<Field>, vs: seq<Value>)
    decreases fields, 0
  {
    if fields == [] || vs == [] then true
    else if fields[0].Skipped() then FieldsSend(fields[1..], vs)
    else Sends(fields[0].typ, vs[0]) && FieldsSend(fields[1..], vs[1..])
  }

  // ---------------------------------------------------------------- messages written

  /** A length and the bytes themselves. */
  predicate Texts(s: bytes, b: bytes) {
    |s| <= |b| && Spells(|s|, b[..|b| - |s|]) && b[|b| - |s|..] == s
  }

  /** Words of `width` bytes one after the other: a complex number is its real part and then its imaginary part. */
  predicate WordsOf(ws: seq<nat>, width: nat, b: bytes) {
    if ws == [] then b == []
    else width <= |b| && Fixed(ws[0], width, b[..width]) && WordsOf(ws[1..], width, b[width..])
  }

  predicate PrimWritten(k: Kind, v: Value, b: bytes) {
    match k
    case KString => v.VStr? && Texts(v.s, b)
    case KBool => v.VBool? && b == [if v.b then 1 else 0]
    case KInt(_, _) => v.VInt? && Zigzag(Sum7(b), v.i) && Spells(Sum7(b), b)
    case KUint(_, _) => v.VUint? && Spells(v.n, b)
    case KWords(width, _) => v.VWords? && WordsOf(v.ws, width, b)
  }

  /** The message for a value of a Go type. */
  ghost predicate Written(t: Type, v: Value, b: bytes)
    decreases t, 1
  {
    match t
    case TPrim(k, _) => PrimWritten(k, v, b)
    case TPtr(elem) =>
      || (v.VNil? && b == [1])
      || (v.VPtr? && |b| > 0 && b[0] == 0 && Written(elem, v.v, b[1..]))
    case TArray(_, elem) => v.VSeq? && ManyWritten(elem, v.vs, b)
    case TSlice(elem, _) =>
      if IsByte(elem) || IsBool(elem) then v.VStr? && Texts(v.s, b)
      else v.VSeq? && exists k | 0 <= k <= |b| :: Spells(|v.vs|, b[..k]) && ManyWritten(elem, v.vs, b[k..])
    case TStruct(fields) =>
      if HasTagged(fields) then v.VSlots? && ArmWritten(fields, v.slots, b)
      else v.VSeq? && FieldsWritten(fields, v.vs, b)
    case TMap(_, _, _) =>
      v.VMap? && exists k | 0 <= k <= |b| :: Spells(|v.es|, b[..k]) && EntriesWritten(t, v.es, b[k..])
    case TOther => false
  }

  ghost predicate ManyWritten(elem: Type, vs: seq<Value>, b: bytes)
    decreases elem, 2, |vs|
  {
    if vs == [] then b == []
    else exists k | 0 <= k <= |b| :: Written(elem, vs[0], b[..k]) && ManyWritten(elem, vs[1..], b[k..])
  }

  ghost predicate FieldsWritten(fields: seq<Field>, vs: seq<Value>, b: bytes)
    decreases fields, 0
  {
    if fields == [] then b == []
    else if fields[0].Skipped() then FieldsWritten(fields[1..], vs, b)
    else
      && vs != []
      && exists k | 0 <= k <= |b| ::
        Written(fields[0].typ, vs[0], b[..k]) && FieldsWritten(fields[1..], vs[1..], b[k..])
  }

  /** The number of the first arm that is set and its message with the length before it, or two zeros. */
  ghost predicate ArmWritten(fields: seq<Field>, slots: seq<Value>, b: bytes)
    decreases fields, 0
  {
    if fields == [] || slots == [] then b == [0, 0]
    else if !fields[0].Tagged() || !fields[0].typ.TPtr? then ArmWritten(fields[1..], slots, b)
    else if !slots[0].VPtr? then ArmWritten(fields[1..], slots[1..], b)
    else
      exists k, j | 0 <= k <= j <= |b| ::
        Spells(ArmTag(fields[0].tag), b[..k]) && Spells(|b| - j, b[k..j]) &&
        Written(fields[0].typ.elem, slots[0].v, b[j..])
  }

  ghost predicate EntriesWritten(t: Type, es: seq<Entry>, b: bytes)
    requires t.TMap?
    decreases t, 0, |es|
  {
    if es == [] then b == []
    else
      exists k, j | 0 <= k <= j <= |b| ::
        KeyWritten(t.key, es[0].key, b[..k]) && Written(t.val, es[0].val, b[k..j]) &&
        EntriesWritten(t, es[1..], b[j..])
  }

  /** Integer keys of 16, 32 and 64 bits have that width, but not `int` and `uint`; string keys a two-byte length. */
  ghost predicate KeyWritten(t: Type, v: Value, b: bytes)
    decreases t, 2
  {
    match t
    case TPrim(KInt(16, false), _) => v.VInt? && Fixed(v.i % 0x1_0000, 2, b)
    case TPrim(KInt(32, false), _) => v.VInt? && Fixed(v.i % 0x1_0000_0000, 4, b)
    case TPrim(KInt(64, false), _) => v.VInt? && Fixed(v.i % 0x1_0000_0000_0000_0000, 8, b)
    case TPrim(KUint(16, false), _) => v.VUint? && Fixed(v.n, 2, b)
    case TPrim(KUint(32, false), _) => v.VUint? && Fixed(v.n, 4, b)
    case TPrim(KUint(64, false), _) => v.VUint? && Fixed(v.n, 8, b)
    case TPrim(KString, _) => v.VStr? && |b| == 2 + |v.s| && Fixed(|v.s|, 2, b[..2]) && b[2..] == v.s
    case _ => Written(t, v, b)
  }

  // ---------------------------------------------------------------- messages read

  predicate TextReads(s: bytes, b: bytes) {
    && |s| <= |b| && |s| <= 0x7FFF_FFFF_FFFF_FFFF
    && Counts(|s|, b[..|b| - |s|]) && b[|b| - |s|..] == s
  }

  /** Numbers are cut down to the width of their type; a flag is set by the byte 1 alone. */
  predicate PrimReads(k: Kind, v: Value, b: bytes) {
    match k
    case KString => v.VStr? && TextReads(v.s, b)
    case KBool => v.VBool? && |b| == 1 && (v.b <==> b[0] == 1)
    case KInt(bits, _) =>
      && v.VInt? && SignedRange(bits, v.i) && Counts(Sum7(b), b)
      && if Sum7(b) % 2 == 0 then Congruent(bits, v.i, Sum7(b) / 2) else Congruent(bits, v.i, -(Sum7(b) + 1) / 2)
    case KUint(bits, _) => v.VUint? && UnsignedRange(bits, v.n) && Counts(Sum7(b), b) && Congruent(bits, v.n, Sum7(b))
    case KWords(width, parts) =>
      && v.VWords? && |v.ws| == parts && WordsOf(v.ws, width, b)
      && forall j :: 0 <= j < parts ==> UnsignedRange(8 * width, v.ws[j])
  }

  /** The messages that are read, whole, as a value. */
  ghost predicate Reads(t: Type, v: Value, b: bytes)
    decreases t, 1
  {
    match t
    case TPrim(k, _) => PrimReads(k, v, b)
    case TPtr(elem) =>
      |b| > 0 && if b[0] == 1 then v.VNil? && |b| == 1 else v.VPtr? && Reads(elem, v.v, b[1..])
    case TArray(n, elem) => v.VSeq? && |v.vs| == n && ManyRead(elem, v.vs, b)
    case TSlice(elem, _) =>
      if IsByte(elem) || IsBool(elem) then v.VStr? && TextReads(v.s, b)
      else
        && v.VSeq? && |v.vs| <= 0x3FFF_FFFF_FFFF_FFFF
        && exists k | 0 <= k <= |b| :: Counts(|v.vs|, b[..k]) && ManyRead(elem, v.vs, b[k..])
    case TStruct(fields) =>
      if HasTagged(fields) then
        && v.VSlots?
        && exists k, j | 0 <= k <= j <= |b| ::
          && Counts(Sum7(b[..k]), b[..k]) && Counts(|b| - j, b[k..j]) && |b| - j <= 0x7FFF_FFFF_FFFF_FFFF
          && ArmsRead(fields, Sum7(b[..k]), v.slots, b[j..])
      else v.VSeq? && FieldsRead(fields, v.vs, b)
    case TMap(_, _, _) =>
      && v.VMap?
      && exists k | 0 <= k <= |b| ::
        && Counts(Sum7(b[..k]), b[..k]) && Sum7(b[..k]) <= 0x7FFF_FFFF_FFFF_FFFF
        && EntriesRead(t, Sum7(b[..k]), [], v.es, b[k..])
    case TOther => false
  }

  ghost predicate ManyRead(elem: Type, vs: seq<Value>, b: bytes)
    decreases elem, 2, |vs|
  {
    if vs == [] then b == []
    else exists k | 0 <= k <= |b| :: Reads(elem, vs[0], b[..k]) && ManyRead(elem, vs[1..], b[k..])
  }

  ghost predicate FieldsRead(fields: seq<Field>, vs: seq<Value>, b: bytes)
    decreases fields, 0
  {
    if fields == [] then vs == [] && b == []
    else if fields[0].Skipped() then FieldsRead(fields[1..], vs, b)
    else
      && vs != []
      && exists k | 0 <= k <= |b| ::
        Reads(fields[0].typ, vs[0], b[..k]) && FieldsRead(fields[1..], vs[1..], b[k..])
  }

  /**
   The arm with the number `tag` is set from the front of the body and every other one is cleared; a number no arm
   has clears them all. What the arm leaves of the body is skipped.
   */
  ghost predicate ArmsRead(fields: seq<Field>, tag: nat, slots: seq<Value>, body: bytes)
    decreases fields, 0
  {
    if fields == [] then slots == []
    else if !fields[0].Tagged() || !fields[0].typ.TPtr? then ArmsRead(fields[1..], tag, slots, body)
    else
      && slots != []
      && (if ArmTag(fields[0].tag) == tag then
            slots[0].VPtr? && exists k | 0 <= k <= |body| :: Reads(fields[0].typ.elem, slots[0].v, body[..k])
          else slots[0].VNil?)
      && ArmsRead(fields[1..], tag, slots[1..], body)
  }

  /** `n` entries are assigned, in the order they come, to a map that holds `acc`. */
  ghost predicate EntriesRead(t: Type, n: nat, acc: seq<Entry>, es: seq<Entry>, b: bytes)
    requires t.TMap?
    decreases t, 0, n
  {
    if n == 0 then es == acc && b == []
    else
      exists k, j, x, y | 0 <= k <= j <= |b| ::
        KeyReads(t.key, x, b[..k]) && Reads(t.val, y, b[k..j]) && EntriesRead(t, n - 1, Put(acc, x, y), es, b[j..])
  }

  ghost predicate KeyReads(t: Type, v: Value, b: bytes)
    decreases t, 2
  {
    match t
    case TPrim(KInt(16, false), _) => v.VInt? && SignedRange(16, v.i) && Fixed(v.i % 0x1_0000, 2, b)
    case TPrim(KInt(32, false), _) => v.VInt? && SignedRange(32, v.i) && Fixed(v.i % 0x1_0000_0000, 4, b)
    case TPrim(KInt(64, false), _) => v.VInt? && SignedRange(64, v.i) && Fixed(v.i % 0x1_0000_0000_0000_0000, 8, b)
    case TPrim(KUint(16, false), _) => v.VUint? && UnsignedRange(16, v.n) && Fixed(v.n, 2, b)
    case TPrim(KUint(32, false), _) => v.VUint? && UnsignedRange(32, v.n) && Fixed(v.n, 4, b)
    case TPrim(KUint(64, false), _) => v.VUint? && UnsignedRange(64, v.n) && Fixed(v.n, 8, b)
    case TPrim(KString, _) => v.VStr? && |b| == 2 + |v.s| && |v.s| <= 65535 && Fixed(|v.s|, 2, b[..2]) && b[2..] == v.s
    case _ => Reads(t, v, b)
  }
}
