/**
 A struct codec's table: one word for each field of the Go struct, with the field's offset, its kind
 and three flags packed together. The scanner fills the table and the struct codec reads it.
 */
module FieldWords {
  import opened Wire
  import opened Codec
  import opened Destination

  // ---------------------------------------------------------------- packed metadata

  const OFFSET_MASK: bv64 := 0x00FF_FFFF_FFFF_FFFF

  /** Where a field lies in its struct. */
  type Offset = o: bv64 | o <= OFFSET_MASK witness 0

  const KIND_MASK: bv64 := 0x1F00_0000_0000_0000
  const DIRECT_FLAG: bv64 := 0x2000_0000_0000_0000
  const INCLUDED_FLAG: bv64 := 0x4000_0000_0000_0000
  const WRITABLE_FLAG: bv64 := 0x8000_0000_0000_0000

  function Pack(offset: bv64, kind: bv64, included: bool, writable: bool, direct: bool): bv64 {
    offset | (kind << 56)
    | (if included then INCLUDED_FLAG else 0)
    | (if writable then WRITABLE_FLAG else 0)
    | (if direct then DIRECT_FLAG else 0)
  }

  function PackedOffset(f: bv64): bv64 {
    f & OFFSET_MASK
  }

  function PackedKind(f: bv64): bv64 {
    (f & KIND_MASK) >> 56
  }

  predicate Includes(f: bv64) {
    f & INCLUDED_FLAG != 0
  }

  predicate Writes(f: bv64) {
    f & WRITABLE_FLAG != 0
  }

  predicate Directs(f: bv64) {
    f & DIRECT_FLAG != 0
  }

  /** Offset, kind and flags are read back as they were packed, whatever the others are. */
  lemma PackedApart(offset: bv64, kind: bv64, included: bool, writable: bool, direct: bool)
    requires offset <= OFFSET_MASK && kind < 32
    ensures var f := Pack(offset, kind, included, writable, direct);
      && PackedOffset(f) == offset && PackedKind(f) == kind
      && (Includes(f) <==> included) && (Writes(f) <==> writable) && (Directs(f) <==> direct)
  {
    hide *;
    OffsetKept(offset, kind, included, writable, direct);
    KindKept(offset, kind, included, writable, direct);
    IncludedKept(offset, kind, included, writable, direct);
    WritableKept(offset, kind, included, writable, direct);
    DirectKept(offset, kind, included, writable, direct);
  }

  lemma OffsetKept(offset: bv64, kind: bv64, included: bool, writable: bool, direct: bool)
    requires offset <= OFFSET_MASK && kind < 32
    ensures PackedOffset(Pack(offset, kind, included, writable, direct)) == offset
  {
  }

  lemma KindKept(offset: bv64, kind: bv64, included: bool, writable: bool, direct: bool)
    requires offset <= OFFSET_MASK && kind < 32
    ensures PackedKind(Pack(offset, kind, included, writable, direct)) == kind
  {
  }

  lemma IncludedKept(offset: bv64, kind: bv64, included: bool, writable: bool, direct: bool)
    requires offset <= OFFSET_MASK && kind < 32
    ensures Includes(Pack(offset, kind, included, writable, direct)) <==> included
  {
  }

  lemma WritableKept(offset: bv64, kind: bv64, included: bool, writable: bool, direct: bool)
    requires offset <= OFFSET_MASK && kind < 32
    ensures Writes(Pack(offset, kind, included, writable, direct)) <==> writable
  {
  }

  lemma DirectKept(offset: bv64, kind: bv64, included: bool, writable: bool, direct: bool)
    requires offset <= OFFSET_MASK && kind < 32
    ensures Directs(Pack(offset, kind, included, writable, direct)) <==> direct
  {
  }

  // ---------------------------------------------------------------- the packed kind

  function PrimNumber(k: Kind): (n: nat)
    ensures n < 32
  {
    match k
    case KBool => 1
    case KInt(bits, native) =>
      if native then 2 else if bits == 8 then 3 else if bits == 16 then 4 else if bits == 32 then 5 else 6
    case KUint(bits, native) =>
      if native then 7 else if bits == 8 then 8 else if bits == 16 then 9 else if bits == 32 then 10 else 11
    case KWords(width, parts) =>
      if parts == 1 then (if width == 4 then 13 else 14) else (if width == 4 then 15 else 16)
    case KString => 24
  }

  /** `reflect.Kind` numbers, and the four the library adds for slices. */
  function KindNumber(f: Codec): (n: nat)
    ensures n < 32
  {
    if f.Prim? then PrimNumber(f.kind)
    else if f.Bytes? then 30
    else if IsVaruints(f) then
      (if f.elem.kind.bits == 16 then 27 else if f.elem.kind.bits == 32 then 28 else 29)
    else 0
  }

  function KindBits(kind: nat): nat {
    if kind == 3 || kind == 8 then 8 else if kind == 4 || kind == 9 || kind == 27 then 16
    else if kind == 5 || kind == 10 || kind == 28 then 32 else 64
  }

  /** Complex numbers are their two words; a float is one. */
  function KindWords(kind: nat): (nat, nat) {
    (if kind == 13 || kind == 15 then 4 else 8, if kind <= 14 then 1 else 2)
  }

  // ---------------------------------------------------------------- the table

  /** A struct field as the packing loop sees it. */
  datatype Slot = Slot(offset: Offset, skipped: bool, codec: Codec)

  function Included(slots: seq<Slot>): seq<Codec> {
    if slots == [] then []
    else (if slots[0].skipped then [] else [slots[0].codec]) + Included(slots[1..])
  }

  lemma {:induction false} DirectIncluded(slots: seq<Slot>)
    ensures Direct(Included(slots)) <==>
      exists i :: 0 <= i < |slots| && !slots[i].skipped && slots[i].codec.Prim?
  {
    if slots != [] {
      var head, tail := if slots[0].skipped then [] else [slots[0].codec], Included(slots[1..]);
      DirectIncluded(slots[1..]);
      DirectJoin(head, tail);
      assert forall i :: 0 <= i < |slots| - 1 ==> slots[1..][i] == slots[i + 1];
      assert forall i :: 1 <= i < |slots| ==> slots[i] == slots[1..][i - 1];
    }
  }

  lemma DirectJoin(xs: seq<Codec>, ys: seq<Codec>)
    ensures Direct(xs + ys) <==> Direct(xs) || Direct(ys)
  {
    assert forall i :: 0 <= i < |xs| ==> (xs + ys)[i] == xs[i];
    assert forall i :: 0 <= i < |ys| ==> (xs + ys)[|xs| + i] == ys[i];
  }

  // What lies before slot `i`, and the slot itself.
  lemma IncludedFrom(slots: seq<Slot>, i: nat)
    requires i < |slots|
    ensures Included(slots[i..]) == (if slots[i].skipped then [] else [slots[i].codec]) + Included(slots[i + 1..])
  {
    assert slots[i..][1..] == slots[i + 1..];
  }

  lemma {:induction false} IncludedJoin(xs: seq<Slot>, ys: seq<Slot>)
    ensures Included(xs + ys) == Included(xs) + Included(ys)
    decreases |xs|
  {
    if xs == [] {
      assert xs + ys == ys;
    } else {
      assert (xs + ys)[1..] == xs[1..] + ys;
      IncludedJoin(xs[1..], ys);
    }
  }

  // ---------------------------------------------------------------- kinds as machine words

  function Small(n: nat): (k: bv64)
    ensures k < 32
  {
    if n == 1 then 1 else if n == 2 then 2 else if n == 3 then 3 else if n == 4 then 4
    else if n == 5 then 5 else if n == 6 then 6 else if n == 7 then 7 else if n == 8 then 8
    else if n == 9 then 9 else if n == 10 then 10 else if n == 11 then 11 else if n == 13 then 13
    else if n == 14 then 14 else if n == 15 then 15 else if n == 16 then 16 else if n == 24 then 24
    else if n == 27 then 27 else if n == 28 then 28 else if n == 29 then 29 else if n == 30 then 30 else 0
  }

  function Number(k: bv64): nat {
    if k == 1 then 1 else if k == 2 then 2 else if k == 3 then 3 else if k == 4 then 4
    else if k == 5 then 5 else if k == 6 then 6 else if k == 7 then 7 else if k == 8 then 8
    else if k == 9 then 9 else if k == 10 then 10 else if k == 11 then 11 else if k == 13 then 13
    else if k == 14 then 14 else if k == 15 then 15 else if k == 16 then 16 else if k == 24 then 24
    else if k == 27 then 27 else if k == 28 then 28 else if k == 29 then 29 else if k == 30 then 30 else 0
  }

  /** The packed kind as a machine word, and back as the number the codecs switch on. */
  function KindCode(c: Codec): (k: bv64)
    ensures k < 32
  {
    Small(KindNumber(c))
  }

  /** No kind is lost on the way through the word. */
  lemma KindCodeFaithful(c: Codec)
    ensures Number(KindCode(c)) == KindNumber(c)
  {
    KindRange(c);
    hide KindNumber;
  }

  lemma KindRange(c: Codec)
    ensures KindNumber(c) in {0, 1, 2, 3, 4, 5, 6, 7, 8, 9, 10, 11, 13, 14, 15, 16, 24, 27, 28, 29, 30}
  {
  }

  // ---------------------------------------------------------------- packing

  /** `fieldCodec`: the packed word and the field's codec. */
  datatype FieldCodec = FieldCodec(field: bv64, codec: Codec) {
    predicate IsIncluded() {
      Includes(field)
    }

    predicate IsWritable() {
      Writes(field)
    }

    predicate IsDirect() {
      Directs(field)
    }

    function Offset(): bv64 {
      PackedOffset(field)
    }

    function Kind(): nat {
      Number(PackedKind(field))
    }
  }

  /** The packed word of a slot; a skipped one is zero but for the direct flag. */
  function Word(s: Slot, direct: bool): bv64 {
    if s.skipped then (if direct then DIRECT_FLAG else 0) else Pack(s.offset, KindCode(s.codec), true, true, direct)
  }

  /** Setting the flag afterwards is packing it with the rest. */
  lemma FlagLast(s: Slot)
    ensures Word(s, false) | DIRECT_FLAG == Word(s, true)
  {
  }

  /** What the struct codec reads off the entry of slot `s`. */
  predicate Reads(f: FieldCodec, s: Slot) {
    && (f.IsIncluded() <==> !s.skipped) && (f.IsWritable() <==> !s.skipped)
    && (!s.skipped ==> f.codec == s.codec && f.Offset() == s.offset && f.Kind() == KindNumber(s.codec))
  }

  /** The table tells every slot apart, and its first word whether the struct has a primitive field. */
  predicate Packs(slots: seq<Slot>, table: seq<FieldCodec>) {
    && |table| == |slots|
    && (forall i :: 0 <= i < |slots| ==> Reads(table[i], slots[i]))
    && (|slots| > 0 ==> (table[0].IsDirect() <==> Direct(Included(slots))))
  }

  lemma EntryReads(s: Slot, direct: bool)
    ensures var f := FieldCodec(Word(s, direct), s.codec); Reads(f, s) && (f.IsDirect() <==> direct)
  {
    hide KindCode, KindNumber;
    if !s.skipped {
      KindCodeFaithful(s.codec);
      PackedApart(s.offset, KindCode(s.codec), true, true, direct);
    }
  }

  /** The packing loop of `scanStructCodec`; the direct flag sits on the first slot. */
  method PackFields(slots: seq<Slot>) returns (table: array<FieldCodec>)
    ensures fresh(table) && Packs(slots, table[..])
  {
    hide Word, Reads, FieldCodec.IsDirect, Direct, Included;
    table := new FieldCodec[|slots|](_ => FieldCodec(0, Bytes));
    var hasDirect := false;
    for i := 0 to |slots|
      invariant forall j :: 0 <= j < i ==> table[j] == FieldCodec(Word(slots[j], false), slots[j].codec)
      invariant hasDirect <==> exists j :: 0 <= j < i && !slots[j].skipped && slots[j].codec.Prim?
    {
      table[i] := FieldCodec(Word(slots[i], false), slots[i].codec);
      if !slots[i].skipped && slots[i].codec.Prim? {
        hasDirect := true;
      }
    }
    if hasDirect {
      FlagLast(slots[0]);
      table[0] := table[0].(field := table[0].field | DIRECT_FLAG);
    }
    DirectIncluded(slots);
    forall i | 0 <= i < |slots|
      ensures Reads(table[i], slots[i]) && (table[i].IsDirect() <==> hasDirect && i == 0)
    {
      EntryReads(slots[i], hasDirect && i == 0);
    }
  }

  /** The table of some Go struct whose included fields have these codecs; the rest of it is arbitrary. */
  method Layout(fields: seq<Codec>) returns (slots: seq<Slot>, table: seq<FieldCodec>)
    ensures Included(slots) == fields && Packs(slots, table)
  {
    hide Packs, Included;
    slots := [];
    NoneIncluded();
    for i := 0 to |fields|
      invariant Included(slots) == fields[..i]
    {
      var gap: nat :| true;
      for j := 0 to gap
        invariant Included(slots) == fields[..i]
      {
        var hole: Offset :| true;
        slots := Extend(slots, Slot(hole, true, fields[i]));
      }
      var at: Offset :| true;
      slots := Extend(slots, Slot(at, false, fields[i]));
    }
    assert fields[..|fields|] == fields;
    var packed := PackFields(slots);
    table := packed[..];
  }

  function Extend(slots: seq<Slot>, s: Slot): (r: seq<Slot>)
    ensures r == slots + [s]
    ensures Included(r) == Included(slots) + if s.skipped then [] else [s.codec]
  {
    OneIncluded(s);
    IncludedJoin(slots, [s]);
    slots + [s]
  }

  lemma NoneIncluded()
    ensures Included([]) == []
  {
  }

  lemma OneIncluded(s: Slot)
    ensures Included([s]) == if s.skipped then [] else [s.codec]
  {
  }

  // ---------------------------------------------------------------- reading the table, slot by slot

  /** The direct flag on the first word stands for a primitive field among those included. */
  method IsDirectTable(ghost slots: seq<Slot>, table: seq<FieldCodec>) returns (direct: bool)
    requires Packs(slots, table)
    ensures direct == Direct(Included(slots))
  {
    hide FieldCodec.IsDirect, Reads;
    direct := |table| > 0 && table[0].IsDirect();
  }

  lemma TableSize(slots: seq<Slot>, table: seq<FieldCodec>)
    requires Packs(slots, table)
    ensures |table| == |slots|
  {
  }

  /** From slot `i` on, the included fields are those from `j` on. */
  predicate ToCome(slots: seq<Slot>, i: nat, fs: seq<Codec>, j: nat) {
    i <= |slots| && j <= |fs| && Included(slots[i..]) == fs[j..]
  }

  lemma AllToCome(slots: seq<Slot>, fs: seq<Codec>)
    requires Included(slots) == fs
    ensures ToCome(slots, 0, fs, 0)
  {
    assert slots[0..] == slots && fs[0..] == fs;
  }

  lemma NoneToCome(slots: seq<Slot>, fs: seq<Codec>, j: nat)
    requires ToCome(slots, |slots|, fs, j)
    ensures j == |fs|
  {
  }

  /** What the table says at slot `i`. */
  lemma SlotReads(slots: seq<Slot>, table: seq<FieldCodec>, i: nat, fs: seq<Codec>, j: nat)
    requires Packs(slots, table) && i < |slots| && ToCome(slots, i, fs, j)
    ensures |table| == |slots| && (table[i].IsIncluded() <==> table[i].IsWritable())
    ensures !table[i].IsIncluded() ==> ToCome(slots, i + 1, fs, j)
    ensures table[i].IsIncluded() ==>
      && j < |fs| && fs[j] == table[i].codec && ToCome(slots, i + 1, fs, j + 1)
      && table[i].Kind() == KindNumber(fs[j])
  {
    hide Included, KindNumber, FieldCodec.Kind, FieldCodec.Offset;
    hide FieldCodec.IsIncluded, FieldCodec.IsWritable, FieldCodec.IsDirect;
    IncludedFrom(slots, i);
    if !slots[i].skipped {
      assert fs[j..][0] == fs[j] && fs[j..][1..] == fs[j + 1..];
      assert ([slots[i].codec] + Included(slots[i + 1..]))[1..] == Included(slots[i + 1..]);
    }
  }
}
