/**
 From Go types to codec trees: which types are refused and why, what the accepted ones become, and the
 tables the scanner builds beside the tree (the dense tag table of a union, the packed struct fields).
 */
module Scanner {
  import opened Wire
  import opened Codec
  import opened Destination
  import opened FieldWords

  // ---------------------------------------------------------------- types

  /** Go types without user-defined codecs. `named` marks a defined type such as `type ID string`. */
  datatype Type =
    | TPrim(kind: Kind, named: bool)
    | TPtr(elem: Type)
    | TArray(length: nat, elem: Type)
    | TSlice(elem: Type, named: bool)
    | TStruct(fields: seq<Field>)
    | TMap(key: Type, val: Type, named: bool)
    | TOther  // channels, functions, interfaces, uintptr

  datatype Field = Field(name: string, exported: bool, tag: string, offset: Offset, typ: Type) {
    /** Fields without wire data. */
    predicate Skipped() {
      name == "_" || !exported || tag == "-"
    }

    /** A union arm is a field whose tag has a comma. */
    predicate Tagged() {
      !Skipped() && Comma(tag) < |tag|
    }

    predicate Plain() {
      !Skipped() && Comma(tag) == |tag|
    }
  }

  /** The position of the first comma, or the length. */
  function Comma(s: string): (i: nat)
    ensures i <= |s|
    ensures i < |s| ==> s[i] == ','
    ensures forall j :: 0 <= j < i ==> s[j] != ','
  {
    if s == "" then 0 else if s[0] == ',' then 0 else 1 + Comma(s[1..])
  }

  /** A decimal number, or -1: no sign, no spaces, at least one digit. */
  function Decimal(s: string): (n: int)
    ensures n >= -1
  {
    if s == "" then -1
    else
      var last := s[|s| - 1];
      if !('0' <= last <= '9') then -1
      else if |s| == 1 then last as int - '0' as int
      else
        var high := Decimal(s[..|s| - 1]);
        if high < 0 then -1 else 10 * high + (last as int - '0' as int)
  }

  /** The arm number in a tag such as `3,union`, or 0 when the tag is no good. */
  function ArmTag(tag: string): (id: nat)
    requires Comma(tag) < |tag|
    ensures id <= MAX_TAG
  {
    var i := Comma(tag);
    var id := Decimal(tag[..i]);
    if tag[i + 1..] == "union" && 0 < id <= MAX_TAG then id else 0
  }

  // ---------------------------------------------------------------- scanning

  datatype ScanError = Unsupported | InvalidTag | NotPointer | DuplicateTag | MixedFields

  datatype Scanned<+T> = Good(val: T) | Bad(error: ScanError) {
    predicate IsFailure() { Bad? }

    function PropagateFailure<U>(): Scanned<U>
      requires Bad?
    {
      Bad(error)
    }

    function Extract(): T
      requires Good?
    {
      val
    }
  }

  /** Element types with a specialised slice and array codec of their own. */
  predicate FixedWidth(t: Type) {
    t.TPrim? && !t.named && (t.kind.KString? || t.kind.KWords?)
  }

  function FixedCodec(t: Type, isArray: bool, length: nat): Codec
    requires FixedWidth(t)
  {
    Seq(if t.kind.KString? then OfString else OfWords, Prim(t.kind), isArray, length)
  }

  function SliceCodec(elem: Type, c: Codec): Codec {
    if elem.TPrim? && elem.kind.KUint? && elem.kind.bits == 8 then Bytes
    else if elem.TPrim? && elem.kind.KBool? then Bools
    else if elem.TPrim? && (elem.kind.KInt? || elem.kind.KUint?) then Seq(OfVarint, c, false, 0)
    else if elem.TPtr? then Seq(OfPtr, c, false, 0)
    else Seq(Generic, c, false, 0)
  }

  const STRING := TPrim(KString, false)
  const UINT64 := TPrim(KUint(64, false), false)
  const BYTES := TSlice(TPrim(KUint(8, false), false), false)

  /** `scanType` */
  function Scan(t: Type): Scanned<Codec>
    decreases t, 1
  {
    match t
    case TPrim(k, _) => Good(Prim(k))
    case TPtr(elem) =>
      var c :- Scan(elem);
      Good(Pointer(c))
    case TArray(n, elem) =>
      if FixedWidth(elem) then Good(FixedCodec(elem, true, n))
      else
        var c :- Scan(elem);
        Good(Seq(Generic, c, true, n))
    case TSlice(elem, _) =>
      if FixedWidth(elem) then Good(FixedCodec(elem, false, 0))
      else
        var c :- Scan(elem);
        Good(SliceCodec(elem, c))
    case TStruct(fields) =>
      var arms :- ScanArms(fields, {});
      if arms != [] && HasPlain(fields) then Bad(MixedFields)
      else if arms != [] then Good(Union(arms))
      else
        var cs :- ScanFields(fields);
        Good(Struct(cs))
    case TMap(key, val, named) =>
      if t == TMap(STRING, BYTES, false) then Good(Map(StringMap, Prim(KString), Bytes))
      else if t == TMap(STRING, STRING, false) then Good(Map(StringMap, Prim(KString), Prim(KString)))
      else if t == TMap(UINT64, UINT64, false) then Good(Map(Uint64Map, Prim(UINT64.kind), Prim(UINT64.kind)))
      else if t == TMap(STRING, UINT64, false) then Good(Map(StringMap, Prim(KString), Prim(UINT64.kind)))
      else
        var k :- Scan(key);
        var v :- Scan(val);
        Good(Map(ReflectMap, k, v))
    case TOther => Bad(Unsupported)
  }

  predicate HasPlain(fields: seq<Field>) {
    exists i :: 0 <= i < |fields| && fields[i].Plain()
  }

  /** The union arms among the fields, given the tags already seen. */
  function ScanArms(fields: seq<Field>, seen: set<nat>): Scanned<seq<Arm>>
    decreases fields, 0
  {
    if fields == [] then Good([])
    else
      var f := fields[0];
      if !f.Tagged() then ScanArms(fields[1..], seen)
      else
        var arm :- ScanArm(f, seen);
        var arms :- ScanArms(fields[1..], seen + {arm.tag});
        Good([arm] + arms)
  }

  function ScanArm(f: Field, seen: set<nat>): (r: Scanned<Arm>)
    requires f.Tagged()
    decreases f, 0
  {
    var id := ArmTag(f.tag);
    if id == 0 then Bad(InvalidTag)
    else if !f.typ.TPtr? then Bad(NotPointer)
    else if id in seen then Bad(DuplicateTag)
    else
      var c :- Scan(f.typ.elem);
      Good(Arm(id, c))
  }

  /** The codecs of the included fields. */
  function ScanFields(fields: seq<Field>): Scanned<seq<Codec>>
    decreases fields, 0
  {
    if fields == [] then Good([])
    else if fields[0].Skipped() then ScanFields(fields[1..])
    else
      var c :- Scan(fields[0].typ);
      var cs :- ScanFields(fields[1..]);
      Good([c] + cs)
  }

  // ---------------------------------------------------------------- which types are accepted

  /** The arms have numbers of their own, and are pointers to types that can be scanned. */
  predicate GoodArms(fields: seq<Field>, seen: set<nat>)
    decreases fields, 0
  {
    && (forall i :: 0 <= i < |fields| && fields[i].Tagged() ==>
          && ArmTag(fields[i].tag) > 0 && ArmTag(fields[i].tag) !in seen
          && fields[i].typ.TPtr? && Scannable(fields[i].typ.elem))
    && (forall i, j :: 0 <= i < j < |fields| && fields[i].Tagged() && fields[j].Tagged() ==>
          ArmTag(fields[i].tag) != ArmTag(fields[j].tag))
  }

  predicate HasTagged(fields: seq<Field>) {
    exists i :: 0 <= i < |fields| && fields[i].Tagged()
  }

  /** The types the library serializes, said without scanning. */
  predicate Scannable(t: Type)
    decreases t, 1
  {
    match t
    case TPrim(_, _) => true
    case TPtr(elem) => Scannable(elem)
    case TArray(_, elem) => Scannable(elem)
    case TSlice(elem, _) => Scannable(elem)
    case TStruct(fields) =>
      && GoodArms(fields, {})
      && (HasTagged(fields) ==> !HasPlain(fields))
      && (!HasTagged(fields) ==> forall i :: 0 <= i < |fields| && fields[i].Plain() ==> Scannable(fields[i].typ))
    case TMap(key, val, _) => Scannable(key) && Scannable(val)
    case TOther => false
  }

  /** A type is accepted exactly when it is scannable. */
  lemma {:induction false} AcceptedTypes(t: Type)
    ensures Scan(t).Good? <==> Scannable(t)
    decreases t, 1
  {
    match t
    case TPrim(_, _) =>
    case TPtr(elem) => AcceptedTypes(elem);
    case TArray(_, elem) => AcceptedTypes(elem);
    case TSlice(elem, _) => AcceptedTypes(elem);
    case TStruct(fields) =>
      AcceptedArms(fields, {});
      AcceptedFields(fields);
    case TMap(key, val, _) =>
      AcceptedTypes(key);
      AcceptedTypes(val);
    case TOther =>
  }

  lemma {:induction false} AcceptedArms(fields: seq<Field>, seen: set<nat>)
    ensures ScanArms(fields, seen).Good? <==> GoodArms(fields, seen)
    ensures ScanArms(fields, seen).Good? ==> (ScanArms(fields, seen).val != [] <==> HasTagged(fields))
    decreases fields, 0
  {
    if fields != [] {
      var f, rest := fields[0], fields[1..];
      if f.Tagged() {
        if f.typ.TPtr? {
          AcceptedTypes(f.typ.elem);
        }
        var more := seen + {ArmTag(f.tag)};
        AcceptedArms(rest, more);
        ArmsApart(fields, seen);
      } else {
        AcceptedArms(rest, seen);
        ArmsSkip(fields, seen);
      }
    }
  }

  lemma ArmsApart(fields: seq<Field>, seen: set<nat>)
    requires fields != [] && fields[0].Tagged()
    ensures var f := fields[0];
      GoodArms(fields, seen) <==>
        && ArmTag(f.tag) > 0 && ArmTag(f.tag) !in seen && f.typ.TPtr? && Scannable(f.typ.elem)
        && GoodArms(fields[1..], seen + {ArmTag(f.tag)})
    ensures HasTagged(fields)
  {
    hide Scannable, ArmTag, Comma;
    var rest := fields[1..];
    assert forall i :: 0 <= i < |rest| ==> rest[i] == fields[i + 1];
    assert forall i :: 1 <= i < |fields| ==> fields[i] == rest[i - 1];
  }

  lemma ArmsSkip(fields: seq<Field>, seen: set<nat>)
    requires fields != [] && !fields[0].Tagged()
    ensures GoodArms(fields, seen) <==> GoodArms(fields[1..], seen)
    ensures HasTagged(fields) <==> HasTagged(fields[1..])
  {
    hide Scannable, ArmTag, Comma;
    var rest := fields[1..];
    assert forall i :: 0 <= i < |rest| ==> rest[i] == fields[i + 1];
    assert forall i :: 1 <= i < |fields| ==> fields[i] == rest[i - 1];
  }

  lemma {:induction false} AcceptedFields(fields: seq<Field>)
    ensures ScanFields(fields).Good? <==>
      forall i :: 0 <= i < |fields| && !fields[i].Skipped() ==> Scannable(fields[i].typ)
    decreases fields, 0
  {
    if fields != [] {
      var rest := fields[1..];
      assert forall i :: 0 <= i < |rest| ==> rest[i] == fields[i + 1];
      assert forall i :: 1 <= i < |fields| ==> fields[i] == rest[i - 1];
      AcceptedTypes(fields[0].typ);
      AcceptedFields(rest);
    }
  }

  // ---------------------------------------------------------------- what accepted types become

  /** Types whose values Go compares by content alone. */
  predicate ByContent(t: Type) {
    match t
    case TPrim(k, _) => !k.KWords?
    case TArray(_, elem) => ByContent(elem)
    case TStruct(fields) => forall i :: 0 <= i < |fields| && !fields[i].Skipped() ==> ByContent(fields[i].typ)
    case _ => false
  }

  /** Go's own kinds throughout, and map keys compared by content. */
  predicate Modelled(t: Type) {
    match t
    case TPrim(k, _) => WFKind(k)
    case TPtr(elem) => Modelled(elem)
    case TArray(_, elem) => Modelled(elem)
    case TSlice(elem, _) => Modelled(elem)
    case TStruct(fields) => forall i :: 0 <= i < |fields| && !fields[i].Skipped() ==> Modelled(fields[i].typ)
    case TMap(key, val, _) => Modelled(key) && ByContent(key) && Modelled(val)
    case TOther => true
  }

  /** All sixteen primitive kinds, named or not. */
  lemma ModelledKinds(named: bool)
    ensures forall k | k in {KString, KBool, KInt(64, true), KInt(8, false), KInt(16, false), KInt(32, false),
      KInt(64, false), KUint(64, true), KUint(8, false), KUint(16, false), KUint(32, false), KUint(64, false),
      KWords(4, 1), KWords(8, 1), KWords(4, 2), KWords(8, 2)} :: Modelled(TPrim(k, named))
  {
  }

  /** Pointers, arrays, slices and structs of modelled types, and maps to them from types compared by content. */
  lemma ModelledParts(elem: Type, key: Type, fields: seq<Field>, n: nat, named: bool)
    requires Modelled(elem) && Modelled(key)
    requires forall i :: 0 <= i < |fields| ==>
      fields[i].typ == elem || fields[i].typ == TPtr(elem) || fields[i].Skipped()
    ensures Modelled(TPtr(elem)) && Modelled(TArray(n, elem)) && Modelled(TSlice(elem, named))
    ensures Modelled(TStruct(fields))
    ensures Modelled(TMap(key, elem, named)) <==> ByContent(key)
    ensures key.TPrim? ==> (ByContent(key) <==> !key.kind.KWords?)
    ensures ByContent(key) ==> ByContent(TArray(n, key))
  {
  }

  /** Every tree the scanner builds is one the round trip and its companions speak about. */
  lemma {:induction false} ScannedWellFormed(t: Type)
    requires Modelled(t) && Scan(t).Good?
    ensures WF(Scan(t).val)
    ensures ByContent(t) ==> KeyOk(Scan(t).val)
    decreases t, 1
  {
    match t
    case TPrim(_, _) =>
    case TPtr(elem) => ScannedWellFormed(elem);
    case TArray(_, elem) => ScannedWellFormed(elem);
    case TSlice(elem, _) =>
      ScannedWellFormed(elem);
      SliceFits(elem);
    case TStruct(fields) =>
      ArmsWellFormed(fields, {});
      if ScanArms(fields, {}).val == [] {
        FieldsWellFormed(fields);
      } else {
        ArmsAreNotKeys(fields);
      }
    case TMap(key, val, _) =>
      ScannedWellFormed(key);
      ScannedWellFormed(val);
  }

  lemma SliceFits(elem: Type)
    requires Modelled(elem) && Scan(elem).Good? && WF(Scan(elem).val)
    ensures WF(SliceCodec(elem, Scan(elem).val))
    ensures FixedWidth(elem) ==> WF(FixedCodec(elem, false, 0))
  {
  }

  /** A union holds pointers, so it is no map key. */
  lemma ArmsAreNotKeys(fields: seq<Field>)
    requires ScanArms(fields, {}).Good? && ScanArms(fields, {}).val != []
    ensures !ByContent(TStruct(fields))
  {
    AcceptedArms(fields, {});
    var i :| 0 <= i < |fields| && fields[i].Tagged();
    assert !ByContent(fields[i].typ);
  }

  lemma {:induction false} ArmsWellFormed(fields: seq<Field>, seen: set<nat>)
    requires ScanArms(fields, seen).Good?
    requires forall i :: 0 <= i < |fields| && !fields[i].Skipped() ==> Modelled(fields[i].typ)
    ensures var arms := ScanArms(fields, seen).val;
      && DistinctTags(arms)
      && (forall i :: 0 <= i < |arms| ==> arms[i].tag !in seen && WF(arms[i].codec))
    decreases fields, 0
  {
    hide WF, Modelled;
    if fields != [] {
      var f := fields[0];
      if f.Tagged() {
        ArmWellFormed(f, seen);
        var arm := ScanArm(f, seen).val;
        ArmsWellFormed(fields[1..], seen + {arm.tag});
        var arms := ScanArms(fields[1..], seen + {arm.tag}).val;
        assert forall i :: 0 < i < 1 + |arms| ==> ([arm] + arms)[i] == arms[i - 1];
      } else {
        ArmsWellFormed(fields[1..], seen);
      }
    }
  }

  lemma {:induction false} ArmWellFormed(f: Field, seen: set<nat>)
    requires f.Tagged() && Modelled(f.typ) && ScanArm(f, seen).Good?
    ensures var arm := ScanArm(f, seen).val; 1 <= arm.tag <= MAX_TAG && arm.tag !in seen && WF(arm.codec)
    decreases f, 0
  {
    ScannedWellFormed(f.typ.elem);
  }

  lemma {:induction false} FieldsWellFormed(fields: seq<Field>)
    requires ScanFields(fields).Good?
    requires forall i :: 0 <= i < |fields| && !fields[i].Skipped() ==> Modelled(fields[i].typ)
    ensures var cs := ScanFields(fields).val;
      && (forall i :: 0 <= i < |cs| ==> WF(cs[i]))
      && ((forall i :: 0 <= i < |fields| && !fields[i].Skipped() ==> ByContent(fields[i].typ)) ==>
            forall i :: 0 <= i < |cs| ==> KeyOk(cs[i]))
    decreases fields, 0
  {
    hide WF, KeyOk, Modelled, ByContent;
    if fields != [] {
      FieldsWellFormed(fields[1..]);
      assert forall i :: 0 <= i < |fields| - 1 ==> fields[1..][i] == fields[i + 1];
      if !fields[0].Skipped() {
        ScannedWellFormed(fields[0].typ);
      }
    }
  }

  // ---------------------------------------------------------------- the struct scanner as it runs

  /** One slot for each field of the Go struct, with what its type scans to unless it is skipped. */
  predicate Mirrors(slots: seq<Slot>, fields: seq<Field>, cs: seq<Codec>) {
    && |slots| == |fields| && Included(slots) == cs
    && forall i :: 0 <= i < |slots| ==>
         && slots[i].skipped == fields[i].Skipped() && slots[i].offset == fields[i].offset
         && (!slots[i].skipped ==> Scan(fields[i].typ) == Good(slots[i].codec))
  }

  /** The kind of a field's type: Go's own number for a primitive, and four more for slices with a fast path. */
  function TypeNumber(t: Type): nat {
    match t
    case TPrim(KBool, _) => 1
    case TPrim(KInt(64, true), _) => 2
    case TPrim(KInt(8, false), _) => 3
    case TPrim(KInt(16, false), _) => 4
    case TPrim(KInt(32, false), _) => 5
    case TPrim(KInt(64, false), _) => 6
    case TPrim(KUint(64, true), _) => 7
    case TPrim(KUint(8, false), _) => 8
    case TPrim(KUint(16, false), _) => 9
    case TPrim(KUint(32, false), _) => 10
    case TPrim(KUint(64, false), _) => 11
    case TPrim(KWords(4, 1), _) => 13
    case TPrim(KWords(8, 1), _) => 14
    case TPrim(KWords(4, 2), _) => 15
    case TPrim(KWords(8, 2), _) => 16
    case TPrim(KString, _) => 24
    case TSlice(TPrim(KUint(16, false), _), _) => 27
    case TSlice(TPrim(KUint(32, false), _), _) => 28
    case TSlice(TPrim(KUint(64, _), _), _) => 29
    case TSlice(TPrim(KUint(8, false), _), _) => 30
    case _ => 0
  }

  /** The number the scanner packs for a field is that of the field's own type. */
  lemma KindOfType(t: Type)
    requires Modelled(t) && Scan(t).Good?
    ensures KindNumber(Scan(t).val) == TypeNumber(t)
  {
  }

  /** What the table says about every field of the struct, by the field's own name, offset and type. */
  predicate Describes(table: seq<FieldCodec>, fields: seq<Field>) {
    && |table| == |fields|
    && (|fields| > 0 ==>
          (table[0].IsDirect() <==> exists i :: 0 <= i < |fields| && !fields[i].Skipped() && fields[i].typ.TPrim?))
    && forall i :: 0 <= i < |fields| ==>
         && (table[i].IsIncluded() <==> !fields[i].Skipped())
         && (!fields[i].Skipped() ==>
               && table[i].Offset() == fields[i].offset && Scan(fields[i].typ) == Good(table[i].codec)
               && (Modelled(fields[i].typ) ==> table[i].Kind() == TypeNumber(fields[i].typ)))
  }

  lemma OnlyPrims(t: Type)
    requires Scan(t).Good?
    ensures Scan(t).val.Prim? <==> t.TPrim?
  {
  }

  lemma TableDescribes(slots: seq<Slot>, fields: seq<Field>, cs: seq<Codec>, table: seq<FieldCodec>)
    requires Mirrors(slots, fields, cs) && Packs(slots, table)
    ensures Describes(table, fields)
  {
    hide Scan, Modelled, KindNumber, TypeNumber, Included;
    hide FieldCodec.IsIncluded, FieldCodec.IsWritable, FieldCodec.IsDirect, FieldCodec.Kind, FieldCodec.Offset;
    forall i | 0 <= i < |fields| && !fields[i].Skipped() && Modelled(fields[i].typ)
      ensures table[i].Kind() == TypeNumber(fields[i].typ)
    {
      KindOfType(fields[i].typ);
      assert Reads(table[i], slots[i]);
    }
    DirectIncluded(slots);
    forall i | 0 <= i < |fields| && !fields[i].Skipped()
      ensures slots[i].codec.Prim? <==> fields[i].typ.TPrim?
    {
      OnlyPrims(fields[i].typ);
    }
    assert forall i :: 0 <= i < |fields| ==> Reads(table[i], slots[i]);
  }

  /**
   `scanStructCodec`: one loop over the fields for the arms, another for the plain fields and their
   table. The table is one that the struct codec's loops can be given.
   */
  method ScanStruct(fields: seq<Field>) returns (r: Scanned<Codec>, slots: seq<Slot>, table: seq<FieldCodec>)
    ensures r == Scan(TStruct(fields))
    ensures r.Good? && r.val.Struct? ==>
      Mirrors(slots, fields, r.val.fields) && Packs(slots, table) && Describes(table, fields)
  {
    var arms, maxTag, hasPlain;
    hide Scan, ScanArms, Mirrors, Packs, Describes;
    StructCases(fields);
    slots, table := [], [];
    r, arms, maxTag, hasPlain := CollectArms(fields);
    if r.Bad? {
      return;
    }
    if arms != [] && hasPlain {
      r := Bad(MixedFields);
      return;
    }
    if arms != [] {
      r := Good(Union(arms));
      return;
    }
    r, slots, table := CollectFields(fields);
  }

  function StructOf(cs: Scanned<seq<Codec>>): Scanned<Codec> {
    if cs.Bad? then Bad(cs.error) else Good(Struct(cs.val))
  }

  lemma StructCases(fields: seq<Field>)
    ensures var arms := ScanArms(fields, {});
      Scan(TStruct(fields)) ==
        if arms.Bad? then Bad(arms.error)
        else if arms.val != [] && HasPlain(fields) then Bad(MixedFields)
        else if arms.val != [] then Good(Union(arms.val))
        else StructOf(ScanFields(fields))
  {
  }

  function OntoArms(arms: seq<Arm>, r: Scanned<seq<Arm>>): Scanned<seq<Arm>> {
    match r
    case Bad(e) => Bad(e)
    case Good(more) => Good(arms + more)
  }

  method CollectArms(fields: seq<Field>)
    returns (r: Scanned<Codec>, arms: seq<Arm>, maxTag: nat, hasPlain: bool)
    ensures r.Bad? <==> ScanArms(fields, {}).Bad?
    ensures r.Bad? ==> r.error == ScanArms(fields, {}).error
    ensures r.Good? ==> ScanArms(fields, {}) == Good(arms) && hasPlain == HasPlain(fields)
    ensures r.Good? ==> forall i :: 0 <= i < |arms| ==> arms[i].tag <= maxTag
  {
    hide ScanArms, ScanArm;
    r, arms, maxTag, hasPlain := Good(Struct([])), [], 0, false;
    var seen: set<nat> := {};
    assert fields[0..] == fields;
    OntoNoArms(ScanArms(fields, seen));
    for i := 0 to |fields|
      invariant ScanArms(fields, {}) == OntoArms(arms, ScanArms(fields[i..], seen))
      invariant hasPlain <==> exists j :: 0 <= j < i && fields[j].Plain()
      invariant forall j :: 0 <= j < |arms| ==> arms[j].tag <= maxTag
    {
      var f := fields[i];
      ArmsStep(fields, i, arms, seen);
      if f.Tagged() {
        var arm := ScanArm(f, seen);
        if arm.Bad? {
          r := Bad(arm.error);
          return;
        }
        seen := seen + {arm.val.tag};
        if arm.val.tag > maxTag {
          maxTag := arm.val.tag;
        }
        arms := arms + [arm.val];
      } else if f.Plain() {
        hasPlain := true;
      }
    }
    ArmsEnd(fields, arms, seen);
  }

  lemma OntoNoArms(r: Scanned<seq<Arm>>)
    ensures OntoArms([], r) == r
  {
    if r.Good? {
      assert [] + r.val == r.val;
    }
  }

  lemma ArmsEnd(fields: seq<Field>, arms: seq<Arm>, seen: set<nat>)
    ensures OntoArms(arms, ScanArms(fields[|fields|..], seen)) == Good(arms)
  {
    assert fields[|fields|..] == [] && arms + [] == arms;
  }

  lemma ArmsStep(fields: seq<Field>, i: nat, arms: seq<Arm>, seen: set<nat>)
    requires i < |fields|
    ensures var f, all := fields[i], OntoArms(arms, ScanArms(fields[i..], seen));
      && (!f.Tagged() ==> all == OntoArms(arms, ScanArms(fields[i + 1..], seen)))
      && (f.Tagged() && ScanArm(f, seen).Bad? ==> all == Bad(ScanArm(f, seen).error))
      && (f.Tagged() && ScanArm(f, seen).Good? ==>
            var arm := ScanArm(f, seen).val;
            all == OntoArms(arms + [arm], ScanArms(fields[i + 1..], seen + {arm.tag})))
  {
    hide ScanArm;
    assert fields[i..][1..] == fields[i + 1..];
    var f := fields[i];
    if f.Tagged() && ScanArm(f, seen).Good? {
      var arm := ScanArm(f, seen).val;
      match ScanArms(fields[i + 1..], seen + {arm.tag})
      case Bad(_) =>
      case Good(more) => assert arms + ([arm] + more) == (arms + [arm]) + more;
    }
  }

  function OntoCodecs(cs: seq<Codec>, r: Scanned<seq<Codec>>): Scanned<seq<Codec>> {
    match r
    case Bad(e) => Bad(e)
    case Good(more) => Good(cs + more)
  }

  method CollectFields(fields: seq<Field>) returns (r: Scanned<Codec>, slots: seq<Slot>, table: seq<FieldCodec>)
    ensures r == StructOf(ScanFields(fields))
    ensures r.Good? ==>
      r.val.Struct? && Mirrors(slots, fields, r.val.fields) && Packs(slots, table) && Describes(table, fields)
  {
    hide ScanFields, Scan, Included, Packs, Describes;
    var cs: seq<Codec> := [];
    slots, table := [], [];
    NoneIncluded();
    assert fields[0..] == fields;
    OntoNoCodecs(ScanFields(fields));
    for i := 0 to |fields|
      invariant ScanFields(fields) == OntoCodecs(cs, ScanFields(fields[i..]))
      invariant Mirrors(slots, fields[..i], cs)
    {
      var f := fields[i];
      FieldsStep(fields, i, cs);
      if f.Skipped() {
        slots := Extend(slots, Slot(f.offset, true, Bytes));
      } else {
        var c := Scan(f.typ);
        if c.Bad? {
          r := Bad(c.error);
          return;
        }
        slots, cs := Extend(slots, Slot(f.offset, false, c.val)), cs + [c.val];
      }
    }
    FieldsEnd(fields, cs);
    assert fields[..|fields|] == fields;
    var packed := PackFields(slots);
    r, table := Good(Struct(cs)), packed[..];
    TableDescribes(slots, fields, cs, table);
  }

  lemma OntoNoCodecs(r: Scanned<seq<Codec>>)
    ensures OntoCodecs([], r) == r
  {
    if r.Good? {
      assert [] + r.val == r.val;
    }
  }

  lemma FieldsEnd(fields: seq<Field>, cs: seq<Codec>)
    ensures OntoCodecs(cs, ScanFields(fields[|fields|..])) == Good(cs)
  {
    assert fields[|fields|..] == [] && cs + [] == cs;
  }

  lemma FieldsStep(fields: seq<Field>, i: nat, cs: seq<Codec>)
    requires i < |fields|
    ensures var f, all := fields[i], OntoCodecs(cs, ScanFields(fields[i..]));
      && (f.Skipped() ==> all == OntoCodecs(cs, ScanFields(fields[i + 1..])))
      && (!f.Skipped() && Scan(f.typ).Bad? ==> all == Bad(Scan(f.typ).error))
      && (!f.Skipped() && Scan(f.typ).Good? ==>
            all == OntoCodecs(cs + [Scan(f.typ).val], ScanFields(fields[i + 1..])))
  {
    hide Scan;
    assert fields[i..][1..] == fields[i + 1..];
    if !fields[i].Skipped() && Scan(fields[i].typ).Good? {
      var c := Scan(fields[i].typ).val;
      match ScanFields(fields[i + 1..])
      case Bad(_) =>
      case Good(more) => assert cs + ([c] + more) == (cs + [c]) + more;
    }
  }

  // ---------------------------------------------------------------- tables

  /** A union's arms beside a dense table from tag to arm. */
  class UnionTable {
    const arms: seq<Arm>
    const byTag: array<int>

    constructor (arms: seq<Arm>, maxTag: nat)
      requires DistinctTags(arms) && forall i :: 0 <= i < |arms| ==> arms[i].tag <= maxTag
      ensures this.arms == arms && Valid() && fresh(byTag)
    {
      this.arms := arms;
      byTag := new int[maxTag + 1](_ => -1);
      new;
      for i := 0 to |arms|
        modifies byTag
        invariant forall tag :: 0 <= tag < byTag.Length ==> byTag[tag] < i
        invariant forall tag :: 0 <= tag < byTag.Length && byTag[tag] >= 0 ==> arms[byTag[tag]].tag == tag
        invariant forall j :: 0 <= j < i ==> byTag[arms[j].tag] == j
      {
        byTag[arms[i].tag] := i;
      }
    }

    /** The table holds every arm under its tag, and nothing else. */
    ghost predicate Valid()
      reads this, byTag
    {
      && DistinctTags(arms)
      && (forall tag :: 0 <= tag < byTag.Length ==>
            byTag[tag] < |arms| && (byTag[tag] >= 0 ==> arms[byTag[tag]].tag == tag))
      && (forall j :: 0 <= j < |arms| ==> arms[j].tag < byTag.Length && byTag[arms[j].tag] == j)
    }

    /** `lookup`: for every 64-bit tag the table and a search through the arms agree. */
    method Find(tag: nat) returns (i: int)
      requires Valid()
      ensures i == Lookup(arms, tag)
    {
      i := if tag >= byTag.Length || byTag[tag] < 0 then -1 else byTag[tag];
      ghost var j := Lookup(arms, tag);
    }
  }
}
