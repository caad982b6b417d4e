/** The values a scanned tree carries, and those its encoder takes, are the type's own. */
module GoValues {
  import opened Wire
  import opened Varint
  import opened Codec
  import opened Scanner
  import opened GoFormat
  import opened GoLeaves
  import opened GoWrites

  // ---------------------------------------------------------------- values

  /** The values of the codec tree a Go type is scanned into are the values of the type. */
  lemma {:induction false} ValuesExactly(t: Type, v: Value)
    requires Modelled(t) && Scan(t).Good?
    ensures Typed(Scan(t).val, v) <==> GoValue(t, v)
    decreases t, 1
  {
    match t
    case TPrim(k, _) => PrimValueExactly(k, v);
    case TPtr(elem) => PointerValues(t, v);
    case TArray(_, elem) =>
      ArrayParts(t);
      if v.VSeq? {
        ManyValues(elem, v.vs);
      }
    case TSlice(elem, _) => SliceValues(t, v);
    case TStruct(fields) => StructValues(fields, v);
    case TMap(_, _, _) =>
      MapParts(t);
      if v.VMap? {
        EntryValues(t, v.es);
      }
    case TOther =>
  }

  lemma {:induction false} PointerValues(t: Type, v: Value)
    requires t.TPtr? && Modelled(t) && Scan(t).Good?
    ensures Typed(Scan(t).val, v) <==> GoValue(t, v)
    decreases t, 0
  {
    PointerParts(t);
    if v.VPtr? {
      ValuesExactly(t.elem, v.v);
    }
  }

  lemma {:induction false} SliceValues(t: Type, v: Value)
    requires t.TSlice? && Modelled(t) && Scan(t).Good?
    ensures Typed(Scan(t).val, v) <==> GoValue(t, v)
    decreases t, 0
  {
    SliceParts(t);
    hide Scan;
    assert MAX_LEN == 0x3FFF_FFFF_FFFF_FFFF;
    if v.VSeq? && !IsByte(t.elem) && !IsBool(t.elem) {
      ManyValues(t.elem, v.vs);
    }
  }

  lemma {:induction false} ManyValues(elem: Type, vs: seq<Value>)
    requires Modelled(elem) && Scan(elem).Good?
    ensures forall i :: 0 <= i < |vs| ==> (Typed(Scan(elem).val, vs[i]) <==> GoValue(elem, vs[i]))
    decreases elem, 2
  {
    hide *;
    forall i | 0 <= i < |vs|
      ensures Typed(Scan(elem).val, vs[i]) <==> GoValue(elem, vs[i])
    {
      ValuesExactly(elem, vs[i]);
    }
  }

  lemma {:induction false} StructValues(fields: seq<Field>, v: Value)
    requires Modelled(TStruct(fields)) && Scan(TStruct(fields)).Good?
    ensures Typed(Scan(TStruct(fields)).val, v) <==> GoValue(TStruct(fields), v)
    decreases fields, 1
  {
    StructParts(fields);
    hide Scan, ScanArms, ScanFields;
    if HasTagged(fields) {
      if v.VSlots? {
        ArmValues(fields, {}, v.slots);
      }
    } else if v.VSeq? {
      PlainValues(fields, v.vs);
    }
  }

  // The head of a struct's fields.
  lemma StructCons(c: Codec, cs: seq<Codec>, vs: seq<Value>)
    ensures Typed(Struct([c] + cs), VSeq(vs)) <==>
      vs != [] && Typed(c, vs[0]) && Typed(Struct(cs), VSeq(vs[1..]))
  {
    hide Typed;
    var all := [c] + cs;
    AllFields(all, vs);
    assert forall i :: 0 <= i < |cs| ==> all[i + 1] == cs[i];
    if vs != [] {
      AllFields(cs, vs[1..]);
      assert forall i :: 0 <= i < |vs| - 1 ==> vs[i + 1] == vs[1..][i];
      assert forall i :: 1 <= i < |all| && i < |vs| ==> all[i] == cs[i - 1] && vs[i] == vs[1..][i - 1];
    }
  }

  lemma AllFields(cs: seq<Codec>, vs: seq<Value>)
    ensures Typed(Struct(cs), VSeq(vs)) <==>
      |vs| == |cs| && forall i :: 0 <= i < |cs| ==> Typed(cs[i], vs[i])
  {
  }

  lemma {:induction false} PlainValues(fields: seq<Field>, vs: seq<Value>)
    requires ModelledFields(fields) && ScanFields(fields).Good?
    ensures Typed(Struct(ScanFields(fields).val), VSeq(vs)) <==> FieldValues(fields, vs)
    decreases fields, 0
  {
    hide Scan, GoValue, Typed, ModelledFields;
    if fields == [] {
      AllFields([], vs);
    } else {
      FieldsTail(fields);
      if fields[0].Skipped() {
        PlainValues(fields[1..], vs);
      } else {
        StructCons(Scan(fields[0].typ).val, ScanFields(fields[1..]).val, vs);
        if vs != [] {
          ValuesExactly(fields[0].typ, vs[0]);
          PlainValues(fields[1..], vs[1..]);
        }
      }
    }
  }

  /** A slot that is nil, or set to a value of its arm whose message fits an `int`. */
  predicate SlotTyped(a: Arm, s: Value) {
    s.VNil? || (s.VPtr? && Typed(a.codec, s.v) && |Enc(a.codec, s.v)| <= MAX_INT)
  }

  lemma AllSlots(arms: seq<Arm>, slots: seq<Value>)
    ensures Typed(Union(arms), VSlots(slots)) <==>
      |slots| == |arms| && forall i :: 0 <= i < |arms| ==> SlotTyped(arms[i], slots[i])
  {
  }

  lemma SlotsCons(a: Arm, arms: seq<Arm>, slots: seq<Value>)
    ensures Typed(Union([a] + arms), VSlots(slots)) <==>
      slots != [] && SlotTyped(a, slots[0]) && Typed(Union(arms), VSlots(slots[1..]))
  {
    hide Typed, SlotTyped;
    var all := [a] + arms;
    AllSlots(all, slots);
    assert forall i :: 0 <= i < |arms| ==> all[i + 1] == arms[i];
    if slots != [] {
      AllSlots(arms, slots[1..]);
      assert forall i :: 0 <= i < |slots| - 1 ==> slots[i + 1] == slots[1..][i];
      assert forall i :: 1 <= i < |all| && i < |slots| ==> all[i] == arms[i - 1] && slots[i] == slots[1..][i - 1];
    }
  }

  lemma {:induction false} ArmValues(fields: seq<Field>, seen: set<nat>, slots: seq<Value>)
    requires ModelledFields(fields) && OnlyArms(fields) && ScanArms(fields, seen).Good?
    ensures Typed(Union(ScanArms(fields, seen).val), VSlots(slots)) <==>
      FieldValues(fields, slots) && BodiesFit(fields, slots)
    decreases fields, 0
  {
    hide Scan, ScanArms, Typed, GoValue, Written, ModelledFields, OnlyArms, ArmTag, SlotTyped;
    if fields == [] {
      AllSlots([], slots);
      NoArmWritten(seen);
    } else {
      FieldsTail(fields);
      ArmsTail(fields);
      ArmsCons(fields, seen);
      if fields[0].Skipped() {
        ArmValues(fields[1..], seen, slots);
      } else {
        FirstArm(fields);
        var tag := ArmTag(fields[0].tag);
        var a := Arm(tag, Scan(fields[0].typ.elem).val);
        SlotsCons(a, ScanArms(fields[1..], seen + {tag}).val, slots);
        if slots != [] {
          SlotValue(fields[0], a, slots[0]);
          ArmValues(fields[1..], seen + {tag}, slots[1..]);
        }
      }
    }
  }

  lemma {:induction false} SlotValue(f: Field, a: Arm, s: Value)
    requires f.typ.TPtr? && Modelled(f.typ) && Scan(f.typ.elem).Good? && a.codec == Scan(f.typ.elem).val
    ensures SlotTyped(a, s) <==>
      GoValue(f.typ, s) && forall b: bytes :: s.VPtr? && Written(f.typ.elem, s.v, b) ==> |b| <= 0x7FFF_FFFF_FFFF_FFFF
    decreases f, 0
  {
    hide Scan, Typed, Written, Enc;
    if s.VPtr? {
      var elem := f.typ.elem;
      ValuesExactly(elem, s.v);
      if GoValue(elem, s.v) {
        forall b: bytes
          ensures Written(elem, s.v, b) <==> b == Enc(a.codec, s.v)
        {
          WrittenExactly(elem, s.v, b);
        }
        assert Written(elem, s.v, Enc(a.codec, s.v));
      }
    }
  }

  lemma {:induction false} EntryValues(t: Type, es: seq<Entry>)
    requires t.TMap? && Modelled(t) && Scan(t.key).Good? && Scan(t.val).Good?
    ensures forall i :: 0 <= i < |es| ==> (Typed(Scan(t.key).val, es[i].key) <==> GoValue(t.key, es[i].key))
    ensures forall i :: 0 <= i < |es| ==> (Typed(Scan(t.val).val, es[i].val) <==> GoValue(t.val, es[i].val))
    decreases t, 0
  {
    MapModelled(t);
    hide *;
    forall i | 0 <= i < |es|
      ensures Typed(Scan(t.key).val, es[i].key) <==> GoValue(t.key, es[i].key)
      ensures Typed(Scan(t.val).val, es[i].val) <==> GoValue(t.val, es[i].val)
    {
      ValuesExactly(t.key, es[i].key);
      ValuesExactly(t.val, es[i].val);
    }
  }

  // ---------------------------------------------------------------- values that can be sent

  /** The encoder of the scanned tree refuses exactly what the type refuses. */
  lemma {:induction false} SendsExactly(t: Type, v: Value)
    requires Modelled(t) && Scan(t).Good? && GoValue(t, v)
    ensures Encodable(Scan(t).val, v) <==> Sends(t, v)
    decreases t, 1
  {
    match t
    case TPrim(_, _) =>
    case TPtr(elem) =>
      PointerParts(t);
      if v.VPtr? {
        SendsExactly(elem, v.v);
      }
    case TArray(_, elem) =>
      ArrayParts(t);
      ManySend(elem, v.vs);
    case TSlice(elem, _) =>
      SliceParts(t);
      if v.VSeq? {
        ManySend(elem, v.vs);
      }
    case TStruct(fields) => StructSends(fields, v);
    case TMap(_, _, _) =>
      MapParts(t);
      EntriesSend(t, v.es);
    case TOther =>
  }

  lemma {:induction false} ManySend(elem: Type, vs: seq<Value>)
    requires Modelled(elem) && Scan(elem).Good? && forall i :: 0 <= i < |vs| ==> GoValue(elem, vs[i])
    ensures forall i :: 0 <= i < |vs| ==> (Encodable(Scan(elem).val, vs[i]) <==> Sends(elem, vs[i]))
    decreases elem, 2
  {
    hide *;
    forall i | 0 <= i < |vs|
      ensures Encodable(Scan(elem).val, vs[i]) <==> Sends(elem, vs[i])
    {
      SendsExactly(elem, vs[i]);
    }
  }

  lemma {:induction false} StructSends(fields: seq<Field>, v: Value)
    requires Modelled(TStruct(fields)) && Scan(TStruct(fields)).Good? && GoValue(TStruct(fields), v)
    ensures Encodable(Scan(TStruct(fields)).val, v) <==> Sends(TStruct(fields), v)
    decreases fields, 1
  {
    StructParts(fields);
    hide Scan, ScanArms, ScanFields;
    if HasTagged(fields) {
      ArmsSend(fields, {}, v.slots);
      OneSet(fields, v.slots);
      AllSlotsSend(ScanArms(fields, {}).val, v.slots);
    } else {
      PlainSends(fields, v.vs);
    }
  }

  lemma {:induction false} OneSet(fields: seq<Field>, slots: seq<Value>)
    requires OnlyArms(fields) && FieldValues(fields, slots)
    ensures forall i :: 0 <= i < |slots| ==> slots[i].VNil? || slots[i].VPtr?
    decreases fields, 0
  {
    hide OnlyArms;
    if fields != [] {
      ArmsTail(fields);
      if fields[0].Skipped() {
        OneSet(fields[1..], slots);
      } else {
        FirstArm(fields);
        OneSet(fields[1..], slots[1..]);
        assert forall i :: 1 <= i < |slots| ==> slots[i] == slots[1..][i - 1];
      }
    }
  }

  lemma AllFieldsEncode(cs: seq<Codec>, vs: seq<Value>)
    requires |vs| == |cs|
    ensures Encodable(Struct(cs), VSeq(vs)) <==> forall i :: 0 <= i < |cs| ==> Encodable(cs[i], vs[i])
  {
  }

  lemma EncodeCons(c: Codec, cs: seq<Codec>, vs: seq<Value>)
    requires |vs| == |cs| + 1
    ensures Encodable(Struct([c] + cs), VSeq(vs)) <==> Encodable(c, vs[0]) && Encodable(Struct(cs), VSeq(vs[1..]))
  {
    hide Encodable;
    var all := [c] + cs;
    AllFieldsEncode(cs, vs[1..]);
    AllFieldsEncode(all, vs);
    assert forall i :: 0 <= i < |cs| ==> all[i + 1] == cs[i] && vs[i + 1] == vs[1..][i];
    assert forall i :: 1 <= i < |all| ==> all[i] == cs[i - 1] && vs[i] == vs[1..][i - 1];
  }

  lemma {:induction false} PlainSends(fields: seq<Field>, vs: seq<Value>)
    requires ModelledFields(fields) && ScanFields(fields).Good? && FieldValues(fields, vs)
    ensures |vs| == |ScanFields(fields).val|
    ensures Encodable(Struct(ScanFields(fields).val), VSeq(vs)) <==> FieldsSend(fields, vs)
    decreases fields, 0
  {
    hide Scan, GoValue, Encodable, Sends, ModelledFields;
    if fields == [] {
      AllFieldsEncode([], []);
    } else {
      FieldsTail(fields);
      if fields[0].Skipped() {
        PlainSends(fields[1..], vs);
      } else {
        SendsExactly(fields[0].typ, vs[0]);
        PlainSends(fields[1..], vs[1..]);
        EncodeCons(Scan(fields[0].typ).val, ScanFields(fields[1..]).val, vs);
      }
    }
  }

  /** Every arm that is set can be encoded. */
  predicate SlotsEncode(arms: seq<Arm>, slots: seq<Value>)
    requires |slots| == |arms|
  {
    forall i :: 0 <= i < |arms| && slots[i].VPtr? ==> Encodable(arms[i].codec, slots[i].v)
  }

  lemma AllSlotsSend(arms: seq<Arm>, slots: seq<Value>)
    requires |slots| == |arms|
    ensures Encodable(Union(arms), VSlots(slots)) <==> AtMostOneSet(slots) && SlotsEncode(arms, slots)
  {
  }

  lemma SlotsEncodeCons(a: Arm, arms: seq<Arm>, slots: seq<Value>)
    requires |slots| == |arms| + 1
    ensures SlotsEncode([a] + arms, slots) <==>
      (slots[0].VPtr? ==> Encodable(a.codec, slots[0].v)) && SlotsEncode(arms, slots[1..])
  {
    hide Encodable;
    var all := [a] + arms;
    assert forall i :: 0 <= i < |arms| ==> all[i + 1] == arms[i] && slots[i + 1] == slots[1..][i];
    assert forall i :: 1 <= i < |all| ==> all[i] == arms[i - 1] && slots[i] == slots[1..][i - 1];
  }

  lemma NoSlots(arms: seq<Arm>)
    requires arms == []
    ensures SlotsEncode(arms, [])
  {
  }

  lemma {:induction false} ArmsSend(fields: seq<Field>, seen: set<nat>, slots: seq<Value>)
    requires ModelledFields(fields) && OnlyArms(fields) && ScanArms(fields, seen).Good? && FieldValues(fields, slots)
    ensures |slots| == |ScanArms(fields, seen).val|
    ensures SlotsEncode(ScanArms(fields, seen).val, slots) <==> FieldsSend(fields, slots)
    decreases fields, 0
  {
    hide Scan, ScanArms, Encodable, ModelledFields, OnlyArms, ArmTag, SlotsEncode;
    if fields == [] {
      NoArmWritten(seen);
      NoSlots([]);
    } else {
      FieldsTail(fields);
      ArmsTail(fields);
      ArmsCons(fields, seen);
      if fields[0].Skipped() {
        ArmsSend(fields[1..], seen, slots);
      } else {
        FirstArm(fields);
        var tag := ArmTag(fields[0].tag);
        var a := Arm(tag, Scan(fields[0].typ.elem).val);
        ArmsSend(fields[1..], seen + {tag}, slots[1..]);
        SlotsEncodeCons(a, ScanArms(fields[1..], seen + {tag}).val, slots);
        if slots[0].VPtr? {
          SendsExactly(fields[0].typ.elem, slots[0].v);
        }
      }
    }
  }

  lemma {:induction false} EntriesSend(t: Type, es: seq<Entry>)
    requires t.TMap? && Modelled(t) && Scan(t.key).Good? && Scan(t.val).Good?
    requires forall i :: 0 <= i < |es| ==> GoValue(t.key, es[i].key) && GoValue(t.val, es[i].val)
    ensures forall i :: 0 <= i < |es| ==> (Encodable(Scan(t.key).val, es[i].key) <==> Sends(t.key, es[i].key))
    ensures forall i :: 0 <= i < |es| ==> (Encodable(Scan(t.val).val, es[i].val) <==> Sends(t.val, es[i].val))
    ensures Scan(t.key).val == Prim(KString) <==> t.key.TPrim? && t.key.kind.KString?
    decreases t, 0
  {
    MapModelled(t);
    if t.key.TPrim? {
      assert Scan(t.key).val == Prim(t.key.kind);
    } else {
      OnlyPrims(t.key);
    }
    hide *;
    forall i | 0 <= i < |es|
      ensures Encodable(Scan(t.key).val, es[i].key) <==> Sends(t.key, es[i].key)
      ensures Encodable(Scan(t.val).val, es[i].val) <==> Sends(t.val, es[i].val)
    {
      SendsExactly(t.key, es[i].key);
      SendsExactly(t.val, es[i].val);
    }
  }
}
