/**
 What the scanner builds for a Go type has the type's own values, refuses what the type refuses, and writes the
 type's own messages.
 */
module GoWrites {
  import opened Wire
  import opened Varint
  import opened Codec
  import opened Scanner
  import opened GoFormat
  import opened GoLeaves

  // ---------------------------------------------------------------- the parts of a scanned tree

  /** Every type a field with wire data has is modelled. */
  predicate ModelledFields(fields: seq<Field>) {
    forall i :: 0 <= i < |fields| && !fields[i].Skipped() ==> Modelled(fields[i].typ)
  }

  lemma FieldsTail(fields: seq<Field>)
    requires ModelledFields(fields) && fields != []
    ensures ModelledFields(fields[1..])
    ensures !fields[0].Skipped() ==> Modelled(fields[0].typ)
  {
    hide Modelled;
    assert forall i :: 0 <= i < |fields| - 1 ==> fields[1..][i] == fields[i + 1];
  }

  lemma SliceParts(t: Type)
    requires t.TSlice? && Modelled(t) && Scan(t).Good?
    ensures Scan(t.elem).Good?
    ensures IsByte(t.elem) ==> Scan(t).val == Bytes
    ensures IsBool(t.elem) ==> Scan(t).val == Bools
    ensures !IsByte(t.elem) && !IsBool(t.elem) ==>
      var c := Scan(t).val; c.Seq? && !c.isArray && c.elem == Scan(t.elem).val
  {
  }

  lemma ArrayParts(t: Type)
    requires t.TArray? && Scan(t).Good?
    ensures Scan(t.elem).Good?
    ensures var c := Scan(t).val; c.Seq? && c.isArray && c.length == t.length && c.elem == Scan(t.elem).val
  {
  }

  lemma MapParts(t: Type)
    requires t.TMap? && Scan(t).Good?
    ensures Scan(t.key).Good? && Scan(t.val).Good?
    ensures var c := Scan(t).val; c.Map? && c.key == Scan(t.key).val && c.val == Scan(t.val).val
  {
    assert Scan(BYTES).Good? && Scan(BYTES).val == Bytes;
  }

  /** The fields with wire data are all arms: pointers with a number. */
  predicate OnlyArms(fields: seq<Field>) {
    forall i :: 0 <= i < |fields| && !fields[i].Skipped() ==> fields[i].Tagged() && fields[i].typ.TPtr?
  }

  predicate NoArms(fields: seq<Field>) {
    forall i :: 0 <= i < |fields| ==> !fields[i].Tagged()
  }

  lemma StructParts(fields: seq<Field>)
    requires Scan(TStruct(fields)).Good?
    ensures ScanArms(fields, {}).Good?
    ensures HasTagged(fields) ==> OnlyArms(fields) && Scan(TStruct(fields)).val == Union(ScanArms(fields, {}).val)
    ensures !HasTagged(fields) ==>
      NoArms(fields) && ScanFields(fields).Good? && Scan(TStruct(fields)).val == Struct(ScanFields(fields).val)
  {
    hide Scannable, ArmTag, ScanArms, ScanFields;
    StructCases(fields);
    AcceptedArms(fields, {});
    if HasTagged(fields) {
      forall i | 0 <= i < |fields| && !fields[i].Skipped()
        ensures fields[i].Tagged() && fields[i].typ.TPtr?
      {
        assert !fields[i].Plain();
      }
    }
  }

  lemma ArmsTail(fields: seq<Field>)
    requires OnlyArms(fields) && fields != []
    ensures OnlyArms(fields[1..])
  {
    assert forall i :: 0 <= i < |fields| - 1 ==> fields[1..][i] == fields[i + 1];
  }

  // One field of the arm scanner.
  lemma ArmsCons(fields: seq<Field>, seen: set<nat>)
    requires fields != [] && ScanArms(fields, seen).Good? && OnlyArms(fields)
    ensures var f := fields[0];
      if f.Skipped() then ScanArms(fields, seen) == ScanArms(fields[1..], seen)
      else
        var tag := ArmTag(f.tag);
        && tag > 0 && tag !in seen && Scan(f.typ.elem).Good? && ScanArms(fields[1..], seen + {tag}).Good?
        && ScanArms(fields, seen).val == [Arm(tag, Scan(f.typ.elem).val)] + ScanArms(fields[1..], seen + {tag}).val
  {
    hide ArmTag, Scan;
  }

  // ---------------------------------------------------------------- messages written

  // The first part of a concatenation decides the rest.
  lemma Cut(x: bytes, y: bytes, b: bytes)
    ensures b == x + y <==> |x| <= |b| && b[..|x|] == x && b[|x|..] == y
  {
    if |x| <= |b| {
      assert b == b[..|x|] + b[|x|..];
    }
  }

  /** The codec tree a type is scanned into writes exactly the type's messages. */
  lemma {:induction false} WrittenExactly(t: Type, v: Value, b: bytes)
    requires Modelled(t) && Scan(t).Good? && GoValue(t, v)
    ensures Written(t, v, b) <==> b == Enc(Scan(t).val, v)
    decreases t, 1
  {
    match t
    case TPrim(k, _) => PrimWrittenExactly(k, v, b);
    case TPtr(elem) => PointerWritten(t, v, b);
    case TArray(_, elem) =>
      ArrayParts(t);
      ManyWrittenExactly(elem, v.vs, b);
    case TSlice(elem, _) => SliceWritten(t, v, b);
    case TStruct(fields) =>
      StructParts(fields);
      if HasTagged(fields) {
        ArmWrittenExactly(fields, {}, v.slots, b);
      } else {
        FieldsWrittenExactly(fields, v.vs, b);
      }
    case TMap(_, _, _) => MapWritten(t, v, b);
    case TOther =>
  }

  lemma {:induction false} PointerWritten(t: Type, v: Value, b: bytes)
    requires t.TPtr? && Modelled(t) && Scan(t).Good? && GoValue(t, v)
    ensures Written(t, v, b) <==> b == Enc(Scan(t).val, v)
    decreases t, 0
  {
    hide Scan;
    assert Scan(t.elem).Good? && Scan(t).val == Pointer(Scan(t.elem).val) by { PointerParts(t); }
    if v.VPtr? && |b| > 0 {
      WrittenExactly(t.elem, v.v, b[1..]);
      assert b == [b[0]] + b[1..];
    }
  }

  lemma PointerParts(t: Type)
    requires t.TPtr? && Scan(t).Good?
    ensures Scan(t.elem).Good? && Scan(t).val == Pointer(Scan(t.elem).val)
  {
  }

  lemma {:induction false} SliceWritten(t: Type, v: Value, b: bytes)
    requires t.TSlice? && Modelled(t) && Scan(t).Good? && GoValue(t, v)
    ensures Written(t, v, b) <==> b == Enc(Scan(t).val, v)
    decreases t, 0
  {
    SliceParts(t);
    hide Scan, Texts, Spells;
    if IsByte(t.elem) || IsBool(t.elem) {
      TextsExactly(v.s, b);
    } else {
      var n, c := |v.vs|, Scan(t.elem).val;
      forall k | 0 <= k <= |b|
        ensures Spells(n, b[..k]) && ManyWritten(t.elem, v.vs, b[k..]) <==>
          b[..k] == Uvarint(n) && b[k..] == EncMany(c, v.vs)
      {
        SpellsExactly(n, b[..k]);
        ManyWrittenExactly(t.elem, v.vs, b[k..]);
      }
      Cut(Uvarint(n), EncMany(c, v.vs), b);
    }
  }

  lemma {:induction false} ManyWrittenExactly(elem: Type, vs: seq<Value>, b: bytes)
    requires Modelled(elem) && Scan(elem).Good? && forall i :: 0 <= i < |vs| ==> GoValue(elem, vs[i])
    ensures ManyWritten(elem, vs, b) <==> b == EncMany(Scan(elem).val, vs)
    decreases elem, 2, |vs|
  {
    hide Scan, GoValue, Written, Enc;
    if vs != [] {
      var c := Scan(elem).val;
      var x, y := Enc(c, vs[0]), EncMany(c, vs[1..]);
      forall k | 0 <= k <= |b|
        ensures Written(elem, vs[0], b[..k]) && ManyWritten(elem, vs[1..], b[k..]) <==> b[..k] == x && b[k..] == y
      {
        WrittenExactly(elem, vs[0], b[..k]);
        ManyWrittenExactly(elem, vs[1..], b[k..]);
      }
      Cut(x, y, b);
    }
  }

  lemma {:induction false} FieldsWrittenExactly(fields: seq<Field>, vs: seq<Value>, b: bytes)
    requires ModelledFields(fields) && ScanFields(fields).Good? && FieldValues(fields, vs)
    ensures |vs| == |ScanFields(fields).val|
    ensures FieldsWritten(fields, vs, b) <==> b == EncFields(ScanFields(fields).val, vs)
    decreases fields, 0
  {
    hide Scan, GoValue, Written, Enc, ModelledFields;
    if fields != [] {
      FieldsTail(fields);
      if fields[0].Skipped() {
        FieldsWrittenExactly(fields[1..], vs, b);
      } else {
        var c, cs := Scan(fields[0].typ).val, ScanFields(fields[1..]).val;
        assert ScanFields(fields).val == [c] + cs && ([c] + cs)[1..] == cs;
        var x, y := Enc(c, vs[0]), EncFields(cs, vs[1..]);
        FieldsWrittenExactly(fields[1..], vs[1..], []);
        forall k | 0 <= k <= |b|
          ensures Written(fields[0].typ, vs[0], b[..k]) && FieldsWritten(fields[1..], vs[1..], b[k..]) <==>
            b[..k] == x && b[k..] == y
        {
          WrittenExactly(fields[0].typ, vs[0], b[..k]);
          FieldsWrittenExactly(fields[1..], vs[1..], b[k..]);
        }
        Cut(x, y, b);
      }
    }
  }

  // The head of a union: its arm is the message, or the arm is among the others.
  lemma UnionCons(a: Arm, arms: seq<Arm>, s: Value, slots: seq<Value>)
    requires |slots| == |arms|
    ensures var c, ss := Union([a] + arms), [s] + slots;
      && |ss| == |c.arms|
      && EncUnion(c, ss) == if s.VPtr? then Uvarint(a.tag) + Blob(Enc(a.codec, s.v)) else EncUnion(Union(arms), slots)
  {
    hide Enc, Blob, Uvarint;
    var ss := [s] + slots;
    assert ss[1..] == slots && ss[0] == s;
    assert Selected(ss) ==
      if s.VPtr? then 0 else if Selected(slots) < 0 then -1 else Selected(slots) + 1;
  }

  lemma {:induction false} ArmWrittenExactly(fields: seq<Field>, seen: set<nat>, slots: seq<Value>, b: bytes)
    requires ModelledFields(fields) && OnlyArms(fields) && ScanArms(fields, seen).Good? && FieldValues(fields, slots)
    ensures |slots| == |ScanArms(fields, seen).val|
    ensures ArmWritten(fields, slots, b) <==> b == EncUnion(Union(ScanArms(fields, seen).val), slots)
    decreases fields, 0
  {
    hide Scan, ScanArms, Written, ModelledFields, OnlyArms, ArmTag, EncUnion;
    if fields == [] {
      NoArmWritten(seen);
    } else {
      FieldsTail(fields);
      ArmsTail(fields);
      ArmsCons(fields, seen);
      var f := fields[0];
      if f.Skipped() {
        ArmWrittenExactly(fields[1..], seen, slots, b);
      } else {
        assert f.Tagged() && f.typ.TPtr? by { FirstArm(fields); }
        var tag := ArmTag(f.tag);
        var arm, arms := Arm(tag, Scan(f.typ.elem).val), ScanArms(fields[1..], seen + {tag}).val;
        ArmWrittenExactly(fields[1..], seen + {tag}, slots[1..], b);
        UnionCons(arm, arms, slots[0], slots[1..]);
        assert [slots[0]] + slots[1..] == slots;
        if slots[0].VPtr? {
          BodyWritten(f, slots[0].v, b);
        }
      }
    }
  }

  lemma FirstArm(fields: seq<Field>)
    requires OnlyArms(fields) && fields != [] && !fields[0].Skipped()
    ensures fields[0].Tagged() && fields[0].typ.TPtr?
  {
  }

  lemma NoArmWritten(seen: set<nat>)
    ensures ScanArms([], seen) == Good([]) && EncUnion(Union([]), []) == [0, 0]
  {
  }

  lemma {:induction false} BodyWritten(f: Field, v: Value, b: bytes)
    requires f.Tagged() && f.typ.TPtr? && Modelled(f.typ) && Scan(f.typ.elem).Good? && GoValue(f.typ.elem, v)
    ensures
      (exists k, j | 0 <= k <= j <= |b| ::
         Spells(ArmTag(f.tag), b[..k]) && Spells(|b| - j, b[k..j]) && Written(f.typ.elem, v, b[j..])) <==>
      b == Uvarint(ArmTag(f.tag)) + Blob(Enc(Scan(f.typ.elem).val, v))
    decreases f, 0
  {
    hide Scan, Written, Spells, ArmTag, GoValue, Enc;
    var tag, x := ArmTag(f.tag), Enc(Scan(f.typ.elem).val, v);
    forall k, j | 0 <= k <= j <= |b|
      ensures Spells(tag, b[..k]) && Spells(|b| - j, b[k..j]) && Written(f.typ.elem, v, b[j..]) <==>
        b[..k] == Uvarint(tag) && b[k..j] == Uvarint(|x|) && b[j..] == x
    {
      SpellsExactly(tag, b[..k]);
      SpellsExactly(|b| - j, b[k..j]);
      WrittenExactly(f.typ.elem, v, b[j..]);
    }
    CutTwice(Uvarint(tag), Uvarint(|x|), x, b);
  }

  lemma CutTwice(x: bytes, y: bytes, z: bytes, b: bytes)
    ensures b == x + (y + z) <==>
      exists k, j | 0 <= k <= j <= |b| :: b[..k] == x && b[k..j] == y && b[j..] == z
    ensures b == x + (y + z) ==>
      && |x| + |y| <= |b| && b[..|x|] == x && b[|x|..|x| + |y|] == y && b[|x| + |y|..] == z
  {
    if b == x + (y + z) {
      assert b[..|x|] == x && b[|x|..|x| + |y|] == y && b[|x| + |y|..] == z;
    }
    forall k, j | 0 <= k <= j <= |b| && b[..k] == x && b[k..j] == y && b[j..] == z
      ensures b == x + (y + z)
    {
      assert b == b[..k] + (b[k..j] + b[j..]);
    }
  }

  lemma {:induction false} MapWritten(t: Type, v: Value, b: bytes)
    requires t.TMap? && Modelled(t) && Scan(t).Good? && GoValue(t, v)
    ensures Written(t, v, b) <==> b == Enc(Scan(t).val, v)
    decreases t, 0, |v.es| + 2
  {
    MapParts(t);
    var c := Scan(t).val;
    assert Enc(c, v) == Uvarint(|v.es|) + EncEntries(c, v.es);
    CountedEntries(t, c, v.es, b);
  }

  lemma {:induction false} CountedEntries(t: Type, c: Codec, es: seq<Entry>, b: bytes)
    requires t.TMap? && Modelled(t) && Scan(t) == Good(c) && c.Map? && Scan(t.key).Good? && Scan(t.val).Good?
    requires c.key == Scan(t.key).val && c.val == Scan(t.val).val
    requires forall i :: 0 <= i < |es| ==> GoValue(t.key, es[i].key) && GoValue(t.val, es[i].val)
    ensures (exists k | 0 <= k <= |b| :: Spells(|es|, b[..k]) && EntriesWritten(t, es, b[k..])) <==>
      b == Uvarint(|es|) + EncEntries(c, es)
    decreases t, 0, |es| + 1
  {
    hide *;
    forall k | 0 <= k <= |b|
      ensures Spells(|es|, b[..k]) && EntriesWritten(t, es, b[k..]) <==>
        b[..k] == Uvarint(|es|) && b[k..] == EncEntries(c, es)
    {
      SpellsExactly(|es|, b[..k]);
      EntriesWrittenExactly(t, es, b[k..]);
    }
    Cut(Uvarint(|es|), EncEntries(c, es), b);
  }

  lemma {:induction false} EntriesWrittenExactly(t: Type, es: seq<Entry>, b: bytes)
    requires t.TMap? && Modelled(t) && Scan(t).Good? && Scan(t).val.Map?
    requires Scan(t.key).Good? && Scan(t.val).Good?
    requires Scan(t).val.key == Scan(t.key).val && Scan(t).val.val == Scan(t.val).val
    requires forall i :: 0 <= i < |es| ==> GoValue(t.key, es[i].key) && GoValue(t.val, es[i].val)
    ensures EntriesWritten(t, es, b) <==> b == EncEntries(Scan(t).val, es)
    decreases t, 0, |es|
  {
    hide Scan, GoValue, Written, Enc, KeyWritten, EncKey, Modelled;
    if es != [] {
      assert Modelled(t.key) && Modelled(t.val) by { MapModelled(t); }
      var c := Scan(t).val;
      var x, y, z := EncKey(c.key, es[0].key), Enc(c.val, es[0].val), EncEntries(c, es[1..]);
      forall k, j | 0 <= k <= j <= |b|
        ensures
          && KeyWritten(t.key, es[0].key, b[..k]) && Written(t.val, es[0].val, b[k..j])
          && EntriesWritten(t, es[1..], b[j..])
          <==> b[..k] == x && b[k..j] == y && b[j..] == z
      {
        KeyPartWritten(t.key, es[0].key, b[..k]);
        WrittenExactly(t.val, es[0].val, b[k..j]);
        EntriesWrittenExactly(t, es[1..], b[j..]);
      }
      CutTwice(x, y, z, b);
      assert (x + y) + z == x + (y + z);
    }
  }

  lemma MapModelled(t: Type)
    requires t.TMap? && Modelled(t)
    ensures Modelled(t.key) && Modelled(t.val)
  {
  }

  lemma {:induction false} KeyPartWritten(t: Type, v: Value, b: bytes)
    requires Modelled(t) && Scan(t).Good? && GoValue(t, v)
    ensures KeyWritten(t, v, b) <==> b == EncKey(Scan(t).val, v)
    decreases t, 3
  {
    if t.TPrim? {
      KeyWrittenExactly(t, v, b);
    } else {
      OnlyPrims(t);
      WrittenExactly(t, v, b);
    }
  }
}
