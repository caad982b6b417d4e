/** What a scanned tree reads, and as which value, is what the type reads. */
module GoReads {
  import opened Wire
  import opened Varint
  import opened Codec
  import opened RoundTrip
  import opened Compatibility
  import opened Analysis
  import opened Scanner
  import opened GoFormat
  import opened GoLeaves
  import W = GoWrites

  // ---------------------------------------------------------------- messages read

  /**
   The codec tree a type is scanned into reads exactly the type's readable messages: each as the value the type
   says, whatever follows it.
   */
  lemma {:induction false} ReadsExactly(t: Type, v: Value, b: bytes, rest: bytes)
    requires Modelled(t) && Scan(t).Good?
    ensures Reads(t, v, b) <==> Dec(Scan(t).val, b + rest) == Ok(v, rest)
    decreases t, 1
  {
    match t
    case TPrim(k, _) => PrimReadsExactly(k, v, b, rest);
    case TPtr(_) => PointerReads(t, v, b, rest);
    case TArray(_, _) => ArrayReads(t, v, b, rest);
    case TSlice(_, _) => SliceReads(t, v, b, rest);
    case TStruct(fields) => StructReads(fields, v, b, rest);
    case TMap(_, _, _) => MapReads(t, v, b, rest);
    case TOther =>
  }

  lemma {:induction false} PointerReads(t: Type, v: Value, b: bytes, rest: bytes)
    requires t.TPtr? && Modelled(t) && Scan(t).Good?
    ensures Reads(t, v, b) <==> Dec(Scan(t).val, b + rest) == Ok(v, rest)
    decreases t, 0
  {
    W.PointerParts(t);
    hide Scan;
    var c := Scan(t.elem).val;
    if b != [] {
      assert (b + rest)[0] == b[0] && (b + rest)[1..] == b[1..] + rest;
      if v.VPtr? {
        ReadsExactly(t.elem, v.v, b[1..], rest);
      }
    } else {
      assert b + rest == rest;
      ScannedWellFormed(t);
      if Dec(Pointer(c), rest).Ok? {
        PointerAtLeast(Pointer(c), rest);
      }
    }
  }

  lemma {:induction false} ManyReadsExactly(elem: Type, vs: seq<Value>, b: bytes, rest: bytes)
    requires Modelled(elem) && Scan(elem).Good?
    ensures ManyRead(elem, vs, b) <==> DecMany(Scan(elem).val, |vs|, b + rest) == Ok(vs, rest)
    decreases elem, 2, |vs|, 1
  {
    hide Scan, Reads, Dec, Modelled;
    if vs == [] {
      NothingRead(b, rest);
    } else {
      if ManyRead(elem, vs, b) {
        ManyReadOn(elem, vs, b, rest);
      }
      if DecMany(Scan(elem).val, |vs|, b + rest) == Ok(vs, rest) {
        ManyReadBack(elem, Scan(elem).val, vs, b, rest);
      }
    }
  }

  lemma {:induction false} ManyReadOn(elem: Type, vs: seq<Value>, b: bytes, rest: bytes)
    requires Modelled(elem) && Scan(elem).Good? && vs != [] && ManyRead(elem, vs, b)
    ensures DecMany(Scan(elem).val, |vs|, b + rest) == Ok(vs, rest)
    decreases elem, 2, |vs|, 0
  {
    hide Scan, Reads, Dec, Modelled;
    var k :| 0 <= k <= |b| && Reads(elem, vs[0], b[..k]) && ManyRead(elem, vs[1..], b[k..]);
    hide ManyRead;
    Front(b, rest, k);
    ReadsExactly(elem, vs[0], b[..k], b[k..] + rest);
    ManyReadsExactly(elem, vs[1..], b[k..], rest);
    assert [vs[0]] + vs[1..] == vs;
  }

  lemma ManyStep(c: Codec, n: nat, b: bytes)
    requires n > 0
    ensures Dec(c, b).Fail? ==> DecMany(c, n, b) == Fail
    ensures Dec(c, b).Ok? ==>
      var d := Dec(c, b);
      var more := DecMany(c, n - 1, d.rest);
      DecMany(c, n, b) == if more.Fail? then Fail else Ok([d.val] + more.val, more.rest)
  {
    hide Dec;
  }

  lemma ManyJoin(elem: Type, vs: seq<Value>, b: bytes, k: nat)
    requires vs != [] && k <= |b| && Reads(elem, vs[0], b[..k]) && ManyRead(elem, vs[1..], b[k..])
    ensures ManyRead(elem, vs, b)
  {
    hide Reads;
  }

  lemma {:induction false} ManyReadBack(elem: Type, c: Codec, vs: seq<Value>, b: bytes, rest: bytes)
    requires Modelled(elem) && Scan(elem) == Good(c) && vs != []
    requires DecMany(c, |vs|, b + rest) == Ok(vs, rest)
    ensures ManyRead(elem, vs, b)
    decreases elem, 2, |vs|, 0
  {
    hide *;
    ScannedWellFormed(elem);
    ManyStep(c, |vs|, b + rest);
    var d := Dec(c, b + rest);
    Head(d.val, DecMany(c, |vs| - 1, d.rest).val, vs);
    DecAtLeast(c, b + rest);
    ManyAtLeast(c, |vs| - 1, d.rest);
    var k := Middle(b, rest, d.rest);
    ReadsExactly(elem, vs[0], b[..k], d.rest);
    ManyReadsExactly(elem, vs[1..], b[k..], rest);
    ManyJoin(elem, vs, b, k);
  }

  lemma {:induction false} ArrayReads(t: Type, v: Value, b: bytes, rest: bytes)
    requires t.TArray? && Modelled(t) && Scan(t).Good?
    ensures Reads(t, v, b) <==> Dec(Scan(t).val, b + rest) == Ok(v, rest)
    decreases t, 0
  {
    W.ArrayParts(t);
    hide Scan, DecMany, ManyRead;
    if v.VSeq? {
      ManyReadsExactly(t.elem, v.vs, b, rest);
    }
    if DecMany(Scan(t.elem).val, t.length, b + rest).Ok? {
      ManyCount(Scan(t.elem).val, t.length, b + rest);
    }
  }

  lemma {:induction false} ManyCount(c: Codec, n: nat, b: bytes)
    requires DecMany(c, n, b).Ok?
    ensures |DecMany(c, n, b).val| == n
    decreases n
  {
    hide Dec;
    if n > 0 {
      ManyCount(c, n - 1, Dec(c, b).rest);
    }
  }

  lemma {:induction false} SliceReads(t: Type, v: Value, b: bytes, rest: bytes)
    requires t.TSlice? && Modelled(t) && Scan(t).Good?
    ensures Reads(t, v, b) <==> Dec(Scan(t).val, b + rest) == Ok(v, rest)
    decreases t, 0
  {
    W.SliceParts(t);
    hide Scan, TextReads, ReadBlob, DecMany, ManyRead;
    if IsByte(t.elem) || IsBool(t.elem) {
      if v.VStr? {
        TextReadsExactly(v.s, b, rest);
      }
    } else {
      var c := Scan(t.elem).val;
      ListReads(t.elem, v, b, rest);
      assert MAX_LEN == 0x3FFF_FFFF_FFFF_FFFF;
    }
  }

  lemma {:induction false} ListReads(elem: Type, v: Value, b: bytes, rest: bytes)
    requires Modelled(elem) && Scan(elem).Good?
    ensures
      && v.VSeq? && |v.vs| <= MAX_LEN
      && (exists k | 0 <= k <= |b| :: Counts(|v.vs|, b[..k]) && ManyRead(elem, v.vs, b[k..]))
      <==>
      var n := ReadCount(false, 0, b + rest);
      n.Ok? && v.VSeq? && DecMany(Scan(elem).val, n.val, n.rest) == Ok(v.vs, rest)
    decreases elem, 3, 1
  {
    hide Scan, DecMany, ManyRead, Counts, ReadUvarint, Modelled;
    if v.VSeq? {
      var c, m := Scan(elem).val, |v.vs|;
      var u := ReadCount(false, 0, b + rest);
      if k :| 0 <= k <= |b| && m <= MAX_LEN && Counts(m, b[..k]) && ManyRead(elem, v.vs, b[k..]) {
        Front(b, rest, k);
        CountsExactly(m, b[..k], b[k..] + rest);
        ManyReadsExactly(elem, v.vs, b[k..], rest);
      }
      if u.Ok? && DecMany(c, u.val, u.rest) == Ok(v.vs, rest) {
        var k := ListReadBack(elem, c, v.vs, b, rest, u);
      }
    }
  }

  lemma {:induction false} ListReadBack(
    elem: Type, c: Codec, vs: seq<Value>, b: bytes, rest: bytes, u: Parsed<nat>) returns (k: nat)
    requires Modelled(elem) && Scan(elem) == Good(c)
    requires u == ReadCount(false, 0, b + rest) && u.Ok? && DecMany(c, u.val, u.rest) == Ok(vs, rest)
    ensures k <= |b| && |vs| <= MAX_LEN && Counts(|vs|, b[..k]) && ManyRead(elem, vs, b[k..])
    decreases elem, 3, 0
  {
    assert ReadUvarint(b + rest) == u && u.val <= MAX_LEN;
    hide *;
    ScannedWellFormed(elem);
    ManyCount(c, u.val, u.rest);
    ReadUvarintShape(b + rest);
    ManyAtLeast(c, u.val, u.rest);
    k := Middle(b, rest, u.rest);
    CountsExactly(|vs|, b[..k], u.rest);
    ManyReadsExactly(elem, vs, b[k..], rest);
  }

  lemma {:induction false} StructReads(fields: seq<Field>, v: Value, b: bytes, rest: bytes)
    requires Modelled(TStruct(fields)) && Scan(TStruct(fields)).Good?
    ensures Reads(TStruct(fields), v, b) <==> Dec(Scan(TStruct(fields)).val, b + rest) == Ok(v, rest)
    decreases fields, 2
  {
    W.StructParts(fields);
    hide Scan, ScanArms, ScanFields;
    if HasTagged(fields) {
      UnionReads(fields, v, b, rest);
    } else if v.VSeq? {
      FieldsReadExactly(fields, v.vs, b, rest);
    }
  }

  lemma {:induction false} FieldsReadExactly(fields: seq<Field>, vs: seq<Value>, b: bytes, rest: bytes)
    requires W.ModelledFields(fields) && ScanFields(fields).Good?
    ensures FieldsRead(fields, vs, b) <==> DecFields(ScanFields(fields).val, b + rest) == Ok(vs, rest)
    decreases fields, 0, 1
  {
    hide Scan, Reads, Dec, W.ModelledFields;
    if fields == [] {
      NothingRead(b, rest);
    } else if fields[0].Skipped() {
      W.FieldsTail(fields);
      FieldsReadExactly(fields[1..], vs, b, rest);
    } else {
      if FieldsRead(fields, vs, b) {
        FieldsReadOn(fields, vs, b, rest);
      }
      if DecFields(ScanFields(fields).val, b + rest) == Ok(vs, rest) {
        FieldsReadBack(fields, vs, b, rest);
      }
    }
  }

  lemma ScanHead(fields: seq<Field>)
    requires fields != [] && !fields[0].Skipped() && ScanFields(fields).Good?
    ensures Scan(fields[0].typ).Good? && ScanFields(fields[1..]).Good?
    ensures ScanFields(fields).val != []
    ensures ScanFields(fields).val[0] == Scan(fields[0].typ).val
    ensures ScanFields(fields).val[1..] == ScanFields(fields[1..]).val
  {
    hide Scan;
  }

  lemma {:induction false} FieldsReadOn(fields: seq<Field>, vs: seq<Value>, b: bytes, rest: bytes)
    requires W.ModelledFields(fields) && ScanFields(fields).Good?
    requires fields != [] && !fields[0].Skipped() && FieldsRead(fields, vs, b)
    ensures DecFields(ScanFields(fields).val, b + rest) == Ok(vs, rest)
    decreases fields, 0, 0
  {
    W.FieldsTail(fields);
    ScanHead(fields);
    hide Scan, ScanFields, Reads, Dec, W.ModelledFields;
    var t, tail := fields[0].typ, fields[1..];
    var k :| 0 <= k <= |b| && Reads(t, vs[0], b[..k]) && FieldsRead(tail, vs[1..], b[k..]);
    hide FieldsRead;
    Front(b, rest, k);
    ReadsExactly(t, vs[0], b[..k], b[k..] + rest);
    FieldsReadExactly(tail, vs[1..], b[k..], rest);
    assert [vs[0]] + vs[1..] == vs;
  }

  lemma {:induction false} FieldsReadBack(fields: seq<Field>, vs: seq<Value>, b: bytes, rest: bytes)
    requires W.ModelledFields(fields) && ScanFields(fields).Good? && fields != [] && !fields[0].Skipped()
    requires DecFields(ScanFields(fields).val, b + rest) == Ok(vs, rest)
    ensures FieldsRead(fields, vs, b)
    decreases fields, 0, 0
  {
    W.FieldsTail(fields);
    ScanHead(fields);
    var t, tail := fields[0].typ, fields[1..];
    ScannedWellFormed(t);
    FieldsScanWell(tail);
    hide Scan, ScanFields, Reads, Dec, WF, W.ModelledFields;
    var c, cs := Scan(t).val, ScanFields(tail).val;
    var d := Dec(c, b + rest);
    Head(d.val, DecFields(cs, d.rest).val, vs);
    hide DecFields;
    DecAtLeast(c, b + rest);
    FieldsAtLeast(cs, d.rest);
    var k := Middle(b, rest, d.rest);
    ReadsExactly(t, vs[0], b[..k], d.rest);
    FieldsReadExactly(tail, vs[1..], b[k..], rest);
  }

  lemma FieldsScanWell(fields: seq<Field>)
    requires W.ModelledFields(fields) && ScanFields(fields).Good?
    ensures forall i :: 0 <= i < |ScanFields(fields).val| ==> WF(ScanFields(fields).val[i])
  {
    FieldsWellFormed(fields);
  }

  // ---------------------------------------------------------------- unions

  /** What a tag and a body make of the arms. */
  function ArmSlots(arms: seq<Arm>, tag: nat, body: bytes): (r: Parsed<seq<Value>>)
    ensures r.Ok? ==> |r.val| == |arms| && r.rest == []
  {
    var i := Lookup(arms, tag);
    if i < 0 then Ok(Nils(|arms|), [])
    else
      var (v, _) :- Dec(arms[i].codec, body);
      Ok(Nils(|arms|)[i := VPtr(v)], [])
  }

  lemma SlotsCons(a: Arm, arms: seq<Arm>, tag: nat, body: bytes)
    requires forall i :: 0 <= i < |arms| ==> arms[i].tag != a.tag
    ensures var rest := ArmSlots(arms, tag, body);
      ArmSlots([a] + arms, tag, body) ==
        if a.tag == tag then
          (if Dec(a.codec, body).Ok? then Ok([VPtr(Dec(a.codec, body).val)] + Nils(|arms|), []) else Fail)
        else if rest.Ok? then Ok([VNil] + rest.val, []) else Fail
    ensures a.tag == tag ==> ArmSlots(arms, tag, body) == Ok(Nils(|arms|), [])
  {
    hide Dec, Lookup;
    var all, i := [a] + arms, Lookup(arms, tag);
    var j := if a.tag == tag then 0 else if i < 0 then -1 else i + 1;
    assert forall k :: 1 <= k < |all| ==> all[k] == arms[k - 1];
    LookupIn(all, tag, arms, a);
    assert Nils(|all|) == [VNil] + Nils(|arms|);
    if a.tag == tag && Dec(a.codec, body).Ok? {
      var x := VPtr(Dec(a.codec, body).val);
      assert Nils(|all|)[0 := x] == [x] + Nils(|arms|);
    } else if i >= 0 && Dec(arms[i].codec, body).Ok? {
      var x := VPtr(Dec(arms[i].codec, body).val);
      assert Nils(|all|)[i + 1 := x] == [VNil] + Nils(|arms|)[i := x];
    }
  }

  lemma {:induction false} LookupIn(all: seq<Arm>, tag: nat, arms: seq<Arm>, a: Arm)
    requires all == [a] + arms && forall i :: 0 <= i < |arms| ==> arms[i].tag != a.tag
    ensures Lookup(all, tag) == if a.tag == tag then 0 else if Lookup(arms, tag) < 0 then -1 else Lookup(arms, tag) + 1
    decreases |arms|
  {
    var last := |all| - 1;
    if arms == [] {
      assert all[..last] == [];
    } else {
      assert all[last] == arms[|arms| - 1];
      assert all[..last] == [a] + arms[..|arms| - 1];
      LookupIn(all[..last], tag, arms[..|arms| - 1], a);
    }
  }

  lemma {:induction false} ArmsReadExactly(fields: seq<Field>, seen: set<nat>, tag: nat, slots: seq<Value>, body: bytes)
    requires W.ModelledFields(fields) && W.OnlyArms(fields) && ScanArms(fields, seen).Good?
    ensures ArmsRead(fields, tag, slots, body) <==> ArmSlots(ScanArms(fields, seen).val, tag, body) == Ok(slots, [])
    decreases fields, 0, 0
  {
    hide Scan, ScanArms, Reads, Dec, W.ModelledFields, W.OnlyArms, ArmTag, ArmSlots, Lookup;
    if fields == [] {
      NoSlots(seen, tag, body);
    } else {
      W.FieldsTail(fields);
      W.ArmsTail(fields);
      W.ArmsCons(fields, seen);
      var f := fields[0];
      if f.Skipped() {
        ArmsReadExactly(fields[1..], seen, tag, slots, body);
      } else {
        W.FirstArm(fields);
        var id := ArmTag(f.tag);
        var a, arms := Arm(id, Scan(f.typ.elem).val), ScanArms(fields[1..], seen + {id}).val;
        OtherTags(fields[1..], seen + {id});
        SlotsCons(a, arms, tag, body);
        if slots != [] {
          ArmsReadExactly(fields[1..], seen + {id}, tag, slots[1..], body);
          ArmReads(f, slots[0], body);
          assert slots == [slots[0]] + slots[1..];
          var d, more := Dec(a.codec, body), ArmSlots(arms, tag, body);
          if id == tag {
            ConsEqual(slots[0], slots[1..], VPtr(if d.Ok? then d.val else VNil), Nils(|arms|));
          } else {
            ConsEqual(slots[0], slots[1..], VNil, if more.Ok? then more.val else []);
          }
        }
      }
    }
  }

  lemma NoSlots(seen: set<nat>, tag: nat, body: bytes)
    ensures ScanArms([], seen) == Good([]) && ArmSlots([], tag, body) == Ok([], [])
  {
  }

  lemma OtherTags(fields: seq<Field>, seen: set<nat>)
    requires W.ModelledFields(fields) && ScanArms(fields, seen).Good?
    ensures forall i :: 0 <= i < |ScanArms(fields, seen).val| ==> ScanArms(fields, seen).val[i].tag !in seen
  {
    ArmsWellFormed(fields, seen);
  }

  lemma {:induction false} ArmReads(f: Field, s: Value, body: bytes)
    requires f.typ.TPtr? && Modelled(f.typ.elem) && Scan(f.typ.elem).Good?
    ensures
      s.VPtr? && (exists k | 0 <= k <= |body| :: Reads(f.typ.elem, s.v, body[..k])) <==>
      var d := Dec(Scan(f.typ.elem).val, body); d.Ok? && s == VPtr(d.val)
    decreases f, 0
  {
    hide *;
    var elem, c := f.typ.elem, Scan(f.typ.elem).val;
    if s.VPtr? {
      if k :| 0 <= k <= |body| && Reads(elem, s.v, body[..k]) {
        assert body == body[..k] + body[k..];
        ReadsExactly(elem, s.v, body[..k], body[k..]);
      }
      var d := Dec(c, body);
      if d.Ok? && s.v == d.val {
        ScannedWellFormed(elem);
        DecAtLeast(c, body);
        var k := Middle(body, [], d.rest) by { assert body + [] == body; EmptySuffix(d.rest); }
        assert d.rest + [] == d.rest && body + [] == body && body[k..] + [] == body[k..];
        ReadsExactly(elem, s.v, body[..k], d.rest);
      }
    }
  }

  lemma EmptySuffix(b: bytes)
    ensures IsSuffix([], b)
  {
  }

  lemma {:induction false} UnionReads(fields: seq<Field>, v: Value, b: bytes, rest: bytes)
    requires Modelled(TStruct(fields)) && HasTagged(fields) && W.OnlyArms(fields) && ScanArms(fields, {}).Good?
    ensures Reads(TStruct(fields), v, b) <==> DecUnion(Union(ScanArms(fields, {}).val), b + rest) == Ok(v, rest)
    decreases fields, 1
  {
    assert W.ModelledFields(fields);
    UnionBody(fields, v, b);
    hide *;
    var arms := ScanArms(fields, {}).val;
    if Reads(TStruct(fields), v, b) {
      var k: nat, j: nat :| TaggedBody(fields, v.slots, b, k, j);
      UnionReadOn(fields, arms, v, b, rest, k, j);
    }
    if DecUnion(Union(arms), b + rest) == Ok(v, rest) {
      var k, j := UnionReadBack(fields, arms, v, b, rest);
    }
  }

  /** A tag, a length and a body of that length, from which the arms are read. */
  ghost predicate TaggedBody(fields: seq<Field>, slots: seq<Value>, b: bytes, k: nat, j: nat) {
    && k <= j <= |b|
    && Counts(Sum7(b[..k]), b[..k]) && Counts(|b| - j, b[k..j]) && |b| - j <= MAX_INT
    && ArmsRead(fields, Sum7(b[..k]), slots, b[j..])
  }

  lemma UnionBody(fields: seq<Field>, v: Value, b: bytes)
    requires HasTagged(fields)
    ensures Reads(TStruct(fields), v, b) <==> v.VSlots? && exists k: nat, j: nat :: TaggedBody(fields, v.slots, b, k, j)
  {
    hide ArmsRead, Counts;
    if v.VSlots? {
      forall k: nat, j: nat | TaggedBody(fields, v.slots, b, k, j)
        ensures Reads(TStruct(fields), v, b)
      {
        assert Counts(Sum7(b[..k]), b[..k]) && Counts(|b| - j, b[k..j]);
      }
      if Reads(TStruct(fields), v, b) {
        var k: nat, j: nat :| k <= j <= |b| &&
          Counts(Sum7(b[..k]), b[..k]) && Counts(|b| - j, b[k..j]) && |b| - j <= MAX_INT &&
          ArmsRead(fields, Sum7(b[..k]), v.slots, b[j..]);
        assert TaggedBody(fields, v.slots, b, k, j);
      }
    }
  }

  lemma {:induction false} UnionReadOn(
    fields: seq<Field>, arms: seq<Arm>, v: Value, b: bytes, rest: bytes, k: nat, j: nat)
    requires W.ModelledFields(fields) && W.OnlyArms(fields) && ScanArms(fields, {}) == Good(arms)
    requires v.VSlots? && TaggedBody(fields, v.slots, b, k, j)
    ensures DecUnion(Union(arms), b + rest) == Ok(v, rest)
    decreases fields, 0, |fields| + 1
  {
    hide *;
    UnionSteps(arms, b + rest);
    TagCut(fields, v.slots, b, k, j);
    Front(b, rest, k);
    CountsExactly(Sum7(b[..k]), b[..k], b[k..] + rest);
    TextReadsExactly(b[j..], b[k..], rest);
    ArmsReadExactly(fields, {}, Sum7(b[..k]), v.slots, b[j..]);
  }

  lemma TagCut(fields: seq<Field>, slots: seq<Value>, b: bytes, k: nat, j: nat)
    requires TaggedBody(fields, slots, b, k, j)
    ensures k <= j <= |b| && Counts(Sum7(b[..k]), b[..k]) && TextReads(b[j..], b[k..])
    ensures ArmsRead(fields, Sum7(b[..k]), slots, b[j..])
  {
    hide ArmsRead, Counts;
    assert |b[k..]| - |b[j..]| == j - k && b[k..][..j - k] == b[k..j] && b[k..][j - k..] == b[j..];
  }

  lemma {:induction false} UnionReadBack(fields: seq<Field>, arms: seq<Arm>, v: Value, b: bytes, rest: bytes)
    returns (k: nat, j: nat)
    requires W.ModelledFields(fields) && W.OnlyArms(fields) && ScanArms(fields, {}) == Good(arms)
    requires DecUnion(Union(arms), b + rest) == Ok(v, rest)
    ensures v.VSlots? && TaggedBody(fields, v.slots, b, k, j)
    decreases fields, 0, |fields| + 1
  {
    hide *;
    UnionSteps(arms, b + rest);
    var u := ReadUvarint(b + rest);
    var w := ReadBlob(u.rest);
    ReadUvarintShape(b + rest);
    BlobShape(u.rest);
    k := Middle(b, rest, u.rest);
    CountsExactly(u.val, b[..k], u.rest);
    SumOf(u.val, b[..k]);
    TextReadsExactly(w.val, b[k..], rest);
    j := TextCut(w.val, b, k);
    ArmsReadExactly(fields, {}, u.val, v.slots, b[j..]);
    TagJoin(fields, v.slots, b, k, j);
  }

  lemma TagJoin(fields: seq<Field>, slots: seq<Value>, b: bytes, k: nat, j: nat)
    requires k <= j <= |b| && Counts(Sum7(b[..k]), b[..k]) && Counts(|b| - j, b[k..j]) && |b| - j <= MAX_INT
    requires ArmsRead(fields, Sum7(b[..k]), slots, b[j..])
    ensures TaggedBody(fields, slots, b, k, j)
  {
  }

  lemma TextCut(s: bytes, b: bytes, k: nat) returns (j: nat)
    requires k <= |b| && TextReads(s, b[k..])
    ensures k <= j <= |b| && s == b[j..] && Counts(|b| - j, b[k..j]) && |b| - j <= MAX_INT
  {
    j := |b| - |s|;
    assert b[k..][j - k..] == b[j..] && b[k..][..j - k] == b[k..j];
  }

  lemma UnionSteps(arms: seq<Arm>, b: bytes)
    ensures var u, d := ReadUvarint(b), DecUnion(Union(arms), b);
      if u.Fail? || ReadBlob(u.rest).Fail? then d == Fail
      else
        var slots := ArmSlots(arms, u.val, ReadBlob(u.rest).val);
        d == if slots.Fail? then Fail else Ok(VSlots(slots.val), ReadBlob(u.rest).rest)
  {
    hide Dec, ReadUvarint, ReadBlob, Lookup;
  }

  // ---------------------------------------------------------------- maps

  lemma {:induction false} MapReads(t: Type, v: Value, b: bytes, rest: bytes)
    requires t.TMap? && Modelled(t) && Scan(t).Good?
    ensures Reads(t, v, b) <==> Dec(Scan(t).val, b + rest) == Ok(v, rest)
    decreases t, 0
  {
    var c := Scan(t).val;
    W.MapParts(t);
    ScannedWellFormed(t);
    assert MapType(t, c) by { W.MapModelled(t); }
    hide Scan, MapType, EntriesRead, DecEntries, Counts, WF, Modelled, ReadUvarint;
    if Reads(t, v, b) {
      var k :| 0 <= k <= |b| && Counts(Sum7(b[..k]), b[..k]) && Sum7(b[..k]) <= MAX_INT &&
        EntriesRead(t, Sum7(b[..k]), [], v.es, b[k..]);
      MapReadOn(t, c, v.es, b, rest, k);
    }
    if Dec(c, b + rest) == Ok(v, rest) {
      var k := MapReadBack(t, c, v.es, b, rest, ReadLength(b + rest));
    }
  }

  lemma {:induction false} MapReadOn(t: Type, c: Codec, es: seq<Entry>, b: bytes, rest: bytes, k: nat)
    requires t.TMap? && c.Map? && MapType(t, c) && k <= |b|
    requires Counts(Sum7(b[..k]), b[..k]) && EntriesRead(t, Sum7(b[..k]), [], es, b[k..])
    ensures ReadUvarint(b + rest) == Ok(Sum7(b[..k]), b[k..] + rest)
    ensures DecEntries(c, Sum7(b[..k]), b[k..] + rest, []) == Ok(es, rest)
    decreases t, 0, Sum7(b[..k]), 2
  {
    hide *;
    Front(b, rest, k);
    CountsExactly(Sum7(b[..k]), b[..k], b[k..] + rest);
    EntriesReadExactly(t, c, Sum7(b[..k]), [], es, b[k..], rest);
  }

  lemma {:induction false} MapReadBack(
    t: Type, c: Codec, es: seq<Entry>, b: bytes, rest: bytes, u: Parsed<nat>) returns (k: nat)
    requires t.TMap? && c.Map? && WF(c) && MapType(t, c)
    requires u == ReadLength(b + rest) && u.Ok? && DecEntries(c, u.val, u.rest, []) == Ok(es, rest)
    ensures k <= |b| && Counts(Sum7(b[..k]), b[..k]) && Sum7(b[..k]) <= MAX_INT
    ensures EntriesRead(t, Sum7(b[..k]), [], es, b[k..])
    decreases t, 0, u.val, 2
  {
    assert ReadUvarint(b + rest) == u && u.val <= MAX_INT;
    hide *;
    ReadUvarintShape(b + rest);
    EntriesAtLeast(c, u.val, u.rest, []);
    k := Middle(b, rest, u.rest);
    CountsExactly(u.val, b[..k], u.rest);
    SumOf(u.val, b[..k]);
    EntriesReadExactly(t, c, u.val, [], es, b[k..], rest);
  }

  /** A map type that scans, and its codec. */
  ghost predicate MapType(t: Type, c: Codec) {
    && t.TMap? && Modelled(t.key) && Modelled(t.val) && c.Map? && WF(c)
    && Scan(t.key) == Good(c.key) && Scan(t.val) == Good(c.val)
  }

  lemma MapTypes(t: Type, c: Codec)
    requires MapType(t, c)
    ensures Modelled(t.key) && Modelled(t.val) && WF(c)
    ensures Scan(t.key) == Good(c.key) && Scan(t.val) == Good(c.val)
  {
  }

  lemma {:induction false} EntriesReadExactly(
    t: Type, c: Codec, n: nat, acc: seq<Entry>, es: seq<Entry>, b: bytes, rest: bytes)
    requires t.TMap? && c.Map? && MapType(t, c)
    ensures EntriesRead(t, n, acc, es, b) <==> DecEntries(c, n, b + rest, acc) == Ok(es, rest)
    decreases t, 0, n, 1
  {
    hide MapType, Reads, KeyReads, Dec, DecKey, Put;
    if n == 0 {
      NothingRead(b, rest);
    } else {
      if EntriesRead(t, n, acc, es, b) {
        EntriesReadOn(t, c, n, acc, es, b, rest);
      }
      if DecEntries(c, n, b + rest, acc) == Ok(es, rest) {
        EntriesReadBack(t, c, n, acc, es, b, rest);
      }
    }
  }

  // One entry of the reader.
  lemma EntriesStep(c: Codec, n: nat, b: bytes, acc: seq<Entry>)
    requires c.Map? && n > 0
    ensures var d := DecKey(c.key, b);
      DecEntries(c, n, b, acc) ==
        if d.Fail? || Dec(c.val, d.rest).Fail? then Fail
        else DecEntries(c, n - 1, Dec(c.val, d.rest).rest, Put(acc, d.val, Dec(c.val, d.rest).val))
  {
    hide Dec, DecKey, Put;
  }

  // One entry of the grammar.
  lemma EntrySplit(t: Type, n: nat, acc: seq<Entry>, es: seq<Entry>, b: bytes)
    returns (k: nat, j: nat, x: Value, y: Value)
    requires t.TMap? && n > 0 && EntriesRead(t, n, acc, es, b)
    ensures k <= j <= |b| && KeyReads(t.key, x, b[..k]) && Reads(t.val, y, b[k..j])
    ensures EntriesRead(t, n - 1, Put(acc, x, y), es, b[j..])
  {
    hide KeyReads, Reads, Put;
    k, j, x, y :| k <= j <= |b| && KeyReads(t.key, x, b[..k]) && Reads(t.val, y, b[k..j]) &&
      EntriesRead(t, n - 1, Put(acc, x, y), es, b[j..]);
  }

  lemma {:induction false} EntriesReadOn(
    t: Type, c: Codec, n: nat, acc: seq<Entry>, es: seq<Entry>, b: bytes, rest: bytes)
    requires t.TMap? && c.Map? && MapType(t, c) && n > 0 && EntriesRead(t, n, acc, es, b)
    ensures DecEntries(c, n, b + rest, acc) == Ok(es, rest)
    decreases t, 0, n, 0
  {
    hide *;
    MapTypes(t, c);
    EntriesStep(c, n, b + rest, acc);
    var k, j, x, y := EntrySplit(t, n, acc, es, b);
    Front(b, rest, k);
    Front(b[k..], rest, j - k);
    assert b[k..][..j - k] == b[k..j] && b[k..][j - k..] == b[j..];
    KeyPartReads(t.key, x, b[..k], b[k..] + rest);
    ReadsExactly(t.val, y, b[k..j], b[j..] + rest);
    EntriesReadExactly(t, c, n - 1, Put(acc, x, y), es, b[j..], rest);
  }

  lemma {:induction false} EntriesReadBack(
    t: Type, c: Codec, n: nat, acc: seq<Entry>, es: seq<Entry>, b: bytes, rest: bytes)
    requires t.TMap? && c.Map? && MapType(t, c) && n > 0 && DecEntries(c, n, b + rest, acc) == Ok(es, rest)
    ensures EntriesRead(t, n, acc, es, b)
    decreases t, 0, n, 0
  {
    hide *;
    MapTypes(t, c);
    EntriesStep(c, n, b + rest, acc);
    EntryCut(c, n, b, rest, acc);
    var d := DecKey(c.key, b + rest);
    var e := Dec(c.val, d.rest);
    var k := Middle(b, rest, d.rest);
    var i := Middle(b[k..], rest, e.rest);
    var j := k + i;
    assert b[k..][..i] == b[k..j] && b[k..][i..] == b[j..];
    KeyPartReads(t.key, d.val, b[..k], d.rest);
    ReadsExactly(t.val, e.val, b[k..j], e.rest);
    EntriesReadExactly(t, c, n - 1, Put(acc, d.val, e.val), es, b[j..], rest);
    EntryJoin(t, n, acc, es, b, k, j, d.val, e.val);
  }

  lemma EntryJoin(t: Type, n: nat, acc: seq<Entry>, es: seq<Entry>, b: bytes, k: nat, j: nat, x: Value, y: Value)
    requires t.TMap? && n > 0 && k <= j <= |b| && KeyReads(t.key, x, b[..k]) && Reads(t.val, y, b[k..j])
    requires EntriesRead(t, n - 1, Put(acc, x, y), es, b[j..])
    ensures EntriesRead(t, n, acc, es, b)
  {
    hide KeyReads, Reads, Put;
  }

  lemma EntryCut(c: Codec, n: nat, b: bytes, rest: bytes, acc: seq<Entry>)
    requires c.Map? && WF(c) && n > 0
    requires DecEntries(c, n, b + rest, acc).Ok? && DecEntries(c, n, b + rest, acc).rest == rest
    ensures var d := DecKey(c.key, b + rest);
      var e := Dec(c.val, d.rest);
      IsSuffix(d.rest, b + rest) && IsSuffix(e.rest, d.rest) && IsSuffix(rest, e.rest) && IsSuffix(rest, d.rest)
  {
    hide Dec, DecKey, Put;
    var d := DecKey(c.key, b + rest);
    var e := Dec(c.val, d.rest);
    KeyAtLeast(c.key, b + rest);
    DecAtLeast(c.val, d.rest);
    EntriesAtLeast(c, n - 1, e.rest, Put(acc, d.val, e.val));
    SuffixTrans(rest, e.rest, d.rest);
  }

  lemma {:induction false} KeyPartReads(t: Type, v: Value, b: bytes, rest: bytes)
    requires Modelled(t) && Scan(t).Good?
    ensures KeyReads(t, v, b) <==> DecKey(Scan(t).val, b + rest) == Ok(v, rest)
    decreases t, 2
  {
    if t.TPrim? {
      KeyReadsExactly(t, v, b, rest);
    } else {
      OnlyPrims(t);
      ReadsExactly(t, v, b, rest);
    }
  }
}
