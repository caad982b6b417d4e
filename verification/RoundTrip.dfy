/**
 Round trip across schemas. A reader's schema may have lost or gained union arms with respect to the
 writer's; what it decodes is the written value with exactly the arms it does not know cleared.
 The plain round trip, forward and backward compatibility are instances.
 */
module RoundTrip {
  import opened Wire
  import opened Varint
  import opened Codec

  // ---------------------------------------------------------------- primitives

  lemma BlobRoundTrip(s: bytes, rest: bytes)
    requires |s| <= MAX_INT
    ensures ReadBlob(Blob(s) + rest) == Ok(s, rest)
  {
    UvarintRoundTrip(|s|, s + rest);
    assert Blob(s) + rest == Uvarint(|s|) + (s + rest);
  }

  lemma LengthRoundTrip(n: nat, rest: bytes)
    requires n <= MAX_INT
    ensures ReadLength(Uvarint(n) + rest) == Ok(n, rest)
  {
    UvarintRoundTrip(n, rest);
  }

  lemma TakePrefix(p: bytes, rest: bytes)
    ensures Take(p + rest, |p|) == Ok(p, rest)
  {
  }

  lemma {:induction false} WordsRoundTrip(ws: seq<nat>, width: nat, rest: bytes)
    requires forall i :: 0 <= i < |ws| ==> ws[i] < Pow256(width)
    ensures DecWords(EncWords(ws, width) + rest, width, |ws|) == Ok(ws, rest)
  {
    hide LE, FromLE, Pow256, Take;
    if ws == [] {
      assert EncWords(ws, width) + rest == rest;
    } else {
      var tail := EncWords(ws[1..], width) + rest;
      assert EncWords(ws, width) + rest == LE(ws[0], width) + tail;
      TakePrefix(LE(ws[0], width), tail);
      LERoundTrip(ws[0], width);
      WordsRoundTrip(ws[1..], width, rest);
      assert [ws[0]] + ws[1..] == ws;
    }
  }

  lemma IntRoundTrip(bits: nat, native: bool, i: int, rest: bytes)
    requires InSigned(i, bits)
    ensures DecPrim(KInt(bits, native), Uvarint(ZigZag(i)) + rest) == Ok(VInt(i), rest)
  {
    hide ReadUvarint, Uvarint, ZigZag, UnZigZag, VarintValue;
    VarintValueRoundTrip(i, bits, true);
    UvarintRoundTrip(ZigZag(i), rest);
  }

  lemma UintRoundTrip(bits: nat, native: bool, n: nat, rest: bytes)
    requires n < Modulus(bits)
    ensures DecPrim(KUint(bits, native), Uvarint(n) + rest) == Ok(VUint(n), rest)
  {
    hide ReadUvarint, Uvarint;
    UvarintRoundTrip(n, rest);
    ModSmall(n, Modulus(bits));
  }

  lemma BoolRoundTrip(v: Value, rest: bytes)
    requires v.VBool?
    ensures DecPrim(KBool, EncPrim(KBool, v) + rest) == Ok(v, rest)
  {
    assert (EncPrim(KBool, v) + rest)[1..] == rest;
  }

  lemma PrimRoundTrip(k: Kind, v: Value, rest: bytes)
    requires WFKind(k) && TypedPrim(k, v)
    ensures DecPrim(k, EncPrim(k, v) + rest) == Ok(v, rest)
  {
    match k
    case KString => BlobRoundTrip(v.s, rest);
    case KBool => BoolRoundTrip(v, rest);
    case KInt(bits, native) => IntRoundTrip(bits, native, v.i, rest);
    case KUint(bits, native) => UintRoundTrip(bits, native, v.n, rest);
    case KWords(width, _) => WordsRoundTrip(v.ws, width, rest);
  }

  lemma ModSmall(n: nat, m: nat)
    requires n < m
    ensures n % m == n
  {
  }

  lemma Pow256OfBits(bits: nat)
    requires IsIntWidth(bits)
    ensures Pow256(bits / 8) == Modulus(bits)
  {
    assert Pow256(1) == 0x100;
    assert Pow256(2) == 0x1_0000;
    assert Pow256(4) == 0x1_0000_0000;
    assert Pow256(8) == TWO64;
  }

  lemma PrimKeyRoundTrip(k: Kind, v: Value, rest: bytes)
    requires WFKind(k) && TypedPrim(k, v) && KeyFits(Prim(k), v)
    ensures DecPrimKey(k, EncPrimKey(k, v) + rest) == Ok(v, rest)
  {
    hide LE, FromLE, Take, Pow256;
    if FixedKey(k) {
      WordKeyRoundTrip(k, v, rest);
    } else if k.KString? {
      StringKeyRoundTrip(v.s, rest);
    } else {
      PrimRoundTrip(k, v, rest);
    }
  }

  lemma StringKeyRoundTrip(s: bytes, rest: bytes)
    requires |s| <= MAX_KEY
    ensures DecPrimKey(KString, EncPrimKey(KString, VStr(s)) + rest) == Ok(VStr(s), rest)
  {
    assert Pow256(2) == 0x1_0000;
    hide LE, FromLE, Take, Pow256;
    LERoundTrip(|s|, 2);
    assert EncPrimKey(KString, VStr(s)) + rest == LE(|s|, 2) + (s + rest);
    TakePrefix(LE(|s|, 2), s + rest);
    TakePrefix(s, rest);
  }

  lemma WordKeyRoundTrip(k: Kind, v: Value, rest: bytes)
    requires WFKind(k) && TypedPrim(k, v) && FixedKey(k)
    ensures DecPrimKey(k, EncPrimKey(k, v) + rest) == Ok(v, rest)
  {
    hide LE, FromLE, Take, Pow256, Modulus, WrapSigned;
    var m := Modulus(k.bits);
    var x := if v.VInt? then v.i % m else v.n % m;
    Pow256OfBits(k.bits);
    LERoundTrip(x, k.bits / 8);
    TakePrefix(LE(x, k.bits / 8), rest);
    if v.VInt? {
      SignedWord(v.i, k.bits);
    } else {
      ModSmall(v.n, m);
    }
  }

  lemma SignedWord(v: int, bits: nat)
    requires InSigned(v, bits)
    ensures WrapSigned(v % Modulus(bits), bits) == v
  {
    var m := Modulus(bits);
    if v >= 0 {
      assert v % m == v;
    } else {
      assert v % m == v + m;
      assert ((v + m) + m / 2) % m == v + m / 2;
    }
  }

  // ---------------------------------------------------------------- compatible schemas

  /**
   `r` can read what `w` writes: the same tree, except that unions may have different arms, as long
   as two arms with the same tag are compatible.
   */
  predicate Compat(w: Codec, r: Codec)
    decreases w
  {
    match w
    case Prim(_) => r == w
    case Bytes => r == w
    case Bools => r == w
    case Pointer(elem) => r.Pointer? && Compat(elem, r.elem)
    case Seq(_, elem, isArray, length) =>
      r.Seq? && r.isArray == isArray && (isArray ==> r.length == length) && Compat(elem, r.elem)
    case Struct(fields) =>
      r.Struct? && |r.fields| == |fields| && forall i :: 0 <= i < |fields| ==> Compat(fields[i], r.fields[i])
    case Union(arms) =>
      && r.Union? && (forall j :: 0 <= j < |r.arms| ==> r.arms[j].tag > 0)
      && forall i, j :: 0 <= i < |arms| && 0 <= j < |r.arms| && arms[i].tag == r.arms[j].tag ==>
           Compat(arms[i].codec, r.arms[j].codec)
    case Map(_, key, val) => r.Map? && r.key == key && KeyOk(key) && Compat(val, r.val)
  }

  /** `v` with every union arm that `r` lacks cleared, and nothing else changed. */
  function Project(w: Codec, r: Codec, v: Value): Value
    decreases w, 1
  {
    match w
    case Pointer(elem) => if v.VPtr? && r.Pointer? then VPtr(Project(elem, r.elem, v.v)) else v
    case Seq(_, elem, _, _) => if v.VSeq? && r.Seq? then VSeq(ProjectMany(elem, r.elem, v.vs)) else v
    case Struct(fields) => if v.VSeq? && r.Struct? then VSeq(ProjectFields(fields, r.fields, v.vs)) else v
    case Union(arms) =>
      if !v.VSlots? || !r.Union? || |v.slots| != |arms| then v
      else
        var i := Selected(v.slots);
        var j := if i < 0 then -1 else Lookup(r.arms, arms[i].tag);
        if j < 0 then VSlots(Nils(|r.arms|))
        else VSlots(Nils(|r.arms|)[j := VPtr(Project(arms[i].codec, r.arms[j].codec, v.slots[i].v))])
    case Map(_, _, _) => if v.VMap? && r.Map? then VMap(ProjectEntries(w, r, v.es)) else v
    case _ => v
  }

  function ProjectMany(w: Codec, r: Codec, vs: seq<Value>): (us: seq<Value>)
    ensures |us| == |vs|
    decreases w, 2, |vs|
  {
    if vs == [] then [] else [Project(w, r, vs[0])] + ProjectMany(w, r, vs[1..])
  }

  function ProjectFields(ws: seq<Codec>, rs: seq<Codec>, vs: seq<Value>): seq<Value>
    decreases ws, 0
  {
    if ws == [] || rs == [] || vs == [] then []
    else [Project(ws[0], rs[0], vs[0])] + ProjectFields(ws[1..], rs[1..], vs[1..])
  }

  function ProjectEntries(w: Codec, r: Codec, es: seq<Entry>): (us: seq<Entry>)
    requires w.Map? && r.Map?
    ensures |us| == |es|
    ensures forall i :: 0 <= i < |es| ==> us[i].key == es[i].key
    decreases w, 0, |es|
  {
    if es == [] then []
    else [Entry(es[0].key, Project(w.val, r.val, es[0].val))] + ProjectEntries(w, r, es[1..])
  }

  // ---------------------------------------------------------------- map entries

  lemma {:induction false} PutNew(es: seq<Entry>, key: Value, val: Value)
    requires forall i :: 0 <= i < |es| ==> es[i].key != key
    ensures Put(es, key, val) == es + [Entry(key, val)]
  {
    if es != [] {
      PutNew(es[1..], key, val);
    }
  }

  // ---------------------------------------------------------------- the main theorem

  /**
   Decoding with any compatible schema succeeds on everything the encoder writes, consumes exactly
   the encoding before any suffix, and yields the projected value. Map entries come in any order.
   */
  lemma {:induction false} CrossSchema(w: Codec, r: Codec, v: Value, rest: bytes)
    requires WF(w) && Compat(w, r) && Typed(w, v) && Encodable(w, v)
    ensures Dec(r, Enc(w, v) + rest) == Ok(Project(w, r, v), rest)
    decreases w, 2
  {
    match w
    case Prim(k) => PrimRoundTrip(k, v, rest);
    case Bytes => BlobRoundTrip(v.s, rest);
    case Bools => BlobRoundTrip(v.s, rest);
    case Pointer(elem) => CrossPointer(w, r, v, rest);
    case Seq(_, _, _, _) => CrossSeq(w, r, v, rest);
    case Struct(fields) => CrossFields(fields, r.fields, v.vs, rest);
    case Union(_) => CrossUnion(w, r, v, rest);
    case Map(_, _, _) => CrossMap(w, r, v, rest);
  }

  lemma {:induction false} CrossPointer(w: Codec, r: Codec, v: Value, rest: bytes)
    requires w.Pointer? && WF(w) && Compat(w, r) && Typed(w, v) && Encodable(w, v)
    ensures Dec(r, Enc(w, v) + rest) == Ok(Project(w, r, v), rest)
    decreases w, 0
  {
    var b := Enc(w, v) + rest;
    if v.VPtr? {
      assert b[1..] == Enc(w.elem, v.v) + rest;
      CrossSchema(w.elem, r.elem, v.v, rest);
    } else {
      assert b[1..] == rest;
    }
  }

  lemma {:induction false} CrossSeq(w: Codec, r: Codec, v: Value, rest: bytes)
    requires w.Seq? && WF(w) && Compat(w, r) && Typed(w, v) && Encodable(w, v)
    ensures Dec(r, Enc(w, v) + rest) == Ok(Project(w, r, v), rest)
    decreases w, 0
  {
    var body := EncMany(w.elem, v.vs) + rest;
    CrossMany(w.elem, r.elem, v.vs, rest);
    if w.isArray {
      assert Enc(w, v) + rest == body;
    } else {
      assert Enc(w, v) + rest == Uvarint(|v.vs|) + body;
      LengthRoundTrip(|v.vs|, body);
    }
  }

  lemma {:induction false} CrossMany(w: Codec, r: Codec, vs: seq<Value>, rest: bytes)
    requires WF(w) && Compat(w, r)
    requires forall i :: 0 <= i < |vs| ==> Typed(w, vs[i]) && Encodable(w, vs[i])
    ensures DecMany(r, |vs|, EncMany(w, vs) + rest) == Ok(ProjectMany(w, r, vs), rest)
    decreases w, 3, |vs|
  {
    hide Dec, Enc, Project, Typed, Encodable, WF, Compat;
    if vs == [] {
      assert EncMany(w, vs) + rest == rest;
    } else {
      var tail := EncMany(w, vs[1..]) + rest;
      assert EncMany(w, vs) + rest == Enc(w, vs[0]) + tail;
      CrossSchema(w, r, vs[0], tail);
      CrossMany(w, r, vs[1..], rest);
    }
  }

  lemma {:induction false} CrossFields(ws: seq<Codec>, rs: seq<Codec>, vs: seq<Value>, rest: bytes)
    requires |ws| == |rs| == |vs|
    requires forall i :: 0 <= i < |ws| ==> WF(ws[i]) && Compat(ws[i], rs[i])
    requires forall i :: 0 <= i < |ws| ==> Typed(ws[i], vs[i]) && Encodable(ws[i], vs[i])
    ensures DecFields(rs, EncFields(ws, vs) + rest) == Ok(ProjectFields(ws, rs, vs), rest)
    decreases ws, 0
  {
    if ws == [] {
      assert EncFields(ws, vs) + rest == rest;
    } else {
      var tail := EncFields(ws[1..], vs[1..]) + rest;
      assert EncFields(ws, vs) + rest == Enc(ws[0], vs[0]) + tail;
      CrossSchema(ws[0], rs[0], vs[0], tail);
      CrossFields(ws[1..], rs[1..], vs[1..], rest);
    }
  }

  lemma {:induction false} CrossUnion(w: Codec, r: Codec, v: Value, rest: bytes)
    requires w.Union? && WF(w) && Compat(w, r) && Typed(w, v) && Encodable(w, v)
    ensures Dec(r, Enc(w, v) + rest) == Ok(Project(w, r, v), rest)
    decreases w, 0
  {
    var i := Selected(v.slots);
    var tag := if i < 0 then 0 else w.arms[i].tag;
    var body := if i < 0 then [] else Enc(w.arms[i].codec, v.slots[i].v);
    assert Enc(w, v) + rest == Uvarint(tag) + (Blob(body) + rest);
    UvarintRoundTrip(tag, Blob(body) + rest);
    BlobRoundTrip(body, rest);
    var j := Lookup(r.arms, tag);
    if i >= 0 && j >= 0 {
      CrossSchema(w.arms[i].codec, r.arms[j].codec, v.slots[i].v, []);
      assert body + [] == body;
    }
  }

  lemma {:induction false} CrossMap(w: Codec, r: Codec, v: Value, rest: bytes)
    requires w.Map? && WF(w) && Compat(w, r) && Typed(w, v) && Encodable(w, v)
    ensures Dec(r, Enc(w, v) + rest) == Ok(Project(w, r, v), rest)
    decreases w, 1
  {
    hide EncEntries, DecEntries, ProjectEntries;
    var body := EncEntries(w, v.es) + rest;
    assert Enc(w, v) + rest == Uvarint(|v.es|) + body;
    LengthRoundTrip(|v.es|, body);
    CrossEntries(w, r, v.es, rest, []);
    assert [] + ProjectEntries(w, r, v.es) == ProjectEntries(w, r, v.es);
  }

  /** The entries of a map that can be encoded, in an order that repeats no key of `acc`. */
  ghost predicate EntriesGood(w: Codec, es: seq<Entry>, acc: seq<Entry>)
    requires w.Map?
  {
    && DistinctKeys(es)
    && (forall i, j :: 0 <= i < |es| && 0 <= j < |acc| ==> es[i].key != acc[j].key)
    && (forall i :: 0 <= i < |es| ==> Typed(w.key, es[i].key) && Typed(w.val, es[i].val))
    && forall i :: 0 <= i < |es| ==>
         KeyFits(w.key, es[i].key) && Encodable(w.key, es[i].key) && Encodable(w.val, es[i].val)
  }

  lemma {:induction false} CrossEntries(w: Codec, r: Codec, es: seq<Entry>, rest: bytes, acc: seq<Entry>)
    requires w.Map? && WF(w) && Compat(w, r) && EntriesGood(w, es, acc)
    ensures DecEntries(r, |es|, EncEntries(w, es) + rest, acc) == Ok(acc + ProjectEntries(w, r, es), rest)
    decreases w, 1, |es|
  {
    hide Dec, Enc, DecKey, EncKey, Project, Put, Typed, Encodable, WF;
    if es == [] {
      assert EncEntries(w, es) + rest == rest && acc + [] == acc;
    } else {
      hide EncEntries, DecEntries, ProjectEntries, EntriesGood;
      var e := Entry(es[0].key, Project(w.val, r.val, es[0].val));
      EntriesTail(w, es, acc, e.val);
      CrossEntries(w, r, es[1..], rest, acc + [e]);
      CrossEntry(w, r, es, EncEntries(w, es[1..]) + rest, acc);
      EntriesHead(w, r, es, rest, acc);
    }
  }

  lemma EntriesHead(w: Codec, r: Codec, es: seq<Entry>, rest: bytes, acc: seq<Entry>)
    requires w.Map? && r.Map? && es != []
    ensures EncEntries(w, es) + rest
         == EncKey(w.key, es[0].key) + (Enc(w.val, es[0].val) + (EncEntries(w, es[1..]) + rest))
    ensures var e := Entry(es[0].key, Project(w.val, r.val, es[0].val));
      acc + ProjectEntries(w, r, es) == (acc + [e]) + ProjectEntries(w, r, es[1..])
  {
    hide Enc, EncKey, Project;
  }

  // The first entry: its key, its value, and its arrival in the map.
  lemma {:induction false} CrossEntry(w: Codec, r: Codec, es: seq<Entry>, tail: bytes, acc: seq<Entry>)
    requires w.Map? && WF(w) && Compat(w, r) && es != [] && EntriesGood(w, es, acc)
    ensures var mid := Enc(w.val, es[0].val) + tail;
      var e := Entry(es[0].key, Project(w.val, r.val, es[0].val));
      DecEntries(r, |es|, EncKey(w.key, es[0].key) + mid, acc) == DecEntries(r, |es| - 1, tail, acc + [e])
    decreases w, 0
  {
    hide Dec, Enc, DecKey, EncKey, Project, Typed, Encodable;
    var mid := Enc(w.val, es[0].val) + tail;
    KeyRoundTrip(w.key, es[0].key, mid);
    CrossSchema(w.val, r.val, es[0].val, tail);
    PutNew(acc, es[0].key, Project(w.val, r.val, es[0].val));
  }

  lemma EntriesTail(w: Codec, es: seq<Entry>, acc: seq<Entry>, val: Value)
    requires w.Map? && es != [] && EntriesGood(w, es, acc)
    ensures EntriesGood(w, es[1..], acc + [Entry(es[0].key, val)])
  {
    hide Typed, Encodable;
  }

  lemma {:induction false} KeyRoundTrip(k: Codec, v: Value, rest: bytes)
    requires WF(k) && KeyOk(k) && Typed(k, v) && Encodable(k, v) && KeyFits(k, v)
    ensures DecKey(k, EncKey(k, v) + rest) == Ok(v, rest)
    decreases k, 3
  {
    if k.Prim? {
      PrimKeyRoundTrip(k.kind, v, rest);
    } else {
      KeyCompat(k);
      KeyProject(k, v);
      CrossSchema(k, k, v, rest);
    }
  }

  lemma {:induction false} KeyCompat(k: Codec)
    requires KeyOk(k)
    ensures Compat(k, k)
  {
    match k
    case Prim(_) =>
    case Seq(_, elem, _, _) => KeyCompat(elem);
    case Struct(fields) =>
      forall i | 0 <= i < |fields|
        ensures Compat(fields[i], fields[i])
      {
        KeyCompat(fields[i]);
      }
  }

  lemma {:induction false} KeyProject(k: Codec, v: Value)
    requires KeyOk(k) && Typed(k, v)
    ensures Project(k, k, v) == v
    decreases k, 1
  {
    match k
    case Prim(_) =>
    case Seq(_, elem, _, _) => KeyProjectMany(elem, v.vs);
    case Struct(fields) => KeyProjectFields(fields, v.vs);
  }

  lemma {:induction false} KeyProjectMany(k: Codec, vs: seq<Value>)
    requires KeyOk(k) && forall i :: 0 <= i < |vs| ==> Typed(k, vs[i])
    ensures ProjectMany(k, k, vs) == vs
    decreases k, 2, |vs|
  {
    if vs != [] {
      KeyProject(k, vs[0]);
      KeyProjectMany(k, vs[1..]);
    }
  }

  lemma {:induction false} KeyProjectFields(ks: seq<Codec>, vs: seq<Value>)
    requires |ks| == |vs|
    requires forall i :: 0 <= i < |ks| ==> KeyOk(ks[i]) && Typed(ks[i], vs[i])
    ensures ProjectFields(ks, ks, vs) == vs
    decreases ks, 0
  {
    if ks != [] {
      KeyProject(ks[0], vs[0]);
      KeyProjectFields(ks[1..], vs[1..]);
    }
  }
}
