/**
 What the cross-schema theorem means for a schema and its versions: the plain round trip, unique
 decodability, readers that lack arms, readers that have more of them, and the order of map entries.
 */
module Compatibility {
  import opened Wire
  import opened Varint
  import opened Codec
  import opened RoundTrip

  // ---------------------------------------------------------------- one schema

  lemma LookupDistinct(arms: seq<Arm>, i: nat)
    requires i < |arms| && DistinctTags(arms)
    ensures Lookup(arms, arms[i].tag) == i
  {
  }

  lemma SelectedOne(n: nat, j: nat, x: Value)
    requires j < n
    ensures Selected(Nils(n)[j := VPtr(x)]) == j
  {
    var slots := Nils(n)[j := VPtr(x)];
    assert slots[j].VPtr? && forall i :: 0 <= i < n && i != j ==> slots[i] == VNil;
  }

  // A union value is determined by its one set slot.
  lemma SlotsOfOne(slots: seq<Value>)
    requires AtMostOneSet(slots)
    requires forall i :: 0 <= i < |slots| ==> slots[i].VNil? || slots[i].VPtr?
    ensures var i := Selected(slots);
      slots == if i < 0 then Nils(|slots|) else Nils(|slots|)[i := slots[i]]
  {
  }

  lemma {:induction false} CompatSelf(c: Codec)
    requires WF(c)
    ensures Compat(c, c)
  {
    match c
    case Pointer(elem) => CompatSelf(elem);
    case Seq(_, elem, _, _) => CompatSelf(elem);
    case Struct(fields) =>
      forall i | 0 <= i < |fields|
        ensures Compat(fields[i], fields[i])
      {
        CompatSelf(fields[i]);
      }
    case Union(arms) =>
      forall i | 0 <= i < |arms|
        ensures Compat(arms[i].codec, arms[i].codec)
      {
        CompatSelf(arms[i].codec);
      }
    case Map(_, _, val) => CompatSelf(val);
    case _ =>
  }

  /** Reading with the schema that wrote changes nothing. */
  lemma {:induction false} ProjectSelf(c: Codec, v: Value)
    requires WF(c) && Typed(c, v) && Encodable(c, v)
    ensures Project(c, c, v) == v
    decreases c, 1
  {
    match c
    case Pointer(elem) =>
      if v.VPtr? {
        ProjectSelf(elem, v.v);
      }
    case Seq(_, elem, _, _) => ProjectSelfMany(elem, v.vs);
    case Struct(fields) => ProjectSelfFields(fields, v.vs);
    case Union(arms) =>
      var i := Selected(v.slots);
      SlotsOfOne(v.slots);
      if i >= 0 {
        LookupDistinct(arms, i);
        ProjectSelf(arms[i].codec, v.slots[i].v);
      }
    case Map(_, _, _) => ProjectSelfEntries(c, v.es);
    case _ =>
  }

  lemma {:induction false} ProjectSelfMany(c: Codec, vs: seq<Value>)
    requires WF(c) && forall i :: 0 <= i < |vs| ==> Typed(c, vs[i]) && Encodable(c, vs[i])
    ensures ProjectMany(c, c, vs) == vs
    decreases c, 2, |vs|
  {
    hide Project, Typed, Encodable, WF;
    if vs != [] {
      ProjectSelf(c, vs[0]);
      ProjectSelfMany(c, vs[1..]);
    }
  }

  lemma {:induction false} ProjectSelfFields(cs: seq<Codec>, vs: seq<Value>)
    requires |cs| == |vs|
    requires forall i :: 0 <= i < |cs| ==> WF(cs[i]) && Typed(cs[i], vs[i]) && Encodable(cs[i], vs[i])
    ensures ProjectFields(cs, cs, vs) == vs
    decreases cs, 0
  {
    if cs != [] {
      ProjectSelf(cs[0], vs[0]);
      ProjectSelfFields(cs[1..], vs[1..]);
    }
  }

  lemma {:induction false} ProjectSelfEntries(c: Codec, es: seq<Entry>)
    requires c.Map? && WF(c)
    requires forall i :: 0 <= i < |es| ==> Typed(c.val, es[i].val) && Encodable(c.val, es[i].val)
    ensures ProjectEntries(c, c, es) == es
    decreases c, 0, |es|
  {
    if es != [] {
      ProjectSelf(c.val, es[0].val);
      ProjectSelfEntries(c, es[1..]);
    }
  }

  /** Decoding inverts encoding, before any suffix, for every codec tree and every value it can encode. */
  lemma RoundTripLaw(c: Codec, v: Value, rest: bytes)
    requires WF(c) && Typed(c, v) && Encodable(c, v)
    ensures Dec(c, Enc(c, v) + rest) == Ok(v, rest)
  {
    CompatSelf(c);
    ProjectSelf(c, v);
    CrossSchema(c, c, v, rest);
  }

  /** No encoding is a prefix of another, so encodings can be laid end to end and told apart. */
  lemma PrefixFree(c: Codec, v: Value, u: Value, more: bytes)
    requires WF(c) && Typed(c, v) && Encodable(c, v) && Typed(c, u) && Encodable(c, u)
    requires Enc(c, u) == Enc(c, v) + more
    ensures u == v && more == []
  {
    RoundTripLaw(c, v, more);
    RoundTripLaw(c, u, []);
    assert Enc(c, u) + [] == Enc(c, u);
  }

  // ---------------------------------------------------------------- deleted and added arms

  /** `r` is `w` with some union arms deleted, anywhere in the tree. */
  predicate Erases(w: Codec, r: Codec)
    decreases w
  {
    match w
    case Pointer(elem) => r.Pointer? && Erases(elem, r.elem)
    case Seq(f, elem, isArray, length) =>
      r.Seq? && r.flavour == f && r.isArray == isArray && r.length == length && Erases(elem, r.elem)
    case Struct(fields) =>
      r.Struct? && |r.fields| == |fields| && forall i :: 0 <= i < |fields| ==> Erases(fields[i], r.fields[i])
    case Union(arms) =>
      r.Union? && forall j :: 0 <= j < |r.arms| ==>
        var i := Lookup(arms, r.arms[j].tag);
        i >= 0 && Erases(arms[i].codec, r.arms[j].codec)
    case Map(f, key, val) => r.Map? && r.mflavour == f && r.key == key && Erases(val, r.val)
    case _ => r == w
  }

  lemma {:induction false} ErasesCompat(w: Codec, r: Codec)
    requires WF(w) && WF(r) && Erases(w, r)
    ensures Compat(w, r) && Compat(r, w)
  {
    match w
    case Pointer(elem) => ErasesCompat(elem, r.elem);
    case Seq(_, elem, _, _) => ErasesCompat(elem, r.elem);
    case Struct(fields) =>
      forall i | 0 <= i < |fields|
        ensures Compat(fields[i], r.fields[i]) && Compat(r.fields[i], fields[i])
      {
        ErasesCompat(fields[i], r.fields[i]);
      }
    case Union(arms) =>
      forall i, j | 0 <= i < |arms| && 0 <= j < |r.arms| && arms[i].tag == r.arms[j].tag
        ensures Compat(arms[i].codec, r.arms[j].codec) && Compat(r.arms[j].codec, arms[i].codec)
      {
        LookupDistinct(arms, i);
        ErasesCompat(arms[i].codec, r.arms[j].codec);
      }
    case Map(_, _, val) => ErasesCompat(val, r.val);
    case _ =>
  }

  /** A schema is a version of itself. */
  lemma {:induction false} ErasesSelf(c: Codec)
    requires WF(c)
    ensures Erases(c, c)
  {
    match c
    case Pointer(elem) => ErasesSelf(elem);
    case Seq(_, elem, _, _) => ErasesSelf(elem);
    case Struct(fields) =>
      forall i | 0 <= i < |fields|
        ensures Erases(fields[i], fields[i])
      {
        ErasesSelf(fields[i]);
      }
    case Union(arms) =>
      forall j | 0 <= j < |arms|
        ensures Lookup(arms, arms[j].tag) == j && Erases(arms[j].codec, arms[j].codec)
      {
        LookupDistinct(arms, j);
        ErasesSelf(arms[j].codec);
      }
    case Map(_, _, val) => ErasesSelf(val);
    case _ =>
  }

  /** The same arm, or one whose own unions have lost some. */
  predicate ArmVersion(a: Arm, b: Arm) {
    a.tag == b.tag && Erases(a.codec, b.codec)
  }

  predicate HasVersion(arms: seq<Arm>, b: Arm) {
    exists i :: 0 <= i < |arms| && ArmVersion(arms[i], b)
  }

  /** Any choice of a union's arms, in any order and each replaced by a version of itself, is a version of it. */
  lemma ArmsChosen(arms: seq<Arm>, chosen: seq<Arm>)
    requires DistinctTags(arms)
    requires forall j :: 0 <= j < |chosen| ==> HasVersion(arms, chosen[j])
    ensures Erases(Union(arms), Union(chosen))
  {
    hide Lookup;
    forall j | 0 <= j < |chosen|
      ensures var i := Lookup(arms, chosen[j].tag); i >= 0 && Erases(arms[i].codec, chosen[j].codec)
    {
      var i :| 0 <= i < |arms| && ArmVersion(arms[i], chosen[j]);
      LookupDistinct(arms, i);
    }
  }

  /** Deleting any one arm of a union makes a version of it. */
  lemma ArmDeleted(arms: seq<Arm>, k: nat, less: seq<Arm>)
    requires WF(Union(arms)) && k < |arms| && less == arms[..k] + arms[k + 1..]
    ensures Erases(Union(arms), Union(less))
  {
    forall j | 0 <= j < |less|
      ensures HasVersion(arms, less[j])
    {
      var i := if j < k then j else j + 1;
      assert less[j] == arms[i] && WF(arms[i].codec);
      ErasesSelf(arms[i].codec);
      assert ArmVersion(arms[i], less[j]);
    }
    ArmsChosen(arms, less);
  }

  /** Versions of the parts make a version of the whole, wherever a union may be. */
  lemma VersionInside(
    w: Codec, r: Codec, ws: seq<Codec>, k: nat, f: Flavour, isArray: bool, n: nat, m: MapFlavour, key: Codec)
    requires Erases(w, r)
    requires k < |ws| && forall i :: 0 <= i < |ws| ==> WF(ws[i])
    ensures Erases(Pointer(w), Pointer(r))
    ensures Erases(Seq(f, w, isArray, n), Seq(f, r, isArray, n))
    ensures Erases(Map(m, key, w), Map(m, key, r))
    ensures Erases(Struct(ws[k := w]), Struct(ws[k := r]))
  {
    var before, after := ws[k := w], ws[k := r];
    forall i | 0 <= i < |ws|
      ensures Erases(before[i], after[i])
    {
      if i != k {
        ErasesSelf(ws[i]);
      }
    }
  }

  /** `v` selects, wherever it has a union, an arm that `r` still knows. */
  predicate Kept(w: Codec, r: Codec, v: Value)
    decreases w
  {
    match w
    case Pointer(elem) => v.VPtr? && r.Pointer? ==> Kept(elem, r.elem, v.v)
    case Seq(_, elem, _, _) => v.VSeq? && r.Seq? ==> forall i :: 0 <= i < |v.vs| ==> Kept(elem, r.elem, v.vs[i])
    case Struct(fields) =>
      v.VSeq? && r.Struct? && |v.vs| == |fields| == |r.fields| ==>
        forall i :: 0 <= i < |fields| ==> Kept(fields[i], r.fields[i], v.vs[i])
    case Union(arms) =>
      v.VSlots? && r.Union? && |v.slots| == |arms| && Selected(v.slots) >= 0 ==>
        var i := Selected(v.slots);
        var j := Lookup(r.arms, arms[i].tag);
        j >= 0 && Kept(arms[i].codec, r.arms[j].codec, v.slots[i].v)
    case Map(_, _, val) =>
      v.VMap? && r.Map? ==> forall i :: 0 <= i < |v.es| ==> Kept(val, r.val, v.es[i].val)
    case _ => true
  }

  /** What a value becomes when a reader with schema `r` passes it back to schema `w`. */
  function ThereAndBack(w: Codec, r: Codec, v: Value): Value {
    Project(r, w, Project(w, r, v))
  }

  /** The reader sees the whole value exactly when it knows every arm the value selects. */
  lemma {:induction false} WholeIffKept(w: Codec, r: Codec, v: Value)
    requires WF(w) && WF(r) && Compat(w, r) && Typed(w, v) && Encodable(w, v)
    ensures Kept(w, r, v) <==> ThereAndBack(w, r, v) == v
    decreases w, 1
  {
    match w
    case Pointer(elem) =>
      if v.VPtr? {
        WholeIffKept(elem, r.elem, v.v);
      }
    case Seq(_, elem, _, _) => WholeMany(elem, r.elem, v.vs);
    case Struct(fields) => WholeFields(fields, r.fields, v.vs);
    case Union(_) => WholeUnion(w, r, v);
    case Map(_, _, _) => WholeEntries(w, r, v.es);
    case _ =>
  }

  lemma ConsEqual<T>(x: T, xs: seq<T>, y: T, ys: seq<T>)
    ensures [x] + xs == [y] + ys <==> x == y && xs == ys
  {
    assert ([x] + xs)[0] == x && ([x] + xs)[1..] == xs;
    assert ([y] + ys)[0] == y && ([y] + ys)[1..] == ys;
  }

  lemma {:induction false} WholeMany(w: Codec, r: Codec, vs: seq<Value>)
    requires WF(w) && WF(r) && Compat(w, r)
    requires forall i :: 0 <= i < |vs| ==> Typed(w, vs[i]) && Encodable(w, vs[i])
    ensures (forall i :: 0 <= i < |vs| ==> Kept(w, r, vs[i])) <==> ProjectMany(r, w, ProjectMany(w, r, vs)) == vs
    decreases w, 2, |vs|
  {
    hide Kept, Project, Typed, Encodable;
    if vs != [] {
      WholeIffKept(w, r, vs[0]);
      WholeMany(w, r, vs[1..]);
      var us := ProjectMany(w, r, vs[1..]);
      assert ProjectMany(w, r, vs)[1..] == us;
      ConsEqual(ThereAndBack(w, r, vs[0]), ProjectMany(r, w, us), vs[0], vs[1..]);
      assert [vs[0]] + vs[1..] == vs;
      assert (forall i :: 0 <= i < |vs| ==> Kept(w, r, vs[i])) <==>
        Kept(w, r, vs[0]) && forall i :: 0 <= i < |vs[1..]| ==> Kept(w, r, vs[1..][i]) by {
        AllSplit(w, r, vs);
      }
    }
  }

  lemma AllSplit(w: Codec, r: Codec, vs: seq<Value>)
    requires vs != []
    ensures (forall i :: 0 <= i < |vs| ==> Kept(w, r, vs[i])) <==>
      Kept(w, r, vs[0]) && forall i :: 0 <= i < |vs[1..]| ==> Kept(w, r, vs[1..][i])
  {
    hide Kept;
    if Kept(w, r, vs[0]) && forall i :: 0 <= i < |vs[1..]| ==> Kept(w, r, vs[1..][i]) {
      forall i | 0 <= i < |vs|
        ensures Kept(w, r, vs[i])
      {
        if i > 0 {
          assert vs[i] == vs[1..][i - 1];
        }
      }
    }
  }

  lemma {:induction false} WholeFields(ws: seq<Codec>, rs: seq<Codec>, vs: seq<Value>)
    requires |ws| == |rs| == |vs|
    requires forall i :: 0 <= i < |ws| ==> WF(ws[i]) && WF(rs[i]) && Compat(ws[i], rs[i])
    requires forall i :: 0 <= i < |ws| ==> Typed(ws[i], vs[i]) && Encodable(ws[i], vs[i])
    ensures (forall i :: 0 <= i < |ws| ==> Kept(ws[i], rs[i], vs[i])) <==>
      ProjectFields(rs, ws, ProjectFields(ws, rs, vs)) == vs
    decreases ws, 0
  {
    hide Kept, Project, Typed, Encodable, WF, Compat;
    if ws != [] {
      WholeIffKept(ws[0], rs[0], vs[0]);
      WholeFields(ws[1..], rs[1..], vs[1..]);
      var us := ProjectFields(ws[1..], rs[1..], vs[1..]);
      assert ProjectFields(ws, rs, vs)[1..] == us;
      ConsEqual(ThereAndBack(ws[0], rs[0], vs[0]), ProjectFields(rs[1..], ws[1..], us), vs[0], vs[1..]);
      assert [vs[0]] + vs[1..] == vs;
      AllFieldsSplit(ws, rs, vs);
    }
  }

  lemma AllFieldsSplit(ws: seq<Codec>, rs: seq<Codec>, vs: seq<Value>)
    requires |ws| == |rs| == |vs| && ws != []
    ensures (forall i :: 0 <= i < |ws| ==> Kept(ws[i], rs[i], vs[i])) <==>
      Kept(ws[0], rs[0], vs[0]) && forall i :: 0 <= i < |ws[1..]| ==> Kept(ws[1..][i], rs[1..][i], vs[1..][i])
  {
    hide Kept;
    if Kept(ws[0], rs[0], vs[0]) && forall i :: 0 <= i < |ws[1..]| ==> Kept(ws[1..][i], rs[1..][i], vs[1..][i]) {
      forall i | 0 <= i < |ws|
        ensures Kept(ws[i], rs[i], vs[i])
      {
        if i > 0 {
          assert Kept(ws[1..][i - 1], rs[1..][i - 1], vs[1..][i - 1]);
        }
      }
    }
  }

  lemma {:induction false} WholeUnion(w: Codec, r: Codec, v: Value)
    requires w.Union? && WF(w) && WF(r) && Compat(w, r) && Typed(w, v) && Encodable(w, v)
    ensures Kept(w, r, v) <==> ThereAndBack(w, r, v) == v
    decreases w, 0
  {
    var i := Selected(v.slots);
    SlotsOfOne(v.slots);
    if i < 0 {
      assert Selected(Nils(|r.arms|)) < 0;
    } else {
      var j := Lookup(r.arms, w.arms[i].tag);
      if j < 0 {
        assert Project(w, r, v) == VSlots(Nils(|r.arms|));
        assert Selected(Nils(|r.arms|)) < 0;
        assert ThereAndBack(w, r, v) == VSlots(Nils(|w.arms|));
        assert Nils(|w.arms|)[i] != v.slots[i];
      } else {
        LookupDistinct(w.arms, i);
        var wi, rj, x := w.arms[i].codec, r.arms[j].codec, v.slots[i].v;
        WholeIffKept(wi, rj, x);
        SelectedOne(|r.arms|, j, Project(wi, rj, x));
        var back := Nils(|w.arms|)[i := VPtr(ThereAndBack(wi, rj, x))];
        assert ThereAndBack(w, r, v) == VSlots(back);
        assert back[i] == VPtr(ThereAndBack(wi, rj, x));
      }
    }
  }

  lemma {:induction false} WholeEntries(w: Codec, r: Codec, es: seq<Entry>)
    requires w.Map? && WF(w) && WF(r) && Compat(w, r)
    requires forall i :: 0 <= i < |es| ==> Typed(w.val, es[i].val) && Encodable(w.val, es[i].val)
    ensures (forall i :: 0 <= i < |es| ==> Kept(w.val, r.val, es[i].val)) <==>
      ProjectEntries(r, w, ProjectEntries(w, r, es)) == es
    decreases w, 0, |es|
  {
    hide Kept, Project, Typed, Encodable;
    if es != [] {
      WholeIffKept(w.val, r.val, es[0].val);
      WholeEntries(w, r, es[1..]);
      var us := ProjectEntries(w, r, es[1..]);
      assert ProjectEntries(w, r, es)[1..] == us;
      ConsEqual(Entry(es[0].key, ThereAndBack(w.val, r.val, es[0].val)), ProjectEntries(r, w, us), es[0], es[1..]);
      assert [es[0]] + es[1..] == es;
      AllEntriesSplit(w.val, r.val, es);
    }
  }

  lemma AllEntriesSplit(w: Codec, r: Codec, es: seq<Entry>)
    requires es != []
    ensures (forall i :: 0 <= i < |es| ==> Kept(w, r, es[i].val)) <==>
      Kept(w, r, es[0].val) && forall i :: 0 <= i < |es[1..]| ==> Kept(w, r, es[1..][i].val)
  {
    hide Kept;
    if Kept(w, r, es[0].val) && forall i :: 0 <= i < |es[1..]| ==> Kept(w, r, es[1..][i].val) {
      forall i | 0 <= i < |es|
        ensures Kept(w, r, es[i].val)
      {
        if i > 0 {
          assert es[i] == es[1..][i - 1];
        }
      }
    }
  }

  /** A schema with more arms knows every arm an older value can select. */
  lemma {:induction false} NewerKeeps(w: Codec, r: Codec, v: Value)
    requires Erases(w, r) && Typed(r, v)
    ensures Kept(r, w, v)
    decreases w
  {
    match w
    case Pointer(elem) =>
      if v.VPtr? {
        NewerKeeps(elem, r.elem, v.v);
      }
    case Seq(_, elem, _, _) =>
      forall i | 0 <= i < |v.vs|
        ensures Kept(r.elem, elem, v.vs[i])
      {
        NewerKeeps(elem, r.elem, v.vs[i]);
      }
    case Struct(fields) =>
      forall i | 0 <= i < |fields|
        ensures Kept(r.fields[i], fields[i], v.vs[i])
      {
        NewerKeeps(fields[i], r.fields[i], v.vs[i]);
      }
    case Union(arms) =>
      var j := Selected(v.slots);
      if j >= 0 {
        var i := Lookup(arms, r.arms[j].tag);
        NewerKeeps(arms[i].codec, r.arms[j].codec, v.slots[j].v);
      }
    case Map(_, _, val) =>
      forall i | 0 <= i < |v.es|
        ensures Kept(r.val, val, v.es[i].val)
      {
        NewerKeeps(val, r.val, v.es[i].val);
      }
    case _ =>
  }

  /**
   A reader whose schema lacks some arms reads every payload of the full schema: the same bytes are
   consumed, and the value is whole exactly when it selects no deleted arm.
   */
  lemma ForwardCompatible(w: Codec, r: Codec, v: Value, rest: bytes)
    requires WF(w) && WF(r) && Erases(w, r) && Typed(w, v) && Encodable(w, v)
    ensures Dec(r, Enc(w, v) + rest) == Ok(Project(w, r, v), rest)
    ensures Kept(w, r, v) <==> ThereAndBack(w, r, v) == v
  {
    ErasesCompat(w, r);
    CrossSchema(w, r, v, rest);
    WholeIffKept(w, r, v);
  }

  /**
   A reader with added arms reads old payloads unchanged: passed back to the old schema, the value it
   decodes is the value that was written.
   */
  lemma BackwardCompatible(older: Codec, newer: Codec, v: Value, rest: bytes)
    requires WF(older) && WF(newer) && Erases(newer, older) && Typed(older, v) && Encodable(older, v)
    ensures Dec(newer, Enc(older, v) + rest) == Ok(Project(older, newer, v), rest)
    ensures ThereAndBack(older, newer, v) == v
  {
    ErasesCompat(newer, older);
    CrossSchema(older, newer, v, rest);
    NewerKeeps(newer, older, v);
    WholeIffKept(older, newer, v);
  }

  // ---------------------------------------------------------------- the order of map entries

  /** The Go map a list of entries stands for. */
  function MapOf(es: seq<Entry>): map<Value, Value> {
    if es == [] then map[]
    else
      var last := |es| - 1;
      MapOf(es[..last])[es[last].key := es[last].val]
  }

  /** Two iteration orders of one map: each lists every entry once. */
  ghost predicate SameEntries(es: seq<Entry>, fs: seq<Entry>) {
    DistinctKeys(es) && DistinctKeys(fs) && forall e :: e in es <==> e in fs
  }

  lemma {:induction false} MapOfEntries(es: seq<Entry>)
    requires DistinctKeys(es)
    ensures forall e :: e in es ==> e.key in MapOf(es) && MapOf(es)[e.key] == e.val
    ensures forall k :: k in MapOf(es) ==> Entry(k, MapOf(es)[k]) in es
  {
    if es != [] {
      var last := |es| - 1;
      MapOfEntries(es[..last]);
      assert es == es[..last] + [es[last]];
    }
  }

  lemma SameMap(es: seq<Entry>, fs: seq<Entry>)
    requires SameEntries(es, fs)
    ensures MapOf(es) == MapOf(fs)
  {
    MapOfEntries(es);
    MapOfEntries(fs);
  }

  function Without(es: seq<Entry>, k: nat): seq<Entry>
    requires k < |es|
  {
    es[..k] + es[k + 1..]
  }

  lemma {:induction false} LengthWithout(c: Codec, es: seq<Entry>, k: nat)
    requires c.Map? && k < |es|
    ensures |EncEntries(c, es)|
         == |EncKey(c.key, es[k].key)| + |Enc(c.val, es[k].val)| + |EncEntries(c, Without(es, k))|
  {
    hide EncKey, Enc;
    if k == 0 {
      assert Without(es, 0) == es[1..];
    } else {
      LengthWithout(c, es[1..], k - 1);
      assert Without(es, k)[1..] == Without(es[1..], k - 1);
      assert Without(es, k)[0] == es[0];
    }
  }

  lemma {:induction false} SameLength(c: Codec, es: seq<Entry>, fs: seq<Entry>)
    requires c.Map? && SameEntries(es, fs)
    ensures |es| == |fs| && |EncEntries(c, es)| == |EncEntries(c, fs)|
  {
    hide EncKey, Enc;
    assert fs == [] || fs[0] in fs;
    if es == [] {
      assert fs == [];
    } else {
      assert es[0] in fs;
      var k :| 0 <= k < |fs| && fs[k] == es[0];
      WithoutSame(es, fs, k);
      SameLength(c, es[1..], Without(fs, k));
      LengthWithout(c, fs, k);
    }
  }

  lemma WithoutSame(es: seq<Entry>, fs: seq<Entry>, k: nat)
    requires SameEntries(es, fs) && es != [] && k < |fs| && fs[k] == es[0]
    ensures SameEntries(es[1..], Without(fs, k))
  {
    var gs := Without(fs, k);
    forall e
      ensures e in es[1..] <==> e in gs
    {
      if e in es[1..] {
        var i :| 0 <= i < |es[1..]| && es[1..][i] == e;
        assert es[i + 1] == e && es[0].key != e.key && e in fs;
        var j :| 0 <= j < |fs| && fs[j] == e;
        assert j != k && gs[if j < k then j else j - 1] == e;
      }
      if e in gs {
        var j :| 0 <= j < |gs| && gs[j] == e;
        var j' := if j < k then j else j + 1;
        assert fs[j'] == e && j' != k && fs[k].key != e.key;
        assert e in es;
      }
    }
  }

  /** Whatever order Go iterates one map in, the encoding has the same length and decodes to the same map. */
  lemma EntryOrder(c: Codec, es: seq<Entry>, fs: seq<Entry>, rest: bytes)
    requires c.Map? && WF(c) && Typed(c, VMap(es)) && Encodable(c, VMap(es)) && SameEntries(es, fs)
    ensures var r := Dec(c, Enc(c, VMap(fs)) + rest);
      r.Ok? && r.val.VMap? && MapOf(r.val.es) == MapOf(es) && r.rest == rest
    ensures |Enc(c, VMap(fs))| == |Enc(c, VMap(es))|
  {
    SameMap(es, fs);
    SameLength(c, es, fs);
    assert |Enc(c, VMap(fs))| == |Enc(c, VMap(es))|;
    SameGood(c, es, fs);
    hide Enc, Dec, Typed, Encodable, SameEntries;
    RoundTripLaw(c, VMap(fs), rest);
  }

  lemma SameGood(c: Codec, es: seq<Entry>, fs: seq<Entry>)
    requires c.Map? && Typed(c, VMap(es)) && Encodable(c, VMap(es)) && SameEntries(es, fs) && |es| == |fs|
    ensures Typed(c, VMap(fs)) && Encodable(c, VMap(fs))
  {
    forall i | 0 <= i < |fs|
      ensures fs[i] in es
    {
    }
  }
}
