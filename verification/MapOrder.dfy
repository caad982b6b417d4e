/**
 The order in which Go iterates maps, at every level of a value. Two values that list the entries of
 their maps in different orders, in maps inside maps too, stand for the same Go value.
 */
module MapOrder {
  import opened Wire
  import opened Varint
  import opened Codec
  import opened RoundTrip
  import opened Compatibility

  /** The same Go value, whatever order its maps were iterated in. */
  ghost predicate SameUpToOrder(c: Codec, v: Value, u: Value)
    decreases c, 1
  {
    match c
    case Pointer(elem) => v == u || (v.VPtr? && u.VPtr? && SameUpToOrder(elem, v.v, u.v))
    case Seq(_, elem, _, _) =>
      && v.VSeq? && u.VSeq? && |v.vs| == |u.vs|
      && forall i :: 0 <= i < |v.vs| ==> SameUpToOrder(elem, v.vs[i], u.vs[i])
    case Struct(fields) =>
      && v.VSeq? && u.VSeq? && |v.vs| == |u.vs| == |fields|
      && forall i :: 0 <= i < |fields| ==> SameUpToOrder(fields[i], v.vs[i], u.vs[i])
    case Union(arms) =>
      && v.VSlots? && u.VSlots? && |v.slots| == |u.slots| == |arms|
      && forall i :: 0 <= i < |arms| ==>
           || v.slots[i] == u.slots[i]
           || (v.slots[i].VPtr? && u.slots[i].VPtr? && SameUpToOrder(arms[i].codec, v.slots[i].v, u.slots[i].v))
    case Map(_, _, _) => v.VMap? && u.VMap? && SameListing(c, v.es, u.es)
    case _ => v == u
  }

  ghost predicate Like(c: Codec, e: Entry, f: Entry)
    requires c.Map?
    decreases c, 0, 0
  {
    e.key == f.key && SameUpToOrder(c.val, e.val, f.val)
  }

  ghost predicate HasLike(c: Codec, e: Entry, fs: seq<Entry>)
    requires c.Map?
    decreases c, 0, 1
  {
    exists j :: 0 <= j < |fs| && Like(c, e, fs[j])
  }

  ghost predicate IsLike(c: Codec, es: seq<Entry>, f: Entry)
    requires c.Map?
    decreases c, 0, 1
  {
    exists i :: 0 <= i < |es| && Like(c, es[i], f)
  }

  /** Each entry of one list has its like in the other. */
  ghost predicate SameListing(c: Codec, es: seq<Entry>, fs: seq<Entry>)
    requires c.Map?
    decreases c, 0, 2
  {
    && DistinctKeys(es) && DistinctKeys(fs)
    && (forall i :: 0 <= i < |es| ==> HasLike(c, es[i], fs))
    && (forall j :: 0 <= j < |fs| ==> IsLike(c, es, fs[j]))
  }

  lemma LikeIn(c: Codec, e: Entry, fs: seq<Entry>) returns (j: nat)
    requires c.Map? && HasLike(c, e, fs)
    ensures j < |fs| && Like(c, e, fs[j]) && e.key == fs[j].key && SameUpToOrder(c.val, e.val, fs[j].val)
  {
    j :| 0 <= j < |fs| && Like(c, e, fs[j]);
  }

  lemma LikeOf(c: Codec, es: seq<Entry>, f: Entry) returns (i: nat)
    requires c.Map? && IsLike(c, es, f)
    ensures i < |es| && Like(c, es[i], f) && es[i].key == f.key && SameUpToOrder(c.val, es[i].val, f.val)
  {
    i :| 0 <= i < |es| && Like(c, es[i], f);
  }

  lemma FoundIn(c: Codec, e: Entry, fs: seq<Entry>, j: nat)
    requires c.Map? && j < |fs| && Like(c, e, fs[j])
    ensures HasLike(c, e, fs)
  {
  }

  lemma FoundOf(c: Codec, es: seq<Entry>, f: Entry, i: nat)
    requires c.Map? && i < |es| && Like(c, es[i], f)
    ensures IsLike(c, es, f)
  {
  }

  /** One entry and its like taken out of both lists. */
  lemma TakeOut(c: Codec, es: seq<Entry>, fs: seq<Entry>, k: nat)
    requires c.Map? && SameListing(c, es, fs) && es != [] && k < |fs| && fs[k].key == es[0].key
    ensures SameListing(c, es[1..], Without(fs, k))
  {
    hide SameUpToOrder, HasLike, IsLike, Like;
    var es1, gs := es[1..], Without(fs, k);
    forall i | 0 <= i < |es1|
      ensures HasLike(c, es1[i], gs)
    {
      var j := LikeIn(c, es[i + 1], fs);
      assert es[0].key != es[i + 1].key;
      var j' := if j < k then j else j - 1;
      assert gs[j'] == fs[j];
      FoundIn(c, es1[i], gs, j');
    }
    forall j | 0 <= j < |gs|
      ensures IsLike(c, es1, gs[j])
    {
      var j' := if j < k then j else j + 1;
      assert gs[j] == fs[j'] && fs[j'].key != fs[k].key;
      var i := LikeOf(c, es, fs[j']);
      assert es1[i - 1] == es[i];
      FoundOf(c, es1, gs[j], i - 1);
    }
  }

  /** The same value is as representable, and as long on the wire. */
  lemma {:induction false} SameOnWire(c: Codec, v: Value, u: Value)
    requires WF(c) && Typed(c, v) && Encodable(c, v) && SameUpToOrder(c, v, u)
    ensures Typed(c, u) && Encodable(c, u) && |Enc(c, u)| == |Enc(c, v)|
    decreases c, 1
  {
    match c
    case Pointer(elem) =>
      if v != u {
        SameOnWire(elem, v.v, u.v);
      }
    case Seq(_, elem, isArray, _) => ManyOnWire(elem, v.vs, u.vs);
    case Struct(fields) => FieldsOnWire(fields, v.vs, u.vs);
    case Union(_) => UnionOnWire(c, v.slots, u.slots);
    case Map(_, _, _) => MapOnWire(c, v.es, u.es);
    case _ =>
  }

  lemma {:induction false} ManyOnWire(c: Codec, vs: seq<Value>, us: seq<Value>)
    requires WF(c) && |vs| == |us|
    requires forall i :: 0 <= i < |vs| ==> Typed(c, vs[i]) && Encodable(c, vs[i]) && SameUpToOrder(c, vs[i], us[i])
    ensures forall i :: 0 <= i < |us| ==> Typed(c, us[i]) && Encodable(c, us[i])
    ensures |EncMany(c, us)| == |EncMany(c, vs)|
    decreases c, 2, |vs|
  {
    hide Enc, Typed, Encodable, SameUpToOrder, WF;
    if vs != [] {
      SameOnWire(c, vs[0], us[0]);
      ManyOnWire(c, vs[1..], us[1..]);
      assert forall i :: 1 <= i < |us| ==> us[i] == us[1..][i - 1];
    }
  }

  lemma {:induction false} FieldsOnWire(fs: seq<Codec>, vs: seq<Value>, us: seq<Value>)
    requires |fs| == |vs| == |us|
    requires forall i :: 0 <= i < |fs| ==>
      WF(fs[i]) && Typed(fs[i], vs[i]) && Encodable(fs[i], vs[i]) && SameUpToOrder(fs[i], vs[i], us[i])
    ensures forall i :: 0 <= i < |fs| ==> Typed(fs[i], us[i]) && Encodable(fs[i], us[i])
    ensures |EncFields(fs, us)| == |EncFields(fs, vs)|
    decreases fs, 0
  {
    hide Enc, Typed, Encodable, SameUpToOrder, WF;
    if fs != [] {
      SameOnWire(fs[0], vs[0], us[0]);
      FieldsOnWire(fs[1..], vs[1..], us[1..]);
      assert forall i :: 1 <= i < |us| ==> us[i] == us[1..][i - 1] && fs[i] == fs[1..][i - 1];
    }
  }

  lemma {:induction false} UnionOnWire(c: Codec, vs: seq<Value>, us: seq<Value>)
    requires c.Union? && WF(c) && Typed(c, VSlots(vs)) && Encodable(c, VSlots(vs))
    requires SameUpToOrder(c, VSlots(vs), VSlots(us))
    ensures Typed(c, VSlots(us)) && Encodable(c, VSlots(us)) && |Enc(c, VSlots(us))| == |Enc(c, VSlots(vs))|
    decreases c, 0
  {
    hide Uvarint;
    forall i | 0 <= i < |us| && us[i].VPtr?
      ensures Typed(c.arms[i].codec, us[i].v) && Encodable(c.arms[i].codec, us[i].v)
      ensures |Enc(c.arms[i].codec, us[i].v)| == |Enc(c.arms[i].codec, vs[i].v)|
    {
      if vs[i] != us[i] {
        SameOnWire(c.arms[i].codec, vs[i].v, us[i].v);
      }
    }
    hide Enc, EncUnion, SameUpToOrder;
    UnionLength(c, vs);
    UnionLength(c, us);
    assert Selected(us) == Selected(vs);
  }

  lemma UnionLength(c: Codec, slots: seq<Value>)
    requires c.Union? && |slots| == |c.arms|
    ensures var i := Selected(slots);
      |Enc(c, VSlots(slots))| ==
        if i < 0 then |Uvarint(0)| + |Uvarint(0)|
        else
          var n := |Enc(c.arms[i].codec, slots[i].v)|;
          |Uvarint(c.arms[i].tag)| + |Uvarint(n)| + n
  {
    hide Uvarint;
  }

  lemma {:induction false} MapOnWire(c: Codec, es: seq<Entry>, fs: seq<Entry>)
    requires c.Map? && WF(c) && Typed(c, VMap(es)) && Encodable(c, VMap(es)) && SameListing(c, es, fs)
    ensures Typed(c, VMap(fs)) && Encodable(c, VMap(fs)) && |Enc(c, VMap(fs))| == |Enc(c, VMap(es))|
    decreases c, 0
  {
    MapGood(c, es);
    MapGood(c, fs);
    MapSize(c, es);
    MapSize(c, fs);
    hide Enc, Typed, Encodable, WF, SameUpToOrder, EntryGood, EncEntries, HasLike, IsLike;
    EntriesOnWire(c, es, fs);
    forall j | 0 <= j < |fs|
      ensures EntryGood(c, fs[j])
    {
      var i := LikeOf(c, es, fs[j]);
      LikeGood(c, es[i], fs[j]);
    }
  }

  ghost predicate EntryGood(c: Codec, e: Entry)
    requires c.Map?
  {
    && Typed(c.key, e.key) && Typed(c.val, e.val)
    && KeyFits(c.key, e.key) && Encodable(c.key, e.key) && Encodable(c.val, e.val)
  }

  lemma MapGood(c: Codec, es: seq<Entry>)
    requires c.Map? && WF(c)
    ensures WF(c.val)
    ensures Typed(c, VMap(es)) && Encodable(c, VMap(es)) <==>
      |es| <= MAX_INT && DistinctKeys(es) && forall i :: 0 <= i < |es| ==> EntryGood(c, es[i])
  {
  }

  lemma MapSize(c: Codec, es: seq<Entry>)
    requires c.Map?
    ensures |Enc(c, VMap(es))| == |Uvarint(|es|)| + |EncEntries(c, es)|
  {
  }

  lemma {:induction false} LikeGood(c: Codec, e: Entry, f: Entry)
    requires c.Map? && WF(c.val) && EntryGood(c, e) && e.key == f.key && SameUpToOrder(c.val, e.val, f.val)
    ensures EntryGood(c, f)
    decreases c.val, 3
  {
    hide Typed, Encodable, WF, SameUpToOrder;
    SameOnWire(c.val, e.val, f.val);
  }

  lemma {:induction false} EntriesOnWire(c: Codec, es: seq<Entry>, fs: seq<Entry>)
    requires c.Map? && WF(c.val) && SameListing(c, es, fs)
    requires forall i :: 0 <= i < |es| ==> EntryGood(c, es[i])
    ensures |es| == |fs| && |EncEntries(c, es)| == |EncEntries(c, fs)|
    decreases c.val, 3, |es|
  {
    hide Enc, EncKey, Typed, Encodable, SameUpToOrder, WF, HasLike, IsLike, Like;
    if es == [] {
      if fs != [] {
        var i := LikeOf(c, es, fs[0]);
      }
    } else {
      var k := LikeIn(c, es[0], fs);
      assert EntryGood(c, es[0]);
      SameOnWire(c.val, es[0].val, fs[k].val);
      TakeOut(c, es, fs, k);
      EntriesOnWire(c, es[1..], Without(fs, k));
      LengthWithout(c, fs, k);
    }
  }

  lemma {:induction false} SameSelf(c: Codec, v: Value)
    requires Typed(c, v)
    ensures SameUpToOrder(c, v, v)
    decreases c
  {
    match c
    case Seq(_, elem, _, _) =>
      forall i | 0 <= i < |v.vs|
        ensures SameUpToOrder(elem, v.vs[i], v.vs[i])
      {
        SameSelf(elem, v.vs[i]);
      }
    case Struct(fields) =>
      forall i | 0 <= i < |fields|
        ensures SameUpToOrder(fields[i], v.vs[i], v.vs[i])
      {
        SameSelf(fields[i], v.vs[i]);
      }
    case Map(_, _, val) =>
      forall i | 0 <= i < |v.es|
        ensures Like(c, v.es[i], v.es[i])
      {
        SameSelf(val, v.es[i].val);
      }
    case _ =>
  }

  /** Listing the entries of one map in another order is a special case. */
  lemma OuterOrder(c: Codec, es: seq<Entry>, fs: seq<Entry>)
    requires c.Map? && Typed(c, VMap(es)) && SameEntries(es, fs)
    ensures SameUpToOrder(c, VMap(es), VMap(fs))
  {
    forall i | 0 <= i < |es|
      ensures Like(c, es[i], es[i]) && HasLike(c, es[i], fs)
    {
      SameSelf(c.val, es[i].val);
      assert es[i] in fs;
      var j :| 0 <= j < |fs| && fs[j] == es[i];
      FoundIn(c, es[i], fs, j);
    }
    forall j | 0 <= j < |fs|
      ensures IsLike(c, es, fs[j])
    {
      assert fs[j] in es;
      var i :| 0 <= i < |es| && es[i] == fs[j];
      FoundOf(c, es, fs[j], i);
    }
  }

  /**
   In whatever order Go iterates the maps of a value, at every level, the encoding has the same length
   and decodes, before any suffix, to the same value.
   */
  lemma IterationOrder(c: Codec, v: Value, u: Value, rest: bytes)
    requires WF(c) && Typed(c, v) && Encodable(c, v) && SameUpToOrder(c, v, u)
    ensures |Enc(c, u)| == |Enc(c, v)|
    ensures var d := Dec(c, Enc(c, u) + rest); d.Ok? && SameUpToOrder(c, v, d.val) && d.rest == rest
  {
    hide Enc, Dec, Typed, Encodable, SameUpToOrder, WF;
    SameOnWire(c, v, u);
    RoundTripLaw(c, u, rest);
  }
}
