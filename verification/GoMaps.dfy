/** Go values whose maps are maps, and not lists of entries: what two lists have in common when they are one value. */
module GoMaps {
  import opened Wire
  import opened Codec
  import opened Compatibility
  import opened MapOrder

  datatype Plain =
    | PLeaf(v: Value)
    | PPtr(target: Plain)
    | PSeq(vs: seq<Plain>)
    | PSlots(slots: seq<Plain>)
    | PMap(m: map<Value, Plain>)

  /** The value without the order of its maps' entries. */
  function Unordered(v: Value): Plain
    decreases v
  {
    match v
    case VPtr(x) => PPtr(Unordered(x))
    case VSeq(vs) => PSeq(UnorderedMany(vs))
    case VSlots(slots) => PSlots(UnorderedMany(slots))
    case VMap(es) => PMap(UnorderedMap(es))
    case _ => PLeaf(v)
  }

  function UnorderedMany(vs: seq<Value>): (r: seq<Plain>)
    ensures |r| == |vs| && forall i :: 0 <= i < |vs| ==> r[i] == Unordered(vs[i])
    decreases vs
  {
    if vs == [] then [] else [Unordered(vs[0])] + UnorderedMany(vs[1..])
  }

  function UnorderedMap(es: seq<Entry>): map<Value, Plain>
    decreases es
  {
    if es == [] then map[] else UnorderedMap(es[1..])[es[0].key := UnorderedVal(es[0])]
  }

  function UnorderedVal(e: Entry): Plain
    decreases e
  {
    Unordered(e.val)
  }

  predicate Holds(es: seq<Entry>, k: Value, x: Plain) {
    exists i :: 0 <= i < |es| && es[i].key == k && Unordered(es[i].val) == x
  }

  lemma {:induction false} MapHolds(es: seq<Entry>, k: Value, x: Plain)
    requires DistinctKeys(es)
    ensures k in UnorderedMap(es) && UnorderedMap(es)[k] == x <==> Holds(es, k, x)
  {
    hide Unordered;
    if es != [] {
      var tail := es[1..];
      MapHolds(tail, k, x);
      assert forall i :: 0 <= i < |tail| ==> tail[i] == es[i + 1];
      assert forall i :: 1 <= i < |es| ==> es[i] == tail[i - 1];
      if es[0].key == k {
        assert forall i :: 0 <= i < |tail| ==> tail[i].key != k;
      }
    }
  }

  lemma SameMap(es: seq<Entry>, fs: seq<Entry>)
    requires DistinctKeys(es) && DistinctKeys(fs)
    ensures UnorderedMap(es) == UnorderedMap(fs) <==> forall k, x :: Holds(es, k, x) <==> Holds(fs, k, x)
  {
    hide Holds, UnorderedMap, DistinctKeys;
    var m, n := UnorderedMap(es), UnorderedMap(fs);
    forall k, x
      ensures k in m && m[k] == x <==> Holds(es, k, x)
      ensures k in n && n[k] == x <==> Holds(fs, k, x)
    {
      MapHolds(es, k, x);
      MapHolds(fs, k, x);
    }
    if forall k, x :: Holds(es, k, x) <==> Holds(fs, k, x) {
      forall k
        ensures k in m <==> k in n
        ensures k in m ==> m[k] == n[k]
      {
        if k in m {
          assert Holds(es, k, m[k]);
        }
        if k in n {
          assert Holds(fs, k, n[k]);
        }
      }
    }
  }

  /** Two lists of entries at every level are the same up to order exactly when they are the same Go value. */
  lemma {:induction false} SameExactly(c: Codec, v: Value, u: Value)
    requires Typed(c, v) && Typed(c, u)
    ensures SameUpToOrder(c, v, u) <==> Unordered(v) == Unordered(u)
    decreases c
  {
    match c
    case Pointer(elem) =>
      if v.VPtr? && u.VPtr? {
        SameExactly(elem, v.v, u.v);
      }
    case Seq(_, elem, _, _) =>
      forall i | 0 <= i < |v.vs| && i < |u.vs|
        ensures SameUpToOrder(elem, v.vs[i], u.vs[i]) <==> Unordered(v.vs[i]) == Unordered(u.vs[i])
      {
        SameExactly(elem, v.vs[i], u.vs[i]);
      }
    case Struct(fields) =>
      forall i | 0 <= i < |fields|
        ensures SameUpToOrder(fields[i], v.vs[i], u.vs[i]) <==> Unordered(v.vs[i]) == Unordered(u.vs[i])
      {
        SameExactly(fields[i], v.vs[i], u.vs[i]);
      }
    case Union(arms) => SameSlots(c, v, u);
    case Map(_, _, _) => SameEntriesExactly(c, v.es, u.es);
    case _ =>
  }

  lemma {:induction false} SameEntriesExactly(c: Codec, es: seq<Entry>, fs: seq<Entry>)
    requires c.Map? && Typed(c, VMap(es)) && Typed(c, VMap(fs))
    ensures SameUpToOrder(c, VMap(es), VMap(fs)) <==> Unordered(VMap(es)) == Unordered(VMap(fs))
    decreases c, 0
  {
    assert DistinctKeys(es) && DistinctKeys(fs);
    forall i, j | 0 <= i < |es| && 0 <= j < |fs|
      ensures SameUpToOrder(c.val, es[i].val, fs[j].val) <==> Unordered(es[i].val) == Unordered(fs[j].val)
    {
      SameExactly(c.val, es[i].val, fs[j].val);
    }
    assert Agree(c, es, fs);
    assert SameUpToOrder(c, VMap(es), VMap(fs)) <==> SameListing(c, es, fs);
    assert Unordered(VMap(es)) == Unordered(VMap(fs)) <==> UnorderedMap(es) == UnorderedMap(fs);
    hide *;
    SameLists(c, es, fs);
    SameMap(es, fs);
  }

  lemma {:induction false} SameSlots(c: Codec, v: Value, u: Value)
    requires c.Union? && Typed(c, v) && Typed(c, u)
    ensures SameUpToOrder(c, v, u) <==> Unordered(v) == Unordered(u)
    decreases c, 0
  {
    forall i | 0 <= i < |c.arms| && v.slots[i].VPtr? && u.slots[i].VPtr?
      ensures SameUpToOrder(c.arms[i].codec, v.slots[i].v, u.slots[i].v) <==>
        Unordered(v.slots[i].v) == Unordered(u.slots[i].v)
    {
      SameExactly(c.arms[i].codec, v.slots[i].v, u.slots[i].v);
    }
  }

  lemma Held(es: seq<Entry>, i: nat)
    requires i < |es|
    ensures Holds(es, es[i].key, Unordered(es[i].val))
  {
    hide Unordered;
  }

  /** On these two lists, values that are the same up to order are the same without it. */
  ghost predicate Agree(c: Codec, es: seq<Entry>, fs: seq<Entry>)
    requires c.Map?
  {
    forall i, j :: 0 <= i < |es| && 0 <= j < |fs| ==>
      (SameUpToOrder(c.val, es[i].val, fs[j].val) <==> Unordered(es[i].val) == Unordered(fs[j].val))
  }

  lemma SameLists(c: Codec, es: seq<Entry>, fs: seq<Entry>)
    requires c.Map? && DistinctKeys(es) && DistinctKeys(fs) && Agree(c, es, fs)
    ensures SameListing(c, es, fs) <==> forall k, x :: Holds(es, k, x) <==> Holds(fs, k, x)
  {
    hide Agree, Holds, HasLike, IsLike, DistinctKeys;
    if SameListing(c, es, fs) {
      forall k, x
        ensures Holds(es, k, x) <==> Holds(fs, k, x)
      {
        if Holds(es, k, x) {
          HeldRight(c, es, fs, k, x);
        }
        if Holds(fs, k, x) {
          HeldLeft(c, es, fs, k, x);
        }
      }
    }
    if forall k, x :: Holds(es, k, x) <==> Holds(fs, k, x) {
      forall i | 0 <= i < |es|
        ensures HasLike(c, es[i], fs)
      {
        assert Holds(es, es[i].key, Unordered(es[i].val)) by { Held(es, i); }
        ListedRight(c, es, fs, i);
      }
      forall j | 0 <= j < |fs|
        ensures IsLike(c, es, fs[j])
      {
        assert Holds(fs, fs[j].key, Unordered(fs[j].val)) by { Held(fs, j); }
        ListedLeft(c, es, fs, j);
      }
    }
  }

  lemma HeldRight(c: Codec, es: seq<Entry>, fs: seq<Entry>, k: Value, x: Plain)
    requires c.Map? && Agree(c, es, fs) && SameListing(c, es, fs) && Holds(es, k, x)
    ensures Holds(fs, k, x)
  {
    hide SameUpToOrder, Unordered;
    var i :| 0 <= i < |es| && es[i].key == k && Unordered(es[i].val) == x;
    var j := LikeIn(c, es[i], fs);
  }

  lemma HeldLeft(c: Codec, es: seq<Entry>, fs: seq<Entry>, k: Value, x: Plain)
    requires c.Map? && Agree(c, es, fs) && SameListing(c, es, fs) && Holds(fs, k, x)
    ensures Holds(es, k, x)
  {
    hide SameUpToOrder, Unordered;
    var j :| 0 <= j < |fs| && fs[j].key == k && Unordered(fs[j].val) == x;
    var i := LikeOf(c, es, fs[j]);
  }

  lemma ListedRight(c: Codec, es: seq<Entry>, fs: seq<Entry>, i: nat)
    requires c.Map? && Agree(c, es, fs) && i < |es| && Holds(fs, es[i].key, Unordered(es[i].val))
    ensures HasLike(c, es[i], fs)
  {
    hide SameUpToOrder, Unordered;
    var j :| 0 <= j < |fs| && fs[j].key == es[i].key && Unordered(fs[j].val) == Unordered(es[i].val);
    FoundIn(c, es[i], fs, j);
  }

  lemma ListedLeft(c: Codec, es: seq<Entry>, fs: seq<Entry>, j: nat)
    requires c.Map? && Agree(c, es, fs) && j < |fs| && Holds(es, fs[j].key, Unordered(fs[j].val))
    ensures IsLike(c, es, fs[j])
  {
    hide SameUpToOrder, Unordered;
    var i :| 0 <= i < |es| && es[i].key == fs[j].key && Unordered(es[i].val) == Unordered(fs[j].val);
    FoundOf(c, es, fs[j], i);
  }
}
