/**
 Parts of the wire format said byte by byte: the flag of a pointer, the width of a map key, what assigning to a map
 does, and which schemas are versions of one another.
 */
module Format {
  import opened Wire
  import opened Varint
  import opened Codec
  import opened RoundTrip
  import opened Compatibility
  import opened Analysis
  import opened GoFormat
  import opened GoLeaves

  // ---------------------------------------------------------------- pointers

  /** A pointer starts with the flag "is nil": 1 for nil, 0 before what a set pointer points at. */
  lemma PointerFlag(elem: Codec, v: Value)
    requires v.VNil? || v.VPtr?
    ensures Enc(Prim(KBool), VBool(true)) == [1] && Enc(Prim(KBool), VBool(false)) == [0]
    ensures var b := Enc(Pointer(elem), v);
      && b != [] && b[0] == (if v.VNil? then 1 else 0)
      && [b[0]] == Enc(Prim(KBool), VBool(v.VNil?))
      && b[1..] == if v.VPtr? then Enc(elem, v.v) else []
  {
    hide Enc;
    PointerBytes(elem, v);
    FlagBytes(true);
    FlagBytes(false);
    if v.VPtr? {
      assert ([0] + Enc(elem, v.v))[1..] == Enc(elem, v.v);
    }
  }

  lemma PointerBytes(elem: Codec, v: Value)
    ensures Enc(Pointer(elem), v) == if v.VPtr? then [0] + Enc(elem, v.v) else [1]
  {
  }

  lemma FlagBytes(flag: bool)
    ensures Enc(Prim(KBool), VBool(flag)) == [if flag then 1 else 0]
  {
  }

  /** The byte 1 alone is read as nil, and as true; any other byte is a set pointer, and false. */
  lemma FlagRead(elem: Codec, flag: byte, rest: bytes)
    ensures Dec(Prim(KBool), [flag] + rest) == Ok(VBool(flag == 1), rest)
    ensures flag == 1 ==> Dec(Pointer(elem), [flag] + rest) == Ok(VNil, rest)
    ensures flag != 1 ==>
      (Dec(elem, rest).Ok? ==> Dec(Pointer(elem), [flag] + rest) == Ok(VPtr(Dec(elem, rest).val), Dec(elem, rest).rest))
    ensures flag != 1 && Dec(elem, rest).Fail? ==> Dec(Pointer(elem), [flag] + rest) == Fail
    ensures Dec(Pointer(elem), []) == Fail && Dec(Prim(KBool), []) == Fail
  {
    assert ([flag] + rest)[1..] == rest && ([flag] + rest)[0] == flag;
  }

  // ---------------------------------------------------------------- map keys

  /** A 16-, 32- or 64-bit integer, but not `int` and `uint`. */
  predicate KeyWidth(k: Kind, w: nat) {
    match k
    case KInt(16, false) => w == 2
    case KInt(32, false) => w == 4
    case KInt(64, false) => w == 8
    case KUint(16, false) => w == 2
    case KUint(32, false) => w == 4
    case KUint(64, false) => w == 8
    case _ => false
  }

  /** The number of values of an integer of `w` bytes. */
  function Values(w: nat): (m: nat)
    ensures m > 0
  {
    if w == 2 then 0x1_0000 else if w == 4 then 0x1_0000_0000 else 0x1_0000_0000_0000_0000
  }

  /**
   An integer key has as many bytes as its type, the low byte first, and is read back from exactly that many: every
   byte string that is long enough holds a key, the number of the type with those low bytes.
   */
  lemma IntegerKey(k: Kind, w: nat, x: int, b: bytes)
    requires KeyWidth(k, w) && (k.KUint? ==> x >= 0)
    ensures var key := EncKey(Prim(k), if k.KInt? then VInt(x) else VUint(x));
      |key| == w && forall j :: 0 <= j < w ==> key[j] == ((x % Values(w)) / Pow256(j)) % 256
    ensures |b| < w ==> DecKey(Prim(k), b) == Fail
    ensures |b| >= w ==>
      var d := DecKey(Prim(k), b);
      && d.Ok? && d.rest == b[w..]
      && (k.KInt? ==> d.val.VInt? && -(Values(w) / 2) <= d.val.i < Values(w) / 2)
      && (k.KUint? ==> d.val.VUint? && 0 <= d.val.n < Values(w))
      && var y := if k.KInt? then d.val.i else d.val.n;
         forall j :: 0 <= j < w ==> b[j] == ((y % Values(w)) / Pow256(j)) % 256
  {
    KeyOut(k, w, x);
    KeyIn(k, w, b);
  }

  lemma KeyOut(k: Kind, w: nat, x: int)
    requires KeyWidth(k, w) && (k.KUint? ==> x >= 0)
    ensures var key := EncKey(Prim(k), if k.KInt? then VInt(x) else VUint(x));
      |key| == w && forall j :: 0 <= j < w ==> key[j] == ((x % Values(w)) / Pow256(j)) % 256
  {
    hide LE, Pow256;
    var n := x % Values(w);
    FixedExactly(n, w, LE(n, w));
  }

  lemma KeyIn(k: Kind, w: nat, b: bytes)
    requires KeyWidth(k, w)
    ensures |b| < w ==> DecKey(Prim(k), b) == Fail
    ensures |b| >= w ==>
      var d := DecKey(Prim(k), b);
      && d.Ok? && d.rest == b[w..]
      && (k.KInt? ==> d.val.VInt? && -(Values(w) / 2) <= d.val.i < Values(w) / 2)
      && (k.KUint? ==> d.val.VUint? && 0 <= d.val.n < Values(w))
      && var y := if k.KInt? then d.val.i else d.val.n;
         forall j :: 0 <= j < w ==> b[j] == ((y % Values(w)) / Pow256(j)) % 256
  {
    hide *;
    KeyTaken(k, w, b);
    if |b| >= w {
      var n := FromLE(b[..w]);
      SignedBack(w, n, WrapSigned(n, 8 * w));
      FixedBytes(n, w, b[..w]);
      assert forall j :: 0 <= j < w ==> b[j] == b[..w][j];
    }
  }

  lemma FixedBytes(n: nat, w: nat, b: bytes)
    requires |b| == w && FromLE(b) == n
    ensures forall j :: 0 <= j < w ==> b[j] == (n / Pow256(j)) % 256
  {
    hide FromLE, Pow256;
    FixedReads(n, w, b);
  }

  lemma SignedBack(w: nat, n: nat, y: int)
    requires (w == 2 || w == 4 || w == 8) && n < Values(w) && y == WrapSigned(n, 8 * w)
    ensures -(Values(w) / 2) <= y < Values(w) / 2 && y % Values(w) == n && n % Values(w) == n
  {
    WrapExactly(8 * w, n, y);
    SameResidue(w, y, n);
    ModSmall(n, Values(w));
  }

  lemma KeyTaken(k: Kind, w: nat, b: bytes)
    requires KeyWidth(k, w)
    ensures (w == 2 || w == 4 || w == 8) && (k.KInt? || k.KUint?)
    ensures |b| < w ==> DecKey(Prim(k), b) == Fail
    ensures |b| >= w ==>
      var n := FromLE(b[..w]);
      n < Values(w) && DecKey(Prim(k), b) == Ok(if k.KInt? then VInt(WrapSigned(n, 8 * w)) else VUint(n), b[w..])
  {
    hide FromLE, WrapSigned;
    if |b| >= w {
      Pow256OfBits(8 * w);
      FromLEBound(b[..w]);
    }
  }

  lemma SameResidue(w: nat, y: int, n: nat)
    requires (w == 2 || w == 4 || w == 8) && n < Values(w) && Congruent(8 * w, y, n)
    ensures y % Values(w) == n
  {
    CutExactly(8 * w, y, n);
    Turned(8 * w, y, n);
  }

  /** A string key has a two-byte length, and every other primitive key is written and read as a value is. */
  lemma OtherKeys(k: Kind, v: Value, b: bytes)
    requires WFKind(k) && forall w :: !KeyWidth(k, w)
    ensures k.KString? && v.VStr? ==>
      var n: nat := |v.s|; EncKey(Prim(k), v) == [n % 256, (n / 256) % 256] + v.s
    ensures k.KString? && |b| < 2 ==> DecKey(Prim(k), b) == Fail
    ensures k.KString? && |b| >= 2 ==>
      var n: nat := b[0] as int + 256 * b[1] as int;
      DecKey(Prim(k), b) == if 2 + n <= |b| then Ok(VStr(b[2..2 + n]), b[2 + n..]) else Fail
    ensures !k.KString? ==> EncKey(Prim(k), v) == Enc(Prim(k), v) && DecKey(Prim(k), b) == Dec(Prim(k), b)
  {
    if k.KString? {
      TextKey(v, b);
    } else {
      NoWidth(k);
    }
  }

  lemma NoWidth(k: Kind)
    requires WFKind(k) && forall w :: !KeyWidth(k, w)
    ensures !FixedKey(k)
  {
    assert !KeyWidth(k, 2) && !KeyWidth(k, 4) && !KeyWidth(k, 8);
  }

  lemma TwoBytes(n: nat)
    ensures LE(n, 2) == [n % 256, (n / 256) % 256]
  {
    assert LE(n / 256, 1) == [(n / 256) % 256] + LE(n / 256 / 256, 0);
  }

  lemma TextKey(v: Value, b: bytes)
    ensures v.VStr? ==> var n: nat := |v.s|; EncKey(Prim(KString), v) == [n % 256, (n / 256) % 256] + v.s
    ensures |b| < 2 ==> DecKey(Prim(KString), b) == Fail
    ensures |b| >= 2 ==>
      var n: nat := b[0] as int + 256 * b[1] as int;
      DecKey(Prim(KString), b) == if 2 + n <= |b| then Ok(VStr(b[2..2 + n]), b[2 + n..]) else Fail
  {
    if v.VStr? {
      TwoBytes(|v.s|);
    }
    if |b| >= 2 {
      var w := b[..2];
      assert FromLE(w) == w[0] as int + 256 * FromLE(w[1..]);
      assert FromLE(w[1..]) == w[1..][0] as int + 256 * FromLE(w[1..][1..]);
      assert w[1..][1..] == [];
      var n := FromLE(w);
      if 2 + n <= |b| {
        assert b[2..][..n] == b[2..2 + n] && b[2..][n..] == b[2 + n..];
      }
    }
  }

  // ---------------------------------------------------------------- maps

  /** Assigning to a key sets its value and no other; the keys stay distinct. */
  lemma PutAssigns(es: seq<Entry>, key: Value, val: Value)
    requires DistinctKeys(es)
    ensures DistinctKeys(Put(es, key, val))
    ensures MapOf(Put(es, key, val)) == MapOf(es)[key := val]
  {
    hide *;
    PutKeys(es, key, val);
    var r, n := Put(es, key, val), MapOf(es)[key := val];
    forall k, x
      ensures Maps(MapOf(r), k, x) <==> Maps(n, k, x)
    {
      MapsTo(es, k, x);
      MapsTo(r, k, x);
      Assigned(MapOf(es), key, val, k, x);
    }
    SameMaps(MapOf(r), n);
  }

  predicate Maps(m: map<Value, Value>, k: Value, x: Value) {
    k in m && m[k] == x
  }

  lemma Assigned(m: map<Value, Value>, key: Value, val: Value, k: Value, x: Value)
    ensures Maps(m[key := val], k, x) <==> if k == key then x == val else Maps(m, k, x)
  {
  }

  lemma MapsTo(es: seq<Entry>, k: Value, x: Value)
    requires DistinctKeys(es)
    ensures Maps(MapOf(es), k, x) <==> Entry(k, x) in es
  {
    hide MapOf;
    MapOfEntries(es);
  }

  lemma SameMaps(m: map<Value, Value>, n: map<Value, Value>)
    requires forall k, x :: Maps(m, k, x) <==> Maps(n, k, x)
    ensures m == n
  {
    forall k
      ensures k in m <==> k in n
      ensures k in m ==> m[k] == n[k]
    {
      if k in m {
        assert Maps(m, k, m[k]);
      }
      if k in n {
        assert Maps(n, k, n[k]);
      }
    }
  }

  lemma {:induction false} PutKeys(es: seq<Entry>, key: Value, val: Value)
    requires DistinctKeys(es)
    ensures DistinctKeys(Put(es, key, val))
    ensures forall e :: e in Put(es, key, val) <==> e == Entry(key, val) || (e in es && e.key != key)
  {
    var r := Put(es, key, val);
    if es != [] {
      assert es == [es[0]] + es[1..];
      if es[0].key != key {
        PutKeys(es[1..], key, val);
        assert forall e :: e in r <==> e == es[0] || e in Put(es[1..], key, val);
        forall j | 0 < j < |r|
          ensures r[j].key != es[0].key
        {
          assert r[j] in Put(es[1..], key, val);
        }
      }
    }
  }
}
