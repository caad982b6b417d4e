/**
 Whole messages: the bytes that the repository's own tests fix, and one more for each part of the format those leave
 out. They tie the model to the real format: an encoder and a decoder that agreed on some other one would satisfy the
 laws and fail here.
 */
module WireFormat {
  import opened Wire
  import opened Varint
  import opened Codec
  import opened Permutation
  import S = SortedInts
  import T = Series
  import N = NoCopy
  import opened Bits
  import opened StreamFormat

  /** One field at the head of a struct. */
  lemma FieldBytes(f: Codec, v: Value, fs: seq<Codec>, vs: seq<Value>)
    ensures EncFields([f] + fs, [v] + vs) == Enc(f, v) + EncFields(fs, vs)
    ensures EncMany(f, [v] + vs) == Enc(f, v) + EncMany(f, vs)
  {
    assert ([f] + fs)[1..] == fs && ([v] + vs)[1..] == vs;
  }

  lemma NoFields()
    ensures EncFields([], []) == []
    ensures forall c :: EncMany(c, []) == []
  {
  }

  lemma ShortString(s: bytes)
    requires |s| < 128
    ensures Enc(Prim(KString), VStr(s)) == [|s|] + s
  {
  }

  lemma SmallNumbers(bits: nat)
    ensures forall n: nat :: n < 128 ==> Enc(Prim(KUint(bits, false)), VUint(n)) == [n]
    ensures forall i, native :: -64 <= i < 64 ==>
      Enc(Prim(KInt(bits, native)), VInt(i)) == [if i >= 0 then 2 * i else -2 * i - 1]
  {
  }

  /** Two strings and an int16. */
  lemma SmallStruct()
    ensures Enc(Struct([Prim(KString), Prim(KString), Prim(KInt(16, false))]),
                VSeq([VStr([0x41]), VStr([0x42]), VInt(1)])) == [1, 0x41, 1, 0x42, 2]
  {
    hide EncFields, EncPrim;
    var s, n := Prim(KString), Prim(KInt(16, false));
    ShortString([0x41]);
    ShortString([0x42]);
    SmallNumbers(16);
    NoFields();
    FieldBytes(n, VInt(1), [], []);
    FieldBytes(s, VStr([0x42]), [n], [VInt(1)]);
    FieldBytes(s, VStr([0x41]), [s, n], [VStr([0x42]), VInt(1)]);
    assert [n] + [] == [n] && [s] + [n] == [s, n] && [s] + [s, n] == [s, s, n];
    assert [VInt(1)] + [] == [VInt(1)] && [VStr([0x42])] + [VInt(1)] == [VStr([0x42]), VInt(1)];
    assert [VStr([0x41])] + [VStr([0x42]), VInt(1)] == [VStr([0x41]), VStr([0x42]), VInt(1)];
  }

  /** Slices of signed and of unsigned integers. */
  lemma IntegerSlices()
    ensures Enc(Seq(OfVarint, Prim(KInt(64, false)), false, 0), VSeq([VInt(-2), VInt(-1), VInt(0), VInt(1), VInt(2)]))
         == [5, 3, 1, 0, 2, 4]
    ensures Enc(Seq(OfVarint, Prim(KUint(64, false)), false, 0), VSeq([VUint(0), VUint(1), VUint(127), VUint(128)]))
         == [4, 0, 1, 127, 128, 1]
  {
    hide EncMany;
    SignedSlice(Prim(KInt(64, false)));
    UnsignedSlice(Prim(KUint(64, false)));
  }

  lemma SignedSlice(c: Codec)
    requires c == Prim(KInt(64, false))
    ensures EncMany(c, [VInt(-2), VInt(-1), VInt(0), VInt(1), VInt(2)]) == [3, 1, 0, 2, 4]
  {
    SmallNumbers(64);
    NoFields();
    hide EncMany, EncPrim;
    FieldBytes(c, VInt(2), [], []);
    FieldBytes(c, VInt(1), [], [VInt(2)]);
    FieldBytes(c, VInt(0), [], [VInt(1), VInt(2)]);
    FieldBytes(c, VInt(-1), [], [VInt(0), VInt(1), VInt(2)]);
    FieldBytes(c, VInt(-2), [], [VInt(-1), VInt(0), VInt(1), VInt(2)]);
    assert [VInt(2)] + [] == [VInt(2)] && [VInt(1)] + [VInt(2)] == [VInt(1), VInt(2)];
    assert [VInt(0)] + [VInt(1), VInt(2)] == [VInt(0), VInt(1), VInt(2)];
    assert [VInt(-1)] + [VInt(0), VInt(1), VInt(2)] == [VInt(-1), VInt(0), VInt(1), VInt(2)];
    assert [VInt(-2)] + [VInt(-1), VInt(0), VInt(1), VInt(2)] == [VInt(-2), VInt(-1), VInt(0), VInt(1), VInt(2)];
  }

  lemma UnsignedSlice(u: Codec)
    requires u == Prim(KUint(64, false))
    ensures EncMany(u, [VUint(0), VUint(1), VUint(127), VUint(128)]) == [0, 1, 127, 128, 1]
  {
    SmallNumbers(64);
    NoFields();
    assert Enc(u, VUint(128)) == [128, 1];
    hide EncMany, EncPrim;
    FieldBytes(u, VUint(128), [], []);
    FieldBytes(u, VUint(127), [], [VUint(128)]);
    FieldBytes(u, VUint(1), [], [VUint(127), VUint(128)]);
    FieldBytes(u, VUint(0), [], [VUint(1), VUint(127), VUint(128)]);
    assert [VUint(128)] + [] == [VUint(128)] && [VUint(127)] + [VUint(128)] == [VUint(127), VUint(128)];
    assert [VUint(1)] + [VUint(127), VUint(128)] == [VUint(1), VUint(127), VUint(128)];
    assert [VUint(0)] + [VUint(1), VUint(127), VUint(128)] == [VUint(0), VUint(1), VUint(127), VUint(128)];
  }

  /** A `map[string]string` with one entry: the key's length takes two bytes, the value's one. */
  lemma OneEntryMap()
    ensures Enc(Map(StringMap, Prim(KString), Prim(KString)),
                VMap([Entry(VStr([0x6b, 0x65, 0x79]), VStr([0x76, 0x61, 0x6c, 0x75, 0x65]))]))
         == [1, 3, 0, 0x6b, 0x65, 0x79, 5, 0x76, 0x61, 0x6c, 0x75, 0x65]
  {
    var c := Map(StringMap, Prim(KString), Prim(KString));
    var e := Entry(VStr([0x6b, 0x65, 0x79]), VStr([0x76, 0x61, 0x6c, 0x75, 0x65]));
    ShortString([0x76, 0x61, 0x6c, 0x75, 0x65]);
    KeyBytes([0x6b, 0x65, 0x79]);
    OneEntry(c, e);
    hide EncEntries, EncKey, EncPrim;
  }

  lemma KeyBytes(s: bytes)
    requires |s| < 256
    ensures EncKey(Prim(KString), VStr(s)) == [|s|, 0] + s
  {
    assert LE(|s|, 2) == [|s|, 0];
  }

  lemma OneEntry(c: Codec, e: Entry)
    requires c.Map?
    ensures EncEntries(c, [e]) == EncKey(c.key, e.key) + Enc(c.val, e.val)
  {
    assert [e][1..] == [];
    assert EncEntries(c, []) == [];
  }

  /** The float64 100.0, low byte first. */
  lemma OneFloat()
    ensures Enc(Prim(KWords(8, 1)), VWords([0x4059_0000_0000_0000])) == [0, 0, 0, 0, 0, 0, 0x59, 0x40]
  {
    assert LE(0x4059, 2) == [0x59, 0x40];
    assert LE(0x4059_00, 3) == [0, 0x59, 0x40];
    assert LE(0x4059_0000, 4) == [0, 0, 0x59, 0x40];
    assert LE(0x4059_0000_00, 5) == [0, 0, 0, 0x59, 0x40];
    assert LE(0x4059_0000_0000, 6) == [0, 0, 0, 0, 0x59, 0x40];
    assert LE(0x4059_0000_0000_00, 7) == [0, 0, 0, 0, 0, 0x59, 0x40];
  }

  /** A union with no arm set is tag 0 and an empty body. */
  lemma EmptyUnion(c: Codec)
    requires c.Union?
    ensures Enc(c, VSlots(Nils(|c.arms|))) == [0, 0]
  {
  }

  /** `sorted.Int32s{1, ..., 8}`: eight bytes, each the difference 1. */
  lemma SortedOneToEight()
    ensures S.EncSorted(true, [1, 2, 3, 4, 5, 6, 7, 8]) == [8, 2, 2, 2, 2, 2, 2, 2, 2]
  {
    hide S.Deltas;
    var u := S.Coded(true, 1);
    assert u == 2 && Uvarint(2) == [2];
    S.NoWords();
    S.DeltasStep(true, [8], 7);
    S.DeltasStep(true, [7, 8], 6);
    S.DeltasStep(true, [6, 7, 8], 5);
    S.DeltasStep(true, [5, 6, 7, 8], 4);
    S.DeltasStep(true, [4, 5, 6, 7, 8], 3);
    S.DeltasStep(true, [3, 4, 5, 6, 7, 8], 2);
    S.DeltasStep(true, [2, 3, 4, 5, 6, 7, 8], 1);
    S.DeltasStep(true, [1, 2, 3, 4, 5, 6, 7, 8], 0);
    assert [8][1..] == [] && [7, 8][1..] == [8] && [6, 7, 8][1..] == [7, 8] && [5, 6, 7, 8][1..] == [6, 7, 8];
    assert [4, 5, 6, 7, 8][1..] == [5, 6, 7, 8] && [3, 4, 5, 6, 7, 8][1..] == [4, 5, 6, 7, 8];
    assert [2, 3, 4, 5, 6, 7, 8][1..] == [3, 4, 5, 6, 7, 8];
    assert [1, 2, 3, 4, 5, 6, 7, 8][1..] == [2, 3, 4, 5, 6, 7, 8];
    assert S.Deltas(true, [1, 2, 3, 4, 5, 6, 7, 8], 0) == [2, 2, 2, 2, 2, 2, 2, 2];
  }

  /** Ten continuation bytes overflow, and so does a tenth byte above 1; the end of input is another error. */
  lemma Overflows()
    ensures ReadStatus(seq(10, _ => 0x80)) == Overflow
    ensures ReadStatus(seq(9, _ => 0x80) + [2]) == Overflow
    ensures ReadStatus([0x80]) == Eof
  {
    var ten, nine: bytes := seq(10, _ => 0x80), seq(9, _ => 0x80) + [2];
    Continues(ten, 10);
    GroupAccepted(nine, [], 10);
    assert nine + [] == nine;
    TenthByte(nine);
    assert ReadGroup([0x80], 10) == Fail;
  }

  lemma {:induction false} Continues(b: bytes, k: nat)
    requires forall i :: 0 <= i < |b| ==> b[i] >= 128
    ensures ReadGroup(b, k) == Fail
  {
    if k > 0 && b != [] {
      Continues(b[1..], k - 1);
    }
  }

  // ---------------------------------------------------------------- pointers, keys and arms

  /** Flags: a bool, a nil pointer and a pointer to the byte 5, and a slice of the two. */
  lemma Flags(elem: Codec)
    requires elem == Prim(KUint(8, false))
    ensures Enc(Prim(KBool), VBool(false)) == [0] && Enc(Prim(KBool), VBool(true)) == [1]
    ensures Enc(Pointer(elem), VNil) == [1] && Enc(Pointer(elem), VPtr(VUint(5))) == [0, 5]
    ensures Enc(Seq(OfPtr, Pointer(elem), false, 0), VSeq([VNil, VPtr(VUint(5))])) == [2, 1, 0, 5]
  {
    var c := Pointer(elem);
    assert Enc(elem, VUint(5)) == [5];
    assert Enc(c, VNil) == [1] && Enc(c, VPtr(VUint(5))) == [0, 5];
    NoFields();
    hide EncMany, EncPrim;
    FieldBytes(c, VPtr(VUint(5)), [], []);
    FieldBytes(c, VNil, [], [VPtr(VUint(5))]);
    assert [VPtr(VUint(5))] + [] == [VPtr(VUint(5))] && [VNil] + [VPtr(VUint(5))] == [VNil, VPtr(VUint(5))];
    assert EncMany(c, [VNil, VPtr(VUint(5))]) == [1, 0, 5];
  }

  /** A `map[int16]string` with one entry: the key has two bytes. */
  lemma ShortKey(c: Codec)
    requires c == Map(ReflectMap, Prim(KInt(16, false)), Prim(KString))
    ensures Enc(c, VMap([Entry(VInt(1), VStr([0x61]))])) == [1, 1, 0, 1, 0x61]
  {
    var e := Entry(VInt(1), VStr([0x61]));
    ShortString([0x61]);
    assert LE(1, 2) == [1, 0];
    assert EncKey(c.key, e.key) == [1, 0];
    OneEntry(c, e);
    hide EncEntries, EncKey, EncPrim;
  }

  /** A union whose second arm is set to a short string: its tag, the size of the body and the body. */
  lemma OneArm(c: Codec, s: bytes)
    requires c == Union([Arm(1, Prim(KBool)), Arm(7, Prim(KString))]) && |s| < 100
    ensures Enc(c, VSlots([VNil, VPtr(VStr(s))])) == [7, 1 + |s|, |s|] + s
  {
    ShortString(s);
    var slots := [VNil, VPtr(VStr(s))];
    assert Selected(slots) == 1;
    hide EncPrim, Selected;
    assert Enc(c, VSlots(slots)) == Uvarint(7) + Blob([|s|] + s);
  }

  /** The `complex64` 1+2i: the real part first. */
  lemma OneComplex()
    ensures Enc(Prim(KWords(4, 2)), VWords([0x3F80_0000, 0x4000_0000])) == [0, 0, 0x80, 0x3F, 0, 0, 0, 0x40]
  {
    var ws := [0x3F80_0000, 0x4000_0000];
    assert LE(0x3F80_0000, 4) == [0, 0, 0x80, 0x3F] by {
      assert LE(0x3F80, 2) == [0x80, 0x3F];
      assert LE(0x3F80_00, 3) == [0, 0x80, 0x3F];
    }
    assert LE(0x4000_0000, 4) == [0, 0, 0, 0x40] by {
      assert LE(0x4000, 2) == [0, 0x40];
      assert LE(0x4000_00, 3) == [0, 0, 0x40];
    }
    assert ws[1..] == [0x4000_0000] && ws[1..][1..] == [];
    assert EncWords([], 4) == [];
    hide LE;
    assert EncWords(ws[1..], 4) == LE(0x4000_0000, 4) + EncWords(ws[1..][1..], 4);
  }

  /** A repeated key keeps the last of its values. */
  lemma RepeatedKey(c: Codec, k: Value)
    requires c == Map(StringMap, Prim(KString), Prim(KString)) && k == VStr([0x61])
    ensures Put(Put([], k, VStr([0x62])), k, VStr([0x63])) == [Entry(k, VStr([0x63]))]
    ensures Put(Put(Put([], k, VStr([1])), VStr([2]), VStr([2])), k, VStr([3])) ==
      [Entry(k, VStr([3])), Entry(VStr([2]), VStr([2]))]
  {
  }

  // ---------------------------------------------------------------- the sorted and nocopy packages

  /** `sorted.Timestamps{1, 3}` */
  lemma TwoStamps()
    ensures S.EncStamps([1, 3]) == [2, 2, 1, 2]
  {
    TwoTimes();
    hide S.Deltas;
  }

  lemma TwoTimes()
    ensures S.Deltas(false, [1, 3], 0) == [1, 2]
  {
    S.NoWords();
    assert S.Coded(false, 1) == 1 && S.Coded(false, 2) == 2;
    S.DeltasStep(false, [3], 1);
    S.DeltasStep(false, [1, 3], 0);
    assert [3][1..] == [] && [1, 3][1..] == [3];
  }

  /** `sorted.TimeCounters{Time: {1, 3}, Data: {7, 9}}` */
  lemma TwoCounters()
    ensures T.EncSeries(T.Counters, [1, 3], [7, 9]) == [2, 4, 1, 2, 7, 2]
  {
    TwoTimes();
    S.NoWords();
    assert S.Coded(false, 7) == 7 && S.Coded(false, 2) == 2;
    S.DeltasStep(false, [9], 7);
    S.DeltasStep(false, [7, 9], 0);
    assert [9][1..] == [] && [7, 9][1..] == [9];
    hide S.Deltas;
    assert S.Deltas(false, [7, 9], 0) == [7, 2];
  }

  /** `sorted.TimeSeries{Time: {1}, Data: {1.0}}`: the pattern 0x3F800000 back to front is 0x1FC. */
  lemma OnePoint()
    ensures T.Flipped(0x3F80_0000) == 0x1FC
    ensures T.EncSeries(T.Floats, [1], [0x3F80_0000]) == [1, 3, 1, 0xFC, 3]
  {
    OneReversed();
    hide Reverse, T.Flipped;
    S.NoWords();
    assert S.Coded(false, 1) == 1;
    S.DeltasStep(false, [1], 0);
    assert [1][1..] == [];
    hide S.Deltas;
    assert Xor(0x1FC, 0) == 0x1FC && Uvarint(0x1FC) == [0xFC, 3];
    var vs := [0x3F80_0000];
    assert vs[1..] == [] && T.Xors([], 0x1FC) == [];
    assert T.Xors(vs, 0) == [0xFC, 3];
  }

  lemma OneReversed()
    ensures T.Flipped(0x3F80_0000) == 0x1FC
  {
    hide Reverse, Pow2;
    SevenOnes();
    PowerOf23();
    LowZeros(0x7F, 23, 9);
  }

  lemma SevenOnes()
    ensures Reverse(0x7F, 9) == 0x1FC
  {
    assert Reverse(1, 3) == 4;
    assert Reverse(3, 4) == 12;
    assert Reverse(7, 5) == 28;
    assert Reverse(15, 6) == 60;
    assert Reverse(31, 7) == 124;
    assert Reverse(63, 8) == 252;
  }

  lemma PowerOf23()
    ensures Pow2(23) == 0x80_0000
  {
    assert Pow2(3) == 8 && Pow2(5) == 32;
    hide Pow2;
    Pow2Add(5, 5);
    Pow2Add(10, 10);
    Pow2Add(20, 3);
  }

  // Zero bits at the low end do not show in the reversed word.
  lemma {:induction false} LowZeros(x: nat, j: nat, k: nat)
    ensures Reverse(x * Pow2(j), j + k) == Reverse(x, k)
  {
    if j > 0 {
      var y := x * Pow2(j - 1);
      assert x * Pow2(j) == 2 * y;
      LowZeros(x, j - 1, k);
    }
  }

  // One entry of a nocopy map.
  lemma OnePair(f: N.Flavour, k: N.Key, v: bytes, m: N.Dict)
    requires m == map[k := v]
    ensures |m| == 1 && N.EncPairs(f, [k], m) == N.EncPair(f, k, v)
  {
    assert m.Keys == {k} && [k][1..] == [];
    assert N.EncPairs(f, [], m) == [];
  }

  /** `nocopy.Dictionary{"a": "b"}` and `nocopy.ByteMap{"a": "b"}`: a count of two bytes. */
  lemma OneText(f: N.Flavour, k: N.Key, m: N.Dict)
    requires !f.HashMap? && k == N.Text([0x61]) && m == map[k := [0x62]]
    ensures N.EncMap(f, [k], m) == [1, 0, 1, 0x61, 1, 0x62]
  {
    OnePair(f, k, [0x62], m);
    assert LE(1, 2) == [1, 0] && Blob([0x61]) == [1, 0x61] && Blob([0x62]) == [1, 0x62];
  }

  /** `nocopy.HashMap{7: "b"}`: a count of four bytes, a key of eight and a length of four. */
  lemma OneHash(k: N.Key, m: N.Dict)
    requires k == N.Number(7) && m == map[k := [0x62]]
    ensures N.EncMap(N.HashMap, [k], m) == [1, 0, 0, 0, 7, 0, 0, 0, 0, 0, 0, 0, 1, 0, 0, 0, 0x62]
  {
    hide *;
    OnePair(N.HashMap, k, [0x62], m);
    OneAndSeven();
    HashBytes(k, m);
  }

  lemma HashBytes(k: N.Key, m: N.Dict)
    requires k == N.Number(7) && m == map[k := [0x62]] && |m| == 1
    requires N.EncPairs(N.HashMap, [k], m) == N.EncPair(N.HashMap, k, [0x62])
    ensures N.EncMap(N.HashMap, [k], m) == LE(1, 4) + (LE(7, 8) + LE(1, 4) + [0x62])
  {
    hide LE, N.EncPairs;
  }

  lemma OneAndSeven()
    ensures LE(1, 4) == [1, 0, 0, 0] && LE(7, 8) == [7, 0, 0, 0, 0, 0, 0, 0]
  {
    LowWord(1, 4);
    LowWord(7, 8);
    hide LE;
  }

  lemma LowWord(n: nat, w: nat)
    requires n < 256 && w > 0
    ensures LE(n, w) == [n] + seq(w - 1, _ => 0)
  {
    NoWord(w - 1);
  }

  lemma {:induction false} NoWord(w: nat)
    ensures LE(0, w) == seq(w, _ => 0)
  {
    if w > 0 {
      NoWord(w - 1);
    }
  }
}
