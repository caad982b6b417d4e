/**
 The encoder as it runs: a ten-byte scratch array, an error that sticks, writes that may stop half-way,
 and buffered fast paths beside the step-by-step ones. Whatever happens, what has been written is a
 prefix of the encoding; with no error it is the encoding.
 */
module Encoder {
  import opened Wire
  import opened Varint
  import opened Codec
  import opened Analysis
  import opened Destination
  import opened DirectPath
  import opened FieldWords
  import Permutation

  // ---------------------------------------------------------------- what a stretch of encoding does

  /** The bytes written so far, whether the error is set, and whether the writer can fail at all. */
  datatype Output = Output(data: bytes, failed: bool, safe: bool)

  /**
   From output `p` to output `q` the encoder was asked for `bs`: it wrote a prefix of `bs`, all of it
   unless the error is set, and nothing if the error was set before.
   */
  ghost predicate Emits(p: Output, q: Output, bs: bytes) {
    && p.data <= q.data <= p.data + bs
    && (p.failed ==> q == p)
    && (!q.failed ==> q.data == p.data + bs)
    && q.safe == p.safe && (p.safe && !p.failed ==> !q.failed)
  }

  lemma EmitsNothing(p: Output)
    ensures Emits(p, p, [])
  {
    assert p.data + [] == p.data;
  }

  /** Asking for `xs` and then for `ys` is asking for both. */
  lemma EmitsBoth(p: Output, q: Output, r: Output, xs: bytes, ys: bytes)
    requires Emits(p, q, xs) && Emits(q, r, ys)
    ensures Emits(p, r, xs + ys)
  {
    assert p.data + (xs + ys) == (p.data + xs) + ys;
  }

  /** `byte(x) | 0x80` and `x >> 7` */
  function LowGroup(x: nat): byte {
    x % 128 + 128
  }

  function HighGroups(x: nat): nat {
    x / 128
  }

  lemma GroupStep(x: nat)
    ensures x >= 128 ==> Uvarint(x) == [LowGroup(x)] + Uvarint(HighGroups(x)) && HighGroups(x) < x
    ensures x < 128 ==> Uvarint(x) == [x]
  {
  }

  /**
   The verdict of an encoding step: accepted exactly when the value can be encoded, except that a
   writer's error may surface as a refusal; and a prefix is written in every case.
   */
  ghost predicate Reports(ok: bool, encodable: bool, p: Output, q: Output, bs: bytes) {
    && p.data <= q.data <= p.data + bs
    && (p.failed ==> q == p)
    && q.safe == p.safe && (p.safe && !p.failed ==> !q.failed)
    && (ok ==> encodable && Emits(p, q, bs))
    && (!ok ==> !encodable || q.failed)
  }

  /** A step refused after `xs` was written: some of `ys` may be out, and `zs` will not be. */
  lemma GivesUp(p: Output, q: Output, r: Output, encodable: bool, whole: bool, xs: bytes, ys: bytes, zs: bytes)
    requires Emits(p, q, xs) && Reports(false, encodable, q, r, ys) && (whole ==> encodable)
    ensures Reports(false, whole, p, r, xs + (ys + zs))
  {
    assert p.data + (xs + (ys + zs)) == ((p.data + xs) + ys) + zs;
    assert p.data + (xs + (ys + zs)) == (p.data + xs) + (ys + zs);
  }

  /** A step accepted after `xs` was written. */
  lemma GoesOn(p: Output, q: Output, r: Output, xs: bytes, ys: bytes)
    requires Emits(p, q, xs) && Emits(q, r, ys)
    ensures Reports(true, true, p, r, xs + ys)
  {
    EmitsBoth(p, q, r, xs, ys);
  }

  // One level of the encoding of lists, seen from position `i`.
  lemma ManyFrom(c: Codec, vs: seq<Value>, i: nat)
    requires i < |vs|
    ensures EncMany(c, vs[i..]) == Enc(c, vs[i]) + EncMany(c, vs[i + 1..])
  {
    assert vs[i..][1..] == vs[i + 1..];
  }

  lemma FieldsFrom(fs: seq<Codec>, vs: seq<Value>, i: nat)
    requires i < |vs| == |fs|
    ensures EncFields(fs[i..], vs[i..]) == Enc(fs[i], vs[i]) + EncFields(fs[i + 1..], vs[i + 1..])
  {
    assert vs[i..][1..] == vs[i + 1..] && fs[i..][1..] == fs[i + 1..];
  }

  ghost predicate FieldsTyped(fs: seq<Codec>, vs: seq<Value>) {
    |fs| == |vs| && forall i :: 0 <= i < |fs| ==> WF(fs[i]) && Typed(fs[i], vs[i])
  }

  ghost predicate FieldsEncodable(fs: seq<Codec>, vs: seq<Value>)
    requires |fs| == |vs|
  {
    forall i :: 0 <= i < |fs| ==> Encodable(fs[i], vs[i])
  }

  lemma FieldTyped(fs: seq<Codec>, vs: seq<Value>, j: nat)
    requires FieldsTyped(fs, vs) && j < |fs|
    ensures |fs| == |vs| && WF(fs[j]) && Typed(fs[j], vs[j])
  {
  }

  /** `done` encodes the fields before `j`, all of them encodable. */
  ghost predicate Written(fs: seq<Codec>, vs: seq<Value>, j: nat, done: bytes) {
    && j <= |vs| == |fs|
    && EncFields(fs, vs) == done + EncFields(fs[j..], vs[j..])
    && forall k :: 0 <= k < j ==> Encodable(fs[k], vs[k])
  }

  lemma NoneWritten(fs: seq<Codec>, vs: seq<Value>)
    requires FieldsTyped(fs, vs)
    ensures Written(fs, vs, 0, [])
  {
    assert vs[0..] == vs && fs[0..] == fs;
  }

  lemma MoreWritten(fs: seq<Codec>, vs: seq<Value>, j: nat, done: bytes)
    requires Written(fs, vs, j, done) && j < |fs| == |vs| && Encodable(fs[j], vs[j])
    ensures Written(fs, vs, j + 1, done + Enc(fs[j], vs[j]))
  {
    FieldsFrom(fs, vs, j);
    assert done + (Enc(fs[j], vs[j]) + EncFields(fs[j + 1..], vs[j + 1..]))
        == (done + Enc(fs[j], vs[j])) + EncFields(fs[j + 1..], vs[j + 1..]);
  }

  lemma AllWritten(fs: seq<Codec>, vs: seq<Value>, done: bytes)
    requires Written(fs, vs, |fs|, done)
    ensures |fs| == |vs| && EncFields(fs, vs) == done && FieldsEncodable(fs, vs)
  {
    assert fs[|fs|..] == [] && EncFields(fs[|fs|..], vs[|fs|..]) == [];
  }

  /** The field at `j` is refused. */
  lemma StopWriting(fs: seq<Codec>, vs: seq<Value>, j: nat, done: bytes, p: Output, q: Output, r: Output)
    requires Written(fs, vs, j, done) && j < |fs| == |vs| && Emits(p, q, done)
    requires Reports(false, Encodable(fs[j], vs[j]), q, r, Enc(fs[j], vs[j]))
    ensures Reports(false, FieldsEncodable(fs, vs), p, r, EncFields(fs, vs))
  {
    hide Enc, EncFields, Encodable, Emits, Reports;
    FieldsFrom(fs, vs, j);
    GivesUp(p, q, r, Encodable(fs[j], vs[j]), FieldsEncodable(fs, vs),
            done, Enc(fs[j], vs[j]), EncFields(fs[j + 1..], vs[j + 1..]));
  }

  function EncEntry(c: Codec, e: Entry): bytes
    requires c.Map?
  {
    EncKey(c.key, e.key) + Enc(c.val, e.val)
  }

  lemma EntriesFrom(c: Codec, es: seq<Entry>, i: nat)
    requires c.Map? && i < |es|
    ensures EncEntries(c, es[i..]) == EncEntry(c, es[i]) + EncEntries(c, es[i + 1..])
  {
    assert es[i..][1..] == es[i + 1..];
  }

  // ---------------------------------------------------------------- the writer

  /** An `io.Writer` that accepts `limit` bytes and then fails, or any number when `limit` is negative. */
  class Sink {
    var data: bytes
    const limit: int

    constructor (limit: int)
      ensures data == [] && this.limit == limit
    {
      data, this.limit := [], limit;
    }

    method Write(p: bytes) returns (ok: bool)
      requires limit < 0 || |data| <= limit
      modifies this
      ensures limit < 0 || |data| <= limit
      ensures ok == (limit < 0 || |old(data)| + |p| <= limit)
      ensures ok ==> data == old(data) + p
      ensures old(data) <= data <= old(data) + p
    {
      ok := limit < 0 || |data| + |p| <= limit;
      data := data + (if ok then p else p[..limit - |data|]);
    }
  }

  // ---------------------------------------------------------------- the encoder

  class Encoder {
    const out: Sink
    const buffered: bool  // the writer hands out its own buffer
    const scratch: array<byte>
    var failed: bool

    constructor (out: Sink, buffered: bool, isNil: bool)
      requires out.limit < 0 || |out.data| <= out.limit
      ensures Valid() && this.out == out && this.buffered == buffered && failed == isNil && fresh(scratch)
    {
      this.out, this.buffered, failed := out, buffered, isNil;
      scratch := new byte[10](_ => 0);
    }

    ghost predicate Valid()
      reads this, out
    {
      scratch.Length == 10 && (out.limit < 0 || |out.data| <= out.limit)
    }

    ghost function State(): Output
      reads this, out
    {
      Output(out.data, failed, out.limit < 0)
    }

    method Write(p: bytes)
      requires Valid()
      modifies this, out
      ensures Valid() && Emits(old(State()), State(), p)
    {
      if failed {
        return;
      }
      var ok := out.Write(p);
      failed := !ok;
    }

    /** Fills the scratch array with the groups of `x`; it never needs an eleventh byte. */
    method PutUvarint(x: nat) returns (n: nat)
      requires Valid() && x < TWO64
      modifies scratch
      ensures Valid() && n <= 10 && scratch[..n] == Uvarint(x)
    {
      SizeAtMostTen(x);
      UvarintShape(x);
      hide Uvarint, UvarintSize, Terminated, Sum7, LowGroup, HighGroups;
      var rest, i := x, 0;
      ghost var all := Uvarint(x);
      while rest >= 0x80
        invariant 0 <= i < |all| && all[i..] == Uvarint(rest)
        invariant forall k :: 0 <= k < i ==> scratch[k] == all[k]
        decreases rest
      {
        GroupStep(rest);
        assert all[i] == all[i..][0] && all[i + 1..] == all[i..][1..];
        scratch[i] := LowGroup(rest);
        rest, i := HighGroups(rest), i + 1;
      }
      GroupStep(rest);
      assert all[i] == all[i..][0] && |all[i..]| == 1;
      scratch[i] := rest;
      return i + 1;
    }

    method WriteUvarint(x: nat)
      requires Valid() && x < TWO64
      modifies this, out, scratch
      ensures Valid() && Emits(old(State()), State(), Uvarint(x))
    {
      if x < 0x80 {
        scratch[0] := x;
        assert scratch[..1] == Uvarint(x);
        Write(scratch[..1]);
        return;
      }
      var n := PutUvarint(x);
      Write(scratch[..n]);
    }

    method WriteVarint(v: int)
      requires Valid() && IsInt64(v)
      modifies this, out, scratch
      ensures Valid() && Emits(old(State()), State(), Uvarint(ZigZag(v)))
    {
      ZigZagMatchesBits(v, 0);
      ZigZagBijection(v, 0);
      var n := PutUvarint(ZigZagBits(v));
      Write(scratch[..n]);
    }

    /** A length, then the bytes. */
    method WriteBlob(s: bytes)
      requires Valid() && |s| <= MAX_INT
      modifies this, out, scratch
      ensures Valid() && Emits(old(State()), State(), Blob(s))
    {
      ghost var p := State();
      WriteUvarint(|s|);
      ghost var q := State();
      Write(s);
      EmitsBoth(p, q, State(), Uvarint(|s|), s);
    }

    method WriteTagged(tag: nat, body: bytes)
      requires Valid() && tag < TWO64 && |body| <= MAX_INT
      modifies this, out, scratch
      ensures Valid() && Emits(old(State()), State(), Uvarint(tag) + Blob(body))
    {
      ghost var p := State();
      WriteUvarint(tag);
      ghost var q := State();
      WriteUvarint(|body|);
      ghost var r := State();
      EmitsBoth(p, q, r, Uvarint(tag), Uvarint(|body|));
      if |body| > 0 {
        Write(body);
      } else {
        EmitsNothing(r);
      }
      EmitsBoth(p, r, State(), Uvarint(tag) + Uvarint(|body|), body);
      assert (Uvarint(tag) + Uvarint(|body|)) + body == Uvarint(tag) + Blob(body);
    }

    // -------------------------------------------------------------- scalars

    method WriteBool(b: bool)
      requires Valid()
      modifies this, out, scratch
      ensures Valid() && Emits(old(State()), State(), [if b then 1 else 0])
    {
      scratch[0] := if b then 1 else 0;
      assert scratch[..1] == [scratch[0]];
      Write(scratch[..1]);
    }

    method EncodePrim(k: Kind, v: Value)
      requires Valid() && WFKind(k) && TypedPrim(k, v)
      modifies this, out, scratch
      ensures Valid() && Emits(old(State()), State(), EncPrim(k, v))
    {
      hide Emits, Uvarint, EncWords;
      match k
      case KString => WriteBlob(v.s);
      case KBool => WriteBool(v.b);
      case KInt(bits, _) => WriteVarint(v.i);
      case KUint(bits, _) => WriteUvarint(v.n);
      case KWords(width, _) => Write(EncWords(v.ws, width));
    }

    // -------------------------------------------------------------- the codec tree

    /** `Encode`: the value's own refusal, or else the writer's error. */
    method Encode(c: Codec, v: Value, addr: bool) returns (ok: bool)
      requires Valid() && WF(c) && Typed(c, v)
      modifies this, out, scratch
      ensures Valid() && old(out.data) <= out.data <= old(out.data) + Enc(c, v)
      ensures ok <==> Encodable(c, v) && !failed
      ensures ok ==> out.data == old(out.data) + Enc(c, v)
      ensures old(failed) ==> failed && out.data == old(out.data)
      ensures out.limit < 0 && !old(failed) ==> !failed
    {
      ok := EncodeTo(c, v, addr);
      ok := ok && !failed;
    }

    /** `addr` says whether the Go value is addressable. */
    method EncodeTo(c: Codec, v: Value, addr: bool) returns (ok: bool)
      requires Valid() && WF(c) && Typed(c, v)
      modifies this, out, scratch
      ensures Valid() && Reports(ok, Encodable(c, v), old(State()), State(), Enc(c, v))
      decreases c, 2
    {
      hide Uvarint;
      match c {
        case Prim(k) =>
          EncodePrim(k, v);
          ok := true;
        case Pointer(_) => ok := EncodePointer(c, v);
        case Bytes =>
          WriteBlob(v.s);
          ok := true;
        case Bools =>
          WriteBlob(v.s);
          ok := true;
        case Seq(_, _, _, _) => ok := EncodeSeq(c, v.vs, addr);
        case Struct(fields) =>
          var slots, table := Layout(fields);
          ok := EncodeFields(fields, slots, table, v.vs, addr);
        case Union(_) => ok := EncodeUnion(c, v.slots);
        case Map(_, _, _) => ok := EncodeMap(c, v.es);
      }
    }

    method EncodePointer(c: Codec, v: Value) returns (ok: bool)
      requires Valid() && c.Pointer? && WF(c) && Typed(c, v)
      modifies this, out, scratch
      ensures Valid() && Reports(ok, Encodable(c, v), old(State()), State(), Enc(c, v))
      decreases c, 0
    {
      ghost var p := State();
      WriteBool(v.VNil?);
      if v.VNil? {
        return true;
      }
      ghost var q := State();
      ok := EncodeTo(c.elem, v.v, true);
      if ok {
        GoesOn(p, q, State(), [0], Enc(c.elem, v.v));
      } else {
        GivesUp(p, q, State(), Encodable(c.elem, v.v), Encodable(c, v), [0], Enc(c.elem, v.v), []);
        assert Enc(c.elem, v.v) + [] == Enc(c.elem, v.v);
      }
    }

    // -------------------------------------------------------------- slices and arrays

    method EncodeSeq(c: Codec, vs: seq<Value>, addr: bool) returns (ok: bool)
      requires Valid() && c.Seq? && WF(c) && Typed(c, VSeq(vs))
      modifies this, out, scratch
      ensures Valid() && Reports(ok, Encodable(c, VSeq(vs)), old(State()), State(), Enc(c, VSeq(vs)))
      decreases c, 1
    {
      hide EncMany, Uvarint;
      ghost var p := State();
      if c.flavour.OfVarint? {
        PrimsEncodable(c.elem, vs);
        EncodeVarints(c.elem.kind, vs);
        return true;
      }
      if |vs| >= 8 && buffered && !failed && (c.flavour.OfString? || (c.flavour.OfWords? && (!c.isArray || addr))) {
        PrimsEncodable(c.elem, vs);
        var size := ElementsSize(c.elem, vs);
        var head := if c.isArray then [] else Uvarint(|vs|);
        var buffer := BufferMany(c.elem, vs);
        assert |head + buffer| == |head| + size;  // `Grow` made exactly the room that is used
        Write(head + buffer);
        return true;
      }
      if !c.isArray {
        WriteUvarint(|vs|);
      } else {
        EmitsNothing(p);
      }
      ghost var q := State();
      ok := EncodeMany(c.elem, vs, addr || !c.isArray);
      ghost var head := if c.isArray then [] else Uvarint(|vs|);
      if ok {
        GoesOn(p, q, State(), head, EncMany(c.elem, vs));
      } else {
        GivesUp(p, q, State(), Encodable(c, VSeq(vs)), Encodable(c, VSeq(vs)), head, EncMany(c.elem, vs), []);
        assert EncMany(c.elem, vs) + [] == EncMany(c.elem, vs);
      }
    }

    /** A slice of integers: its length, then one buffer of varints or one write for each. */
    method EncodeVarints(k: Kind, vs: seq<Value>)
      requires Valid() && (k.KInt? || k.KUint?) && WFKind(k) && |vs| <= MAX_LEN
      requires forall i :: 0 <= i < |vs| ==> TypedPrim(k, vs[i])
      modifies this, out, scratch
      ensures Valid() && Emits(old(State()), State(), Uvarint(|vs|) + EncMany(Prim(k), vs))
    {
      hide EncMany, Uvarint, Emits, EncPrim;
      ghost var p := State();
      WriteUvarint(|vs|);
      ghost var q, done := State(), [];
      if buffered && !failed {
        var buffer := BufferMany(Prim(k), vs);
        Write(buffer);
        EmitsBoth(p, q, State(), Uvarint(|vs|), buffer);
        return;
      }
      EmitsNothing(q);
      ManyWhole(Prim(k), vs);
      var i := 0;
      while i < |vs|
        invariant 0 <= i <= |vs| && Valid() && Emits(q, State(), done)
        invariant EncMany(Prim(k), vs) == done + EncMany(Prim(k), vs[i..])
      {
        ghost var r := State();
        ManyFrom(Prim(k), vs, i);
        EncodePrim(k, vs[i]);
        EmitsBoth(q, r, State(), done, EncPrim(k, vs[i]));
        assert (done + EncPrim(k, vs[i])) + EncMany(Prim(k), vs[i + 1..]) == EncMany(Prim(k), vs);
        done, i := done + EncPrim(k, vs[i]), i + 1;
      }
      assert vs[i..] == [];
      ManyWhole(Prim(k), []);
      assert done + [] == done;
      EmitsBoth(p, q, State(), Uvarint(|vs|), done);
    }

    /** The room a slice of strings or of fixed-width words needs. */
    method ElementsSize(c: Codec, vs: seq<Value>) returns (size: nat)
      requires c == Prim(KString) || (c.Prim? && c.kind.KWords?)
      requires forall i :: 0 <= i < |vs| ==> TypedPrim(c.kind, vs[i])
      ensures size == |EncMany(c, vs)|
    {
      hide Uvarint;
      if c.kind.KWords? {
        WordsSize(c.kind, vs);
        return |vs| * (c.kind.width * c.kind.parts);
      }
      hide EncMany;
      size := 0;
      ManyWhole(c, vs);
      for i := 0 to |vs|
        invariant |EncMany(c, vs)| == size + |EncMany(c, vs[i..])|
      {
        ManyFrom(c, vs, i);
        var n := SizeOfUvarint(|vs[i].s|);
        size := size + n + |vs[i].s|;
      }
      assert vs[|vs|..] == [];
      ManyWhole(c, []);
    }

    /** `uvarintSize` counts the bytes `WriteUvarint` writes. */
    static method SizeOfUvarint(x: nat) returns (size: nat)
      ensures size == |Uvarint(x)|
    {
      hide Uvarint;
      size := 1;
      var rest := x;
      while rest >= 0x80
        invariant |Uvarint(x)| == size - 1 + |Uvarint(rest)|
        decreases rest
      {
        GroupStep(rest);
        rest, size := HighGroups(rest), size + 1;
      }
      GroupStep(rest);
    }

    /** The fast paths' buffer: the elements appended one after the other, without an encoder. */
    method BufferMany(c: Codec, vs: seq<Value>) returns (buffer: bytes)
      requires c.Prim?
      ensures buffer == EncMany(c, vs)
    {
      hide EncPrim;
      buffer := [];
      assert vs[0..] == vs;
      for i := 0 to |vs|
        invariant EncMany(c, vs) == buffer + EncMany(c, vs[i..])
      {
        ManyFrom(c, vs, i);
        buffer := buffer + EncPrim(c.kind, vs[i]);
      }
    }

    method EncodeMany(c: Codec, vs: seq<Value>, addr: bool) returns (ok: bool)
      requires Valid() && WF(c) && forall i :: 0 <= i < |vs| ==> Typed(c, vs[i])
      modifies this, out, scratch
      ensures Valid()
      ensures Reports(ok, forall i :: 0 <= i < |vs| ==> Encodable(c, vs[i]), old(State()), State(), EncMany(c, vs))
      decreases c, 3
    {
      hide Enc, EncMany, Emits, Reports, Encodable, Typed;
      ghost var p, done := State(), [];
      ghost var whole := forall i :: 0 <= i < |vs| ==> Encodable(c, vs[i]);
      EmitsNothing(p);
      ManyWhole(c, vs);
      var i := 0;
      while i < |vs|
        invariant 0 <= i <= |vs| && Valid() && Emits(p, State(), done)
        invariant EncMany(c, vs) == done + EncMany(c, vs[i..])
        invariant forall j :: 0 <= j < i ==> Encodable(c, vs[j])
      {
        ghost var q := State();
        ManyFrom(c, vs, i);
        ok := EncodeTo(c, vs[i], addr);
        if !ok {
          GivesUp(p, q, State(), Encodable(c, vs[i]), whole, done, Enc(c, vs[i]), EncMany(c, vs[i + 1..]));
          return;
        }
        Accepted(Encodable(c, vs[i]), p, q, State(), done, Enc(c, vs[i]));
        assert (done + Enc(c, vs[i])) + EncMany(c, vs[i + 1..]) == EncMany(c, vs);
        done, i := done + Enc(c, vs[i]), i + 1;
      }
      assert vs[i..] == [];
      ManyWhole(c, []);
      assert done + [] == done;
      Completed(whole, p, State(), done);
      return true;
    }

    // -------------------------------------------------------------- structs

    /** Goes over all fields of the Go struct: `table` is the codec, and `vs` lists the included values. */
    method EncodeFields(ghost fs: seq<Codec>, ghost slots: seq<Slot>, table: seq<FieldCodec>,
                        vs: seq<Value>, addr: bool)
      returns (ok: bool)
      requires Valid() && Packs(slots, table) && Included(slots) == fs && FieldsTyped(fs, vs)
      modifies this, out, scratch
      ensures Valid() && |fs| == |vs| && Reports(ok, FieldsEncodable(fs, vs), old(State()), State(), EncFields(fs, vs))
      decreases fs
    {
      hide *;
      var direct := IsDirectTable(slots, table);
      ghost var p, done := State(), [];
      EmitsNothing(p);
      NoneWritten(fs, vs);
      AllToCome(slots, fs);
      TableSize(slots, table);
      var j := 0;
      for i := 0 to |table|
        invariant 0 <= j && ToCome(slots, i, fs, j) && Written(fs, vs, j, done)
        invariant Valid() && Emits(p, State(), done)
      {
        SlotReads(slots, table, i, fs, j);
        if table[i].IsIncluded() {
          ghost var q := State();
          FieldTyped(fs, vs, j);
          ok := EncodeField(table[i], vs[j], addr, direct);
          if !ok {
            StopWriting(fs, vs, j, done, p, q, State());
            return;
          }
          Accepted(Encodable(fs[j], vs[j]), p, q, State(), done, Enc(fs[j], vs[j]));
          MoreWritten(fs, vs, j, done);
          done, j := done + Enc(fs[j], vs[j]), j + 1;
        }
      }
      NoneToCome(slots, fs, j);
      AllWritten(fs, vs, done);
      Completed(true, p, State(), done);
      return true;
    }

    method EncodeField(f: FieldCodec, v: Value, addr: bool, direct: bool) returns (ok: bool)
      requires Valid() && f.Kind() == KindNumber(f.codec) && WF(f.codec) && Typed(f.codec, v)
      modifies this, out, scratch
      ensures Valid() && Reports(ok, Encodable(f.codec, v), old(State()), State(), Enc(f.codec, v))
      decreases f.codec, 4
    {
      hide *;
      if addr && direct {
        ok := EncodeDirect(f, v);
      } else {
        ok := EncodeTo(f.codec, v, addr);
      }
    }

    /** The direct path: a switch on the packed kind instead of a call through the codec. */
    method EncodeDirect(f: FieldCodec, v: Value) returns (ok: bool)
      requires Valid() && f.Kind() == KindNumber(f.codec) && WF(f.codec) && Typed(f.codec, v)
      modifies this, out, scratch
      ensures Valid() && Reports(ok, Encodable(f.codec, v), old(State()), State(), Enc(f.codec, v))
      decreases f.codec, 3
    {
      var kind := f.Kind();
      DirectEncSame(f.codec, v);
      KindFits(f.codec, v);
      hide KindNumber, FieldCodec.Kind, Enc, EncMany, EncWords, Uvarint, Typed, WF, Encodable, Emits, Reports;
      ghost var p := State();
      if kind == 24 {
        WriteBlob(v.s);
      } else if kind == 1 {
        WriteBool(v.b);
      } else if 2 <= kind <= 6 {
        WriteVarint(v.i);
      } else if 7 <= kind <= 11 {
        WriteUvarint(v.n);
      } else if 13 <= kind <= 16 {
        Write(EncWords(v.ws, KindWords(kind).0));
      } else if kind == 30 {
        WriteBlob(v.s);
      } else if 27 <= kind <= 29 {
        EncodeVarints(KUint(KindBits(kind), false), v.vs);
      } else {
        ok := EncodeTo(f.codec, v, true);
        return;
      }
      Completed(Encodable(f.codec, v), p, State(), Enc(f.codec, v));
      return true;
    }

    // -------------------------------------------------------------- unions

    /** The one arm that is set, -1 when none is, or word that several are. */
    static method FindArm(slots: seq<Value>) returns (i: int, several: bool)
      ensures several <==> !AtMostOneSet(slots)
      ensures !several ==> i == Selected(slots)
    {
      i, several := -1, false;
      for j := 0 to |slots|
        invariant -1 <= i < j && (i >= 0 ==> slots[i].VPtr?)
        invariant forall k :: 0 <= k < j && slots[k].VPtr? ==> k == i
      {
        if slots[j].VPtr? {
          if i >= 0 {
            return i, true;
          }
          i := j;
        }
      }
    }

    /** The arm is encoded into a buffer of its own, because its length goes first. */
    method EncodeUnion(c: Codec, slots: seq<Value>) returns (ok: bool)
      requires Valid() && c.Union? && WF(c) && Typed(c, VSlots(slots))
      modifies this, out, scratch
      ensures Valid() && Reports(ok, Encodable(c, VSlots(slots)), old(State()), State(), Enc(c, VSlots(slots)))
      ensures !Encodable(c, VSlots(slots)) ==> State() == old(State())
      decreases c, 1
    {
      hide Uvarint, Enc, Encodable, Typed, WF, Emits, Reports, AtMostOneSet;
      ghost var p, bs := State(), Enc(c, VSlots(slots));
      var i, several := FindArm(slots);
      UnionFacts(c, slots);
      if several {
        Refused(p, bs);
        return false;
      }
      if i < 0 {
        WriteTagged(0, []);
        Sticks(p, State(), bs);
        return !failed;
      }
      var arm := c.arms[i];
      var body := new Sink(-1);
      var inner := new Encoder(body, true, false);
      ghost var blank := inner.State();
      ok := inner.EncodeTo(arm.codec, slots[i].v, true);
      Buffered(ok, Encodable(arm.codec, slots[i].v), blank, inner.State(), Enc(arm.codec, slots[i].v));
      if !ok || inner.failed {
        Refused(p, bs);
        return false;
      }
      WriteTagged(arm.tag, body.data);
      Sticks(p, State(), bs);
      return !failed;
    }

    // -------------------------------------------------------------- maps

    /** Go iterates a map in a new order each time. */
    static method Iterate(es: seq<Entry>) returns (order: seq<Entry>)
      ensures multiset(order) == multiset(es)
    {
      var left := es;
      order := [];
      while left != []
        invariant multiset(order) + multiset(left) == multiset(es)
        decreases |left|
      {
        var i :| 0 <= i < |left|;
        Permutation.Without(left, i);
        order, left := order + [left[i]], left[..i] + left[i + 1..];
      }
    }

    method EncodeMap(c: Codec, es: seq<Entry>) returns (ok: bool)
      requires Valid() && c.Map? && WF(c) && Typed(c, VMap(es))
      modifies this, out, scratch
      ensures Valid() && Reports(ok, Encodable(c, VMap(es)), old(State()), State(), Enc(c, VMap(es)))
      decreases c, 1
    {
      if |es| >= 8 && buffered && !failed && !c.mflavour.ReflectMap? {
        ok := EncodeMapAtOnce(c, es);
        return;
      }
      EntriesTyped(c, es);
      hide Uvarint, EncEntries, Emits, EntryEncodable;
      ghost var p := State();
      WriteUvarint(|es|);
      ghost var q := State();
      ok := EncodeEntries(c, es);
      if ok {
        GoesOn(p, q, State(), Uvarint(|es|), EncEntries(c, es));
      } else {
        GivesUp(p, q, State(), Encodable(c, VMap(es)), Encodable(c, VMap(es)), Uvarint(|es|), EncEntries(c, es), []);
        assert EncEntries(c, es) + [] == EncEntries(c, es);
      }
    }

    /** The buffered path goes over the map twice, in unrelated orders. */
    method EncodeMapAtOnce(c: Codec, es: seq<Entry>) returns (ok: bool)
      requires Valid() && c.Map? && WF(c) && Typed(c, VMap(es)) && !c.mflavour.ReflectMap?
      modifies this, out, scratch
      ensures Valid() && Reports(ok, Encodable(c, VMap(es)), old(State()), State(), Enc(c, VMap(es)))
      ensures !ok ==> State() == old(State())
    {
      hide Uvarint, EncEntries, Emits;
      ghost var p := State();
      var sizing := Iterate(es);
      SamePass(c, sizing, es);
      var fits, size := EntriesRoom(c, sizing);
      if !fits {
        Refused(p, Enc(c, VMap(es)));
        return false;
      }
      var buffer := BufferEntries(c, es);
      RoomSuffices(c, sizing, es);
      assert |buffer| <= size && (c.mflavour.StringMap? ==> |buffer| == size);
      Write(Uvarint(|es|) + buffer);
      Completed(true, p, State(), Uvarint(|es|) + buffer);
      return true;
    }

    method EncodeEntries(c: Codec, es: seq<Entry>) returns (ok: bool)
      requires Valid() && c.Map? && WF(c.key) && WF(c.val)
      requires forall i :: 0 <= i < |es| ==> Typed(c.key, es[i].key) && Typed(c.val, es[i].val)
      modifies this, out, scratch
      ensures Valid()
      ensures Reports(ok, forall i :: 0 <= i < |es| ==> EntryEncodable(c, es[i]),
                      old(State()), State(), EncEntries(c, es))
      decreases c, 0, 1
    {
      hide EncEntries, EncEntry, Emits, Reports, Encodable, Typed, WF, EntryEncodable;
      ghost var p, done := State(), [];
      ghost var whole := forall i :: 0 <= i < |es| ==> EntryEncodable(c, es[i]);
      EmitsNothing(p);
      EntriesWhole(c, es);
      var i := 0;
      while i < |es|
        invariant 0 <= i <= |es| && Valid() && Emits(p, State(), done)
        invariant EncEntries(c, es) == done + EncEntries(c, es[i..])
        invariant forall j :: 0 <= j < i ==> EntryEncodable(c, es[j])
      {
        ghost var q := State();
        EntriesFrom(c, es, i);
        ok := EncodeEntry(c, es[i]);
        if !ok {
          GivesUp(p, q, State(), EntryEncodable(c, es[i]), whole, done, EncEntry(c, es[i]), EncEntries(c, es[i + 1..]));
          return;
        }
        Accepted(EntryEncodable(c, es[i]), p, q, State(), done, EncEntry(c, es[i]));
        assert (done + EncEntry(c, es[i])) + EncEntries(c, es[i + 1..]) == EncEntries(c, es);
        done, i := done + EncEntry(c, es[i]), i + 1;
      }
      assert es[i..] == [];
      EntriesWhole(c, []);
      assert done + [] == done;
      Completed(whole, p, State(), done);
      return true;
    }

    method EncodeEntry(c: Codec, e: Entry) returns (ok: bool)
      requires Valid() && c.Map? && WF(c.key) && WF(c.val) && Typed(c.key, e.key) && Typed(c.val, e.val)
      modifies this, out, scratch
      ensures Valid() && Reports(ok, EntryEncodable(c, e), old(State()), State(), EncEntry(c, e))
      decreases c, 0, 0
    {
      hide Enc, EncKey, Emits, Reports, Encodable, Typed, WF, KeyFits;
      ghost var p, ks, vs := State(), EncKey(c.key, e.key), Enc(c.val, e.val);
      EmitsNothing(p);
      assert [] + (ks + vs) == ks + vs && [] + ks == ks && vs + [] == vs;
      ok := WriteKey(c.key, e.key);
      if !ok {
        GivesUp(p, p, State(), KeyFits(c.key, e.key) && Encodable(c.key, e.key), EntryEncodable(c, e), [], ks, vs);
        return;
      }
      Accepted(KeyFits(c.key, e.key) && Encodable(c.key, e.key), p, p, State(), [], ks);
      ghost var r := State();
      ok := EncodeTo(c.val, e.val, false);
      if !ok {
        GivesUp(p, r, State(), Encodable(c.val, e.val), EntryEncodable(c, e), ks, vs, []);
        return;
      }
      Accepted(Encodable(c.val, e.val), p, r, State(), ks, vs);
      Completed(EntryEncodable(c, e), p, State(), ks + vs);
    }

    method WriteKey(k: Codec, key: Value) returns (ok: bool)
      requires Valid() && WF(k) && Typed(k, key)
      modifies this, out, scratch
      ensures Valid()
      ensures Reports(ok, KeyFits(k, key) && Encodable(k, key), old(State()), State(), EncKey(k, key))
      ensures !KeyFits(k, key) ==> !ok && State() == old(State())
      decreases k, 3
    {
      hide Uvarint, LE, Emits;
      ghost var p := State();
      if !k.Prim? {
        ok := EncodeTo(k, key, false);
        return;
      }
      if FixedKey(k.kind) {
        Write(LE((if key.VInt? then key.i else key.n) % Modulus(k.kind.bits), k.kind.bits / 8));
      } else if k.kind.KString? {
        if |key.s| > MAX_KEY {
          Refused(p, EncKey(k, key));
          return false;
        }
        Write(LE(|key.s|, 2));
        ghost var q := State();
        Write(key.s);
        EmitsBoth(p, q, State(), LE(|key.s|, 2), key.s);
      } else {
        EncodePrim(k.kind, key);
      }
      Completed(true, p, State(), EncKey(k, key));
      return true;
    }

    /** The first pass over the map: refuse long keys, add up the room the entries need. */
    static method EntriesRoom(c: Codec, es: seq<Entry>) returns (fits: bool, size: nat)
      requires c.Map? && WF(c) && !c.mflavour.ReflectMap?
      requires forall i :: 0 <= i < |es| ==> Typed(c.key, es[i].key) && Typed(c.val, es[i].val)
      ensures fits <==> forall i :: 0 <= i < |es| ==> KeyFits(c.key, es[i].key)
      ensures fits ==> size == Room(c, es)
    {
      hide Uvarint, Room;
      fits, size := true, 0;
      RoomWhole(c, es);
      for i := 0 to |es|
        invariant Room(c, es) == size + Room(c, es[i..])
        invariant forall j :: 0 <= j < i ==> KeyFits(c.key, es[j].key)
      {
        RoomFrom(c, es, i);
        if c.mflavour.StringMap? {
          if |es[i].key.s| > MAX_KEY {
            return false, size;
          }
          var n := ValueRoom(c.val, es[i].val);
          size := size + (2 + |es[i].key.s| + n);
        } else {
          var m := SizeOfUvarint(es[i].key.n);
          var n := SizeOfUvarint(es[i].val.n);
          size := size + (8 + m + n);
        }
      }
      assert es[|es|..] == [];
      RoomWhole(c, []);
    }

    static method ValueRoom(c: Codec, v: Value) returns (size: nat)
      requires (c == Prim(KString) || c == Bytes || c == Prim(KUint(64, false))) && Typed(c, v)
      ensures size == |Enc(c, v)|
    {
      hide Uvarint;
      if v.VStr? {
        size := SizeOfUvarint(|v.s|);
        return size + |v.s|;
      } else {
        size := SizeOfUvarint(v.n);
      }
    }

    /** The second pass: keys and values appended to one buffer. */
    static method BufferEntries(c: Codec, es: seq<Entry>) returns (buffer: bytes)
      requires c.Map? && WF(c) && !c.mflavour.ReflectMap?
      requires forall i :: 0 <= i < |es| ==> Typed(c.key, es[i].key) && Typed(c.val, es[i].val)
      ensures buffer == EncEntries(c, es)
    {
      hide Uvarint, EncEntries, EncEntry, LE, WF, Typed;
      buffer := [];
      EntriesWhole(c, es);
      for i := 0 to |es|
        invariant EncEntries(c, es) == buffer + EncEntries(c, es[i..])
      {
        EntriesFrom(c, es, i);
        EntryBytes(c, es[i]);
        if c.mflavour.StringMap? {
          buffer := buffer + (LE(|es[i].key.s|, 2) + es[i].key.s + AppendValue(es[i].val));
        } else {
          buffer := buffer + (LE(es[i].key.n, 8) + Uvarint(es[i].val.n));
        }
      }
      assert es[|es|..] == [];
      EntriesWhole(c, []);
    }
  }

  /** `Marshal`: into a buffer that never fails, exactly the encodable values succeed. */
  method Marshal(c: Codec, v: Value, addr: bool) returns (ok: bool, output: bytes)
    requires WF(c) && Typed(c, v)
    ensures ok <==> Encodable(c, v)
    ensures ok ==> output == Enc(c, v)
  {
    var buffer := new Sink(-1);
    var encoder := new Encoder(buffer, true, false);
    ok := encoder.Encode(c, v, addr);
    output := buffer.data;
  }

  function AppendValue(v: Value): bytes {
    if v.VStr? then Uvarint(|v.s|) + v.s else if v.VUint? then Uvarint(v.n) else []
  }

  lemma EntryBytes(c: Codec, e: Entry)
    requires c.Map? && WF(c) && !c.mflavour.ReflectMap? && Typed(c.key, e.key) && Typed(c.val, e.val)
    ensures c.mflavour.StringMap? ==> e.key.VStr? && EncEntry(c, e) == LE(|e.key.s|, 2) + e.key.s + AppendValue(e.val)
    ensures !c.mflavour.StringMap? ==>
      e.key.VUint? && e.val.VUint? && EncEntry(c, e) == LE(e.key.n, 8) + Uvarint(e.val.n)
  {
    hide Uvarint, LE;
  }

  predicate EntryEncodable(c: Codec, e: Entry)
    requires c.Map?
  {
    KeyFits(c.key, e.key) && Encodable(c.key, e.key) && Encodable(c.val, e.val)
  }

  lemma EntriesTyped(c: Codec, es: seq<Entry>)
    requires c.Map? && WF(c) && Typed(c, VMap(es))
    ensures WF(c.key) && WF(c.val)
    ensures forall i :: 0 <= i < |es| ==> Typed(c.key, es[i].key) && Typed(c.val, es[i].val)
    ensures Encodable(c, VMap(es)) <==> forall i :: 0 <= i < |es| ==> EntryEncodable(c, es[i])
  {
  }

  lemma EntriesWhole(c: Codec, es: seq<Entry>)
    requires c.Map?
    ensures EncEntries(c, es) == [] + EncEntries(c, es[0..])
    ensures es == [] ==> EncEntries(c, es) == []
  {
    assert es[0..] == es;
  }

  /** Nothing was written because the value is refused. */
  lemma Refused(p: Output, bs: bytes)
    ensures Reports(false, false, p, p, bs)
  {
  }

  /** Everything was asked for; the verdict is whether the writer's error is set. */
  lemma Sticks(p: Output, q: Output, bs: bytes)
    requires Emits(p, q, bs)
    ensures Reports(!q.failed, true, p, q, bs)
  {
  }

  /** A buffer that takes everything holds the whole encoding, unless the value is refused. */
  lemma Buffered(ok: bool, encodable: bool, p: Output, q: Output, bs: bytes)
    requires p.data == [] && !p.failed && p.safe && Reports(ok, encodable, p, q, bs)
    ensures ok == encodable && !q.failed && (ok ==> q.data == bs)
  {
  }

  lemma UnionFacts(c: Codec, slots: seq<Value>)
    requires c.Union? && WF(c) && Typed(c, VSlots(slots))
    ensures !AtMostOneSet(slots) ==> !Encodable(c, VSlots(slots))
    ensures var i := Selected(slots);
      && |slots| == |c.arms|
      && (i < 0 ==>
            && Enc(c, VSlots(slots)) == Uvarint(0) + Blob([])
            && (AtMostOneSet(slots) ==> Encodable(c, VSlots(slots))))
      && (i >= 0 ==>
            && WF(c.arms[i].codec) && Typed(c.arms[i].codec, slots[i].v)
            && c.arms[i].tag < TWO64 && |Enc(c.arms[i].codec, slots[i].v)| <= MAX_INT
            && Enc(c, VSlots(slots)) == Uvarint(c.arms[i].tag) + Blob(Enc(c.arms[i].codec, slots[i].v))
            && (AtMostOneSet(slots) ==> (Encodable(c, VSlots(slots)) <==> Encodable(c.arms[i].codec, slots[i].v))))
  {
    hide Uvarint, Blob;
    if AtMostOneSet(slots) && Selected(slots) >= 0 {
      forall j | 0 <= j < |slots| && slots[j].VPtr?
        ensures j == Selected(slots)
      {
        assert !(j < Selected(slots)) && !(Selected(slots) < j);
      }
    }
  }

  /** What the packed kind says about the field's value. */
  lemma KindFits(f: Codec, v: Value)
    requires WF(f) && Typed(f, v)
    ensures var kind := KindNumber(f);
      && (kind == 24 || kind == 30 ==> v.VStr? && |v.s| <= MAX_INT)
      && (kind == 1 ==> v.VBool?)
      && (2 <= kind <= 6 ==> v.VInt? && IsInt64(v.i))
      && (7 <= kind <= 11 ==> v.VUint? && v.n < TWO64)
      && (13 <= kind <= 16 ==> v.VWords?)
      && (27 <= kind <= 29 ==>
            && v.VSeq? && |v.vs| <= MAX_LEN && WFKind(KUint(KindBits(kind), false))
            && forall i :: 0 <= i < |v.vs| ==> TypedPrim(KUint(KindBits(kind), false), v.vs[i]))
      && (kind > 0 ==> Encodable(f, v))
  {
  }

  lemma {:induction false} WordsSize(k: Kind, vs: seq<Value>)
    requires k.KWords? && forall i :: 0 <= i < |vs| ==> TypedPrim(k, vs[i])
    ensures |EncMany(Prim(k), vs)| == |vs| * (k.width * k.parts)
  {
    if vs != [] {
      WordsSize(k, vs[1..]);
      assert |Enc(Prim(k), vs[0])| == k.width * k.parts;
      assert |vs| * (k.width * k.parts) == k.width * k.parts + (|vs| - 1) * (k.width * k.parts);
    }
  }

  // ---------------------------------------------------------------- two passes over a map

  /** What the sizing pass adds for one entry. */
  function EntryRoom(c: Codec, e: Entry): nat
    requires c.Map?
  {
    if c.mflavour.Uint64Map? && e.key.VUint? && e.val.VUint? then 8 + |Uvarint(e.key.n)| + |Uvarint(e.val.n)|
    else (if e.key.VStr? then 2 + |e.key.s| else 0) + |Enc(c.val, e.val)|
  }

  function Room(c: Codec, es: seq<Entry>): nat
    requires c.Map?
  {
    if es == [] then 0 else EntryRoom(c, es[0]) + Room(c, es[1..])
  }

  lemma RoomWhole(c: Codec, es: seq<Entry>)
    requires c.Map?
    ensures Room(c, es) == Room(c, es[0..])
    ensures es == [] ==> Room(c, es) == 0
  {
    assert es[0..] == es;
  }

  lemma RoomFrom(c: Codec, es: seq<Entry>, i: nat)
    requires c.Map? && i < |es|
    ensures Room(c, es[i..]) == EntryRoom(c, es[i]) + Room(c, es[i + 1..])
  {
    assert es[i..][1..] == es[i + 1..];
  }

  lemma {:induction false} RoomWithout(c: Codec, es: seq<Entry>, i: nat)
    requires c.Map? && i < |es|
    ensures Room(c, es) == EntryRoom(c, es[i]) + Room(c, es[..i] + es[i + 1..])
  {
    hide EntryRoom;
    if i == 0 {
      assert es[..0] + es[1..] == es[1..];
    } else {
      RoomWithout(c, es[1..], i - 1);
      assert (es[..i] + es[i + 1..])[1..] == es[1..][..i - 1] + es[1..][i..];
    }
  }

  /** The room does not depend on the order of iteration. */
  lemma {:induction false} RoomAnyOrder(c: Codec, xs: seq<Entry>, ys: seq<Entry>)
    requires c.Map? && multiset(xs) == multiset(ys)
    ensures Room(c, xs) == Room(c, ys)
    decreases |xs|
  {
    hide EntryRoom;
    Permutation.SameLength(xs, ys);
    if xs != [] {
      var i := Permutation.MatchHead(xs, ys);
      RoomAnyOrder(c, xs[1..], ys[..i] + ys[i + 1..]);
      RoomWithout(c, ys, i);
    }
  }

  /** Both passes see the same entries. */
  lemma SamePass(c: Codec, sizing: seq<Entry>, es: seq<Entry>)
    requires c.Map? && WF(c) && Typed(c, VMap(es)) && !c.mflavour.ReflectMap? && multiset(sizing) == multiset(es)
    ensures forall i :: 0 <= i < |sizing| ==> Typed(c.key, sizing[i].key) && Typed(c.val, sizing[i].val)
    ensures Encodable(c, VMap(es)) <==> forall i :: 0 <= i < |sizing| ==> KeyFits(c.key, sizing[i].key)
  {
    forall i | 0 <= i < |sizing|
      ensures sizing[i] in es
    {
      assert sizing[i] in multiset(es);
    }
    forall i | 0 <= i < |es|
      ensures es[i] in sizing
    {
      assert es[i] in multiset(sizing);
    }
  }

  lemma {:induction false} RoomCovers(c: Codec, es: seq<Entry>)
    requires c.Map? && WF(c) && !c.mflavour.ReflectMap?
    requires forall i :: 0 <= i < |es| ==> Typed(c.key, es[i].key) && Typed(c.val, es[i].val)
    ensures |EncEntries(c, es)| <= Room(c, es)
    ensures c.mflavour.StringMap? ==> |EncEntries(c, es)| == Room(c, es)
  {
    hide Uvarint;
    if es != [] {
      RoomCovers(c, es[1..]);
    }
  }

  /**
   The room summed in one order of iteration is enough for the bytes appended in any other: exactly
   enough for string maps.
   */
  lemma RoomSuffices(c: Codec, sizing: seq<Entry>, es: seq<Entry>)
    requires c.Map? && WF(c) && !c.mflavour.ReflectMap? && multiset(sizing) == multiset(es)
    requires forall i :: 0 <= i < |es| ==> Typed(c.key, es[i].key) && Typed(c.val, es[i].val)
    ensures |EncEntries(c, es)| <= Room(c, sizing)
    ensures c.mflavour.StringMap? ==> |EncEntries(c, es)| == Room(c, sizing)
  {
    RoomCovers(c, es);
    RoomAnyOrder(c, sizing, es);
  }

  lemma ManyWhole(c: Codec, vs: seq<Value>)
    ensures EncMany(c, vs) == [] + EncMany(c, vs[0..])
    ensures vs == [] ==> EncMany(c, vs) == []
  {
    assert vs[0..] == vs;
  }

  lemma Accepted(encodable: bool, p: Output, q: Output, r: Output, xs: bytes, ys: bytes)
    requires Emits(p, q, xs) && Reports(true, encodable, q, r, ys)
    ensures encodable && Emits(p, r, xs + ys)
  {
    EmitsBoth(p, q, r, xs, ys);
  }

  lemma Completed(encodable: bool, p: Output, q: Output, bs: bytes)
    requires encodable && Emits(p, q, bs)
    ensures Reports(true, encodable, p, q, bs)
  {
  }

  lemma PrimsEncodable(c: Codec, vs: seq<Value>)
    requires c.Prim?
    ensures forall i :: 0 <= i < |vs| ==> Encodable(c, vs[i])
  {
  }
}
