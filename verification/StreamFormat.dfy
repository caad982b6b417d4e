/**
 The messages of the sorted package, said without its encoders and decoders: differences of neighbours modulo 2^64, and
 32-bit patterns whose reversed bits are XORed with those of the pattern before.
 */
module StreamFormat {
  import opened Wire
  import opened Bits
  import opened Varint
  import opened Codec
  import opened Analysis
  import opened GoFormat
  import opened GoLeaves
  import S = SortedInts
  import T = Series

  // ---------------------------------------------------------------- differences

  /** The difference a code stands for: itself, or zigzag for signed elements. */
  function Step(signed: bool, n: nat): int {
    if !signed then n else if n % 2 == 0 then n / 2 else -((n + 1) / 2)
  }

  /** The one 64-bit code of a difference, however far apart the neighbours are. */
  predicate CodeOf(signed: bool, n: nat, d: int) {
    n < 0x1_0000_0000_0000_0000 && (Step(signed, n) - d) % 0x1_0000_0000_0000_0000 == 0
  }

  lemma CodeExactly(signed: bool, n: nat, d: int)
    ensures CodeOf(signed, n, d) <==> n == S.Coded(signed, d)
  {
    if signed {
      WrapExactly(64, d, UnZigZag(n));
      ZigZagBijection(0, n);
      ZigZagBijection(WrapSigned(d, 64), n);
    } else {
      OneResidue(d, 0x1_0000_0000_0000_0000, n);
    }
  }

  /** Each element as the difference from the one before, in the shortest group. */
  predicate DeltasWritten(signed: bool, xs: seq<int>, prev: int, b: bytes)
    decreases |xs|
  {
    if xs == [] then b == []
    else
      exists k | 0 <= k <= |b| ::
        && Spells(Sum7(b[..k]), b[..k]) && CodeOf(signed, Sum7(b[..k]), xs[0] - prev)
        && DeltasWritten(signed, xs[1..], xs[0], b[k..])
  }

  lemma {:induction false} DeltasWrittenExactly(signed: bool, xs: seq<int>, prev: int, b: bytes)
    ensures DeltasWritten(signed, xs, prev, b) <==> b == S.Deltas(signed, xs, prev)
    decreases |xs|
  {
    hide Spells, CodeOf, S.Coded;
    if xs != [] {
      var n := S.Coded(signed, xs[0] - prev);
      forall k | 0 <= k <= |b|
        ensures
          && Spells(Sum7(b[..k]), b[..k]) && CodeOf(signed, Sum7(b[..k]), xs[0] - prev)
          && DeltasWritten(signed, xs[1..], xs[0], b[k..])
          <==> b[..k] == Uvarint(n) && b[k..] == S.Deltas(signed, xs[1..], xs[0])
      {
        GroupOf(n, b[..k]);
        CodeExactly(signed, Sum7(b[..k]), xs[0] - prev);
        DeltasWrittenExactly(signed, xs[1..], xs[0], b[k..]);
      }
      CutOnce(Uvarint(n), S.Deltas(signed, xs[1..], xs[0]), b);
    }
  }

  lemma GroupOf(n: nat, g: bytes)
    ensures Spells(Sum7(g), g) && Sum7(g) == n <==> g == Uvarint(n)
  {
    hide Uvarint, Sum7;
    SpellsExactly(Sum7(g), g);
    SpellsExactly(n, g);
    UvarintShape(n);
  }

  lemma CutOnce(x: bytes, y: bytes, b: bytes)
    ensures b == x + y <==> exists k | 0 <= k <= |b| :: b[..k] == x && b[k..] == y
  {
    if b == x + y {
      assert b[..|x|] == x && b[|x|..] == y;
    }
    if k :| 0 <= k <= |b| && b[..k] == x && b[k..] == y {
      assert b == b[..k] + b[k..];
    }
  }

  // ---------------------------------------------------------------- reading differences

  predicate ElementRange(signed: bool, bits: nat, x: int) {
    if signed then SignedRange(bits, x) else UnsignedRange(bits, x)
  }

  /** Each element has the low bits of the sum of all the differences up to it, which no arithmetic has cut short. */
  predicate DeltasRead(signed: bool, bits: nat, xs: seq<int>, sum: int, b: bytes)
    decreases |xs|
  {
    if xs == [] then b == []
    else
      exists k | 0 <= k <= |b| ::
        var next := sum + Step(signed, Sum7(b[..k]));
        && Counts(Sum7(b[..k]), b[..k])
        && ElementRange(signed, bits, xs[0]) && Congruent(bits, xs[0], next)
        && DeltasRead(signed, bits, xs[1..], next, b[k..])
  }

  /** Equal as 64-bit words. */
  predicate SameWord(x: int, y: int) {
    (x - y) % 0x1_0000_0000_0000_0000 == 0
  }

  lemma NarrowExactly(signed: bool, bits: nat, word: int, sum: int, x: int)
    requires IsIntWidth(bits) && SameWord(word, sum)
    ensures x == S.Narrow(signed, bits, word) <==> ElementRange(signed, bits, x) && Congruent(bits, x, sum)
  {
    if signed {
      WrapExactly(bits, word, x);
    } else {
      CutExactly(bits, word, x);
    }
    LowOfWord(bits, word, sum, x);
  }

  lemma LowOfWord(bits: nat, word: int, sum: int, x: int)
    requires IsIntWidth(bits) && SameWord(word, sum)
    ensures Congruent(bits, x, word) <==> Congruent(bits, x, sum)
  {
    var q := (word - sum) / 0x1_0000_0000_0000_0000;
    assert word == sum + q * 0x1_0000_0000_0000_0000;
  }

  lemma SameWordTrans(x: int, y: int, z: int)
    requires SameWord(x, y) && SameWord(y, z)
    ensures SameWord(x, z)
  {
  }

  lemma SameWordPlus(x: int, y: int, d: int)
    requires SameWord(x, y)
    ensures SameWord(x + d, y + d)
  {
    assert (x + d) - (y + d) == x - y;
  }

  lemma WordIs(signed: bool, x: int)
    ensures SameWord(S.Word(signed, x), x)
  {
    if signed {
      WrapExactly(64, x, WrapSigned(x, 64));
    } else {
      OneResidue(x, 0x1_0000_0000_0000_0000, x % 0x1_0000_0000_0000_0000);
    }
  }

  lemma WordOfSum(signed: bool, word: int, sum: int, n: nat)
    requires SameWord(word, sum)
    ensures SameWord(S.Word(signed, word + S.Decoded(signed, n)), sum + Step(signed, n))
  {
    hide SameWord, S.Word;
    var d := Step(signed, n);
    assert S.Decoded(signed, n) == d;
    WordIs(signed, word + d);
    SameWordPlus(word, sum, d);
    SameWordTrans(S.Word(signed, word + d), word + d, sum + d);
  }

  lemma {:induction false} DeltasReadExactly(signed: bool, bits: nat, xs: seq<int>, word: int, sum: int, b: bytes)
    requires IsIntWidth(bits) && SameWord(word, sum)
    ensures DeltasRead(signed, bits, xs, sum, b) <==> S.ReadDeltas(signed, bits, b, word) == Ok(xs, [])
    decreases |xs|
  {
    if xs == [] {
      if b != [] && ReadUvarint(b).Ok? {
        ReadUvarintShape(b);
      }
    } else if b == [] {
      assert !Counts(Sum7([]), []);
    } else {
      hide *;
      if DeltasRead(signed, bits, xs, sum, b) {
        DeltasReadOn(signed, bits, xs, word, sum, b);
      }
      if S.ReadDeltas(signed, bits, b, word) == Ok(xs, []) {
        DeltasReadBack(signed, bits, xs, word, sum, b);
      }
    }
  }

  // One difference of the reader.
  lemma ReadStep(signed: bool, bits: nat, b: bytes, word: int)
    requires b != []
    ensures ReadUvarint(b).Fail? ==> S.ReadDeltas(signed, bits, b, word) == Fail
    ensures ReadUvarint(b).Ok? ==>
      var next := S.Word(signed, word + S.Decoded(signed, ReadUvarint(b).val));
      var more := S.ReadDeltas(signed, bits, ReadUvarint(b).rest, next);
      S.ReadDeltas(signed, bits, b, word) ==
        if more.Fail? then Fail else Ok([S.Narrow(signed, bits, next)] + more.val, more.rest)
  {
    hide ReadUvarint, S.Word, S.Narrow, S.Decoded;
    if ReadUvarint(b).Ok? {
      ReadUvarintShape(b);
    }
  }

  // One difference of the grammar.
  lemma DeltaSplit(signed: bool, bits: nat, xs: seq<int>, sum: int, b: bytes) returns (k: nat)
    requires xs != [] && DeltasRead(signed, bits, xs, sum, b)
    ensures k <= |b| && Counts(Sum7(b[..k]), b[..k])
    ensures ElementRange(signed, bits, xs[0]) && Congruent(bits, xs[0], sum + Step(signed, Sum7(b[..k])))
    ensures DeltasRead(signed, bits, xs[1..], sum + Step(signed, Sum7(b[..k])), b[k..])
  {
    hide Counts, ElementRange, Congruent, Sum7, Step;
    k :| k <= |b| && Counts(Sum7(b[..k]), b[..k]) &&
      ElementRange(signed, bits, xs[0]) && Congruent(bits, xs[0], sum + Step(signed, Sum7(b[..k]))) &&
      DeltasRead(signed, bits, xs[1..], sum + Step(signed, Sum7(b[..k])), b[k..]);
  }

  lemma {:induction false} DeltasReadOn(signed: bool, bits: nat, xs: seq<int>, word: int, sum: int, b: bytes)
    requires IsIntWidth(bits) && SameWord(word, sum) && xs != [] && b != [] && DeltasRead(signed, bits, xs, sum, b)
    ensures S.ReadDeltas(signed, bits, b, word) == Ok(xs, [])
    decreases |xs|, 0
  {
    hide *;
    var k := DeltaSplit(signed, bits, xs, sum, b);
    var n := Sum7(b[..k]);
    CountsExactly(n, b[..k], b[k..]);
    assert b == b[..k] + b[k..];
    ReadStep(signed, bits, b, word);
    WordOfSum(signed, word, sum, n);
    var next := S.Word(signed, word + S.Decoded(signed, n));
    NarrowExactly(signed, bits, next, sum + Step(signed, n), xs[0]);
    DeltasReadExactly(signed, bits, xs[1..], next, sum + Step(signed, n), b[k..]);
    assert [xs[0]] + xs[1..] == xs;
  }

  lemma {:induction false} DeltasReadBack(signed: bool, bits: nat, xs: seq<int>, word: int, sum: int, b: bytes)
    requires IsIntWidth(bits) && SameWord(word, sum) && xs != [] && b != []
    requires S.ReadDeltas(signed, bits, b, word) == Ok(xs, [])
    ensures DeltasRead(signed, bits, xs, sum, b)
    decreases |xs|, 0
  {
    hide *;
    ReadStep(signed, bits, b, word);
    var u := ReadUvarint(b);
    ReadUvarintShape(b);
    var k := |b| - |u.rest|;
    assert b[..k] + b[k..] == b && b[k..] == u.rest by { SuffixCut(b, u.rest); }
    CountsExactly(u.val, b[..k], u.rest);
    SumOf(u.val, b[..k]);
    WordOfSum(signed, word, sum, u.val);
    var next := S.Word(signed, word + S.Decoded(signed, u.val));
    var more := S.ReadDeltas(signed, bits, u.rest, next);
    Head(S.Narrow(signed, bits, next), more.val, xs);
    NarrowExactly(signed, bits, next, sum + Step(signed, u.val), xs[0]);
    DeltasReadExactly(signed, bits, xs[1..], next, sum + Step(signed, u.val), b[k..]);
    DeltaJoin(signed, bits, xs, sum, b, k);
  }

  lemma SuffixCut(b: bytes, rest: bytes)
    requires IsSuffix(rest, b)
    ensures b[..|b| - |rest|] + b[|b| - |rest|..] == b && b[|b| - |rest|..] == rest
  {
  }

  lemma DeltaJoin(signed: bool, bits: nat, xs: seq<int>, sum: int, b: bytes, k: nat)
    requires xs != [] && k <= |b| && Counts(Sum7(b[..k]), b[..k])
    requires ElementRange(signed, bits, xs[0]) && Congruent(bits, xs[0], sum + Step(signed, Sum7(b[..k])))
    requires DeltasRead(signed, bits, xs[1..], sum + Step(signed, Sum7(b[..k])), b[k..])
    ensures DeltasRead(signed, bits, xs, sum, b)
  {
    hide Counts, ElementRange, Congruent, Sum7, Step;
  }

  // ---------------------------------------------------------------- 32-bit patterns

  /** Whether an odd number of the words have bit `i`. */
  function Parity(ns: seq<nat>, i: nat): (r: nat)
    ensures r < 2
  {
    if ns == [] then 0 else (Parity(ns[..|ns| - 1], i) + BitOf(ns[|ns| - 1], i)) % 2
  }

  /** Bit `i` of `n` is bit `31 - i` of one pattern, flipped where the other has that bit. */
  predicate CrossedBits(n: nat, v: nat, prev: nat) {
    n < 0x1_0000_0000 && forall i :: 0 <= i < 32 ==> BitOf(n, i) == (BitOf(v, 31 - i) + BitOf(prev, 31 - i)) % 2
  }

  /** Each pattern back to front and XORed with the one before, in the shortest group. */
  predicate XorsWritten(vs: seq<int>, prev: nat, b: bytes)
    decreases |vs|
  {
    if vs == [] then b == []
    else
      exists k | 0 <= k <= |b| ::
        && 0 <= vs[0] && Spells(Sum7(b[..k]), b[..k]) && CrossedBits(Sum7(b[..k]), vs[0], prev)
        && XorsWritten(vs[1..], vs[0], b[k..])
  }

  /** Bit `i` of a word is bit `31 - i` of the pattern it turns into. */
  lemma FlippedBits(v: nat, i: nat)
    requires v < 0x1_0000_0000 && i < 32
    ensures (T.Flipped(v) / Pow2(i)) % 2 == (v / Pow2(31 - i)) % 2
  {
    hide Reverse;
    ReverseBits(v, 32, i);
    assert v % T.TWO32 == v;
  }

  lemma CrossedExactly(n: nat, v: nat, prev: nat)
    requires v < 0x1_0000_0000 && prev < 0x1_0000_0000
    ensures CrossedBits(n, v, prev) <==> n == Xor(T.Flipped(v), T.Flipped(prev))
  {
    hide Xor, Pow2, BitOf, T.Flipped;
    var x := Xor(T.Flipped(v), T.Flipped(prev));
    T.PowerOf32();
    T.FlippedTwice(v);
    T.FlippedTwice(prev);
    XorBound(T.Flipped(v), T.Flipped(prev), 32);
    forall i | 0 <= i < 32
      ensures BitOf(x, i) == (BitOf(v, 31 - i) + BitOf(prev, 31 - i)) % 2
    {
      FlippedBit(v, i);
      FlippedBit(prev, i);
      XorBits(T.Flipped(v), T.Flipped(prev), i);
    }
    if CrossedBits(n, v, prev) {
      SameBits(n, x, 32);
    }
  }

  lemma FlippedBit(v: nat, i: nat)
    requires v < 0x1_0000_0000 && i < 32
    ensures BitOf(T.Flipped(v), i) == BitOf(v, 31 - i)
  {
    hide T.Flipped, Pow2;
    FlippedBits(v, i);
  }

  lemma {:induction false} XorsWrittenExactly(vs: seq<int>, prev: nat, b: bytes)
    requires prev < 0x1_0000_0000 && forall k :: 0 <= k < |vs| ==> 0 <= vs[k] < 0x1_0000_0000
    ensures XorsWritten(vs, prev, b) <==> b == T.Xors(vs, T.Flipped(prev))
    decreases |vs|
  {
    hide Spells, CrossedBits, T.Flipped, Xor;
    if vs != [] {
      var n := Xor(T.Flipped(vs[0]), T.Flipped(prev));
      var tail := T.Xors(vs[1..], T.Flipped(vs[0]));
      forall k | 0 <= k <= |b|
        ensures
          && Spells(Sum7(b[..k]), b[..k]) && CrossedBits(Sum7(b[..k]), vs[0], prev)
          && XorsWritten(vs[1..], vs[0], b[k..])
          <==> b[..k] == Uvarint(n) && b[k..] == tail
      {
        GroupOf(n, b[..k]);
        CrossedExactly(Sum7(b[..k]), vs[0], prev);
        XorsWrittenExactly(vs[1..], vs[0], b[k..]);
      }
      CutOnce(Uvarint(n), tail, b);
    }
  }

  // ---------------------------------------------------------------- a known number of elements

  // One word of the reader.
  lemma WordsStep(n: nat, b: bytes, word: int)
    requires n > 0
    ensures ReadUvarint(b).Fail? ==> S.ReadWords(n, b, word) == Fail
    ensures ReadUvarint(b).Ok? ==>
      var next := S.Word(false, word + ReadUvarint(b).val);
      var more := S.ReadWords(n - 1, ReadUvarint(b).rest, next);
      S.ReadWords(n, b, word) == if more.Fail? then Fail else Ok([next] + more.val, more.rest)
  {
    hide ReadUvarint;
  }

  lemma NextWord(word: int, sum: int, n: nat, x: int)
    requires SameWord(word, sum)
    ensures x == S.Word(false, word + n) <==> ElementRange(false, 64, x) && Congruent(64, x, sum + Step(false, n))
    ensures SameWord(S.Word(false, word + n), sum + Step(false, n))
  {
    SameWordPlus(word, sum, n);
    NarrowExactly(false, 64, word + n, sum + n, x);
    WordOfSum(false, word, sum, n);
  }

  /** A stream of a known number of differences is read up to its end, whatever follows. */
  lemma {:induction false} WordsReadExactly(xs: seq<int>, word: int, sum: int, b: bytes, rest: bytes)
    requires SameWord(word, sum)
    ensures DeltasRead(false, 64, xs, sum, b) <==> S.ReadWords(|xs|, b + rest, word) == Ok(xs, rest)
    decreases |xs|
  {
    if xs == [] {
      NothingRead(b, rest);
    } else {
      hide *;
      if DeltasRead(false, 64, xs, sum, b) {
        WordsReadOn(xs, word, sum, b, rest);
      }
      if S.ReadWords(|xs|, b + rest, word) == Ok(xs, rest) {
        WordsReadBack(xs, word, sum, b, rest);
      }
    }
  }

  lemma {:induction false} WordsReadOn(xs: seq<int>, word: int, sum: int, b: bytes, rest: bytes)
    requires SameWord(word, sum) && xs != [] && DeltasRead(false, 64, xs, sum, b)
    ensures S.ReadWords(|xs|, b + rest, word) == Ok(xs, rest)
    decreases |xs|, 0
  {
    hide *;
    var k := DeltaSplit(false, 64, xs, sum, b);
    var n := Sum7(b[..k]);
    Front(b, rest, k);
    CountsExactly(n, b[..k], b[k..] + rest);
    WordsStep(|xs|, b + rest, word);
    NextWord(word, sum, n, xs[0]);
    WordsReadExactly(xs[1..], S.Word(false, word + n), sum + Step(false, n), b[k..], rest);
    assert [xs[0]] + xs[1..] == xs;
  }

  lemma {:induction false} WordsReadBack(xs: seq<int>, word: int, sum: int, b: bytes, rest: bytes)
    requires SameWord(word, sum) && xs != [] && S.ReadWords(|xs|, b + rest, word) == Ok(xs, rest)
    ensures DeltasRead(false, 64, xs, sum, b)
    decreases |xs|, 0
  {
    hide *;
    WordsStep(|xs|, b + rest, word);
    var u := ReadUvarint(b + rest);
    var next := S.Word(false, word + u.val);
    var more := S.ReadWords(|xs| - 1, u.rest, next);
    ReadUvarintShape(b + rest);
    S.ReadWordsShape(|xs| - 1, u.rest, next);
    var k := Middle(b, rest, u.rest);
    CountsExactly(u.val, b[..k], u.rest);
    SumOf(u.val, b[..k]);
    Head(next, more.val, xs);
    NextWord(word, sum, u.val, xs[0]);
    WordsReadExactly(xs[1..], next, sum + Step(false, u.val), b[k..], rest);
    DeltaJoin(false, 64, xs, sum, b, k);
  }

  /** Bit `31 - i` of a pattern is the parity of bit `i` in all the words up to it. */
  predicate UncrossedBits(v: int, ns: seq<nat>) {
    0 <= v < 0x1_0000_0000 && forall i :: 0 <= i < 32 ==> BitOf(v, 31 - i) == Parity(ns, i)
  }

  predicate XorsRead(vs: seq<int>, ns: seq<nat>, b: bytes)
    decreases |vs|
  {
    if vs == [] then b == []
    else
      exists k | 0 <= k <= |b| ::
        && Counts(Sum7(b[..k]), b[..k]) && UncrossedBits(vs[0], ns + [Sum7(b[..k])])
        && XorsRead(vs[1..], ns + [Sum7(b[..k])], b[k..])
  }

  /** The running word has the parities of the words so far. */
  predicate Runs(word: nat, ns: seq<nat>) {
    forall i :: 0 <= i < 32 ==> BitOf(word, i) == Parity(ns, i)
  }

  lemma RunsOn(word: nat, ns: seq<nat>, n: nat)
    requires Runs(word, ns)
    ensures Runs(Xor(word, n), ns + [n])
  {
    hide Xor, BitOf;
    var more := ns + [n];
    assert more[..|more| - 1] == ns;
    forall i | 0 <= i < 32
      ensures BitOf(Xor(word, n), i) == Parity(more, i)
    {
      XorBits(word, n, i);
    }
  }

  lemma UncrossedExactly(v: int, word: nat, ns: seq<nat>)
    requires Runs(word, ns)
    ensures UncrossedBits(v, ns) <==> v == T.Flipped(word)
  {
    hide Xor, BitOf, Pow2, Reverse;
    T.PowerOf32();
    var low := word % T.TWO32;
    assert T.Flipped(word) == Reverse(low, 32);
    ReverseBound(low, 32);
    forall i | 0 <= i < 32
      ensures BitOf(T.Flipped(word), 31 - i) == BitOf(word, i)
    {
      ReverseBits(low, 32, 31 - i);
      LowBits(word, 32, i);
    }
    if UncrossedBits(v, ns) {
      forall i | 0 <= i < 32
        ensures BitOf(v, i) == BitOf(T.Flipped(word), i)
      {
        assert BitOf(v, 31 - (31 - i)) == BitOf(word, 31 - i);
      }
      SameBits(v, T.Flipped(word), 32);
    }
  }

  // One pattern of the reader.
  lemma XorsStep(n: nat, b: bytes, word: nat)
    requires n > 0
    ensures ReadUvarint(b).Fail? ==> T.ReadXors(n, b, word) == Fail
    ensures ReadUvarint(b).Ok? ==>
      var next := Xor(word, ReadUvarint(b).val);
      var more := T.ReadXors(n - 1, ReadUvarint(b).rest, next);
      T.ReadXors(n, b, word) == if more.Fail? then Fail else Ok([T.Flipped(next)] + more.val, more.rest)
  {
    hide ReadUvarint, Xor, T.Flipped;
  }

  /** A stream of a known number of patterns is read up to its end, whatever follows. */
  lemma {:induction false} XorsReadExactly(vs: seq<int>, word: nat, ns: seq<nat>, b: bytes, rest: bytes)
    requires Runs(word, ns)
    ensures XorsRead(vs, ns, b) <==> T.ReadXors(|vs|, b + rest, word) == Ok(vs, rest)
    decreases |vs|
  {
    if vs == [] {
      NothingRead(b, rest);
    } else {
      hide *;
      if XorsRead(vs, ns, b) {
        XorsReadOn(vs, word, ns, b, rest);
      }
      if T.ReadXors(|vs|, b + rest, word) == Ok(vs, rest) {
        XorsReadBack(vs, word, ns, b, rest);
      }
    }
  }

  // One pattern of the grammar.
  lemma XorSplit(vs: seq<int>, ns: seq<nat>, b: bytes) returns (k: nat)
    requires vs != [] && XorsRead(vs, ns, b)
    ensures k <= |b| && Counts(Sum7(b[..k]), b[..k]) && UncrossedBits(vs[0], ns + [Sum7(b[..k])])
    ensures XorsRead(vs[1..], ns + [Sum7(b[..k])], b[k..])
  {
    hide Counts, UncrossedBits, Sum7;
    k :| k <= |b| && Counts(Sum7(b[..k]), b[..k]) && UncrossedBits(vs[0], ns + [Sum7(b[..k])]) &&
      XorsRead(vs[1..], ns + [Sum7(b[..k])], b[k..]);
  }

  lemma XorJoin(vs: seq<int>, ns: seq<nat>, b: bytes, k: nat)
    requires vs != [] && k <= |b| && Counts(Sum7(b[..k]), b[..k]) && UncrossedBits(vs[0], ns + [Sum7(b[..k])])
    requires XorsRead(vs[1..], ns + [Sum7(b[..k])], b[k..])
    ensures XorsRead(vs, ns, b)
  {
    hide Counts, UncrossedBits, Sum7;
  }

  lemma {:induction false} XorsReadOn(vs: seq<int>, word: nat, ns: seq<nat>, b: bytes, rest: bytes)
    requires Runs(word, ns) && vs != [] && XorsRead(vs, ns, b)
    ensures T.ReadXors(|vs|, b + rest, word) == Ok(vs, rest)
    decreases |vs|, 0
  {
    hide *;
    var k := XorSplit(vs, ns, b);
    var n := Sum7(b[..k]);
    Front(b, rest, k);
    CountsExactly(n, b[..k], b[k..] + rest);
    XorsStep(|vs|, b + rest, word);
    RunsOn(word, ns, n);
    UncrossedExactly(vs[0], Xor(word, n), ns + [n]);
    XorsReadExactly(vs[1..], Xor(word, n), ns + [n], b[k..], rest);
    assert [vs[0]] + vs[1..] == vs;
  }

  lemma {:induction false} XorsReadBack(vs: seq<int>, word: nat, ns: seq<nat>, b: bytes, rest: bytes)
    requires Runs(word, ns) && vs != [] && T.ReadXors(|vs|, b + rest, word) == Ok(vs, rest)
    ensures XorsRead(vs, ns, b)
    decreases |vs|, 0
  {
    hide *;
    XorsStep(|vs|, b + rest, word);
    var u := ReadUvarint(b + rest);
    var next := Xor(word, u.val);
    var more := T.ReadXors(|vs| - 1, u.rest, next);
    ReadUvarintShape(b + rest);
    T.ReadXorsShape(|vs| - 1, u.rest, next);
    var k := Middle(b, rest, u.rest);
    CountsExactly(u.val, b[..k], u.rest);
    SumOf(u.val, b[..k]);
    Head(T.Flipped(next), more.val, vs);
    RunsOn(word, ns, u.val);
    UncrossedExactly(vs[0], next, ns + [u.val]);
    XorsReadExactly(vs[1..], next, ns + [u.val], b[k..], rest);
    XorJoin(vs, ns, b, k);
  }

  // ---------------------------------------------------------------- the messages written

  lemma BlobParts(x: bytes, b: bytes)
    ensures b == Blob(x) <==> exists k | 0 <= k <= |b| :: Spells(|b| - k, b[..k]) && b[k..] == x
  {
    hide Spells, Blob;
    TextsExactly(x, b);
    if Texts(x, b) {
      var k := |b| - |x|;
      assert Spells(|b| - k, b[..k]) && b[k..] == x;
    }
    if k :| 0 <= k <= |b| && Spells(|b| - k, b[..k]) && b[k..] == x {
      assert |b| - |x| == k;
    }
  }

  /** A sorted slice is the size of its differences and the differences; how many there are is not said. */
  lemma SortedMessage(signed: bool, xs: seq<int>, b: bytes)
    ensures b == S.EncSorted(signed, xs) <==>
      exists k | 0 <= k <= |b| :: Spells(|b| - k, b[..k]) && DeltasWritten(signed, xs, 0, b[k..])
  {
    hide Spells, Blob, DeltasWritten, S.Deltas;
    BlobParts(S.Deltas(signed, xs, 0), b);
    forall k | 0 <= k <= |b|
      ensures DeltasWritten(signed, xs, 0, b[k..]) <==> b[k..] == S.Deltas(signed, xs, 0)
    {
      DeltasWrittenExactly(signed, xs, 0, b[k..]);
    }
  }

  /** Where a count, a size and a body of that size lie. */
  predicate CountedParts(n: nat, x: bytes, b: bytes, k: nat, j: nat) {
    k <= j <= |b| && Spells(n, b[..k]) && Spells(|b| - j, b[k..j]) && b[j..] == x
  }

  lemma CountedBlob(n: nat, x: bytes, b: bytes)
    ensures b == Uvarint(n) + Blob(x) <==> exists k, j :: CountedParts(n, x, b, k, j)
  {
    hide *;
    if b == Uvarint(n) + Blob(x) {
      var k, j := CountedJoin(n, x, b);
    }
    if k, j :| CountedParts(n, x, b, k, j) {
      CountedCut(n, x, b, k, j);
    }
  }

  lemma BlobAt(x: bytes, b: bytes) returns (k: nat)
    requires b == Blob(x)
    ensures k <= |b| && Spells(|b| - k, b[..k]) && b[k..] == x
  {
    hide *;
    BlobParts(x, b);
    k :| k <= |b| && Spells(|b| - k, b[..k]) && b[k..] == x;
  }

  lemma CountedJoin(n: nat, x: bytes, b: bytes) returns (k: nat, j: nat)
    requires b == Uvarint(n) + Blob(x)
    ensures CountedParts(n, x, b, k, j)
  {
    hide Spells, Blob, Uvarint;
    k := |Uvarint(n)|;
    var tail := b[k..];
    assert b[..k] == Uvarint(n) && tail == Blob(x);
    SpellsExactly(n, b[..k]);
    var i := BlobAt(x, tail);
    j := k + i;
    assert tail[..i] == b[k..j] && tail[i..] == b[j..];
  }

  lemma CountedCut(n: nat, x: bytes, b: bytes, k: nat, j: nat)
    requires CountedParts(n, x, b, k, j)
    ensures b == Uvarint(n) + Blob(x)
  {
    hide Spells, Blob, Uvarint;
    SpellsExactly(n, b[..k]);
    var i, tail := j - k, b[k..];
    assert tail[..i] == b[k..j] && tail[i..] == b[j..];
    assert Spells(|tail| - i, tail[..i]) && tail[i..] == x;
    BlobParts(x, tail);
    assert b == b[..k] + tail;
  }

  /** Timestamps are their number, the size of their differences and the differences. */
  lemma StampsMessage(xs: seq<int>, b: bytes)
    ensures b == S.EncStamps(xs) <==>
      exists k, j | 0 <= k <= j <= |b| ::
        Spells(|xs|, b[..k]) && Spells(|b| - j, b[k..j]) && DeltasWritten(false, xs, 0, b[j..])
  {
    hide Spells, Blob, Uvarint, DeltasWritten, S.Deltas;
    CountedBlob(|xs|, S.Deltas(false, xs, 0), b);
    forall k: nat, j: nat | k <= j <= |b|
      ensures DeltasWritten(false, xs, 0, b[j..]) <==> b[j..] == S.Deltas(false, xs, 0)
      ensures Spells(|xs|, b[..k]) && Spells(|b| - j, b[k..j]) && DeltasWritten(false, xs, 0, b[j..]) ==>
        CountedParts(|xs|, S.Deltas(false, xs, 0), b, k, j)
    {
      DeltasWrittenExactly(false, xs, 0, b[j..]);
    }
  }

  /** Patterns of a time series, or counters as differences. */
  predicate ValuesWritten(k: T.Kind, vs: seq<int>, b: bytes) {
    if k.Floats? then XorsWritten(vs, 0, b) else DeltasWritten(false, vs, 0, b)
  }

  lemma ValuesWrittenExactly(k: T.Kind, vs: seq<int>, b: bytes)
    requires forall i :: 0 <= i < |vs| ==> T.ValueFits(k, vs[i])
    ensures ValuesWritten(k, vs, b) <==> b == T.Values(k, vs)
  {
    if k.Floats? {
      ZeroFlipped();
      XorsWrittenExactly(vs, 0, b);
    } else {
      DeltasWrittenExactly(false, vs, 0, b);
    }
  }

  lemma ZeroFlipped()
    ensures T.Flipped(0) == 0
  {
    hide T.Flipped, BitOf, Pow2;
    T.PowerOf32();
    T.FlippedTwice(0);
    forall i | 0 <= i < 32
      ensures BitOf(T.Flipped(0), i) == BitOf(0, i)
    {
      FlippedBit(0, i);
      NoBits(i);
      NoBits(31 - i);
    }
    SameBits(T.Flipped(0), 0, 32);
  }

  /** Where the parts of a series lie: the count, the size, the times and the values. */
  predicate SeriesParts(
    kind: T.Kind, times: seq<int>, values: seq<int>, b: bytes, k: nat, j: nat, i: nat) {
    && k <= j <= i <= |b|
    && Spells(|times|, b[..k]) && Spells(|b| - j, b[k..j])
    && DeltasWritten(false, times, 0, b[j..i]) && ValuesWritten(kind, values, b[i..])
  }

  /** A series is its length, the size of both streams, the differences of its times and then its values. */
  lemma SeriesMessage(kind: T.Kind, times: seq<int>, values: seq<int>, b: bytes)
    requires forall i :: 0 <= i < |values| ==> T.ValueFits(kind, values[i])
    ensures b == T.EncSeries(kind, times, values) <==> exists k, j, i :: SeriesParts(kind, times, values, b, k, j, i)
  {
    hide Spells, Blob, Uvarint, DeltasWritten, ValuesWritten, SeriesParts, S.Deltas, T.Values, T.ValueFits;
    var x, y := S.Deltas(false, times, 0), T.Values(kind, values);
    CountedBlob(|times|, x + y, b);
    if k, j :| CountedParts(|times|, x + y, b, k, j) {
      SeriesJoin(kind, times, values, b, k, j);
    }
    if k, j, i :| SeriesParts(kind, times, values, b, k, j, i) {
      SeriesCut(kind, times, values, b, k, j, i);
    }
  }

  lemma SeriesJoin(kind: T.Kind, times: seq<int>, values: seq<int>, b: bytes, k: nat, j: nat)
    requires forall i :: 0 <= i < |values| ==> T.ValueFits(kind, values[i])
    requires k <= j <= |b| && Spells(|times|, b[..k]) && Spells(|b| - j, b[k..j])
    requires b[j..] == S.Deltas(false, times, 0) + T.Values(kind, values)
    ensures SeriesParts(kind, times, values, b, k, j, j + |S.Deltas(false, times, 0)|)
  {
    hide Spells, DeltasWritten, ValuesWritten, S.Deltas, T.Values, T.ValueFits;
    var x, y := S.Deltas(false, times, 0), T.Values(kind, values);
    var i := j + |x|;
    assert |b[j..]| == |x| + |y|;
    assert b[j..i] == b[j..][..|x|] == x && b[i..] == b[j..][|x|..] == y;
    DeltasWrittenExactly(false, times, 0, b[j..i]);
    ValuesWrittenExactly(kind, values, b[i..]);
  }

  lemma SeriesCut(kind: T.Kind, times: seq<int>, values: seq<int>, b: bytes, k: nat, j: nat, i: nat)
    requires forall i :: 0 <= i < |values| ==> T.ValueFits(kind, values[i])
    requires SeriesParts(kind, times, values, b, k, j, i)
    ensures CountedParts(|times|, S.Deltas(false, times, 0) + T.Values(kind, values), b, k, j)
  {
    hide Spells, DeltasWritten, ValuesWritten, S.Deltas, T.Values, T.ValueFits;
    DeltasWrittenExactly(false, times, 0, b[j..i]);
    ValuesWrittenExactly(kind, values, b[i..]);
    assert b[j..] == b[j..i] + b[i..];
  }

  // ---------------------------------------------------------------- the messages read

  /** A sorted slice is read from exactly the blobs that are streams of differences to their end. */
  lemma SortedReads(signed: bool, bits: nat, xs: seq<int>, b: bytes, rest: bytes)
    requires IsIntWidth(bits)
    ensures S.DecSorted(false, signed, bits, b + rest) == Ok(xs, rest) <==>
      exists k | 0 <= k <= |b| :: TextReads(b[k..], b) && DeltasRead(signed, bits, xs, 0, b[k..])
  {
    hide TextReads, DeltasRead, S.ReadDeltas, ReadUvarint;
    var d := ReadBlob(b + rest);
    assert S.DecSorted(false, signed, bits, b + rest) ==
      if d.Fail? || S.ReadDeltas(signed, bits, d.val, 0).Fail? then Fail
      else Ok(S.ReadDeltas(signed, bits, d.val, 0).val, d.rest);
    hide ReadBlob, S.DecSorted;
    if k :| 0 <= k <= |b| && TextReads(b[k..], b) && DeltasRead(signed, bits, xs, 0, b[k..]) {
      TextReadsExactly(b[k..], b, rest);
      DeltasReadExactly(signed, bits, xs, 0, 0, b[k..]);
    }
    if d.Ok? && S.DecSorted(false, signed, bits, b + rest) == Ok(xs, rest) {
      TextReadsExactly(d.val, b, rest);
      var k := TextAt(d.val, b);
      AllRead(signed, bits, d.val, 0);
      DeltasReadExactly(signed, bits, xs, 0, 0, d.val);
    }
  }

  lemma TextAt(s: bytes, b: bytes) returns (k: nat)
    requires TextReads(s, b)
    ensures k <= |b| && b[k..] == s
  {
    hide Counts;
    k := |b| - |s|;
  }

  // The reader of differences stops at the end of its bytes.
  lemma {:induction false} AllRead(signed: bool, bits: nat, b: bytes, word: int)
    requires S.ReadDeltas(signed, bits, b, word).Ok?
    ensures S.ReadDeltas(signed, bits, b, word).rest == []
    decreases |b|
  {
    if b != [] {
      ReadStep(signed, bits, b, word);
      ReadUvarintShape(b);
      AllRead(signed, bits, ReadUvarint(b).rest, S.Word(signed, word + S.Decoded(signed, ReadUvarint(b).val)));
    }
  }

  /** Where a count, a body with its size and, at its front, a stream lie. */
  predicate CountedStream(n: nat, b: bytes, k: nat, j: nat) {
    k <= j <= |b| && Counts(n, b[..k]) && TextReads(b[j..], b[k..])
  }

  lemma CountedOn(n: nat, b: bytes, rest: bytes, k: nat, j: nat)
    requires CountedStream(n, b, k, j) && n <= MAX_INT
    ensures ReadLength(b + rest) == Ok(n, b[k..] + rest) && ReadBlob(b[k..] + rest) == Ok(b[j..], rest)
  {
    hide Counts, TextReads, ReadUvarint, ReadBlob;
    Front(b, rest, k);
    CountsExactly(n, b[..k], b[k..] + rest);
    TextReadsExactly(b[j..], b[k..], rest);
  }

  lemma CountedBack(n: nat, x: bytes, b: bytes, rest: bytes, b1: bytes) returns (k: nat, j: nat)
    requires ReadLength(b + rest) == Ok(n, b1) && ReadBlob(b1) == Ok(x, rest)
    ensures CountedStream(n, b, k, j) && b[j..] == x
  {
    assert ReadUvarint(b + rest) == Ok(n, b1);
    hide *;
    ReadUvarintShape(b + rest);
    BlobShape(b1);
    k := Middle(b, rest, b1);
    CountsExactly(n, b[..k], b1);
    TextReadsExactly(x, b[k..], rest);
    var i := TextAt(x, b[k..]);
    j := k + i;
    assert b[k..][i..] == b[j..];
    CountedIs(n, b, k, j);
  }

  lemma CountedIs(n: nat, b: bytes, k: nat, j: nat)
    requires k <= j <= |b| && Counts(n, b[..k]) && TextReads(b[j..], b[k..])
    ensures CountedStream(n, b, k, j)
  {
  }

  lemma StampSteps(b: bytes)
    ensures var n := ReadLength(b);
      S.DecStamps(false, b) ==
        if n.Fail? then Fail
        else
          var d := ReadBlob(n.rest);
          if d.Fail? || n.val > |d.val| || S.ReadWords(n.val, d.val, 0).Fail? then Fail
          else Ok(S.ReadWords(n.val, d.val, 0).val, d.rest)
  {
    hide S.ReadWords, ReadUvarint;
  }

  // A stream at the front of a body.
  lemma WordsFront(xs: seq<int>, b: bytes)
    ensures (exists i | 0 <= i <= |b| :: DeltasRead(false, 64, xs, 0, b[..i])) <==>
      S.ReadWords(|xs|, b, 0).Ok? && S.ReadWords(|xs|, b, 0).val == xs
  {
    hide DeltasRead, S.ReadWords;
    if i :| 0 <= i <= |b| && DeltasRead(false, 64, xs, 0, b[..i]) {
      WordsReadExactly(xs, 0, 0, b[..i], b[i..]);
      assert b == b[..i] + b[i..];
    }
    var d := S.ReadWords(|xs|, b, 0);
    if d.Ok? && d.val == xs {
      S.ReadWordsShape(|xs|, b, 0);
      SuffixCut(b, d.rest);
      WordsReadExactly(xs, 0, 0, b[..|b| - |d.rest|], d.rest);
    }
  }

  /** A count, a size and a body that starts with that many differences. */
  predicate StampsParts(xs: seq<int>, b: bytes, k: nat, j: nat, i: nat) {
    CountedStream(|xs|, b, k, j) && i <= |b[j..]| && DeltasRead(false, 64, xs, 0, b[j..][..i])
  }

  /** Timestamps are read from exactly such messages, each as the sums of its differences. */
  lemma StampsReads(xs: seq<int>, b: bytes, rest: bytes)
    ensures S.DecStamps(false, b + rest) == Ok(xs, rest) <==> exists k, j, i :: StampsParts(xs, b, k, j, i)
  {
    StampSteps(b + rest);
    hide *;
    if k, j, i :| StampsParts(xs, b, k, j, i) {
      StampsCut(xs, b, k, j, i);
      CountedOn(|xs|, b, rest, k, j);
    }
    if S.DecStamps(false, b + rest) == Ok(xs, rest) {
      var n := ReadLength(b + rest);
      var d := ReadBlob(n.rest);
      S.ReadWordsShape(n.val, d.val, 0);
      var k, j := CountedBack(n.val, d.val, b, rest, n.rest);
      StampsJoin(xs, b, k, j);
    }
  }

  lemma StampsCut(xs: seq<int>, b: bytes, k: nat, j: nat, i: nat)
    requires StampsParts(xs, b, k, j, i)
    ensures CountedStream(|xs|, b, k, j) && |xs| <= |b[j..]| && |xs| <= MAX_INT
    ensures S.ReadWords(|xs|, b[j..], 0).Ok? && S.ReadWords(|xs|, b[j..], 0).val == xs
  {
    hide DeltasRead, S.ReadWords, Counts;
    WordsFront(xs, b[j..]);
    S.ReadWordsShape(|xs|, b[j..], 0);
  }

  lemma StampsJoin(xs: seq<int>, b: bytes, k: nat, j: nat)
    requires CountedStream(|xs|, b, k, j)
    requires S.ReadWords(|xs|, b[j..], 0).Ok? && S.ReadWords(|xs|, b[j..], 0).val == xs
    ensures exists i :: StampsParts(xs, b, k, j, i)
  {
    hide DeltasRead, S.ReadWords, Counts, TextReads;
    WordsFront(xs, b[j..]);
    var i :| 0 <= i <= |b[j..]| && DeltasRead(false, 64, xs, 0, b[j..][..i]);
    assert StampsParts(xs, b, k, j, i);
  }

  // ---------------------------------------------------------------- series read

  predicate ValuesRead(k: T.Kind, vs: seq<int>, b: bytes) {
    if k.Floats? then XorsRead(vs, [], b) else DeltasRead(false, 64, vs, 0, b)
  }

  lemma ValuesReadExactly(k: T.Kind, vs: seq<int>, b: bytes, rest: bytes)
    ensures ValuesRead(k, vs, b) <==> T.ReadValues(k, |vs|, b + rest) == Ok(vs, rest)
  {
    hide XorsRead, DeltasRead, T.ReadXors, S.ReadWords;
    if k.Floats? {
      NothingRuns();
      XorsReadExactly(vs, 0, [], b, rest);
    } else {
      WordsReadExactly(vs, 0, 0, b, rest);
    }
  }

  lemma NothingRuns()
    ensures Runs(0, [])
  {
    hide BitOf;
    forall i | 0 <= i < 32
      ensures BitOf(0, i) == 0
    {
      NoBits(i);
    }
  }

  /** A count, a size and a body that starts with the times, with the values right behind them. */
  predicate SeriesStreams(
    kind: T.Kind, times: seq<int>, values: seq<int>, b: bytes, k: nat, j: nat, i: nat, h: nat) {
    && CountedStream(|times|, b, k, j) && |values| == |times| && i <= h <= |b[j..]|
    && DeltasRead(false, 64, times, 0, b[j..][..i]) && ValuesRead(kind, values, b[j..][i..h])
  }

  /** A series is read from exactly such messages. */
  lemma SeriesReads(kind: T.Kind, times: seq<int>, values: seq<int>, b: bytes, rest: bytes)
    ensures T.DecSeries(false, kind, b + rest) == Ok((times, values), rest) <==>
      exists k, j, i, h :: SeriesStreams(kind, times, values, b, k, j, i, h)
  {
    SeriesSteps(kind, b + rest);
    hide *;
    if k, j, i, h :| SeriesStreams(kind, times, values, b, k, j, i, h) {
      StreamsOn(kind, times, values, b, k, j, i, h);
      CountedOn(|times|, b, rest, k, j);
    }
    if T.DecSeries(false, kind, b + rest) == Ok((times, values), rest) {
      var n := ReadLength(b + rest);
      var d := ReadBlob(n.rest);
      var k, j := CountedBack(n.val, d.val, b, rest, n.rest);
      StreamsBack(kind, n.val, times, values, b, k, j);
    }
  }

  lemma SeriesSteps(kind: T.Kind, b: bytes)
    ensures var n := ReadLength(b);
      T.DecSeries(false, kind, b) ==
        if n.Fail? then Fail
        else
          var d := ReadBlob(n.rest);
          if d.Fail? || n.val > |d.val| / 2 || T.ReadStreams(kind, n.val, d.val).Fail? then Fail
          else Ok(T.ReadStreams(kind, n.val, d.val).val, d.rest)
  {
    hide T.ReadStreams, ReadUvarint;
  }

  lemma ValuesShape(kind: T.Kind, n: nat, b: bytes)
    requires T.ReadValues(kind, n, b).Ok?
    ensures var r := T.ReadValues(kind, n, b); |r.val| == n && IsSuffix(r.rest, b) && n <= |b| - |r.rest|
  {
    hide T.ReadXors, S.ReadWords;
    if kind.Floats? {
      T.ReadXorsShape(n, b, 0);
    } else {
      S.ReadWordsShape(n, b, 0);
    }
  }

  lemma StreamsOn(
    kind: T.Kind, times: seq<int>, values: seq<int>, b: bytes, k: nat, j: nat, i: nat, h: nat)
    requires SeriesStreams(kind, times, values, b, k, j, i, h)
    ensures CountedStream(|times|, b, k, j) && |times| <= |b[j..]| / 2 && |times| <= MAX_INT
    ensures T.ReadStreams(kind, |times|, b[j..]).Ok?
    ensures T.ReadStreams(kind, |times|, b[j..]).val == (times, values)
  {
    hide DeltasRead, ValuesRead, S.ReadWords, T.ReadValues, Counts;
    var body := b[j..];
    WordsReadExactly(times, 0, 0, body[..i], body[i..]);
    ValuesReadExactly(kind, values, body[i..h], body[h..]);
    assert body[..i] + body[i..] == body && body[i..h] + body[h..] == body[i..];
    S.ReadWordsShape(|times|, body, 0);
    ValuesShape(kind, |times|, body[i..]);
  }

  lemma StreamsBack(kind: T.Kind, n: nat, times: seq<int>, values: seq<int>, b: bytes, k: nat, j: nat)
    requires CountedStream(n, b, k, j)
    requires T.ReadStreams(kind, n, b[j..]).Ok? && T.ReadStreams(kind, n, b[j..]).val == (times, values)
    ensures exists k, j, i, h :: SeriesStreams(kind, times, values, b, k, j, i, h)
  {
    var body := b[j..];
    var t := S.ReadWords(n, body, 0);
    var v := T.ReadValues(kind, n, t.rest);
    hide *;
    S.ReadWordsShape(n, body, 0);
    ValuesShape(kind, n, t.rest);
    SuffixCut(body, t.rest);
    SuffixCut(t.rest, v.rest);
    var i, h := InnerCut(body, t.rest, v.rest);
    WordsReadExactly(times, 0, 0, body[..i], t.rest) by { Same(0); }
    ValuesReadExactly(kind, values, body[i..h], v.rest);
    StreamsJoin(kind, times, values, b, k, j, i, h);
  }

  lemma Same(x: int)
    ensures SameWord(x, x)
  {
  }

  // The part of a body between two of its suffixes.
  lemma InnerCut(body: bytes, r: bytes, v: bytes) returns (i: nat, h: nat)
    requires IsSuffix(r, body) && IsSuffix(v, r)
    ensures i <= h <= |body| && body[..i] + r == body && body[i..h] + v == r
  {
    i, h := |body| - |r|, |body| - |v|;
    assert body[i..] == r && r[|r| - |v|..] == v;
    assert body[i..h] == r[..|r| - |v|];
  }

  lemma StreamsJoin(
    kind: T.Kind, times: seq<int>, values: seq<int>, b: bytes, k: nat, j: nat, i: nat, h: nat)
    requires CountedStream(|times|, b, k, j) && |values| == |times| && i <= h <= |b[j..]|
    requires DeltasRead(false, 64, times, 0, b[j..][..i]) && ValuesRead(kind, values, b[j..][i..h])
    ensures SeriesStreams(kind, times, values, b, k, j, i, h)
  {
    hide CountedStream, DeltasRead, ValuesRead;
  }
}
