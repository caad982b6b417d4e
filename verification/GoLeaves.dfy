/** The leaves of the messages in `GoFormat`: groups, fixed-width words, texts, primitives and primitive map keys. */
module GoLeaves {
  import opened Wire
  import opened Varint
  import opened Codec
  import opened RoundTrip
  import opened Analysis
  import opened Scanner
  import opened GoFormat

  // ---------------------------------------------------------------- cutting the input

  /** Where a first read stopped, before `rest`. */
  lemma Middle(b: bytes, rest: bytes, mid: bytes) returns (k: nat)
    requires IsSuffix(mid, b + rest) && IsSuffix(rest, mid)
    ensures k <= |b| && mid == b[k..] + rest && b + rest == b[..k] + mid
  {
    k := |b| + |rest| - |mid|;
    var all := b + rest;
    assert all[k..] == mid && mid[|mid| - |rest|..] == rest;
    assert all[k..] == b[k..] + rest;
  }

  lemma Front(b: bytes, rest: bytes, k: nat)
    requires k <= |b|
    ensures b + rest == b[..k] + (b[k..] + rest)
  {
  }

  lemma NothingRead(b: bytes, rest: bytes)
    ensures b == [] <==> b + rest == rest
  {
    assert |b + rest| == |b| + |rest|;
  }

  lemma Head<T>(x: T, xs: seq<T>, ys: seq<T>)
    requires [x] + xs == ys
    ensures ys != [] && ys[0] == x && ys[1..] == xs
  {
  }

  // ---------------------------------------------------------------- groups and words

  /** The encoder writes the shortest group and no other. */
  lemma {:induction false} SpellsExactly(n: nat, g: bytes)
    ensures Spells(n, g) <==> g == Uvarint(n)
    decreases |g|
  {
    UvarintShape(n);
    LastDigit(n);
    if Spells(n, g) && |g| > 1 {
      FirstDigit(n, g);
      SpellsExactly(Sum7(g[1..]), g[1..]);
      assert g == [g[0]] + g[1..];
    } else if Spells(n, g) {
      assert Sum7(g[1..]) == 0;
    }
  }

  lemma FirstDigit(n: nat, g: bytes)
    requires Spells(n, g) && |g| > 1
    ensures Spells(Sum7(g[1..]), g[1..]) && n >= 128 && n / 128 == Sum7(g[1..]) && g[0] == n % 128 + 128
  {
    var tail := g[1..];
    assert tail[|tail| - 1] == g[|g| - 1];
    assert g[0] >= 128 && n == g[0] - 128 + 128 * Sum7(tail);
    NotZero(tail);
  }

  lemma {:induction false} LastDigit(n: nat)
    ensures var g := Uvarint(n); |g| == 1 || g[|g| - 1] != 0
  {
    if n >= 128 {
      LastDigit(n / 128);
    }
  }

  lemma {:induction false} NotZero(g: bytes)
    requires Terminated(g) && g[|g| - 1] != 0
    ensures Sum7(g) > 0
  {
    if |g| > 1 {
      assert g[1..][|g| - 2] == g[|g| - 1];
      NotZero(g[1..]);
    }
  }

  lemma CountsExactly(n: nat, g: bytes, rest: bytes)
    ensures Counts(n, g) <==> ReadUvarint(g + rest) == Ok(n, rest)
  {
    if Counts(n, g) {
      GroupAccepted(g, rest, 10);
    }
    if ReadUvarint(g + rest) == Ok(n, rest) {
      GroupShape(g + rest, 10);
      assert Consumed(g + rest, rest) == g;
    }
  }

  lemma FixedExactly(n: nat, w: nat, b: bytes)
    ensures Fixed(n, w, b) <==> b == LE(n, w)
  {
    forall j | 0 <= j < w
      ensures LE(n, w)[j] == (n / Pow256(j)) % 256
    {
      LEDigit(n, w, j);
    }
  }

  lemma FixedReads(n: nat, w: nat, b: bytes)
    ensures n < Pow256(w) && Fixed(n, w, b) <==> |b| == w && FromLE(b) == n
  {
    FixedExactly(n, w, b);
    if |b| == w {
      FromLEBound(b);
      LEOfFromLE(b);
    }
    if n < Pow256(w) {
      LERoundTrip(n, w);
    }
  }

  // ---------------------------------------------------------------- texts

  lemma TextsExactly(s: bytes, b: bytes)
    ensures Texts(s, b) <==> b == Blob(s)
  {
    if |s| <= |b| {
      SpellsExactly(|s|, b[..|b| - |s|]);
      assert b == b[..|b| - |s|] + b[|b| - |s|..];
    }
  }

  lemma TextReadsExactly(s: bytes, b: bytes, rest: bytes)
    ensures TextReads(s, b) <==> ReadBlob(b + rest) == Ok(s, rest)
  {
    hide *;
    if TextReads(s, b) {
      TextReadOn(s, b, rest);
    }
    if ReadBlob(b + rest) == Ok(s, rest) {
      TextReadBack(s, b, rest);
    }
  }

  lemma TextReadOn(s: bytes, b: bytes, rest: bytes)
    requires TextReads(s, b)
    ensures ReadBlob(b + rest) == Ok(s, rest)
  {
    hide Counts, ReadUvarint;
    var g := b[..|b| - |s|];
    CountsExactly(|s|, g, s + rest);
    assert b + rest == g + (s + rest);
    TakePrefix(s, rest);
  }

  lemma TextReadBack(s: bytes, b: bytes, rest: bytes)
    requires ReadBlob(b + rest) == Ok(s, rest)
    ensures TextReads(s, b)
  {
    hide *;
    var u := ReadUvarint(b + rest);
    BlobHead(s, b + rest, rest);
    ReadUvarintShape(b + rest);
    var k := Middle(b, rest, u.rest);
    CutBoth(b[k..], s, rest);
    CountsExactly(|s|, b[..k], u.rest);
    TextIs(s, b, k);
  }

  lemma BlobHead(s: bytes, all: bytes, rest: bytes)
    requires ReadBlob(all) == Ok(s, rest)
    ensures ReadUvarint(all) == Ok(|s|, s + rest) && |s| <= MAX_INT && IsSuffix(rest, s + rest)
  {
    hide ReadUvarint;
  }

  lemma TextIs(s: bytes, b: bytes, k: nat)
    requires k <= |b| && b[k..] == s && Counts(|s|, b[..k]) && |s| <= MAX_INT
    ensures TextReads(s, b)
  {
    hide Counts;
    assert |b| - |s| == k;
  }

  lemma CutBoth(x: bytes, y: bytes, rest: bytes)
    requires x + rest == y + rest
    ensures x == y
  {
    assert |x| == |y|;
    assert x == (x + rest)[..|x|];
    assert y == (y + rest)[..|y|];
  }

  // ---------------------------------------------------------------- words

  lemma {:induction false} WordsExactly(ws: seq<nat>, width: nat, b: bytes)
    ensures WordsOf(ws, width, b) <==> b == EncWords(ws, width)
  {
    if ws != [] && width <= |b| {
      FixedExactly(ws[0], width, b[..width]);
      WordsExactly(ws[1..], width, b[width..]);
      assert b == b[..width] + b[width..];
    }
  }

  /** Words of the kind's width are read one after the other. */
  lemma {:induction false} WordsReads(ws: seq<nat>, width: nat, parts: nat, b: bytes, rest: bytes)
    ensures |ws| == parts && Narrow(ws, width) && WordsOf(ws, width, b) <==>
      DecWords(b + rest, width, parts) == Ok(ws, rest)
    decreases parts, 1
  {
    WordsStep(b + rest, width, parts);
    WordsCut(ws, width);
    if parts == 0 {
      NothingRead(b, rest);
    } else {
      hide *;
      if |ws| == parts && Narrow(ws, width) && WordsOf(ws, width, b) {
        WordsReadOn(ws, width, b, rest);
      }
      if DecWords(b + rest, width, parts) == Ok(ws, rest) {
        WordsReadBack(ws, width, parts, b, rest);
      }
    }
  }

  lemma {:induction false} WordsReadOn(ws: seq<nat>, width: nat, b: bytes, rest: bytes)
    requires ws != [] && Narrow(ws, width) && WordsOf(ws, width, b)
    ensures DecWords(b + rest, width, |ws|) == Ok(ws, rest)
    decreases |ws|, 0
  {
    assert width <= |b| && Fixed(ws[0], width, b[..width]) && WordsOf(ws[1..], width, b[width..]);
    hide *;
    assert (b + rest)[..width] == b[..width] && (b + rest)[width..] == b[width..] + rest;
    WordsStep(b + rest, width, |ws|);
    WordsCut(ws, width);
    FixedReads(ws[0], width, b[..width]);
    WordsReads(ws[1..], width, |ws| - 1, b[width..], rest);
    assert ws == [ws[0]] + ws[1..];
  }

  lemma {:induction false} WordsReadBack(ws: seq<nat>, width: nat, parts: nat, b: bytes, rest: bytes)
    requires parts > 0 && DecWords(b + rest, width, parts) == Ok(ws, rest)
    ensures |ws| == parts && Narrow(ws, width) && WordsOf(ws, width, b)
    decreases parts, 0
  {
    hide *;
    WordsShape(b + rest, width, parts);
    assert |b| == width * parts && width * parts >= width;
    assert (b + rest)[..width] == b[..width] && (b + rest)[width..] == b[width..] + rest;
    WordsStep(b + rest, width, parts);
    var more := DecWords(b[width..] + rest, width, parts - 1);
    Head(FromLE(b[..width]), more.val, ws);
    WordsReads(ws[1..], width, parts - 1, b[width..], rest);
    FixedReads(ws[0], width, b[..width]);
    WordsCut(ws, width);
    WordsJoin(ws, width, b);
  }

  lemma WordsJoin(ws: seq<nat>, width: nat, b: bytes)
    requires ws != [] && width <= |b| && Fixed(ws[0], width, b[..width]) && WordsOf(ws[1..], width, b[width..])
    ensures WordsOf(ws, width, b)
  {
    hide Fixed;
  }

  /** Every word fits its width. */
  predicate Narrow(ws: seq<nat>, width: nat) {
    forall j :: 0 <= j < |ws| ==> ws[j] < Pow256(width)
  }

  lemma WordsStep(b: bytes, width: nat, parts: nat)
    ensures parts == 0 ==> DecWords(b, width, parts) == Ok([], b)
    ensures parts > 0 && |b| < width ==> DecWords(b, width, parts) == Fail
    ensures parts > 0 && |b| >= width ==>
      var more := DecWords(b[width..], width, parts - 1);
      DecWords(b, width, parts) == if more.Fail? then Fail else Ok([FromLE(b[..width])] + more.val, more.rest)
  {
    hide FromLE;
  }

  lemma WordsCut(ws: seq<nat>, width: nat)
    ensures ws == [] ==> Narrow(ws, width)
    ensures ws != [] ==> (Narrow(ws, width) <==> ws[0] < Pow256(width) && Narrow(ws[1..], width))
  {
    hide Pow256;
    if ws != [] && ws[0] < Pow256(width) && Narrow(ws[1..], width) {
      forall j | 0 <= j < |ws|
        ensures ws[j] < Pow256(width)
      {
        assert j > 0 ==> ws[j] == ws[1..][j - 1];
      }
    }
  }

  // ---------------------------------------------------------------- ranges

  lemma RangeExactly(bits: nat, v: int)
    requires IsIntWidth(bits)
    ensures SignedRange(bits, v) <==> InSigned(v, bits)
    ensures UnsignedRange(bits, v) <==> 0 <= v < Modulus(bits)
    ensures Pow256(bits / 8) == Modulus(bits)
  {
    Pow256OfBits(bits);
  }

  /** Narrowing to a signed type: the one number in its range with the same low bits. */
  lemma WrapExactly(bits: nat, x: int, v: int)
    requires IsIntWidth(bits)
    ensures WrapSigned(x, bits) == v <==> SignedRange(bits, v) && Congruent(bits, v, x)
  {
    if bits == 8 {
      OneInRange(x, 256, v);
    } else if bits == 16 {
      OneInRange(x, 0x1_0000, v);
    } else if bits == 32 {
      OneInRange(x, 0x1_0000_0000, v);
    } else {
      OneInRange(x, 0x1_0000_0000_0000_0000, v);
    }
  }

  lemma OneInRange(x: int, m: int, v: int)
    requires m > 0 && m % 2 == 0
    ensures (x + m / 2) % m - m / 2 == v <==> -(m / 2) <= v < m / 2 && (v - x) % m == 0
  {
    var h := m / 2;
    OneResidue(x + h, m, v + h);
    assert (v + h) - (x + h) == v - x;
  }

  lemma OneResidue(x: int, m: int, r: int)
    requires m > 0
    ensures x % m == r <==> 0 <= r < m && (r - x) % m == 0
  {
    var q := x / m;
    assert x == q * m + x % m;
    if 0 <= r < m && (r - x) % m == 0 {
      var d := (r - x) / m;
      assert r - x == d * m;
      assert (d + q) * m == r - x % m;
      SmallMultiple(d + q, m);
    }
    if x % m == r {
      assert r - x == -q * m;
      Multiple(-q, m);
    }
  }

  lemma Multiple(q: int, m: int)
    requires m > 0
    ensures (q * m) % m == 0
  {
    if (q * m) % m != 0 {
      assert (q * m / m - q) * m == -((q * m) % m);
      SmallMultiple(q * m / m - q, m);
    }
  }

  /** Narrowing to an unsigned type. */
  lemma CutExactly(bits: nat, x: int, v: int)
    requires IsIntWidth(bits)
    ensures x % Modulus(bits) == v <==> UnsignedRange(bits, v) && Congruent(bits, v, x)
  {
    OneResidue(x, Modulus(bits), v);
  }

  // ---------------------------------------------------------------- primitives

  lemma PrimValueExactly(k: Kind, v: Value)
    requires WFKind(k)
    ensures PrimValue(k, v) <==> TypedPrim(k, v)
  {
    match k
    case KInt(bits, _) =>
      if v.VInt? {
        RangeExactly(bits, v.i);
      }
    case KUint(bits, _) =>
      if v.VUint? {
        RangeExactly(bits, v.n);
      }
    case KWords(width, parts) =>
      RangeExactly(8 * width, 0);
      if v.VWords? {
        forall j | 0 <= j < |v.ws|
          ensures UnsignedRange(8 * width, v.ws[j]) <==> v.ws[j] < Pow256(width)
        {
          RangeExactly(8 * width, v.ws[j]);
        }
      }
    case _ =>
  }

  lemma PrimWrittenExactly(k: Kind, v: Value, b: bytes)
    requires WFKind(k) && PrimValue(k, v)
    ensures PrimWritten(k, v, b) <==> b == EncPrim(k, v)
  {
    match k
    case KString => TextsExactly(v.s, b);
    case KBool =>
    case KInt(_, _) =>
      var n := ZigZag(v.i);
      UvarintShape(n);
      SpellsExactly(Sum7(b), b);
      SpellsExactly(n, b);
    case KUint(_, _) => SpellsExactly(v.n, b);
    case KWords(width, _) => WordsExactly(v.ws, width, b);
  }

  lemma PrimReadsExactly(k: Kind, v: Value, b: bytes, rest: bytes)
    requires WFKind(k)
    ensures PrimReads(k, v, b) <==> DecPrim(k, b + rest) == Ok(v, rest)
  {
    match k
    case KString => TextPrimReads(v, b, rest);
    case KBool => FlagReads(v, b, rest);
    case KInt(bits, native) => IntReads(bits, native, v, b, rest);
    case KUint(bits, native) => UintReads(bits, native, v, b, rest);
    case KWords(width, parts) => WordsPrimReads(width, parts, v, b, rest);
  }

  lemma TextPrimReads(v: Value, b: bytes, rest: bytes)
    ensures PrimReads(KString, v, b) <==> DecPrim(KString, b + rest) == Ok(v, rest)
  {
    hide ReadBlob, TextReads;
    if v.VStr? {
      TextReadsExactly(v.s, b, rest);
    }
  }

  lemma FlagReads(v: Value, b: bytes, rest: bytes)
    ensures PrimReads(KBool, v, b) <==> DecPrim(KBool, b + rest) == Ok(v, rest)
  {
    if |b| == 1 {
      assert (b + rest)[0] == b[0] && (b + rest)[1..] == rest;
    } else if b + rest != [] {
      assert |(b + rest)[1..]| != |rest|;
    }
  }

  lemma GroupPart(b: bytes, rest: bytes, u: Parsed<nat>)
    requires u == ReadUvarint(b + rest)
    ensures Counts(Sum7(b), b) <==> u.Ok? && u.rest == rest
    ensures u.Ok? && u.rest == rest ==> u.val == Sum7(b)
  {
    hide Counts, ReadUvarint;
    CountsExactly(Sum7(b), b, rest);
    if u.Ok? && u.rest == rest {
      CountsExactly(u.val, b, rest);
      assert Sum7(b) == u.val by { SumOf(u.val, b); }
    }
  }

  lemma SumOf(n: nat, b: bytes)
    requires Counts(n, b)
    ensures Sum7(b) == n
  {
  }

  lemma IntReads(bits: nat, native: bool, v: Value, b: bytes, rest: bytes)
    requires IsIntWidth(bits)
    ensures PrimReads(KInt(bits, native), v, b) <==> DecPrim(KInt(bits, native), b + rest) == Ok(v, rest)
  {
    var u := ReadUvarint(b + rest);
    GroupPart(b, rest, u);
    hide Counts, ReadUvarint, WrapSigned, SignedRange, Congruent;
    if v.VInt? {
      WrapExactly(bits, UnZigZag(Sum7(b)), v.i);
    }
  }

  lemma UintReads(bits: nat, native: bool, v: Value, b: bytes, rest: bytes)
    requires IsIntWidth(bits)
    ensures PrimReads(KUint(bits, native), v, b) <==> DecPrim(KUint(bits, native), b + rest) == Ok(v, rest)
  {
    var u := ReadUvarint(b + rest);
    GroupPart(b, rest, u);
    hide Counts, ReadUvarint, UnsignedRange, Congruent, Modulus;
    if v.VUint? {
      CutExactly(bits, Sum7(b), v.n);
    }
  }

  lemma WordsPrimReads(width: nat, parts: nat, v: Value, b: bytes, rest: bytes)
    requires WFKind(KWords(width, parts))
    ensures PrimReads(KWords(width, parts), v, b) <==> DecPrim(KWords(width, parts), b + rest) == Ok(v, rest)
  {
    hide WordsOf, DecWords;
    if v.VWords? {
      WordsReads(v.ws, width, parts, b, rest);
      forall j | 0 <= j < |v.ws|
        ensures UnsignedRange(8 * width, v.ws[j]) <==> v.ws[j] < Pow256(width)
      {
        RangeExactly(8 * width, v.ws[j]);
      }
    }
  }

  // ---------------------------------------------------------------- primitive map keys

  lemma KeyWrittenExactly(t: Type, v: Value, b: bytes)
    requires t.TPrim? && WFKind(t.kind) && PrimValue(t.kind, v)
    ensures KeyWritten(t, v, b) <==> b == EncPrimKey(t.kind, v)
  {
    hide LE, Fixed, EncPrim, PrimWritten;
    PrimWrittenExactly(t.kind, v, b);
    if FixedKey(t.kind) {
      FixedKeyWritten(t, v, b);
    } else if t.kind.KString? {
      TextKeyWritten(t, v, b);
    }
  }

  lemma FixedKeyWritten(t: Type, v: Value, b: bytes)
    requires t.TPrim? && WFKind(t.kind) && PrimValue(t.kind, v) && FixedKey(t.kind)
    ensures KeyWritten(t, v, b) <==> b == EncPrimKey(t.kind, v)
  {
    hide LE, Fixed;
    var bits := t.kind.bits;
    match t.kind
    case KInt(_, _) => FixedExactly(v.i % Modulus(bits), bits / 8, b);
    case KUint(_, _) =>
      RangeExactly(bits, v.n);
      ModSmall(v.n, Modulus(bits));
      FixedExactly(v.n, bits / 8, b);
  }

  lemma TextKeyWritten(t: Type, v: Value, b: bytes)
    requires t.TPrim? && t.kind.KString? && v.VStr?
    ensures KeyWritten(t, v, b) <==> b == EncPrimKey(t.kind, v)
  {
    hide LE, Fixed;
    if |b| == 2 + |v.s| {
      FixedExactly(|v.s|, 2, b[..2]);
      assert b == b[..2] + b[2..];
    }
  }

  lemma KeyReadsExactly(t: Type, v: Value, b: bytes, rest: bytes)
    requires t.TPrim? && WFKind(t.kind)
    ensures KeyReads(t, v, b) <==> DecPrimKey(t.kind, b + rest) == Ok(v, rest)
  {
    match t.kind
    case KInt(bits, native) =>
      if FixedKey(t.kind) {
        SignedKeyReads(bits, v, b, rest);
      } else {
        PrimReadsExactly(t.kind, v, b, rest);
      }
    case KUint(bits, native) =>
      if FixedKey(t.kind) {
        UnsignedKeyReads(bits, v, b, rest);
      } else {
        PrimReadsExactly(t.kind, v, b, rest);
      }
    case KString => TextKeyReads(v, b, rest);
    case _ => PrimReadsExactly(t.kind, v, b, rest);
  }

  // A prefix of a given length, taken off.
  lemma TakeExactly(b: bytes, rest: bytes, w: nat, x: bytes)
    ensures b == x && |b| == w <==> Take(b + rest, w) == Ok(x, rest)
  {
    if Take(b + rest, w) == Ok(x, rest) {
      assert |b| == w && (b + rest)[..w] == b;
    }
  }

  lemma SignedKeyReads(bits: nat, v: Value, b: bytes, rest: bytes)
    requires IsIntWidth(bits) && bits > 8
    ensures
      v.VInt? && SignedRange(bits, v.i) && Fixed(v.i % Modulus(bits), bits / 8, b) <==>
        DecPrimKey(KInt(bits, false), b + rest) == Ok(v, rest)
  {
    hide Take, FromLE, WrapSigned, Fixed, Congruent, SignedRange;
    TakeExactly(b, rest, bits / 8, b);
    if Take(b + rest, bits / 8).Ok? {
      TakeShape(b + rest, bits / 8);
    }
    if v.VInt? {
      var m := Modulus(bits);
      FixedReads(v.i % m, bits / 8, b);
      RangeExactly(bits, v.i);
      WrapExactly(bits, FromLE(b), v.i);
      if |b| == bits / 8 {
        FromLEBound(b);
        CutExactly(bits, v.i, FromLE(b));
        Turned(bits, v.i, FromLE(b));
      }
    }
  }

  lemma Turned(bits: nat, x: int, y: int)
    ensures Congruent(bits, x, y) <==> Congruent(bits, y, x)
  {
  }

  lemma UnsignedKeyReads(bits: nat, v: Value, b: bytes, rest: bytes)
    requires IsIntWidth(bits) && bits > 8
    ensures
      v.VUint? && UnsignedRange(bits, v.n) && Fixed(v.n, bits / 8, b) <==>
        DecPrimKey(KUint(bits, false), b + rest) == Ok(v, rest)
  {
    hide Take, FromLE, Fixed, UnsignedRange;
    TakeExactly(b, rest, bits / 8, b);
    if Take(b + rest, bits / 8).Ok? {
      TakeShape(b + rest, bits / 8);
    }
    if v.VUint? {
      FixedReads(v.n, bits / 8, b);
      RangeExactly(bits, v.n);
    }
  }

  lemma TextKeyReads(v: Value, b: bytes, rest: bytes)
    ensures
      v.VStr? && |b| == 2 + |v.s| && |v.s| <= 65535 && Fixed(|v.s|, 2, b[..2]) && b[2..] == v.s <==>
        DecPrimKey(KString, b + rest) == Ok(v, rest)
  {
    hide FromLE, Fixed;
    if |b| >= 2 {
      assert (b + rest)[..2] == b[..2] && (b + rest)[2..] == b[2..] + rest;
      var n := FromLE(b[..2]);
      TakeExactly(b[2..], rest, n, b[2..]);
      if v.VStr? {
        assert Pow256(2) == 65536;
        FixedReads(|v.s|, 2, b[..2]);
        TakeExactly(b[2..], rest, n, v.s);
      }
    } else if DecPrimKey(KString, b + rest).Ok? {
      StringKeyShape(b + rest);
    }
  }
}
