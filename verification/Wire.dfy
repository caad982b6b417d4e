/** Bytes, the outcome of a read, and little-endian fixed-width words. */
module Wire {

  type byte = x: int | 0 <= x < 256
  type bytes = seq<byte>

  // The largest Go `int` and the number of 64-bit patterns.
  const MAX_INT: nat := 0x7FFF_FFFF_FFFF_FFFF
  const TWO64: nat := 0x1_0000_0000_0000_0000

  /** What a decoder makes of a byte string: a failure, or a value and the bytes it did not consume. */
  datatype Parsed<+T> = Fail | Ok(val: T, rest: bytes) {
    predicate IsFailure() { Fail? }

    function PropagateFailure<U>(): Parsed<U>
      requires Fail?
    {
      Fail
    }

    function Extract(): (T, bytes)
      requires Ok?
    {
      (val, rest)
    }
  }

  /** The outcome of a loop that has already produced `xs`. */
  function Onto<T>(xs: seq<T>, d: Parsed<seq<T>>): Parsed<seq<T>> {
    match d
    case Fail => Fail
    case Ok(ys, r) => Ok(xs + ys, r)
  }

  lemma OntoNone<T>(d: Parsed<seq<T>>)
    ensures Onto([], d) == d
  {
    if d.Ok? {
      assert [] + d.val == d.val;
    }
  }

  /** The bytes of `b` that a read leaving `rest` has consumed. */
  function Consumed(b: bytes, rest: bytes): (p: bytes) {
    if |rest| <= |b| then b[..|b| - |rest|] else []
  }

  predicate IsSuffix(rest: bytes, b: bytes) {
    |rest| <= |b| && b[|b| - |rest|..] == rest
  }

  lemma SuffixTrans(a: bytes, b: bytes, c: bytes)
    requires IsSuffix(a, b) && IsSuffix(b, c)
    ensures IsSuffix(a, c)
    ensures Consumed(c, b) + Consumed(b, a) == Consumed(c, a)
  {
    assert c[|c| - |a|..] == b[|b| - |a|..] by {
      assert c[|c| - |b|..] == b;
      assert c[|c| - |b|..][|b| - |a|..] == c[|c| - |a|..];
    }
    assert Consumed(c, b) + Consumed(b, a) == Consumed(c, a) by {
      assert c == Consumed(c, b) + b;
    }
  }

  function Pow256(w: nat): (r: nat)
    ensures r >= 1
  {
    if w == 0 then 1 else 256 * Pow256(w - 1)
  }

  /** The `w` low bytes of `n`, least significant first. */
  function LE(n: nat, w: nat): (r: bytes)
    ensures |r| == w
  {
    if w == 0 then [] else [n % 256] + LE(n / 256, w - 1)
  }

  function FromLE(b: bytes): (n: nat) {
    if b == [] then 0 else b[0] + 256 * FromLE(b[1..])
  }

  lemma {:induction false} FromLEBound(b: bytes)
    ensures FromLE(b) < Pow256(|b|)
  {
    if b != [] {
      FromLEBound(b[1..]);
    }
  }

  lemma DivBelow(n: nat, p: nat)
    requires n < 256 * p
    ensures n / 256 < p
  {
  }

  lemma {:induction false} LERoundTrip(n: nat, w: nat)
    requires n < Pow256(w)
    ensures FromLE(LE(n, w)) == n
  {
    if w > 0 {
      DivBelow(n, Pow256(w - 1));
      LERoundTrip(n / 256, w - 1);
      assert LE(n, w)[1..] == LE(n / 256, w - 1);
    }
  }

  lemma {:induction false} LEOfFromLE(b: bytes)
    ensures LE(FromLE(b), |b|) == b
  {
    if b != [] {
      LEOfFromLE(b[1..]);
      assert FromLE(b) % 256 == b[0];
      assert FromLE(b) / 256 == FromLE(b[1..]);
    }
  }

  /** Byte `j` of a word is its digit for 256^j: the low byte comes first. */
  lemma {:induction false} LEDigit(n: nat, w: nat, j: nat)
    requires j < w
    ensures LE(n, w)[j] == (n / Pow256(j)) % 256
  {
    if j > 0 {
      LEDigit(n / 256, w - 1, j - 1);
      DivStep(n, 256, Pow256(j - 1));
    }
  }

  lemma SmallMultiple(d: int, p: int)
    requires -p < d * p < p
    ensures d == 0
  {
  }

  // Quotient and remainder are unique.
  lemma DivIs(x: nat, p: nat, q: nat, r: nat)
    requires 0 <= r < p && x == q * p + r
    ensures x / p == q
  {
    assert (x / p - q) * p == r - x % p;
    SmallMultiple(x / p - q, p);
  }

  lemma DivStep(x: nat, m: nat, p: nat)
    requires m > 0 && p > 0
    ensures m * p > 0 && x / (m * p) == (x / m) / p
  {
    var y, low := x / m, x % m;
    var q, r := y / p, y % p;
    Regroup(m, q, p, r);
    var mp, mr := m * p, m * r;
    assert x == q * mp + (mr + low);
    DivIs(x, mp, q, mr + low);
  }

  lemma Regroup(m: nat, q: nat, p: nat, r: nat)
    requires m > 0 && r < p
    ensures m * (q * p + r) == q * (m * p) + m * r
    ensures m * r + m <= m * p
  {
    assert m * (q * p) == q * (m * p);
    assert m * (r + 1) <= m * p;
  }
}
