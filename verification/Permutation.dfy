/** Sequences with the same elements in another order, and the swaps a sort is made of. */
module Permutation {

  lemma Without<T>(xs: seq<T>, i: nat)
    requires i < |xs|
    ensures multiset(xs) == multiset(xs[..i] + xs[i + 1..]) + multiset{xs[i]}
  {
    assert xs == xs[..i] + [xs[i]] + xs[i + 1..];
  }

  /** Where the head of `xs` sits in a reordering `ys`; the rest are reorderings of each other. */
  lemma MatchHead<T>(xs: seq<T>, ys: seq<T>) returns (i: nat)
    requires xs != [] && multiset(xs) == multiset(ys)
    ensures i < |ys| && ys[i] == xs[0]
    ensures multiset(xs[1..]) == multiset(ys[..i] + ys[i + 1..])
  {
    assert xs[0] in multiset(ys);
    i :| 0 <= i < |ys| && ys[i] == xs[0];
    Without(ys, i);
    Without(xs, 0);
    assert xs[..0] + xs[1..] == xs[1..];
    assert multiset(xs[1..]) == multiset(xs) - multiset{xs[0]};
  }

  lemma SameLength<T>(xs: seq<T>, ys: seq<T>)
    requires multiset(xs) == multiset(ys)
    ensures |xs| == |ys|
  {
    assert |multiset(xs)| == |xs| && |multiset(ys)| == |ys|;
  }

  // ---------------------------------------------------------------- sorting by swaps

  predicate Sorted(xs: seq<int>) {
    forall i, j :: 0 <= i < j < |xs| ==> xs[i] <= xs[j]
  }

  lemma AdjacentSorted(xs: seq<int>)
    requires forall k :: 0 < k < |xs| ==> xs[k - 1] <= xs[k]
    ensures Sorted(xs)
  {
    forall i, j | 0 <= i < j < |xs|
      ensures xs[i] <= xs[j]
    {
      Climb(xs, i, j);
    }
  }

  lemma {:induction false} Climb(xs: seq<int>, i: nat, j: nat)
    requires i < j < |xs| && forall k :: 0 < k < |xs| ==> xs[k - 1] <= xs[k]
    ensures xs[i] <= xs[j]
    decreases j
  {
    if i < j - 1 {
      Climb(xs, i, j - 1);
    }
  }

  /** The swaps a sort chooses to make, in order. */
  type Script = seq<(nat, nat)>

  predicate InRange(script: Script, n: nat) {
    forall k :: 0 <= k < |script| ==> script[k].0 < n && script[k].1 < n
  }

  function Swapped<T>(xs: seq<T>, i: nat, j: nat): (r: seq<T>)
    requires i < |xs| && j < |xs|
    ensures |r| == |xs|
  {
    xs[i := xs[j]][j := xs[i]]
  }

  function Apply<T>(xs: seq<T>, script: Script): (r: seq<T>)
    requires InRange(script, |xs|)
    ensures |r| == |xs|
    decreases |script|
  {
    if script == [] then xs else Apply(Swapped(xs, script[0].0, script[0].1), script[1..])
  }

  /** A run of in-range swaps that leaves the keys sorted: all that is asked of a sort. */
  predicate Sorts(xs: seq<int>, script: Script) {
    InRange(script, |xs|) && Sorted(Apply(xs, script))
  }

  /** A run of swaps only reorders. */
  lemma {:induction false} ApplyPermutes<T>(xs: seq<T>, script: Script)
    requires InRange(script, |xs|)
    ensures multiset(Apply(xs, script)) == multiset(xs)
    decreases |script|
  {
    if script != [] {
      ApplyPermutes(Swapped(xs, script[0].0, script[0].1), script[1..]);
    }
  }

  /** One more swap at the end of a run. */
  lemma {:induction false} ApplyLast<T>(xs: seq<T>, script: Script, i: nat, j: nat)
    requires InRange(script, |xs|) && i < |xs| && j < |xs|
    ensures Apply(xs, script + [(i, j)]) == Swapped(Apply(xs, script), i, j)
    decreases |script|
  {
    if script == [] {
      assert Apply(xs, [(i, j)]) == Apply(Swapped(xs, i, j), []);
    } else {
      assert (script + [(i, j)])[1..] == script[1..] + [(i, j)];
      ApplyLast(Swapped(xs, script[0].0, script[0].1), script[1..], i, j);
    }
  }

  /** Two sequences, element by element. */
  function Zip<A, B>(xs: seq<A>, ys: seq<B>): (r: seq<(A, B)>)
    requires |xs| == |ys|
    ensures |r| == |xs| && forall k :: 0 <= k < |r| ==> r[k] == (xs[k], ys[k])
  {
    seq(|xs|, k requires 0 <= k < |xs| => (xs[k], ys[k]))
  }

  /** The same run on two arrays moves pairs as wholes. */
  lemma {:induction false} ApplyZip<A, B>(xs: seq<A>, ys: seq<B>, script: Script)
    requires |xs| == |ys| && InRange(script, |xs|)
    ensures Zip(Apply(xs, script), Apply(ys, script)) == Apply(Zip(xs, ys), script)
    decreases |script|
  {
    if script != [] {
      var (i, j) := script[0];
      assert Zip(Swapped(xs, i, j), Swapped(ys, i, j)) == Swapped(Zip(xs, ys), i, j);
      ApplyZip(Swapped(xs, i, j), Swapped(ys, i, j), script[1..]);
    }
  }

  /** Sorted order is unique: a multiset has one sorted listing. */
  lemma {:induction false} SortedUnique(xs: seq<int>, ys: seq<int>)
    requires Sorted(xs) && Sorted(ys) && multiset(xs) == multiset(ys)
    ensures xs == ys
  {
    SameLength(xs, ys);
    if xs != [] {
      LeastIsShared(xs, ys);
      LeastIsShared(ys, xs);
      TailPermutes(xs);
      TailPermutes(ys);
      SortedUnique(xs[1..], ys[1..]);
      assert xs == [xs[0]] + xs[1..] && ys == [ys[0]] + ys[1..];
    }
  }

  lemma LeastIsShared(xs: seq<int>, ys: seq<int>)
    requires xs != [] && ys != [] && Sorted(ys) && multiset(xs) == multiset(ys)
    ensures ys[0] <= xs[0]
  {
    assert xs[0] in multiset(ys);
  }

  lemma TailPermutes(xs: seq<int>)
    requires xs != []
    ensures multiset(xs[1..]) == multiset(xs) - multiset{xs[0]}
  {
    assert xs == [xs[0]] + xs[1..];
  }

  /** The position of a smallest element at or after `from`. */
  function Least(xs: seq<int>, from: nat): (m: nat)
    requires from < |xs|
    ensures from <= m < |xs| && forall k :: from <= k < |xs| ==> xs[m] <= xs[k]
    decreases |xs| - from
  {
    if from == |xs| - 1 then from
    else
      var m := Least(xs, from + 1);
      if xs[from] <= xs[m] then from else m
  }

  /** Every sequence can be sorted by swaps; what is asked of a sort is never asked in vain. */
  lemma SortExists(xs: seq<int>) returns (script: Script)
    ensures Sorts(xs, script)
  {
    script := [];
    var ys := xs;
    for k := 0 to |xs|
      invariant InRange(script, |xs|) && ys == Apply(xs, script)
      invariant forall i, j :: 0 <= i < k && i < j < |ys| ==> ys[i] <= ys[j]
    {
      var m := Least(ys, k);
      ApplyLast(xs, script, k, m);
      script, ys := script + [(k, m)], Swapped(ys, k, m);
    }
  }

  /** `sort.Sort` on an array: it makes the swaps it chooses, one after the other. */
  method Sort(a: array<int>, script: Script)
    requires InRange(script, a.Length)
    modifies a
    ensures a[..] == Apply(old(a[..]), script)
  {
    ghost var was := a[..];
    assert script[0..] == script;
    for k := 0 to |script|
      invariant Apply(a[..], script[k..]) == Apply(was, script)
    {
      var (i, j) := script[k];
      ghost var before := a[..];
      a[i], a[j] := a[j], a[i];
      assert a[..] == Swapped(before, i, j);
      assert script[k..][1..] == script[k + 1..];
    }
    assert script[|script|..] == [];
  }

  /** `isSorted` and `sort.IsSorted` look at neighbours only. */
  method IsSorted(a: array<int>) returns (r: bool)
    ensures r <==> Sorted(a[..])
  {
    var i := 1;
    while i < a.Length
      invariant 1 <= i && (i <= a.Length || a.Length == 0)
      invariant forall k :: 0 < k < i && k < a.Length ==> a[k - 1] <= a[k]
    {
      if a[i] < a[i - 1] {
        assert a[..][i] < a[..][i - 1];
        return false;
      }
      i := i + 1;
    }
    AdjacentSorted(a[..]);
    return true;
  }
}
