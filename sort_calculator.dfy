/** `sort_numbers` of `sort_calculator.py`: bubble sort on a copy of the list. */
module SortCalculator {

  predicate Sorted(s: seq<real>) {
    forall i, j | 0 <= i < j < |s| :: s[i] <= s[j]
  }

  /** No element before `m` is larger than an element from `m` on. */
  predicate Partitioned(s: seq<real>, m: int) {
    forall k, l | 0 <= k < m <= l < |s| :: s[k] <= s[l]
  }

  /** From `m` on, the elements are in order. */
  predicate SortedFrom(s: seq<real>, m: int) {
    forall k, l | 0 <= m <= k < l < |s| :: s[k] <= s[l]
  }

  /** Sorts a copy (the caller's sequence is a value and cannot change): `n`
      passes, pass `i` bubbling the largest of the first `n - i` elements to
      position `n - i - 1`. */
  method SortNumbers(s: seq<real>) returns (ans: seq<real>)
    ensures |ans| == |s|
    ensures Sorted(ans)
    ensures multiset(ans) == multiset(s)
  {
    var a := new real[|s|](k requires 0 <= k < |s| => s[k]);
    assert a[..] == s;
    var n := a.Length;
    for i := 0 to n
      invariant multiset(a[..]) == multiset(s)
      // the last i positions hold the largest elements, in final order
      invariant SortedFrom(a[..], n - i)
      invariant Partitioned(a[..], n - i)
    {
      BubblePass(a, n - i - 1);
    }
    ans := a[..];
  }

  /** The inner loop: adjacent swaps over `a[0..m]` leave the largest of them at `m`. */
  method BubblePass(a: array<real>, m: int)
    requires 0 <= m < a.Length
    requires Partitioned(a[..], m + 1) && SortedFrom(a[..], m + 1)
    modifies a
    ensures multiset(a[..]) == multiset(old(a[..]))
    ensures a[m + 1..] == old(a[m + 1..])
    ensures Partitioned(a[..], m) && SortedFrom(a[..], m)
  {
    ghost var s0 := a[..];
    for j := 0 to m
      invariant Passing(a[..], s0, m, j)
    {
      ghost var before := a[..];
      if a[j] > a[j + 1] {
        PassSwap(before, s0, m, j);
        a[j], a[j + 1] := a[j + 1], a[j];
        assert a[..] == Swap(before, j);
      } else {
        PassKeep(before, s0, m, j);
      }
    }
    PassDone(a[..], s0, m);
  }

  /** The state of the inner loop after `j` steps over the array that held
      `s0`: the same elements, the part from `m + 1` on untouched and still
      sorted above the rest, and the largest of `s[0..j]` at `j`. */
  ghost predicate Passing(s: seq<real>, s0: seq<real>, m: int, j: int) {
    0 <= j <= m < |s| == |s0|
    && multiset(s) == multiset(s0) && s[m + 1..] == s0[m + 1..]
    && Partitioned(s, m + 1) && SortedFrom(s, m + 1)
    && forall k | 0 <= k <= j :: s[k] <= s[j]
  }

  lemma PassSwap(s: seq<real>, s0: seq<real>, m: int, j: int)
    requires Passing(s, s0, m, j) && j < m && s[j] > s[j + 1]
    ensures Passing(Swap(s, j), s0, m, j + 1)
  {
    SwapKeeps(s, j, m);
  }

  lemma PassKeep(s: seq<real>, s0: seq<real>, m: int, j: int)
    requires Passing(s, s0, m, j) && j < m && s[j] <= s[j + 1]
    ensures Passing(s, s0, m, j + 1)
  {
  }

  lemma PassDone(s: seq<real>, s0: seq<real>, m: int)
    requires Passing(s, s0, m, m)
    ensures multiset(s) == multiset(s0) && s[m + 1..] == s0[m + 1..]
    ensures Partitioned(s, m) && SortedFrom(s, m)
  {
  }

  function Swap(s: seq<real>, j: nat): seq<real>
    requires j + 1 < |s|
  {
    s[j := s[j + 1]][j + 1 := s[j]]
  }

  /** Swapping an out-of-order pair below `m` keeps the part from `m + 1` on,
      the elements, and the partition at `m + 1`, and moves the larger one up. */
  lemma SwapKeeps(s: seq<real>, j: nat, m: nat)
    requires j < m < |s| && s[j] > s[j + 1]
    requires Partitioned(s, m + 1) && SortedFrom(s, m + 1)
    requires forall k | 0 <= k <= j :: s[k] <= s[j]
    ensures var t := Swap(s, j);
      multiset(t) == multiset(s) && t[m + 1..] == s[m + 1..]
      && Partitioned(t, m + 1) && SortedFrom(t, m + 1)
      && forall k | 0 <= k <= j + 1 :: t[k] <= t[j + 1]
  {
    var t := Swap(s, j);
    assert t[m + 1..] == s[m + 1..];
  }
}
