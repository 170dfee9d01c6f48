/**
  object_container_sort (src/lib/object_container.h): a do-while bubble sort of an array of element
  pointers.  An element is named by its index in the container, and `gt` is the comparison callback.
 */
module Sort {
  type Compare = (nat, nat) -> bool

  /** What a comparison callback must be for sorting to mean anything: "comes after", ties allowed. */
  ghost predicate StrictWeak(gt: Compare) {
    && (forall x: nat, y: nat :: gt(x, y) ==> !gt(y, x))
    && (forall x: nat, y: nat, z: nat :: !gt(x, y) && !gt(y, z) ==> !gt(x, z))
  }

  /** The callback in use, dbg_data_access_compare, orders by access time. */
  lemma ByTimeIsStrictWeak(time: nat -> nat)
    ensures StrictWeak((x: nat, y: nat) => time(x) > time(y))
  {
  }

  /** How many elements of `s` must come before `x`. */
  ghost function Before(gt: Compare, x: nat, s: seq<nat>): nat {
    if s == [] then 0 else (if gt(x, s[0]) then 1 else 0) + Before(gt, x, s[1..])
  }

  /** The pairs in the wrong order. */
  ghost function Inversions(gt: Compare, s: seq<nat>): nat {
    if s == [] then 0 else Before(gt, s[0], s[1..]) + Inversions(gt, s[1..])
  }

  function Swapped(s: seq<nat>, k: nat): (r: seq<nat>)
    requires k + 1 < |s|
    ensures |r| == |s|
  {
    s[k := s[k + 1]][k + 1 := s[k]]
  }

  lemma {:induction false} BeforeSwapped(gt: Compare, x: nat, s: seq<nat>, k: nat)
    requires k + 1 < |s|
    ensures Before(gt, x, Swapped(s, k)) == Before(gt, x, s)
  {
    var r := Swapped(s, k);
    if k == 0 {
      assert r[1..][1..] == s[1..][1..];
    } else {
      assert r[1..] == Swapped(s[1..], k - 1);
      BeforeSwapped(gt, x, s[1..], k - 1);
    }
  }

  /** Every swap the sort makes removes exactly one inversion. */
  lemma {:induction false} SwapRemovesInversion(gt: Compare, s: seq<nat>, k: nat)
    requires k + 1 < |s| && gt(s[k], s[k + 1]) && !gt(s[k + 1], s[k])
    ensures Inversions(gt, Swapped(s, k)) == Inversions(gt, s) - 1
  {
    var r := Swapped(s, k);
    if k == 0 {
      assert r[1..][1..] == s[1..][1..];
      assert s[1..][0] == s[1] && r[1..][0] == s[0];
    } else {
      assert r[1..] == Swapped(s[1..], k - 1);
      BeforeSwapped(gt, s[0], s[1..], k - 1);
      SwapRemovesInversion(gt, s[1..], k - 1);
    }
  }

  function Identity(n: nat): (s: seq<nat>)
    ensures |s| == n && forall i :: 0 <= i < n ==> s[i] == i
  {
    seq(n, i => i)
  }

  /** Two elements are out of their original order only if the comparison demands it. */
  ghost predicate Stable(gt: Compare, s: seq<nat>) {
    forall i, j :: 0 <= i < j < |s| && s[i] > s[j] ==> gt(s[j], s[i])
  }

  lemma SwapKeepsStable(gt: Compare, s: seq<nat>, k: nat)
    requires k + 1 < |s| && Stable(gt, s) && gt(s[k], s[k + 1])
    ensures Stable(gt, Swapped(s, k))
  {
  }

  ghost predicate InOrder(gt: Compare, s: seq<nat>, n: nat) {
    forall i :: 0 <= i && i + 1 < |s| && i < n ==> !gt(s[i], s[i + 1])
  }

  ghost predicate Sorted(gt: Compare, s: seq<nat>) {
    forall i, j :: 0 <= i < j < |s| ==> !gt(s[i], s[j])
  }

  lemma {:induction false} InOrderFar(gt: Compare, s: seq<nat>, i: nat, j: nat)
    requires StrictWeak(gt) && InOrder(gt, s, |s|) && i < j < |s|
    ensures !gt(s[i], s[j])
    decreases j - i
  {
    assert !gt(s[i], s[i + 1]);
    if i + 1 < j {
      InOrderFar(gt, s, i + 1, j);
    }
  }

  /** A pass without a swap leaves a sorted array. */
  lemma InOrderSorted(gt: Compare, s: seq<nat>)
    requires StrictWeak(gt) && InOrder(gt, s, |s|)
    ensures Sorted(gt, s)
  {
    forall i, j | 0 <= i < j < |s|
      ensures !gt(s[i], s[j])
    {
      InOrderFar(gt, s, i, j);
    }
  }

  /** What holds of the array all along. */
  ghost predicate Permuted(gt: Compare, s: seq<nat>, n: nat) {
    |s| == n && multiset(s) == multiset(Identity(n)) && Stable(gt, s)
  }

  lemma SwapKeepsPermuted(gt: Compare, s: seq<nat>, k: nat, n: nat)
    requires Permuted(gt, s, n) && k + 1 < n && gt(s[k], s[k + 1])
    ensures Permuted(gt, Swapped(s, k), n)
  {
    SwapKeepsStable(gt, s, k);
  }

  /** One pass of the inner loop. */
  method Pass(a: array<nat>, gt: Compare) returns (isSwap: bool)
    requires 0 < a.Length && StrictWeak(gt) && Permuted(gt, a[..], a.Length)
    modifies a
    ensures Permuted(gt, a[..], a.Length)
    ensures isSwap ==> Inversions(gt, a[..]) < old(Inversions(gt, a[..]))
    ensures !isSwap ==> a[..] == old(a[..]) && InOrder(gt, a[..], a.Length)
  {
    isSwap := false;
    var index := 0;
    while index < a.Length - 1
      invariant 0 <= index <= a.Length - 1 && Permuted(gt, a[..], a.Length)
      invariant isSwap ==> Inversions(gt, a[..]) < old(Inversions(gt, a[..]))
      invariant !isSwap ==> a[..] == old(a[..]) && InOrder(gt, a[..], index)
    {
      if gt(a[index], a[index + 1]) {
        ghost var s := a[..];
        SwapKeepsPermuted(gt, s, index, a.Length);
        SwapRemovesInversion(gt, s, index);
        a[index], a[index + 1] := a[index + 1], a[index];
        assert a[..] == Swapped(s, index);
        isSwap := true;
      }
      index := index + 1;
    }
  }

  /** object_container_sort of a nonempty container of `n` elements.  It ends, since every further pass
      removes an inversion, with a sorted and stable permutation of the elements. */
  method BubbleSort(n: nat, gt: Compare) returns (a: array<nat>)
    requires 0 < n && StrictWeak(gt)
    ensures fresh(a) && a.Length == n && multiset(a[..]) == multiset(Identity(n))
    ensures Sorted(gt, a[..]) && Stable(gt, a[..])
  {
    a := new nat[n];
    var index := 0;
    while index < n
      invariant index <= n && forall k :: 0 <= k < index ==> a[k] == k
    {
      a[index] := index;
      index := index + 1;
    }
    assert a[..] == Identity(n);
    var isSwap := Pass(a, gt);
    while isSwap
      invariant Permuted(gt, a[..], n) && (!isSwap ==> InOrder(gt, a[..], n))
      decreases Inversions(gt, a[..]), if isSwap then 1 else 0
    {
      isSwap := Pass(a, gt);
    }
    InOrderSorted(gt, a[..]);
  }
}
