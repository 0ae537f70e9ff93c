/**
 * The waitlist's in-place sort: a Lomuto quicksort of a range of the backing array by
 * nonce. The partition loop here scans only `[low, high)`; the source scans the whole
 * slice (see the Findings module and README).
 */
module Quicksort {
  import opened Models
  import opened Ordering

  /** Exchanges two slots; nothing else changes. */
  method Swap(a: array<Transaction>, i: int, j: int)
    requires 0 <= i < a.Length && 0 <= j < a.Length
    modifies a
    ensures a[..] == old(a[..])[i := old(a[j])][j := old(a[i])]
    ensures multiset(a[..]) == old(multiset(a[..]))
  {
    a[i], a[j] := a[j], a[i];
  }

  /**
   * Moves every entry of `[low, high]` whose nonce is below the pivot `a[high]` to the front
   * of the range and the pivot just after them, and returns the pivot's new index.
   */
  method Partition(a: array<Transaction>, low: int, high: int) returns (pi: int)
    requires 0 <= low <= high < a.Length
    modifies a
    ensures low <= pi <= high
    ensures PermutedWithin(old(a[..]), a[..], low, high + 1)
    ensures a[pi] == old(a[high])
    ensures forall k :: low <= k < pi ==> a[k].nonce < a[pi].nonce
    ensures forall k :: pi < k <= high ==> a[k].nonce >= a[pi].nonce
  {
    var pivot := a[high];
    var start := low - 1;
    var i := low;
    while i < high
      invariant low <= i <= high
      invariant low - 1 <= start < i
      invariant a[high] == pivot
      invariant forall k :: low <= k <= start ==> a[k].nonce < pivot.nonce
      invariant forall k :: start < k < i ==> a[k].nonce >= pivot.nonce
      invariant PermutedWithin(old(a[..]), a[..], low, high + 1)
    {
      if a[i].nonce < pivot.nonce {
        start := start + 1;
        Swap(a, start, i);
      }
      i := i + 1;
    }
    Swap(a, start + 1, high);
    pi := start + 1;
  }

  /** Sorts `[low, high]` by nonce in place, permuting only that range. */
  method Quicksort(a: array<Transaction>, low: int, high: int)
    requires 0 <= low <= high + 1 <= a.Length
    modifies a
    ensures PermutedWithin(old(a[..]), a[..], low, high + 1)
    ensures SortedBetween(a[..], low, high + 1)
    decreases high - low
  {
    if low < high {
      var pi := Partition(a, low, high);
      ghost var parted := a[..];
      Quicksort(a, low, pi - 1);
      ghost var leftDone := a[..];
      Quicksort(a, pi + 1, high);
      SortedAroundPivot(parted, leftDone, a[..], low, pi, high);
    }
  }

  /**
   * The glue of the recursion: a partitioned range whose two sides were then sorted in
   * place, one after the other, is sorted as a whole.
   */
  lemma SortedAroundPivot(parted: seq<Transaction>, leftDone: seq<Transaction>, done: seq<Transaction>,
                          low: int, pi: int, high: int)
    requires 0 <= low <= pi <= high < |parted|
    requires forall k :: low <= k < pi ==> parted[k].nonce < parted[pi].nonce
    requires forall k :: pi < k <= high ==> parted[k].nonce >= parted[pi].nonce
    requires PermutedWithin(parted, leftDone, low, pi)
    requires SortedBetween(leftDone, low, pi)
    requires PermutedWithin(leftDone, done, pi + 1, high + 1)
    requires SortedBetween(done, pi + 1, high + 1)
    ensures SortedBetween(done, low, high + 1)
  {
    var p := parted[pi].nonce;
    PermutedKeepsBounds(parted, leftDone, low, pi, p);
    PermutedKeepsBounds(leftDone, done, pi + 1, high + 1, p);
    assert done[pi] == parted[pi];
    assert forall k :: low <= k < pi ==> done[k] == leftDone[k];
  }

  /** `Transactions.Sort(begin)`: sorts the slice `a[..len]` from `begin` to its end. */
  method Sort(a: array<Transaction>, len: nat, begin: nat)
    requires begin <= len <= a.Length
    modifies a
    ensures PermutedWithin(old(a[..]), a[..], begin, len)
    ensures SortedBetween(a[..], begin, len)
  {
    Quicksort(a, begin, len - 1);
  }
}
