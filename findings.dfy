/**
 * Two places where `sequencer.go` does not do what its surrounding code evidently expects,
 * each modelled as written on plain values, with the input that shows it. The rest of the
 * project uses the corrected behaviour: `Waitlist.SortedWaitlist.Add` records the nonce it
 * accepts, and `Quicksort.Partition` scans only the range it partitions.
 */
module Findings {
  import opened Wrappers
  import opened Models
  import opened Ordering

  /** A waitlist's fields as the source keeps them: nonce dictionary, slice, first unpopped index. */
  datatype WaitlistAsWritten = WaitlistAsWritten(dict: map<u64, Transaction>, txs: seq<Transaction>, beginIndex: nat)

  /**
   * `SortedWaitlist.Add` as written: the duplicate check reads the dictionary, but nothing
   * ever writes to it. The re-sort is taken to work (it is the subject of the second finding).
   */
  function AddAsWritten(l: WaitlistAsWritten, tx: Transaction): (r: (bool, WaitlistAsWritten))
    requires l.beginIndex <= |l.txs|
    ensures r.0 <==> tx.nonce !in l.dict
    ensures r.1.dict == l.dict
    ensures r.0 ==> |r.1.txs| == |l.txs| + 1
    ensures r.1.beginIndex == l.beginIndex <= |r.1.txs|
  {
    if tx.nonce in l.dict then (false, l)
    else (true, l.(txs := l.txs[..l.beginIndex] + Insert(l.txs[l.beginIndex..], tx)))
  }

  /** What `Peek` as written can do: return nil, return an entry, or index past the slice and panic. */
  datatype Peeked = Nil | Entry(tx: Transaction) | IndexPanic

  /** `SortedWaitlist.Peek` as written: nil while the dictionary is empty, else the slot at the mark. */
  function PeekAsWritten(l: WaitlistAsWritten): (r: Peeked)
    ensures r.Nil? <==> |l.dict| == 0
    ensures r.Entry? ==> l.beginIndex < |l.txs| && r.tx == l.txs[l.beginIndex]
    ensures r.IndexPanic? <==> |l.dict| > 0 && |l.txs| <= l.beginIndex
  {
    if |l.dict| == 0 then Nil
    else if l.beginIndex < |l.txs| then Entry(l.txs[l.beginIndex])
    else IndexPanic
  }

  /** `SortedWaitlist.Len` as written: the dictionary's size. */
  function LenAsWritten(l: WaitlistAsWritten): (n: nat)
    ensures n == 0 <==> l.dict == map[]
  {
    |l.dict|
  }

  /**
   * Adding the same entry twice to an empty waitlist succeeds both times, and afterwards
   * the waitlist holds two entries but reports a length of zero and peeks nothing, so the
   * sequencer can never release anything.
   */
  lemma DictNeverWritten(tx: Transaction)
    ensures var empty := WaitlistAsWritten(map[], [], 0);
            var first := AddAsWritten(empty, tx);
            var second := AddAsWritten(first.1, tx);
            && first.0 && second.0
            && second.1.txs == [tx, tx]
            && LenAsWritten(second.1) == 0
            && PeekAsWritten(second.1) == Nil
  {
    var empty := WaitlistAsWritten(map[], [], 0);
    var first := AddAsWritten(empty, tx);
    assert first.1.txs == [tx] by {
      assert empty.txs[0..] == [];
    }
    assert first.1.txs[0..] == [tx];
    assert Insert([tx], tx) == [tx, tx];
  }

  /** `s` with slots `i` and `j` exchanged. */
  function SwapAt(s: seq<Transaction>, i: int, j: int): (r: seq<Transaction>)
    requires 0 <= i < |s| && 0 <= j < |s|
    ensures |r| == |s| && multiset(r) == multiset(s)
    ensures r[i] == s[j] && r[j] == s[i]
  {
    s[i := s[j]][j := s[i]]
  }

  /**
   * The loop of `partition` as written, from index `i` on: it runs over the whole slice, not
   * just `[low, high]`, and swaps every entry below the pivot to slot `start + 1`. `None`
   * when that slot is past the end, where the source panics.
   */
  function ScanAsWritten(s: seq<Transaction>, pivot: u64, start: int, i: nat): (r: Option<(seq<Transaction>, int)>)
    requires -1 <= start
    ensures r.Some? ==> |r.value.0| == |s| && multiset(r.value.0) == multiset(s) && start <= r.value.1
    decreases |s| - i
  {
    if i >= |s| then Some((s, start))
    else if s[i].nonce < pivot then
      if start + 1 < |s| then ScanAsWritten(SwapAt(s, start + 1, i), pivot, start + 1, i + 1)
      else None
    else ScanAsWritten(s, pivot, start, i + 1)
  }

  /**
   * `partition(array, low, high)` as written: on success, the rearranged slice and the
   * returned pivot index; `None` when an index runs past the end of the slice.
   */
  function PartitionAsWritten(s: seq<Transaction>, low: int, high: int): (r: Option<(seq<Transaction>, int)>)
    requires 0 <= low <= high < |s|
    ensures r.Some? ==> |r.value.0| == |s| && multiset(r.value.0) == multiset(s) && low <= r.value.1 < |s|
  {
    match ScanAsWritten(s, s[high].nonce, low - 1, 0)
    case None => None
    case Some((t, start)) =>
      if start + 1 < |t| then Some((SwapAt(t, start + 1, high), start + 1)) else None
  }

  /**
   * Waitlisting nonces 2, 3 and 1, in that order, makes the slice `[t2, t3, t1]`, and its
   * re-sort panics: `quicksort(0, 2)` partitions to `[t1, t3, t2]` with the pivot at 0, then
   * `quicksort(1, 2)` calls `partition(1, 2)`, whose scan also counts `t1` at index 0 and
   * runs the swap slot to index 3 of a three-entry slice. The corrected `Quicksort.Partition`
   * on the same range leaves index 0 alone and succeeds by its contract.
   */
  lemma PartitionScansWholeSlice(t1: Transaction, t2: Transaction, t3: Transaction)
    requires t1.nonce == 1 && t2.nonce == 2 && t3.nonce == 3
    ensures PartitionAsWritten([t2, t3, t1], 0, 2) == Some(([t1, t3, t2], 0))
    ensures PartitionAsWritten([t1, t3, t2], 1, 2) == None
  {
    var u := [t2, t3, t1];
    assert ScanAsWritten(u, 1, -1, 3) == Some((u, -1));
    assert ScanAsWritten(u, 1, -1, 2) == ScanAsWritten(u, 1, -1, 3);
    assert ScanAsWritten(u, 1, -1, 1) == ScanAsWritten(u, 1, -1, 2);
    assert ScanAsWritten(u, 1, -1, 0) == ScanAsWritten(u, 1, -1, 1);
    assert SwapAt(u, 0, 2) == [t1, t3, t2];
    var s := [t1, t3, t2];
    var s1 := SwapAt(s, 1, 0);
    assert s1 == [t3, t1, t2];
    var s2 := SwapAt(s1, 2, 1);
    assert s2 == [t3, t2, t1];
    assert ScanAsWritten(s2, 2, 2, 2) == None;
    assert ScanAsWritten(s1, 2, 1, 1) == ScanAsWritten(s2, 2, 2, 2);
    assert ScanAsWritten(s, 2, 0, 0) == ScanAsWritten(s1, 2, 1, 1);
  }
}
