/**
 * `SortedWaitlist`: one account's holding buffer. Entries are appended to a backing slice
 * that is re-sorted from the low-water mark `beginIndex`; a nonce dictionary detects
 * duplicates and counts what is pending. Popping advances `beginIndex`, so popped entries
 * stay in the slice below it and are never looked at again.
 */
module Waitlist {
  import opened Wrappers
  import opened Models
  import opened Ordering
  import opened Quicksort

  /**
   * What a waitlist keeps true of its pending entries `s`: they are in strictly ascending
   * nonce order, and `dict` maps each of their nonces to the entry carrying it and holds
   * nothing else (it has no more keys than `s` has entries; see `KeysAreNonces`).
   */
  ghost predicate Tracks(dict: map<u64, Transaction>, s: seq<Transaction>)
  {
    StrictlySorted(s) && Covers(dict, s) && |dict| == |s|
  }

  /** `dict` maps the nonce of every entry of `s` to that entry. */
  ghost predicate Covers(dict: map<u64, Transaction>, s: seq<Transaction>)
  {
    forall k :: 0 <= k < |s| ==> s[k].nonce in dict && dict[s[k].nonce] == s[k]
  }

  /** Distinct nonces: a strictly sorted sequence holds as many nonces as entries. */
  lemma {:induction false} NoncesCount(s: seq<Transaction>)
    requires StrictlySorted(s)
    ensures |Nonces(s)| == |s|
  {
    if s != [] {
      TailStaysSorted(s);
      NoncesCount(s[1..]);
      NoncesSpec(s[1..]);
      assert s[0].nonce !in Nonces(s[1..]);
    }
  }

  /** Dropping the first entry keeps a sequence strictly sorted. */
  lemma TailStaysSorted(s: seq<Transaction>)
    requires StrictlySorted(s) && s != []
    ensures StrictlySorted(s[1..])
  {
    forall i, j | 0 <= i < j < |s[1..]| ensures s[1..][i].nonce < s[1..][j].nonce {
      assert s[1..][i] == s[i + 1] && s[1..][j] == s[j + 1];
    }
  }

  /** A tracking dictionary's keys are exactly the pending nonces. */
  lemma KeysAreNonces(dict: map<u64, Transaction>, s: seq<Transaction>)
    requires Tracks(dict, s)
    ensures Indexes(dict, s)
  {
    NoncesSpec(s);
    NoncesCount(s);
    assert Nonces(s) <= dict.Keys;
    assert |dict.Keys - Nonces(s)| == 0;
  }

  /** `dict` maps exactly the nonces of `s`, each to an entry of `s` that carries it. */
  ghost predicate Indexes(dict: map<u64, Transaction>, s: seq<Transaction>)
  {
    dict.Keys == Nonces(s) && Covers(dict, s)
  }

  /** After an append and a re-sort the pending entries are the old ones with `tx` inserted in order. */
  lemma SortedAppendIsInsert(before: seq<Transaction>, tx: Transaction, after: seq<Transaction>)
    requires StrictlySorted(before) && tx.nonce !in Nonces(before)
    requires SortedBetween(after, 0, |after|)
    requires multiset(after) == multiset(before + [tx])
    ensures after == Insert(before, tx)
    ensures StrictlySorted(after)
  {
    InsertKeepsOrder(before, tx);
    SortedUnique(after, Insert(before, tx));
  }

  /**
   * The slice after `append` and `Sort(beginIndex)`: the popped prefix is as it was and the
   * pending part is the old pending part with `tx` inserted in order.
   */
  lemma AppendThenSort(before: seq<Transaction>, popped: seq<Transaction>, tx: Transaction,
                       appended: seq<Transaction>, sorted: seq<Transaction>, begin: nat, size: nat)
    requires begin < size <= |appended|
    requires StrictlySorted(before) && tx.nonce !in Nonces(before)
    requires appended[..begin] == popped && appended[begin..size] == before + [tx]
    requires PermutedWithin(appended, sorted, begin, size)
    requires SortedBetween(sorted, begin, size)
    ensures sorted[..begin] == popped
    ensures sorted[begin..size] == Insert(before, tx)
    ensures StrictlySorted(sorted[begin..size])
  {
    PermutedRange(appended, sorted, begin, size);
    SortedSlice(sorted, begin, size);
    SortedAppendIsInsert(before, tx, sorted[begin..size]);
    forall k | 0 <= k < begin ensures sorted[k] == popped[k] {
      assert appended[k] == sorted[k];
    }
  }

  /** Recording a fresh nonce keeps the dictionary in step with the sorted insertion. */
  lemma IndexesAfterInsert(dict: map<u64, Transaction>, s: seq<Transaction>, tx: Transaction)
    requires Indexes(dict, s) && tx.nonce !in dict
    ensures Indexes(dict[tx.nonce := tx], Insert(s, tx))
    ensures |dict[tx.nonce := tx]| == |dict| + 1
  {
    var r := Insert(s, tx);
    var d := dict[tx.nonce := tx];
    assert d.Keys == Nonces(r) by {
      InsertNonces(s, tx);
    }
    forall k | 0 <= k < |r| ensures r[k].nonce in d && d[r[k].nonce] == r[k] {
      InsertElements(s, tx, k);
      if r[k] != tx {
        var j :| 0 <= j < |s| && s[j] == r[k];
      }
    }
  }

  /** In a strictly sorted sequence no later entry shares the first entry's nonce. */
  lemma NoncesAfterHead(s: seq<Transaction>)
    requires StrictlySorted(s) && s != []
    ensures Nonces(s[1..]) == Nonces(s) - {s[0].nonce}
  {
    NoncesSpec(s[1..]);
  }

  /** Forgetting the least nonce keeps the dictionary in step with the remaining entries. */
  lemma IndexesAfterPop(dict: map<u64, Transaction>, s: seq<Transaction>)
    requires StrictlySorted(s) && s != [] && Indexes(dict, s)
    ensures Indexes(dict - {s[0].nonce}, s[1..])
    ensures |dict - {s[0].nonce}| == |dict| - 1
  {
    NoncesAfterHead(s);
    var d := dict - {s[0].nonce};
    assert d.Keys == dict.Keys - {s[0].nonce};
    forall k | 0 <= k < |s[1..]| ensures s[1..][k].nonce in d && d[s[1..][k].nonce] == s[1..][k] {
      assert s[1..][k] == s[k + 1];
    }
  }

  /** Recording a fresh nonce and inserting its entry in order keeps the two in step. */
  lemma TracksAfterInsert(dict: map<u64, Transaction>, s: seq<Transaction>, tx: Transaction)
    requires Tracks(dict, s) && tx.nonce !in dict
    ensures Tracks(dict[tx.nonce := tx], Insert(s, tx))
  {
    KeysAreNonces(dict, s);
    InsertKeepsOrder(s, tx);
    IndexesAfterInsert(dict, s, tx);
  }

  /** Forgetting the least nonce and dropping its entry keeps the two in step. */
  lemma TracksAfterPop(dict: map<u64, Transaction>, s: seq<Transaction>)
    requires Tracks(dict, s) && s != []
    ensures Tracks(dict - {s[0].nonce}, s[1..])
  {
    KeysAreNonces(dict, s);
    IndexesAfterPop(dict, s);
    TailStaysSorted(s);
  }

  class SortedWaitlist {
    /** Never read by the source; kept as the record of whose buffer this is. */
    var accountId: string
    /** Nonce to entry, for the pending entries. */
    var dict: map<u64, Transaction>
    /** The backing store of the Go slice: the slice is `txs[..size]`, `txs.Length` its capacity. */
    var txs: array<Transaction>
    var size: nat
    /** Low-water mark: `txs[..beginIndex]` were popped, `txs[beginIndex..size]` are pending. */
    var beginIndex: nat
    /** The pending entries, least nonce first. */
    ghost var Contents: seq<Transaction>
    ghost var Repr: set<object>

    ghost predicate Valid()
      reads this, Repr
      ensures Valid() ==> this in Repr
    {
      && Repr == {this, txs}
      && beginIndex <= size <= txs.Length
      && Contents == txs[beginIndex..size]
      && Tracks(dict, Contents)
    }

    /** The zero value the source works with: no entries, an empty dictionary, mark at 0. */
    constructor (accountId: string)
      ensures Valid() && fresh(Repr)
      ensures Contents == [] && dict == map[] && beginIndex == 0 && size == 0
      ensures this.accountId == accountId
    {
      this.accountId := accountId;
      dict := map[];
      txs := new Transaction[0];
      size := 0;
      beginIndex := 0;
      Contents := [];
      Repr := {this, txs};
    }

    /**
     * Go's `append` on the slice: writes `tx` after the last entry, first moving the
     * entries to a larger backing array when the current one is full.
     */
    method Append(tx: Transaction)
      requires Repr == {this, txs} && size <= txs.Length
      modifies Repr
      ensures Repr == {this, txs} && fresh(Repr - old(Repr))
      ensures size == old(size) + 1 && size <= txs.Length
      ensures txs[..size] == old(txs[..size]) + [tx]
      ensures dict == old(dict) && beginIndex == old(beginIndex) && accountId == old(accountId)
      ensures Contents == old(Contents)
    {
      if size == txs.Length {
        var grown := new Transaction[2 * txs.Length + 1];
        var i := 0;
        while i < size
          invariant 0 <= i <= size
          invariant grown[..i] == txs[..i]
          modifies grown
        {
          grown[i] := txs[i];
          i := i + 1;
        }
        txs := grown;
        Repr := {this, txs};
      }
      txs[size] := tx;
      size := size + 1;
    }

    /**
     * Rejects a nonce that is already pending, leaving everything as it was; otherwise
     * appends `tx`, re-sorts the pending part of the slice and records the nonce.
     * The source never records the nonce in `dict` (sequencer.go:26-28); this model does,
     * as the duplicate check and `Len` presuppose.
     */
    method Add(tx: Transaction) returns (added: bool)
      requires Valid()
      modifies Repr
      ensures Valid() && fresh(Repr - old(Repr))
      ensures added <==> tx.nonce !in old(Nonces(Contents))
      ensures !added ==> unchanged(this) && unchanged(old(txs))
      ensures added ==> Contents == Insert(old(Contents), tx)
      ensures added ==> dict == old(dict)[tx.nonce := tx] && size == old(size) + 1
      ensures beginIndex == old(beginIndex) && accountId == old(accountId)
      ensures txs[..beginIndex] == old(txs[..beginIndex])
    {
      KeysAreNonces(dict, Contents);
      if tx.nonce in dict {
        return false;
      }
      AppendAndSort(tx);
      added := true;
    }

    /** The accepting half of `Add`: append, re-sort from the mark, record the nonce. */
    method AppendAndSort(tx: Transaction)
      requires Valid() && tx.nonce !in dict
      modifies Repr
      ensures Valid() && fresh(Repr - old(Repr))
      ensures Contents == Insert(old(Contents), tx)
      ensures dict == old(dict)[tx.nonce := tx] && size == old(size) + 1
      ensures beginIndex == old(beginIndex) && accountId == old(accountId)
      ensures txs[..beginIndex] == old(txs[..beginIndex])
    {
      KeysAreNonces(dict, Contents);
      TracksAfterInsert(dict, Contents, tx);
      SortIn(tx);
      dict := dict[tx.nonce := tx];
      Contents := txs[beginIndex..size];
    }

    /**
     * `append` followed by `Sort(beginIndex)` on a pending part that is strictly sorted and
     * lacks `tx`'s nonce: the popped prefix stays, the pending part gains `tx` in order.
     */
    method SortIn(tx: Transaction)
      requires Repr == {this, txs} && beginIndex <= size <= txs.Length
      requires StrictlySorted(txs[beginIndex..size]) && tx.nonce !in Nonces(txs[beginIndex..size])
      modifies Repr
      ensures Repr == {this, txs} && fresh(Repr - old(Repr))
      ensures size == old(size) + 1 && size <= txs.Length
      ensures dict == old(dict) && beginIndex == old(beginIndex) && accountId == old(accountId)
      ensures Contents == old(Contents)
      ensures txs[..beginIndex] == old(txs[..beginIndex])
      ensures txs[beginIndex..size] == Insert(old(txs[beginIndex..size]), tx)
    {
      ghost var before := txs[beginIndex..size];
      ghost var popped := txs[..beginIndex];
      Append(tx);
      ghost var appended := txs[..];
      assert appended[beginIndex..size] == before + [tx] && appended[..beginIndex] == popped by {
        assert appended[..size] == old(txs[..size]) + [tx];
      }
      Sort(txs, size, beginIndex);
      AppendThenSort(before, popped, tx, appended, txs[..], beginIndex, size);
    }

    /** The pending entry with the least nonce, or nothing when none is pending. */
    method Peek() returns (r: Option<Transaction>)
      requires Valid()
      ensures Contents == [] ==> r == None
      ensures Contents != [] ==> r == Some(Contents[0])
      ensures r.Some? ==> forall t :: t in Contents ==> r.value.nonce <= t.nonce
    {
      if |dict| == 0 {
        return None;
      }
      r := Some(txs[beginIndex]);
      HeadIsMinimum(Contents);
    }

    /**
     * Hands out a copy of the least-nonce pending entry, forgets its nonce and advances the
     * mark past it; with nothing pending, returns nothing and changes nothing.
     */
    method Pop() returns (r: Option<Transaction>)
      requires Valid()
      modifies this
      ensures Valid() && Repr == old(Repr)
      ensures txs == old(txs) && size == old(size) && accountId == old(accountId)
      ensures old(Contents) == [] ==> r == None && unchanged(this)
      ensures old(Contents) != [] ==>
                && r == Some(old(Contents)[0])
                && Contents == old(Contents)[1..]
                && dict == old(dict) - {r.value.nonce}
                && beginIndex == old(beginIndex) + 1
    {
      if |dict| == 0 {
        return None;
      }
      TracksAfterPop(dict, Contents);
      var tx := CopyTransaction(txs[beginIndex]);
      dict := dict - {txs[beginIndex].nonce};
      beginIndex := beginIndex + 1;
      Contents := Contents[1..];
      r := Some(tx);
    }

    /** The number of pending entries. */
    method Len() returns (n: int)
      requires Valid()
      ensures n == |Contents|
    {
      n := |dict|;
    }
  }
}
