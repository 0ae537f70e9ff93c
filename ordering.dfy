/**
 * The nonce order a waitlist keeps, stated on sequences of transactions: which nonces a
 * sequence holds, when it is sorted, the sorted insertion its re-sort amounts to, and when
 * an in-place sort of a range only permutes that range.
 */
module Ordering {
  import opened Models

  /** The nonces held by `s`: the key set of a waitlist's nonce dictionary. */
  function Nonces(s: seq<Transaction>): (r: set<u64>)
  {
    if s == [] then {} else {s[0].nonce} + Nonces(s[1..])
  }

  /** `Nonces` collects the nonce of every entry and nothing else. */
  lemma {:induction false} NoncesSpec(s: seq<Transaction>)
    ensures Nonces(s) == set t | t in s :: t.nonce
  {
    if s != [] {
      NoncesSpec(s[1..]);
      assert forall t :: t in s <==> t == s[0] || t in s[1..];
    }
  }

  /** Ascending by nonce with no nonce twice: the order of a waitlist's pending entries. */
  ghost predicate StrictlySorted(s: seq<Transaction>)
  {
    forall i, j :: 0 <= i < j < |s| ==> s[i].nonce < s[j].nonce
  }

  /** `s[lo..hi]` ascending by nonce, ties allowed: what the quicksort promises. */
  ghost predicate SortedBetween(s: seq<Transaction>, lo: int, hi: int)
    requires 0 <= lo <= hi <= |s|
  {
    forall i, j :: lo <= i < j < hi ==> s[i].nonce <= s[j].nonce
  }

  /** `t` is a rearrangement of `s` that moved nothing outside `[lo, hi)`. */
  ghost predicate PermutedWithin(s: seq<Transaction>, t: seq<Transaction>, lo: int, hi: int)
  {
    && |s| == |t|
    && multiset(s) == multiset(t)
    && forall k :: 0 <= k < |s| && (k < lo || hi <= k) ==> s[k] == t[k]
  }

  /**
   * `tx` placed in front of the first entry with a larger nonce. For a strictly sorted `s`
   * that does not hold `tx`'s nonce this is the only sorted arrangement of `s` plus `tx`
   * (see `InsertKeepsOrder` and `SortedUnique`), so it is what appending and re-sorting yields.
   */
  function Insert(s: seq<Transaction>, tx: Transaction): (r: seq<Transaction>)
    ensures |r| == |s| + 1
    ensures multiset(r) == multiset(s) + multiset{tx}
  {
    if s == [] || tx.nonce < s[0].nonce then [tx] + s
    else
      assert s == [s[0]] + s[1..];
      [s[0]] + Insert(s[1..], tx)
  }

  /** Inserting adds exactly the new nonce. */
  lemma InsertNonces(s: seq<Transaction>, tx: Transaction)
    ensures Nonces(Insert(s, tx)) == Nonces(s) + {tx.nonce}
  {
    var r := Insert(s, tx);
    NoncesSpec(s);
    NoncesSpec(r);
    forall n | n in Nonces(r) ensures n in Nonces(s) + {tx.nonce} {
      var x :| x in r && x.nonce == n;
      assert x in multiset(r);
    }
    assert tx in multiset(r);
    forall n | n in Nonces(s) ensures n in Nonces(r) {
      var x :| x in s && x.nonce == n;
      assert x in multiset(s);
      assert x in multiset(r);
    }
  }

  /** `Insert(s, tx)` holds `tx` and every entry of `s`. */
  lemma InsertContains(s: seq<Transaction>, tx: Transaction)
    ensures tx in Insert(s, tx)
    ensures forall x :: x in s ==> x in Insert(s, tx)
  {
    var r := Insert(s, tx);
    assert tx in multiset(r);
    forall x | x in s ensures x in r {
      assert x in multiset(s);
      assert x in multiset(r);
    }
  }

  /** Every entry of `Insert(s, tx)` is `tx` or an entry of `s`. */
  lemma InsertElements(s: seq<Transaction>, tx: Transaction, k: int)
    requires 0 <= k < |Insert(s, tx)|
    ensures Insert(s, tx)[k] == tx || Insert(s, tx)[k] in s
  {
    var r := Insert(s, tx);
    assert r[k] in multiset(r);
  }

  /** An entry below every nonce of a strictly sorted sequence can go in front of it. */
  lemma ConsKeepsOrder(x: Transaction, rest: seq<Transaction>)
    requires StrictlySorted(rest)
    requires forall k :: 0 <= k < |rest| ==> x.nonce < rest[k].nonce
    ensures StrictlySorted([x] + rest)
  {
    var r := [x] + rest;
    forall i, j | 0 <= i < j < |r| ensures r[i].nonce < r[j].nonce {
      assert r[j] == rest[j - 1];
      if i > 0 {
        assert r[i] == rest[i - 1];
      }
    }
  }

  /** A strictly sorted sequence that lacks `tx`'s nonce stays strictly sorted when `tx` is inserted. */
  lemma {:induction false} InsertKeepsOrder(s: seq<Transaction>, tx: Transaction)
    requires StrictlySorted(s)
    requires tx.nonce !in Nonces(s)
    ensures StrictlySorted(Insert(s, tx))
  {
    if s == [] || tx.nonce < s[0].nonce {
      ConsKeepsOrder(tx, s);
    } else {
      assert s[0] in s;
      var tail := s[1..];
      InsertKeepsOrder(tail, tx);
      var rest := Insert(tail, tx);
      forall k | 0 <= k < |rest| ensures s[0].nonce < rest[k].nonce {
        InsertElements(tail, tx, k);
      }
      ConsKeepsOrder(s[0], rest);
    }
  }

  /** In a non-empty strictly sorted sequence the first entry has the least nonce. */
  lemma HeadIsMinimum(s: seq<Transaction>)
    requires StrictlySorted(s) && s != []
    ensures forall t :: t in s ==> s[0].nonce <= t.nonce
  {
  }

  /** Two sorted arrangements of the same elements, one of them strict, start alike. */
  lemma SameHead(s: seq<Transaction>, t: seq<Transaction>)
    requires SortedBetween(s, 0, |s|)
    requires StrictlySorted(t)
    requires multiset(s) == multiset(t)
    requires s != [] && t != []
    ensures s[0] == t[0]
  {
    assert s[0] in multiset(t);
    var j :| 0 <= j < |t| && t[j] == s[0];
    assert t[0] in multiset(s);
    var i :| 0 <= i < |s| && s[i] == t[0];
    assert s[0].nonce <= s[i].nonce;
    assert j == 0;
  }

  /**
   * A sorted sequence with the same elements as a strictly sorted one is that sequence:
   * the order of distinct nonces leaves no choice.
   */
  lemma {:induction false} SortedUnique(s: seq<Transaction>, t: seq<Transaction>)
    requires SortedBetween(s, 0, |s|)
    requires StrictlySorted(t)
    requires multiset(s) == multiset(t)
    ensures s == t
  {
    assert |s| == |multiset(s)| == |multiset(t)| == |t|;
    if s != [] {
      SameHead(s, t);
      var s', t' := s[1..], t[1..];
      assert SortedBetween(s', 0, |s'|) by {
        forall i, j | 0 <= i < j < |s'| ensures s'[i].nonce <= s'[j].nonce {
          assert s'[i] == s[i + 1] && s'[j] == s[j + 1];
        }
      }
      assert StrictlySorted(t') by {
        forall i, j | 0 <= i < j < |t'| ensures t'[i].nonce < t'[j].nonce {
          assert t'[i] == t[i + 1] && t'[j] == t[j + 1];
        }
      }
      MultisetOfTail(s);
      MultisetOfTail(t);
      SortedUnique(s', t');
      assert s == [s[0]] + s' && t == [t[0]] + t';
    }
  }

  /** The first entry and the rest make up the whole. */
  lemma MultisetOfTail(s: seq<Transaction>)
    requires s != []
    ensures multiset(s[1..]) == multiset(s) - multiset{s[0]}
  {
    assert s == [s[0]] + s[1..];
  }

  /** A permutation of a range moves the range's entries only among themselves. */
  lemma PermutedRange(s: seq<Transaction>, t: seq<Transaction>, lo: int, hi: int)
    requires 0 <= lo <= hi <= |s|
    requires PermutedWithin(s, t, lo, hi)
    ensures multiset(s[lo..hi]) == multiset(t[lo..hi])
  {
    MultisetSplit(s, lo, hi);
    MultisetSplit(t, lo, hi);
    assert s[..lo] == t[..lo] by {
      forall k | 0 <= k < lo ensures s[..lo][k] == t[..lo][k] {
      }
    }
    assert s[hi..] == t[hi..] by {
      forall k | 0 <= k < |s| - hi ensures s[hi..][k] == t[hi..][k] {
        assert s[hi..][k] == s[hi + k];
      }
    }
    var mf, mb := multiset(s[..lo]), multiset(s[hi..]);
    var mm, mm' := multiset(s[lo..hi]), multiset(t[lo..hi]);
    forall x ensures mm[x] == mm'[x] {
      assert multiset(s)[x] == mf[x] + mm[x] + mb[x];
      assert multiset(t)[x] == mf[x] + mm'[x] + mb[x];
    }
  }

  /** The elements of a sequence are those of its three parts around a range. */
  lemma MultisetSplit(s: seq<Transaction>, lo: int, hi: int)
    requires 0 <= lo <= hi <= |s|
    ensures multiset(s) == multiset(s[..lo]) + multiset(s[lo..hi]) + multiset(s[hi..])
  {
    assert s == s[..lo] + s[lo..hi] + s[hi..];
  }

  /** A sorted range, cut out, is a sorted sequence. */
  lemma SortedSlice(s: seq<Transaction>, lo: int, hi: int)
    requires 0 <= lo <= hi <= |s|
    requires SortedBetween(s, lo, hi)
    ensures SortedBetween(s[lo..hi], 0, hi - lo)
  {
    var r := s[lo..hi];
    forall i, j | 0 <= i < j < hi - lo ensures r[i].nonce <= r[j].nonce {
      assert r[i] == s[lo + i] && r[j] == s[lo + j];
    }
  }

  /** A bound that holds of every nonce in a range still holds after the range is permuted. */
  lemma PermutedKeepsBounds(s: seq<Transaction>, t: seq<Transaction>, lo: int, hi: int, p: u64)
    requires 0 <= lo <= hi <= |s|
    requires PermutedWithin(s, t, lo, hi)
    ensures (forall k :: lo <= k < hi ==> s[k].nonce < p) ==> (forall k :: lo <= k < hi ==> t[k].nonce < p)
    ensures (forall k :: lo <= k < hi ==> s[k].nonce >= p) ==> (forall k :: lo <= k < hi ==> t[k].nonce >= p)
  {
    PermutedRange(s, t, lo, hi);
    forall k | lo <= k < hi ensures exists j :: lo <= j < hi && t[k] == s[j] {
      assert t[k] == t[lo..hi][k - lo];
      assert t[k] in multiset(s[lo..hi]);
      var j :| 0 <= j < hi - lo && s[lo..hi][j] == t[k];
      assert s[lo + j] == t[k];
    }
  }
}
