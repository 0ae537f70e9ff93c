/**
 * What one `Sequencer.Add` call does, as a function on an abstract state: each account's
 * pending entries (least nonce first), the submit queue, and the global cursor `NextNonce`.
 * The class in the Sequencer module is proved to follow `AddStep`; the lemmas here state
 * what `AddStep` guarantees.
 */
module Admission {
  import opened Wrappers
  import opened Models
  import opened Ordering

  /** The congestion bound the source writes into `Sequencer.Add`. */
  const SourceCongestionThreshold: nat := 10

  /** The two errors `Sequencer.Add` returns; the source formats them as messages. */
  datatype AddError = StaleNonce(nonce: u64) | DuplicateNonce(nonce: u64)

  datatype State = State(pending: map<string, seq<Transaction>>, queue: seq<Transaction>, nextNonce: u64)

  /** The new state and the pair `(bool, error)` the call returns. */
  datatype Outcome = Outcome(state: State, admitted: bool, err: Option<AddError>)

  /** An account without a waitlist has nothing pending. */
  function PendingOf(s: State, account: string): (w: seq<Transaction>)
  {
    if account in s.pending then s.pending[account] else []
  }

  /**
   * The gate, in the source's order: a nonce below the cursor is stale; a nonce already
   * pending is a duplicate; otherwise the entry is waitlisted, and then nothing is released
   * when the queue holds more than `threshold` entries, when the waitlist is empty, or when
   * its least nonce is still above the cursor; else exactly that least entry is popped and
   * a copy of it appended to the queue.
   */
  function AddStep(s: State, threshold: nat, account: string, tx: Transaction): (r: Outcome)
    ensures r.state.nextNonce == s.nextNonce
    ensures r.admitted ==> r.err == None
  {
    if tx.nonce < s.nextNonce then
      Outcome(s, false, Some(StaleNonce(tx.nonce)))
    else
      var waiting := PendingOf(s, account);
      if tx.nonce in Nonces(waiting) then
        Outcome(s, false, Some(DuplicateNonce(tx.nonce)))
      else
        var inserted := Insert(waiting, tx);
        var held := s.(pending := s.pending[account := inserted]);
        if |s.queue| > threshold then
          Outcome(held, false, None)
        else if |inserted| == 0 then
          Outcome(held, false, None)
        else if s.nextNonce < inserted[0].nonce then
          Outcome(held, false, None)
        else
          var released := CopyTransaction(inserted[0]);
          Outcome(s.(pending := s.pending[account := inserted[1..]], queue := s.queue + [released]), true, None)
  }

  /** A call that waitlists `tx` and releases nothing: the queue is congested or the least nonce is above the cursor. */
  lemma HeldOutcome(s: State, threshold: nat, account: string, tx: Transaction)
    requires s.nextNonce <= tx.nonce && tx.nonce !in Nonces(PendingOf(s, account))
    requires |s.queue| > threshold || s.nextNonce < Insert(PendingOf(s, account), tx)[0].nonce
    ensures AddStep(s, threshold, account, tx)
            == Outcome(s.(pending := s.pending[account := Insert(PendingOf(s, account), tx)]), false, None)
  {
  }

  /** A call that waitlists `tx` and releases the least pending entry. */
  lemma ReleaseOutcome(s: State, threshold: nat, account: string, tx: Transaction)
    requires s.nextNonce <= tx.nonce && tx.nonce !in Nonces(PendingOf(s, account))
    requires |s.queue| <= threshold && Insert(PendingOf(s, account), tx)[0].nonce <= s.nextNonce
    ensures var inserted := Insert(PendingOf(s, account), tx);
            AddStep(s, threshold, account, tx)
            == Outcome(s.(pending := s.pending[account := inserted[1..]], queue := s.queue + [inserted[0]]), true, None)
  {
  }

  /** A waitlist as the sequencer keeps it: strictly sorted, nothing below the cursor. */
  ghost predicate WaitlistOk(w: seq<Transaction>, cursor: u64)
  {
    && StrictlySorted(w)
    && forall k :: 0 <= k < |w| ==> cursor <= w[k].nonce
  }

  /** Every waitlist is strictly sorted and holds no nonce below the cursor. */
  ghost predicate Inv(s: State)
  {
    forall a :: a in s.pending ==> WaitlistOk(s.pending[a], s.nextNonce)
  }

  /** A stale nonce is an error and changes nothing. */
  lemma StaleChangesNothing(s: State, threshold: nat, account: string, tx: Transaction)
    requires tx.nonce < s.nextNonce
    ensures AddStep(s, threshold, account, tx) == Outcome(s, false, Some(StaleNonce(tx.nonce)))
  {
  }

  /** A nonce already pending for the account is an error and changes nothing. */
  lemma DuplicateChangesNothing(s: State, threshold: nat, account: string, tx: Transaction)
    requires s.nextNonce <= tx.nonce
    requires exists t :: t in PendingOf(s, account) && t.nonce == tx.nonce
    ensures AddStep(s, threshold, account, tx) == Outcome(s, false, Some(DuplicateNonce(tx.nonce)))
  {
    NoncesSpec(PendingOf(s, account));
  }

  /** An error is returned exactly for a stale or duplicate nonce, and then nothing changes. */
  lemma ErrorsExactly(s: State, threshold: nat, account: string, tx: Transaction)
    ensures var r := AddStep(s, threshold, account, tx);
            && (r.err.Some? <==> tx.nonce < s.nextNonce || tx.nonce in Nonces(PendingOf(s, account)))
            && (r.err.Some? ==> r.state == s && !r.admitted)
  {
  }

  /** Without an error the entry is waitlisted; when nothing is released it stays there and the queue is as it was. */
  lemma HeldWhenNotAdmitted(s: State, threshold: nat, account: string, tx: Transaction)
    ensures var r := AddStep(s, threshold, account, tx);
            r.err == None && !r.admitted ==>
              && r.state.queue == s.queue
              && PendingOf(r.state, account) == Insert(PendingOf(s, account), tx)
              && tx in PendingOf(r.state, account)
  {
    InsertContains(PendingOf(s, account), tx);
  }

  /** The three benign refusals: congestion, an empty waitlist, a gap below the least pending nonce. */
  lemma RefusalsExactly(s: State, threshold: nat, account: string, tx: Transaction)
    requires s.nextNonce <= tx.nonce && tx.nonce !in Nonces(PendingOf(s, account))
    ensures var r := AddStep(s, threshold, account, tx);
            var inserted := Insert(PendingOf(s, account), tx);
            && r.err == None
            && (r.admitted <==> |s.queue| <= threshold && inserted[0].nonce <= s.nextNonce)
  {
  }

  /**
   * An admitted call popped exactly one entry, the least-nonce one, and appended a copy of
   * it to the queue; the rest of the account's entries remain, in order.
   */
  lemma AdmittedReleasesLeast(s: State, threshold: nat, account: string, tx: Transaction)
    requires AddStep(s, threshold, account, tx).admitted
    ensures var r := AddStep(s, threshold, account, tx);
            var inserted := Insert(PendingOf(s, account), tx);
            && r.err == None
            && r.state.queue == s.queue + [inserted[0]]
            && PendingOf(r.state, account) == inserted[1..]
            && |PendingOf(r.state, account)| == |PendingOf(s, account)|
  {
  }

  /** The queue only grows at its end, by at most one entry per call. */
  lemma AtMostOneReleased(s: State, threshold: nat, account: string, tx: Transaction)
    ensures var r := AddStep(s, threshold, account, tx);
            && |s.queue| <= |r.state.queue| <= |s.queue| + 1
            && r.state.queue[..|s.queue|] == s.queue
            && (|r.state.queue| == |s.queue| + 1 <==> r.admitted)
  {
  }

  /** Other accounts' waitlists and the cursor are never touched. */
  lemma OthersUntouched(s: State, threshold: nat, account: string, tx: Transaction, other: string)
    requires other != account
    ensures var r := AddStep(s, threshold, account, tx);
            && PendingOf(r.state, other) == PendingOf(s, other)
            && (other in r.state.pending <==> other in s.pending)
            && r.state.nextNonce == s.nextNonce
  {
  }

  /**
   * Nothing is lost or duplicated: the account's pending entries plus the queue gain
   * exactly `tx` when it is accepted, and nothing otherwise.
   */
  lemma {:induction false} NothingLost(s: State, threshold: nat, account: string, tx: Transaction)
    ensures var r := AddStep(s, threshold, account, tx);
            multiset(PendingOf(r.state, account)) + multiset(r.state.queue)
              == multiset(PendingOf(s, account)) + multiset(s.queue)
                 + (if r.err == None then multiset{tx} else multiset{})
  {
    var r := AddStep(s, threshold, account, tx);
    var waiting := PendingOf(s, account);
    if r.admitted {
      var inserted := Insert(waiting, tx);
      MultisetOfTail(inserted);
      assert multiset(s.queue + [CopyTransaction(inserted[0])]) == multiset(s.queue) + multiset{inserted[0]};
    }
  }

  /** `s` cut down to `account`: that account's pending entries, the queue and the cursor. */
  function Restrict(s: State, account: string): (r: State)
    ensures PendingOf(r, account) == PendingOf(s, account)
    ensures r.queue == s.queue && r.nextNonce == s.nextNonce && r.pending.Keys == {account}
  {
    State(map[account := PendingOf(s, account)], s.queue, s.nextNonce)
  }

  /**
   * A call depends on, and changes, only the caller's account, the queue and the cursor:
   * run on the state cut down to that account it returns the same pair and leaves the same
   * queue, cursor and account waitlist. With `OthersUntouched` this lifts a call specified
   * per account to the whole state.
   */
  lemma AddStepIsLocal(s: State, threshold: nat, account: string, tx: Transaction)
    ensures var r := AddStep(s, threshold, account, tx);
            var l := AddStep(Restrict(s, account), threshold, account, tx);
            && r.admitted == l.admitted && r.err == l.err
            && r.state.queue == l.state.queue && r.state.nextNonce == l.state.nextNonce
            && PendingOf(r.state, account) == PendingOf(l.state, account)
  {
  }

  /** Inserting an admissible entry keeps a waitlist in shape. */
  lemma InsertKeepsOk(w: seq<Transaction>, tx: Transaction, cursor: u64)
    requires WaitlistOk(w, cursor) && cursor <= tx.nonce && tx.nonce !in Nonces(w)
    ensures WaitlistOk(Insert(w, tx), cursor)
  {
    InsertKeepsOrder(w, tx);
    forall k | 0 <= k < |Insert(w, tx)| ensures cursor <= Insert(w, tx)[k].nonce {
      InsertElements(w, tx, k);
    }
  }

  /** Popping the least entry keeps a waitlist in shape. */
  lemma TailKeepsOk(w: seq<Transaction>, cursor: u64)
    requires WaitlistOk(w, cursor) && w != []
    ensures WaitlistOk(w[1..], cursor)
  {
    var t := w[1..];
    forall i, j | 0 <= i < j < |t| ensures t[i].nonce < t[j].nonce {
      assert t[i] == w[i + 1] && t[j] == w[j + 1];
    }
    forall k | 0 <= k < |t| ensures cursor <= t[k].nonce {
      assert t[k] == w[k + 1];
    }
  }

  /** `AddStep` keeps every waitlist strictly sorted and at or above the cursor. */
  lemma AddStepKeepsInv(s: State, threshold: nat, account: string, tx: Transaction)
    requires Inv(s)
    ensures Inv(AddStep(s, threshold, account, tx).state)
  {
    var r := AddStep(s, threshold, account, tx);
    var waiting := PendingOf(s, account);
    if r.err == None {
      var inserted := Insert(waiting, tx);
      assert WaitlistOk(waiting, s.nextNonce);
      InsertKeepsOk(waiting, tx, s.nextNonce);
      if r.admitted {
        TailKeepsOk(inserted, s.nextNonce);
      }
    }
  }

  /**
   * With the cursor fixed, every released nonce is the cursor itself: admission refuses
   * smaller nonces and the gate refuses larger ones.
   */
  lemma ReleasedNonceIsCursor(s: State, threshold: nat, account: string, tx: Transaction)
    requires Inv(s)
    requires AddStep(s, threshold, account, tx).admitted
    ensures var q := AddStep(s, threshold, account, tx).state.queue;
            q[|q| - 1].nonce == s.nextNonce
  {
    var waiting := PendingOf(s, account);
    InsertElements(waiting, tx, 0);
    if Insert(waiting, tx)[0] != tx {
      var k :| 0 <= k < |waiting| && waiting[k] == Insert(waiting, tx)[0];
    }
  }

  /**
   * Because the cursor never advances, a nonce that was released can be submitted and
   * released again: the waitlist forgot it when it was popped.
   */
  lemma ReleasedNonceCanBeReleasedAgain(tx: Transaction)
    requires tx.nonce == 0
    ensures var s0 := State(map[], [], 0);
            var r1 := AddStep(s0, SourceCongestionThreshold, tx.accountId, tx);
            var r2 := AddStep(r1.state, SourceCongestionThreshold, tx.accountId, tx);
            && r1.admitted && r2.admitted
            && r2.state.queue == [tx, tx]
  {
    var s0 := State(map[], [], 0);
    assert Insert([], tx) == [tx];
    var r1 := AddStep(s0, SourceCongestionThreshold, tx.accountId, tx);
    assert PendingOf(r1.state, tx.accountId) == [];
  }
}
