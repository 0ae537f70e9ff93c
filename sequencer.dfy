/**
 * `Sequencer`: the admission gate in front of the submit queue. It keeps one waitlist per
 * account and a single cursor `nextNonce`; `Add` waitlists an entry and releases at most
 * the least pending entry of that account into the submit queue. Each call is taken to run
 * under the sequencer's lock, so it is one atomic step. A call touches one account's
 * waitlist only, and is specified on that account: `Local(account)` is the part of the
 * abstract state it reads and writes, and the call is `Admission.AddStep` on it.
 */
module Sequencing {
  import opened Wrappers
  import opened Models
  import opened Ordering
  import opened Waitlist
  import opened Admission

  /** Overwriting the one entry of a one-entry map. */
  lemma Overwrite(k: string, v: seq<Transaction>, v': seq<Transaction>)
    ensures map[k := v][k := v'] == map[k := v']
  {
  }

  class Sequencer {
    /** Account id to that account's waitlist. */
    var waitlists: map<string, SortedWaitlist>
    /** What was sent into the submit channel, oldest first. */
    var submitQueue: seq<Transaction>
    /** The one cursor shared by all accounts; nothing advances it. */
    var nextNonce: u64
    /** A queue longer than this blocks releases. */
    const congestionThreshold: nat

    /** The objects that make up `account`'s waitlist: the waitlist and its backing array. */
    ghost function Footprint(account: string): set<object>
      reads this, if account in waitlists then {waitlists[account]} else {}
    {
      if account in waitlists then {waitlists[account]} + waitlists[account].Repr else {}
    }

    /** `account`'s waitlist, when it has one, is valid and holds nothing below the cursor. */
    ghost predicate ReadyFor(account: string)
      reads this, Footprint(account)
    {
      account in waitlists ==>
        && waitlists[account].Valid()
        && WaitlistOk(waitlists[account].Contents, nextNonce)
    }

    /** `account`'s pending entries, least nonce first; none when it has no waitlist yet. */
    ghost function Held(account: string): seq<Transaction>
      reads this, Footprint(account)
    {
      if account in waitlists then waitlists[account].Contents else []
    }

    /**
     * The state as `AddStep` sees it, cut down to `account`: its pending entries, the
     * queue, the cursor. An account without a waitlist and one with an empty waitlist are
     * the same here, as they are to `AddStep`.
     */
    ghost function Local(account: string): State
      reads this, Footprint(account)
    {
      State(map[account := Held(account)], submitQueue, nextNonce)
    }

    /** `NewSequencer`: no waitlists, an empty queue, the cursor at zero. */
    constructor (congestionThreshold: nat)
      ensures waitlists == map[] && submitQueue == [] && nextNonce == 0
      ensures this.congestionThreshold == congestionThreshold
      ensures forall a :: ReadyFor(a) && Local(a) == State(map[a := []], [], 0)
    {
      waitlists := map[];
      submitQueue := [];
      nextNonce := 0;
      this.congestionThreshold := congestionThreshold;
    }

    /**
     * Waitlists `tx` for `account` and releases that account's least pending entry when the
     * queue is not congested and that entry's nonce is not above the cursor. Returns whether
     * an entry was released, or the error for a stale or duplicate nonce. An account without
     * a waitlist gets a new, empty one (the source dereferences nil there).
     */
    method Add(account: string, tx: Transaction) returns (admitted: bool, err: Option<AddError>)
      requires ReadyFor(account)
      modifies this, Footprint(account)
      ensures ReadyFor(account) && fresh(Footprint(account) - old(Footprint(account)))
      ensures Outcome(Local(account), admitted, err) == AddStep(old(Local(account)), congestionThreshold, account, tx)
      ensures account in old(waitlists) ==> account in waitlists && waitlists[account] == old(waitlists[account])
      ensures forall a :: a != account ==> (a in waitlists <==> a in old(waitlists))
      ensures forall a :: a != account && a in waitlists ==> waitlists[a] == old(waitlists[a])
      ensures nextNonce == old(nextNonce)
    {
      if tx.nonce < nextNonce {
        return false, Some(StaleNonce(tx.nonce));
      }
      var w := WaitlistFor(account);
      admitted, err := AddTo(account, w, tx);
    }

    /** `Add` past the stale check, on `account`'s waitlist `w`. */
    method AddTo(ghost account: string, w: SortedWaitlist, tx: Transaction) returns (admitted: bool, err: Option<AddError>)
      requires w.Valid() && this !in w.Repr && WaitlistOk(w.Contents, nextNonce) && nextNonce <= tx.nonce
      modifies this, w.Repr
      ensures w.Valid() && this !in w.Repr && fresh(w.Repr - old(w.Repr)) && WaitlistOk(w.Contents, nextNonce)
      ensures Outcome(State(map[account := w.Contents], submitQueue, nextNonce), admitted, err)
              == AddStep(State(map[account := old(w.Contents)], old(submitQueue), nextNonce), congestionThreshold, account, tx)
      ensures waitlists == old(waitlists) && nextNonce == old(nextNonce)
    {
      ghost var s := State(map[account := w.Contents], submitQueue, nextNonce);
      ghost var waiting := w.Contents;
      var isNewNonce := w.Add(tx);
      if !isNewNonce {
        return false, Some(DuplicateNonce(tx.nonce));
      }
      ghost var inserted := Insert(waiting, tx);
      InsertKeepsOk(waiting, tx, nextNonce);
      Overwrite(account, waiting, inserted);
      if |submitQueue| > congestionThreshold {
        HeldOutcome(s, congestionThreshold, account, tx);
        return false, None;
      }
      admitted := Release(w);
      err := None;
      if admitted {
        ReleaseOutcome(s, congestionThreshold, account, tx);
        Overwrite(account, waiting, inserted[1..]);
      } else {
        HeldOutcome(s, congestionThreshold, account, tx);
      }
    }

    /**
     * `s.Waitlists[account]`; an account without a waitlist gets a new, empty one, where the
     * source would dereference nil.
     */
    method WaitlistFor(account: string) returns (w: SortedWaitlist)
      requires ReadyFor(account)
      modifies this
      ensures account in waitlists && w == waitlists[account] && ReadyFor(account)
      ensures this !in w.Repr
      ensures w.Contents == old(Held(account))
      ensures account in old(waitlists) ==> w == old(waitlists[account])
      ensures account !in old(waitlists) ==> fresh(w.Repr)
      ensures waitlists.Keys == old(waitlists.Keys) + {account}
      ensures forall a :: a != account && a in waitlists ==> waitlists[a] == old(waitlists[a])
      ensures submitQueue == old(submitQueue) && nextNonce == old(nextNonce)
    {
      if account in waitlists {
        return waitlists[account];
      }
      w := new SortedWaitlist(account);
      waitlists := waitlists[account := w];
    }

    /**
     * The release half of `Add`, on a waitlist that holds something: when the least pending
     * nonce is not above the cursor, pops it and appends the copy to the queue.
     */
    method Release(w: SortedWaitlist) returns (released: bool)
      requires w.Valid() && w.Contents != [] && WaitlistOk(w.Contents, nextNonce)
      modifies this, w
      ensures w.Valid() && w.Repr == old(w.Repr) && WaitlistOk(w.Contents, nextNonce)
      ensures released <==> old(w.Contents[0].nonce) <= nextNonce
      ensures released ==> w.Contents == old(w.Contents[1..]) && submitQueue == old(submitQueue) + [old(w.Contents[0])]
      ensures !released ==> w.Contents == old(w.Contents) && submitQueue == old(submitQueue)
      ensures waitlists == old(waitlists) && nextNonce == old(nextNonce)
    {
      var peeked := w.Peek();
      // The waitlist is not empty, so the source's nil branch (sequencer.go:132-134) cannot be taken.
      assert peeked.Some?;
      if nextNonce < peeked.value.nonce {
        return false;
      }
      TailKeepsOk(w.Contents, nextNonce);
      var next := w.Pop();
      submitQueue := submitQueue + [next.value];
      return true;
    }

    /** The number of entries in the submit queue. */
    method QueueLength() returns (n: int)
      ensures n == |submitQueue|
    {
      n := |submitQueue|;
    }
  }
}
