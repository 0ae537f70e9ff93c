# safeseq: nonce-ordered admission, modelled in Dafny

safeseq puts a gate in front of a submit queue. Transactions arrive per account, each
carrying a nonce. A `Sequencer` does three things:
- it refuses a nonce below its cursor `NextNonce` ("past nonce");
- it refuses a nonce the account already has waiting ("already waitlisted");
- it waitlists everything else in the account's `SortedWaitlist`.

After waitlisting, an `Add` call releases at most one entry into the submit queue: the
account's least pending nonce. It does so only when three conditions hold:
- the queue is not congested;
- the waitlist is not empty;
- that least nonce is not above the cursor.

A `SortedWaitlist` keeps its entries in a slice. On every insertion it re-sorts the slice
from a low-water mark `beginIndex`, using an in-place Lomuto quicksort. A nonce dictionary
detects duplicates and counts the pending entries. Popping an entry hands out a copy,
forgets its nonce and advances the mark.

The project has one module per layer of the program:

- **`Models`** (`transaction.dfy`): the `Transaction` record, `NewTransaction` and `CopyTransaction`.
- **`Ordering`** (`ordering.dfy`): nonce sets, sortedness and range permutation on
  sequences. It also defines `Insert`, the sorted insertion that "append, then re-sort"
  amounts to, and proves it is the only sorted outcome.
- **`Quicksort`** (`quicksort.dfy`): `Transactions.Sort`, `quicksort` and `partition`, as
  in-place methods on an array. They are proved to sort the range and to permute only
  that range.
- **`Waitlist`** (`waitlist.dfy`): `SortedWaitlist` as a class.
  - It holds the nonce dictionary, a backing array with a length (the Go slice) and the
    mark.
  - Its invariant `Valid` ties the pending part of the array (`Contents`) to the
    dictionary: strictly sorted, with each nonce mapped to its entry.
  - `Add`, `Peek`, `Pop` and `Len` are proved against `Contents`.
- **`Admission`** (`admission.dfy`): what one `Sequencer.Add` call does, as a pure step
  `AddStep` on an abstract state. The state holds the pending entries per account, the
  queue and the cursor. The lemmas about `AddStep` state the gate's promises:
  - errors exactly for stale or duplicate nonces, and then no change;
  - the benign refusals;
  - at most one release per call, always of the least pending entry;
  - nothing lost or duplicated;
  - every released nonce equals the fixed cursor;
  - other accounts are untouched.
- **`Sequencing`** (`sequencer.dfy`): `Sequencer` as a class.
  - It holds a map from accounts to waitlist objects, the submit queue as a sequence and
    the cursor.
  - `Add` is proved to be `AddStep` on the state restricted to the calling account.
  - `Admission.AddStepIsLocal` and `Admission.OthersUntouched` show that this per-account
    step agrees with `AddStep` on the whole state.
- **`Findings`** (`findings.dfy`): the two places where the source does not do what its
  own code presupposes, modelled as written, each with the input that shows it.

Modelling decisions that depart from the letter of the source, all labelled at the
definition:
- **`SortedWaitlist.Add` records the accepted nonce in the dictionary.** The source never
  writes to it (core/sequencer/sequencer.go:26-28), although its duplicate check, `Peek`,
  `Pop` and `Len` all read it.
- **`partition` scans only `[low, high)`.** The source scans the whole slice
  (core/sequencer/sequencer.go:71).
- **An account without a waitlist gets a new, empty one, created lazily.** `NewSequencer`
  creates an empty map and nothing ever inserts into it, so the source's `Add` calls a
  method on a nil waitlist (core/sequencer/sequencer.go:120), and that method dereferences
  nil.
- **The congestion bound is a constructor parameter.** The source fixes it at 10; the model
  names that value `Admission.SourceCongestionThreshold`.
- **The submit queue is an unbounded sequence that nothing drains.**

## Model

| member | source | states |
|---|---|---|
| Models.NewTransaction | models/transaction.go:14-23 | every field of the result is the corresponding argument; the creation time is supplied by the caller |
| Models.CopyTransaction | models/transaction.go:25-34 | the copy equals the original in every field, so it has the same nonce and a waitlist entry can be replaced by its copy without changing order or duplicate checks |
| Ordering.NoncesSpec | core/sequencer/sequencer.go:15 | the nonce set of a sequence is exactly the set of its entries' nonces (the key set the dictionary should hold) |
| Ordering.Insert | core/sequencer/sequencer.go:26-27 | inserting adds exactly one entry, and the result has the old entries plus `tx` as a multiset |
| Ordering.InsertNonces | core/sequencer/sequencer.go:26-27 | inserting adds exactly `tx`'s nonce to the nonce set |
| Ordering.InsertKeepsOrder | core/sequencer/sequencer.go:26-27 | inserting an absent nonce into a strictly sorted sequence leaves it strictly sorted |
| Ordering.SortedUnique | core/sequencer/sequencer.go:53-55 | a sorted permutation of a strictly sorted sequence is that sequence, so any correct re-sort yields the same result |
| Quicksort.Swap | core/sequencer/sequencer.go:74 | the two slots are exchanged and nothing else changes; the multiset is kept |
| Quicksort.Partition | core/sequencer/sequencer.go:66-79 | the pivot index lies in `[low, high]` and holds the old `a[high]`; entries before it are below the pivot and entries after it are not; only `[low, high]` is permuted |
| Quicksort.Quicksort | core/sequencer/sequencer.go:57-64 | terminates, leaves `[low, high]` ascending by nonce, and is a permutation of that range that touches nothing outside it |
| Quicksort.SortedAroundPivot | core/sequencer/sequencer.go:59-62 | a partitioned range whose two sides were then sorted is sorted as a whole |
| Quicksort.Sort | core/sequencer/sequencer.go:53-55 | the slice from `begin` to its end is sorted and permuted, and the part before `begin` is unchanged |
| Waitlist.KeysAreNonces | core/sequencer/sequencer.go:15 | a dictionary in step with a strictly sorted pending part has exactly the pending nonces as keys |
| Waitlist.SortedAppendIsInsert | core/sequencer/sequencer.go:26-27 | a sorted permutation of the pending entries plus `tx` is the sorted insertion of `tx` |
| Waitlist.AppendThenSort | core/sequencer/sequencer.go:26-27 | after `append` and `Sort(beginIndex)` the popped prefix is unchanged and the pending part is the old one with `tx` inserted in order |
| Waitlist.TracksAfterInsert | core/sequencer/sequencer.go:21-29 | recording a fresh nonce and inserting its entry keeps dictionary and pending entries in step |
| Waitlist.TracksAfterPop | core/sequencer/sequencer.go:38-47 | forgetting the least nonce and dropping its entry keeps dictionary and pending entries in step |
| Waitlist.SortedWaitlist.constructor | core/sequencer/sequencer.go:13-18 | the zero-value waitlist: valid, nothing pending, an empty dictionary, the mark at 0 |
| Waitlist.SortedWaitlist.Append | core/sequencer/sequencer.go:26 | the slice becomes the old slice followed by `tx`, reallocating when full; nothing else changes |
| Waitlist.SortedWaitlist.Add | core/sequencer/sequencer.go:21-29 | accepted exactly when the nonce is not pending. A refusal changes nothing. An acceptance inserts `tx` in nonce order, records its nonce, grows the slice by one and keeps the popped prefix and the mark |
| Waitlist.SortedWaitlist.AppendAndSort | core/sequencer/sequencer.go:26-28 | the accepting path: the pending entries become their sorted insertion with `tx`, and the dictionary gains `tx`'s nonce |
| Waitlist.SortedWaitlist.SortIn | core/sequencer/sequencer.go:26-27 | `append` followed by `Sort(beginIndex)`: the prefix is unchanged and the pending part is the old one with `tx` inserted in order |
| Waitlist.SortedWaitlist.Peek | core/sequencer/sequencer.go:31-36 | nothing when nothing is pending; otherwise the first pending entry, whose nonce is the least; no state changes |
| Waitlist.SortedWaitlist.Pop | core/sequencer/sequencer.go:38-47 | on an empty waitlist, nothing and no change; otherwise a copy of the least entry, its nonce removed from the dictionary, the mark advanced by exactly one, and the rest pending |
| Waitlist.SortedWaitlist.Len | core/sequencer/sequencer.go:49-51 | the number of pending entries |
| Admission.AddStep | core/sequencer/sequencer.go:111-150 | one `Add` call as a step on the abstract state, in the source's order of checks: stale, duplicate, congestion, empty, gap, release. Its contract states that the cursor never moves and that an admitted call returns no error; the lemmas below state the rest |
| Admission.HeldOutcome | core/sequencer/sequencer.go:126-139 | a congested queue or a gap below the least nonce waitlists `tx`, releases nothing and returns no error |
| Admission.ReleaseOutcome | core/sequencer/sequencer.go:141-149 | with no congestion and no gap, the least entry leaves the waitlist and is appended to the queue, and the call returns true |
| Admission.StaleChangesNothing | core/sequencer/sequencer.go:115-118 | a nonce below the cursor gives the past-nonce error and no change |
| Admission.DuplicateChangesNothing | core/sequencer/sequencer.go:120-124 | a nonce already pending for the account gives the already-waitlisted error and no change |
| Admission.ErrorsExactly | core/sequencer/sequencer.go:115-124 | an error is returned if and only if the nonce is stale or a duplicate, and then the state is unchanged and nothing is admitted |
| Admission.HeldWhenNotAdmitted | core/sequencer/sequencer.go:126-139 | without an error or an admission, `tx` stays waitlisted in order and the queue is unchanged |
| Admission.RefusalsExactly | core/sequencer/sequencer.go:126-139 | past the error checks, the call admits if and only if the queue is within the bound and the least pending nonce is not above the cursor |
| Admission.AdmittedReleasesLeast | core/sequencer/sequencer.go:141-149 | an admission pops exactly the least-nonce entry and appends it to the queue; the account keeps the rest, in order |
| Admission.AtMostOneReleased | core/sequencer/sequencer.go:141-149 | the queue only grows at its end, by one entry exactly when the call admits, and otherwise not at all |
| Admission.OthersUntouched | core/sequencer/sequencer.go:111-150 | other accounts' waitlists and the cursor are never changed |
| Admission.AddStepIsLocal | core/sequencer/sequencer.go:111-150 | the call's result, queue, cursor and the account's waitlist depend only on that account's waitlist, the queue and the cursor |
| Admission.NothingLost | core/sequencer/sequencer.go:120-147 | the account's pending entries plus the queue gain exactly `tx` when no error is returned, and are unchanged otherwise |
| Admission.InsertKeepsOk | core/sequencer/sequencer.go:120 | waitlisting an admissible entry keeps the waitlist strictly sorted and at or above the cursor |
| Admission.TailKeepsOk | core/sequencer/sequencer.go:141 | popping the least entry keeps the waitlist strictly sorted and at or above the cursor |
| Admission.AddStepKeepsInv | core/sequencer/sequencer.go:111-150 | every call keeps every waitlist strictly sorted and free of nonces below the cursor |
| Admission.ReleasedNonceIsCursor | core/sequencer/sequencer.go:136-149 | with the cursor fixed, every released nonce equals the cursor |
| Admission.ReleasedNonceCanBeReleasedAgain | core/sequencer/sequencer.go:115-149 | since nothing advances the cursor, submitting nonce 0 twice releases it twice |
| Sequencing.Sequencer.constructor | core/sequencer/sequencer.go:91-96 | no waitlists, an empty queue, the cursor at 0; every account starts with nothing pending |
| Sequencing.Sequencer.Add | core/sequencer/sequencer.go:111-150 | the call is `AddStep` on the calling account's pending entries, the queue and the cursor. It keeps that account's waitlist valid and above the cursor, changes no other account's waitlist and never moves the cursor |
| Sequencing.Sequencer.AddTo | core/sequencer/sequencer.go:120-149 | past the stale check, the duplicate check, the congestion check and the release follow `AddStep` on the given waitlist |
| Sequencing.Sequencer.WaitlistFor | core/sequencer/sequencer.go:120 | the account's existing waitlist, or a new empty one added to the map; other accounts, the queue and the cursor are unchanged |
| Sequencing.Sequencer.Release | core/sequencer/sequencer.go:131-147 | releases if and only if the least pending nonce is not above the cursor; a release pops that entry and appends it to the queue, and otherwise nothing changes |
| Sequencing.Sequencer.QueueLength | core/sequencer/sequencer.go:107-109 | the number of entries in the model's submit queue |
| Findings.AddAsWritten | core/sequencer/sequencer.go:21-29 | the waitlist's `Add` as written leaves the dictionary as it was, whatever it accepts |
| Findings.PeekAsWritten | core/sequencer/sequencer.go:31-36 | `Peek` as written: nil exactly when the dictionary is empty, a panic exactly when the dictionary is not empty but the mark is past the slice, and otherwise the entry at the mark |
| Findings.LenAsWritten | core/sequencer/sequencer.go:49-51 | `Len` as written: zero exactly when the dictionary is empty |
| Findings.DictNeverWritten | core/sequencer/sequencer.go:21-51 | as written, the same entry is accepted twice, and the waitlist then reports length 0 and peeks nothing |
| Findings.SwapAt | core/sequencer/sequencer.go:74 | the two slots trade their entries and the multiset is kept (also used for the final swap at line 77) |
| Findings.ScanAsWritten | core/sequencer/sequencer.go:71-76 | the whole-slice scan keeps the multiset and never moves the swap slot back, or it runs past the end |
| Findings.PartitionAsWritten | core/sequencer/sequencer.go:66-79 | `partition` as written: a permutation of the slice with a pivot index at or after `low`, or a panic |
| Findings.PartitionScansWholeSlice | core/sequencer/sequencer.go:66-79 | re-sorting after adding nonces 2, 3 and 1 reaches `partition(1, 2)` on `[t1, t3, t2]`, which runs past the end of the slice |

## Left out

- Locking (core/sequencer/sequencer.go:82, 112-113): each `Sequencer.Add` is one atomic step, and concurrency is not modelled.
- Channel semantics (core/sequencer/sequencer.go:84, 94, 147): the submit queue is a sequence that `Add` appends to and nothing drains. Blocking send and the hand-off to a consumer goroutine are not modelled.
- Sequencing.Sequencer.QueueLength: counts the model's queue. The source's channel is unbuffered, so its `len` is always 0 there, and the congestion branch of `Add` never fires.
- `Run` (core/sequencer/sequencer.go:98-105): an endless consumer loop that only prints.
- `SuccessLists` and `FailureLists` (core/sequencer/sequencer.go:87-88): declared and never used.
- Error messages (core/sequencer/sequencer.go:116-117, 122-123): the two errors are the `Admission.AddError` constructors `StaleNonce` and `DuplicateNonce`, carrying the nonce instead of formatted text.
- Models.NewTransaction: does not read the clock; the creation time is a parameter, and `Timestamp` is an opaque integer.
- Models.CopyTransaction: transactions are values, so the model does not state that the copy is a new object distinct from its argument. Pointer aliasing between a caller's transaction and the entry a waitlist stores is not modelled either.
- `SortedWaitlist.AccountId` (core/sequencer/sequencer.go:14): kept as a field and never read, as in the source.
- Waitlist.SortedWaitlist.Add: records the accepted nonce in the dictionary, although the source never writes it. This is the first finding below.
- Quicksort.Partition: scans only `[low, high)`, although the source scans the whole slice. Sortedness and confinement to the range hold only for this version. This is the second finding below.
- Waitlist.SortedWaitlist.Append: grows the backing array to `2n + 1` when it is full. Go's `append` growth policy is not modelled, and no contract depends on it.
- Waitlist.SortedWaitlist.Pop: the mark `beginIndex` is unbounded. The overflow of Go's `int` after 2^63 pops is not modelled.
- Sequencing.Sequencer.WaitlistFor: creates an account's waitlist lazily. Nothing in the source ever inserts into `Waitlists`, so the source dereferences nil on every non-stale `Add` (core/sequencer/sequencer.go:120).
- Sequencing.Sequencer.Release: leaves out the source's `next == nil` branch (core/sequencer/sequencer.go:142-144). `Pop` after a successful `Peek` always returns an entry, so that branch cannot be taken in the model.
- Sequencing.Sequencer.Add: the submit queue is never drained, so once more than `congestionThreshold` entries have been released, every later call refuses to release for good. The source never refuses for congestion: its unbuffered channel always has length 0, and a release blocks on the send until a consumer takes the entry.
- Sequencing.Sequencer.Add: specified one account at a time. Its precondition `ReadyFor` asks only that the calling account's waitlist be valid. The class states no invariant over all accounts together, and it does not state that two accounts never share a waitlist object.
- A per-account cursor advanced on release is not modelled. The single cursor is fixed, as in the source.

## Findings

| source | as written | input that shows it | evidently intended | confidence | as-written member | corrected member |
|---|---|---|---|---|---|---|
| core/sequencer/sequencer.go:21-29 | `Add` checks the nonce dictionary but never inserts into it. So duplicates are accepted, `Len` stays 0, and `Peek` and `Pop` always return nil | an empty waitlist given the same transaction twice accepts both; it then holds two entries, reports length 0 and peeks nothing (`Findings.DictNeverWritten`) | `Add` records the accepted nonce, so the duplicate check, `Len`, `Peek` and `Pop` see it | high, not executed | Findings.AddAsWritten | Waitlist.SortedWaitlist.Add |
| core/sequencer/sequencer.go:71 | `partition`'s loop runs over the whole slice, not over `[low, high)`, so it moves entries outside the range and can index past the end | nonces 2, 3, 1 waitlisted in that order. The re-sort reaches `partition(1, 2)` on `[t1, t3, t2]`, and its swap slot reaches index 3 of three entries (`Findings.PartitionScansWholeSlice`) | the loop runs `i` from `low` to `high - 1` | high, not executed | Findings.PartitionAsWritten | Quicksort.Partition |
