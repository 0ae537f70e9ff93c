/**
 * The transaction record of the `models` package: an immutable value built by an
 * external producer and copied field by field when it changes hands.
 */
module Models {

  /** Go's `uint64`: nonces are only compared, never computed, so no wrap-around arises. */
  newtype u64 = x: int | 0 <= x < 0x1_0000_0000_0000_0000

  /** Go's `time.Time`, kept opaque: the model never reads the clock, the caller supplies the value. */
  type Timestamp = int

  datatype Transaction = Transaction(
    id: string,
    accountId: string,
    nonce: u64,
    payload: string,
    metadata: string,
    createdOn: Timestamp)

  /**
   * Builds a transaction from its parts. The source stamps `CreatedOn` with the current
   * time; here the stamp is a parameter.
   */
  function NewTransaction(id: string, accountId: string, nonce: u64, payload: string,
                          metadata: string, createdOn: Timestamp): (t: Transaction)
    ensures t.id == id && t.accountId == accountId && t.nonce == nonce
    ensures t.payload == payload && t.metadata == metadata && t.createdOn == createdOn
  {
    Transaction(id, accountId, nonce, payload, metadata, createdOn)
  }

  /** A field-by-field copy: the result is indistinguishable from its argument. */
  function CopyTransaction(other: Transaction): (t: Transaction)
    ensures t == other
  {
    Transaction(other.id, other.accountId, other.nonce, other.payload, other.metadata, other.createdOn)
  }
}
