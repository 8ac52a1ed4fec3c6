/**
 * The write records: leases, tags, facts, the per-entity transaction command
 * (`ITransactionCommand`) and the transaction that carries them.
 */
module Transactions {
  import opened Wrappers
  import opened ValueObjects
  import opened Entities

  /** Unique metadata: a `(Scope, Label, Value)` triple that only one entity may hold. */
  datatype Lease = Lease(scope: string, labelName: string, value: string)

  /** Non-unique metadata: a `(Label, Value)` pair. */
  datatype Tag = Tag(labelName: string, value: string)

  /** A fact of a command, numbered within the command's version. */
  datatype TransactionFact = TransactionFact(subversionNumber: Ulong, fact: Delta)

  /** The actor or cause recorded with a transaction. */
  datatype AgentSignature = NoSource | CounterAgentSignature(number: int)

  /** `ITransactionCommand`: the set of modifiers for one entity. */
  datatype TransactionCommand = TransactionCommand(
    previousSnapshot: Option<TransactionEntity>,
    nextSnapshot: TransactionEntity,
    entityId: Id,
    expectedPreviousVersionNumber: VersionNumber,
    command: Delta,
    facts: seq<TransactionFact>,
    deleteLeases: seq<Lease>,
    insertLeases: seq<Lease>,
    deleteTags: seq<Tag>,
    insertTags: seq<Tag>)

  /** A transaction: an ordered batch of commands committed together. */
  datatype Transaction = Transaction(
    id: Id,
    timeStamp: TimeStamp,
    agentSignature: AgentSignature,
    commands: seq<TransactionCommand>)

  /**
   * The version a repository must store the command at: `ExpectedPreviousVersionNumber + 1`
   * in `ulong` arithmetic. It is the reserved 0 exactly when the expected version is the largest.
   */
  function EntityVersionNumber(c: TransactionCommand): (v: VersionNumber)
    ensures v == MinValue <==> c.expectedPreviousVersionNumber == MaxValue
    ensures c.expectedPreviousVersionNumber != MaxValue ==>
      v.value == c.expectedPreviousVersionNumber.value + 1
  {
    Next(c.expectedPreviousVersionNumber)
  }

  /** Facts need no order, but their subversion numbers must be pairwise distinct. */
  predicate SubversionNumbersUnique(c: TransactionCommand)
  {
    forall i, j :: 0 <= i < j < |c.facts| ==> c.facts[i].subversionNumber != c.facts[j].subversionNumber
  }
}
