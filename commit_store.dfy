/**
 * A reference transaction store: it applies a transaction all-or-nothing to its command,
 * lease, tag and agent-signature collections, enforcing the version rule, optimistic
 * concurrency, lease uniqueness and transaction-id uniqueness; tags carry no uniqueness.
 */
module CommitStore {
  import opened Wrappers
  import opened ValueObjects
  import opened Entities
  import opened Transactions
  import opened Queries
  import opened Documents
  import opened DocumentQueries

  /** Why a put returns `false`: each corresponds to the exception the repository logs. */
  datatype Rejection =
    | ReadOnly
    | DuplicateTransactionId
    | VersionZeroReserved
    | OptimisticConcurrency
    | DuplicateSubversion
    | LeaseConflict

  /** The four collections. */
  datatype StoreState = StoreState(
    agentSignatures: seq<AgentSignatureDocument>,
    commands: seq<CommandDocument>,
    leases: seq<LeaseDocument>,
    tags: seq<TagDocument>)

  function TransactionIds(sigs: seq<AgentSignatureDocument>): (ids: seq<Id>)
    ensures |ids| == |sigs| && forall i :: 0 <= i < |sigs| ==> ids[i] == sigs[i].transactionId
  {
    seq(|sigs|, i requires 0 <= i < |sigs| => sigs[i].transactionId)
  }

  /** The store's invariant: every unique index holds and no command is at the reserved version 0. */
  predicate ValidState(st: StoreState)
  {
    NoDuplicates(TransactionIds(st.agentSignatures)) &&
    CommandKeysUnique(st.commands) &&
    (forall i :: 0 <= i < |st.commands| ==> st.commands[i].entityVersionNumber != MinValue) &&
    LeaseTriplesUnique(st.leases)
  }

  /** The timestamp written for a transaction: exact, or cut to milliseconds by a coarser backend. */
  function StoredTimeStamp(millisecondPrecision: bool, ts: TimeStamp): (r: TimeStamp)
    ensures r == ts || r == WithMillisecondPrecision(ts)
    ensures millisecondPrecision ==> r.ticks % TicksPerMillisecond == 0 && r.ticks <= ts.ticks
  {
    if millisecondPrecision then WithMillisecondPrecision(ts) else ts
  }

  /** The agent-signature document of a transaction: the distinct ids of the entities it writes. */
  function AgentSignatureDocumentOf(t: Transaction): (d: AgentSignatureDocument)
    ensures d.transactionId == t.id && d.transactionTimeStamp == t.timeStamp && d.data == t.agentSignature
    ensures NoDuplicates(d.entityIds)
    ensures forall id :: id in d.entityIds <==> exists i :: 0 <= i < |t.commands| && t.commands[i].entityId == id
  {
    var ids := seq(|t.commands|, i requires 0 <= i < |t.commands| => t.commands[i].entityId);
    assert forall id :: id in ids <==> exists i :: 0 <= i < |t.commands| && t.commands[i].entityId == id by {
      forall id | exists i :: 0 <= i < |t.commands| && t.commands[i].entityId == id
        ensures id in ids
      {
        var i :| 0 <= i < |t.commands| && t.commands[i].entityId == id;
        assert ids[i] == id;
      }
    }
    AgentSignatureDocument(t.timeStamp, t.id, Distinct(ids), t.agentSignature)
  }

  /** `DeleteMany` of leases: drop the entity's documents holding one of the given leases. */
  function RemoveLeases(docs: seq<LeaseDocument>, entityId: Id, deletes: seq<Lease>): (r: seq<LeaseDocument>)
    ensures forall d :: d in r <==> d in docs && !DeleteLeasesMatches(entityId, deletes, d)
    ensures LeaseTriplesUnique(docs) ==> LeaseTriplesUnique(r)
  {
    if docs == [] then []
    else
      var rest := RemoveLeases(docs[1..], entityId, deletes);
      assert forall d :: d in docs[1..] ==> d in docs;
      if DeleteLeasesMatches(entityId, deletes, docs[0]) then rest
      else
        assert LeaseTriplesUnique(docs) ==> forall x :: x in rest ==> LeaseOf(x) != LeaseOf(docs[0]) by {
          if LeaseTriplesUnique(docs) {
            forall x | x in rest ensures LeaseOf(x) != LeaseOf(docs[0]) {
              var k :| 0 <= k < |docs[1..]| && docs[1..][k] == x;
              assert docs[k + 1] == x;
            }
          }
        }
        [docs[0]] + rest
  }

  /** The leases left after a command's deletions; an empty delete list skips the delete. */
  function RemainingLeases(docs: seq<LeaseDocument>, c: TransactionCommand): (r: seq<LeaseDocument>)
    ensures c.deleteLeases == [] ==> r == docs
    ensures forall d :: d in r <==> d in docs && !DeleteLeasesMatches(c.entityId, c.deleteLeases, d)
    ensures LeaseTriplesUnique(docs) ==> LeaseTriplesUnique(r)
  {
    if c.deleteLeases == [] then docs else RemoveLeases(docs, c.entityId, c.deleteLeases)
  }

  /** Inserted leases must not repeat one another nor any lease still held. */
  predicate CanInsertLeases(existing: seq<LeaseDocument>, inserted: seq<LeaseDocument>)
  {
    LeaseTriplesUnique(inserted) &&
    forall i, j :: 0 <= i < |inserted| && 0 <= j < |existing| ==> LeaseOf(inserted[i]) != LeaseOf(existing[j])
  }

  /** `DeleteMany` of tags: drop the entity's documents holding one of the given tags. */
  function RemoveTags(docs: seq<TagDocument>, entityId: Id, deletes: seq<Tag>): (r: seq<TagDocument>)
    ensures forall d :: d in r <==> d in docs && !DeleteTagsMatches(entityId, deletes, d)
  {
    if docs == [] then []
    else if DeleteTagsMatches(entityId, deletes, docs[0]) then RemoveTags(docs[1..], entityId, deletes)
    else [docs[0]] + RemoveTags(docs[1..], entityId, deletes)
  }

  /**
   * One command: version rule, optimistic concurrency, distinct subversions, then leases
   * deleted before leases are inserted, tags deleted before tags are inserted, and the command.
   */
  function ApplyCommand(st: StoreState, t: Transaction, c: TransactionCommand): Result<StoreState, Rejection>
  {
    if EntityVersionNumber(c) == MinValue then Err(VersionZeroReserved)
    else if c.expectedPreviousVersionNumber != LastVersion(st.commands, c.entityId) then Err(OptimisticConcurrency)
    else if !SubversionNumbersUnique(c) then Err(DuplicateSubversion)
    else
      var remaining := RemainingLeases(st.leases, c);
      var inserted := BuildLeases(t, c);
      var tagDelete := GetTagDeleteCommand(c, c.deleteTags);
      if !CanInsertLeases(remaining, inserted) then Err(LeaseConflict)
      else
        Ok(StoreState(
          st.agentSignatures,
          st.commands + [BuildCommand(t, c)],
          remaining + inserted,
          RemoveTags(st.tags, tagDelete.entityId, tagDelete.tags) + GetTagInsertCommand(t, c, c.insertTags).documents))
  }

  /** The commands in order; the first rejection rejects them all. */
  function ApplyCommands(st: StoreState, t: Transaction, cs: seq<TransactionCommand>): Result<StoreState, Rejection>
    decreases |cs|
  {
    if cs == [] then Ok(st)
    else
      match ApplyCommand(st, t, cs[0])
      case Err(e) => Err(e)
      case Ok(next) => ApplyCommands(next, t, cs[1..])
  }

  /** `PutTransaction` of a writable store, as a function of the state before it. */
  function ApplyTransaction(st: StoreState, t: Transaction, millisecondPrecision: bool): Result<StoreState, Rejection>
  {
    if t.id in TransactionIds(st.agentSignatures) then Err(DuplicateTransactionId)
    else
      var stored := t.(timeStamp := StoredTimeStamp(millisecondPrecision, t.timeStamp));
      ApplyCommands(st.(agentSignatures := st.agentSignatures + [AgentSignatureDocumentOf(stored)]), stored, t.commands)
  }

  // ---------------------------------------------------------------------------
  // The last stored version of an entity

  /** There is only one last version. */
  lemma LastVersionUnique(docs: seq<CommandDocument>, entityId: Id, v: VersionNumber, w: VersionNumber)
    requires IsLastVersion(docs, entityId, v) && IsLastVersion(docs, entityId, w)
    ensures v == w
  {
  }

  /** The entity's last stored version, scanning the collection from the back. */
  function LastVersion(docs: seq<CommandDocument>, entityId: Id): (v: VersionNumber)
    ensures IsLastVersion(docs, entityId, v)
    decreases |docs|
  {
    if docs == [] then MinValue
    else
      var front := docs[..|docs| - 1];
      var d := docs[|docs| - 1];
      var rest := LastVersion(front, entityId);
      assert docs == front + [d];
      assert forall x :: x in front ==> x in docs;
      if d.entityId == entityId && d.entityVersionNumber.value > rest.value then d.entityVersionNumber
      else rest
  }

  /** The scan and the `GetLastEntityVersionQuery` lookup agree. */
  lemma LastVersionIsQuery(docs: seq<CommandDocument>, entityId: Id)
    ensures LastVersion(docs, entityId) == GetLastEntityVersionNumber(docs, entityId)
  {
    LastVersionUnique(docs, entityId, LastVersion(docs, entityId), GetLastEntityVersionNumber(docs, entityId));
  }

  /** Appending a command one past the entity's last version makes it the last version. */
  lemma LastAfterAppend(docs: seq<CommandDocument>, d: CommandDocument, entityId: Id)
    ensures d.entityId == entityId && d.entityVersionNumber.value > LastVersion(docs, entityId).value ==>
      LastVersion(docs + [d], entityId) == d.entityVersionNumber
    ensures d.entityId != entityId ==> LastVersion(docs + [d], entityId) == LastVersion(docs, entityId)
  {
    assert (docs + [d])[..|docs|] == docs;
  }

  /** A committed command becomes its entity's last version, one past the expected one; other entities keep theirs. */
  lemma ApplyCommandLastVersion(st: StoreState, t: Transaction, c: TransactionCommand, entityId: Id)
    requires ApplyCommand(st, t, c).Ok?
    ensures var next := ApplyCommand(st, t, c).value;
      c.expectedPreviousVersionNumber == LastVersion(st.commands, c.entityId) &&
      c.expectedPreviousVersionNumber != MaxValue &&
      (entityId == c.entityId ==>
        LastVersion(next.commands, entityId).value == c.expectedPreviousVersionNumber.value + 1) &&
      (entityId != c.entityId ==>
        LastVersion(next.commands, entityId) == LastVersion(st.commands, entityId))
  {
    LastAfterAppend(st.commands, BuildCommand(t, c), entityId);
  }

  // ---------------------------------------------------------------------------
  // The invariant is preserved

  /** What a committed command changes: one command appended, leases replaced, signatures kept. */
  lemma ApplyCommandShape(st: StoreState, t: Transaction, c: TransactionCommand)
    requires ApplyCommand(st, t, c).Ok?
    ensures var next := ApplyCommand(st, t, c).value;
      next.agentSignatures == st.agentSignatures &&
      next.commands == st.commands + [BuildCommand(t, c)] &&
      BuildCommand(t, c).entityVersionNumber.value == LastVersion(st.commands, c.entityId).value + 1 &&
      next.leases == RemainingLeases(st.leases, c) + BuildLeases(t, c) &&
      CanInsertLeases(RemainingLeases(st.leases, c), BuildLeases(t, c))
  {
  }

  /** Appending a command one past its entity's last version keeps the command index unique. */
  lemma AppendNextVersionKeepsKeys(docs: seq<CommandDocument>, d: CommandDocument)
    requires CommandKeysUnique(docs)
    requires d.entityVersionNumber.value == LastVersion(docs, d.entityId).value + 1
    ensures CommandKeysUnique(docs + [d])
  {
    var all := docs + [d];
    forall i, j | 0 <= i < j < |all|
      ensures all[i].entityId != all[j].entityId || all[i].entityVersionNumber != all[j].entityVersionNumber
    {
      if j == |docs| {
        assert all[i] in docs;
      } else {
        assert all[i] == docs[i] && all[j] == docs[j];
      }
    }
  }

  /** Insertable leases after unique remaining ones keep the lease index unique. */
  lemma InsertLeasesKeepsUnique(remaining: seq<LeaseDocument>, inserted: seq<LeaseDocument>)
    requires LeaseTriplesUnique(remaining) && CanInsertLeases(remaining, inserted)
    ensures LeaseTriplesUnique(remaining + inserted)
  {
    var all := remaining + inserted;
    forall i, j | 0 <= i < j < |all| ensures LeaseOf(all[i]) != LeaseOf(all[j]) {
      if i >= |remaining| {
        assert all[i] == inserted[i - |remaining|] && all[j] == inserted[j - |remaining|];
      } else if j >= |remaining| {
        assert all[j] == inserted[j - |remaining|] && all[i] == remaining[i];
      } else {
        assert all[i] == remaining[i] && all[j] == remaining[j];
      }
    }
  }

  lemma ApplyCommandPreservesValid(st: StoreState, t: Transaction, c: TransactionCommand)
    requires ValidState(st) && ApplyCommand(st, t, c).Ok?
    ensures ValidState(ApplyCommand(st, t, c).value)
  {
    var next := ApplyCommand(st, t, c).value;
    ApplyCommandShape(st, t, c);
    AppendNextVersionKeepsKeys(st.commands, BuildCommand(t, c));
    InsertLeasesKeepsUnique(RemainingLeases(st.leases, c), BuildLeases(t, c));
    assert forall i :: 0 <= i < |next.commands| ==> next.commands[i].entityVersionNumber != MinValue by {
      forall i | 0 <= i < |next.commands| ensures next.commands[i].entityVersionNumber != MinValue {
        if i < |st.commands| { assert next.commands[i] == st.commands[i]; }
      }
    }
  }

  lemma {:induction false} ApplyCommandsPreservesValid(st: StoreState, t: Transaction, cs: seq<TransactionCommand>)
    requires ValidState(st) && ApplyCommands(st, t, cs).Ok?
    ensures ValidState(ApplyCommands(st, t, cs).value)
    decreases |cs|
  {
    if cs != [] {
      ApplyCommandPreservesValid(st, t, cs[0]);
      ApplyCommandsPreservesValid(ApplyCommand(st, t, cs[0]).value, t, cs[1..]);
    }
  }

  /** A committed transaction leaves every unique index intact. */
  lemma ApplyTransactionPreservesValid(st: StoreState, t: Transaction, millisecondPrecision: bool)
    requires ValidState(st) && ApplyTransaction(st, t, millisecondPrecision).Ok?
    ensures ValidState(ApplyTransaction(st, t, millisecondPrecision).value)
  {
    var stored := t.(timeStamp := StoredTimeStamp(millisecondPrecision, t.timeStamp));
    var st1 := st.(agentSignatures := st.agentSignatures + [AgentSignatureDocumentOf(stored)]);
    assert TransactionIds(st1.agentSignatures) == TransactionIds(st.agentSignatures) + [t.id];
    ApplyCommandsPreservesValid(st1, stored, t.commands);
  }

  // ---------------------------------------------------------------------------
  // What a committed transaction writes

  /** The stored commands of a committed batch, in order. */
  function BuiltCommands(t: Transaction, cs: seq<TransactionCommand>): (docs: seq<CommandDocument>)
    ensures |docs| == |cs|
    ensures forall i :: 0 <= i < |cs| ==> docs[i] == BuildCommand(t, cs[i])
  {
    seq(|cs|, i requires 0 <= i < |cs| => BuildCommand(t, cs[i]))
  }

  /** Committing appends exactly one command document per command, in order, and keeps the rest. */
  lemma {:induction false} ApplyCommandsAppends(st: StoreState, t: Transaction, cs: seq<TransactionCommand>)
    requires ApplyCommands(st, t, cs).Ok?
    ensures ApplyCommands(st, t, cs).value.commands == st.commands + BuiltCommands(t, cs)
    ensures ApplyCommands(st, t, cs).value.agentSignatures == st.agentSignatures
    decreases |cs|
  {
    if cs != [] {
      ApplyCommandsStep(st, t, cs);
      var next := ApplyCommand(st, t, cs[0]).value;
      ApplyCommandAppends(st, t, cs[0]);
      ApplyCommandsAppends(next, t, cs[1..]);
      BuiltCommandsCons(t, cs);
      AppendOneAssoc(st.commands, BuildCommand(t, cs[0]), BuiltCommands(t, cs[1..]));
    }
  }

  lemma AppendOneAssoc<X>(a: seq<X>, x: X, b: seq<X>)
    ensures (a + [x]) + b == a + ([x] + b)
  {
  }

  /** An accepted batch is its first command, accepted, followed by the rest from the new state. */
  lemma ApplyCommandsStep(st: StoreState, t: Transaction, cs: seq<TransactionCommand>)
    requires cs != [] && ApplyCommands(st, t, cs).Ok?
    ensures ApplyCommand(st, t, cs[0]).Ok?
    ensures ApplyCommands(st, t, cs) == ApplyCommands(ApplyCommand(st, t, cs[0]).value, t, cs[1..])
  {
  }

  /** Once the first command is accepted, the batch goes on from the state it leaves. */
  lemma ApplyCommandsContinue(st: StoreState, t: Transaction, cs: seq<TransactionCommand>)
    requires cs != [] && ApplyCommand(st, t, cs[0]).Ok?
    ensures ApplyCommands(st, t, cs) == ApplyCommands(ApplyCommand(st, t, cs[0]).value, t, cs[1..])
  {
  }

  lemma ApplyCommandsStops(st: StoreState, t: Transaction, cs: seq<TransactionCommand>)
    requires cs != [] && ApplyCommand(st, t, cs[0]).Err?
    ensures ApplyCommands(st, t, cs) == Err(ApplyCommand(st, t, cs[0]).error)
  {
  }

  lemma BuiltCommandsCons(t: Transaction, cs: seq<TransactionCommand>)
    requires cs != []
    ensures BuiltCommands(t, cs) == [BuildCommand(t, cs[0])] + BuiltCommands(t, cs[1..])
  {
    var tail := BuiltCommands(t, cs[1..]);
    forall k | 1 <= k < |cs| ensures BuiltCommands(t, cs)[k] == tail[k - 1] {
      assert cs[k] == cs[1..][k - 1];
    }
  }

  /** Committing one command appends its document and leaves the agent signatures alone. */
  lemma ApplyCommandAppends(st: StoreState, t: Transaction, c: TransactionCommand)
    requires ApplyCommand(st, t, c).Ok?
    ensures ApplyCommand(st, t, c).value.commands == st.commands + [BuildCommand(t, c)]
    ensures ApplyCommand(st, t, c).value.agentSignatures == st.agentSignatures
  {
  }

  /**
   * A committed transaction stores each command at `ExpectedPreviousVersionNumber + 1`,
   * never at 0, with the transaction's id and its timestamp exact or cut to milliseconds.
   */
  lemma CommittedCommandsStored(st: StoreState, t: Transaction, millisecondPrecision: bool)
    requires ApplyTransaction(st, t, millisecondPrecision).Ok?
    ensures var after := ApplyTransaction(st, t, millisecondPrecision).value;
      |after.commands| == |st.commands| + |t.commands| &&
      after.commands[..|st.commands|] == st.commands &&
      forall i :: 0 <= i < |t.commands| ==>
        var d := after.commands[|st.commands| + i];
        d.entityId == t.commands[i].entityId &&
        d.entityVersionNumber.value == t.commands[i].expectedPreviousVersionNumber.value + 1 &&
        d.transactionId == t.id && d.data == t.commands[i].command &&
        (d.transactionTimeStamp == t.timeStamp || d.transactionTimeStamp == WithMillisecondPrecision(t.timeStamp))
  {
    var stored := t.(timeStamp := StoredTimeStamp(millisecondPrecision, t.timeStamp));
    var st1 := st.(agentSignatures := st.agentSignatures + [AgentSignatureDocumentOf(stored)]);
    ApplyCommandsAppends(st1, stored, t.commands);
    ApplyCommandsNoReservedVersion(st1, stored, t.commands);
  }

  /** Every command of a committed batch expected a version below the largest. */
  lemma {:induction false} ApplyCommandsNoReservedVersion(st: StoreState, t: Transaction, cs: seq<TransactionCommand>)
    requires ApplyCommands(st, t, cs).Ok?
    ensures forall i :: 0 <= i < |cs| ==> cs[i].expectedPreviousVersionNumber != MaxValue
    decreases |cs|
  {
    if cs != [] {
      ApplyCommandsNoReservedVersion(ApplyCommand(st, t, cs[0]).value, t, cs[1..]);
      assert forall i :: 1 <= i < |cs| ==> cs[i] == cs[1..][i - 1];
    }
  }

  // ---------------------------------------------------------------------------
  // Optimistic concurrency

  /**
   * In a committed batch every command of an entity expects at least the entity's last
   * version before the batch, and afterwards the last version is past every one of them.
   */
  lemma {:induction false} ApplyCommandsVersionsGrow(st: StoreState, t: Transaction, cs: seq<TransactionCommand>, entityId: Id)
    requires ApplyCommands(st, t, cs).Ok?
    ensures var after := ApplyCommands(st, t, cs).value;
      LastVersion(after.commands, entityId).value >= LastVersion(st.commands, entityId).value &&
      forall k :: 0 <= k < |cs| && cs[k].entityId == entityId ==>
        LastVersion(st.commands, entityId).value <= cs[k].expectedPreviousVersionNumber.value <
        LastVersion(after.commands, entityId).value
    decreases |cs|
  {
    if cs != [] {
      ApplyCommandsStep(st, t, cs);
      var next := ApplyCommand(st, t, cs[0]).value;
      ApplyCommandLastVersion(st, t, cs[0], entityId);
      ApplyCommandsVersionsGrow(next, t, cs[1..], entityId);
      var after := ApplyCommands(st, t, cs).value;
      forall k | 0 <= k < |cs| && cs[k].entityId == entityId
        ensures LastVersion(st.commands, entityId).value <= cs[k].expectedPreviousVersionNumber.value <
          LastVersion(after.commands, entityId).value
      {
        if k > 0 {
          assert cs[k] == cs[1..][k - 1];
        }
      }
    }
  }

  /** Within one committed batch the commands of an entity expect strictly increasing versions. */
  lemma {:induction false} CommittedExpectedVersionsIncrease(st: StoreState, t: Transaction, cs: seq<TransactionCommand>)
    requires ApplyCommands(st, t, cs).Ok?
    ensures forall i, j :: 0 <= i < j < |cs| && cs[i].entityId == cs[j].entityId ==>
      cs[i].expectedPreviousVersionNumber.value < cs[j].expectedPreviousVersionNumber.value
    decreases |cs|
  {
    if cs != [] {
      ApplyCommandsStep(st, t, cs);
      var next := ApplyCommand(st, t, cs[0]).value;
      CommittedExpectedVersionsIncrease(next, t, cs[1..]);
      ApplyCommandLastVersion(st, t, cs[0], cs[0].entityId);
      ApplyCommandsVersionsGrow(next, t, cs[1..], cs[0].entityId);
      forall i, j | 0 <= i < j < |cs| && cs[i].entityId == cs[j].entityId
        ensures cs[i].expectedPreviousVersionNumber.value < cs[j].expectedPreviousVersionNumber.value
      {
        assert cs[j] == cs[1..][j - 1];
        if i > 0 {
          assert cs[i] == cs[1..][i - 1];
        }
      }
    }
  }

  /** Two commands of one transaction for the same entity and expected version: the put returns false. */
  lemma SameVersionTwiceInOneTransactionRejected(st: StoreState, t: Transaction, millisecondPrecision: bool, i: nat, j: nat)
    requires i < j < |t.commands|
    requires t.commands[i].entityId == t.commands[j].entityId
    requires t.commands[i].expectedPreviousVersionNumber == t.commands[j].expectedPreviousVersionNumber
    ensures ApplyTransaction(st, t, millisecondPrecision).Err?
  {
    if ApplyTransaction(st, t, millisecondPrecision).Ok? {
      var stored := t.(timeStamp := StoredTimeStamp(millisecondPrecision, t.timeStamp));
      var st1 := st.(agentSignatures := st.agentSignatures + [AgentSignatureDocumentOf(stored)]);
      CommittedExpectedVersionsIncrease(st1, stored, t.commands);
    }
  }

  /**
   * Once a transaction writing an entity has committed, a later transaction whose command
   * for that entity expects the same previous version is rejected.
   */
  lemma SameVersionAfterCommitRejected(st: StoreState, t1: Transaction, t2: Transaction, millisecondPrecision: bool, i: nat, j: nat)
    requires ApplyTransaction(st, t1, millisecondPrecision).Ok?
    requires i < |t1.commands| && j < |t2.commands|
    requires t1.commands[i].entityId == t2.commands[j].entityId
    requires t1.commands[i].expectedPreviousVersionNumber == t2.commands[j].expectedPreviousVersionNumber
    ensures ApplyTransaction(ApplyTransaction(st, t1, millisecondPrecision).value, t2, millisecondPrecision).Err?
  {
    var e := t1.commands[i].entityId;
    var mid := ApplyTransaction(st, t1, millisecondPrecision).value;
    var stored1 := t1.(timeStamp := StoredTimeStamp(millisecondPrecision, t1.timeStamp));
    var st1 := st.(agentSignatures := st.agentSignatures + [AgentSignatureDocumentOf(stored1)]);
    ApplyCommandsVersionsGrow(st1, stored1, t1.commands, e);
    if ApplyTransaction(mid, t2, millisecondPrecision).Ok? {
      var stored2 := t2.(timeStamp := StoredTimeStamp(millisecondPrecision, t2.timeStamp));
      var mid1 := mid.(agentSignatures := mid.agentSignatures + [AgentSignatureDocumentOf(stored2)]);
      ApplyCommandsVersionsGrow(mid1, stored2, t2.commands, e);
    }
  }

  /** A transaction id already stored makes the put return false. */
  lemma DuplicateTransactionIdRejected(st: StoreState, t1: Transaction, t2: Transaction, millisecondPrecision: bool)
    requires ApplyTransaction(st, t1, millisecondPrecision).Ok? && t2.id == t1.id
    ensures ApplyTransaction(ApplyTransaction(st, t1, millisecondPrecision).value, t2, millisecondPrecision) == Err(DuplicateTransactionId)
  {
    var stored := t1.(timeStamp := StoredTimeStamp(millisecondPrecision, t1.timeStamp));
    var st1 := st.(agentSignatures := st.agentSignatures + [AgentSignatureDocumentOf(stored)]);
    ApplyCommandsAppends(st1, stored, t1.commands);
    assert TransactionIds(st1.agentSignatures)[|st.agentSignatures|] == t1.id;
  }

  // ---------------------------------------------------------------------------
  // Leases and tags

  /** A command inserting the same lease twice is rejected: leases are unique. */
  lemma DuplicateLeaseRejected(st: StoreState, t: Transaction, c: TransactionCommand, i: nat, j: nat)
    requires i < j < |c.insertLeases| && c.insertLeases[i] == c.insertLeases[j]
    ensures ApplyCommand(st, t, c).Err?
  {
    BuildLeasesRoundTrip(t, c);
  }

  /**
   * A committed command leaves exactly the tag documents its delete command does not select,
   * followed by the documents of its insert command.
   */
  lemma ApplyCommandTags(st: StoreState, t: Transaction, c: TransactionCommand)
    requires ApplyCommand(st, t, c).Ok?
    ensures var del := GetTagDeleteCommand(c, c.deleteTags);
      var ins := GetTagInsertCommand(t, c, c.insertTags).documents;
      forall d :: d in ApplyCommand(st, t, c).value.tags <==>
        (d in st.tags && !DeleteTagsMatches(del.entityId, del.tags, d)) || d in ins
  {
  }

  /** A lease some entity holds blocks inserting it again until that entity deletes it. */
  lemma {:induction false} HeldLeaseBlocksInsert(st: StoreState, t: Transaction, cs: seq<TransactionCommand>, d: LeaseDocument, j: nat)
    requires d in st.leases && j < |cs| && LeaseOf(d) in cs[j].insertLeases
    requires forall k :: 0 <= k <= j ==> !DeleteLeasesMatches(cs[k].entityId, cs[k].deleteLeases, d)
    ensures ApplyCommands(st, t, cs).Err?
    decreases j
  {
    var c := cs[0];
    if ApplyCommand(st, t, c).Ok? {
      ApplyCommandShape(st, t, c);
      var next := ApplyCommand(st, t, c).value;
      var remaining := RemainingLeases(st.leases, c);
      assert d in remaining;
      if j == 0 {
        var m :| 0 <= m < |c.insertLeases| && c.insertLeases[m] == LeaseOf(d);
        BuildLeasesRoundTrip(t, c);
        assert false;
      } else {
        assert d in next.leases;
        HeldLeaseBlocksInsert(next, t, cs[1..], d, j - 1);
        ApplyCommandsContinue(st, t, cs);
      }
    }
  }

  /**
   * Two commands of one batch inserting the same lease are rejected, unless a command in
   * between (or the second one) deletes it for the entity that inserted it first.
   */
  lemma {:induction false} SameLeaseTwiceRejected(st: StoreState, t: Transaction, cs: seq<TransactionCommand>, i: nat, j: nat, l: Lease)
    requires i < j < |cs| && l in cs[i].insertLeases && l in cs[j].insertLeases
    requires forall k :: i < k <= j ==> !(cs[k].entityId == cs[i].entityId && l in cs[k].deleteLeases)
    ensures ApplyCommands(st, t, cs).Err?
    decreases i
  {
    var c := cs[0];
    if ApplyCommand(st, t, c).Ok? {
      ApplyCommandShape(st, t, c);
      var next := ApplyCommand(st, t, c).value;
      if i == 0 {
        var m :| 0 <= m < |c.insertLeases| && c.insertLeases[m] == l;
        BuildLeasesRoundTrip(t, c);
        var d := BuildLeases(t, c)[m];
        assert d in next.leases;
        forall k | 0 <= k <= j - 1 ensures !DeleteLeasesMatches(cs[1..][k].entityId, cs[1..][k].deleteLeases, d) {
          assert cs[1..][k] == cs[k + 1];
        }
        HeldLeaseBlocksInsert(next, t, cs[1..], d, j - 1);
      } else {
        SameLeaseTwiceRejected(next, t, cs[1..], i - 1, j - 1, l);
      }
      ApplyCommandsContinue(st, t, cs);
    }
  }

  /** A transaction whose two commands insert the same lease, neither deleting it, is rejected. */
  lemma SameLeaseInTwoCommandsRejected(st: StoreState, t: Transaction, millisecondPrecision: bool, i: nat, j: nat, l: Lease)
    requires i < j < |t.commands| && l in t.commands[i].insertLeases && l in t.commands[j].insertLeases
    requires forall k :: i < k <= j ==> !(t.commands[k].entityId == t.commands[i].entityId && l in t.commands[k].deleteLeases)
    ensures ApplyTransaction(st, t, millisecondPrecision).Err?
  {
    if t.id !in TransactionIds(st.agentSignatures) {
      var stored := t.(timeStamp := StoredTimeStamp(millisecondPrecision, t.timeStamp));
      var st1 := st.(agentSignatures := st.agentSignatures + [AgentSignatureDocumentOf(stored)]);
      SameLeaseTwiceRejected(st1, stored, t.commands, i, j, l);
    }
  }

  /** Tags carry no uniqueness: whether a command commits does not depend on the tags it inserts. */
  lemma TagsNeverReject(st: StoreState, t: Transaction, c: TransactionCommand, tags: seq<Tag>)
    ensures ApplyCommand(st, t, c).Ok? <==> ApplyCommand(st, t, c.(insertTags := tags)).Ok?
    ensures ApplyCommand(st, t, c).Ok? ==>
      |ApplyCommand(st, t, c.(insertTags := tags)).value.tags| ==
      |RemoveTags(st.tags, c.entityId, c.deleteTags)| + |tags|
  {
    assert EntityVersionNumber(c.(insertTags := tags)) == EntityVersionNumber(c);
    assert BuildLeases(t, c.(insertTags := tags)) == BuildLeases(t, c);
  }

  /**
   * Deletes come before inserts: a command may delete a lease its entity holds and insert
   * it again, and the lease check passes.
   */
  lemma DeleteThenReinsertLease(st: StoreState, t: Transaction, c: TransactionCommand, l: Lease)
    requires ValidState(st)
    requires c.deleteLeases == [l] && c.insertLeases == [l]
    requires forall d :: d in st.leases && LeaseOf(d) == l ==> d.entityId == c.entityId
    ensures CanInsertLeases(RemoveLeases(st.leases, c.entityId, c.deleteLeases), BuildLeases(t, c))
  {
    var remaining := RemoveLeases(st.leases, c.entityId, c.deleteLeases);
    BuildLeasesRoundTrip(t, c);
    forall j | 0 <= j < |remaining| ensures LeaseOf(BuildLeases(t, c)[0]) != LeaseOf(remaining[j]) {
      assert remaining[j] in remaining;
    }
  }

  /** After a committed command deletes a lease and does not insert it again, its entity no longer holds it. */
  lemma DeletedLeaseGone(st: StoreState, t: Transaction, c: TransactionCommand, l: Lease)
    requires ApplyCommand(st, t, c).Ok?
    requires l in c.deleteLeases && l !in c.insertLeases
    ensures forall d :: d in ApplyCommand(st, t, c).value.leases && d.entityId == c.entityId ==> LeaseOf(d) != l
  {
    var inserted := BuildLeases(t, c);
    BuildLeasesRoundTrip(t, c);
    forall d | d in inserted ensures LeaseOf(d) != l {
      var k :| 0 <= k < |inserted| && inserted[k] == d;
      assert LeaseOf(d) == c.insertLeases[k];
    }
  }

  // ---------------------------------------------------------------------------
  // The store

  class Store {
    /** A read-only session refuses every put. */
    const readOnly: bool
    /** Whether the backend keeps only millisecond precision for timestamps. */
    const millisecondPrecision: bool

    var agentSignatures: seq<AgentSignatureDocument>
    var commands: seq<CommandDocument>
    var leases: seq<LeaseDocument>
    var tags: seq<TagDocument>

    function State(): StoreState
      reads this
    {
      StoreState(agentSignatures, commands, leases, tags)
    }

    ghost predicate Valid()
      reads this
    {
      ValidState(State())
    }

    constructor (readOnly: bool, millisecondPrecision: bool)
      ensures this.readOnly == readOnly && this.millisecondPrecision == millisecondPrecision
      ensures State() == StoreState([], [], [], []) && Valid()
    {
      this.readOnly := readOnly;
      this.millisecondPrecision := millisecondPrecision;
      agentSignatures, commands, leases, tags := [], [], [], [];
    }

    /**
     * `PutTransaction`: all or nothing. A rejected put changes nothing; a committed one
     * leaves exactly the state `ApplyTransaction` describes.
     */
    method PutTransaction(t: Transaction) returns (committed: bool, rejection: Option<Rejection>)
      requires Valid()
      modifies this
      ensures Valid()
      ensures committed <==> rejection.None?
      ensures readOnly ==> rejection == Some(ReadOnly) && State() == old(State())
      ensures !readOnly ==>
        var expected := ApplyTransaction(old(State()), t, millisecondPrecision);
        (expected.Ok? ==> committed && State() == expected.value) &&
        (expected.Err? ==> rejection == Some(expected.error) && State() == old(State()))
    {
      if readOnly {
        return false, Some(ReadOnly);
      }
      if t.id in TransactionIds(agentSignatures) {
        return false, Some(DuplicateTransactionId);
      }
      var stored := t.(timeStamp := StoredTimeStamp(millisecondPrecision, t.timeStamp));
      var st := StoreState(agentSignatures + [AgentSignatureDocumentOf(stored)], commands, leases, tags);
      ghost var start := st;
      assert ApplyTransaction(old(State()), t, millisecondPrecision) == ApplyCommands(start, stored, t.commands);
      var i := 0;
      while i < |t.commands|
        invariant 0 <= i <= |t.commands|
        invariant ApplyCommands(start, stored, t.commands) == ApplyCommands(st, stored, t.commands[i..])
        invariant State() == old(State())
      {
        var rest := t.commands[i..];
        assert rest[0] == t.commands[i] && rest[1..] == t.commands[i + 1..];
        match ApplyCommand(st, stored, t.commands[i])
        case Err(e) =>
          ApplyCommandsStops(st, stored, rest);
          return false, Some(e);
        case Ok(next) =>
          ApplyCommandsContinue(st, stored, rest);
          st := next;
        i := i + 1;
      }
      ApplyTransactionPreservesValid(old(State()), t, millisecondPrecision);
      agentSignatures, commands, leases, tags := st.agentSignatures, st.commands, st.leases, st.tags;
      return true, None;
    }
  }
}
