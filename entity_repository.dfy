/**
 * The entity repository over a transaction store and an optional snapshot repository:
 * `Get` replays the facts newer than the starting snapshot, and `Put` offers the last
 * command of each entity to the snapshotting decision before forwarding the transaction.
 */
module EntityRepository {
  import opened Wrappers
  import opened ValueObjects
  import opened Entities
  import opened Transactions
  import opened Queries
  import opened Documents
  import opened DocumentQueries
  import opened CommitStore

  // ---------------------------------------------------------------------------
  // Get

  /** `GetEntityQuery(entityId, versionNumber)`: the entity's commands after the version, oldest first. */
  function EntityFactsQuery(entityId: Id, versionNumber: VersionNumber): (q: Query)
    ensures q.skip.None? && q.take.None?
  {
    Query(And(StateIdIn([entityId]), Not(StateVersionLte(versionNumber))),
      Some([SortKey(StateVersionField, true)]), None, None, None)
  }

  /** The command documents `GetFacts` returns for the query. */
  function FactDocuments(commands: seq<CommandDocument>, entityId: Id, versionNumber: VersionNumber): seq<CommandDocument>
  {
    Run(EntityFactsQuery(entityId, versionNumber), commands, CommandRecord)
  }

  /** `GetFacts`: the payloads of those documents, in order. */
  function Facts(commands: seq<CommandDocument>, entityId: Id, versionNumber: VersionNumber): seq<Delta>
  {
    GetData(FactDocuments(commands, entityId, versionNumber), (d: CommandDocument) => d.data)
  }

  /** A command document passes the facts filter iff it is the entity's and newer than the version. */
  lemma EntityFactsFilter(d: CommandDocument, entityId: Id, versionNumber: VersionNumber)
    ensures Matches(EntityFactsQuery(entityId, versionNumber).filter, CommandRecord(d)) <==>
      d.entityId == entityId && d.entityVersionNumber.value > versionNumber.value
  {
    var r := CommandRecord(d);
    var f := EntityFactsQuery(entityId, versionNumber).filter;
    assert r.stateIds[0] == d.entityId;
    if d.entityId == entityId {
      assert r.stateIds[0] in [entityId];
    }
    assert Matches(f.right, r) <==> !Matches(StateVersionLte(versionNumber), r);
    assert Matches(f, r) <==> Matches(f.left, r) && Matches(f.right, r);
  }

  /** Exactly the entity's commands newer than the version are fetched. */
  lemma FactDocumentsMembers(commands: seq<CommandDocument>, entityId: Id, versionNumber: VersionNumber)
    ensures forall d :: d in FactDocuments(commands, entityId, versionNumber) <==>
      d in commands && d.entityId == entityId && d.entityVersionNumber.value > versionNumber.value
  {
    var q := EntityFactsQuery(entityId, versionNumber);
    RunUnpaginatedMembers(q, commands, CommandRecord);
    forall d ensures Matches(q.filter, CommandRecord(d)) <==>
      d.entityId == entityId && d.entityVersionNumber.value > versionNumber.value
    {
      EntityFactsFilter(d, entityId, versionNumber);
    }
  }

  /** The fetched commands come oldest first. */
  lemma FactDocumentsOrdered(commands: seq<CommandDocument>, entityId: Id, versionNumber: VersionNumber)
    ensures var found := FactDocuments(commands, entityId, versionNumber);
      forall i, j :: 0 <= i < j < |found| ==> found[i].entityVersionNumber.value <= found[j].entityVersionNumber.value
  {
    var q := EntityFactsQuery(entityId, versionNumber);
    var found := FactDocuments(commands, entityId, versionNumber);
    RunSorted(q, commands, CommandRecord);
    forall i, j | 0 <= i < j < |found| ensures found[i].entityVersionNumber.value <= found[j].entityVersionNumber.value {
      SortedPairHeadKey(SortOf(q), found, CommandRecord, i, j);
      VersionKeyOrder(true, CommandRecord(found[i]), CommandRecord(found[j]));
    }
  }

  /** Where `Get` starts: the snapshot when a snapshot repository exists and has one, else a new entity. */
  function StartEntity(entityId: Id, hasSnapshotRepository: bool, snapshot: Option<TransactionEntity>): (e: TransactionEntity)
    ensures !hasSnapshotRepository || snapshot.None? ==> e.versionNumber == MinValue
  {
    if hasSnapshotRepository && snapshot.Some? then snapshot.value else Construct(entityId)
  }

  /**
   * Replay adds exactly the newer facts: from a start at version `v`, `n` reducer facts give
   * version `v + n` (a snapshot at 1 and two newer commands give 3).
   */
  lemma ReplayAddsNewerFacts(start: TransactionEntity, facts: seq<Delta>)
    requires forall i :: 0 <= i < |facts| ==> IsReducer(facts[i])
    requires start.versionNumber.value + |facts| < UlongModulus
    ensures Fold(start, facts).Ok?
    ensures Fold(start, facts).value.versionNumber.value == start.versionNumber.value + |facts|
  {
    FoldAdvancesVersion(start, facts);
    AdvanceAdds(start.versionNumber, |facts|);
  }

  // ---------------------------------------------------------------------------
  // Put

  function EntityIdsOf(cs: seq<TransactionCommand>): (ids: seq<Id>)
    ensures |ids| == |cs| && forall i :: 0 <= i < |cs| ==> ids[i] == cs[i].entityId
  {
    seq(|cs|, i requires 0 <= i < |cs| => cs[i].entityId)
  }

  /** The index of the last command for the entity. */
  function LastIndexOf(cs: seq<TransactionCommand>, entityId: Id): (i: nat)
    requires entityId in EntityIdsOf(cs)
    ensures i < |cs| && cs[i].entityId == entityId
    ensures forall j :: i < j < |cs| ==> cs[j].entityId != entityId
    decreases |cs|
  {
    var n := |cs| - 1;
    if cs[n].entityId == entityId then n
    else
      assert entityId in EntityIdsOf(cs[..n]) by {
        var k :| 0 <= k < |cs| && EntityIdsOf(cs)[k] == entityId;
        assert EntityIdsOf(cs[..n])[k] == entityId;
      }
      LastIndexOf(cs[..n], entityId)
  }

  /** `GroupBy(EntityId).Select(Last)`: one command per entity, the last, in order of first appearance. */
  function LastCommands(cs: seq<TransactionCommand>): seq<TransactionCommand>
  {
    var ids := Distinct(EntityIdsOf(cs));
    seq(|ids|, k requires 0 <= k < |ids| => cs[LastIndexOf(cs, ids[k])])
  }

  /** `LastCommands` names each entity once. */
  lemma LastCommandsDistinct(cs: seq<TransactionCommand>)
    ensures var lcs := LastCommands(cs);
      forall k, l :: 0 <= k < l < |lcs| ==> lcs[k].entityId != lcs[l].entityId
  {
    var ids := Distinct(EntityIdsOf(cs));
    var lcs := LastCommands(cs);
    assert forall k :: 0 <= k < |lcs| ==> lcs[k].entityId == ids[k];
  }

  /** `LastCommands` names every entity the transaction writes. */
  lemma LastCommandsCover(cs: seq<TransactionCommand>, i: nat)
    requires i < |cs|
    ensures exists k :: 0 <= k < |LastCommands(cs)| && LastCommands(cs)[k].entityId == cs[i].entityId
  {
    var ids := Distinct(EntityIdsOf(cs));
    var lcs := LastCommands(cs);
    assert EntityIdsOf(cs)[i] == cs[i].entityId;
    assert cs[i].entityId in ids;
    var k :| 0 <= k < |ids| && ids[k] == cs[i].entityId;
    assert lcs[k].entityId == ids[k];
  }

  /** Each of `LastCommands` is its entity's last command in the transaction. */
  lemma LastCommandsAreLast(cs: seq<TransactionCommand>, k: nat)
    requires k < |LastCommands(cs)|
    ensures var c := LastCommands(cs)[k];
      c.entityId in EntityIdsOf(cs) && c == cs[LastIndexOf(cs, c.entityId)]
  {
    var ids := Distinct(EntityIdsOf(cs));
    assert LastCommands(cs)[k] == cs[LastIndexOf(cs, ids[k])];
  }

  /** The snapshot writes of `Put`, one last command after another. */
  function SnapshotWrites(snapshots: map<Id, TransactionEntity>, lcs: seq<TransactionCommand>,
                          shouldPut: (Option<TransactionEntity>, TransactionEntity) -> bool): map<Id, TransactionEntity>
    decreases |lcs|
  {
    if lcs == [] then snapshots
    else
      var written := SnapshotWrites(snapshots, lcs[..|lcs| - 1], shouldPut);
      var c := lcs[|lcs| - 1];
      if shouldPut(c.previousSnapshot, c.nextSnapshot) then written[c.entityId := c.nextSnapshot] else written
  }

  lemma SnapshotWritesStep(snapshots: map<Id, TransactionEntity>, lcs: seq<TransactionCommand>, i: nat,
                           shouldPut: (Option<TransactionEntity>, TransactionEntity) -> bool)
    requires i < |lcs|
    ensures var written := SnapshotWrites(snapshots, lcs[..i], shouldPut);
      SnapshotWrites(snapshots, lcs[..i + 1], shouldPut) ==
        if shouldPut(lcs[i].previousSnapshot, lcs[i].nextSnapshot) then written[lcs[i].entityId := lcs[i].nextSnapshot]
        else written
  {
    assert lcs[..i + 1][..i] == lcs[..i];
  }

  /** An entity none of the commands names keeps its snapshot, or its absence. */
  lemma {:induction false} SnapshotUntouched(snapshots: map<Id, TransactionEntity>, lcs: seq<TransactionCommand>,
                                            shouldPut: (Option<TransactionEntity>, TransactionEntity) -> bool, entityId: Id)
    requires forall k :: 0 <= k < |lcs| ==> lcs[k].entityId != entityId
    ensures var after := SnapshotWrites(snapshots, lcs, shouldPut);
      (entityId in after <==> entityId in snapshots) && (entityId in snapshots ==> after[entityId] == snapshots[entityId])
    decreases |lcs|
  {
    if lcs != [] {
      SnapshotUntouched(snapshots, lcs[..|lcs| - 1], shouldPut, entityId);
    }
  }

  /**
   * With one command per entity, the entity of the `k`-th command gets that command's next
   * snapshot iff the decision says so, and otherwise keeps what it had.
   */
  lemma {:induction false} SnapshotDecided(snapshots: map<Id, TransactionEntity>, lcs: seq<TransactionCommand>,
                                          shouldPut: (Option<TransactionEntity>, TransactionEntity) -> bool, k: nat)
    requires forall i, j :: 0 <= i < j < |lcs| ==> lcs[i].entityId != lcs[j].entityId
    requires k < |lcs|
    ensures var after := SnapshotWrites(snapshots, lcs, shouldPut);
      var c := lcs[k];
      (shouldPut(c.previousSnapshot, c.nextSnapshot) ==> c.entityId in after && after[c.entityId] == c.nextSnapshot) &&
      (!shouldPut(c.previousSnapshot, c.nextSnapshot) ==>
        (c.entityId in after <==> c.entityId in snapshots) &&
        (c.entityId in snapshots ==> after[c.entityId] == snapshots[c.entityId]))
    decreases |lcs|
  {
    var n := |lcs| - 1;
    var front := lcs[..n];
    if k == n {
      SnapshotUntouched(snapshots, front, shouldPut, lcs[k].entityId);
    } else {
      assert lcs[k] == front[k];
      SnapshotDecided(snapshots, front, shouldPut, k);
    }
  }

  /**
   * After `Put` with a snapshot repository, each entity the transaction writes holds the next
   * snapshot of its last command iff the decision accepts that command's snapshots.
   */
  lemma PutSnapshotOfEntity(snapshots: map<Id, TransactionEntity>, cs: seq<TransactionCommand>,
                            shouldPut: (Option<TransactionEntity>, TransactionEntity) -> bool, i: nat)
    requires i < |cs|
    ensures var after := SnapshotWrites(snapshots, LastCommands(cs), shouldPut);
      var e := cs[i].entityId;
      assert e in EntityIdsOf(cs);
      var last := cs[LastIndexOf(cs, e)];
      (shouldPut(last.previousSnapshot, last.nextSnapshot) ==> e in after && after[e] == last.nextSnapshot) &&
      (!shouldPut(last.previousSnapshot, last.nextSnapshot) ==>
        (e in after <==> e in snapshots) && (e in snapshots ==> after[e] == snapshots[e]))
  {
    LastCommandsCover(cs, i);
    var k :| 0 <= k < |LastCommands(cs)| && LastCommands(cs)[k].entityId == cs[i].entityId;
    LastCommandsAreLast(cs, k);
    LastCommandsDistinct(cs);
    SnapshotDecided(snapshots, LastCommands(cs), shouldPut, k);
  }

  /** Entities the transaction does not write keep their snapshots. */
  lemma PutSnapshotOthersUnchanged(snapshots: map<Id, TransactionEntity>, cs: seq<TransactionCommand>,
                                   shouldPut: (Option<TransactionEntity>, TransactionEntity) -> bool, entityId: Id)
    requires forall i :: 0 <= i < |cs| ==> cs[i].entityId != entityId
    ensures var after := SnapshotWrites(snapshots, LastCommands(cs), shouldPut);
      (entityId in after <==> entityId in snapshots) && (entityId in snapshots ==> after[entityId] == snapshots[entityId])
  {
    var lcs := LastCommands(cs);
    forall k | 0 <= k < |lcs| ensures lcs[k].entityId != entityId {
      LastCommandsAreLast(cs, k);
    }
    SnapshotUntouched(snapshots, lcs, shouldPut, entityId);
  }

  class Repository {
    /** The transaction repository. */
    const store: Store
    /** Whether a snapshot repository was supplied. */
    const hasSnapshotRepository: bool
    /** The snapshotting decision `ShouldPutSnapshot(previous, next)`. */
    const shouldPutSnapshot: (Option<TransactionEntity>, TransactionEntity) -> bool
    /** The snapshot repository's contents. */
    var snapshots: map<Id, TransactionEntity>

    ghost predicate Valid()
      reads this, store
    {
      store.Valid()
    }

    constructor (store: Store, hasSnapshotRepository: bool, shouldPutSnapshot: (Option<TransactionEntity>, TransactionEntity) -> bool)
      ensures this.store == store && this.hasSnapshotRepository == hasSnapshotRepository
      ensures this.shouldPutSnapshot == shouldPutSnapshot && snapshots == map[]
    {
      this.store := store;
      this.hasSnapshotRepository := hasSnapshotRepository;
      this.shouldPutSnapshot := shouldPutSnapshot;
      snapshots := map[];
    }

    /** The snapshot the snapshot repository holds for the entity, if any. */
    function SnapshotOf(entityId: Id): (s: Option<TransactionEntity>)
      reads this
      ensures s.Some? <==> entityId in snapshots
      ensures s.Some? ==> s.value == snapshots[entityId]
    {
      if entityId in snapshots then Some(snapshots[entityId]) else None
    }

    /** `Get(entityId)`: snapshot-or-construct, reduced by the facts newer than it. */
    method Get(entityId: Id) returns (r: Result<TransactionEntity, ReduceError>)
      ensures var start := StartEntity(entityId, hasSnapshotRepository, SnapshotOf(entityId));
        r == Fold(start, Facts(store.commands, entityId, start.versionNumber))
    {
      var snapshot: Option<TransactionEntity> := None;
      if hasSnapshotRepository {
        snapshot := SnapshotOf(entityId);
      }
      var entity := if snapshot.Some? then snapshot.value else Construct(entityId);
      var versionNumber := GetVersionNumber(entity);
      var facts := Facts(store.commands, entityId, versionNumber);
      r := Reduce(entity, facts);
    }

    /**
     * `Put(transaction)`: with a snapshot repository, offer each entity's last command to the
     * snapshotting decision and write the next snapshot where it says so; then forward the
     * transaction and return the store's answer, whether or not snapshots were written.
     */
    method Put(t: Transaction) returns (committed: bool)
      requires Valid()
      modifies this, store
      ensures Valid()
      ensures snapshots == (if hasSnapshotRepository
        then SnapshotWrites(old(snapshots), LastCommands(t.commands), shouldPutSnapshot)
        else old(snapshots))
      ensures store.readOnly ==> !committed && store.State() == old(store.State())
      ensures !store.readOnly ==>
        var expected := ApplyTransaction(old(store.State()), t, store.millisecondPrecision);
        committed == expected.Ok? &&
        store.State() == (if expected.Ok? then expected.value else old(store.State()))
    {
      if hasSnapshotRepository {
        var lastCommands := LastCommands(t.commands);
        var i := 0;
        while i < |lastCommands|
          invariant 0 <= i <= |lastCommands|
          invariant snapshots == SnapshotWrites(old(snapshots), lastCommands[..i], shouldPutSnapshot)
          invariant store.State() == old(store.State()) && store.Valid()
        {
          var lastCommand := lastCommands[i];
          SnapshotWritesStep(old(snapshots), lastCommands, i, shouldPutSnapshot);
          if shouldPutSnapshot(lastCommand.previousSnapshot, lastCommand.nextSnapshot) {
            snapshots := snapshots[lastCommand.entityId := lastCommand.nextSnapshot];
          }
          i := i + 1;
        }
        assert lastCommands[..i] == lastCommands;
      }
      var rejection;
      committed, rejection := store.PutTransaction(t);
    }
  }
}
