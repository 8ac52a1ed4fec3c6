/**
 * The session repository over several entities: a map of the entities known in this session
 * and the list of messages appended since the last commit. The backend's verdict on a commit,
 * the agent, the stored state and the delta replay are inputs of the operations.
 */
module MultipleEntityRepository {
  import opened Wrappers
  import opened ValueObjects
  import opened Entities
  import opened Transactions

  /** A state (entity) id and a version of it. */
  datatype StatePointer = StatePointer(id: Id, stateVersion: VersionNumber)

  /** `entity.GetPointer()`: the entity's id and current version. */
  function PointerOf(entityId: Id, e: TransactionEntity): (p: StatePointer)
    ensures p.id == entityId && p.stateVersion == e.versionNumber
  {
    StatePointer(entityId, e.versionNumber)
  }

  /** A pending message: the pointer of the state it produced and the delta that produced it. */
  datatype Message = Message(statePointer: StatePointer, delta: Delta)

  /** What `Commit` hands to the source repository. */
  datatype Source = Source(id: Id, timeStamp: TimeStamp, agentSignature: AgentSignature, messages: seq<Message>)

  /** The exceptions the repository throws. */
  datatype RepositoryError =
    | ExistingEntity
    | UnknownEntity
    | NotAReducer(payload: Delta)
    | DuplicateKey

  /** The pointer of the latest pending message for an entity, if any. */
  function LatestPointer(messages: seq<Message>, entityId: Id): (r: Option<StatePointer>)
    ensures r.Some? <==> exists i :: 0 <= i < |messages| && messages[i].statePointer.id == entityId
    ensures r.Some? ==> r.value.id == entityId && r.value in (set m | m in messages :: m.statePointer)
    decreases |messages|
  {
    if messages == [] then None
    else
      var last := messages[|messages| - 1];
      var front := messages[..|messages| - 1];
      assert forall i :: 0 <= i < |front| ==> front[i] == messages[i];
      if last.statePointer.id == entityId then Some(last.statePointer)
      else
        var r := LatestPointer(front, entityId);
        assert r.Some? ==> r.value in (set m | m in front :: m.statePointer);
        assert forall m :: m in front ==> m in messages;
        r
  }

  /** A message appended at the end is the latest for its entity; the others' latest are unchanged. */
  lemma LatestPointerAppend(messages: seq<Message>, m: Message, entityId: Id)
    ensures LatestPointer(messages + [m], entityId) ==
      if m.statePointer.id == entityId then Some(m.statePointer) else LatestPointer(messages, entityId)
  {
    assert (messages + [m])[..|messages|] == messages;
  }

  /**
   * The session invariant: every pending message is about a known entity, and the latest
   * message for an entity carries that entity's current pointer.
   */
  predicate SessionConsistent(known: map<Id, TransactionEntity>, messages: seq<Message>)
  {
    (forall i :: 0 <= i < |messages| ==> messages[i].statePointer.id in known) &&
    (forall id :: id in known && LatestPointer(messages, id).Some? ==>
      LatestPointer(messages, id).value == PointerOf(id, known[id]))
  }

  /** An unknown entity has no pending message, so registering it keeps the session consistent. */
  lemma RegisterKeepsConsistent(known: map<Id, TransactionEntity>, messages: seq<Message>, entityId: Id, e: TransactionEntity)
    requires SessionConsistent(known, messages) && entityId !in known
    ensures SessionConsistent(known[entityId := e], messages)
  {
  }

  /** Appending a message with the reduced entity's pointer keeps the session consistent. */
  lemma AppendKeepsConsistent(known: map<Id, TransactionEntity>, messages: seq<Message>, entityId: Id, e: TransactionEntity, delta: Delta)
    requires SessionConsistent(known, messages) && entityId in known
    ensures SessionConsistent(known[entityId := e], messages + [Message(PointerOf(entityId, e), delta)])
  {
    var m := Message(PointerOf(entityId, e), delta);
    forall id | id in known[entityId := e]
      ensures LatestPointer(messages + [m], id) ==
        if id == entityId then Some(PointerOf(entityId, e)) else LatestPointer(messages, id)
    {
      LatestPointerAppend(messages, m, id);
    }
  }

  class Repository {
    /** Whether a state (snapshot) repository was supplied. */
    const hasStateRepository: bool
    /** `StatePointer.IsSatisfiedBy`: whether a requested pointer is met by an actual one. */
    const isSatisfiedBy: (StatePointer, StatePointer) -> bool
    var knownEntities: map<Id, TransactionEntity>
    var messages: seq<Message>

    ghost predicate Valid()
      reads this
    {
      SessionConsistent(knownEntities, messages)
    }

    constructor (hasStateRepository: bool, isSatisfiedBy: (StatePointer, StatePointer) -> bool)
      ensures this.hasStateRepository == hasStateRepository && this.isSatisfiedBy == isSatisfiedBy
      ensures knownEntities == map[] && messages == [] && Valid()
    {
      this.hasStateRepository := hasStateRepository;
      this.isSatisfiedBy := isSatisfiedBy;
      knownEntities := map[];
      messages := [];
    }

    /** `Create(entityId)`: register a newly constructed entity; no message is added. */
    method Create(entityId: Id) returns (err: Option<RepositoryError>)
      requires Valid()
      modifies this
      ensures Valid() && messages == old(messages)
      ensures entityId in old(knownEntities) ==> err == Some(ExistingEntity) && knownEntities == old(knownEntities)
      ensures entityId !in old(knownEntities) ==>
        err.None? && knownEntities == old(knownEntities)[entityId := Construct(entityId)]
    {
      if entityId in knownEntities {
        return Some(ExistingEntity);
      }
      RegisterKeepsConsistent(knownEntities, messages, entityId, Construct(entityId));
      knownEntities := knownEntities[entityId := Construct(entityId)];
      return None;
    }

    /**
     * `Get(entityId)`: the known entity unchanged, or `UnknownEntity`. In a consistent session
     * the entity returned is the one the latest pending message for it points at, and an
     * entity with a pending message is always found.
     */
    function Get(entityId: Id): (r: Result<TransactionEntity, RepositoryError>)
      reads this
      ensures r.Ok? <==> entityId in knownEntities
      ensures r.Ok? ==> r.value == knownEntities[entityId]
      ensures r.Err? ==> r.error == UnknownEntity
      ensures Valid() && LatestPointer(messages, entityId).Some? ==>
        r.Ok? && LatestPointer(messages, entityId).value == PointerOf(entityId, r.value)
    {
      if entityId in knownEntities then Ok(knownEntities[entityId]) else Err(UnknownEntity)
    }

    /**
     * `Append(entityId, delta)`: reduce the known entity by the delta, add one message with the
     * reduced entity's pointer at the end, and replace that entity only.
     */
    method Append(entityId: Id, delta: Delta) returns (err: Option<RepositoryError>)
      requires Valid()
      modifies this
      ensures Valid()
      ensures entityId !in old(knownEntities) ==>
        err == Some(UnknownEntity) && knownEntities == old(knownEntities) && messages == old(messages)
      ensures entityId in old(knownEntities) && !IsReducer(delta) ==>
        err == Some(NotAReducer(delta)) && knownEntities == old(knownEntities) && messages == old(messages)
      ensures entityId in old(knownEntities) && IsReducer(delta) ==>
        var reduced := ApplyReducer(old(knownEntities)[entityId], delta);
        err.None? &&
        knownEntities == old(knownEntities)[entityId := reduced] &&
        messages == old(messages) + [Message(PointerOf(entityId, reduced), delta)]
    {
      if entityId !in knownEntities {
        return Some(UnknownEntity);
      }
      var reduced := Reduce(knownEntities[entityId], [delta]);
      if reduced.Err? {
        return Some(NotAReducer(delta));
      }
      var entity := reduced.value;
      AppendKeepsConsistent(knownEntities, messages, entityId, entity, delta);
      messages := messages + [Message(PointerOf(entityId, entity), delta)];
      knownEntities := knownEntities[entityId := entity];
      return None;
    }

    /**
     * `TryLoad(pointer)`. `snapshot` is what the state repository returns for the pointer and
     * `deltas` what the source repository enumerates after the start version. A known entity
     * that satisfies the pointer, or is ahead of it, is left alone; otherwise the start entity
     * is replayed and kept only when it satisfies the pointer. A known entity that was behind
     * reaches the dictionary insertion of an existing key, which fails.
     */
    method TryLoad(pointer: StatePointer, snapshot: Option<TransactionEntity>, deltas: seq<Delta>)
      returns (r: Result<bool, RepositoryError>)
      requires Valid()
      modifies this
      ensures Valid() && messages == old(messages)
      ensures pointer.id in old(knownEntities) ==> knownEntities == old(knownEntities)
      ensures (pointer.id in old(knownEntities) &&
               isSatisfiedBy(pointer, PointerOf(pointer.id, old(knownEntities)[pointer.id]))) ==> r == Ok(true)
      ensures (pointer.id in old(knownEntities) &&
               !isSatisfiedBy(pointer, PointerOf(pointer.id, old(knownEntities)[pointer.id])) &&
               pointer.stateVersion.value < old(knownEntities)[pointer.id].versionNumber.value) ==> r == Ok(false)
      ensures (pointer.id in old(knownEntities) &&
               !isSatisfiedBy(pointer, PointerOf(pointer.id, old(knownEntities)[pointer.id])) &&
               pointer.stateVersion.value >= old(knownEntities)[pointer.id].versionNumber.value) ==>
        match Fold(old(knownEntities)[pointer.id], deltas)
        case Err(e) => r == Err(NotAReducer(e.payload))
        case Ok(e) => r == (if isSatisfiedBy(pointer, PointerOf(pointer.id, e)) then Err(DuplicateKey) else Ok(false))
      ensures pointer.id !in old(knownEntities) ==>
        var start := if hasStateRepository && snapshot.Some? then snapshot.value else Construct(pointer.id);
        match Fold(start, deltas)
        case Err(e) => r == Err(NotAReducer(e.payload)) && knownEntities == old(knownEntities)
        case Ok(e) =>
          if isSatisfiedBy(pointer, PointerOf(pointer.id, e))
          then r == Ok(true) && knownEntities == old(knownEntities)[pointer.id := e]
          else r == Ok(false) && knownEntities == old(knownEntities)
    {
      var entityId := pointer.id;
      var entity: TransactionEntity;
      var known := entityId in knownEntities;
      if known {
        entity := knownEntities[entityId];
        var knownPointer := PointerOf(entityId, entity);
        if isSatisfiedBy(pointer, knownPointer) {
          return Ok(true);
        }
        if pointer.stateVersion.value < knownPointer.stateVersion.value {
          return Ok(false);
        }
      } else if hasStateRepository && snapshot.Some? {
        entity := snapshot.value;
      } else {
        entity := Construct(entityId);
      }
      var replayed := Reduce(entity, deltas);
      if replayed.Err? {
        return Err(NotAReducer(replayed.error.payload));
      }
      entity := replayed.value;
      if !isSatisfiedBy(pointer, PointerOf(entityId, entity)) {
        return Ok(false);
      }
      if known {
        return Err(DuplicateKey);
      }
      RegisterKeepsConsistent(knownEntities, messages, entityId, entity);
      knownEntities := knownEntities[entityId := entity];
      return Ok(true);
    }

    /**
     * `Commit`: with no pending message, succeed without contacting anyone. Otherwise submit
     * one source holding the pending messages in order; `backendCommits` is the source
     * repository's answer. Only a successful commit clears the pending messages.
     */
    method Commit(sourceId: Id, agentTimeStamp: TimeStamp, agentSignature: AgentSignature, backendCommits: bool)
      returns (committed: bool, submitted: Option<Source>)
      requires Valid()
      modifies this
      ensures Valid() && knownEntities == old(knownEntities)
      ensures old(messages) == [] ==> committed && submitted.None? && messages == []
      ensures old(messages) != [] ==>
        submitted == Some(Source(sourceId, agentTimeStamp, agentSignature, old(messages))) &&
        committed == backendCommits &&
        messages == (if backendCommits then [] else old(messages))
    {
      if messages == [] {
        return true, None;
      }
      var source := Source(sourceId, agentTimeStamp, agentSignature, messages);
      if !backendCommits {
        return false, Some(source);
      }
      messages := [];
      return true, Some(source);
    }
  }
}
