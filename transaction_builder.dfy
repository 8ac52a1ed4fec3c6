/**
 * The single-entity transaction builder: it remembers whether its entity is known, the
 * entity's current state, and the ordered steps appended since the last `Build`.
 */
module TransactionBuilder {
  import opened Wrappers
  import opened ValueObjects
  import opened Entities
  import opened Transactions

  /** The exceptions the builder throws. */
  datatype BuilderError =
    | KeyNotFound
    | EntityAlreadyKnown
    | NotAReducer(payload: Delta)

  /** A transaction step, in the builder's output shape. */
  datatype Step =
    | AppendCommandStep(entityId: Id, previousEntityVersionNumber: VersionNumber,
                        entityVersionNumber: VersionNumber, entity: TransactionEntity, command: Delta)
    | AddLeasesStep(entityId: Id, leases: seq<Lease>)
    | DeleteLeasesStep(entityId: Id, leases: seq<Lease>)
    | AddTagsStep(entityId: Id, tags: seq<Tag>)
    | DeleteTagsStep(entityId: Id, tags: seq<Tag>)

  /** What `Build` returns. */
  datatype BuiltTransaction = BuiltTransaction(id: Id, agentSignature: AgentSignature, steps: seq<Step>)

  /** The builder's state as a value: the entity when known, and the pending steps. */
  datatype BuilderState = BuilderState(entity: Option<TransactionEntity>, steps: seq<Step>)

  /** The version `Append` continues from: the known entity's, or 0 for a new entity. */
  function CurrentVersion(s: BuilderState): VersionNumber
  {
    if s.entity.Some? then s.entity.value.versionNumber else MinValue
  }

  /**
   * `Append(command)`: reduce the known entity (or a freshly constructed one) by the command
   * and record one append step; a non-reducer leaves the builder as it was.
   */
  function AppendState(entityId: Id, s: BuilderState, command: Delta): Result<BuilderState, BuilderError>
  {
    var previous := if s.entity.Some? then s.entity.value else Construct(entityId);
    match Fold(previous, [command])
    case Err(_) => Err(NotAReducer(command))
    case Ok(next) =>
      Ok(BuilderState(Some(next),
        s.steps + [AppendCommandStep(entityId, previous.versionNumber, next.versionNumber, next, command)]))
  }

  /** Several appends in a row, stopping at the first failure. */
  function AppendAll(entityId: Id, s: BuilderState, commands: seq<Delta>): Result<BuilderState, BuilderError>
    decreases |commands|
  {
    if commands == [] then Ok(s)
    else
      match AppendState(entityId, s, commands[0])
      case Err(e) => Err(e)
      case Ok(next) => AppendAll(entityId, next, commands[1..])
  }

  /** One append: exactly one new step, from the current version to the next, carrying the command. */
  lemma AppendOneStep(entityId: Id, s: BuilderState, command: Delta)
    ensures AppendState(entityId, s, command).Ok? <==> IsReducer(command)
    ensures IsReducer(command) ==>
      var next := AppendState(entityId, s, command).value;
      next.entity == Some(TransactionEntity(Next(CurrentVersion(s)))) &&
      next.steps == s.steps + [AppendCommandStep(entityId, CurrentVersion(s), Next(CurrentVersion(s)),
                                                 TransactionEntity(Next(CurrentVersion(s))), command)]
  {
    var previous := if s.entity.Some? then s.entity.value else Construct(entityId);
    assert Fold(previous, [command]) == (if IsReducer(command) then Fold(ApplyReducer(previous, command), []) else Err(NotImplemented(command)));
  }

  /** The steps `n` appends of `commands` record, starting from version `v`: versions `v+1 .. v+n`, in order. */
  function AppendedSteps(entityId: Id, v: nat, commands: seq<Delta>): (steps: seq<Step>)
    requires v + |commands| < UlongModulus
    ensures |steps| == |commands|
  {
    seq(|commands|, i requires 0 <= i < |commands| =>
      AppendCommandStep(entityId, VersionNumber(v + i), VersionNumber(v + i + 1),
                        TransactionEntity(VersionNumber(v + i + 1)), commands[i]))
  }

  /**
   * `n` appends of reducers from version `v` give `n` new steps at versions `v+1 .. v+n`,
   * in order, each carrying its command; the steps already pending stay in front.
   */
  lemma {:induction false} AppendAllVersions(entityId: Id, s: BuilderState, commands: seq<Delta>)
    requires forall i :: 0 <= i < |commands| ==> IsReducer(commands[i])
    requires CurrentVersion(s).value + |commands| < UlongModulus
    ensures AppendAll(entityId, s, commands).Ok?
    ensures var r := AppendAll(entityId, s, commands).value;
      r.steps == s.steps + AppendedSteps(entityId, CurrentVersion(s).value, commands) &&
      CurrentVersion(r).value == CurrentVersion(s).value + |commands| &&
      (commands == [] ==> r == s) &&
      (commands != [] ==> r.entity.Some?)
    decreases |commands|
  {
    if commands != [] {
      var v := CurrentVersion(s).value;
      AppendOneStep(entityId, s, commands[0]);
      var next := AppendState(entityId, s, commands[0]).value;
      assert CurrentVersion(s) != MaxValue;
      assert CurrentVersion(next).value == v + 1;
      assert forall i :: 0 <= i < |commands[1..]| ==> IsReducer(commands[1..][i]);
      AppendAllVersions(entityId, next, commands[1..]);
      var tail := AppendedSteps(entityId, v + 1, commands[1..]);
      assert AppendedSteps(entityId, v, commands) == [next.steps[|s.steps|]] + tail by {
        forall i | 1 <= i < |commands| ensures AppendedSteps(entityId, v, commands)[i] == tail[i - 1] {
          assert commands[i] == commands[1..][i - 1];
        }
      }
      assert next.steps + tail == s.steps + ([next.steps[|s.steps|]] + tail);
    }
  }

  /** A new builder and `n` reducers: exactly `n` append steps at versions `1 .. n`. */
  lemma NewEntityVersionsCount(entityId: Id, commands: seq<Delta>)
    requires forall i :: 0 <= i < |commands| ==> IsReducer(commands[i])
    requires |commands| < UlongModulus
    ensures AppendAll(entityId, BuilderState(None, []), commands).Ok?
    ensures var steps := AppendAll(entityId, BuilderState(None, []), commands).value.steps;
      |steps| == |commands| &&
      forall i :: 0 <= i < |commands| ==>
        steps[i].AppendCommandStep? && steps[i].entityVersionNumber.value == i + 1 && steps[i].command == commands[i]
  {
    AppendAllVersions(entityId, BuilderState(None, []), commands);
  }

  /** `Build`: hand over the pending steps and start afresh, keeping the entity and its version. */
  function BuildState(s: BuilderState): (r: BuilderState)
    ensures r.steps == [] && r.entity == s.entity && CurrentVersion(r) == CurrentVersion(s)
  {
    s.(steps := [])
  }

  /**
   * Versions continue across `Build`: append, build, append again, and the second transaction's
   * only step is at the version after the first's.
   */
  lemma VersionsContinueAcrossBuild(entityId: Id, s: BuilderState, first: Delta, second: Delta)
    requires IsReducer(first) && IsReducer(second)
    requires CurrentVersion(s).value + 2 < UlongModulus
    ensures AppendState(entityId, s, first).Ok?
    ensures var afterBuild := BuildState(AppendState(entityId, s, first).value);
      AppendState(entityId, afterBuild, second).Ok? &&
      var steps := AppendState(entityId, afterBuild, second).value.steps;
      |steps| == 1 && steps[0].command == second &&
      steps[0].entityVersionNumber.value == CurrentVersion(s).value + 2
  {
    AppendOneStep(entityId, s, first);
    var afterBuild := BuildState(AppendState(entityId, s, first).value);
    AppendOneStep(entityId, afterBuild, second);
  }

  /** The command an append step asks the store to write: no facts, leases or tags, no previous snapshot. */
  function AppendCommandOf(step: Step): (c: TransactionCommand)
    requires step.AppendCommandStep?
    ensures c.entityId == step.entityId && c.command == step.command
    ensures c.expectedPreviousVersionNumber == step.previousEntityVersionNumber
  {
    TransactionCommand(None, step.entity, step.entityId, step.previousEntityVersionNumber, step.command, [], [], [], [], [])
  }

  /** The version a builder's append step announces is the version the store writes for it. */
  lemma AppendStepVersionIsStored(entityId: Id, s: BuilderState, command: Delta)
    requires IsReducer(command)
    ensures AppendState(entityId, s, command).Ok? && |AppendState(entityId, s, command).value.steps| > |s.steps|
    ensures var step := AppendState(entityId, s, command).value.steps[|s.steps|];
      step.AppendCommandStep? && EntityVersionNumber(AppendCommandOf(step)) == step.entityVersionNumber
  {
    AppendOneStep(entityId, s, command);
  }

  class SingleEntityTransactionBuilder {
    /** The id every step of this builder is for. */
    const entityId: Id
    var entity: Option<TransactionEntity>
    var steps: seq<Step>

    function State(): BuilderState
      reads this
    {
      BuilderState(entity, steps)
    }

    constructor (entityId: Id)
      ensures this.entityId == entityId && entity.None? && steps == []
    {
      this.entityId := entityId;
      entity := None;
      steps := [];
    }

    /** Whether an entity is in memory, created by `Append` or given to `Load`. */
    predicate IsEntityKnown()
      reads this
    {
      entity.Some?
    }

    /** `GetEntity`: the known entity, or `KeyNotFound` when there is none. */
    function GetEntity(): (r: Result<TransactionEntity, BuilderError>)
      reads this
      ensures r.Ok? <==> IsEntityKnown()
      ensures r.Ok? ==> entity == Some(r.value)
      ensures r.Err? ==> r.error == KeyNotFound
    {
      if entity.Some? then Ok(entity.value) else Err(KeyNotFound)
    }

    /** `Load(entity)`: only for an entity not yet known. */
    method Load(e: TransactionEntity) returns (err: Option<BuilderError>)
      modifies this
      ensures old(IsEntityKnown()) ==> err == Some(EntityAlreadyKnown) && State() == old(State())
      ensures !old(IsEntityKnown()) ==> err.None? && entity == Some(e) && steps == old(steps)
      ensures GetEntity().Ok?
    {
      if entity.Some? {
        return Some(EntityAlreadyKnown);
      }
      entity := Some(e);
      return None;
    }

    /** `Append(command)`. */
    method Append(command: Delta) returns (err: Option<BuilderError>)
      modifies this
      ensures var expected := AppendState(entityId, old(State()), command);
        (expected.Ok? ==> err.None? && State() == expected.value) &&
        (expected.Err? ==> err == Some(expected.error) && State() == old(State()))
    {
      var previous := if entity.Some? then entity.value else Construct(entityId);
      var reduced := Reduce(previous, [command]);
      if reduced.Err? {
        return Some(NotAReducer(command));
      }
      var next := reduced.value;
      steps := steps + [AppendCommandStep(entityId, previous.versionNumber, next.versionNumber, next, command)];
      entity := Some(next);
      return None;
    }

    /** `Add(lease)`: one add-leases step holding the lease. */
    method AddLease(lease: Lease)
      modifies this
      ensures entity == old(entity) && steps == old(steps) + [AddLeasesStep(entityId, [lease])]
    {
      steps := steps + [AddLeasesStep(entityId, [lease])];
    }

    /** `Delete(lease)`: one delete-leases step holding the lease. */
    method DeleteLease(lease: Lease)
      modifies this
      ensures entity == old(entity) && steps == old(steps) + [DeleteLeasesStep(entityId, [lease])]
    {
      steps := steps + [DeleteLeasesStep(entityId, [lease])];
    }

    /** `Add(tag)`: one add-tags step holding the tag. */
    method AddTag(tag: Tag)
      modifies this
      ensures entity == old(entity) && steps == old(steps) + [AddTagsStep(entityId, [tag])]
    {
      steps := steps + [AddTagsStep(entityId, [tag])];
    }

    /** `Delete(tag)`: one delete-tags step holding the tag. */
    method DeleteTag(tag: Tag)
      modifies this
      ensures entity == old(entity) && steps == old(steps) + [DeleteTagsStep(entityId, [tag])]
    {
      steps := steps + [DeleteTagsStep(entityId, [tag])];
    }

    /** `Build(agentSignature, transactionId)`: the pending steps, in order; the entity stays known. */
    method Build(agentSignature: AgentSignature, transactionId: Id) returns (t: BuiltTransaction)
      modifies this
      ensures t == BuiltTransaction(transactionId, agentSignature, old(steps))
      ensures State() == BuildState(old(State()))
    {
      t := BuiltTransaction(transactionId, agentSignature, steps);
      steps := [];
    }
  }
}
