/**
 * The entity contract, as the test entity `TransactionEntity` implements it:
 * construct at version 0, read the version, and reduce a batch of deltas.
 */
module Entities {
  import opened Wrappers
  import opened ValueObjects

  /** The deltas the model knows: two reducers from the test suite and any non-reducer payload. */
  datatype Delta =
    | DoNothing
    | Count(number: int)
    | Unreducible(typeName: string)

  /** Whether the payload implements `IReducer<TransactionEntity>`. */
  predicate IsReducer(d: Delta) { !d.Unreducible? }

  /** The exception `Reduce` raises on a payload that is not a reducer. */
  datatype ReduceError = NotImplemented(payload: Delta)

  /** The test entity: a record holding only its version number (default 0). */
  datatype TransactionEntity = TransactionEntity(versionNumber: VersionNumber)

  /** `Construct(entityId)`: ignores the id and returns the default entity, at version 0. */
  function Construct(entityId: Id): (e: TransactionEntity)
    ensures e.versionNumber == MinValue
  {
    TransactionEntity(MinValue)
  }

  /** `GetVersionNumber()`: the record's version field, unchanged. */
  function GetVersionNumber(e: TransactionEntity): (v: VersionNumber)
    ensures TransactionEntity(v) == e
  {
    e.versionNumber
  }

  /** One reducer applied to the entity; every test reducer advances the version by `Next`. */
  function ApplyReducer(e: TransactionEntity, d: Delta): (r: TransactionEntity)
    requires IsReducer(d)
    ensures r.versionNumber == Next(e.versionNumber)
  {
    TransactionEntity(Next(e.versionNumber))
  }

  /**
   * The specification of `Reduce`: a left fold of the reducers over the entity,
   * failing on the first element that is not a reducer.
   */
  function Fold(e: TransactionEntity, deltas: seq<Delta>): Result<TransactionEntity, ReduceError>
    decreases |deltas|
  {
    if deltas == [] then Ok(e)
    else if !IsReducer(deltas[0]) then Err(NotImplemented(deltas[0]))
    else Fold(ApplyReducer(e, deltas[0]), deltas[1..])
  }

  /**
   * `Reduce(commands)`: starts from this entity and replaces it with each reducer's result in turn;
   * throws, and returns nothing, on a non-reducer.
   */
  method Reduce(e: TransactionEntity, deltas: seq<Delta>) returns (r: Result<TransactionEntity, ReduceError>)
    ensures r == Fold(e, deltas)
  {
    var newEntity := e;
    var i := 0;
    while i < |deltas|
      invariant 0 <= i <= |deltas|
      invariant forall j :: 0 <= j < i ==> IsReducer(deltas[j])
      invariant Fold(e, deltas) == Fold(newEntity, deltas[i..])
    {
      var delta := deltas[i];
      if !IsReducer(delta) {
        return Err(NotImplemented(delta));
      }
      assert deltas[i..][1..] == deltas[i + 1..];
      newEntity := ApplyReducer(newEntity, delta);
      i := i + 1;
    }
    return Ok(newEntity);
  }

  /** `Reduce` fails exactly when some element is not a reducer, naming the first such element. */
  lemma {:induction false} FoldFailsIffNonReducer(e: TransactionEntity, deltas: seq<Delta>)
    ensures Fold(e, deltas).Err? <==> exists i :: 0 <= i < |deltas| && !IsReducer(deltas[i])
    ensures Fold(e, deltas).Err? ==>
      exists i :: 0 <= i < |deltas| && !IsReducer(deltas[i]) &&
        Fold(e, deltas).error == NotImplemented(deltas[i]) &&
        forall j :: 0 <= j < i ==> IsReducer(deltas[j])
    decreases |deltas|
  {
    if deltas != [] && IsReducer(deltas[0]) {
      var rest := deltas[1..];
      FoldFailsIffNonReducer(ApplyReducer(e, deltas[0]), rest);
      if Fold(e, deltas).Err? {
        var k :| 0 <= k < |rest| && !IsReducer(rest[k]) &&
          Fold(e, deltas).error == NotImplemented(rest[k]) && forall j :: 0 <= j < k ==> IsReducer(rest[j]);
        assert deltas[k + 1] == rest[k];
        assert forall j :: 1 <= j < k + 1 ==> deltas[j] == rest[j - 1];
      } else {
        forall i | 0 <= i < |deltas| ensures IsReducer(deltas[i]) {
          if i > 0 { assert deltas[i] == rest[i - 1]; }
        }
      }
    }
  }

  /** On reducers only, the result is `n` version steps past the start. */
  lemma {:induction false} FoldAdvancesVersion(e: TransactionEntity, deltas: seq<Delta>)
    requires forall i :: 0 <= i < |deltas| ==> IsReducer(deltas[i])
    ensures Fold(e, deltas) == Ok(TransactionEntity(Advance(e.versionNumber, |deltas|)))
    decreases |deltas|
  {
    if deltas != [] {
      FoldAdvancesVersion(ApplyReducer(e, deltas[0]), deltas[1..]);
      AdvanceCommutes(e.versionNumber, |deltas| - 1);
    }
  }

  lemma {:induction false} AdvanceCommutes(v: VersionNumber, n: nat)
    ensures Advance(Next(v), n) == Next(Advance(v, n))
  {
    if n > 0 {
      AdvanceCommutes(v, n - 1);
    }
  }

  /** Reducing `a + b` is reducing `a`, then reducing `b` from its result. */
  lemma {:induction false} FoldConcat(e: TransactionEntity, a: seq<Delta>, b: seq<Delta>)
    ensures Fold(e, a + b) == (match Fold(e, a)
                               case Ok(m) => Fold(m, b)
                               case Err(x) => Err(x))
    decreases |a|
  {
    if a == [] {
      assert a + b == b;
    } else {
      assert (a + b)[0] == a[0];
      if IsReducer(a[0]) {
        assert (a + b)[1..] == a[1..] + b;
        FoldConcat(ApplyReducer(e, a[0]), a[1..], b);
      }
    }
  }

  /** `ShouldReplace`: the test entity replaces every previous snapshot, including none. */
  function ShouldReplace(e: TransactionEntity, previousSnapshot: Option<TransactionEntity>): (r: bool)
    ensures r
  {
    true
  }
}
