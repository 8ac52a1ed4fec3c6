/**
 * The read side of the document backend: extracting ids (distinct, then skip, then take),
 * reading a single version number, and projecting documents to data and annotations.
 */
module DocumentQueries {
  import opened Wrappers
  import opened ValueObjects
  import opened Entities
  import opened QueryOrder
  import opened Queries
  import opened Documents

  predicate NoDuplicates(s: seq<Id>)
  {
    forall i, j :: 0 <= i < j < |s| ==> s[i] != s[j]
  }

  /** LINQ `Distinct`: the first occurrence of each id, in order of first occurrence. */
  function Distinct(s: seq<Id>): (r: seq<Id>)
    ensures NoDuplicates(r)
    ensures forall x :: x in r <==> x in s
    ensures |r| <= |s|
    decreases |s|
  {
    if s == [] then []
    else
      var d := Distinct(s[..|s| - 1]);
      assert s == s[..|s| - 1] + [s[|s| - 1]];
      if s[|s| - 1] in d then d else d + [s[|s| - 1]]
  }

  /** Where an id first occurs. */
  function FirstIndex(s: seq<Id>, x: Id): (i: nat)
    requires x in s
    ensures i < |s| && s[i] == x && x !in s[..i]
  {
    if s[0] == x then 0
    else
      var j := FirstIndex(s[1..], x);
      assert s[..j + 1] == [s[0]] + s[1..][..j];
      j + 1
  }

  /** An id that already occurs keeps its first index when more ids follow. */
  lemma FirstIndexSnoc(s: seq<Id>, x: Id, y: Id)
    requires y in s
    ensures FirstIndex(s + [x], y) == FirstIndex(s, y)
  {
    var i := FirstIndex(s, y);
    assert (s + [x])[..i] == s[..i];
    FirstIndexUnique(s + [x], y, i);
  }

  /** The first index is the only index of the id with no earlier occurrence. */
  lemma FirstIndexUnique(s: seq<Id>, y: Id, i: nat)
    requires i < |s| && s[i] == y && y !in s[..i]
    ensures FirstIndex(s, y) == i
  {
  }

  /**
   * `Distinct` keeps first occurrences in their order: each id of the result first occurs in the
   * input before the next one does. With its members and no duplicates, this fixes the result.
   */
  lemma {:induction false} DistinctFirstOccurrenceOrder(s: seq<Id>)
    ensures forall k, l :: 0 <= k < l < |Distinct(s)| ==>
      FirstIndex(s, Distinct(s)[k]) < FirstIndex(s, Distinct(s)[l])
    decreases |s|
  {
    if s != [] {
      var init, x := s[..|s| - 1], s[|s| - 1];
      assert s == init + [x];
      var d := Distinct(init);
      DistinctFirstOccurrenceOrder(init);
      var r := Distinct(s);
      forall k, l | 0 <= k < l < |r| ensures FirstIndex(s, r[k]) < FirstIndex(s, r[l]) {
        assert r[k] == d[k];
        FirstIndexSnoc(init, x, d[k]);
        if l < |d| {
          assert r[l] == d[l];
          FirstIndexSnoc(init, x, d[l]);
        } else {
          assert r[l] == x && x !in init;
        }
      }
    }
  }

  /** A sequence already free of duplicates is its own `Distinct`. */
  lemma {:induction false} DistinctOfDistinct(s: seq<Id>)
    requires NoDuplicates(s)
    ensures Distinct(s) == s
    decreases |s|
  {
    if s != [] {
      var init := s[..|s| - 1];
      assert NoDuplicates(init);
      DistinctOfDistinct(init);
      assert s[|s| - 1] !in init;
      assert s == init + [s[|s| - 1]];
    }
  }

  /** `Distinct` is idempotent. */
  lemma DistinctIdempotent(s: seq<Id>)
    ensures Distinct(Distinct(s)) == Distinct(s)
  {
    DistinctOfDistinct(Distinct(s));
  }

  /** Which ids a document contributes. */
  datatype IdProjection = EntityIdProjection | EntityIdsProjection | TransactionIdProjection

  function ProjectIds(p: IdProjection, r: Record): seq<Id>
  {
    match p
    case EntityIdProjection => if r.stateIds == [] then [] else [r.stateIds[0]]
    case EntityIdsProjection => r.stateIds
    case TransactionIdProjection => [r.sourceId]
  }

  /** Every document's ids, flattened in document order (`Select` or `SelectMany`). */
  function MappedIds<T>(docs: seq<T>, view: T -> Record, p: IdProjection): (ids: seq<Id>)
    ensures forall i, x :: 0 <= i < |docs| && x in ProjectIds(p, view(docs[i])) ==> x in ids
    ensures forall x :: x in ids ==> exists i :: 0 <= i < |docs| && x in ProjectIds(p, view(docs[i]))
  {
    if docs == [] then []
    else
      var rest := MappedIds(docs[1..], view, p);
      assert forall i :: 1 <= i < |docs| ==> docs[i] == docs[1..][i - 1];
      ProjectIds(p, view(docs[0])) + rest
  }

  /** The flattening is a concatenation: each document's ids, in document order. */
  lemma {:induction false} MappedIdsConcat<T>(a: seq<T>, b: seq<T>, view: T -> Record, p: IdProjection)
    ensures MappedIds(a + b, view, p) == MappedIds(a, view, p) + MappedIds(b, view, p)
    decreases |a|
  {
    if a == [] {
      assert a + b == b;
    } else {
      assert (a + b)[1..] == a[1..] + b;
      MappedIdsConcat(a[1..], b, view, p);
    }
  }

  /** A document's ids sit in the flattened list between those of the documents around it. */
  lemma MappedIdsSplit<T>(a: seq<T>, d: T, b: seq<T>, view: T -> Record, p: IdProjection)
    ensures MappedIds(a + [d] + b, view, p) == MappedIds(a, view, p) + ProjectIds(p, view(d)) + MappedIds(b, view, p)
  {
    MappedIdsConcat(a + [d], b, view, p);
    MappedIdsConcat(a, [d], view, p);
    assert MappedIds([d], view, p) == ProjectIds(p, view(d)) + MappedIds([d][1..], view, p);
  }

  /** The ids `GetIds` returns: distinct ids of the unpaginated result, then skip, then take. */
  function IdsOf<T(!new)>(dq: DocumentQuery, docs: seq<T>, view: T -> Record, p: IdProjection): seq<Id>
  {
    var documents := ExecuteDocuments(dq.(skip := None, limit := None), docs, view);
    Paginate(Distinct(MappedIds(documents, view, p)), dq.skip, dq.limit)
  }

  /** A window of a duplicate-free sequence is duplicate-free and drawn from it. */
  lemma PaginateKeepsDistinct(s: seq<Id>, skip: Option<int>, take: Option<int>)
    requires NoDuplicates(s)
    ensures NoDuplicates(Paginate(s, skip, take))
    ensures forall x :: x in Paginate(s, skip, take) ==> x in s
  {
    var skipped := if skip.Some? then SkipN(s, skip.value) else s;
    var lo := |s| - |skipped|;
    assert skipped == s[lo..];
    var page := Paginate(s, skip, take);
    assert page == s[lo..lo + |page|];
    forall i, j | 0 <= i < j < |page| ensures page[i] != page[j] {
      assert page[i] == s[lo + i] && page[j] == s[lo + j];
    }
  }

  /**
   * `ids` is the LINQ window of `all`: from the skip (none, or a non-positive one, skips nothing)
   * for as many as the take allows (none means the rest, a non-positive one means nothing).
   */
  predicate IsWindow(ids: seq<Id>, all: seq<Id>, skip: Option<int>, take: Option<int>)
  {
    var lo := if skip.None? || skip.value <= 0 then 0 else if skip.value < |all| then skip.value else |all|;
    var hi := if take.None? || lo + take.value >= |all| then |all| else if take.value <= 0 then lo else lo + take.value;
    ids == all[lo..hi]
  }

  /** LINQ pagination of ids is exactly their window. */
  lemma PaginateIsWindow(all: seq<Id>, skip: Option<int>, take: Option<int>)
    ensures IsWindow(Paginate(all, skip, take), all, skip, take)
  {
    var skipped := if skip.Some? then SkipN(all, skip.value) else all;
    var lo := if skip.None? || skip.value <= 0 then 0 else if skip.value < |all| then skip.value else |all|;
    assert skipped == all[lo..];
  }

  /**
   * `GetIds`: pagination is taken off the query, the documents are fetched and mapped to ids,
   * duplicates are removed, and only then are the skip and the take applied, each when present.
   */
  method GetIds<T(!new)>(dq: DocumentQuery, docs: seq<T>, view: T -> Record, p: IdProjection) returns (ids: seq<Id>)
    ensures ids == IdsOf(dq, docs, view, p)
    ensures IsWindow(ids, Distinct(MappedIds(ExecuteDocuments(dq.(skip := None, limit := None), docs, view), view, p)),
      dq.skip, dq.limit)
    ensures NoDuplicates(ids)
    ensures forall x :: x in ids ==> exists d :: d in docs && Matches(dq.filter, view(d)) && x in ProjectIds(p, view(d))
    ensures dq.skip.None? && dq.limit.None? ==>
      forall d, x :: d in docs && Matches(dq.filter, view(d)) && x in ProjectIds(p, view(d)) ==> x in ids
  {
    var skip := dq.skip;
    var limit := dq.limit;
    var query := dq.(skip := None, limit := None);
    var documents := ExecuteDocuments(query, docs, view);
    var mapped := MappedIds(documents, view, p);
    ids := Distinct(mapped);
    var all := ids;
    if skip.Some? {
      ids := SkipN(ids, skip.value);
    }
    if limit.Some? {
      ids := TakeN(ids, limit.value);
    }
    PaginateKeepsDistinct(all, skip, limit);
    PaginateIsWindow(all, skip, limit);
    RunUnpaginatedMembers(Query(query.filter, query.sort, None, None, query.options), docs, view);
    forall x | x in ids ensures exists d :: d in docs && Matches(dq.filter, view(d)) && x in ProjectIds(p, view(d)) {
      var i :| 0 <= i < |documents| && x in ProjectIds(p, view(documents[i]));
      assert documents[i] in documents;
    }
    if skip.None? && limit.None? {
      forall d, x | d in docs && Matches(dq.filter, view(d)) && x in ProjectIds(p, view(d)) ensures x in ids {
        var i :| 0 <= i < |documents| && documents[i] == d;
      }
    }
  }

  /**
   * Distinct-level pagination of an id query (`DistinctSkip`/`DistinctLimit`) selects the same
   * ids as `GetIds` on the data query with the same skip and take.
   */
  lemma IdQueryAgreesWithGetIds<T(!new)>(collectionName: string, q: Query, docs: seq<T>, view: T -> Record, p: IdProjection)
    ensures var idq := IdQueryOf(collectionName, q);
      Paginate(Distinct(MappedIds(ExecuteDocuments(idq, docs, view), view, p)), idq.distinctSkip, idq.distinctLimit)
      == IdsOf(DataQueryOf(collectionName, q), docs, view, p)
  {
    assert ExecuteDocuments(DataQueryOf(collectionName, q).(skip := None, limit := None), docs, view)
        == ExecuteDocuments(IdQueryOf(collectionName, q), docs, view);
  }

  // ---------------------------------------------------------------------------
  // Single values

  datatype QueryError = MoreThanOneElement

  /** LINQ `SingleOrDefault`: none gives the default, one gives it, more than one fails. */
  function SingleOrDefault<X>(s: seq<X>, default: X): (r: Result<X, QueryError>)
    ensures r.Ok? <==> |s| <= 1
    ensures r.Ok? ==> r.value == (if s == [] then default else s[0])
  {
    if |s| == 0 then Ok(default) else if |s| == 1 then Ok(s[0]) else Err(MoreThanOneElement)
  }

  /** `GetEntityVersionNumber`: the version of the single matching document, 0 when none matches. */
  function GetEntityVersionNumber<T(!new)>(dq: DocumentQuery, docs: seq<T>, view: T -> Record): (r: Result<VersionNumber, QueryError>)
    ensures var found := ExecuteDocuments(dq, docs, view);
      (r.Ok? <==> |found| <= 1) &&
      (found == [] ==> r == Ok(MinValue)) &&
      (|found| == 1 ==> r == Ok(view(found[0]).stateVersion))
  {
    var found := ExecuteDocuments(dq, docs, view);
    var versions := seq(|found|, i requires 0 <= i < |found| => view(found[i]).stateVersion);
    SingleOrDefault(versions, MinValue)
  }

  /** `GetLastEntityVersionQuery`: the entity's commands, latest version first, at most one. */
  function LastEntityVersionQuery(entityId: Id): DocumentQuery
  {
    DocumentQuery(CommandCollectionName, StateIdIn([entityId]), Some([SortKey(StateVersionField, false)]),
      None, Some(1), None, None, None)
  }

  /** The largest stored version of the entity, or 0 when it has no command. */
  ghost predicate IsLastVersion(docs: seq<CommandDocument>, entityId: Id, v: VersionNumber)
  {
    (forall d :: d in docs && d.entityId == entityId ==> d.entityVersionNumber.value <= v.value) &&
    ((exists d :: d in docs && d.entityId == entityId && d.entityVersionNumber == v) ||
     (v == MinValue && forall d :: d in docs ==> d.entityId != entityId))
  }

  /** `GetLastEntityVersionNumber`: the version of the single last command, or 0. */
  function GetLastEntityVersionNumber(docs: seq<CommandDocument>, entityId: Id): (v: VersionNumber)
    ensures IsLastVersion(docs, entityId, v)
  {
    var q := LastEntityVersionQuery(entityId);
    var r := GetEntityVersionNumber(q, docs, CommandRecord);
    LastEntityVersionIsMax(docs, entityId);
    if r.Ok? then r.value else assert false; MinValue
  }

  lemma LastEntityVersionIsMax(docs: seq<CommandDocument>, entityId: Id)
    ensures var found := ExecuteDocuments(LastEntityVersionQuery(entityId), docs, CommandRecord);
      |found| <= 1 &&
      (found == [] <==> forall d :: d in docs ==> d.entityId != entityId) &&
      (found != [] ==>
        found[0] in docs && found[0].entityId == entityId &&
        (forall d :: d in docs && d.entityId == entityId ==> d.entityVersionNumber.value <= found[0].entityVersionNumber.value))
  {
    var dq := LastEntityVersionQuery(entityId);
    var sorted := Run(Query(dq.filter, dq.sort, None, None, dq.options), docs, CommandRecord);
    LatestFirst(docs, entityId);
    assert ExecuteDocuments(dq, docs, CommandRecord) == TakeN(sorted, 1);
  }

  /** A command document is selected by the last-version filter iff it belongs to the entity. */
  lemma LastEntityVersionFilter(d: CommandDocument, entityId: Id)
    ensures Matches(LastEntityVersionQuery(entityId).filter, CommandRecord(d)) <==> d.entityId == entityId
  {
    var r := CommandRecord(d);
    assert r.stateIds[0] == d.entityId;
    if d.entityId == entityId {
      assert r.stateIds[0] in [entityId];
    }
  }

  /** Unpaginated, the last-version query lists the entity's commands with the largest version first. */
  lemma LatestFirst(docs: seq<CommandDocument>, entityId: Id)
    ensures var dq := LastEntityVersionQuery(entityId);
      var sorted := Run(Query(dq.filter, dq.sort, None, None, dq.options), docs, CommandRecord);
      (sorted == [] <==> forall d :: d in docs ==> d.entityId != entityId) &&
      (sorted != [] ==>
        sorted[0] in docs && sorted[0].entityId == entityId &&
        (forall d :: d in docs && d.entityId == entityId ==> d.entityVersionNumber.value <= sorted[0].entityVersionNumber.value))
  {
    var dq := LastEntityVersionQuery(entityId);
    var q := Query(dq.filter, dq.sort, None, None, dq.options);
    var sorted := Run(q, docs, CommandRecord);
    RunUnpaginatedMembers(q, docs, CommandRecord);
    RunSorted(q, docs, CommandRecord);
    forall d ensures Matches(q.filter, CommandRecord(d)) <==> d.entityId == entityId {
      LastEntityVersionFilter(d, entityId);
    }
    if sorted != [] {
      assert sorted[0] in sorted;
      forall d | d in docs && d.entityId == entityId
        ensures d.entityVersionNumber.value <= sorted[0].entityVersionNumber.value
      {
        var k :| 0 <= k < |sorted| && sorted[k] == d;
        if k > 0 {
          SortedPairHeadKey(SortOf(q), sorted, CommandRecord, 0, k);
          VersionKeyOrder(false, CommandRecord(sorted[0]), CommandRecord(d));
        }
      }
    }
  }

  // ---------------------------------------------------------------------------
  // Data and annotations

  /** `GetData`: each document's payload, one per document, in order. */
  function GetData<T, X>(docs: seq<T>, data: T -> X): (r: seq<X>)
    ensures |r| == |docs| && forall i :: 0 <= i < |docs| ==> r[i] == data(docs[i])
  {
    seq(|docs|, i requires 0 <= i < |docs| => data(docs[i]))
  }

  /** `EntityAnnotation`: a payload with the transaction and entity version it was recorded at. */
  datatype EntityAnnotation = EntityAnnotation(
    transactionId: Id,
    transactionTimeStamp: TimeStamp,
    entityId: Id,
    entityVersionNumber: VersionNumber,
    data: Delta)

  /** `GetEntityAnnotation` of command documents: one annotation per document, in order. */
  function GetEntityAnnotation(docs: seq<CommandDocument>): (r: seq<EntityAnnotation>)
    ensures |r| == |docs|
  {
    seq(|docs|, i requires 0 <= i < |docs| =>
      var d := docs[i];
      EntityAnnotation(d.transactionId, d.transactionTimeStamp, d.entityId, d.entityVersionNumber, d.data))
  }

  /** The document an annotation describes. */
  function AnnotatedDocument(a: EntityAnnotation): CommandDocument
  {
    CommandDocument(a.transactionTimeStamp, a.transactionId, a.entityId, a.entityVersionNumber, a.data)
  }

  /**
   * Annotating loses nothing: every field is copied unchanged, so each document can be
   * rebuilt from its annotation, and the annotations' payloads are exactly `GetData`.
   */
  lemma AnnotationLossless(docs: seq<CommandDocument>)
    ensures var anns := GetEntityAnnotation(docs);
      (forall i :: 0 <= i < |docs| ==> AnnotatedDocument(anns[i]) == docs[i]) &&
      GetData(anns, (a: EntityAnnotation) => a.data) == GetData(docs, (d: CommandDocument) => d.data)
  {
  }
}
