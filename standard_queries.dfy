/**
 * The concrete queries the engine and its tests build with the filter and sort builders:
 * `GetSourceDataQuery`, `StateVersionDataQuery` and `CountQuery`, each stated as a `Query`
 * value and given its meaning through `Run`.
 */
module StandardQueries {
  import opened Wrappers
  import opened ValueObjects
  import opened QueryOrder
  import opened Queries

  // ---------------------------------------------------------------------------
  // GetSourceDataQuery

  /** The data of one source (transaction), optionally narrowed to one state (entity). */
  datatype GetSourceDataQuery = GetSourceDataQuery(sourceId: Id, stateId: Option<Id>)

  /** The message facet: the source's messages, of the given state when one is named. */
  function SourceDataMessageQuery(q: GetSourceDataQuery): (r: Query)
    ensures r.sort.None? && r.skip.None? && r.take.None? && r.options.None?
  {
    var filter :=
      if q.stateId.Some? then And(StateIdIn([q.stateId.value]), SourceIdIn([q.sourceId]))
      else SourceIdIn([q.sourceId]);
    Query(filter, None, None, None, None)
  }

  /** The source facet: the source itself, whether or not a state is named. */
  function SourceDataSourceQuery(q: GetSourceDataQuery): (r: Query)
    ensures r.sort.None? && r.skip.None? && r.take.None? && r.options.None?
  {
    Query(SourceIdIn([q.sourceId]), None, None, None, None)
  }

  /** A message row matches iff it belongs to the source and, when a state is named, to that state. */
  lemma SourceDataMessageMatches(q: GetSourceDataQuery, r: Record)
    ensures Matches(SourceDataMessageQuery(q).filter, r) <==>
      r.sourceId == q.sourceId && (q.stateId.Some? ==> q.stateId.value in r.stateIds)
  {
    if q.stateId.Some? && q.stateId.value in r.stateIds {
      var i :| 0 <= i < |r.stateIds| && r.stateIds[i] == q.stateId.value;
      assert r.stateIds[i] in [q.stateId.value];
    }
  }

  /** The source facet ignores the state: it matches every row of the source. */
  lemma SourceDataSourceIgnoresState(q: GetSourceDataQuery, r: Record)
    ensures Matches(SourceDataSourceQuery(q).filter, r) <==> r.sourceId == q.sourceId
    ensures SourceDataSourceQuery(q) == SourceDataSourceQuery(GetSourceDataQuery(q.sourceId, None))
  {
  }

  /** Unsorted and unpaginated: the query returns every matching row, in collection order. */
  lemma SourceDataMessageRun<T(!new)>(q: GetSourceDataQuery, universe: seq<T>, view: T -> Record)
    ensures Run(SourceDataMessageQuery(q), universe, view)
         == FilterRows(SourceDataMessageQuery(q).filter, universe, view)
    ensures forall x :: x in Run(SourceDataMessageQuery(q), universe, view) <==>
      x in universe && view(x).sourceId == q.sourceId &&
      (q.stateId.Some? ==> q.stateId.value in view(x).stateIds)
  {
    RunUnsortedUnpaginated(SourceDataMessageQuery(q), universe, view);
    forall x ensures Matches(SourceDataMessageQuery(q).filter, view(x)) <==>
      view(x).sourceId == q.sourceId && (q.stateId.Some? ==> q.stateId.value in view(x).stateIds)
    {
      SourceDataMessageMatches(q, view(x));
    }
  }

  // ---------------------------------------------------------------------------
  // StateVersionDataQuery

  /** Rows whose state version lies in `gte ..= lte`; the same query serves messages, leases and tags. */
  datatype StateVersionDataQuery = StateVersionDataQuery(gte: VersionNumber, lte: VersionNumber, options: Option<QueryOptions>)

  /** The query for the message, lease and tag facets: inclusive range, ascending state version. */
  function StateVersionQuery(q: StateVersionDataQuery): (r: Query)
    ensures r.skip.None? && r.take.None? && r.options == q.options
    ensures r.sort == Some([SortKey(StateVersionField, true)])
  {
    Query(
      And(StateVersionGte(q.gte), StateVersionLte(q.lte)),
      Some([SortKey(StateVersionField, true)]),
      None, None, q.options)
  }

  /** The range is inclusive at both ends. */
  lemma StateVersionMatches(q: StateVersionDataQuery, r: Record)
    ensures Matches(StateVersionQuery(q).filter, r) <==>
      q.gte.value <= r.stateVersion.value <= q.lte.value
  {
  }

  /** The query returns exactly the rows in range. */
  lemma StateVersionRunMembers<T(!new)>(q: StateVersionDataQuery, universe: seq<T>, view: T -> Record)
    ensures forall x :: x in Run(StateVersionQuery(q), universe, view) <==>
      x in universe && q.gte.value <= view(x).stateVersion.value <= q.lte.value
  {
    RunUnpaginatedMembers(StateVersionQuery(q), universe, view);
    forall x ensures Matches(StateVersionQuery(q).filter, view(x)) <==>
      q.gte.value <= view(x).stateVersion.value <= q.lte.value
    {
      StateVersionMatches(q, view(x));
    }
  }

  /** The rows come in non-decreasing state version. */
  lemma StateVersionRunOrdered<T(!new)>(q: StateVersionDataQuery, universe: seq<T>, view: T -> Record)
    ensures var res := Run(StateVersionQuery(q), universe, view);
      forall i, j :: 0 <= i < j < |res| ==> view(res[i]).stateVersion.value <= view(res[j]).stateVersion.value
  {
    var sq := StateVersionQuery(q);
    var res := Run(sq, universe, view);
    RunSorted(sq, universe, view);
    forall i, j | 0 <= i < j < |res| ensures view(res[i]).stateVersion.value <= view(res[j]).stateVersion.value {
      SortedPairHeadKey(SortOf(sq), res, view, i, j);
      VersionKeyOrder(true, view(res[i]), view(res[j]));
    }
  }

  // ---------------------------------------------------------------------------
  // CountQuery

  /** `CountQuery(Gte, Lte)`: rows whose counter payload number lies in `Gte ..= Lte`. */
  datatype CountQuery = CountQuery(gte: int, lte: int)

  /** The four kinds of rows a `CountQuery` can be asked of. */
  datatype Facet = CommandFacet | LeaseFacet | AgentSignatureFacet | TagFacet

  /** The payload type each facet's filter selects. */
  function CountPayloadType(facet: Facet): string
  {
    match facet
    case CommandFacet => "Count"
    case LeaseFacet => "CountLease"
    case AgentSignatureFacet => "CounterAgentSignature"
    case TagFacet => "CountTag"
  }

  /** Each facet's combined sort, every key ascending. */
  function CountSort(facet: Facet): (s: Sort)
    ensures s != [] && s[0] == SortKey(StateIdField, true)
    ensures forall i :: 0 <= i < |s| ==> s[i].ascending
    ensures facet != AgentSignatureFacet ==> |s| >= 2 && s[1] == SortKey(StateVersionField, true)
  {
    match facet
    case CommandFacet =>
      [SortKey(StateIdField, true), SortKey(StateVersionField, true),
       SortKey(DataTypeField, true), SortKey(NumberField, true)]
    case LeaseFacet =>
      [SortKey(StateIdField, true), SortKey(StateVersionField, true),
       SortKey(DataTypeField, true), SortKey(NumberField, true), SortKey(ScopeField, true)]
    case AgentSignatureFacet =>
      [SortKey(StateIdField, true), SortKey(DataTypeField, true), SortKey(NumberField, true)]
    case TagFacet =>
      [SortKey(StateIdField, true), SortKey(StateVersionField, true),
       SortKey(DataTypeField, true), SortKey(NumberField, true), SortKey(LabelField, true)]
  }

  /** The query a `CountQuery` gives for one facet: unpaginated, no options. */
  function CountFacetQuery(q: CountQuery, facet: Facet): (r: Query)
    ensures r.skip.None? && r.take.None? && r.options.None? && r.sort.Some?
  {
    Query(NumberBetween(CountPayloadType(facet), q.gte, q.lte), Some(CountSort(facet)), None, None, None)
  }

  /** A row matches iff it carries the facet's counter payload and its number is within the inclusive bounds. */
  lemma CountMatches(q: CountQuery, facet: Facet, r: Record)
    ensures Matches(CountFacetQuery(q, facet).filter, r) <==>
      r.dataType == CountPayloadType(facet) && r.number.Some? && q.gte <= r.number.value <= q.lte
  {
  }

  /**
   * The result is grouped by entity: entity ids never decrease, and within one entity
   * (for the facets that carry a version) versions never decrease.
   */
  lemma CountRunOrder<T(!new)>(q: CountQuery, facet: Facet, universe: seq<T>, view: T -> Record)
    ensures var res := Run(CountFacetQuery(q, facet), universe, view);
      forall i, j :: 0 <= i < j < |res| ==>
        LexCompare(view(res[i]).stateIds, view(res[j]).stateIds) <= 0 &&
        (facet != AgentSignatureFacet && view(res[i]).stateIds == view(res[j]).stateIds ==>
          view(res[i]).stateVersion.value <= view(res[j]).stateVersion.value)
  {
    var cq := CountFacetQuery(q, facet);
    var res := Run(cq, universe, view);
    var sort := CountSort(facet);
    RunSorted(cq, universe, view);
    forall i, j | 0 <= i < j < |res|
      ensures LexCompare(view(res[i]).stateIds, view(res[j]).stateIds) <= 0
      ensures facet != AgentSignatureFacet && view(res[i]).stateIds == view(res[j]).stateIds ==>
          view(res[i]).stateVersion.value <= view(res[j]).stateVersion.value
    {
      var a, b := view(res[i]), view(res[j]);
      SortedPairHeadKey(sort, res, view, i, j);
      if facet != AgentSignatureFacet && a.stateIds == b.stateIds {
        CompareHeadKey(sort[1..], a, b);
        VersionKeyOrder(true, a, b);
      }
    }
  }

  /**
   * The tie-breakers of a `CountQuery` sort: rows of one entity (and, where the facet has one,
   * one version) are ordered by payload type, then by counter number, then by the lease's scope
   * or the tag's label.
   */
  predicate CountTieBroken(facet: Facet, a: Record, b: Record)
  {
    a.stateIds == b.stateIds && (facet == AgentSignatureFacet || a.stateVersion == b.stateVersion) ==>
      LexCompare(Codes(a.dataType), Codes(b.dataType)) <= 0 &&
      (a.dataType == b.dataType ==>
        LexCompare(KeyOf(NumberField, a), KeyOf(NumberField, b)) <= 0 &&
        (a.number == b.number ==>
          (facet == LeaseFacet ==> LexCompare(Codes(a.scope), Codes(b.scope)) <= 0) &&
          (facet == TagFacet ==> LexCompare(Codes(a.labelName), Codes(b.labelName)) <= 0)))
  }

  lemma CountTieBrokenPair(facet: Facet, a: Record, b: Record)
    requires Compare(CountSort(facet), a, b) <= 0
    ensures CountTieBroken(facet, a, b)
  {
    var sort := CountSort(facet);
    var t := if facet == AgentSignatureFacet then 1 else 2;
    if a.stateIds == b.stateIds && (facet == AgentSignatureFacet || a.stateVersion == b.stateVersion) {
      CompareTieBreak(sort, a, b, t);
      if a.dataType == b.dataType {
        CompareTieBreak(sort, a, b, t + 1);
        if a.number == b.number && (facet == LeaseFacet || facet == TagFacet) {
          CompareTieBreak(sort, a, b, 4);
        }
      }
    }
  }

  /** Within one entity and version, the rows a `CountQuery` returns follow its tie-breakers. */
  lemma CountRunTieBreaks<T(!new)>(q: CountQuery, facet: Facet, universe: seq<T>, view: T -> Record)
    ensures var res := Run(CountFacetQuery(q, facet), universe, view);
      forall i, j :: 0 <= i < j < |res| ==> CountTieBroken(facet, view(res[i]), view(res[j]))
  {
    var cq := CountFacetQuery(q, facet);
    var res := Run(cq, universe, view);
    RunSorted(cq, universe, view);
    forall i, j | 0 <= i < j < |res| ensures CountTieBroken(facet, view(res[i]), view(res[j])) {
      CountTieBrokenPair(facet, view(res[i]), view(res[j]));
    }
  }

  /** Every row a `CountQuery` returns is a counter row within the bounds, and none is lost. */
  lemma CountRunExact<T(!new)>(q: CountQuery, facet: Facet, universe: seq<T>, view: T -> Record)
    ensures forall x :: x in Run(CountFacetQuery(q, facet), universe, view) <==>
      x in universe && view(x).dataType == CountPayloadType(facet) &&
      view(x).number.Some? && q.gte <= view(x).number.value <= q.lte
  {
    var cq := CountFacetQuery(q, facet);
    RunUnpaginatedMembers(cq, universe, view);
  }
}
