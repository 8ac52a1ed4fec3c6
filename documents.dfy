/**
 * The stored rows of the document backend: one record type per collection, the pure
 * mappings that build them from a transaction, the uniqueness each collection's index
 * enforces, and the query records the documents hand to the backend.
 */
module Documents {
  import opened Wrappers
  import opened ValueObjects
  import opened Entities
  import opened Transactions
  import opened Queries

  // ---------------------------------------------------------------------------
  // Commands

  const CommandCollectionName := "Commands"

  /** `CommandDocument`: one command of one entity version. */
  datatype CommandDocument = CommandDocument(
    transactionTimeStamp: TimeStamp,
    transactionId: Id,
    entityId: Id,
    entityVersionNumber: VersionNumber,
    data: Delta)

  /** The runtime type name of a command payload. */
  function DeltaTypeName(d: Delta): string
  {
    match d
    case DoNothing => "DoNothing"
    case Count(_) => "Count"
    case Unreducible(t) => t
  }

  /** What filters and sorts see of a command document. */
  function CommandRecord(d: CommandDocument): (r: Record)
    ensures r.sourceId == d.transactionId && r.stateIds == [d.entityId]
    ensures r.stateVersion == d.entityVersionNumber && r.sourceTimeStamp == d.transactionTimeStamp
    ensures r.number.Some? <==> d.data.Count?
  {
    Record(d.transactionId, d.transactionTimeStamp, [d.entityId], d.entityVersionNumber,
      DeltaTypeName(d.data), if d.data.Count? then Some(d.data.number) else None, "", "", "")
  }

  /** The unique index on `(EntityId, EntityVersionNumber)`: at most one command per entity version. */
  predicate CommandKeysUnique(docs: seq<CommandDocument>)
  {
    forall i, j :: 0 <= i < j < |docs| ==>
      docs[i].entityId != docs[j].entityId || docs[i].entityVersionNumber != docs[j].entityVersionNumber
  }

  /** The command document a transaction writes for one of its commands. */
  function BuildCommand(t: Transaction, c: TransactionCommand): (d: CommandDocument)
    ensures d.entityId == c.entityId && d.entityVersionNumber == EntityVersionNumber(c)
    ensures d.transactionId == t.id && d.transactionTimeStamp == t.timeStamp && d.data == c.command
  {
    CommandDocument(t.timeStamp, t.id, c.entityId, EntityVersionNumber(c), c.command)
  }

  // ---------------------------------------------------------------------------
  // Leases

  const LeaseCollectionName := "Leases"

  /** `LeaseDocument`: one lease held by one entity version. */
  datatype LeaseDocument = LeaseDocument(
    transactionTimeStamp: TimeStamp,
    transactionId: Id,
    entityId: Id,
    entityVersionNumber: VersionNumber,
    scope: string,
    labelName: string,
    value: string,
    data: Lease)

  function LeaseRecord(d: LeaseDocument): (r: Record)
    ensures r.sourceId == d.transactionId && r.stateIds == [d.entityId] && r.stateVersion == d.entityVersionNumber
    ensures r.scope == d.scope && r.labelName == d.labelName && r.value == d.value
  {
    Record(d.transactionId, d.transactionTimeStamp, [d.entityId], d.entityVersionNumber,
      "Lease", None, d.scope, d.labelName, d.value)
  }

  /** The lease a document holds: its hoisted `(Scope, Label, Value)`. */
  function LeaseOf(d: LeaseDocument): Lease
  {
    Lease(d.scope, d.labelName, d.value)
  }

  /** The unique index on `(Scope, Label, Value)`, across all entities. */
  predicate LeaseTriplesUnique(docs: seq<LeaseDocument>)
  {
    forall i, j :: 0 <= i < j < |docs| ==> LeaseOf(docs[i]) != LeaseOf(docs[j])
  }

  /** `BuildMany`: one document per inserted lease, in order. */
  function BuildLeases(t: Transaction, c: TransactionCommand): (docs: seq<LeaseDocument>)
    ensures |docs| == |c.insertLeases|
    ensures forall i :: 0 <= i < |docs| ==>
      docs[i].entityId == c.entityId && docs[i].entityVersionNumber == EntityVersionNumber(c) &&
      docs[i].transactionId == t.id && docs[i].transactionTimeStamp == t.timeStamp
  {
    seq(|c.insertLeases|, i requires 0 <= i < |c.insertLeases| =>
      var l := c.insertLeases[i];
      LeaseDocument(t.timeStamp, t.id, c.entityId, EntityVersionNumber(c), l.scope, l.labelName, l.value, l))
  }

  /** The leases of the built documents are exactly the inserted leases, in order, verbatim. */
  lemma BuildLeasesRoundTrip(t: Transaction, c: TransactionCommand)
    ensures |BuildLeases(t, c)| == |c.insertLeases|
    ensures forall i :: 0 <= i < |c.insertLeases| ==>
      LeaseOf(BuildLeases(t, c)[i]) == c.insertLeases[i] && BuildLeases(t, c)[i].data == c.insertLeases[i]
  {
  }

  /** Built lease documents keep the uniqueness of the leases they were built from. */
  lemma BuildLeasesUnique(t: Transaction, c: TransactionCommand)
    requires forall i, j :: 0 <= i < j < |c.insertLeases| ==> c.insertLeases[i] != c.insertLeases[j]
    ensures LeaseTriplesUnique(BuildLeases(t, c))
  {
    var docs := BuildLeases(t, c);
    forall i, j | 0 <= i < j < |docs| ensures LeaseOf(docs[i]) != LeaseOf(docs[j]) {
      BuildLeasesRoundTrip(t, c);
    }
  }

  /** `DeleteLeasesQuery`: the entity's documents holding one of the given leases. */
  predicate DeleteLeasesMatches(entityId: Id, leases: seq<Lease>, d: LeaseDocument)
  {
    d.entityId == entityId && LeaseOf(d) in leases
  }

  // ---------------------------------------------------------------------------
  // Tags

  const TagCollectionName := "Tags"

  /** The runtime type name of every tag. */
  const TagTypeName := "Tag"

  /** `TagDocument`: one tag held by one entity version; tags carry no uniqueness. */
  datatype TagDocument = TagDocument(
    transactionTimeStamp: TimeStamp,
    transactionId: Id,
    entityId: Id,
    entityVersionNumber: VersionNumber,
    dataType: string,
    labelName: string,
    value: string,
    data: Tag)

  function TagRecord(d: TagDocument): (r: Record)
    ensures r.sourceId == d.transactionId && r.stateIds == [d.entityId] && r.stateVersion == d.entityVersionNumber
    ensures r.dataType == d.dataType && r.labelName == d.labelName && r.value == d.value
  {
    Record(d.transactionId, d.transactionTimeStamp, [d.entityId], d.entityVersionNumber,
      d.dataType, None, "", d.labelName, d.value)
  }

  /** The tag a document holds. */
  function TagOf(d: TagDocument): Tag
  {
    Tag(d.labelName, d.value)
  }

  /** A command to insert documents into one collection. */
  datatype InsertDocumentsCommand = InsertDocumentsCommand(collectionName: string, documents: seq<TagDocument>)

  /** `GetInsertCommand`: one document per tag, in order, for the "Tags" collection. */
  function GetTagInsertCommand(t: Transaction, c: TransactionCommand, tags: seq<Tag>): (cmd: InsertDocumentsCommand)
    ensures cmd.collectionName == TagCollectionName && |cmd.documents| == |tags|
    ensures forall i :: 0 <= i < |tags| ==>
      cmd.documents[i].entityId == c.entityId && cmd.documents[i].entityVersionNumber == EntityVersionNumber(c) &&
      cmd.documents[i].transactionId == t.id && cmd.documents[i].transactionTimeStamp == t.timeStamp &&
      cmd.documents[i].dataType == TagTypeName
  {
    InsertDocumentsCommand(TagCollectionName,
      seq(|tags|, i requires 0 <= i < |tags| =>
        TagDocument(t.timeStamp, t.id, c.entityId, EntityVersionNumber(c), TagTypeName, tags[i].labelName, tags[i].value, tags[i])))
  }

  /** The tags of the inserted documents are exactly the given tags, in order. */
  lemma TagInsertRoundTrip(t: Transaction, c: TransactionCommand, tags: seq<Tag>)
    ensures var docs := GetTagInsertCommand(t, c, tags).documents;
      |docs| == |tags| && forall i :: 0 <= i < |tags| ==> TagOf(docs[i]) == tags[i] && docs[i].data == tags[i]
  {
  }

  /** `DeleteTagsQuery`: the entity's documents holding one of the given tags. */
  predicate DeleteTagsMatches(entityId: Id, tags: seq<Tag>, d: TagDocument)
  {
    d.entityId == entityId && TagOf(d) in tags
  }

  /** A command to delete the documents of one collection that a filter selects. */
  datatype DeleteTagsCommand = DeleteTagsCommand(collectionName: string, entityId: Id, tags: seq<Tag>)

  /**
   * `GetDeleteCommand`: targets the "Tags" collection, and its filter selects exactly the
   * command's entity's documents holding one of the given tags.
   */
  function GetTagDeleteCommand(c: TransactionCommand, tags: seq<Tag>): (cmd: DeleteTagsCommand)
    ensures cmd.collectionName == TagCollectionName && cmd.entityId == c.entityId && cmd.tags == tags
    ensures forall d :: DeleteTagsMatches(cmd.entityId, cmd.tags, d) <==> d.entityId == c.entityId && TagOf(d) in tags
  {
    DeleteTagsCommand(TagCollectionName, c.entityId, tags)
  }

  // ---------------------------------------------------------------------------
  // Agent signatures

  /** The agent-signature document of a transaction: the ids of every entity it touched. */
  datatype AgentSignatureDocument = AgentSignatureDocument(
    transactionTimeStamp: TimeStamp,
    transactionId: Id,
    entityIds: seq<Id>,
    data: AgentSignature)

  function AgentSignatureRecord(d: AgentSignatureDocument): (r: Record)
    ensures r.sourceId == d.transactionId && r.stateIds == d.entityIds
    ensures r.number.Some? <==> d.data.CounterAgentSignature?
  {
    Record(d.transactionId, d.transactionTimeStamp, d.entityIds, MinValue,
      if d.data.CounterAgentSignature? then "CounterAgentSignature" else "NoSource",
      if d.data.CounterAgentSignature? then Some(d.data.number) else None, "", "", "")
  }

  // ---------------------------------------------------------------------------
  // Backend query records

  /**
   * The query a document type hands to the backend. `skip`/`limit` paginate documents;
   * `distinctSkip`/`distinctLimit` paginate the distinct ids projected from them.
   */
  datatype DocumentQuery = DocumentQuery(
    collectionName: string,
    filter: Filter,
    sort: Option<Sort>,
    skip: Option<int>,
    limit: Option<int>,
    distinctSkip: Option<int>,
    distinctLimit: Option<int>,
    options: Option<QueryOptions>)

  /** `GetQuery` of tags, and every data query: the query's own pagination applies to documents. */
  function DataQueryOf(collectionName: string, q: Query): (dq: DocumentQuery)
    ensures dq.collectionName == collectionName && dq.filter == q.filter && dq.sort == q.sort
    ensures dq.skip == q.skip && dq.limit == q.take && dq.options == q.options
    ensures dq.distinctSkip.None? && dq.distinctLimit.None?
  {
    DocumentQuery(collectionName, q.filter, q.sort, q.skip, q.take, None, None, q.options)
  }

  /** Id queries (`GetTransactionIds`, `GetEntityIds`): the query's pagination applies to distinct ids. */
  function IdQueryOf(collectionName: string, q: Query): (dq: DocumentQuery)
    ensures dq.collectionName == collectionName && dq.filter == q.filter && dq.sort == q.sort
    ensures dq.distinctSkip == q.skip && dq.distinctLimit == q.take && dq.options == q.options
    ensures dq.skip.None? && dq.limit.None?
  {
    DocumentQuery(collectionName, q.filter, q.sort, None, None, q.skip, q.take, q.options)
  }

  /** The same query, as a data query and as an id query, differs only in where pagination goes. */
  lemma DataAndIdQueriesDiffer(collectionName: string, q: Query)
    ensures DataQueryOf(collectionName, q).(skip := None, limit := None, distinctSkip := q.skip, distinctLimit := q.take)
         == IdQueryOf(collectionName, q)
  {
  }

  /** The documents a document query selects: filter, sort, then document-level skip and limit. */
  function ExecuteDocuments<T(!new)>(dq: DocumentQuery, docs: seq<T>, view: T -> Record): seq<T>
  {
    Run(Query(dq.filter, dq.sort, dq.skip, dq.limit, dq.options), docs, view)
  }
}
