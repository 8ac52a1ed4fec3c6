# EntityDb core, modelled in Dafny

This project models the event-sourcing engine of EntityDb. The engine keeps one versioned log of
commands per entity. It replays a log into the entity's state, commits batches of commands under
optimistic concurrency, keeps leases unique and tags not unique, and filters, sorts and paginates
queries over the stored documents.

The files follow the program's layers:

- `value_objects.dfy`: `VersionNumber` is a `ulong` whose `Next` wraps at 2^64. `TimeStamp` is a
  tick count, with millisecond truncation.
- `entities.dfy`: the test entity `TransactionEntity`. It offers `Construct`, `GetVersionNumber`,
  `ShouldReplace` and `Reduce`. `Reduce` is a method with a loop, proved equal to a left fold.
- `transactions.dfy`: the per-entity write record (`ITransactionCommand`), leases, tags and
  transactions.
- `query_order.dfy`, `queries.dfy`: the query algebra:
  - a filter tree, a lexicographic multi-key sort and optional skip/take;
  - `Run`, which filters, then sorts, then skips and limits as a MongoDB find does (a limit of 0
    places no bound);
  - `Modify`: invert the filter, reverse the sort, replace skip and take.
- `standard_queries.dfy`: the concrete queries `GetSourceDataQuery`, `StateVersionDataQuery` and
  `CountQuery`.
- `documents.dfy`: the stored documents:
  - command, lease, tag and agent-signature documents, and the row mappings that build them;
  - the data-query and id-query shapes.
- `document_queries.dfy`: the Mongo query helpers:
  - `GetIds`: run unpaginated, de-duplicate, then skip, then take;
  - `GetEntityVersionNumber`, `GetLastEntityVersionNumber`, `GetData`, `GetEntityAnnotation`.
- `commit_store.dfy`: an in-memory transaction repository, the class `Store`. It applies a
  transaction all or nothing, and enforces:
  - the version rule and subversion uniqueness;
  - delete-before-insert for leases and tags;
  - lease-triple uniqueness;
  - rejection of duplicate transaction ids, the reserved version 0, stale expected versions and
    read-only mode.
- `transaction_builder.dfy`: the single-entity transaction builder, as a class with an entity slot
  and a list of steps.
- `multiple_entity_repository.dfy`: the session repository. It holds a map of known entities and a
  list of pending messages.
- `entity_repository.dfy`: the older entity repository:
  - `Get` is snapshot-or-construct, then a fold of the newer facts;
  - `Put` offers the last command of each entity to the snapshot predicate, then forwards the
    transaction to the store.

The model has one canonical shape. Identifiers are `nat`: only their equality and order matter.
Version numbers are 64-bit unsigned with explicit wrap-around. Time stamps are `DateTime` tick counts.

## Model

| member | source | states |
|---|---|---|
| ValueObjects.Next | src/EntityDb.Abstractions/ValueObjects/VersionNumber.cs:18 | `Next` is `Value + 1`, except that the largest `ulong` wraps to the reserved minimum 0 |
| ValueObjects.NextIsGreater | src/EntityDb.Abstractions/ValueObjects/VersionNumber.cs:9-18 | below the largest value, the next version is strictly greater and is never the reserved `MinValue` |
| ValueObjects.NextInjective | src/EntityDb.Abstractions/ValueObjects/VersionNumber.cs:18 | two versions have the same successor exactly when they are equal |
| ValueObjects.AdvanceAdds | src/EntityDb.Abstractions/ValueObjects/VersionNumber.cs:18 | without overflow, `n` successive `Next` steps add exactly `n` |
| ValueObjects.Decimal | src/EntityDb.Abstractions/ValueObjects/VersionNumber.cs:20-29 | the rendering is non-empty, all digits, without a leading zero unless it is "0" |
| ValueObjects.ToString | src/EntityDb.Abstractions/ValueObjects/VersionNumber.cs:20-29 | digits 0-9 only, no sign, no leading zero, and they read back as exactly the value |
| ValueObjects.DecimalRoundTrip | src/EntityDb.Abstractions/ValueObjects/VersionNumber.cs:29 | parsing the decimal rendering of `n` gives `n` back |
| ValueObjects.ToStringInjective | src/EntityDb.Abstractions/ValueObjects/VersionNumber.cs:29 | two versions print the same iff they are equal |
| ValueObjects.WithMillisecondPrecision | src/EntityDb.Abstractions/ValueObjects/TimeStamp.cs:21-26 | the result is on a millisecond boundary, never later than the input and less than one millisecond earlier |
| ValueObjects.MillisecondPrecisionUnique | src/EntityDb.Abstractions/ValueObjects/TimeStamp.cs:25-26 | the result is the only millisecond boundary in the millisecond up to the input |
| ValueObjects.MillisecondPrecisionIdempotent | src/EntityDb.Abstractions/ValueObjects/TimeStamp.cs:25-26 | a time stamp on a millisecond boundary is unchanged, so truncating twice equals truncating once |
| Entities.Construct | test/EntityDb.Common.Tests/Implementations/Entities/TransactionEntity.cs:18-21 | whatever the id, the constructed entity is at version 0 |
| Entities.GetVersionNumber | test/EntityDb.Common.Tests/Implementations/Entities/TransactionEntity.cs:23-26 | the returned version is the record's only field, unchanged |
| Entities.ApplyReducer | test/EntityDb.Common.Tests/Implementations/Entities/TransactionEntity.cs:39 | a reducer of the test entity advances its version by `Next` (the reducers themselves are not shown; see Left out) |
| Entities.Reduce | test/EntityDb.Common.Tests/Implementations/Entities/TransactionEntity.cs:28-43 | the loop's result equals the left fold of the reducers over the entity, or the failure at the first non-reducer |
| Entities.Fold | test/EntityDb.Common.Tests/Implementations/Entities/TransactionEntity.cs:30-42 | definition, the specification of `Reduce`: a left fold of the reducers that fails at the first element that is not a reducer; `FoldFailsIffNonReducer`, `FoldAdvancesVersion` and `FoldConcat` state its properties |
| Entities.FoldFailsIffNonReducer | test/EntityDb.Common.Tests/Implementations/Entities/TransactionEntity.cs:34-37 | reduction fails iff some element is not a reducer; the error names the first such element |
| Entities.FoldAdvancesVersion | test/EntityDb.Common.Tests/Implementations/Entities/TransactionEntity.cs:32-41 | on reducers only, the result is exactly `n` version steps past the start |
| Entities.FoldConcat | test/EntityDb.Common.Tests/Implementations/Entities/TransactionEntity.cs:32-41 | reducing `a + b` is reducing `a`, then reducing `b` from that result; a failure in `a` stops there |
| Entities.ShouldReplace | test/EntityDb.Common.Tests/Implementations/Entities/TransactionEntity.cs:45-48 | true for every previous snapshot, including none |
| Transactions.EntityVersionNumber | EntityDb.Abstractions/Transactions/ITransactionCommand.cs:31-37 | the stored version is expected + 1, and it is the reserved 0 exactly when the expected version is the largest `ulong` |
| Transactions.SubversionNumbersUnique | EntityDb.Abstractions/Transactions/ITransactionCommand.cs:47-54 | definition: the facts of one command carry pairwise distinct subversion numbers, in any order |
| QueryOrder.LexCompare | src/EntityDb.Abstractions/Sources/Queries/SortBuilders/ISourceDataSortBuilder.cs:9-14 | the comparison of two key lists is -1, 0 or 1 |
| QueryOrder.LexCompareAntisymmetric | src/EntityDb.Abstractions/Sources/Queries/SortBuilders/ISourceDataSortBuilder.cs:9-14 | swapping the arguments negates the comparison |
| QueryOrder.LexCompareZeroIffEqual | src/EntityDb.Abstractions/Sources/Queries/SortBuilders/ISourceDataSortBuilder.cs:9-14 | two key lists compare equal iff they are equal |
| QueryOrder.LexCompareTransitive | src/EntityDb.Abstractions/Sources/Queries/SortBuilders/ISourceDataSortBuilder.cs:9-14 | the lexicographic order is transitive |
| QueryOrder.CodesInjective | src/EntityDb.TestImplementations/Queries/CountQuery.cs:40-47 | sorting a string field by character codes separates distinct strings |
| QueryOrder.ReverseMultiset | test/EntityDb.Common.Tests/Transactions/TransactionTestsBase.cs:90-91 | reversal keeps every element with its multiplicity |
| QueryOrder.SkipN | src/EntityDb.MongoDb/Extensions/DocumentQueryExtensions.cs:83-86 | LINQ `Skip(n)` returns the suffix of the input that is `n` shorter, the whole input for `n <= 0`, nothing once `n` reaches the length |
| QueryOrder.TakeN | src/EntityDb.MongoDb/Extensions/DocumentQueryExtensions.cs:88-91 | LINQ `Take(n)` returns the prefix of length `n`, nothing for `n <= 0`, the whole input once `n` reaches the length |
| QueryOrder.LimitN | src/EntityDb.MongoDb/Documents/CommandDocument.cs:133-134 | a find's `limit(n)` keeps everything for `n == 0`, and otherwise the first `abs(n)` rows |
| Queries.KeyCompareFacts | src/EntityDb.TestImplementations/Queries/CountQuery.cs:21-30 | one sort key is antisymmetric, and compares equal iff the two records' keys are equal |
| Queries.KeyCompareTransitive | src/EntityDb.TestImplementations/Queries/CountQuery.cs:21-30 | one sort key, ascending or descending, is transitive |
| Queries.CompareAntisymmetric | src/EntityDb.TestImplementations/Queries/CountQuery.cs:21-30 | a combined sort is antisymmetric |
| Queries.CompareTransitive | src/EntityDb.TestImplementations/Queries/CountQuery.cs:21-30 | a combined sort is transitive |
| Queries.CompareTieBreak | src/EntityDb.TestImplementations/Queries/CountQuery.cs:21-30 | in a combined sort, a later key decides only among rows that tie on every earlier key: if `x` sorts before `y` and they agree on the first `m` keys, key `m` places `x` no later than `y` |
| Queries.Flip | test/EntityDb.Common.Tests/Transactions/TransactionTestsBase.cs:84 | reversing a sort keeps its fields and flips every direction |
| Queries.FlipNegates | test/EntityDb.Common.Tests/Transactions/TransactionTestsBase.cs:84 | the reversed sort compares every pair opposite to the original |
| Queries.Matches | src/EntityDb.TestImplementations/Queries/CountQuery.cs:16-19 | definition: the filter tree read as a boolean formula over one row; a number filter holds for a payload of the given type whose number lies in `gte..lte` |
| Queries.KeyOf | src/EntityDb.TestImplementations/Queries/CountQuery.cs:21-30 | definition: the value a row is ordered by for each sort field; a missing number sorts first |
| Queries.Compare | src/EntityDb.TestImplementations/Queries/CountQuery.cs:21-30 | definition: `Combine` of sort keys, where the first key that differs decides; `CompareAntisymmetric`, `CompareTransitive` and `CompareTieBreak` state its properties |
| Queries.FilterRows | src/EntityDb.MongoDb/Extensions/DocumentQueryExtensions.cs:55 | exactly the documents that match the filter are kept |
| Queries.FilterComplement | test/EntityDb.Common.Tests/Transactions/TransactionTestsBase.cs:83 | the rows matching a filter plus the rows matching its negation are exactly the input |
| Queries.Insert | src/EntityDb.TestImplementations/Queries/CountQuery.cs:21-30 | inserting adds exactly one element and keeps a sorted list sorted |
| Queries.SortRows | src/EntityDb.TestImplementations/Queries/CountQuery.cs:21-30 | the result is a permutation of the input and is sorted by the sort |
| Queries.InsertUnsorted | src/EntityDb.Common/Sources/Queries/Standard/GetSourceDataQuery.cs:23-26 | with no sort key, an insert appends at the end |
| Queries.SortRowsUnsorted | src/EntityDb.Common/Sources/Queries/Standard/GetSourceDataQuery.cs:23-26 | with no sort key, the stored order is kept |
| Queries.SortedArrangementUnique | src/EntityDb.TestImplementations/Queries/CountQuery.cs:21-30 | when the sort keys are distinct, only one arrangement of a multiset is sorted |
| Queries.ReverseSorted | test/EntityDb.Common.Tests/Transactions/TransactionTestsBase.cs:84 | a sorted list reversed is sorted by the reversed sort |
| Queries.SortFlippedIsReverse | test/EntityDb.Common.Tests/Transactions/TransactionTestsBase.cs:84 | with distinct keys, sorting by the reversed sort is the exact reverse of sorting by the sort |
| Queries.PaginateWindow | src/EntityDb.MongoDb/Extensions/DocumentQueryExtensions.cs:83-91 | LINQ `Skip(s)` then `Take(t)` over a materialised list keep the slice from `s` to `s + t`, clamped to the length |
| Queries.Paginate | src/EntityDb.MongoDb/Extensions/DocumentQueryExtensions.cs:83-91 | definition: LINQ `Skip` when a skip is given, then `Take` when a take is given; `PaginateWindow` and `PaginateIsWindow` state the window it keeps |
| Queries.Page | src/EntityDb.MongoDb/Documents/CommandDocument.cs:133-134 | definition: skip, then MongoDB's `limit`, of a find; `PageWindow` states the window it keeps |
| Queries.Run | src/EntityDb.MongoDb/Documents/TagDocument.cs:57-71 | definition: a document query filters, then sorts, then skips and limits; `RunSound`, `RunUnpaged` and `PageSubsequence` state what it returns |
| Queries.PageWindow | src/EntityDb.MongoDb/Documents/CommandDocument.cs:133-134 | a find with skip `s` and limit `l` keeps the slice from `s`, clamped to the length; a limit of 0 places no bound, and a negative limit bounds by its absolute value |
| Queries.RunUnpaged | src/EntityDb.MongoDb/Documents/TagDocument.cs:57-71 | without skip and take, a query returns all its matching documents, sorted, each once per occurrence |
| Queries.RunSound | src/EntityDb.MongoDb/Documents/TagDocument.cs:57-71 | a query returns only matching documents, sorted by its sort; unpaginated, it returns every match exactly once per occurrence |
| Queries.PageSubsequence | src/EntityDb.MongoDb/Documents/CommandDocument.cs:133-134 | skipping and limiting a find only drops rows, and keeps a sorted list sorted |
| Queries.RunUnpaginatedMembers | src/EntityDb.MongoDb/Documents/TagDocument.cs:57-71 | unpaginated, a document is in the result iff it is stored and matches |
| Queries.RunUnsortedUnpaginated | src/EntityDb.Common/Sources/Queries/Standard/GetSourceDataQuery.cs:23-42 | with no sort and no pagination, the result is the matching documents in stored order |
| Queries.Modify | test/EntityDb.Common.Tests/Transactions/TransactionTestsBase.cs:82-86 | modifying a query keeps its options |
| Queries.ModifyIdentity | test/EntityDb.Common.Tests/Transactions/TransactionTestsBase.cs:82 | the all-off modifier returns the query unchanged |
| Queries.ModifyInvertIsComplement | test/EntityDb.Common.Tests/Transactions/TransactionTestsBase.cs:83-113 | the inverted query returns exactly the non-matching documents, in the same order; together with the original it partitions the store |
| Queries.ModifyReverseIsReverse | test/EntityDb.Common.Tests/Transactions/TransactionTestsBase.cs:84-114 | with distinct sort keys, the reversed query returns the exact reverse sequence |
| Queries.ModifySkipOneTakeOne | test/EntityDb.Common.Tests/Transactions/TransactionTestsBase.cs:86-116 | skip 1 and take 1 return only the second result, or nothing when there are fewer than two |
| StandardQueries.SourceDataMessageQuery | src/EntityDb.Common/Sources/Queries/Standard/GetSourceDataQuery.cs:10-42 | the message query has no sort, no skip, no take and no options |
| StandardQueries.SourceDataSourceQuery | src/EntityDb.Common/Sources/Queries/Standard/GetSourceDataQuery.cs:28-42 | the source query has no sort, no skip, no take and no options |
| StandardQueries.SourceDataMessageMatches | src/EntityDb.Common/Sources/Queries/Standard/GetSourceDataQuery.cs:10-21 | a message matches iff its source id is the query's and, when a state id is given, that state id is among the message's |
| StandardQueries.SourceDataSourceIgnoresState | src/EntityDb.Common/Sources/Queries/Standard/GetSourceDataQuery.cs:28-31 | the source filter matches on the source id alone and does not depend on the state id |
| StandardQueries.SourceDataMessageRun | src/EntityDb.Common/Sources/Queries/Standard/GetSourceDataQuery.cs:10-42 | the message query returns the matching messages in stored order, and exactly those |
| StandardQueries.StateVersionQuery | test/EntityDb.Common.Tests/Implementations/Sources/Queries/StateVersionDataQuery.cs:8-56 | the query sorts ascending by state version only, is unpaginated and carries the given options |
| StandardQueries.StateVersionMatches | test/EntityDb.Common.Tests/Implementations/Sources/Queries/StateVersionDataQuery.cs:12-51 | a record matches iff its state version is within the bounds, both inclusive |
| StandardQueries.StateVersionRunMembers | test/EntityDb.Common.Tests/Implementations/Sources/Queries/StateVersionDataQuery.cs:12-42 | the result holds exactly the stored records inside the inclusive range |
| StandardQueries.StateVersionRunOrdered | test/EntityDb.Common.Tests/Implementations/Sources/Queries/StateVersionDataQuery.cs:21-56 | the result's state versions never decrease |
| StandardQueries.CountSort | src/EntityDb.TestImplementations/Queries/CountQuery.cs:21-84 | every key is ascending; the first is the state id, and for all facets except the agent signature the second is the state version |
| StandardQueries.CountFacetQuery | src/EntityDb.TestImplementations/Queries/CountQuery.cs:16-84 | every facet query is sorted and unpaginated, with no options |
| StandardQueries.CountMatches | src/EntityDb.TestImplementations/Queries/CountQuery.cs:16-72 | a record matches iff it carries the facet's count payload and `Gte <= Number <= Lte` |
| StandardQueries.CountRunOrder | src/EntityDb.TestImplementations/Queries/CountQuery.cs:21-84 | results are ordered by state id, then by state version within one state (except agent signatures) |
| StandardQueries.CountTieBrokenPair | src/EntityDb.TestImplementations/Queries/CountQuery.cs:21-84 | two rows in sort order that tie on the earlier keys are ordered by payload type, then by number, then by lease scope or tag label |
| StandardQueries.CountRunTieBreaks | src/EntityDb.TestImplementations/Queries/CountQuery.cs:21-84 | every pair of rows a count query returns, in result order, obeys the payload type, number and scope/label tie-breakers |
| StandardQueries.CountRunExact | src/EntityDb.TestImplementations/Queries/CountQuery.cs:16-67 | the result holds exactly the stored records with the facet's payload in the inclusive range |
| Documents.CommandRecord | src/EntityDb.MongoDb/Documents/CommandDocument.cs:120-136 | the query view of a command document has its transaction id, entity id, version and time stamp, and a number iff it is a `Count` |
| Documents.BuildCommand | EntityDb.Abstractions/Transactions/ITransactionCommand.cs:31-42 | a stored command has the command's entity id and payload, the version expected + 1, and the transaction's id and time stamp |
| Documents.LeaseRecord | src/EntityDb.MongoDb/Documents/LeaseDocument.cs:146-164 | the query view of a lease document keeps its ids, version, scope, label and value |
| Documents.BuildLeases | src/EntityDb.MongoDb/Documents/LeaseDocument.cs:69-89 | one document per inserted lease, each with the command's entity id, the version expected + 1 and the transaction's id and time stamp |
| Documents.BuildLeasesRoundTrip | src/EntityDb.MongoDb/Documents/LeaseDocument.cs:76-88 | the i-th document's scope, label, value and data are the i-th lease's, in order |
| Documents.BuildLeasesUnique | src/EntityDb.MongoDb/Documents/LeaseDocument.cs:51-64 | distinct inserted leases give documents with pairwise distinct (scope, label, value) triples |
| Documents.DeleteLeasesMatches | src/EntityDb.MongoDb/Documents/LeaseDocument.cs:166-187 | definition: the delete selects the entity's lease documents whose scope, label and value are one of the deleted leases |
| Documents.TagRecord | src/EntityDb.MongoDb/Documents/TagDocument.cs:15-26 | the query view of a tag document keeps its ids, version, data type, label and value |
| Documents.GetTagInsertCommand | src/EntityDb.MongoDb/Documents/TagDocument.cs:28-55 | the insert targets the "Tags" collection, with one document per tag carrying the command's entity id and version, the transaction's id and time stamp, and the tag type name |
| Documents.TagInsertRoundTrip | src/EntityDb.MongoDb/Documents/TagDocument.cs:36-48 | the i-th document's label, value and data are the i-th tag's, in order |
| Documents.GetTagDeleteCommand | src/EntityDb.MongoDb/Documents/TagDocument.cs:73-86 | the delete targets the "Tags" collection for the command's entity and the given tags, and it selects a document iff it belongs to that entity and its tag is one of them |
| Documents.DeleteTagsMatches | src/EntityDb.MongoDb/Documents/TagDocument.cs:79-85 | definition: the delete selects the entity's tag documents whose label and value are one of the deleted tags |
| Documents.AgentSignatureRecord | src/EntityDb.TestImplementations/Queries/CountQuery.cs:50-63 | the query view of an agent-signature document has the transaction id, the entity ids, and a number iff it is a counter signature |
| Documents.DataQueryOf | src/EntityDb.MongoDb/Documents/CommandDocument.cs:120-136 | a data query passes filter, sort and options through and pages the documents by skip and take |
| Documents.IdQueryOf | src/EntityDb.MongoDb/Documents/CommandDocument.cs:84-118 | an id query passes filter, sort and options through and moves skip and take to the distinct ids |
| Documents.DataAndIdQueriesDiffer | src/EntityDb.MongoDb/Documents/CommandDocument.cs:84-136 | the id query is the data query with its pagination moved from documents to distinct ids |
| DocumentQueries.Distinct | src/EntityDb.MongoDb/Extensions/DocumentQueryExtensions.cs:79-81 | de-duplication keeps every id, adds none, and leaves no duplicates |
| DocumentQueries.DistinctOfDistinct | src/EntityDb.MongoDb/Extensions/DocumentQueryExtensions.cs:79-81 | a duplicate-free list is left as it is |
| DocumentQueries.DistinctIdempotent | src/EntityDb.MongoDb/Extensions/DocumentQueryExtensions.cs:79-81 | de-duplicating twice is de-duplicating once |
| DocumentQueries.FirstIndex | src/EntityDb.MongoDb/Extensions/DocumentQueryExtensions.cs:79-81 | the index of the first occurrence of an id: it holds that id and no earlier position does |
| DocumentQueries.DistinctFirstOccurrenceOrder | src/EntityDb.MongoDb/Extensions/DocumentQueryExtensions.cs:79-81 | LINQ `Distinct` keeps first-occurrence order: the ids it returns appear in the order of their first occurrence in the input |
| DocumentQueries.MappedIds | src/EntityDb.MongoDb/Extensions/DocumentQueryExtensions.cs:133-176 | the mapped list holds exactly the ids projected from the documents, flattened for multi-entity documents |
| DocumentQueries.MappedIdsConcat | src/EntityDb.MongoDb/Extensions/DocumentQueryExtensions.cs:79-80 | the ids of two runs of documents are the ids of the first run followed by the ids of the second, so the mapping is the in-order concatenation |
| DocumentQueries.MappedIdsSplit | src/EntityDb.MongoDb/Extensions/DocumentQueryExtensions.cs:159 | the ids of a document sit, in order, between the ids of the documents before it and those after it |
| DocumentQueries.PaginateKeepsDistinct | src/EntityDb.MongoDb/Extensions/DocumentQueryExtensions.cs:83-93 | skip and take of a duplicate-free list stay duplicate-free and drop elements only |
| DocumentQueries.GetIds | src/EntityDb.MongoDb/Extensions/DocumentQueryExtensions.cs:64-94 | the ids come from matching documents and have no duplicates; unpaginated, every id of a matching document is returned; with paging, the result is exactly one contiguous window, by skip then take, of the de-duplicated ids of the unpaged query |
| DocumentQueries.PaginateIsWindow | src/EntityDb.MongoDb/Extensions/DocumentQueryExtensions.cs:83-91 | skip then take on the de-duplicated ids is the window from the clamped skip, of the given size, clamped to the length; a non-positive take keeps nothing |
| DocumentQueries.IdQueryAgreesWithGetIds | src/EntityDb.MongoDb/Documents/CommandDocument.cs:84-118 | an id query with distinct-level pagination returns what `GetIds` returns for the data query |
| DocumentQueries.SingleOrDefault | src/EntityDb.MongoDb/Extensions/DocumentQueryExtensions.cs:57 | fails on more than one element; otherwise returns the only element or the default |
| DocumentQueries.GetEntityVersionNumber | src/EntityDb.MongoDb/Extensions/DocumentQueryExtensions.cs:48-62 | 0 when no document matches, that document's version when one matches, and a failure when several match |
| DocumentQueries.GetLastEntityVersionNumber | src/EntityDb.MongoDb/Documents/CommandDocument.cs:138-167 | 0 when the entity has no command, otherwise the largest stored version of that entity |
| DocumentQueries.LastEntityVersionIsMax | src/EntityDb.MongoDb/Documents/CommandDocument.cs:145-166 | the last-version query finds at most one document: none iff the entity has no command, else one of maximal version |
| DocumentQueries.LastEntityVersionFilter | src/EntityDb.MongoDb/Documents/CommandDocument.cs:145-151 | the last-version filter matches exactly the entity's commands |
| DocumentQueries.LatestFirst | src/EntityDb.MongoDb/Documents/CommandDocument.cs:145-157 | sorted by descending version, the first matching command has the entity's largest version |
| DocumentQueries.GetData | src/EntityDb.MongoDb/Extensions/DocumentQueryExtensions.cs:118-131 | one payload per document, in order |
| DocumentQueries.GetEntityAnnotation | src/EntityDb.MongoDb/Extensions/DocumentQueryExtensions.cs:96-116 | one annotation per document |
| DocumentQueries.AnnotationLossless | src/EntityDb.MongoDb/Extensions/DocumentQueryExtensions.cs:104-115 | each annotation copies its document's transaction id, time stamp, entity id, version and data unchanged |
| CommitStore.TransactionIds | src/EntityDb.MongoDb/Documents/CommandDocument.cs:84-100 | one transaction id per stored agent signature, in order |
| CommitStore.StoredTimeStamp | test/EntityDb.Common.Tests/Transactions/TransactionTestsBase.cs:776-818 | a stored time stamp is the original or its millisecond truncation; with millisecond precision it is on a boundary and not later |
| CommitStore.AgentSignatureDocumentOf | src/EntityDb.SqlDb/Documents/AgentSignature/AgentSignatureEntityIdsDocumentReader.cs:20-27 | the agent-signature document carries the transaction id, time stamp and signature, and lists each entity the transaction writes exactly once |
| CommitStore.RemoveLeases | src/EntityDb.MongoDb/Documents/LeaseDocument.cs:166-187 | exactly the documents not matched by the delete remain, and lease uniqueness is kept |
| CommitStore.RemoveTags | src/EntityDb.MongoDb/Documents/TagDocument.cs:73-86 | exactly the tag documents not matched by the delete remain |
| CommitStore.LastVersion | src/EntityDb.MongoDb/Documents/CommandDocument.cs:138-167 | the result is 0 without commands for the entity, otherwise the largest stored version of it |
| CommitStore.LastVersionIsQuery | src/EntityDb.MongoDb/Documents/CommandDocument.cs:138-167 | the store's last version agrees with `GetLastEntityVersionNumber` |
| CommitStore.ApplyCommandLastVersion | EntityDb.Abstractions/Transactions/ITransactionCommand.cs:31-37 | an accepted command expected the entity's last version, not the largest `ulong`; afterwards that entity's last version is one more and other entities' are unchanged |
| CommitStore.RemainingLeases | EntityDb.Abstractions/Transactions/ITransactionCommand.cs:56-62 | an empty delete list leaves the leases as they are; otherwise a lease document remains iff it was held and the delete does not select it; lease uniqueness is kept |
| CommitStore.CanInsertLeases | src/EntityDb.MongoDb/Documents/LeaseDocument.cs:51-64 | definition: the unique index accepts the new lease documents iff they repeat neither one another nor a lease still held |
| CommitStore.ApplyCommand | EntityDb.Abstractions/Transactions/ITransactionCommand.cs:31-70 | definition of one command's write. The order of its checks is this model's own reconstruction, as the writing repository is not part of this model: reserved version 0, then optimistic concurrency, then distinct subversions, then the lease delete, then the lease insert; tags never reject. `ApplyCommandShape` states the state it produces |
| CommitStore.ApplyCommands | EntityDb.Abstractions/Transactions/ITransactionCommand.cs:31-70 | definition: the commands of a transaction in order, where the first rejection rejects them all; `ApplyCommandsAppends` and `ApplyCommandsPreservesValid` state its effect |
| CommitStore.ApplyTransaction | test/EntityDb.Common.Tests/Transactions/TransactionTestsBase.cs:504-763 | definition of `PutTransaction` on a writable store: a duplicate transaction id is refused, then the agent-signature document is written and the commands are applied all or nothing |
| CommitStore.ApplyCommandShape | EntityDb.Abstractions/Transactions/ITransactionCommand.cs:31-70 | an accepted command appends one document at the entity's last version + 1, replaces the leases by the remaining ones followed by the inserted ones (which do not clash), and keeps the agent signatures |
| CommitStore.AppendNextVersionKeepsKeys | src/EntityDb.MongoDb/Documents/CommandDocument.cs:52-64 | appending a command one past its entity's last version keeps (entity, version) unique |
| CommitStore.InsertLeasesKeepsUnique | src/EntityDb.MongoDb/Documents/LeaseDocument.cs:51-64 | inserting leases that clash with neither each other nor the remaining ones keeps (scope, label, value) unique |
| CommitStore.ApplyCommandPreservesValid | src/EntityDb.MongoDb/Documents/CommandDocument.cs:52-64 | an accepted command keeps transaction ids distinct, (entity, version) unique, version 0 absent and lease triples unique |
| CommitStore.ApplyCommandsPreservesValid | src/EntityDb.MongoDb/Documents/LeaseDocument.cs:51-64 | the same store invariant holds after every accepted batch of commands |
| CommitStore.ApplyTransactionPreservesValid | test/EntityDb.Common.Tests/Transactions/TransactionTestsBase.cs:504-763 | the same store invariant holds after every accepted transaction |
| CommitStore.ApplyCommandsAppends | EntityDb.Abstractions/Transactions/ITransactionCommand.cs:31-42 | an accepted batch appends one command document per command, in order, and adds no agent signature |
| CommitStore.CommittedCommandsStored | test/EntityDb.Common.Tests/Transactions/TransactionTestsBase.cs:776-818 | after a commit the old commands are a prefix, followed by one document per command with its entity, version expected + 1, transaction id, payload and stored time stamp |
| CommitStore.ApplyCommandsNoReservedVersion | test/EntityDb.Common.Tests/Transactions/TransactionTestsBase.cs:580-637 | no accepted command expects the largest `ulong`, so nothing is stored at the reserved version 0 |
| CommitStore.ApplyCommandsVersionsGrow | src/EntityDb.Common.Tests/Transactions/TransactionTestsBase.cs:668-719 | an entity's last version never decreases, and each accepted command for it expected a version between the old and new last versions |
| CommitStore.CommittedExpectedVersionsIncrease | src/EntityDb.Common.Tests/Transactions/TransactionTestsBase.cs:617-665 | within an accepted batch, the commands for one entity expect strictly increasing versions |
| CommitStore.SameVersionTwiceInOneTransactionRejected | src/EntityDb.Common.Tests/Transactions/TransactionTestsBase.cs:617-665 | two commands for one entity with the same expected version make the whole transaction fail |
| CommitStore.SameVersionAfterCommitRejected | src/EntityDb.Common.Tests/Transactions/TransactionTestsBase.cs:668-719 | after a commit, a transaction reusing an entity's expected version fails |
| CommitStore.DuplicateTransactionIdRejected | test/EntityDb.Common.Tests/Transactions/TransactionTestsBase.cs:504-538 | after a commit, a second transaction with the same id fails with `DuplicateTransactionId` |
| CommitStore.DuplicateLeaseRejected | src/EntityDb.MongoDb/Documents/LeaseDocument.cs:51-64 | a command inserting the same lease twice fails, as the unique index on scope, label and value refuses the second document |
| CommitStore.HeldLeaseBlocksInsert | src/EntityDb.MongoDb/Documents/LeaseDocument.cs:51-64 | a lease still held, and not deleted by any command up to the inserting one, makes the batch fail |
| CommitStore.SameLeaseTwiceRejected | src/EntityDb.Common.Tests/Transactions/TransactionTestsBase.cs:830-883 | in one batch, two commands inserting the same lease fail unless a command in between deletes it for the first entity |
| CommitStore.SameLeaseInTwoCommandsRejected | src/EntityDb.Common.Tests/Transactions/TransactionTestsBase.cs:830-883 | a transaction whose two commands, for any entities, insert the same lease is rejected as a whole unless the first entity's lease is deleted in between |
| CommitStore.ApplyCommandTags | src/EntityDb.MongoDb/Documents/TagDocument.cs:73-86 | after a command, a tag document is stored iff it was stored and the command's tag delete does not select it, or the command inserts it |
| CommitStore.TagsNeverReject | src/EntityDb.Common.Tests/Transactions/TransactionTestsBase.cs:774-827 | inserted tags never decide acceptance; on success every inserted tag, duplicates included, is stored |
| CommitStore.DeleteThenReinsertLease | EntityDb.Abstractions/Transactions/ITransactionCommand.cs:56-70 | deleting a lease and inserting it again in one command does not conflict, because the delete runs first |
| CommitStore.DeletedLeaseGone | test/EntityDb.Common.Tests/Transactions/TransactionTestsBase.cs:909-961 | after a command deletes a lease without re-inserting it, the entity holds no such lease |
| CommitStore.Store.constructor | test/EntityDb.Common.Tests/Transactions/TransactionTestsBase.cs:459-502 | a new store is empty and valid, with the given read-only and precision settings |
| CommitStore.Store.PutTransaction | test/EntityDb.Common.Tests/Transactions/TransactionTestsBase.cs:459-763 | read-only returns false and changes nothing; otherwise the new state is the all-or-nothing result of applying the transaction, and failure leaves the state unchanged |
| TransactionBuilder.AppendOneStep | test/EntityDb.Common.Tests/Transactions/SingleEntityTransactionBuilderTests.cs:137-175 | an append succeeds iff the command is a reducer; it advances the entity by one version and adds exactly one step with the previous and new versions |
| TransactionBuilder.AppendState | src/EntityDb.Abstractions/Transactions/Builders/ISingleEntityTransactionBuilder.cs:39-44 | definition of `Append` on the builder's state: reduce the known or freshly constructed entity by the command and record one append step; a command that is not a reducer is refused with `NotAReducer` |
| TransactionBuilder.AppendedSteps | test/EntityDb.Common.Tests/Transactions/SingleEntityTransactionBuilderTests.cs:137-175 | the reference step list has one step per command |
| TransactionBuilder.AppendAllVersions | test/EntityDb.Common.Tests/Transactions/SingleEntityTransactionBuilderTests.cs:137-175 | `n` reducer appends add exactly the reference steps and advance the version by `n` |
| TransactionBuilder.NewEntityVersionsCount | test/EntityDb.Common.Tests/Transactions/SingleEntityTransactionBuilderTests.cs:137-175 | `n` appends on an unknown entity produce `n` append steps at versions 1..n, in order, carrying the commands |
| TransactionBuilder.BuildState | src/EntityDb.Abstractions/Transactions/Builders/ISingleEntityTransactionBuilder.cs:46-51 | building clears the steps and keeps the entity and its version |
| TransactionBuilder.VersionsContinueAcrossBuild | test/EntityDb.Common.Tests/Transactions/TransactionTestsBase.cs:1008-1058 | an append after a build produces one step at the version after the first build's |
| TransactionBuilder.AppendCommandOf | EntityDb.Abstractions/Transactions/ITransactionCommand.cs:26-42 | an append step becomes a command with the same entity, payload and expected previous version |
| TransactionBuilder.AppendStepVersionIsStored | EntityDb.Abstractions/Transactions/ITransactionCommand.cs:31-37 | the version the builder records for a step is the version the store will use for it |
| TransactionBuilder.SingleEntityTransactionBuilder.constructor | src/EntityDb.Abstractions/Transactions/Builders/ISingleEntityTransactionBuilder.cs:14 | a new builder has the given entity id, no entity and no steps |
| TransactionBuilder.SingleEntityTransactionBuilder.GetEntity | test/EntityDb.Common.Tests/Transactions/SingleEntityTransactionBuilderTests.cs:24-73 | returns the entity iff one is known, and `KeyNotFound` otherwise |
| TransactionBuilder.SingleEntityTransactionBuilder.Load | test/EntityDb.Common.Tests/Transactions/SingleEntityTransactionBuilderTests.cs:42-135 | a first load makes the entity known and keeps the steps; a second load fails with `EntityAlreadyKnown` and changes nothing |
| TransactionBuilder.SingleEntityTransactionBuilder.Append | src/EntityDb.Abstractions/Transactions/Builders/ISingleEntityTransactionBuilder.cs:39-44 | the new state is the reference `AppendState`; on failure the state is unchanged |
| TransactionBuilder.SingleEntityTransactionBuilder.AddLease | test/EntityDb.Common.Tests/Transactions/SingleEntityTransactionBuilderTests.cs:75-99 | adds exactly one add-leases step holding the lease and keeps the entity |
| TransactionBuilder.SingleEntityTransactionBuilder.DeleteLease | test/EntityDb.Common.Tests/Transactions/TransactionTestsBase.cs:909-961 | adds exactly one delete-leases step holding the lease and keeps the entity |
| TransactionBuilder.SingleEntityTransactionBuilder.AddTag | test/EntityDb.Common.Tests/Transactions/TransactionTestsBase.cs:709-735 | adds exactly one add-tags step holding the tag and keeps the entity |
| TransactionBuilder.SingleEntityTransactionBuilder.DeleteTag | src/EntityDb.Common.Tests/Transactions/TransactionTestsBase.cs:915-955 | adds exactly one delete-tags step holding the tag and keeps the entity |
| TransactionBuilder.SingleEntityTransactionBuilder.Build | src/EntityDb.Abstractions/Transactions/Builders/ISingleEntityTransactionBuilder.cs:46-51 | returns a transaction with the given id and the steps so far, then clears the steps and keeps the entity |
| MultipleEntityRepository.PointerOf | src/EntityDb.Common/Entities/MultipleEntityRepository.cs:57 | an entity's pointer is its id and current version |
| MultipleEntityRepository.LatestPointer | src/EntityDb.Common/Entities/MultipleEntityRepository.cs:119 | a latest pointer exists iff some pending message is about the entity, and it is one of those messages' pointers |
| MultipleEntityRepository.LatestPointerAppend | src/EntityDb.Common/Entities/MultipleEntityRepository.cs:117-121 | a new message is the latest for its entity, and other entities' latest are unchanged |
| MultipleEntityRepository.RegisterKeepsConsistent | src/EntityDb.Common/Entities/MultipleEntityRepository.cs:46-48 | registering an unknown entity keeps every pending message consistent with the map |
| MultipleEntityRepository.AppendKeepsConsistent | src/EntityDb.Common/Entities/MultipleEntityRepository.cs:117-121 | an append keeps each entity's latest pending message pointing at its current version |
| MultipleEntityRepository.Repository.constructor | src/EntityDb.Common/Entities/MultipleEntityRepository.cs:18-37 | a new session knows no entity and has no pending message |
| MultipleEntityRepository.Repository.Create | src/EntityDb.Common/Entities/MultipleEntityRepository.cs:39-49 | a known id fails with `ExistingEntity` and changes nothing; otherwise the constructed entity is registered and no message is added |
| MultipleEntityRepository.Repository.Get | src/EntityDb.Common/Entities/MultipleEntityRepository.cs:100-108 | returns the known entity unchanged iff it is known, and `UnknownEntity` otherwise; in a consistent session an entity with a pending message is always found, and its pointer is that of its latest pending message |
| MultipleEntityRepository.Repository.Append | src/EntityDb.Common/Entities/MultipleEntityRepository.cs:110-122 | an unknown id or a non-reducer fails and changes nothing; otherwise only that entity is replaced by its reduction, and one message with its new pointer is added at the end |
| MultipleEntityRepository.Repository.TryLoad | src/EntityDb.Common/Entities/MultipleEntityRepository.cs:51-98 | the five outcomes: known and satisfied gives true; known and ahead gives false; known and behind gives false or `DuplicateKey` after replay; unknown registers the replayed entity iff it satisfies the pointer |
| MultipleEntityRepository.Repository.Commit | src/EntityDb.Common/Entities/MultipleEntityRepository.cs:124-151 | with nothing pending, it succeeds and submits nothing; otherwise it submits the pending messages in order, returns the backend's answer, and clears them only on success |
| EntityRepository.EntityFactsQuery | src/EntityDb.Common/Entities/EntityRepository.cs:45-49 | the facts query is unpaginated |
| EntityRepository.EntityFactsFilter | src/EntityDb.Common/Entities/EntityRepository.cs:45-49 | a stored command is a fact iff it is the entity's and its version is above the start version |
| EntityRepository.FactDocumentsMembers | src/EntityDb.Common/Entities/EntityRepository.cs:45-49 | the fetched facts are exactly the entity's stored commands newer than the start version |
| EntityRepository.FactDocumentsOrdered | src/EntityDb.Common/Entities/EntityRepository.cs:45-51 | the fetched facts come in ascending version order |
| EntityRepository.StartEntity | src/EntityDb.Common/Entities/EntityRepository.cs:36-43 | without a snapshot repository or a snapshot, replay starts from the constructed entity at version 0 |
| EntityRepository.ReplayAddsNewerFacts | test/EntityDb.Common.Tests/Entities/EntityTests.cs:205-236 | replaying `n` reducers from a snapshot gives the snapshot's version plus `n` |
| EntityRepository.EntityIdsOf | src/EntityDb.Common/Entities/EntityRepository.cs:60-62 | one entity id per command, in order |
| EntityRepository.LastIndexOf | src/EntityDb.Common/Entities/EntityRepository.cs:60-62 | the index of the entity's last command: no later command is for that entity |
| EntityRepository.LastCommands | src/EntityDb.Common/Entities/EntityRepository.cs:60-62 | definition of `GroupBy(EntityId).Select(Last)`: one command per entity, its last, in order of first appearance; `LastCommandsDistinct`, `LastCommandsCover` and `LastCommandsAreLast` state its properties |
| EntityRepository.LastCommandsDistinct | src/EntityDb.Common/Entities/EntityRepository.cs:60-62 | the grouped commands name each entity once |
| EntityRepository.LastCommandsCover | src/EntityDb.Common/Entities/EntityRepository.cs:60-62 | every entity in the transaction has a grouped command |
| EntityRepository.LastCommandsAreLast | src/EntityDb.Common/Entities/EntityRepository.cs:60-62 | each grouped command is the last command of its entity |
| EntityRepository.SnapshotUntouched | src/EntityDb.Common/Entities/EntityRepository.cs:64-70 | an entity with no grouped command keeps its snapshot, or its absence |
| EntityRepository.SnapshotDecided | src/EntityDb.Common/Entities/EntityRepository.cs:64-70 | a grouped command writes its next snapshot iff the predicate holds; otherwise the snapshot is untouched |
| EntityRepository.SnapshotWrites | src/EntityDb.Common/Entities/EntityRepository.cs:64-70 | definition: the snapshot map after offering each last command, in turn, to the snapshotting decision; `SnapshotUntouched` and `SnapshotDecided` state its effect |
| EntityRepository.PutSnapshotOfEntity | src/EntityDb.Common/Entities/EntityRepository.cs:58-70 | for every entity of the transaction, the decision is made on its last command alone |
| EntityRepository.PutSnapshotOthersUnchanged | src/EntityDb.Common/Entities/EntityRepository.cs:58-70 | entities outside the transaction keep their snapshots |
| EntityRepository.Repository.constructor | src/EntityDb.Common/Entities/EntityRepository.cs:22-32 | a new repository wraps the given store, with no snapshots |
| EntityRepository.Repository.SnapshotOf | src/EntityDb.Common/Entities/EntityRepository.cs:38-41 | returns the stored snapshot iff there is one |
| EntityRepository.Repository.Get | src/EntityDb.Common/Entities/EntityRepository.cs:34-54 | the result is the fold, over the start entity, of the entity's stored commands newer than the start version |
| EntityRepository.Repository.Put | src/EntityDb.Common/Entities/EntityRepository.cs:56-74 | snapshots are the writes decided by the last commands (none without a snapshot repository); the result and store state are the store's `PutTransaction` outcome |

## Left out

- Envelope serialization (`BsonDocumentEnvelope`, `IEnvelopeService`): payloads are stored as
  values. Serialization is a thin wrapper over a JSON/BSON library not part of this model.
- The type-resolver chain, dependency-injection wiring, provisioning and factory classes: they
  hold no logic of the engine.
- Storage I/O, the Mongo driver's rendering of filters and sorts, sessions, secondary reads,
  async, cancellation and logging. The store is an in-memory class, and a query is run by `Run`.
- `FactDocument` and subversion-numbered fact storage: the store checks that subversion numbers
  are unique, and keeps the command document only.
- The `CountLease`, `CountTag` and `AddLease` test fixtures: a count facet is a payload type name
  plus a number on the record.
- `StatePointer.IsSatisfiedBy` is not part of this model. It is an uninterpreted function-typed
  constant of `MultipleEntityRepository.Repository`. Its only visible use is the version
  comparison at `MultipleEntityRepository.cs:64`.
- `GetDeltasDataQuery` and `GetEntityQuery` are not part of this model. Both are modelled from
  their use: the entity's commands newer than the given version, in ascending version order.
- `GetLastEntityVersionQuery` is not part of this model. It is read as: that entity's commands,
  sorted by descending version, take 1.
- The agent accessor, the clock and `Id.NewId()` are parameters of `Commit`. The state
  repository's `Get`, and the deltas the source repository enumerates, are parameters of
  `TryLoad`. The backend's commit verdict is a `bool` parameter.
- TransactionBuilder: steps are not lowered to transaction commands, except for one append step
  through `AppendCommandOf`. The lowering is not among the modelled files.
- TransactionBuilder.SingleEntityTransactionBuilder.Append: the versioning strategy is fixed to
  "previous + 1", which the builder tests assert.
- CommitStore.Store.PutTransaction: read-only mode returns `false` with reason `ReadOnly`. The
  newer test logs the exception and expects `false`; the older test expects a throw.
- EntityRepository.Repository.Get: the not-created check (`EntityNotCreatedException`, tested at
  `EntityTests.cs:239-258`) belongs to a later `GetCurrent` that is not part of this model. `Get`
  as written has no such check.
- Queries.Run: a negative skip, which the MongoDB server refuses, is read as skipping nothing,
  as LINQ `Skip` does. The server's error for it is not modelled.
- DocumentQueries.GetIds: the distinct-level skip and limit of the id queries
  (`DistinctSkip`, `DistinctLimit` at `CommandDocument.cs:97-98`) are modelled as the LINQ
  `Skip` and `Take` of `DocumentQueryExtensions.cs:83-91`, where a non-positive take keeps
  nothing. The id-query classes that consume them are not part of this model.
- StandardQueries.CountSort: its own contract states only the leading keys (state id, then state
  version). The later tie-breakers, payload type, then number, then lease scope or tag label,
  are stated by `CountTieBrokenPair` and `CountRunTieBreaks`.
- Entities.ApplyReducer: only the reducers of the test entity `TransactionEntity` are modelled.
  `TransactionEntity.cs:39` only calls `reducer.Reduce`, and each such reducer advances the
  version by one (as `EntityTests.cs:205-236` expects). Other entities' reducers are not part
  of this model.
- EntityRepository.Repository.Get: it replays the payloads of the entity's stored command
  documents newer than the start version, where the source replays the fact documents that
  `GetFacts` returns (`EntityRepository.cs:47-51`). Fact documents are not stored by this
  model (see `FactDocument` above), so each command stands for its facts.
- EntityRepository.Repository.Put: snapshot writes are modelled as completed before the
  transaction is forwarded. The source does not await them, so their ordering with the store is
  not captured. As in the source, a snapshot can be written for a transaction the store then
  rejects.
- The scenario in `EntityTestsBase.cs:55-117` has a snapshot strategy that fires at version 10. It
  is covered by the general lemmas `SnapshotDecided` and `Repository.Get`, not restated for those
  numbers.
- The Redis and EntityFramework snapshot repositories are not part of this model. The snapshot
  store is a map field of `EntityRepository.Repository`.
