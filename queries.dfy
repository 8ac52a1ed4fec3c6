/**
 * The backend-independent query algebra: a filter AST, sorts as ordered key lists,
 * optional skip and take, and the `Modify` transform. `Run` gives the meaning a backend
 * must implement: filter, then sort, then skip, then take.
 */
module Queries {
  import opened Wrappers
  import opened ValueObjects
  import opened QueryOrder

  /**
   * What filters and sorts can see of a stored row, whatever its facet. A source is a
   * transaction and a state an entity; rows of one entity carry one state id, agent-signature
   * rows carry every entity id of their transaction. Fields a facet lacks are empty.
   */
  datatype Record = Record(
    sourceId: Id,
    sourceTimeStamp: TimeStamp,
    stateIds: seq<Id>,
    stateVersion: VersionNumber,
    dataType: string,
    number: Option<int>,
    scope: string,
    labelName: string,
    value: string)

  /** The filter builder's operators. */
  datatype Filter =
    | And(left: Filter, right: Filter)
    | Or(left: Filter, right: Filter)
    | Not(inner: Filter)
    | SourceIdIn(sourceIds: seq<Id>)
    | StateIdIn(stateIds: seq<Id>)
    | StateVersionGte(minVersion: VersionNumber)
    | StateVersionLte(maxVersion: VersionNumber)
      /** A predicate over a typed payload: its type is `dataType` and `gte <= Number <= lte`. */
    | NumberBetween(payloadType: string, gte: int, lte: int)

  /** Whether a row satisfies a filter. */
  predicate Matches(f: Filter, r: Record)
  {
    match f
    case And(a, b) => Matches(a, r) && Matches(b, r)
    case Or(a, b) => Matches(a, r) || Matches(b, r)
    case Not(a) => !Matches(a, r)
    case SourceIdIn(ids) => r.sourceId in ids
    case StateIdIn(ids) => exists i :: 0 <= i < |r.stateIds| && r.stateIds[i] in ids
    case StateVersionGte(v) => r.stateVersion.value >= v.value
    case StateVersionLte(v) => r.stateVersion.value <= v.value
    case NumberBetween(t, gte, lte) =>
      r.dataType == t && r.number.Some? && gte <= r.number.value <= lte
  }

  /** The fields the sort builders can order by. */
  datatype SortField = StateIdField | StateVersionField | DataTypeField | NumberField | ScopeField | LabelField

  datatype SortKey = SortKey(field: SortField, ascending: bool)

  /** A combined sort: the first key decides, later keys break ties. */
  type Sort = seq<SortKey>

  /** The value a row is ordered by for one field; a missing number sorts first. */
  function KeyOf(field: SortField, r: Record): seq<int>
  {
    match field
    case StateIdField => r.stateIds
    case StateVersionField => [r.stateVersion.value]
    case DataTypeField => Codes(r.dataType)
    case NumberField => if r.number.Some? then [r.number.value] else []
    case ScopeField => Codes(r.scope)
    case LabelField => Codes(r.labelName)
  }

  /** One key's comparison, in its direction. */
  function KeyCompare(k: SortKey, x: Record, y: Record): int
  {
    var c := LexCompare(KeyOf(k.field, x), KeyOf(k.field, y));
    if k.ascending then c else -c
  }

  /** Three-way comparison of two rows under a combined sort. */
  function Compare(sort: Sort, x: Record, y: Record): int
  {
    if sort == [] then 0
    else
      var c := KeyCompare(sort[0], x, y);
      if c != 0 then c else Compare(sort[1..], x, y)
  }

  lemma KeyCompareFacts(k: SortKey, x: Record, y: Record)
    ensures KeyCompare(k, x, y) == -KeyCompare(k, y, x)
    ensures KeyCompare(k, x, y) == 0 <==> KeyOf(k.field, x) == KeyOf(k.field, y)
  {
    LexCompareAntisymmetric(KeyOf(k.field, x), KeyOf(k.field, y));
    LexCompareZeroIffEqual(KeyOf(k.field, x), KeyOf(k.field, y));
  }

  lemma KeyCompareTransitive(k: SortKey, x: Record, y: Record, z: Record)
    requires KeyCompare(k, x, y) <= 0 && KeyCompare(k, y, z) <= 0
    ensures KeyCompare(k, x, z) <= 0
  {
    var a, b, c := KeyOf(k.field, x), KeyOf(k.field, y), KeyOf(k.field, z);
    if k.ascending {
      LexCompareTransitive(a, b, c);
    } else {
      LexCompareAntisymmetric(a, b);
      LexCompareAntisymmetric(b, c);
      LexCompareAntisymmetric(a, c);
      LexCompareTransitive(c, b, a);
    }
  }

  /** The comparison is antisymmetric. */
  lemma {:induction false} CompareAntisymmetric(sort: Sort, x: Record, y: Record)
    ensures Compare(sort, x, y) == -Compare(sort, y, x)
    decreases |sort|
  {
    if sort != [] {
      KeyCompareFacts(sort[0], x, y);
      CompareAntisymmetric(sort[1..], x, y);
    }
  }

  /** The comparison is a total preorder: `<= 0` is transitive. */
  lemma {:induction false} CompareTransitive(sort: Sort, x: Record, y: Record, z: Record)
    requires Compare(sort, x, y) <= 0 && Compare(sort, y, z) <= 0
    ensures Compare(sort, x, z) <= 0
    decreases |sort|
  {
    if sort != [] {
      var k := sort[0];
      KeyCompareFacts(k, x, y);
      KeyCompareFacts(k, y, z);
      KeyCompareFacts(k, x, z);
      if KeyCompare(k, x, y) == 0 && KeyCompare(k, y, z) == 0 {
        CompareTransitive(sort[1..], x, y, z);
      } else if KeyCompare(k, x, y) == 0 {
        assert KeyCompare(k, x, z) == KeyCompare(k, y, z);
      } else if KeyCompare(k, y, z) == 0 {
        assert KeyCompare(k, x, z) == KeyCompare(k, x, y);
      } else {
        KeyCompareTransitive(k, x, y, z);
      }
    }
  }

  /** A sort with every direction flipped: `ReverseSort`. */
  function Flip(sort: Sort): (r: Sort)
    ensures |r| == |sort|
    ensures forall i :: 0 <= i < |sort| ==> r[i].field == sort[i].field && r[i].ascending == !sort[i].ascending
  {
    if sort == [] then [] else [SortKey(sort[0].field, !sort[0].ascending)] + Flip(sort[1..])
  }

  /** Flipping every direction negates the comparison. */
  lemma {:induction false} FlipNegates(sort: Sort, x: Record, y: Record)
    ensures Compare(Flip(sort), x, y) == -Compare(sort, x, y)
    decreases |sort|
  {
    if sort != [] {
      assert Flip(sort)[1..] == Flip(sort[1..]);
      FlipNegates(sort[1..], x, y);
    }
  }

  // ---------------------------------------------------------------------------
  // Rows: filtering and sorting a collection whose elements are seen through `view`.

  /** The rows that satisfy the filter, in collection order. */
  function FilterRows<T(!new)>(f: Filter, s: seq<T>, view: T -> Record): (r: seq<T>)
    ensures forall x :: x in r <==> x in s && Matches(f, view(x))
  {
    if s == [] then []
    else if Matches(f, view(s[0])) then [s[0]] + FilterRows(f, s[1..], view)
    else FilterRows(f, s[1..], view)
  }

  /** A filter and its negation split the collection: the complement, nothing lost or repeated. */
  lemma {:induction false} FilterComplement<T(!new)>(f: Filter, s: seq<T>, view: T -> Record)
    ensures multiset(FilterRows(f, s, view)) + multiset(FilterRows(Not(f), s, view)) == multiset(s)
  {
    if s != [] {
      FilterComplement(f, s[1..], view);
      FilterRowsStep(f, s, view);
      FilterRowsStep(Not(f), s, view);
      MultisetCons(s);
    }
  }

  lemma FilterRowsStep<T(!new)>(f: Filter, s: seq<T>, view: T -> Record)
    requires s != []
    ensures multiset(FilterRows(f, s, view)) ==
      (if Matches(f, view(s[0])) then multiset{s[0]} else multiset{}) + multiset(FilterRows(f, s[1..], view))
  {
  }

  lemma MultisetCons<T>(s: seq<T>)
    requires s != []
    ensures multiset(s) == multiset{s[0]} + multiset(s[1..])
  {
    assert s == [s[0]] + s[1..];
  }

  predicate SortedBy<T(!new)>(sort: Sort, s: seq<T>, view: T -> Record)
  {
    forall i, j :: 0 <= i < j < |s| ==> Compare(sort, view(s[i]), view(s[j])) <= 0
  }

  /** `x` placed after every leading row that does not sort after it. */
  function Insert<T(!new)>(sort: Sort, x: T, s: seq<T>, view: T -> Record): (r: seq<T>)
    ensures multiset(r) == multiset(s) + multiset{x}
    ensures SortedBy(sort, s, view) ==> SortedBy(sort, r, view)
  {
    if s == [] then [x]
    else if Compare(sort, view(x), view(s[0])) < 0 then
      CompareAntisymmetric(sort, view(x), view(s[0]));
      InsertFrontSorted(sort, x, s, view);
      [x] + s
    else
      var rest := Insert(sort, x, s[1..], view);
      CompareAntisymmetric(sort, view(x), view(s[0]));
      assert s == [s[0]] + s[1..];
      InsertConsSorted(sort, s[0], rest, x, s[1..], view);
      [s[0]] + rest
  }

  lemma InsertFrontSorted<T(!new)>(sort: Sort, x: T, s: seq<T>, view: T -> Record)
    requires s != [] && Compare(sort, view(x), view(s[0])) <= 0
    ensures SortedBy(sort, s, view) ==> SortedBy(sort, [x] + s, view)
  {
    if SortedBy(sort, s, view) {
      var r := [x] + s;
      forall i, j | 0 <= i < j < |r| ensures Compare(sort, view(r[i]), view(r[j])) <= 0 {
        if i == 0 && j > 1 {
          CompareTransitive(sort, view(x), view(s[0]), view(s[j - 1]));
        }
      }
    }
  }

  lemma InsertConsSorted<T(!new)>(sort: Sort, h: T, rest: seq<T>, x: T, tail: seq<T>, view: T -> Record)
    requires multiset(rest) == multiset(tail) + multiset{x}
    requires Compare(sort, view(h), view(x)) <= 0
    requires SortedBy(sort, [h] + tail, view) ==> SortedBy(sort, rest, view)
    ensures SortedBy(sort, [h] + tail, view) ==> SortedBy(sort, [h] + rest, view)
  {
    if SortedBy(sort, [h] + tail, view) {
      var r := [h] + rest;
      forall i, j | 0 <= i < j < |r| ensures Compare(sort, view(r[i]), view(r[j])) <= 0 {
        if i == 0 {
          var y := rest[j - 1];
          assert y in multiset(rest);
          if y != x {
            assert y in multiset(tail);
            var k :| 0 <= k < |tail| && tail[k] == y;
            assert ([h] + tail)[k + 1] == y && ([h] + tail)[0] == h;
          }
        } else {
          assert r[i] == rest[i - 1] && r[j] == rest[j - 1];
        }
      }
    }
  }

  /** Insertion sort: the rows in an order consistent with the sort. */
  function SortRows<T(!new)>(sort: Sort, s: seq<T>, view: T -> Record): (r: seq<T>)
    ensures multiset(r) == multiset(s)
    ensures SortedBy(sort, r, view)
  {
    if s == [] then []
    else
      var init := s[..|s| - 1];
      assert s == init + [s[|s| - 1]];
      Insert(sort, s[|s| - 1], SortRows(sort, init, view), view)
  }

  /** With no sort keys every row ties, so insertion places the new row last. */
  lemma {:induction false} InsertUnsorted<T(!new)>(x: T, s: seq<T>, view: T -> Record)
    ensures Insert([], x, s, view) == s + [x]
    decreases |s|
  {
    if s != [] {
      InsertTieStep(x, s, view);
      InsertUnsorted(x, s[1..], view);
      ConsAppend(s, x);
    }
  }

  /** With no sort keys the new row never sorts before the head, so it is inserted behind it. */
  lemma InsertTieStep<T(!new)>(x: T, s: seq<T>, view: T -> Record)
    requires s != []
    ensures Insert([], x, s, view) == [s[0]] + Insert([], x, s[1..], view)
  {
    assert Compare([], view(x), view(s[0])) == 0;
  }

  lemma ConsAppend<T>(s: seq<T>, x: T)
    requires s != []
    ensures [s[0]] + (s[1..] + [x]) == s + [x]
  {
  }

  /** The default (absent) sort keeps the collection's own order. */
  lemma {:induction false} SortRowsUnsorted<T(!new)>(s: seq<T>, view: T -> Record)
    ensures SortRows([], s, view) == s
    decreases |s|
  {
    if s != [] {
      var init := s[..|s| - 1];
      SortRowsStep(s, view);
      SortRowsUnsorted(init, view);
      InsertUnsorted(s[|s| - 1], init, view);
      SnocSplit(s);
    }
  }

  lemma SortRowsStep<T(!new)>(s: seq<T>, view: T -> Record)
    requires s != []
    ensures SortRows([], s, view) == Insert([], s[|s| - 1], SortRows([], s[..|s| - 1], view), view)
  {
  }

  lemma SnocSplit<T>(s: seq<T>)
    requires s != []
    ensures s[..|s| - 1] + [s[|s| - 1]] == s
  {
  }

  /** Under a combined sort the first key decides; later keys only order rows that tie on it. */
  lemma CompareHeadKey(sort: Sort, x: Record, y: Record)
    requires sort != [] && Compare(sort, x, y) <= 0
    ensures KeyCompare(sort[0], x, y) <= 0
    ensures KeyOf(sort[0].field, x) == KeyOf(sort[0].field, y) ==> Compare(sort[1..], x, y) <= 0
  {
    KeyCompareFacts(sort[0], x, y);
  }

  /** Under a combined sort a later key decides only between rows equal on every earlier key. */
  lemma {:induction false} CompareTieBreak(sort: Sort, x: Record, y: Record, m: nat)
    requires Compare(sort, x, y) <= 0 && m < |sort|
    requires forall k :: 0 <= k < m ==> KeyOf(sort[k].field, x) == KeyOf(sort[k].field, y)
    ensures KeyCompare(sort[m], x, y) <= 0
    decreases m
  {
    CompareHeadKey(sort, x, y);
    if m > 0 {
      assert forall k :: 0 <= k < m - 1 ==> sort[1..][k] == sort[k + 1];
      CompareTieBreak(sort[1..], x, y, m - 1);
    }
  }

  /** In a sorted list an earlier row never sorts after a later one on the first key. */
  lemma SortedPairHeadKey<T(!new)>(sort: Sort, s: seq<T>, view: T -> Record, i: int, j: int)
    requires SortedBy(sort, s, view) && sort != [] && 0 <= i < j < |s|
    ensures KeyCompare(sort[0], view(s[i]), view(s[j])) <= 0
    ensures KeyOf(sort[0].field, view(s[i])) == KeyOf(sort[0].field, view(s[j])) ==>
      Compare(sort[1..], view(s[i]), view(s[j])) <= 0
  {
    CompareHeadKey(sort, view(s[i]), view(s[j]));
  }

  /** On the state version key, the key order is the order of the version values. */
  lemma VersionKeyOrder(ascending: bool, x: Record, y: Record)
    ensures KeyCompare(SortKey(StateVersionField, ascending), x, y) <= 0 <==>
      if ascending then x.stateVersion.value <= y.stateVersion.value
      else y.stateVersion.value <= x.stateVersion.value
  {
    var a, b := [x.stateVersion.value], [y.stateVersion.value];
    assert KeyOf(StateVersionField, x) == a && KeyOf(StateVersionField, y) == b;
    assert a[1..] == [] && b[1..] == [];
    assert LexCompare(a[1..], b[1..]) == 0;
  }

  /** No two different rows tie under the sort: the order between any two is fixed. */
  ghost predicate DistinctKeys<T(!new)>(sort: Sort, s: seq<T>, view: T -> Record)
  {
    forall x, y :: x in s && y in s && x != y ==> Compare(sort, view(x), view(y)) != 0
  }

  /** Two sorted arrangements of the same rows with distinct keys are the same sequence. */
  lemma {:induction false} SortedArrangementUnique<T(!new)>(sort: Sort, a: seq<T>, b: seq<T>, view: T -> Record)
    requires SortedBy(sort, a, view) && SortedBy(sort, b, view)
    requires multiset(a) == multiset(b)
    requires DistinctKeys(sort, a, view)
    ensures a == b
    decreases |a|
  {
    SameLength(a, b);
    if a != [] {
      SortedHeadsEqual(sort, a, b, view);
      TailMultiset(a);
      TailMultiset(b);
      SortedTail(sort, a, view);
      SortedTail(sort, b, view);
      DistinctTail(sort, a, view);
      SortedArrangementUnique(sort, a[1..], b[1..], view);
    }
  }

  lemma SameLength<T>(a: seq<T>, b: seq<T>)
    requires multiset(a) == multiset(b)
    ensures |a| == |b|
  {
    assert |a| == |multiset(a)| && |b| == |multiset(b)|;
  }

  lemma TailMultiset<T>(s: seq<T>)
    requires s != []
    ensures multiset(s[1..]) == multiset(s) - multiset{s[0]}
  {
    assert s == [s[0]] + s[1..];
  }

  lemma SortedTail<T(!new)>(sort: Sort, s: seq<T>, view: T -> Record)
    requires s != [] && SortedBy(sort, s, view)
    ensures SortedBy(sort, s[1..], view)
  {
    forall i, j | 0 <= i < j < |s| - 1 ensures Compare(sort, view(s[1..][i]), view(s[1..][j])) <= 0 {
      assert s[1..][i] == s[i + 1] && s[1..][j] == s[j + 1];
    }
  }

  lemma DistinctTail<T(!new)>(sort: Sort, s: seq<T>, view: T -> Record)
    requires s != [] && DistinctKeys(sort, s, view)
    ensures DistinctKeys(sort, s[1..], view)
  {
    forall x | x in s[1..] ensures x in s {
    }
  }

  lemma SortedHeadsEqual<T(!new)>(sort: Sort, a: seq<T>, b: seq<T>, view: T -> Record)
    requires a != [] && b != []
    requires SortedBy(sort, a, view) && SortedBy(sort, b, view)
    requires multiset(a) == multiset(b)
    requires DistinctKeys(sort, a, view)
    ensures a[0] == b[0]
  {
    assert a[0] in multiset(b) && b[0] in multiset(a);
    var k :| 0 <= k < |b| && b[k] == a[0];
    var m :| 0 <= m < |a| && a[m] == b[0];
    if a[0] != b[0] {
      assert Compare(sort, view(b[0]), view(b[k])) <= 0;
      assert Compare(sort, view(a[0]), view(a[m])) <= 0;
      CompareAntisymmetric(sort, view(a[0]), view(b[0]));
    }
  }

  /** Reversing a sorted sequence sorts it under the flipped sort. */
  lemma ReverseSorted<T(!new)>(sort: Sort, s: seq<T>, view: T -> Record)
    requires SortedBy(sort, s, view)
    ensures SortedBy(Flip(sort), Reverse(s), view)
  {
    var r := Reverse(s);
    forall i, j | 0 <= i < j < |r| ensures Compare(Flip(sort), view(r[i]), view(r[j])) <= 0 {
      FlipNegates(sort, view(r[i]), view(r[j]));
      CompareAntisymmetric(sort, view(r[i]), view(r[j]));
    }
  }

  /** With distinct keys, sorting under the flipped sort gives exactly the reverse order. */
  lemma SortFlippedIsReverse<T(!new)>(sort: Sort, s: seq<T>, view: T -> Record)
    requires DistinctKeys(sort, s, view)
    ensures SortRows(Flip(sort), s, view) == Reverse(SortRows(sort, s, view))
  {
    var fwd := SortRows(sort, s, view);
    var back := SortRows(Flip(sort), s, view);
    ReverseSorted(sort, fwd, view);
    ReverseMultiset(fwd);
    forall x, y | x in back && y in back && x != y
      ensures Compare(Flip(sort), view(x), view(y)) != 0
    {
      assert x in multiset(s) && y in multiset(s);
      FlipNegates(sort, view(x), view(y));
    }
    SortedArrangementUnique(Flip(sort), back, Reverse(fwd), view);
  }

  // ---------------------------------------------------------------------------
  // Queries and their meaning.

  /** The backend-specific pass-through a query may carry. */
  datatype QueryOptions = QueryOptions(name: string)

  /** One facet of a query: its filter, its sort (none means collection order), skip, take, options. */
  datatype Query = Query(
    filter: Filter,
    sort: Option<Sort>,
    skip: Option<int>,
    take: Option<int>,
    options: Option<QueryOptions>)

  function SortOf(q: Query): Sort
  {
    if q.sort.Some? then q.sort.value else []
  }

  /** LINQ pagination of a materialised sequence: `Skip` when present, then `Take` when present. */
  function Paginate<T(!new)>(s: seq<T>, skip: Option<int>, take: Option<int>): seq<T>
  {
    var skipped := if skip.Some? then SkipN(s, skip.value) else s;
    if take.Some? then TakeN(skipped, take.value) else skipped
  }

  /** LINQ pagination keeps one contiguous window: rows `skip .. skip + take`, clipped to the input. */
  lemma PaginateWindow<T(!new)>(s: seq<T>, skip: nat, take: nat)
    ensures var lo := if skip < |s| then skip else |s|;
            var hi := if skip + take < |s| then skip + take else |s|;
            Paginate(s, Some(skip), Some(take)) == s[lo..hi]
  {
  }

  /** Document-level pagination of a find: `skip` when present, then MongoDB's `limit` when present. */
  function Page<T(!new)>(s: seq<T>, skip: Option<int>, limit: Option<int>): seq<T>
  {
    var skipped := if skip.Some? then SkipN(s, skip.value) else s;
    if limit.Some? then LimitN(skipped, limit.value) else skipped
  }

  /**
   * A page of a find is one contiguous window from `skip`, clipped to the input; a limit of 0
   * places no bound, and a negative limit bounds by its absolute value.
   */
  lemma PageWindow<T(!new)>(s: seq<T>, skip: nat, limit: int)
    ensures var lo := if skip < |s| then skip else |s|;
            var size := if limit < 0 then -limit else limit;
            var hi := if limit == 0 || skip + size >= |s| then |s| else skip + size;
            Page(s, Some(skip), Some(limit)) == s[lo..hi]
  {
  }

  /** The meaning of a query over a collection: filter, sort, then skip and limit. */
  function Run<T(!new)>(q: Query, universe: seq<T>, view: T -> Record): seq<T>
  {
    Page(SortRows(SortOf(q), FilterRows(q.filter, universe, view), view), q.skip, q.take)
  }

  /** Every row a query returns is in the collection and satisfies the filter, in sort order. */
  lemma RunSound<T(!new)>(q: Query, universe: seq<T>, view: T -> Record)
    ensures forall x :: x in Run(q, universe, view) ==> x in universe && Matches(q.filter, view(x))
    ensures q.skip.None? && q.take.None? ==>
      multiset(Run(q, universe, view)) == multiset(FilterRows(q.filter, universe, view))
    ensures SortedBy(SortOf(q), Run(q, universe, view), view)
  {
    var filtered := FilterRows(q.filter, universe, view);
    var sorted := SortRows(SortOf(q), filtered, view);
    PageSubsequence(sorted, q.skip, q.take, SortOf(q), view);
    forall x | x in Run(q, universe, view) ensures x in filtered {
      assert x in multiset(sorted);
    }
  }

  /** Without pagination a query's result is its filtered rows, sorted, all of them. */
  lemma RunUnpaged<T(!new)>(q: Query, universe: seq<T>, view: T -> Record)
    requires q.skip.None? && q.take.None?
    ensures Run(q, universe, view) == SortRows(SortOf(q), FilterRows(q.filter, universe, view), view)
    ensures multiset(Run(q, universe, view)) == multiset(FilterRows(q.filter, universe, view))
    ensures SortedBy(SortOf(q), Run(q, universe, view), view)
  {
  }

  lemma SameMultisetSameMembers<T>(a: seq<T>, b: seq<T>)
    requires multiset(a) == multiset(b)
    ensures forall x :: x in a <==> x in b
  {
    forall x ensures x in a <==> x in b {
      assert x in a <==> x in multiset(a);
      assert x in b <==> x in multiset(b);
    }
  }

  /** Whatever its pagination, a query's result is in sort order. */
  lemma RunSorted<T(!new)>(q: Query, universe: seq<T>, view: T -> Record)
    ensures SortedBy(SortOf(q), Run(q, universe, view), view)
  {
    PageSubsequence(SortRows(SortOf(q), FilterRows(q.filter, universe, view), view), q.skip, q.take, SortOf(q), view);
  }

  /** A page is a contiguous part of its input, so it keeps the input's elements and order. */
  lemma PageSubsequence<T(!new)>(s: seq<T>, skip: Option<int>, limit: Option<int>, sort: Sort, view: T -> Record)
    ensures forall x :: x in Page(s, skip, limit) ==> x in s
    ensures SortedBy(sort, s, view) ==> SortedBy(sort, Page(s, skip, limit), view)
  {
    var skipped := if skip.Some? then SkipN(s, skip.value) else s;
    var lo := |s| - |skipped|;
    assert skipped == s[lo..];
    var page := Page(s, skip, limit);
    assert page == skipped[..|page|];
    assert page == s[lo..lo + |page|];
  }

  /** An unpaginated query returns every matching row of the collection, and nothing else. */
  lemma RunUnpaginatedMembers<T(!new)>(q: Query, universe: seq<T>, view: T -> Record)
    requires q.skip.None? && q.take.None?
    ensures forall x :: x in Run(q, universe, view) <==> x in universe && Matches(q.filter, view(x))
  {
    var filtered := FilterRows(q.filter, universe, view);
    var sorted := SortRows(SortOf(q), filtered, view);
    assert Run(q, universe, view) == sorted;
    forall x ensures x in sorted <==> x in filtered {
      assert x in sorted <==> x in multiset(sorted);
      assert x in filtered <==> x in multiset(filtered);
    }
  }

  /** An unsorted, unpaginated query returns exactly the matching rows in collection order. */
  lemma RunUnsortedUnpaginated<T(!new)>(q: Query, universe: seq<T>, view: T -> Record)
    requires q.sort.None? && q.skip.None? && q.take.None?
    ensures Run(q, universe, view) == FilterRows(q.filter, universe, view)
  {
    SortRowsUnsorted(FilterRows(q.filter, universe, view), view);
  }

  /** `ModifiedQueryOptions`. */
  datatype ModifiedQueryOptions = ModifiedQueryOptions(
    invertFilter: bool,
    reverseSort: bool,
    replaceSkip: Option<int>,
    replaceTake: Option<int>)

  /** `Modify`: a new query; the original is a value and is not changed. */
  function Modify(q: Query, o: ModifiedQueryOptions): (m: Query)
    ensures m.options == q.options
  {
    Query(
      if o.invertFilter then Not(q.filter) else q.filter,
      if o.reverseSort && q.sort.Some? then Some(Flip(q.sort.value)) else q.sort,
      if o.replaceSkip.Some? then o.replaceSkip else q.skip,
      if o.replaceTake.Some? then o.replaceTake else q.take,
      q.options)
  }

  /** With no option set, `Modify` changes nothing. */
  lemma ModifyIdentity(q: Query)
    ensures Modify(q, ModifiedQueryOptions(false, false, None, None)) == q
  {
  }

  /**
   * `InvertFilter` on an unpaginated query returns exactly the rows the original does not,
   * under the same sort: the two results together are the whole collection.
   */
  lemma ModifyInvertIsComplement<T(!new)>(q: Query, universe: seq<T>, view: T -> Record)
    requires q.skip.None? && q.take.None?
    ensures var inverted := Run(Modify(q, ModifiedQueryOptions(true, false, None, None)), universe, view);
            (forall x :: x in inverted <==> x in universe && !Matches(q.filter, view(x))) &&
            SortedBy(SortOf(q), inverted, view) &&
            multiset(Run(q, universe, view)) + multiset(inverted) == multiset(universe)
  {
    var m := Modify(q, ModifiedQueryOptions(true, false, None, None));
    assert m == q.(filter := Not(q.filter));
    RunUnpaged(q, universe, view);
    RunUnpaged(m, universe, view);
    var negated := FilterRows(Not(q.filter), universe, view);
    SameMultisetSameMembers(Run(m, universe, view), negated);
    FilterComplement(q.filter, universe, view);
  }

  /**
   * `ReverseSort` on an unpaginated sorted query returns the exact reverse sequence,
   * provided no two matching rows tie under the sort.
   */
  lemma ModifyReverseIsReverse<T(!new)>(q: Query, universe: seq<T>, view: T -> Record)
    requires q.skip.None? && q.take.None? && q.sort.Some?
    requires DistinctKeys(q.sort.value, FilterRows(q.filter, universe, view), view)
    ensures Run(Modify(q, ModifiedQueryOptions(false, true, None, None)), universe, view)
         == Reverse(Run(q, universe, view))
  {
    SortFlippedIsReverse(q.sort.value, FilterRows(q.filter, universe, view), view);
  }

  /** `ReplaceSkip = 1` with `ReplaceTake = 1` on an unpaginated query returns just its second row. */
  lemma ModifySkipOneTakeOne<T(!new)>(q: Query, universe: seq<T>, view: T -> Record)
    requires q.skip.None? && q.take.None?
    ensures var all := Run(q, universe, view);
            var window := Run(Modify(q, ModifiedQueryOptions(false, false, Some(1), Some(1))), universe, view);
            (|all| >= 2 ==> window == [all[1]]) && (|all| < 2 ==> window == [])
  {
    var m := Modify(q, ModifiedQueryOptions(false, false, Some(1), Some(1)));
    var sorted := SortRows(SortOf(q), FilterRows(q.filter, universe, view), view);
    assert m == q.(skip := Some(1), take := Some(1));
    assert Run(q, universe, view) == sorted;
    assert Run(m, universe, view) == Page(sorted, Some(1), Some(1));
    PageWindow(sorted, 1, 1);
  }
}
