/** The `books` slice: a sorted book collection plus the loading status of
    the `books/fetch` request it remembers. Its reducer dispatches on the
    exact action type; types with no registered case leave the state as it
    is. A dispatch sequence is a left fold of the reducer. */
module BooksSlice {
  import opened Wrappers
  import opened EntityAdapter
  import opened StringOrder

  type RequestId = string

  /** `'initial' | 'pending' | 'finished' | 'failed'` */
  datatype Loading = Initial | Pending | Finished | Failed

  /** The adapter's `{ids, entities}` extended with `loading` and
      `lastRequestId` (`null` is `None`). */
  datatype BooksState = BooksState(books: Collection, loading: Loading, lastRequestId: Option<RequestId>)

  predicate WellFormed(s: BooksState) {
    Valid(s.books)
  }

  /** `adapter.getInitialState({ loading: 'initial', lastRequestId: null })` */
  function InitialState(): (s: BooksState)
    ensures WellFormed(s) && s.books.ids == [] && s.loading == Initial && s.lastRequestId == None
  {
    BooksState(Empty(), Initial, None)
  }

  // ---------------------------------------------------------------------------
  // Action types and the case table

  const SliceName: string := "books"
  const FetchPrefix: string := "books/fetch"

  /** The type `createSlice` generates for a case of `reducers`. */
  function SliceType(name: string, caseName: string): string {
    name + "/" + caseName
  }

  /** The type `createAsyncThunk` generates for a lifecycle phase. */
  function LifecycleType(prefix: string, phase: string): string {
    prefix + "/" + phase
  }

  /** The types of the slice's own `reducers`, one per key of that object. */
  function ReducerTypes(): seq<string> {
    [SliceType(SliceName, "addOne"), SliceType(SliceName, "removeOne")]
  }

  /** The types `extraReducers` registers with `builder.addCase`, in order. */
  function BuilderTypes(): seq<string> {
    ["otherBooks/upsert", LifecycleType(FetchPrefix, "pending"), LifecycleType(FetchPrefix, "fulfilled")]
  }

  /** The exact types with a registered case. */
  function CaseTypes(): seq<string> {
    ReducerTypes() + BuilderTypes()
  }

  function RejectedType(): string {
    LifecycleType(FetchPrefix, "rejected")
  }

  /** An action type the slice has no constructor for. */
  type ForeignType = t: string | t !in CaseTypes() && t != RejectedType() witness ""

  /** The actions the slice can receive, tagged by their type. */
  datatype Action =
    | AddBook(book: Book)                                       // books/addOne
    | RemoveBook(id: Id)                                        // books/removeOne
    | UpsertBook(book: Book)                                    // otherBooks/upsert
    | FetchPending(requestId: RequestId)                        // books/fetch/pending
    | FetchFulfilled(requestId: RequestId, payload: seq<Book>)  // books/fetch/fulfilled
    | FetchRejected(requestId: RequestId)                       // books/fetch/rejected
    | Other(kind: ForeignType)                                  // anything else
  {
    function Type(): string {
      match this
      case AddBook(_) => SliceType(SliceName, "addOne")
      case RemoveBook(_) => SliceType(SliceName, "removeOne")
      case UpsertBook(_) => "otherBooks/upsert"
      case FetchPending(_) => LifecycleType(FetchPrefix, "pending")
      case FetchFulfilled(_, _) => LifecycleType(FetchPrefix, "fulfilled")
      case FetchRejected(_) => RejectedType()
      case Other(kind) => kind
    }
  }

  datatype BuildError = DuplicateCase(actionType: string)

  /** `builder.addCase`: registering an exact type twice is an error. */
  function AddCase(table: seq<string>, actionType: string): (r: Result<seq<string>, BuildError>)
    ensures r.Success? <==> actionType !in table
    ensures r.Success? ==> r.value == table + [actionType]
    ensures r.Failure? ==> r.error == DuplicateCase(actionType)
  {
    if actionType in table then Failure(DuplicateCase(actionType)) else Success(table + [actionType])
  }

  /** Registers `types` in order; fails at the first type seen twice. */
  function BuildCases(types: seq<string>): (r: Result<seq<string>, BuildError>)
    ensures r.Success? <==> NoDup(types)
    ensures r.Success? ==> r.value == types
    ensures r.Failure? ==> exists i, j :: 0 <= i < j < |types| && types[i] == types[j] == r.error.actionType
  {
    if types == [] then Success([])
    else
      var n := |types| - 1;
      var front := types[..n];
      assert types == front + [types[n]];
      match BuildCases(front)
      case Failure(e) => Failure(e)
      case Success(table) =>
        var r := AddCase(table, types[n]);
        assert r.Failure? ==> exists i :: 0 <= i < n && types[i] == types[n] by {
          if r.Failure? {
            var i :| 0 <= i < n && front[i] == types[n];
          }
        }
        r
  }

  /** No type has two cases: the five types have different lengths. */
  lemma CaseTypesDistinct()
    ensures NoDup(CaseTypes()) && |CaseTypes()| == 5
  {
    var ts := CaseTypes();
    assert ts == [ReducerTypes()[0], ReducerTypes()[1], BuilderTypes()[0], BuilderTypes()[1], BuilderTypes()[2]];
    assert |ts[0]| == 12 && |ts[1]| == 15 && |ts[2]| == 17 && |ts[3]| == 19 && |ts[4]| == 21;
  }

  /** The builder's registrations build, one case per type. */
  lemma CaseTableBuilds()
    ensures BuildCases(BuilderTypes()) == Success(BuilderTypes())
  {
    CaseTypesDistinct();
    var b := BuilderTypes();
    assert forall i :: 0 <= i < |b| ==> b[i] == CaseTypes()[i + 2];
  }

  /** Exactly the five registered actions carry a registered type. */
  lemma RegisteredTypes(a: Action)
    ensures a.Type() in CaseTypes() <==> !(a.FetchRejected? || a.Other?)
  {
    var ts := CaseTypes();
    assert ts == [ReducerTypes()[0], ReducerTypes()[1], BuilderTypes()[0], BuilderTypes()[1], BuilderTypes()[2]];
    if a.FetchRejected? {
      assert |RejectedType()| == 20;
      assert |ts[0]| == 12 && |ts[1]| == 15 && |ts[2]| == 17 && |ts[3]| == 19 && |ts[4]| == 21;
    }
  }

  // ---------------------------------------------------------------------------
  // The reducer

  /** `books/fetch/fulfilled` applies only to the request still awaited. */
  predicate Awaits(s: BooksState, requestId: RequestId) {
    s.loading == Pending && s.lastRequestId == Some(requestId)
  }

  /** The next state for one action. */
  function Reduce(s: BooksState, a: Action): (r: BooksState)
    requires WellFormed(s)
    ensures WellFormed(r)
    ensures a.Type() !in CaseTypes() ==> r == s
  {
    RegisteredTypes(a);
    match a
    case AddBook(b) => s.(books := AddOne(s.books, b))
    case RemoveBook(id) => s.(books := RemoveOne(s.books, id))
    case UpsertBook(b) => s.(books := UpsertOne(s.books, b))
    case FetchPending(requestId) => s.(loading := Pending, lastRequestId := Some(requestId))
    case FetchFulfilled(requestId, payload) =>
      if Awaits(s, requestId) then BooksState(SetAll(payload), Finished, None) else s
    case FetchRejected(_) => s
    case Other(_) => s
  }

  /** `store.dispatch` of each action in turn. */
  function Run(s: BooksState, actions: seq<Action>): (r: BooksState)
    requires WellFormed(s)
    ensures WellFormed(r)
    decreases |actions|
  {
    if actions == [] then s else Run(Reduce(s, actions[0]), actions[1..])
  }

  // ---------------------------------------------------------------------------
  // The case reducers on the mutable draft

  /** The draft a case reducer receives: a copy of the state whose fields it
      may assign. */
  class Draft {
    var ids: seq<Id>
    var entities: map<Id, Book>
    var loading: Loading
    var lastRequestId: Option<RequestId>

    constructor (s: BooksState)
      ensures Current() == s
    {
      ids, entities := s.books.ids, s.books.entities;
      loading, lastRequestId := s.loading, s.lastRequestId;
    }

    /** The state the draft's edits amount to. */
    function Current(): BooksState
      reads this
    {
      BooksState(Collection(ids, entities), loading, lastRequestId)
    }

    /** `books/fetch/pending`: assigns two fields and returns nothing. */
    method PendingCase(requestId: RequestId)
      modifies this
      ensures Current() == old(Current()).(loading := Pending, lastRequestId := Some(requestId))
      ensures ids == old(ids) && entities == old(entities)
    {
      loading := Pending;
      lastRequestId := Some(requestId);
    }

    /** `books/fetch/fulfilled`: returns the loaded state when the draft
        awaits this request, otherwise returns nothing and edits nothing. */
    method FulfilledCase(requestId: RequestId, payload: seq<Book>) returns (result: Option<BooksState>)
      ensures result.Some? <==> Awaits(Current(), requestId)
      ensures result.Some? ==> result.value == BooksState(SetAll(payload), Finished, None)
    {
      if loading == Pending && lastRequestId == Some(requestId) {
        result := Some(BooksState(SetAll(payload), Finished, None));
      } else {
        result := None;
      }
    }
  }

  /** The reducer `createSlice` builds: the case for the action's exact type
      runs on a fresh draft; a value it returns is the next state, otherwise
      the draft's edits are. */
  method Dispatch(s: BooksState, a: Action) returns (next: BooksState)
    requires WellFormed(s)
    ensures next == Reduce(s, a)
  {
    var draft := new Draft(s);
    var result: Option<BooksState> := None;
    match a {
      case AddBook(b) =>
        result := Some(draft.Current().(books := AddOne(draft.Current().books, b)));
      case RemoveBook(id) =>
        result := Some(draft.Current().(books := RemoveOne(draft.Current().books, id)));
      case UpsertBook(b) =>
        result := Some(draft.Current().(books := UpsertOne(draft.Current().books, b)));
      case FetchPending(requestId) =>
        draft.PendingCase(requestId);
      case FetchFulfilled(requestId, payload) =>
        result := draft.FulfilledCase(requestId, payload);
      case FetchRejected(_) =>
      case Other(_) =>
    }
    next := if result.Some? then result.value else draft.Current();
  }

  // ---------------------------------------------------------------------------
  // Properties of the slice

  /** `pending` remembers the request and leaves the books alone. */
  lemma PendingRecordsRequest(s: BooksState, requestId: RequestId)
    requires WellFormed(s)
    ensures Reduce(s, FetchPending(requestId)).books == s.books
    ensures Reduce(s, FetchPending(requestId)).loading == Pending
    ensures Reduce(s, FetchPending(requestId)).lastRequestId == Some(requestId)
  {
  }

  /** A `fulfilled` for a request the state does not await changes nothing. */
  lemma StaleFulfilledIgnored(s: BooksState, requestId: RequestId, payload: seq<Book>)
    requires WellFormed(s) && !Awaits(s, requestId)
    ensures Reduce(s, FetchFulfilled(requestId, payload)) == s
  {
  }

  /** An awaited `fulfilled` replaces the books by the payload, deduplicated
      by id and sorted stably by title, and finishes the request. */
  lemma FulfilledLoads(s: BooksState, requestId: RequestId, payload: seq<Book>)
    requires WellFormed(s) && Awaits(s, requestId)
    ensures var r := Reduce(s, FetchFulfilled(requestId, payload));
      && r.loading == Finished && r.lastRequestId == None
      && r.books.entities == Load(payload)
      && (forall x :: x in r.books.ids <==> x in IdsOf(payload))
      && NoDup(r.books.ids) && SortedByTitle(r.books.ids, r.books.entities)
      && r.books.ids == SortIds(Dedup(IdsOf(payload)), Load(payload))
  {
    var r := Reduce(s, FetchFulfilled(requestId, payload));
    var es := Load(payload);
    var pre := Dedup(IdsOf(payload));
    assert Resolved(pre, es);
    forall t ensures WithTitle(r.books.ids, es, t) == WithTitle(SortIds(pre, es), es, t) {
      SortIdsStable(pre, es, t);
    }
    SortedUnique(r.books.ids, SortIds(pre, es), es);
  }

  /** `removeOne` drops the id from both ids and entities. */
  lemma RemoveBookDeletes(s: BooksState, id: Id)
    requires WellFormed(s)
    ensures var r := Reduce(s, RemoveBook(id));
      && r.books.entities == s.books.entities - {id}
      && (forall x :: x in r.books.ids <==> x in s.books.ids && x != id)
      && r.loading == s.loading && r.lastRequestId == s.lastRequestId
  {
  }

  /** No case is registered for `rejected`: it leaves the state as it is. */
  lemma RejectedIgnored(s: BooksState, requestId: RequestId)
    requires WellFormed(s)
    ensures Reduce(s, FetchRejected(requestId)) == s
  {
  }

  /** A state the slice can reach: the collection invariant holds, and a
      request id is remembered exactly while a fetch is pending. */
  predicate Consistent(s: BooksState) {
    WellFormed(s) && (s.lastRequestId.Some? <==> s.loading == Pending)
  }

  lemma ReduceConsistent(s: BooksState, a: Action)
    requires Consistent(s)
    ensures Consistent(Reduce(s, a))
  {
  }

  lemma {:induction false} RunConsistent(s: BooksState, actions: seq<Action>)
    requires Consistent(s)
    ensures Consistent(Run(s, actions))
    decreases |actions|
  {
    if actions != [] {
      ReduceConsistent(s, actions[0]);
      RunConsistent(Reduce(s, actions[0]), actions[1..]);
    }
  }

  /** Every state reached from the initial one by any dispatch sequence keeps
      the collection invariant and remembers a request only while pending. */
  lemma ReachableConsistent(actions: seq<Action>)
    ensures Consistent(Run(InitialState(), actions))
  {
    RunConsistent(InitialState(), actions);
  }

  /** Of two overlapping fetches, only the later one's result is kept, and a
      repeated `fulfilled` is ignored once the fetch has finished. */
  lemma {:induction false} LatestFetchWins(s: BooksState, r1: RequestId, r2: RequestId,
                                           p1: seq<Book>, p2: seq<Book>)
    requires WellFormed(s) && r1 != r2
    ensures Run(s, [FetchPending(r1), FetchPending(r2), FetchFulfilled(r1, p1), FetchFulfilled(r2, p2)])
            == BooksState(SetAll(p2), Finished, None)
    ensures Run(s, [FetchPending(r1), FetchFulfilled(r1, p1), FetchFulfilled(r1, p2)])
            == BooksState(SetAll(p1), Finished, None)
  {
    var s1 := Reduce(s, FetchPending(r1));
    var s2 := Reduce(s1, FetchPending(r2));
    var s3 := Reduce(s2, FetchFulfilled(r1, p1));
    assert s3 == s2;
    var s4 := Reduce(s3, FetchFulfilled(r2, p2));
    assert Run(s4, []) == s4;
    assert Run(s, [FetchPending(r1), FetchPending(r2), FetchFulfilled(r1, p1), FetchFulfilled(r2, p2)])
        == Run(s1, [FetchPending(r2), FetchFulfilled(r1, p1), FetchFulfilled(r2, p2)])
        == Run(s2, [FetchFulfilled(r1, p1), FetchFulfilled(r2, p2)])
        == Run(s3, [FetchFulfilled(r2, p2)]);
    var t2 := Reduce(s1, FetchFulfilled(r1, p1));
    var t3 := Reduce(t2, FetchFulfilled(r1, p2));
    assert t3 == t2;
    assert Run(t3, []) == t3;
    assert Run(s, [FetchPending(r1), FetchFulfilled(r1, p1), FetchFulfilled(r1, p2)])
        == Run(s1, [FetchFulfilled(r1, p1), FetchFulfilled(r1, p2)])
        == Run(t2, [FetchFulfilled(r1, p2)]);
  }

  // ---------------------------------------------------------------------------
  // Steps of a dispatch, for concrete sequences

  lemma RunTwo(s: BooksState, a1: Action, a2: Action)
    requires WellFormed(s)
    ensures Run(s, [a1, a2]) == Reduce(Reduce(s, a1), a2)
  {
    var s1 := Reduce(s, a1);
    assert [a1, a2][1..] == [a2];
    assert Run(s, [a1, a2]) == Run(s1, [a2]);
    assert [a2][1..] == [];
    assert Run(s1, [a2]) == Run(Reduce(s1, a2), []);
  }

  /** A fetch whose response arrives while it is still awaited loads the
      payload and finishes, whatever the state before. */
  lemma FetchRoundTrip(s: BooksState, requestId: RequestId, payload: seq<Book>)
    requires WellFormed(s)
    ensures Run(s, [FetchPending(requestId), FetchFulfilled(requestId, payload)])
            == BooksState(SetAll(payload), Finished, None)
  {
    RunTwo(s, FetchPending(requestId), FetchFulfilled(requestId, payload));
  }

  /** Adding a new book stores it and leaves its id where the sort puts it. */
  lemma ReduceAddNew(s: BooksState, b: Book, sorted: seq<Id>)
    requires WellFormed(s) && b.id !in s.books.entities
    requires SortIds(s.books.ids + [b.id], s.books.entities[b.id := b]) == sorted
    ensures Reduce(s, AddBook(b)) == s.(books := Collection(sorted, s.books.entities[b.id := b]))
  {
  }

  /** Upserting an existing book replaces it and re-sorts the ids. */
  lemma ReduceUpsertExisting(s: BooksState, b: Book, sorted: seq<Id>)
    requires WellFormed(s) && b.id in s.books.entities
    requires SortIds(s.books.ids, s.books.entities[b.id := b]) == sorted
    ensures Reduce(s, UpsertBook(b)) == s.(books := Collection(sorted, s.books.entities[b.id := b]))
  {
  }

  lemma SortSingle(x: Id, es: map<Id, Book>)
    requires x in es
    ensures SortIds([x], es) == [x]
  {
    assert [x][1..] == [];
  }

  lemma SortPairCons(x: Id, y: Id, es: map<Id, Book>)
    requires x in es && y in es
    ensures SortIds([x, y], es) == Insert(x, SortIds([y], es), es)
  {
    assert [x, y][1..] == [y];
  }

  /** Sorting two ids whose titles are out of order swaps them. */
  lemma SortSwapsPair(x: Id, y: Id, es: map<Id, Book>)
    requires x in es && y in es && !LessEq(es[x].title, es[y].title)
    ensures SortIds([x, y], es) == [y, x]
  {
    SortSingle(y, es);
    SortPairCons(x, y, es);
    InsertPast(x, [y], es);
    assert [y][1..] == [];
    InsertHere(x, [], es);
  }

  lemma SortTripleCons(x: Id, y: Id, z: Id, es: map<Id, Book>)
    requires x in es && y in es && z in es
    ensures SortIds([x, y, z], es) == Insert(x, SortIds([y, z], es), es)
  {
    assert [x, y, z][1..] == [y, z];
  }

  lemma InsertBeforePair(x: Id, y: Id, z: Id, es: map<Id, Book>)
    requires x in es && y in es && z in es
    requires LessEq(es[x].title, es[y].title)
    ensures Insert(x, [y, z], es) == [x, y, z]
  {
    InsertHere(x, [y, z], es);
    assert [x] + [y, z] == [x, y, z];
  }

  /** Sorting three ids whose last two titles are out of order and whose
      first title sorts no later than the third. */
  lemma SortTriple(x: Id, y: Id, z: Id, es: map<Id, Book>)
    requires x in es && y in es && z in es
    requires LessEq(es[x].title, es[z].title) && !LessEq(es[y].title, es[z].title)
    ensures SortIds([x, y, z], es) == [x, z, y]
  {
    SortTripleCons(x, y, z, es);
    SortSwapsPair(y, z, es);
    InsertBeforePair(x, z, y, es);
  }

  /** `setAll` of two books with distinct ids whose titles are out of order. */
  lemma SetAllSwapsPair(b1: Book, b2: Book)
    requires b1.id != b2.id && !LessEq(b1.title, b2.title)
    ensures SetAll([b1, b2]) == Collection([b2.id, b1.id], map[b1.id := b1, b2.id := b2])
  {
    var books := [b1, b2];
    assert IdsOf(books) == [b1.id, b2.id];
    assert RemoveId([b2.id], b1.id) == [b2.id];
    assert Dedup([b2.id]) == [b2.id];
    assert Dedup([b1.id, b2.id]) == [b1.id, b2.id];
    assert books[..1] == [b1];
    assert Load([b1]) == map[b1.id := b1];
    assert Load(books) == map[b1.id := b1, b2.id := b2];
    SortSwapsPair(b1.id, b2.id, map[b1.id := b1, b2.id := b2]);
  }

  // ---------------------------------------------------------------------------
  // The dispatch sequence of the combined test

  function FakeBooks(): seq<Book> {
    [Book("b", "Second"), Book("a", "First")]
  }

  function LoadedEntities(): map<Id, Book> {
    map["a" := Book("a", "First"), "b" := Book("b", "Second")]
  }

  function Loaded(): BooksState {
    BooksState(Collection(["a", "b"], LoadedEntities()), Finished, None)
  }

  function WithMiddle(): map<Id, Book> {
    LoadedEntities()["c" := Book("c", "Middle")]
  }

  function WithZeroth(): map<Id, Book> {
    WithMiddle()["c" := Book("c", "Zeroth")]
  }

  lemma LoadedEntitiesEither()
    ensures map["b" := Book("b", "Second"), "a" := Book("a", "First")] == LoadedEntities()
  {
  }

  /** `setAll` of the two fake books sorts "First" before "Second". */
  lemma SetAllFakeBooks()
    ensures SetAll(FakeBooks()) == Collection(["a", "b"], map["b" := Book("b", "Second"), "a" := Book("a", "First")])
  {
    assert !LessEq("Second", "First");
    SetAllSwapsPair(Book("b", "Second"), Book("a", "First"));
  }

  /** Fetching the two fake books loads them sorted and finishes the request. */
  lemma FetchLoadsSorted(requestId: RequestId)
    ensures Run(InitialState(), [FetchPending(requestId), FetchFulfilled(requestId, FakeBooks())]) == Loaded()
  {
    FetchRoundTrip(InitialState(), requestId, FakeBooks());
    SetAllFakeBooks();
    LoadedEntitiesEither();
  }

  lemma LoadedWellFormed()
    ensures WellFormed(Loaded())
  {
    assert LessEq("First", "Second");
  }

  lemma MiddleSorted()
    ensures SortIds(["a", "b", "c"], WithMiddle()) == ["a", "c", "b"]
  {
    var es := WithMiddle();
    assert es["b"].title == "Second" && es["c"].title == "Middle" && es["a"].title == "First";
    assert !LessEq("Second", "Middle") && LessEq("First", "Middle");
    SortTriple("a", "b", "c", es);
  }

  lemma ZerothSorted()
    ensures SortIds(["a", "c", "b"], WithZeroth()) == ["a", "b", "c"]
  {
    var es := WithZeroth();
    assert es["b"].title == "Second" && es["c"].title == "Zeroth" && es["a"].title == "First";
    assert !LessEq("Zeroth", "Second") && LessEq("First", "Second");
    SortTriple("a", "c", "b", es);
  }

  function Added(): BooksState {
    BooksState(Collection(["a", "c", "b"], WithMiddle()), Finished, None)
  }

  /** `addOne({id: 'c', title: 'Middle'})` goes between "First" and "Second". */
  lemma AddMiddleGoesBetween()
    ensures WellFormed(Loaded())
    ensures Reduce(Loaded(), AddBook(Book("c", "Middle"))) == Added()
  {
    LoadedWellFormed();
    assert ["a", "b"] + ["c"] == ["a", "b", "c"];
    MiddleSorted();
    ReduceAddNew(Loaded(), Book("c", "Middle"), ["a", "c", "b"]);
  }

  /** Upserting `{id: 'c', title: 'Zeroth'}` replaces the record and moves
      "c" to the end, without duplicating it. */
  lemma UpsertZerothGoesLast()
    ensures WellFormed(Added())
    ensures Reduce(Added(), UpsertBook(Book("c", "Zeroth")))
            == BooksState(Collection(["a", "b", "c"], WithZeroth()), Finished, None)
  {
    AddMiddleGoesBetween();
    ZerothSorted();
    ReduceUpsertExisting(Added(), Book("c", "Zeroth"), ["a", "b", "c"]);
  }

  /** The whole dispatch sequence of the combined test. */
  lemma CombinedScenario(requestId: RequestId)
    ensures var loaded := Run(InitialState(), [FetchPending(requestId), FetchFulfilled(requestId, FakeBooks())]);
      && loaded.books.ids == ["a", "b"] && loaded.loading == Finished && loaded.lastRequestId == None
      && var added := Reduce(loaded, AddBook(Book("c", "Middle")));
      && added.books.ids == ["a", "c", "b"]
      && var upserted := Reduce(added, UpsertBook(Book("c", "Zeroth")));
      && upserted.books.ids == ["a", "b", "c"]
      && upserted.books.entities["c"] == Book("c", "Zeroth")
  {
    FetchLoadsSorted(requestId);
    AddMiddleGoesBetween();
    UpsertZerothGoesLast();
  }
}
