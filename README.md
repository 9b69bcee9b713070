# The books slice over a sorted entity collection

This project models the `books` slice of the combined entity/async test in
redux-toolkit and proves properties of it in Dafny.

The slice keeps a normalized book collection. It is built by
`createEntityAdapter` with `selectId = book.id` and a comparator on `title`.
Next to the collection it keeps a `loading` status and the `lastRequestId` of
the fetch it is waiting for. Its reducer dispatches on the exact action type:

- `books/addOne` inserts a book when its id is absent.
- `books/removeOne` deletes a book; an unknown id is a no-op. The case
  returns the adapter's result as the next state.
- `otherBooks/upsert` inserts a book, or replaces the stored record by the
  merged one, and re-sorts.
- `books/fetch/pending` assigns `loading := 'pending'` and the request id on
  the draft.
- `books/fetch/fulfilled` applies `setAll` only when the slice is pending and
  the action's request id is the remembered one. It then finishes the request
  and clears the id; otherwise it changes nothing.
- Every other type, `books/fetch/rejected` included, leaves the state as it is.

The model has four modules:

- `StringOrder`: lexicographic order on titles, with the laws of a total
  preorder.
- `Wrappers`: `Option` (for `null`) and `Result` (for case-table errors).
- `EntityAdapter`: the collection `{ids, entities}` and its invariant
  `Valid`. It has a stable insertion sort of ids by title, plus
  `addOne`, `upsertOne`, `removeOne` and `setAll` as functions returning new
  collections.
- `BooksSlice`: the slice state, the action datatype and the case table.
  - `Reduce` is the pure next-state function and `Run` folds it over a
    dispatch sequence.
  - The `Draft` class stands for the draft a case reducer edits in place.
    The `pending` case assigns its fields.
  - `Dispatch` runs a case on a fresh draft. A returned value becomes the
    next state; otherwise the draft's edits do. `Dispatch` is proved equal
    to `Reduce`.
  - Lemmas cover the concrete dispatch sequence of the test.

Stability of the sort is stated with per-title filters. `WithTitle(ids, es, t)`
is the subsequence of `ids` whose records have title `t`. A sort is stable
when it keeps every such subsequence. `SortedUnique` shows that a title-sorted
sequence is determined by these subsequences. That fact is the independent
partner of `SortIds`: it pins down the ids a guarded `fulfilled` loads and
shows that `upsertOne` and `addOne` move only the id they touch. The concrete
id orders of the test follow from unfolding the sort on two and three ids
(`SortSwapsPair`, `SortTriple`, `SetAllSwapsPair`).

## Model

| member | source | states |
|---|---|---|
| StringOrder.LessEq | src/combinedTest.test.ts:15 | the title comparator: `a` sorts no later than `b`, compared character by character with a proper prefix first |
| StringOrder.LessEqIsLexicographic | src/combinedTest.test.ts:15 | `LessEq` holds exactly when `a` is a prefix of `b` or, at the first position where they differ, `a` has the smaller character |
| StringOrder.Reflexive | src/combinedTest.test.ts:15 | every title compares equal to itself |
| StringOrder.Total | src/combinedTest.test.ts:15 | any two titles are ordered one way or the other |
| StringOrder.Antisymmetric | src/combinedTest.test.ts:15 | titles ordered both ways are equal |
| StringOrder.Transitive | src/combinedTest.test.ts:15 | the title order is transitive |
| EntityAdapter.Empty | src/combinedTest.test.ts:27-30 | the adapter's initial collection is empty and satisfies the collection invariant |
| EntityAdapter.Insert | src/combinedTest.test.ts:15 | inserting an id adds exactly that id to the multiset of ids and keeps every id resolvable |
| EntityAdapter.InsertSorted | src/combinedTest.test.ts:15 | inserting into a title-sorted sequence gives a title-sorted sequence |
| EntityAdapter.InsertStable | src/combinedTest.test.ts:15 | insertion keeps, for each title, the order of ids with that title as if the new id came first |
| EntityAdapter.SortIds | src/combinedTest.test.ts:13-16 | the sorted ids are in non-decreasing title order and are a permutation of the input |
| EntityAdapter.SortIdsStable | src/combinedTest.test.ts:15 | the sort keeps the relative order of ids with equal titles |
| EntityAdapter.SortedUnique | src/combinedTest.test.ts:15 | two title-sorted sequences with the same ids per title are equal |
| EntityAdapter.SortIdsOfSorted | src/combinedTest.test.ts:15 | sorting an already sorted sequence changes nothing |
| EntityAdapter.RemoveId | src/combinedTest.test.ts:61 | removing an id keeps exactly the other ids |
| EntityAdapter.RemoveIdSorted | src/combinedTest.test.ts:61 | removing an id from a title-sorted sequence keeps it sorted |
| EntityAdapter.RemoveIdNoDup | src/combinedTest.test.ts:61 | removing an id keeps a duplicate-free sequence duplicate-free |
| EntityAdapter.ResortMovesOnly | src/combinedTest.test.ts:67 | re-sorting after one record changes moves only that record's id; the others keep their order |
| EntityAdapter.Dedup | src/combinedTest.test.ts:79 | the payload ids without duplicates, same id set, each id at the position of its first occurrence |
| EntityAdapter.Load | src/combinedTest.test.ts:79 | the payload keyed by id: keys are the payload ids, each record is stored under its id, and the last record for an id wins |
| EntityAdapter.SortedCollection | src/combinedTest.test.ts:13-16 | sorting a duplicate-free list of exactly the stored ids gives a valid collection with the same ids |
| EntityAdapter.AddOne | src/combinedTest.test.ts:55 | a present id leaves the collection unchanged; otherwise the book is stored, its id added, the invariant holds, and among equal titles the ids keep their order with the new id last |
| EntityAdapter.AddOneInsertsInPlace | src/combinedTest.test.ts:55 | taking the new id out of the result gives back the old ids in their old order |
| EntityAdapter.UpsertOne | src/combinedTest.test.ts:66-68 | the record under the book's id becomes the book, the id set gains it if new, and the invariant holds; a new id is added as by `addOne`, and for an existing id the ids with equal titles keep their old order |
| EntityAdapter.UpsertMovesOnlyItself | src/combinedTest.test.ts:66-68 | upserting an existing id moves only that id; all other ids keep their order |
| EntityAdapter.RemoveOne | src/combinedTest.test.ts:56-63 | an unknown id is a no-op; otherwise the record is removed and the ids are the old ids with that one filtered out, in their old order; the invariant is kept |
| EntityAdapter.RemoveOneNeedsNoResort | src/combinedTest.test.ts:61 | the ids after a removal are already in title order |
| EntityAdapter.SetAll | src/combinedTest.test.ts:78-79 | the result is valid, its records are the payload loaded by id, its ids are the payload ids, and per title they follow the deduplicated payload order |
| BooksSlice.InitialState | src/combinedTest.test.ts:27-30 | empty collection, `loading` initial, `lastRequestId` null |
| BooksSlice.AddCase | src/combinedTest.test.ts:66 | registering a type already in the table fails with that type; otherwise the table grows by it |
| BooksSlice.BuildCases | src/combinedTest.test.ts:65-85 | registration succeeds exactly when no type repeats, and a failure names a repeated type |
| BooksSlice.CaseTypesDistinct | src/combinedTest.test.ts:51-86 | the five handled types (two slice reducers, three builder cases) are pairwise distinct, so each type has one case |
| BooksSlice.CaseTableBuilds | src/combinedTest.test.ts:65-85 | the three `builder.addCase` registrations build without a duplicate |
| BooksSlice.RegisteredTypes | src/combinedTest.test.ts:51-86 | an action has a registered type exactly when it is not `rejected` and not a foreign type |
| BooksSlice.Reduce | src/combinedTest.test.ts:51-86 | the next state keeps the collection invariant, and an action with no registered case returns the state unchanged |
| BooksSlice.Run | src/combinedTest.test.ts:91-97 | folding the reducer over any dispatch sequence keeps the collection invariant |
| BooksSlice.Draft.constructor | src/combinedTest.test.ts:69 | the draft starts as the current state |
| BooksSlice.Draft.PendingCase | src/combinedTest.test.ts:69-72 | the draft's `loading` becomes pending and `lastRequestId` the request id; ids and entities are untouched |
| BooksSlice.Draft.FulfilledCase | src/combinedTest.test.ts:73-84 | returns a value exactly when the draft awaits this request id, and that value is the loaded, finished state |
| BooksSlice.Dispatch | src/combinedTest.test.ts:51-86 | running the case on a fresh draft, where a returned value overrides the draft, gives exactly `Reduce` |
| BooksSlice.PendingRecordsRequest | src/combinedTest.test.ts:69-72 | `pending` sets `loading` and `lastRequestId` and leaves the books unchanged |
| BooksSlice.StaleFulfilledIgnored | src/combinedTest.test.ts:73-84 | a `fulfilled` for a request not awaited changes nothing |
| BooksSlice.FulfilledLoads | src/combinedTest.test.ts:78-82 | an awaited `fulfilled` finishes and clears the request; the records are the payload by id and the ids are the deduplicated payload ids sorted by title |
| BooksSlice.RemoveBookDeletes | src/combinedTest.test.ts:56-63 | `removeOne` drops the id from ids and entities and keeps `loading` and `lastRequestId` |
| BooksSlice.RejectedIgnored | src/combinedTest.test.ts:65-85 | with no case registered, `rejected` leaves the state unchanged |
| BooksSlice.ReduceConsistent | src/combinedTest.test.ts:69-82 | one action keeps the invariant and keeps a request id remembered exactly while pending |
| BooksSlice.RunConsistent | src/combinedTest.test.ts:69-82 | any dispatch sequence keeps that invariant |
| BooksSlice.ReachableConsistent | src/combinedTest.test.ts:27-30 | every state reachable from the initial state is valid and remembers a request only while pending |
| BooksSlice.LatestFetchWins | src/combinedTest.test.ts:73-77 | of two overlapping fetches only the later result is kept, and a repeated `fulfilled` after finishing is ignored |
| BooksSlice.FetchRoundTrip | src/combinedTest.test.ts:97 | `pending(r)` then `fulfilled(r, p)` from any state loads `p` and finishes |
| BooksSlice.SortSwapsPair | src/combinedTest.test.ts:15 | two ids whose titles are out of order are swapped by the sort |
| BooksSlice.SortTriple | src/combinedTest.test.ts:15 | the sort of three ids whose last two are out of order, and whose first sorts before the third |
| BooksSlice.SetAllSwapsPair | src/combinedTest.test.ts:78-79 | `setAll` of two distinct books with out-of-order titles stores both and lists them swapped |
| BooksSlice.SetAllFakeBooks | src/combinedTest.test.ts:32-35 | `setAll` of the fake books gives ids `a, b` |
| BooksSlice.FetchLoadsSorted | src/combinedTest.test.ts:97-103 | fetching the fake books from the initial state gives ids `a, b`, `loading` finished and `lastRequestId` null |
| BooksSlice.AddMiddleGoesBetween | src/combinedTest.test.ts:105-110 | adding `{c, 'Middle'}` gives ids `a, c, b` |
| BooksSlice.UpsertZerothGoesLast | src/combinedTest.test.ts:112-117 | upserting `{c, 'Zeroth'}` replaces the record and gives ids `a, b, c` with no duplicate |
| BooksSlice.CombinedScenario | src/combinedTest.test.ts:97-117 | the whole dispatch sequence of the test yields the expected states |

## Left out

- The adapter's own source is not part of this model. The contracts of
  `addOne`, `upsertOne`, `removeOne` and `setAll` follow the adapter's
  documented behaviour for a sorted adapter.
- `configureStore`, `store.dispatch` and `getState` are modelled only as
  the left fold `Run` of the reducer.
- The async machinery of `createAsyncThunk` is not modelled: promises, the
  payload creator, `extra`, `getState` and the abort `signal`. A fetch is an
  explicit `pending(r)` followed by `fulfilled(r, payload)`.
- Request-id minting is random, so request ids are opaque strings supplied
  by the caller.
- Immer's structural sharing and the nested-`produce` caveat are not
  modelled. The draft is a fresh object copied from the state.
- `localeCompare` is locale-sensitive. The model uses plain lexicographic
  order, which agrees on the ASCII titles of the test.
- EntityAdapter.UpsertOne: when an existing record is updated, its id keeps
  its place before the stable re-sort, so among equal titles it stays where
  it was. Only the order among equal titles depends on this choice.
- EntityAdapter.UpsertOne: the shallow merge of the stored record with the
  incoming one is the incoming record, because a `BookModel` has exactly the
  two fields `id` and `title`.
- EntityAdapter.RemoveOne: the ids are filtered rather than re-sorted.
  `RemoveOneNeedsNoResort` proves the two agree.
- The slice's own `reducers` cases are not passed through the builder's
  duplicate check: their types come from the keys of one object, so they
  cannot repeat. `BuildCases` checks only the three `addCase` types, and
  `CaseTypesDistinct` shows the slice and builder types do not collide.
- The `'failed'` loading value is declared but never set: no case handles
  `rejected`.
- Adapter operations the slice does not call are not modelled: `addMany`,
  `updateOne`, `upsertMany`, `removeMany`, `removeAll` and the selectors.
- TypeScript typing, `createAction` beyond its type string, and the Jest
  harness are not modelled.
