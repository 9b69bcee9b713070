/** The sorted entity adapter the books slice is built on:
    `createEntityAdapter({ selectId: book => book.id,
                           sortComparer: (a, b) => a.title.localeCompare(b.title) })`.
    A collection is normalized storage, an id sequence plus an id-to-record
    map; every operation returns a new collection, and after each one the ids
    are a stable sort of the records by title. */
module EntityAdapter {
  import opened StringOrder

  type Id = string

  /** A BookModel record; `selectId` reads its `id` field. */
  datatype Book = Book(id: Id, title: string)

  /** `{ ids, entities }`: enumeration order plus records keyed by id. */
  datatype Collection = Collection(ids: seq<Id>, entities: map<Id, Book>)

  // ---------------------------------------------------------------------------
  // Invariant of an entity collection

  /** Every id can be looked up. */
  predicate Resolved(ids: seq<Id>, es: map<Id, Book>) {
    forall i :: 0 <= i < |ids| ==> ids[i] in es
  }

  /** Titles are non-decreasing along `ids`. */
  predicate SortedByTitle(ids: seq<Id>, es: map<Id, Book>)
    requires Resolved(ids, es)
  {
    forall i, j :: 0 <= i < j < |ids| ==> LessEq(es[ids[i]].title, es[ids[j]].title)
  }

  predicate NoDup(s: seq<Id>) {
    forall i, j :: 0 <= i < j < |s| ==> s[i] != s[j]
  }

  /** The id set equals the key set, without duplicates, each record is
      stored under its own id, and ids follow title order. */
  predicate Valid(c: Collection) {
    && NoDup(c.ids)
    && Resolved(c.ids, c.entities)
    && (forall id :: id in c.entities ==> id in c.ids && c.entities[id].id == id)
    && SortedByTitle(c.ids, c.entities)
  }

  /** `getInitialState()`: the empty collection. */
  function Empty(): (c: Collection)
    ensures Valid(c) && c.ids == [] && c.entities == map[]
  {
    Collection([], map[])
  }

  // ---------------------------------------------------------------------------
  // Stable sort of ids by title

  /** `[x]` when the record of `x` has title `t`, otherwise `[]`. */
  function Keep(x: Id, es: map<Id, Book>, t: string): seq<Id>
    requires x in es
  {
    if es[x].title == t then [x] else []
  }

  /** The ids of `ids` whose record has title `t`, in order. A sort is
      stable exactly when it keeps each of these subsequences. */
  function WithTitle(ids: seq<Id>, es: map<Id, Book>, t: string): seq<Id>
    requires Resolved(ids, es)
  {
    if ids == [] then [] else Keep(ids[0], es, t) + WithTitle(ids[1..], es, t)
  }

  lemma WithTitleCons(x: Id, s: seq<Id>, es: map<Id, Book>, t: string)
    requires x in es && Resolved(s, es)
    ensures WithTitle([x] + s, es, t) == Keep(x, es, t) + WithTitle(s, es, t)
  {
    assert ([x] + s)[0] == x;
    assert ([x] + s)[1..] == s;
  }

  lemma {:induction false} WithTitleMembers(ids: seq<Id>, es: map<Id, Book>, t: string)
    requires Resolved(ids, es)
    ensures forall x :: x in WithTitle(ids, es, t) ==> x in ids && es[x].title == t
  {
    if ids != [] {
      WithTitleMembers(ids[1..], es, t);
    }
  }

  /** Places `x` before the first id whose title is not smaller. */
  function Insert(x: Id, r: seq<Id>, es: map<Id, Book>): (q: seq<Id>)
    requires x in es && Resolved(r, es)
    ensures Resolved(q, es)
    ensures multiset(q) == multiset(r) + multiset{x}
  {
    if r == [] || LessEq(es[x].title, es[r[0]].title) then [x] + r
    else
      assert r == [r[0]] + r[1..];
      [r[0]] + Insert(x, r[1..], es)
  }

  lemma {:induction false} InsertSorted(x: Id, r: seq<Id>, es: map<Id, Book>)
    requires x in es && Resolved(r, es) && SortedByTitle(r, es)
    ensures SortedByTitle(Insert(x, r, es), es)
  {
    var q := Insert(x, r, es);
    if r == [] {
    } else if LessEq(es[x].title, es[r[0]].title) {
      forall i, j | 0 <= i < j < |q| ensures LessEq(es[q[i]].title, es[q[j]].title) {
        if i == 0 && j > 1 {
          Transitive(es[x].title, es[r[0]].title, es[r[j - 1]].title);
        }
      }
    } else {
      var rest := r[1..];
      InsertSorted(x, rest, es);
      var tail := Insert(x, rest, es);
      assert q == [r[0]] + tail;
      Total(es[x].title, es[r[0]].title);
      forall i, j | 0 <= i < j < |q| ensures LessEq(es[q[i]].title, es[q[j]].title) {
        if i == 0 {
          var y := tail[j - 1];
          assert y in multiset(tail);
          if y != x {
            assert y in multiset(rest);
            var k :| 0 <= k < |rest| && rest[k] == y;
            assert r[k + 1] == y;
          }
        } else {
          assert q[i] == tail[i - 1] && q[j] == tail[j - 1];
        }
      }
    }
  }

  lemma {:induction false} InsertStable(x: Id, r: seq<Id>, es: map<Id, Book>, t: string)
    requires x in es && Resolved(r, es)
    ensures WithTitle(Insert(x, r, es), es, t) == WithTitle([x] + r, es, t)
  {
    if r != [] && !LessEq(es[x].title, es[r[0]].title) {
      var r0, rest := r[0], r[1..];
      var ins := Insert(x, rest, es);
      assert r == [r0] + rest;
      assert Insert(x, r, es) == [r0] + ins;
      InsertStable(x, rest, es, t);
      WithTitleCons(r0, ins, es, t);
      WithTitleCons(x, rest, es, t);
      WithTitleCons(x, r, es, t);
      WithTitleCons(r0, rest, es, t);
      if es[x].title == t {
        Reflexive(t);
        assert Keep(r0, es, t) == [];
      } else {
        assert Keep(x, es, t) == [];
      }
    }
  }

  /** Stable insertion sort of `ids` by the title of their records. */
  function SortIds(ids: seq<Id>, es: map<Id, Book>): (r: seq<Id>)
    requires Resolved(ids, es)
    ensures Resolved(r, es) && SortedByTitle(r, es)
    ensures multiset(r) == multiset(ids)
  {
    if ids == [] then []
    else
      var rest := SortIds(ids[1..], es);
      assert ids == [ids[0]] + ids[1..];
      InsertSorted(ids[0], rest, es);
      Insert(ids[0], rest, es)
  }

  lemma InsertHere(x: Id, r: seq<Id>, es: map<Id, Book>)
    requires x in es && Resolved(r, es)
    requires r == [] || LessEq(es[x].title, es[r[0]].title)
    ensures Insert(x, r, es) == [x] + r
  {
  }

  lemma InsertPast(x: Id, r: seq<Id>, es: map<Id, Book>)
    requires x in es && Resolved(r, es)
    requires r != [] && !LessEq(es[x].title, es[r[0]].title)
    ensures Insert(x, r, es) == [r[0]] + Insert(x, r[1..], es)
  {
  }

  /** The sort keeps the relative order of ids with equal titles. */
  lemma {:induction false} SortIdsStable(ids: seq<Id>, es: map<Id, Book>, t: string)
    requires Resolved(ids, es)
    ensures WithTitle(SortIds(ids, es), es, t) == WithTitle(ids, es, t)
  {
    if ids != [] {
      var rest := ids[1..];
      assert ids == [ids[0]] + rest;
      SortIdsStable(rest, es, t);
      InsertStable(ids[0], SortIds(rest, es), es, t);
      WithTitleCons(ids[0], SortIds(rest, es), es, t);
      WithTitleCons(ids[0], rest, es, t);
    }
  }

  lemma {:induction false} WithTitleOfSorted(s: seq<Id>, es: map<Id, Book>, t: string)
    requires Resolved(s, es) && SortedByTitle(s, es) && s != []
    requires WithTitle(s, es, t) != []
    ensures LessEq(es[s[0]].title, t)
  {
    WithTitleMembers(s, es, t);
    var x := WithTitle(s, es, t)[0];
    assert x in s;
    var k :| 0 <= k < |s| && s[k] == x;
    if k == 0 {
      Reflexive(t);
    }
  }

  lemma WithTitleOfHead(s: seq<Id>, es: map<Id, Book>)
    requires Resolved(s, es) && s != []
    ensures WithTitle(s, es, es[s[0]].title) != []
  {
  }

  /** Uniqueness of a stable sort: two title-sorted sequences that agree on
      the order of every group of equal titles are the same sequence. */
  lemma {:induction false} SortedUnique(a: seq<Id>, b: seq<Id>, es: map<Id, Book>)
    requires Resolved(a, es) && Resolved(b, es)
    requires SortedByTitle(a, es) && SortedByTitle(b, es)
    requires forall t :: WithTitle(a, es, t) == WithTitle(b, es, t)
    ensures a == b
    decreases |a|
  {
    if a == [] && b != [] {
      WithTitleOfHead(b, es);
    } else if a != [] && b == [] {
      WithTitleOfHead(a, es);
    } else if a != [] {
      var ta, tb := es[a[0]].title, es[b[0]].title;
      var a', b' := a[1..], b[1..];
      assert a == [a[0]] + a';
      assert b == [b[0]] + b';
      WithTitleCons(a[0], a', es, tb);
      WithTitleCons(b[0], b', es, tb);
      WithTitleOfSorted(a, es, tb);
      WithTitleCons(a[0], a', es, ta);
      WithTitleCons(b[0], b', es, ta);
      WithTitleOfSorted(b, es, ta);
      Antisymmetric(ta, tb);
      assert WithTitle(a, es, ta) == WithTitle(b, es, ta);
      assert WithTitle(a, es, ta)[0] == a[0] && WithTitle(b, es, ta)[0] == b[0];
      assert a[0] == b[0];
      forall t ensures WithTitle(a', es, t) == WithTitle(b', es, t) {
        WithTitleCons(a[0], a', es, t);
        WithTitleCons(b[0], b', es, t);
        var h := Keep(a[0], es, t);
        var wa, wb := WithTitle(a', es, t), WithTitle(b', es, t);
        assert WithTitle(a, es, t) == h + wa;
        assert WithTitle(b, es, t) == h + wb;
        assert (h + wa)[|h|..] == wa && (h + wb)[|h|..] == wb;
      }
      SortedUnique(a[1..], b[1..], es);
    }
  }

  /** Sorting ids that are already in title order changes nothing. */
  lemma SortIdsOfSorted(ids: seq<Id>, es: map<Id, Book>)
    requires Resolved(ids, es) && SortedByTitle(ids, es)
    ensures SortIds(ids, es) == ids
  {
    forall t ensures WithTitle(SortIds(ids, es), es, t) == WithTitle(ids, es, t) {
      SortIdsStable(ids, es, t);
    }
    SortedUnique(SortIds(ids, es), ids, es);
  }

  lemma NoDupFromMultiset(a: seq<Id>, b: seq<Id>)
    requires multiset(a) == multiset(b) && NoDup(a)
    ensures NoDup(b)
  {
    if !NoDup(b) {
      var i, j :| 0 <= i < j < |b| && b[i] == b[j];
      var x := b[i];
      assert b == b[..j] + [x] + b[j + 1..];
      assert x in b[..j];
      assert multiset(b)[x] >= 2 by {
        calc {
          multiset(b)[x];
          multiset(b[..j])[x] + multiset([x])[x] + multiset(b[j + 1..])[x];
        >= 1 + 1;
        }
      }
      MultiplicityAtMostOne(a, x);
    }
  }

  lemma {:induction false} MultiplicityAtMostOne(a: seq<Id>, x: Id)
    requires NoDup(a)
    ensures multiset(a)[x] <= 1
  {
    if a != [] {
      assert a == [a[0]] + a[1..];
      MultiplicityAtMostOne(a[1..], x);
      if a[0] == x {
        assert x !in a[1..];
      }
    }
  }

  // ---------------------------------------------------------------------------
  // Removing one id from a sequence

  function RemoveId(ids: seq<Id>, x: Id): (r: seq<Id>)
    ensures forall y :: y in r <==> y in ids && y != x
    ensures |r| <= |ids|
  {
    if ids == [] then []
    else (if ids[0] == x then [] else [ids[0]]) + RemoveId(ids[1..], x)
  }

  lemma {:induction false} RemoveIdSorted(ids: seq<Id>, x: Id, es: map<Id, Book>)
    requires Resolved(ids, es) && SortedByTitle(ids, es)
    ensures Resolved(RemoveId(ids, x), es) && SortedByTitle(RemoveId(ids, x), es)
  {
    if ids != [] {
      var rest := ids[1..];
      RemoveIdSorted(rest, x, es);
      var r := RemoveId(ids, x);
      var tail := RemoveId(rest, x);
      if ids[0] != x {
        assert r == [ids[0]] + tail;
        forall i, j | 0 <= i < j < |r| ensures LessEq(es[r[i]].title, es[r[j]].title) {
          if i == 0 {
            assert r[j] in rest;
            var k :| 0 <= k < |rest| && rest[k] == r[j];
            assert ids[k + 1] == r[j];
          } else {
            assert r[i] == tail[i - 1] && r[j] == tail[j - 1];
          }
        }
      }
    }
  }

  lemma {:induction false} RemoveIdNoDup(ids: seq<Id>, x: Id)
    requires NoDup(ids)
    ensures NoDup(RemoveId(ids, x))
  {
    if ids != [] {
      RemoveIdNoDup(ids[1..], x);
      assert ids[0] !in ids[1..];
    }
  }

  lemma {:induction false} RemoveIdWithTitle(ids: seq<Id>, x: Id, es: map<Id, Book>, t: string)
    requires Resolved(ids, es)
    ensures Resolved(RemoveId(ids, x), es)
    ensures WithTitle(RemoveId(ids, x), es, t) == RemoveId(WithTitle(ids, es, t), x)
  {
    if ids != [] {
      var i0, rest := ids[0], ids[1..];
      assert ids == [i0] + rest;
      RemoveIdWithTitle(rest, x, es, t);
      var w := WithTitle(rest, es, t);
      var rr := RemoveId(rest, x);
      var h := Keep(i0, es, t);
      WithTitleCons(i0, rest, es, t);
      assert WithTitle(ids, es, t) == h + w;
      RemoveIdAppend(h, w, x);
      if i0 == x {
        assert RemoveId(ids, x) == rr;
        assert RemoveId(h, x) == [];
      } else {
        assert RemoveId(ids, x) == [i0] + rr;
        WithTitleCons(i0, rr, es, t);
        assert RemoveId(h, x) == h;
      }
    }
  }

  lemma {:induction false} RemoveIdAppend(u: seq<Id>, v: seq<Id>, x: Id)
    ensures RemoveId(u + v, x) == RemoveId(u, x) + RemoveId(v, x)
  {
    if u == [] {
      assert u + v == v;
    } else {
      var h := if u[0] == x then [] else [u[0]];
      RemoveIdAppend(u[1..], v, x);
      assert (u + v)[0] == u[0] && (u + v)[1..] == u[1..] + v;
      assert RemoveId(u + v, x) == h + RemoveId(u[1..] + v, x);
      assert RemoveId(u, x) == h + RemoveId(u[1..], x);
    }
  }

  lemma {:induction false} RemoveIdAbsent(ids: seq<Id>, x: Id)
    requires x !in ids
    ensures RemoveId(ids, x) == ids
  {
    if ids != [] {
      RemoveIdAbsent(ids[1..], x);
      assert ids == [ids[0]] + ids[1..];
    }
  }

  lemma {:induction false} RemoveIdAppended(ids: seq<Id>, x: Id)
    requires x !in ids
    ensures RemoveId(ids + [x], x) == ids
  {
    if ids == [] {
      assert [x][1..] == [];
    } else {
      RemoveIdAppended(ids[1..], x);
      assert (ids + [x])[1..] == ids[1..] + [x];
      assert ids == [ids[0]] + ids[1..];
    }
  }

  /** Re-sorting moves only `x`: whatever the records say, the other ids keep
      their order, provided that order was already by title. */
  lemma ResortMovesOnly(s: seq<Id>, x: Id, es: map<Id, Book>)
    requires Resolved(s, es)
    requires Resolved(RemoveId(s, x), es) && SortedByTitle(RemoveId(s, x), es)
    ensures RemoveId(SortIds(s, es), x) == RemoveId(s, x)
  {
    var sorted := SortIds(s, es);
    RemoveIdSorted(sorted, x, es);
    forall t ensures WithTitle(RemoveId(sorted, x), es, t) == WithTitle(RemoveId(s, x), es, t) {
      RemoveIdWithTitle(sorted, x, es, t);
      RemoveIdWithTitle(s, x, es, t);
      SortIdsStable(s, es, t);
    }
    SortedUnique(RemoveId(sorted, x), RemoveId(s, x), es);
  }

  // ---------------------------------------------------------------------------
  // Deduplication and loading of a payload, for setAll

  /** Position of the first occurrence of `x`. */
  function FirstIndex(s: seq<Id>, x: Id): (k: nat)
    requires x in s
    ensures k < |s| && s[k] == x
  {
    if s[0] == x then 0 else 1 + FirstIndex(s[1..], x)
  }

  lemma {:induction false} RemoveIdKeepsFirstOrder(u: seq<Id>, x: Id, y: Id, z: Id)
    requires y in u && z in u && y != x && z != x
    requires FirstIndex(RemoveId(u, x), y) < FirstIndex(RemoveId(u, x), z)
    ensures FirstIndex(u, y) < FirstIndex(u, z)
  {
    var rest := u[1..];
    if u[0] == x {
      assert RemoveId(u, x) == RemoveId(rest, x);
      RemoveIdKeepsFirstOrder(rest, x, y, z);
    } else {
      var t := RemoveId(rest, x);
      assert RemoveId(u, x) == [u[0]] + t;
      assert ([u[0]] + t)[0] == u[0] && ([u[0]] + t)[1..] == t;
      if y != u[0] && z != u[0] {
        RemoveIdKeepsFirstOrder(rest, x, y, z);
      }
    }
  }

  lemma DedupConsOrder(s: seq<Id>, rest: seq<Id>, d: seq<Id>, r: seq<Id>)
    requires s != [] && rest == RemoveId(s[1..], s[0]) && r == [s[0]] + d
    requires forall k :: 0 <= k < |d| ==> d[k] in rest
    requires forall i, j :: 0 <= i < j < |d| ==> FirstIndex(rest, d[i]) < FirstIndex(rest, d[j])
    ensures forall k :: 0 <= k < |r| ==> r[k] in s
    ensures forall i, j :: 0 <= i < j < |r| ==> FirstIndex(s, r[i]) < FirstIndex(s, r[j])
  {
    forall k | 0 <= k < |r| ensures r[k] in s {
      if k > 0 {
        assert r[k] == d[k - 1] && d[k - 1] in rest;
      }
    }
    forall i, j | 0 <= i < j < |r| ensures FirstIndex(s, r[i]) < FirstIndex(s, r[j]) {
      assert r[j] == d[j - 1];
      if i > 0 {
        assert r[i] == d[i - 1];
        FirstIndexAfterRemove(s, d[i - 1], d[j - 1]);
      } else {
        FirstIndexTail(s, d[j - 1]);
      }
    }
  }

  lemma FirstIndexAfterRemove(s: seq<Id>, y: Id, z: Id)
    requires s != []
    requires y in RemoveId(s[1..], s[0]) && z in RemoveId(s[1..], s[0])
    requires FirstIndex(RemoveId(s[1..], s[0]), y) < FirstIndex(RemoveId(s[1..], s[0]), z)
    ensures y in s && z in s && FirstIndex(s, y) < FirstIndex(s, z)
  {
    FirstIndexTail(s, y);
    FirstIndexTail(s, z);
    RemoveIdKeepsFirstOrder(s[1..], s[0], y, z);
  }

  lemma FirstIndexTail(s: seq<Id>, y: Id)
    requires s != [] && y in s[1..] && y != s[0]
    ensures y in s && FirstIndex(s, y) == 1 + FirstIndex(s[1..], y)
  {
  }

  /** The distinct ids of `s`, each at its first occurrence. */
  function Dedup(s: seq<Id>): (r: seq<Id>)
    ensures NoDup(r)
    ensures forall x :: x in r <==> x in s
    ensures forall i, j :: 0 <= i < j < |r| ==> FirstIndex(s, r[i]) < FirstIndex(s, r[j])
    decreases |s|
  {
    if s == [] then []
    else
      var rest := RemoveId(s[1..], s[0]);
      var d := Dedup(rest);
      var r := [s[0]] + d;
      DedupConsOrder(s, rest, d, r);
      r
  }

  function IdsOf(books: seq<Book>): (r: seq<Id>)
    ensures |r| == |books| && forall i :: 0 <= i < |books| ==> r[i] == books[i].id
  {
    seq(|books|, i requires 0 <= i < |books| => books[i].id)
  }

  /** The record at position `i` is the payload's last one with its id. */
  predicate LastOfItsId(books: seq<Book>, i: int)
    requires 0 <= i < |books|
  {
    forall j :: i < j < |books| ==> books[j].id != books[i].id
  }

  /** The records keyed by id, a later record replacing an earlier one with
      the same id. */
  function Load(books: seq<Book>): (es: map<Id, Book>)
    ensures forall x :: x in es <==> x in IdsOf(books)
    ensures forall x :: x in es ==> es[x].id == x && es[x] in books
    ensures forall i :: 0 <= i < |books| && LastOfItsId(books, i) ==> es[books[i].id] == books[i]
  {
    if books == [] then map[]
    else
      var n := |books| - 1;
      var front := books[..n];
      assert books == front + [books[n]];
      LoadSnoc(front, books[n]);
      Load(front)[books[n].id := books[n]]
  }

  lemma LoadSnoc(front: seq<Book>, b: Book)
    ensures IdsOf(front + [b]) == IdsOf(front) + [b.id]
    ensures forall i :: 0 <= i < |front| && LastOfItsId(front + [b], i) ==> LastOfItsId(front, i)
  {
    assert forall i :: 0 <= i < |front| ==> (front + [b])[i] == front[i];
  }

  /** Sorting a duplicate-free id list that covers exactly the keys of
      `es` gives a valid collection holding the same ids. */
  lemma SortedCollection(pre: seq<Id>, es: map<Id, Book>)
    requires NoDup(pre) && Resolved(pre, es)
    requires forall id :: id in es ==> id in pre && es[id].id == id
    ensures Valid(Collection(SortIds(pre, es), es))
    ensures forall x :: x in SortIds(pre, es) <==> x in pre
  {
    var ids := SortIds(pre, es);
    NoDupFromMultiset(pre, ids);
    assert forall x :: x in ids <==> x in multiset(pre);
  }

  // ---------------------------------------------------------------------------
  // Adapter operations

  /** `addOne`: inserts the book when its id is absent, then re-sorts by
      title; a present id leaves the collection as it is. */
  function AddOne(c: Collection, b: Book): (r: Collection)
    requires Valid(c)
    ensures Valid(r)
    ensures b.id in c.entities ==> r == c
    ensures b.id !in c.entities ==>
              && r.entities == c.entities[b.id := b]
              && (forall x :: x in r.ids <==> x in c.ids || x == b.id)
    ensures b.id !in c.entities ==>
              Resolved(c.ids + [b.id], r.entities) &&
              forall t :: WithTitle(r.ids, r.entities, t) == WithTitle(c.ids + [b.id], r.entities, t)
  {
    if b.id in c.entities then c
    else
      var es := c.entities[b.id := b];
      var pre := c.ids + [b.id];
      assert NoDup(pre);
      SortedCollection(pre, es);
      assert forall t :: WithTitle(SortIds(pre, es), es, t) == WithTitle(pre, es, t) by {
        forall t ensures WithTitle(SortIds(pre, es), es, t) == WithTitle(pre, es, t) {
          SortIdsStable(pre, es, t);
        }
      }
      Collection(SortIds(pre, es), es)
  }

  /** `addOne` of a new id puts it at its title position: taking it out
      again gives back the old ids in their old order. */
  lemma AddOneInsertsInPlace(c: Collection, b: Book)
    requires Valid(c) && b.id !in c.entities
    ensures b.id in AddOne(c, b).ids
    ensures RemoveId(AddOne(c, b).ids, b.id) == c.ids
  {
    var es := c.entities[b.id := b];
    var pre := c.ids + [b.id];
    RemoveIdAppended(c.ids, b.id);
    assert SortedByTitle(c.ids, es);
    ResortMovesOnly(pre, b.id, es);
  }

  /** `upsertOne`: a new id is added as by `addOne`; an existing record is
      replaced by the shallow merge with the incoming one (which, carrying
      every BookModel field, is the incoming record) and the ids re-sorted. */
  function UpsertOne(c: Collection, b: Book): (r: Collection)
    requires Valid(c)
    ensures Valid(r)
    ensures r.entities == c.entities[b.id := b]
    ensures forall x :: x in r.ids <==> x in c.ids || x == b.id
    ensures b.id !in c.entities ==> r == AddOne(c, b)
    ensures b.id in c.entities ==>
              Resolved(c.ids, r.entities) &&
              forall t :: WithTitle(r.ids, r.entities, t) == WithTitle(c.ids, r.entities, t)
  {
    if b.id in c.entities then
      var es := c.entities[b.id := b];
      SortedCollection(c.ids, es);
      assert forall t :: WithTitle(SortIds(c.ids, es), es, t) == WithTitle(c.ids, es, t) by {
        forall t ensures WithTitle(SortIds(c.ids, es), es, t) == WithTitle(c.ids, es, t) {
          SortIdsStable(c.ids, es, t);
        }
      }
      Collection(SortIds(c.ids, es), es)
    else AddOne(c, b)
  }

  /** Upserting an existing id moves only that id; the others keep their order. */
  lemma UpsertMovesOnlyItself(c: Collection, b: Book)
    requires Valid(c) && b.id in c.entities
    ensures RemoveId(UpsertOne(c, b).ids, b.id) == RemoveId(c.ids, b.id)
  {
    var es := c.entities[b.id := b];
    RemoveIdSorted(c.ids, b.id, c.entities);
    var others := RemoveId(c.ids, b.id);
    assert forall i :: 0 <= i < |others| ==> others[i] in c.ids && others[i] != b.id;
    assert Resolved(others, es) && SortedByTitle(others, es);
    ResortMovesOnly(c.ids, b.id, es);
  }

  /** `removeOne`: deletes the record and its id; an unknown id is a no-op. */
  function RemoveOne(c: Collection, id: Id): (r: Collection)
    ensures id !in c.entities ==> r == c
    ensures r.entities == c.entities - {id}
    ensures id in c.entities ==> forall x :: x in r.ids <==> x in c.ids && x != id
    ensures id in c.entities ==> r.ids == RemoveId(c.ids, id)
    ensures Valid(c) ==> Valid(r)
  {
    if id in c.entities then
      var es := c.entities - {id};
      var r := Collection(RemoveId(c.ids, id), es);
      assert Valid(c) ==> Valid(r) by {
        if Valid(c) {
          RemoveIdNoDup(c.ids, id);
          RemoveIdSorted(c.ids, id, c.entities);
          assert Resolved(r.ids, es) && SortedByTitle(r.ids, es);
        }
      }
      r
    else c
  }

  /** Removing keeps title order, so it needs no re-sort. */
  lemma RemoveOneNeedsNoResort(c: Collection, id: Id)
    requires Valid(c)
    ensures SortIds(RemoveOne(c, id).ids, RemoveOne(c, id).entities) == RemoveOne(c, id).ids
  {
    SortIdsOfSorted(RemoveOne(c, id).ids, RemoveOne(c, id).entities);
  }

  /** `setAll`: replaces the whole collection by the payload, deduplicated by
      id (the last record for an id wins), and sorts it by title. */
  function SetAll(books: seq<Book>): (r: Collection)
    ensures Valid(r)
    ensures r.entities == Load(books)
    ensures forall x :: x in r.ids <==> x in IdsOf(books)
    ensures forall t :: WithTitle(r.ids, r.entities, t) == WithTitle(Dedup(IdsOf(books)), r.entities, t)
  {
    var es := Load(books);
    var pre := Dedup(IdsOf(books));
    var ids := SortIds(pre, es);
    SortedCollection(pre, es);
    assert forall t :: WithTitle(ids, es, t) == WithTitle(pre, es, t) by {
      forall t ensures WithTitle(ids, es, t) == WithTitle(pre, es, t) {
        SortIdsStable(pre, es, t);
      }
    }
    Collection(ids, es)
  }
}
