/** The set of services one viewer may see. */
module Scope {
  import opened Prelude
  import opened Audiences

  /** `Visible` holds ids sorted and without duplicates. */
  datatype Scope = All | Visible(ids: seq<int>)

  /** `id` put in its place among increasing ids, once. */
  function Insert(ids: seq<int>, id: int): seq<int> {
    if ids == [] || id < ids[0] then [id] + ids
    else if id == ids[0] then ids
    else [ids[0]] + Insert(ids[1..], id)
  }

  function SortedDistinct(ids: seq<int>): seq<int> {
    if ids == [] then [] else Insert(SortedDistinct(ids[1..]), ids[0])
  }

  function VisibleScope(ids: seq<int>): Scope {
    Visible(SortedDistinct(ids))
  }

  predicate SeesService(scope: Scope, id: int) {
    scope.All? || id in scope.ids
  }

  predicate SeesEvent(scope: Scope, services: seq<int>) {
    scope.All? || services == [] || exists id <- services :: SeesService(scope, id)
  }

  /** The scope of a viewer given the ids a query returned for them, as many
      as there are services when nothing is hidden. */
  function Narrowed(ids: seq<int>, total: nat): Scope {
    if |ids| == total then All else VisibleScope(ids)
  }

  /** Inserting keeps the order and adds that id alone. */
  lemma {:induction false} InsertKeepsOrder(ids: seq<int>, id: int)
    requires Increasing(ids)
    ensures Increasing(Insert(ids, id))
    ensures forall x :: x in Insert(ids, id) <==> x == id || x in ids
    decreases ids
  {
    if ids != [] && ids[0] < id {
      var rest := Insert(ids[1..], id);
      InsertKeepsOrder(ids[1..], id);
      assert ids == [ids[0]] + ids[1..];
      forall j | 0 <= j < |rest| ensures ids[0] < rest[j] {
        assert rest[j] in rest;
      }
      FirstThenRest(ids[0], rest);
    }
  }

  lemma FirstThenRest(first: int, rest: seq<int>)
    requires Increasing(rest) && forall j | 0 <= j < |rest| :: first < rest[j]
    ensures Increasing([first] + rest)
  {}

  lemma {:induction false} SortedDistinctHasSame(ids: seq<int>)
    ensures Increasing(SortedDistinct(ids))
    ensures forall x :: x in SortedDistinct(ids) <==> x in ids
  {
    if ids != [] {
      SortedDistinctHasSame(ids[1..]);
      InsertKeepsOrder(SortedDistinct(ids[1..]), ids[0]);
      assert ids == [ids[0]] + ids[1..];
    }
  }

  lemma {:induction false} IncreasingIsCanonical(a: seq<int>, b: seq<int>)
    requires Increasing(a) && Increasing(b) && forall x :: x in a <==> x in b
    ensures a == b
    decreases a
  {
    assert |b| > 0 ==> b[0] in b;
    if a != [] {
      assert a[0] in a;
      assert a[0] in b;
      assert b[0] in a;
      assert a[0] == b[0];
      forall x ensures x in a[1..] <==> x in b[1..] {
        assert x in a[1..] <==> x in a && x != a[0];
        assert x in b[1..] <==> x in b && x != b[0];
      }
      IncreasingIsCanonical(a[1..], b[1..]);
    }
  }

  /** Two lists give the same scope, a key shared by emails that read alike,
      exactly when they hold the same ids, whatever their order. */
  lemma ScopeIsCanonical(a: seq<int>, b: seq<int>)
    ensures VisibleScope(a) == VisibleScope(b) <==> forall x :: x in a <==> x in b
  {
    SortedDistinctHasSame(a);
    SortedDistinctHasSame(b);
    if forall x :: x in a <==> x in b {
      IncreasingIsCanonical(SortedDistinct(a), SortedDistinct(b));
    }
  }

  /** The scope made of a reader's visible ids sees just those services. */
  lemma NarrowedSeesVisible(page: Page, reader: Option<int>, ids: seq<int>, service: int)
    requires multiset(ids) == multiset(VisibleIds(page, reader)) && service in page.services
    ensures SeesService(Narrowed(ids, |page.services|), service) <==> Sees(page, reader, service)
  {
    SortedDistinctHasSame(ids);
    var visible := VisibleIds(page, reader);
    assert service in ids <==> service in multiset(ids);
    assert service in visible <==> service in multiset(visible);
    assert |ids| == |multiset(ids)| == |visible|;
    if |visible| == |page.services| {
      SubsetOfSameSize(visible, page.services.Keys);
    }
  }

  /** And just the events that concern no service or one of those. */
  lemma NarrowedSeesEvents(page: Page, reader: Option<int>, ids: seq<int>, services: seq<int>)
    requires multiset(ids) == multiset(VisibleIds(page, reader)) && forall s <- services :: s in page.services
    ensures SeesEvent(Narrowed(ids, |page.services|), services)
       <==> services == [] || exists s <- services :: Sees(page, reader, s)
  {
    hide Narrowed, Sees;
    var scope := Narrowed(ids, |page.services|);
    forall s <- services ensures SeesService(scope, s) <==> Sees(page, reader, s) {
      NarrowedSeesVisible(page, reader, ids, s);
    }
    if services != [] && scope.All? {
      assert services[0] in services && SeesService(scope, services[0]);
    }
    assert SeesEvent(scope, services) && services != [] ==> exists s <- services :: SeesService(scope, s);
    assert (exists s <- services :: Sees(page, reader, s)) ==> exists s <- services :: SeesService(scope, s);
  }

  /** The scope is that of all services exactly when the reader sees each. */
  lemma NarrowedIsAllExactlyWhen(page: Page, reader: Option<int>, ids: seq<int>)
    requires multiset(ids) == multiset(VisibleIds(page, reader))
    ensures Narrowed(ids, |page.services|) == All <==> forall s <- page.services :: Sees(page, reader, s)
  {
    hide Sees;
    var visible := VisibleIds(page, reader);
    assert |ids| == |multiset(ids)| == |visible|;
    if |visible| == |page.services| {
      SubsetOfSameSize(visible, page.services.Keys);
    }
    if forall s <- page.services :: Sees(page, reader, s) {
      assert visible == page.services.Keys;
    }
  }

  lemma SubsetOfSameSize(small: set<int>, large: set<int>)
    requires small <= large && |small| == |large|
    ensures small == large
  {
    assert |large - small| == 0;
  }
}
