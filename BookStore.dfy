/** The book copy registry: physical copies keyed by code, each an instance
    of a catalogued publication, each on at most one shelf position. */
module BookStores {
  import opened Errors
  import opened Entities
  import opened Collections
  import opened PublicationStores

  /** Every copy is filed under its own code. */
  ghost predicate Keyed(m: map<string, Book>)
  {
    forall code :: code in m ==> m[code].code == code
  }

  /** No two copies share a non-null shelf position. */
  ghost predicate PositionsExclusive(m: map<string, Book>)
  {
    forall c1, c2 :: c1 in m && c2 in m && c1 != c2 && m[c1].position.Some? ==>
      m[c1].position != m[c2].position
  }

  /** With exclusive positions, a listing of the copies at one non-null
      position holds at most one copy. */
  lemma AtMostOneAtPosition(m: map<string, Book>, s: seq<Book>, position: int)
    requires Keyed(m) && PositionsExclusive(m)
    requires Distinct(s)
    requires forall b :: b in s ==> b in m.Values && b.position == Some(position)
    ensures |s| <= 1
  {
    if s != [] {
      forall i | 0 <= i < |s| ensures s[i] == s[0] {
        assert s[i] in s && s[0] in s;
      }
      assert (set x | x in s) == {s[0]};
    }
    DistinctCardinality(s);
  }

  class BookStore {
    const publications: PublicationStore
    var store: map<string, Book>

    ghost predicate Valid()
      reads this
    {
      Keyed(store) && PositionsExclusive(store)
    }

    constructor (publications: PublicationStore)
      ensures Valid() && store == map[] && this.publications == publications
    {
      this.publications := publications;
      store := map[];
    }

    method Contains(code: string) returns (b: bool)
      ensures b <==> code in store
    {
      b := code in store;
    }

    method DeleteAll() returns (o: Outcome)
      requires Valid()
      modifies this
      ensures Valid()
      ensures o.Failure? <==> old(store) == map[]
      ensures o.Failure? ==> o.error == StoreIsEmpty(Books)
      ensures store == map[]
    {
      if |store| == 0 {
        return Failure(StoreIsEmpty(Books));
      }
      store := map[];
      o := Success;
    }

    method DeleteByCode(code: string) returns (o: Outcome)
      requires Valid()
      modifies this
      ensures Valid()
      ensures old(store) == map[] ==> o == Failure(StoreIsEmpty(Books))
      ensures old(store) != map[] && code !in old(store) ==> o == Failure(BookCodeNotFound)
      ensures o.Success? <==> code in old(store)
      ensures store == if o.Success? then old(store) - {code} else old(store)
    {
      if |store| == 0 {
        return Failure(StoreIsEmpty(Books));
      }
      if code !in store {
        return Failure(BookCodeNotFound);
      }
      store := store - {code};
      o := Success;
    }

    method GetAll() returns (r: Result<seq<Book>>)
      requires Valid()
      ensures r.Err? <==> store == map[]
      ensures r.Err? ==> r.error == StoreIsEmpty(Books)
      ensures r.Ok? ==> Distinct(r.value) && forall b :: b in r.value <==> b in store.Values
    {
      if |store| == 0 {
        return Err(StoreIsEmpty(Books));
      }
      var all := Select(store, (b: Book) => b.code, _ => true);
      r := Ok(all);
    }

    method GetByCode(code: string) returns (r: Result<Book>)
      ensures store == map[] ==> r == Err(StoreIsEmpty(Books))
      ensures store != map[] && code !in store ==> r == Err(BookCodeNotFound)
      ensures r.Ok? <==> code in store
      ensures r.Ok? ==> r.value == store[code]
    {
      if |store| == 0 {
        return Err(StoreIsEmpty(Books));
      }
      if code !in store {
        return Err(BookCodeNotFound);
      }
      r := Ok(store[code]);
    }

    /** A null position lists the uncatalogued copies; a non-null one lists
        the copy on it, of which there is at most one. */
    method GetByPosition(position: Option<int>) returns (r: Result<seq<Book>>)
      requires Valid()
      ensures store == map[] ==> r == Err(StoreIsEmpty(Books))
      ensures store != map[] ==>
                (r.Ok? <==> exists code :: code in store && store[code].position == position)
      ensures r.Err? && store != map[] ==> r.error == EmptyResult
      ensures r.Ok? ==> Distinct(r.value)
      ensures r.Ok? ==> forall b :: b in r.value <==> b in store.Values && b.position == position
      ensures r.Ok? && position.Some? ==> |r.value| == 1
    {
      if |store| == 0 {
        return Err(StoreIsEmpty(Books));
      }
      var result := Select(store, (b: Book) => b.code, (b: Book) => b.position == position);
      if result == [] {
        forall code | code in store ensures store[code].position != position {
          assert store[code] in store.Values;
        }
        return Err(EmptyResult);
      }
      if position.Some? {
        AtMostOneAtPosition(store, result, position.value);
      }
      assert result[0] in store.Values;
      r := Ok(result);
    }

    method Insert(book: Book) returns (o: Outcome)
      requires Valid()
      modifies this
      ensures Valid()
      ensures book.isbn !in publications.store ==> o == Failure(NoPublicationCorrespondence)
      ensures book.isbn in publications.store && book.position.Some?
              && (exists code :: code in old(store) && old(store)[code].position == book.position)
              ==> o == Failure(PositionAlreadyOccupied)
      ensures o.Success? <==>
                book.isbn in publications.store
                && (book.position.Some? ==>
                      forall code :: code in old(store) ==> old(store)[code].position != book.position)
                && book.code !in old(store)
      ensures (book.isbn in publications.store
               && (book.position.Some? ==>
                     forall code :: code in old(store) ==> old(store)[code].position != book.position)
               && book.code in old(store))
              ==> o == Failure(InvalidOperation)
      ensures store == if o.Success? then old(store)[book.code := book] else old(store)
    {
      var published := publications.Contains(book.isbn);
      if !published {
        return Failure(NoPublicationCorrespondence);
      }
      if book.position.Some? && exists code | code in store :: store[code].position == book.position {
        return Failure(PositionAlreadyOccupied);
      }
      if book.code in store {
        return Failure(InvalidOperation);
      }
      store := store[book.code := book];
      o := Success;
    }

    /** Moves a copy; the copy may keep, or re-occupy, its own position. */
    method UpdatePosition(book: Book) returns (o: Outcome)
      requires Valid()
      modifies this
      ensures Valid()
      ensures old(store) == map[] ==> o == Failure(StoreIsEmpty(Books))
      ensures old(store) != map[] && book.position.Some?
              && (exists code :: code in old(store) && code != book.code
                                 && old(store)[code].position == book.position)
              ==> o == Failure(PositionAlreadyOccupied)
      ensures o.Success? <==>
                book.code in old(store)
                && (book.position.Some? ==>
                      forall code :: code in old(store) && code != book.code ==>
                        old(store)[code].position != book.position)
      ensures (old(store) != map[]
               && (book.position.Some? ==>
                     forall code :: code in old(store) && code != book.code ==>
                       old(store)[code].position != book.position)
               && book.code !in old(store))
              ==> o == Failure(BookCodeNotFound)
      ensures store == if o.Success? then old(store)[book.code := old(store)[book.code].(position := book.position)]
                       else old(store)
    {
      if |store| == 0 {
        return Failure(StoreIsEmpty(Books));
      }
      if book.position.Some? && exists code | code in store :: store[code].position == book.position && code != book.code {
        return Failure(PositionAlreadyOccupied);
      }
      if book.code !in store {
        return Failure(BookCodeNotFound);
      }
      store := store[book.code := store[book.code].(position := book.position)];
      o := Success;
    }
  }
}
