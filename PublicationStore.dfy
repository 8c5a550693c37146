/** The publication catalog: publications keyed by ISBN. */
module PublicationStores {
  import opened Errors
  import opened Entities
  import opened Text
  import opened Collections

  /** `GetByAuthorAsync`'s filter.  A null author selects the publications
      whose author list is unset; a name selects those whose (non-empty)
      author list contains it. */
  predicate AuthorMatches(p: Publication, author: Option<string>)
  {
    match author
    case None => p.authors.None?
    case Some(a) => p.authors.Some? && |p.authors.value| > 0 && a in p.authors.value
  }

  /** `GetByGenreAsync`'s filter.  A null genre selects the publications with
      no genres, the list being unset or empty; a genre selects those whose
      list contains it. */
  predicate GenreMatches(p: Publication, genre: Option<Genre>)
  {
    match genre
    case None => p.genres.None? || |p.genres.value| == 0
    case Some(g) => p.genres.Some? && |p.genres.value| > 0 && g in p.genres.value
  }

  /** `GetByTitleAsync`'s filter.  A null title selects the untitled
      publications; a title selects those whose trimmed title equals it
      ignoring case (the query itself is not trimmed). */
  predicate TitleMatches(p: Publication, title: Option<string>)
  {
    match title
    case None => p.title.None?
    case Some(t) => p.title.Some? && Fold(Trim(p.title.value)) == Fold(t)
  }

  class PublicationStore {
    var store: map<string, Publication>

    /** Every publication is filed under its own ISBN. */
    ghost predicate Valid()
      reads this
    {
      forall isbn :: isbn in store ==> store[isbn].isbn == isbn
    }

    constructor ()
      ensures Valid() && store == map[]
    {
      store := map[];
    }

    method Delete(isbn: string) returns (o: Outcome)
      requires Valid()
      modifies this
      ensures Valid()
      ensures old(store) == map[] ==> o == Failure(StoreIsEmpty(Publications))
      ensures old(store) != map[] && isbn !in old(store) ==> o == Failure(IsbnNotFound)
      ensures o.Success? <==> isbn in old(store)
      ensures store == if o.Success? then old(store) - {isbn} else old(store)
    {
      if |store| == 0 {
        return Failure(StoreIsEmpty(Publications));
      }
      if isbn !in store {
        return Failure(IsbnNotFound);
      }
      store := store - {isbn};
      o := Success;
    }

    /** Returns a copy of the stored publication. */
    method Get(isbn: string) returns (r: Result<Publication>)
      ensures store == map[] ==> r == Err(StoreIsEmpty(Publications))
      ensures store != map[] && isbn !in store ==> r == Err(IsbnNotFound)
      ensures r.Ok? <==> isbn in store
      ensures r.Ok? ==> r.value == store[isbn]
    {
      if |store| == 0 {
        return Err(StoreIsEmpty(Publications));
      }
      if isbn !in store {
        return Err(IsbnNotFound);
      }
      r := Ok(store[isbn]);
    }

    method GetAll() returns (r: Result<seq<Publication>>)
      requires Valid()
      ensures r.Err? <==> store == map[]
      ensures r.Err? ==> r.error == StoreIsEmpty(Publications)
      ensures r.Ok? ==> Distinct(r.value) && forall p :: p in r.value <==> p in store.Values
    {
      if |store| == 0 {
        return Err(StoreIsEmpty(Publications));
      }
      var all := Select(store, (p: Publication) => p.isbn, _ => true);
      r := Ok(all);
    }

    method GetByAuthor(author: Option<string>) returns (r: Result<seq<Publication>>)
      requires Valid()
      ensures store == map[] ==> r == Err(StoreIsEmpty(Publications))
      ensures store != map[] && author.None? ==> r.Ok?
      ensures r.Err? && store != map[] ==>
                r.error == EmptyResult && forall p :: p in store.Values ==> !AuthorMatches(p, author)
      ensures r.Ok? ==> Distinct(r.value)
      ensures r.Ok? ==> forall p :: p in r.value <==> p in store.Values && AuthorMatches(p, author)
      ensures r.Ok? && author.Some? ==> r.value != []
    {
      if |store| == 0 {
        return Err(StoreIsEmpty(Publications));
      }
      var result := Select(store, (p: Publication) => p.isbn, p => AuthorMatches(p, author));
      if author.None? {
        return Ok(result);
      }
      if result == [] {
        return Err(EmptyResult);
      }
      r := Ok(result);
    }

    method GetByGenre(genre: Option<Genre>) returns (r: Result<seq<Publication>>)
      requires Valid()
      ensures r.Err? <==> store == map[]
      ensures r.Err? ==> r.error == StoreIsEmpty(Publications)
      ensures r.Ok? ==> Distinct(r.value)
      ensures r.Ok? ==> forall p :: p in r.value <==> p in store.Values && GenreMatches(p, genre)
    {
      if |store| == 0 {
        return Err(StoreIsEmpty(Publications));
      }
      var result := Select(store, (p: Publication) => p.isbn, p => GenreMatches(p, genre));
      r := Ok(result);
    }

    method GetByTitle(title: Option<string>) returns (r: Result<seq<Publication>>)
      requires Valid()
      ensures r.Err? <==> store == map[]
      ensures r.Err? ==> r.error == StoreIsEmpty(Publications)
      ensures r.Ok? ==> Distinct(r.value)
      ensures r.Ok? ==> forall p :: p in r.value <==> p in store.Values && TitleMatches(p, title)
    {
      if |store| == 0 {
        return Err(StoreIsEmpty(Publications));
      }
      var result := Select(store, (p: Publication) => p.isbn, p => TitleMatches(p, title));
      r := Ok(result);
    }

    method Insert(publication: Publication) returns (o: Outcome)
      requires Valid()
      modifies this
      ensures Valid()
      ensures o.Failure? <==> publication.isbn in old(store)
      ensures o.Failure? ==> o.error == DuplicatedIsbn
      ensures store == if o.Success? then old(store)[publication.isbn := publication] else old(store)
    {
      if publication.isbn in store {
        return Failure(DuplicatedIsbn);
      }
      store := store[publication.isbn := publication];
      o := Success;
    }

    method Contains(isbn: string) returns (b: bool)
      ensures b <==> isbn in store
    {
      b := isbn in store;
    }
  }
}
