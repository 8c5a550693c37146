/** The patron registry: persons keyed by id code. */
module PersonStores {
  import opened Errors
  import opened Entities

  class PersonStore {
    var store: map<string, Person>

    /** Every person is filed under its own id. */
    ghost predicate Valid()
      reads this
    {
      forall id :: id in store ==> store[id].id == id
    }

    constructor ()
      ensures Valid() && store == map[]
    {
      store := map[];
    }

    method Contains(id: string) returns (b: bool)
      ensures b <==> id in store
    {
      b := id in store;
    }

    /** Empties the registry; never fails, even when already empty. */
    method DeleteAll()
      modifies this
      ensures Valid() && store == map[]
    {
      store := map[];
    }

    /** `GetStoreAsync`: the whole registry, refused when it is empty. */
    method GetStoreChecked() returns (r: Result<map<string, Person>>)
      ensures r.Err? <==> store == map[]
      ensures r.Err? ==> r.error == StoreIsEmpty(Persons)
      ensures r.Ok? ==> r.value == store
    {
      if |store| == 0 {
        return Err(StoreIsEmpty(Persons));
      }
      r := Ok(store);
    }

    method GetById(id: string) returns (r: Result<Person>)
      ensures store == map[] ==> r == Err(StoreIsEmpty(Persons))
      ensures store != map[] && id !in store ==> r == Err(IdCodeNotFound)
      ensures r.Ok? <==> id in store
      ensures r.Ok? ==> r.value == store[id]
    {
      if |store| == 0 {
        return Err(StoreIsEmpty(Persons));
      }
      if id !in store {
        return Err(IdCodeNotFound);
      }
      r := Ok(store[id]);
    }

    /** `GetStore`: the whole registry; never fails. */
    method GetStore() returns (m: map<string, Person>)
      ensures m == store
    {
      m := store;
    }

    method Insert(person: Person) returns (o: Outcome)
      requires Valid()
      modifies this
      ensures Valid()
      ensures o.Failure? <==> person.id in old(store)
      ensures o.Failure? ==> o.error == DuplicatedId
      ensures store == if o.Success? then old(store)[person.id := person] else old(store)
    {
      if person.id in store {
        return Failure(DuplicatedId);
      }
      store := store[person.id := person];
      o := Success;
    }

    method UpdateAddress(id: string, address: Address) returns (o: Outcome)
      requires Valid()
      modifies this
      ensures Valid()
      ensures old(store) == map[] ==> o == Failure(StoreIsEmpty(Persons))
      ensures old(store) != map[] && id !in old(store) ==> o == Failure(IdCodeNotFound)
      ensures o.Success? <==> id in old(store)
      ensures store == if o.Success? then old(store)[id := old(store)[id].(address := Some(address))]
                       else old(store)
    {
      if |store| == 0 {
        return Failure(StoreIsEmpty(Persons));
      }
      if id !in store {
        return Failure(IdCodeNotFound);
      }
      store := store[id := store[id].(address := Some(address))];
      o := Success;
    }
  }
}
