/** The three stores that refer to one another: the card registry, the
    card-person links of registered users, and the reservation ledger.  A card
    cannot be deleted while the ledger or the user registry holds it; a user
    link needs a known card and person; a reservation needs a shelved book, an
    unblocked linked card and a free book code. */
module Stores {
  import opened Errors
  import opened Entities
  import opened Text
  import opened Collections
  import opened Ledgers
  import opened BookStores
  import opened PersonStores

  /** Card number -> card. */
  class CardStore {
    var store: map<int, Card>

    /** Every card is filed under its own number. */
    ghost predicate Valid()
      reads this
    {
      forall n :: n in store ==> store[n].number == n
    }

    constructor ()
      ensures Valid() && store == map[]
    {
      store := map[];
    }

    method Count() returns (n: nat)
      ensures n == |store|
    {
      n := |store|;
    }

    method Contains(cardNumber: int) returns (b: bool)
      ensures b <==> cardNumber in store
    {
      b := cardNumber in store;
    }

    /** Refused while the ledger holds reservations for the card or a user is
        registered with it, so no ledger key and no user link is left without
        its card. */
    method Delete(cardNumber: int, reservations: ReservationStore, users: UserStore) returns (o: Outcome)
      requires Valid()
      modifies this
      ensures Valid()
      ensures old(store) == map[] ==> o == Failure(StoreIsEmpty(Cards))
      ensures old(store) != map[] && cardNumber !in old(store) ==> o == Failure(CardNumberNotFound)
      ensures cardNumber in old(store) && cardNumber in reservations.ledger ==> o == Failure(ReservationOpen)
      ensures cardNumber in old(store) && cardNumber !in reservations.ledger && cardNumber in users.store ==>
                o == Failure(UserRegistered)
      ensures o.Success? <==>
                cardNumber in old(store) && cardNumber !in reservations.ledger && cardNumber !in users.store
      ensures store == if o.Success? then old(store) - {cardNumber} else old(store)
      ensures old(reservations.ledger.Keys <= store.Keys) ==> reservations.ledger.Keys <= store.Keys
      ensures old(users.store.Keys <= store.Keys) ==> users.store.Keys <= store.Keys
    {
      if |store| == 0 {
        return Failure(StoreIsEmpty(Cards));
      }
      if cardNumber !in store {
        return Failure(CardNumberNotFound);
      }
      var open := reservations.Contains(cardNumber);
      if open {
        return Failure(ReservationOpen);
      }
      var registered := users.Contains(cardNumber);
      if registered {
        return Failure(UserRegistered);
      }
      store := store - {cardNumber};
      o := Success;
    }

    /** Returns a copy of the stored card. */
    method Get(cardNumber: int) returns (r: Result<Card>)
      ensures store == map[] ==> r == Err(StoreIsEmpty(Cards))
      ensures store != map[] && cardNumber !in store ==> r == Err(CardNumberNotFound)
      ensures r.Ok? <==> cardNumber in store
      ensures r.Ok? ==> r.value == store[cardNumber]
    {
      if |store| == 0 {
        return Err(StoreIsEmpty(Cards));
      }
      if cardNumber !in store {
        return Err(CardNumberNotFound);
      }
      r := Ok(store[cardNumber]);
    }

    method GetIsBlocked(isBlocked: bool) returns (r: Result<seq<Card>>)
      requires Valid()
      ensures store == map[] ==> r == Err(StoreIsEmpty(Cards))
      ensures store != map[] ==> (r.Ok? <==> exists n :: n in store && store[n].isBlocked == isBlocked)
      ensures r.Err? && store != map[] ==> r.error == EmptyResult
      ensures r.Ok? ==> Distinct(r.value)
      ensures r.Ok? ==> forall c :: c in r.value <==> c in store.Values && c.isBlocked == isBlocked
    {
      if |store| == 0 {
        return Err(StoreIsEmpty(Cards));
      }
      assert forall n :: n in store ==> store[n].number == n;
      var result := Select(store, (c: Card) => c.number, (c: Card) => c.isBlocked == isBlocked);
      if result == [] {
        forall n | n in store ensures store[n].isBlocked != isBlocked {
          assert store[n] in store.Values;
        }
        return Err(EmptyResult);
      }
      assert result[0] in store.Values;
      r := Ok(result);
    }

    /** A copy of the whole registry; never fails. */
    method GetStore() returns (m: map<int, Card>)
      ensures m == store
    {
      m := store;
    }

    /** The cards, each once; never fails. */
    method GetValues() returns (s: seq<Card>)
      requires Valid()
      ensures Distinct(s)
      ensures forall c :: c in s <==> c in store.Values
    {
      assert forall n :: n in store ==> store[n].number == n;
      s := Select(store, (c: Card) => c.number, _ => true);
    }

    method Insert(card: Card) returns (o: Outcome)
      requires Valid()
      modifies this
      ensures Valid()
      ensures o.Failure? <==> card.number in old(store)
      ensures o.Failure? ==> o.error == DuplicatedCardNumber
      ensures store == if o.Success? then old(store)[card.number := card] else old(store)
      ensures |store| == |old(store)| + (if o.Success? then 1 else 0)
    {
      if card.number in store {
        return Failure(DuplicatedCardNumber);
      }
      store := store[card.number := card];
      o := Success;
    }

    /** Blocks the card, or sets its flag to `isBlocked`. */
    method UpdateIsBlocked(cardNumber: int, isBlocked: bool := true) returns (o: Outcome)
      requires Valid()
      modifies this
      ensures Valid()
      ensures old(store) == map[] ==> o == Failure(StoreIsEmpty(Cards))
      ensures old(store) != map[] && cardNumber !in old(store) ==> o == Failure(CardNumberNotFound)
      ensures o.Success? <==> cardNumber in old(store)
      ensures store == if o.Success? then old(store)[cardNumber := Card(cardNumber, isBlocked)] else old(store)
    {
      if |store| == 0 {
        return Failure(StoreIsEmpty(Cards));
      }
      if cardNumber !in store {
        return Failure(CardNumberNotFound);
      }
      store := store[cardNumber := store[cardNumber].(isBlocked := isBlocked)];
      o := Success;
    }
  }

  /** No person is linked to two cards. */
  ghost predicate Injective(m: map<int, string>)
  {
    forall c1, c2 :: c1 in m && c2 in m && c1 != c2 ==> m[c1] != m[c2]
  }

  /** Card number -> person id: the registered users, one card per person
      and one person per card. */
  class UserStore {
    const cardStore: CardStore
    const personStore: PersonStore
    var store: map<int, string>

    ghost predicate Valid()
      reads this
    {
      Injective(store)
    }

    constructor (cardStore: CardStore, personStore: PersonStore)
      ensures Valid() && store == map[]
      ensures this.cardStore == cardStore && this.personStore == personStore
    {
      this.cardStore := cardStore;
      this.personStore := personStore;
      store := map[];
    }

    method Contains(cardNumber: int) returns (b: bool)
      ensures b <==> cardNumber in store
    {
      b := cardNumber in store;
    }

    /** Unlinks a card; the ledger is not consulted. */
    method Delete(cardNumber: int) returns (o: Outcome)
      requires Valid()
      modifies this
      ensures Valid()
      ensures old(store) == map[] ==> o == Failure(StoreIsEmpty(Users))
      ensures old(store) != map[] && cardNumber !in old(store) ==> o == Failure(CardNotFound(Users))
      ensures o.Success? <==> cardNumber in old(store)
      ensures store == if o.Success? then old(store) - {cardNumber} else old(store)
    {
      if |store| == 0 {
        return Failure(StoreIsEmpty(Users));
      }
      if cardNumber !in store {
        return Failure(CardNotFound(Users));
      }
      store := store - {cardNumber};
      o := Success;
    }

    /** A copy of the links; never fails. */
    method GetStore() returns (m: map<int, string>)
      ensures m == store
    {
      m := store;
    }

    /** Links a known card to a known person, neither of them linked yet. */
    method Insert(cardNumber: int, personId: string) returns (o: Outcome)
      requires Valid()
      modifies this
      ensures Valid()
      ensures cardNumber !in cardStore.store ==> o == Failure(CardNotFound(Users))
      ensures cardNumber in cardStore.store && personId !in personStore.store ==> o == Failure(PersonNotFound)
      ensures cardNumber in cardStore.store && personId in personStore.store && cardNumber in old(store) ==>
                o == Failure(DuplicatedCard)
      ensures (cardNumber in cardStore.store && personId in personStore.store && cardNumber !in old(store)
               && personId in old(store).Values) ==> o == Failure(DuplicatedPerson)
      ensures o.Success? <==>
                cardNumber in cardStore.store && personId in personStore.store
                && cardNumber !in old(store) && personId !in old(store).Values
      ensures store == if o.Success? then old(store)[cardNumber := personId] else old(store)
      ensures old(store.Keys <= cardStore.store.Keys) ==> store.Keys <= cardStore.store.Keys
    {
      var knownCard := cardStore.Contains(cardNumber);
      if !knownCard {
        return Failure(CardNotFound(Users));
      }
      var knownPerson := personStore.Contains(personId);
      if !knownPerson {
        return Failure(PersonNotFound);
      }
      if cardNumber in store {
        return Failure(DuplicatedCard);
      }
      var linked := Enumerate(store.Keys);
      for i := 0 to |linked|
        invariant forall j :: 0 <= j < i ==> store[linked[j]] != personId
      {
        if store[linked[i]] == personId {
          return Failure(DuplicatedPerson);
        }
      }
      forall n | n in store ensures store[n] != personId {
        var j :| 0 <= j < |linked| && linked[j] == n;
      }
      store := store[cardNumber := personId];
      o := Success;
    }
  }

  /** Card number -> the card's reservations, in insertion order.  `today`
      stands for the system clock's date wherever the store reads it. */
  class ReservationStore {
    const bookStore: BookStore
    const cardStore: CardStore
    const userStore: UserStore
    var ledger: Ledger

    /** No empty list under a card, no book code twice ignoring case. */
    ghost predicate Valid()
      reads this
    {
      WellFormed(ledger)
    }

    constructor (bookStore: BookStore, cardStore: CardStore, userStore: UserStore)
      ensures Valid() && ledger == map[]
      ensures this.bookStore == bookStore && this.cardStore == cardStore && this.userStore == userStore
    {
      this.bookStore := bookStore;
      this.cardStore := cardStore;
      this.userStore := userStore;
      ledger := map[];
    }

    /** `Contains(int)`: the card holds a reservation. */
    method Contains(cardNumber: int) returns (b: bool)
      ensures b <==> cardNumber in ledger
      ensures Valid() ==> (b <==> |ListOf(ledger, cardNumber)| > 0)
    {
      b := cardNumber in ledger;
    }

    /** `Contains(string)`: some card holds a reservation for the code,
        ignoring case. */
    method ContainsBookCode(bookCode: string) returns (b: bool)
      ensures b <==> ContainsCode(ledger, bookCode)
    {
      var cards := Enumerate(ledger.Keys);
      for i := 0 to |cards|
        invariant forall j :: 0 <= j < i ==> !ListHasCode(ledger[cards[j]], bookCode)
      {
        var c := cards[i];
        if ListHasCode(ledger[c], bookCode) {
          assert c in ledger;
          return true;
        }
      }
      forall c | c in ledger ensures !ListHasCode(ledger[c], bookCode) {
        var j :| 0 <= j < |cards| && cards[j] == c;
      }
      b := false;
    }

    /** The ledger itself, refused when it is empty. */
    method GetAll() returns (r: Result<Ledger>)
      ensures r.Err? <==> ledger == map[]
      ensures r.Err? ==> r.error == StoreIsEmpty(Reservations)
      ensures r.Ok? ==> r.value == ledger
    {
      if |ledger| == 0 {
        return Err(StoreIsEmpty(Reservations));
      }
      r := Ok(ledger);
    }

    /** The reservations past their end date, of every card or of the cards
        whose blocked flag equals `isBlocked`.  Each card is looked up in the
        card store, so a ledger key without its card makes the call fail. */
    method GetDelayed(today: int, isBlocked: Option<bool> := None) returns (r: Result<seq<Reservation>>)
      requires Valid()
      ensures ledger == map[] ==> r == Err(StoreIsEmpty(Reservations))
      ensures ledger != map[] && ledger.Keys <= cardStore.store.Keys ==> r.Ok?
      ensures ledger != map[] && cardStore.store == map[] ==> r == Err(StoreIsEmpty(Cards))
      ensures ledger != map[] && cardStore.store != map[] && !(ledger.Keys <= cardStore.store.Keys) ==>
                r == Err(CardNumberNotFound)
      ensures r.Ok? ==> Distinct(r.value)
      ensures r.Ok? ==> forall x ::
                x in r.value <==> exists c :: Reports(ledger, cardStore.store, isBlocked, today, c, x)
    {
      if |ledger| == 0 {
        return Err(StoreIsEmpty(Reservations));
      }
      var cards := Enumerate(ledger.Keys);
      var result: seq<Reservation> := [];
      for i := 0 to |cards|
        invariant forall j :: 0 <= j < i ==> cards[j] in cardStore.store
        invariant Distinct(result)
        invariant forall x :: x in result ==>
                    exists j :: 0 <= j < i && Reports(ledger, cardStore.store, isBlocked, today, cards[j], x)
        invariant forall j, x :: 0 <= j < i && Reports(ledger, cardStore.store, isBlocked, today, cards[j], x) ==>
                    x in result
      {
        var card := cardStore.Get(cards[i]);
        if card.Err? {
          return Err(card.error);
        }
        if isBlocked.None? || card.value.isBlocked == isBlocked.value {
          var list := ledger[cards[i]];
          for k := 0 to |list|
            invariant Distinct(result)
            invariant forall x :: x in result ==>
                        (exists j :: 0 <= j < i && Reports(ledger, cardStore.store, isBlocked, today, cards[j], x))
                        || (x in list[..k] && IsLate(x, today))
            invariant forall x :: x in list[..k] && IsLate(x, today) ==> x in result
            invariant forall j, x :: 0 <= j < i && Reports(ledger, cardStore.store, isBlocked, today, cards[j], x) ==>
                        x in result
          {
            if IsLate(list[k], today) {
              forall x | x in result ensures x != list[k] {
                if x in list[..k] {
                  var m :| 0 <= m < k && list[m] == x;
                  EntriesDiffer(ledger, cards[i], m, cards[i], k);
                } else {
                  var j :| 0 <= j < i && Reports(ledger, cardStore.store, isBlocked, today, cards[j], x);
                  var m :| 0 <= m < |ledger[cards[j]]| && ledger[cards[j]][m] == x;
                  EntriesDiffer(ledger, cards[j], m, cards[i], k);
                }
              }
              result := result + [list[k]];
            }
          }
          assert list[..|list|] == list;
        }
      }
      forall x ensures x in result <==> exists c :: Reports(ledger, cardStore.store, isBlocked, today, c, x) {
        if c :| Reports(ledger, cardStore.store, isBlocked, today, c, x) {
          var j :| 0 <= j < |cards| && cards[j] == c;
        }
      }
      r := Ok(result);
    }

    /** `InsertAsync`, proved to compute `InsertResult`. */
    method Insert(cardNumber: int, reservation: Reservation, today: int) returns (o: Outcome)
      requires Valid()
      modifies this
      ensures Valid()
      ensures var res := InsertResult(old(ledger), bookStore.store, cardStore.store, userStore.store,
                                      cardNumber, reservation, today);
              && (o.Success? <==> res.Ok?)
              && (res.Err? ==> o == Failure(res.error))
              && ledger == (if res.Ok? then res.value else old(ledger))
      ensures old(ledger.Keys <= cardStore.store.Keys) ==> ledger.Keys <= cardStore.store.Keys
    {
      var shelved := bookStore.Contains(reservation.bookCode);
      if !shelved {
        return Failure(BookCodeNotFound);
      }
      var bookToReserve := bookStore.GetByCode(reservation.bookCode);
      if bookToReserve.value.position.None? {
        return Failure(BookNotReservable);
      }
      var card := cardStore.Get(cardNumber);
      if card.Err? {
        return Failure(card.error);
      }
      if card.value.isBlocked {
        return Failure(CardBlocked);
      }
      var cards := Enumerate(ledger.Keys);
      for i := 0 to |cards|
        invariant forall j :: 0 <= j < i ==> !ListHasCode(ledger[cards[j]], reservation.bookCode)
      {
        var c := cards[i];
        var list := ledger[c];
        for k := 0 to |list|
          invariant forall m :: 0 <= m < k ==> Fold(list[m].bookCode) != Fold(reservation.bookCode)
        {
          if Fold(list[k].bookCode) == Fold(reservation.bookCode) {
            assert c in ledger && ListHasCode(ledger[c], reservation.bookCode);
            return Failure(BookAlreadyReserved);
          }
        }
      }
      forall c | c in ledger ensures !ListHasCode(ledger[c], reservation.bookCode) {
        var j :| 0 <= j < |cards| && cards[j] == c;
      }
      var registered := userStore.Contains(cardNumber);
      if !registered {
        return Failure(CardNotInUserStore);
      }
      // The card's first reservation: its list is created before the quota
      // and delay checks, which cannot refuse an empty list.
      if cardNumber !in ledger {
        ledger := ledger[cardNumber := []];
      }
      var userReservations := ledger[cardNumber];
      if ActiveCount(userReservations) >= MaxNumOfReservations {
        return Failure(NumberOfReservationsExceeded);
      }
      var late := ScanForLate(userReservations, today);
      if late {
        return Failure(InvalidOperation);
      }
      ledger := ledger[cardNumber := userReservations + [reservation]];
      InsertKeepsWellFormed(old(ledger), bookStore.store, cardStore.store, userStore.store,
                            cardNumber, reservation, today);
      o := Success;
    }

    /** `UpdatePeriodAsync`, proved to compute `UpdatePeriodResult`. */
    method UpdatePeriod(cardNumber: int, bookCode: string, dateTo: int, today: int) returns (o: Outcome)
      requires Valid()
      modifies this
      ensures Valid()
      ensures var res := UpdatePeriodResult(old(ledger), userStore.store, cardNumber, bookCode, dateTo, today);
              && (o.Success? <==> res.Ok?)
              && (res.Err? ==> o == Failure(res.error))
              && ledger == (if res.Ok? then res.value else old(ledger))
      ensures ledger.Keys == old(ledger.Keys)
    {
      if |ledger| == 0 {
        return Failure(StoreIsEmpty(Reservations));
      }
      var registered := userStore.Contains(cardNumber);
      if !registered {
        return Failure(CardNotInUserStore);
      }
      if cardNumber !in ledger {
        return Failure(KeyNotFound);
      }
      var late := ScanForLate(ledger[cardNumber], today);
      if late {
        return Failure(InvalidOperation);
      }
      var index := FindOrdinal(ledger[cardNumber], bookCode);
      if index.None? {
        return Failure(ReservationNotFound);
      }
      var list := ledger[cardNumber];
      var i := index.value;
      ledger := ledger[cardNumber := list[i := list[i].(period := list[i].period.(dateTo := dateTo))]];
      UpdatePeriodKeepsWellFormed(old(ledger), userStore.store, cardNumber, bookCode, dateTo, today);
      o := Success;
    }

    /** `UpdateStatusAsync`, proved to compute `UpdateStatusResult`; the
        status defaults to Returned. */
    method UpdateStatus(cardNumber: int, bookCode: string, today: int, status: Status := Returned)
      returns (o: Outcome)
      requires Valid()
      modifies this
      ensures Valid()
      ensures var res := UpdateStatusResult(old(ledger), cardNumber, bookCode, status, today);
              && (o.Success? <==> res.Ok?)
              && (res.Err? ==> o == Failure(res.error))
              && ledger == (if res.Ok? then res.value else old(ledger))
      ensures ledger.Keys == old(ledger.Keys)
    {
      if |ledger| == 0 {
        return Failure(StoreIsEmpty(Reservations));
      }
      if cardNumber !in ledger {
        return Failure(CardNotFound(Reservations));
      }
      if !ListHasCode(ledger[cardNumber], bookCode) {
        return Failure(ReservationNotFound);
      }
      if IsActive(status) {
        var late := ScanForLate(ledger[cardNumber], today);
        if late {
          return Failure(UserHasReservationInDelay);
        }
      }
      var index := FindOrdinal(ledger[cardNumber], bookCode);
      if index.None? {
        return Failure(ReservationNotFound);
      }
      var list := ledger[cardNumber];
      var i := index.value;
      ledger := ledger[cardNumber := list[i := list[i].(status := status)]];
      UpdateStatusKeepsWellFormed(old(ledger), cardNumber, bookCode, status, today);
      o := Success;
    }
  }
}
