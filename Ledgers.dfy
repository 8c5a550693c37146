/** The reservation ledger as a value: card number -> that card's reservations
    in insertion order.  The functions here state what each ledger operation
    does to the ledger (including which failure wins when several apply); the
    `ReservationStore` methods are proved against them, and the lemmas state
    the rules the ledger keeps. */
module Ledgers {
  import opened Errors
  import opened Entities
  import opened Text
  import opened Collections

  type Ledger = map<int, seq<Reservation>>

  /** The quota: at most this many Reserved or Picked reservations per card. */
  const MaxNumOfReservations := 5

  /** The loan period ended before today.  This is the store's notion of
      "in delay": the status is not consulted. */
  predicate IsLate(r: Reservation, today: int)
  {
    r.period.dateTo < today
  }

  ghost predicate HasLate(list: seq<Reservation>, today: int)
  {
    exists i :: 0 <= i < |list| && IsLate(list[i], today)
  }

  /** The `foreach` that refuses an operation when one of the card's
      reservations is in delay. */
  method ScanForLate(list: seq<Reservation>, today: int) returns (late: bool)
    ensures late <==> HasLate(list, today)
  {
    for i := 0 to |list|
      invariant forall j :: 0 <= j < i ==> !IsLate(list[j], today)
    {
      if IsLate(list[i], today) {
        return true;
      }
    }
    late := false;
  }

  /** Number of Reserved or Picked reservations in a list. */
  function ActiveCount(list: seq<Reservation>): (n: nat)
    ensures n <= |list|
    ensures n == 0 <== (forall i :: 0 <= i < |list| ==> !IsActive(list[i].status))
  {
    if list == [] then 0
    else ActiveCount(list[..|list| - 1]) + (if IsActive(list[|list| - 1].status) then 1 else 0)
  }

  /** Appending one reservation raises the count by one exactly when the
      new reservation is Reserved or Picked. */
  lemma ActiveCountAppend(list: seq<Reservation>, r: Reservation)
    ensures ActiveCount(list + [r]) == ActiveCount(list) + (if IsActive(r.status) then 1 else 0)
  {
    assert (list + [r])[..|list|] == list;
  }

  /** `List.FindIndex` with ordinal code equality: the first reservation of
      the list for exactly this code. */
  function FindOrdinal(list: seq<Reservation>, code: string): (r: Option<nat>)
    ensures r.Some? ==> r.value < |list| && list[r.value].bookCode == code
    ensures r.Some? ==> forall j :: 0 <= j < r.value ==> list[j].bookCode != code
    ensures r.None? <==> forall j :: 0 <= j < |list| ==> list[j].bookCode != code
  {
    if list == [] then None
    else if list[0].bookCode == code then Some(0)
    else match FindOrdinal(list[1..], code)
      case None => None
      case Some(i) => Some(i + 1)
  }

  /** Some reservation of the list has this code, ignoring case. */
  predicate ListHasCode(list: seq<Reservation>, code: string)
  {
    exists i :: 0 <= i < |list| && Fold(list[i].bookCode) == Fold(code)
  }

  /** Some reservation anywhere in the ledger has this code, ignoring case. */
  ghost predicate ContainsCode(l: Ledger, code: string)
  {
    exists c :: c in l && ListHasCode(l[c], code)
  }

  /** The reservations of a card, empty for a card the ledger does not hold. */
  function ListOf(l: Ledger, c: int): seq<Reservation>
  {
    if c in l then l[c] else []
  }

  // ---------------------------------------------------------------------------
  // The invariant

  /** A card is a key only while it holds at least one reservation. */
  ghost predicate NonEmptyLists(l: Ledger)
  {
    forall c :: c in l ==> |l[c]| > 0
  }

  /** No book code occurs twice in the ledger, ignoring case, returned
      reservations included. */
  ghost predicate UniqueCodes(l: Ledger)
  {
    forall c1, i1, c2, i2 ::
      c1 in l && c2 in l && 0 <= i1 < |l[c1]| && 0 <= i2 < |l[c2]| && (c1 != c2 || i1 != i2) ==>
        Fold(l[c1][i1].bookCode) != Fold(l[c2][i2].bookCode)
  }

  ghost predicate WellFormed(l: Ledger)
  {
    NonEmptyLists(l) && UniqueCodes(l)
  }

  /** In a well-formed ledger two reservations taken from different cards,
      or from different places of one card, are different values. */
  lemma EntriesDiffer(l: Ledger, c1: int, i1: int, c2: int, i2: int)
    requires WellFormed(l)
    requires c1 in l && c2 in l && 0 <= i1 < |l[c1]| && 0 <= i2 < |l[c2]| && (c1 != c2 || i1 != i2)
    ensures l[c1][i1] != l[c2][i2]
  {
  }

  // ---------------------------------------------------------------------------
  // The operations

  /** `InsertAsync`: the seven checks in their order, then the append.  The
      first three look the book and the card up in their stores (the card
      lookup fails when the card store is empty or lacks the card). */
  ghost function InsertResult(l: Ledger, books: map<string, Book>, cards: map<int, Card>,
                              links: map<int, string>, c: int, r: Reservation, today: int): Result<Ledger>
  {
    if r.bookCode !in books then Err(BookCodeNotFound)
    else if books[r.bookCode].position.None? then Err(BookNotReservable)
    else if cards == map[] then Err(StoreIsEmpty(Cards))
    else if c !in cards then Err(CardNumberNotFound)
    else if cards[c].isBlocked then Err(CardBlocked)
    else if ContainsCode(l, r.bookCode) then Err(BookAlreadyReserved)
    else if c !in links then Err(CardNotInUserStore)
    else if ActiveCount(ListOf(l, c)) >= MaxNumOfReservations then Err(NumberOfReservationsExceeded)
    else if HasLate(ListOf(l, c), today) then Err(InvalidOperation)
    else Ok(l[c := ListOf(l, c) + [r]])
  }

  /** `UpdatePeriodAsync`: the new end date goes to the first reservation of
      the card whose code is ordinally equal to `code`. */
  ghost function UpdatePeriodResult(l: Ledger, links: map<int, string>, c: int, code: string,
                                    dateTo: int, today: int): Result<Ledger>
  {
    if l == map[] then Err(StoreIsEmpty(Reservations))
    else if c !in links then Err(CardNotInUserStore)
    else if c !in l then Err(KeyNotFound)
    else if HasLate(l[c], today) then Err(InvalidOperation)
    else match FindOrdinal(l[c], code)
      case None => Err(ReservationNotFound)
      case Some(i) => Ok(l[c := l[c][i := l[c][i].(period := l[c][i].period.(dateTo := dateTo))]])
  }

  /** `UpdateStatusAsync`: the presence check ignores case, the update goes
      to the first ordinally equal code; only a change to Reserved or Picked
      is refused while the card has a reservation in delay. */
  ghost function UpdateStatusResult(l: Ledger, c: int, code: string, status: Status,
                                    today: int): Result<Ledger>
  {
    if l == map[] then Err(StoreIsEmpty(Reservations))
    else if c !in l then Err(CardNotFound(Reservations))
    else if !ListHasCode(l[c], code) then Err(ReservationNotFound)
    else if IsActive(status) && HasLate(l[c], today) then Err(UserHasReservationInDelay)
    else match FindOrdinal(l[c], code)
      case None => Err(ReservationNotFound)
      case Some(i) => Ok(l[c := l[c][i := l[c][i].(status := status)]])
  }

  /** A delayed reservation reported by `GetDelayedAsync`: it is late and
      sits under a card whose blocked flag matches the filter (any card for a
      null filter). */
  ghost predicate Reports(l: Ledger, cards: map<int, Card>, isBlocked: Option<bool>,
                          today: int, c: int, x: Reservation)
  {
    c in l && c in cards && (isBlocked.None? || cards[c].isBlocked == isBlocked.value)
    && x in l[c] && IsLate(x, today)
  }

  // ---------------------------------------------------------------------------
  // Insert

  /** Insert succeeds exactly when none of the seven checks applies. */
  lemma InsertSucceedsIff(l: Ledger, books: map<string, Book>, cards: map<int, Card>,
                          links: map<int, string>, c: int, r: Reservation, today: int)
    ensures InsertResult(l, books, cards, links, c, r, today).Ok? <==>
              && r.bookCode in books && books[r.bookCode].position.Some?
              && c in cards && !cards[c].isBlocked
              && !ContainsCode(l, r.bookCode)
              && c in links
              && ActiveCount(ListOf(l, c)) < MaxNumOfReservations
              && !HasLate(ListOf(l, c), today)
  {
  }

  /** A successful insert appends the reservation at the end of the card's
      list (creating the list for a card's first reservation) and changes no
      other card's list; the card is one the card store holds. */
  lemma InsertAppends(l: Ledger, books: map<string, Book>, cards: map<int, Card>,
                      links: map<int, string>, c: int, r: Reservation, today: int)
    requires InsertResult(l, books, cards, links, c, r, today).Ok?
    ensures var l': Ledger := InsertResult(l, books, cards, links, c, r, today).value;
            && l'.Keys == l.Keys + {c}
            && l'[c] == ListOf(l, c) + [r]
            && (forall d :: d in l && d != c ==> l'[d] == l[d])
            && c in cards
  {
  }

  lemma {:induction false} InsertKeepsWellFormed(l: Ledger, books: map<string, Book>, cards: map<int, Card>,
                                                 links: map<int, string>, c: int, r: Reservation, today: int)
    requires WellFormed(l)
    requires InsertResult(l, books, cards, links, c, r, today).Ok?
    ensures WellFormed(InsertResult(l, books, cards, links, c, r, today).value)
  {
    var l': Ledger := InsertResult(l, books, cards, links, c, r, today).value;
    var n := |ListOf(l, c)|;
    forall c1, i1, c2, i2 |
      c1 in l' && c2 in l' && 0 <= i1 < |l'[c1]| && 0 <= i2 < |l'[c2]| && (c1 != c2 || i1 != i2)
      ensures Fold(l'[c1][i1].bookCode) != Fold(l'[c2][i2].bookCode)
    {
      var new1 := c1 == c && i1 == n;
      var new2 := c2 == c && i2 == n;
      if new1 {
        assert l'[c1][i1] == r;
        assert c2 in l && l'[c2][i2] == l[c2][i2];
        assert !ListHasCode(l[c2], r.bookCode);
      } else if new2 {
        assert l'[c2][i2] == r;
        assert c1 in l && l'[c1][i1] == l[c1][i1];
        assert !ListHasCode(l[c1], r.bookCode);
      } else {
        assert c1 in l && l'[c1][i1] == l[c1][i1];
        assert c2 in l && l'[c2][i2] == l[c2][i2];
      }
    }
  }

  /** A code already in the ledger, in any case, is never reserved again:
      the insert fails at the duplicate check or earlier. */
  lemma ReservedCodeRefused(l: Ledger, books: map<string, Book>, cards: map<int, Card>,
                            links: map<int, string>, c: int, r: Reservation, today: int)
    requires ContainsCode(l, r.bookCode)
    ensures InsertResult(l, books, cards, links, c, r, today).Err?
    ensures InsertResult(l, books, cards, links, c, r, today).error in
              {BookCodeNotFound, BookNotReservable, StoreIsEmpty(Cards), CardNumberNotFound,
               CardBlocked, BookAlreadyReserved}
  {
  }

  /** The quota: a card with five Reserved or Picked reservations gets no
      sixth, whatever its status. */
  lemma QuotaRefusesSixth(l: Ledger, books: map<string, Book>, cards: map<int, Card>,
                          links: map<int, string>, c: int, r: Reservation, today: int)
    requires ActiveCount(ListOf(l, c)) >= MaxNumOfReservations
    ensures InsertResult(l, books, cards, links, c, r, today).Err?
  {
  }

  /** Each successful insert of a Reserved or Picked reservation uses up one
      unit of the card's quota. */
  lemma InsertUsesQuota(l: Ledger, books: map<string, Book>, cards: map<int, Card>,
                        links: map<int, string>, c: int, r: Reservation, today: int)
    requires InsertResult(l, books, cards, links, c, r, today).Ok?
    ensures var l': Ledger := InsertResult(l, books, cards, links, c, r, today).value;
            ActiveCount(l'[c]) == ActiveCount(ListOf(l, c)) + (if IsActive(r.status) then 1 else 0)
            && ActiveCount(l'[c]) <= MaxNumOfReservations
  {
    ActiveCountAppend(ListOf(l, c), r);
  }

  // ---------------------------------------------------------------------------
  // UpdatePeriod and UpdateStatus

  /** A successful period update changes only the end date of the first
      ordinally matching reservation of that card. */
  lemma UpdatePeriodChangesOneDate(l: Ledger, links: map<int, string>, c: int, code: string,
                                   dateTo: int, today: int)
    requires UpdatePeriodResult(l, links, c, code, dateTo, today).Ok?
    ensures var l': Ledger := UpdatePeriodResult(l, links, c, code, dateTo, today).value;
            var i := FindOrdinal(l[c], code).value;
            && c in l && c in links && l'.Keys == l.Keys
            && (forall d :: d in l && d != c ==> l'[d] == l[d])
            && |l'[c]| == |l[c]|
            && (forall j :: 0 <= j < |l[c]| && j != i ==> l'[c][j] == l[c][j])
            && l'[c][i].bookCode == code && l'[c][i].status == l[c][i].status
            && l'[c][i].period == Period(l[c][i].period.dateFrom, dateTo)
  {
  }

  /** A successful status update changes only the status of the first
      ordinally matching reservation of that card; the current status is not
      checked, so any transition (Returned back to Reserved included) is
      allowed. */
  lemma UpdateStatusChangesOneStatus(l: Ledger, c: int, code: string, status: Status, today: int)
    requires UpdateStatusResult(l, c, code, status, today).Ok?
    ensures var l': Ledger := UpdateStatusResult(l, c, code, status, today).value;
            var i := FindOrdinal(l[c], code).value;
            && c in l && l'.Keys == l.Keys
            && (forall d :: d in l && d != c ==> l'[d] == l[d])
            && |l'[c]| == |l[c]|
            && (forall j :: 0 <= j < |l[c]| && j != i ==> l'[c][j] == l[c][j])
            && l'[c][i] == Reservation(code, l[c][i].period, status)
  {
  }

  /** Replacing one reservation by one with the same code keeps the ledger
      well formed and keeps its codes. */
  lemma {:induction false} SameCodeReplacement(l: Ledger, c: int, i: int, x: Reservation)
    requires WellFormed(l) && c in l && 0 <= i < |l[c]| && x.bookCode == l[c][i].bookCode
    ensures WellFormed(l[c := l[c][i := x]])
    ensures forall code :: ContainsCode(l, code) <==> ContainsCode(l[c := l[c][i := x]], code)
  {
    var l': Ledger := l[c := l[c][i := x]];
    assert forall d, j :: d in l && 0 <= j < |l[d]| ==> l'[d][j].bookCode == l[d][j].bookCode;
    forall code ensures ContainsCode(l, code) <==> ContainsCode(l', code) {
      if ContainsCode(l, code) {
        var d :| d in l && ListHasCode(l[d], code);
        var j :| 0 <= j < |l[d]| && Fold(l[d][j].bookCode) == Fold(code);
        assert Fold(l'[d][j].bookCode) == Fold(code);
      }
      if ContainsCode(l', code) {
        var d :| d in l' && ListHasCode(l'[d], code);
        var j :| 0 <= j < |l'[d]| && Fold(l'[d][j].bookCode) == Fold(code);
        assert Fold(l[d][j].bookCode) == Fold(code);
      }
    }
  }

  lemma UpdatePeriodKeepsWellFormed(l: Ledger, links: map<int, string>, c: int, code: string,
                                    dateTo: int, today: int)
    requires WellFormed(l)
    requires UpdatePeriodResult(l, links, c, code, dateTo, today).Ok?
    ensures WellFormed(UpdatePeriodResult(l, links, c, code, dateTo, today).value)
    ensures forall x :: ContainsCode(l, x) <==> ContainsCode(UpdatePeriodResult(l, links, c, code, dateTo, today).value, x)
  {
    var i := FindOrdinal(l[c], code).value;
    SameCodeReplacement(l, c, i, l[c][i].(period := l[c][i].period.(dateTo := dateTo)));
  }

  lemma UpdateStatusKeepsWellFormed(l: Ledger, c: int, code: string, status: Status, today: int)
    requires WellFormed(l)
    requires UpdateStatusResult(l, c, code, status, today).Ok?
    ensures WellFormed(UpdateStatusResult(l, c, code, status, today).value)
    ensures forall x :: ContainsCode(l, x) <==> ContainsCode(UpdateStatusResult(l, c, code, status, today).value, x)
  {
    var i := FindOrdinal(l[c], code).value;
    SameCodeReplacement(l, c, i, l[c][i].(status := status));
  }

  /** Nothing removes a reservation: a successful insert keeps every code
      already in the ledger. */
  lemma {:induction false} InsertKeepsCodes(l: Ledger, books: map<string, Book>, cards: map<int, Card>,
                                            links: map<int, string>, c: int, r: Reservation, today: int, x: string)
    requires InsertResult(l, books, cards, links, c, r, today).Ok?
    requires ContainsCode(l, x)
    ensures ContainsCode(InsertResult(l, books, cards, links, c, r, today).value, x)
  {
    var l': Ledger := InsertResult(l, books, cards, links, c, r, today).value;
    var d :| d in l && ListHasCode(l[d], x);
    var j :| 0 <= j < |l[d]| && Fold(l[d][j].bookCode) == Fold(x);
    assert l'[d][j] == l[d][j];
  }

  /** The ordering of a period is checked only when it is built: a period
      update may move the end date before the start date. */
  lemma UpdatePeriodMayInvertPeriod()
    ensures var l: Ledger := map[1 := [Reservation("a", Period(3, 8), Reserved)]];
            var res := UpdatePeriodResult(l, map[1 := "p"], 1, "a", 1, 0);
            && Ordered(l[1][0].period)
            && res.Ok? && !Ordered(res.value[1][0].period)
  {
    var l: Ledger := map[1 := [Reservation("a", Period(3, 8), Reserved)]];
    assert !HasLate(l[1], 0);
    assert FindOrdinal(l[1], "a") == Some(0);
  }

  // ---------------------------------------------------------------------------
  // The delay gate

  /** A card with a reservation in delay can take no new reservation, extend
      no period, and re-activate or pick up nothing. */
  lemma DelayGate(l: Ledger, books: map<string, Book>, cards: map<int, Card>, links: map<int, string>,
                  c: int, r: Reservation, code: string, dateTo: int, status: Status, today: int)
    requires HasLate(ListOf(l, c), today)
    ensures InsertResult(l, books, cards, links, c, r, today).Err?
    ensures UpdatePeriodResult(l, links, c, code, dateTo, today).Err?
    ensures IsActive(status) ==> UpdateStatusResult(l, c, code, status, today).Err?
  {
  }

  /** Returning a book is never blocked by delays: an ordinal match under a
      card the ledger holds is enough. */
  lemma ReturnIgnoresDelay(l: Ledger, c: int, code: string, today: int)
    requires c in l && FindOrdinal(l[c], code).Some?
    ensures UpdateStatusResult(l, c, code, Returned, today).Ok?
  {
    var i := FindOrdinal(l[c], code).value;
    assert Fold(l[c][i].bookCode) == Fold(code);
  }

  /** The delay gate never reopens: since the end date is not consulted by
      UpdateStatus and UpdatePeriod is refused while the card is in delay,
      every successful operation leaves the card in delay on every later
      day, Returned or not. */
  lemma {:induction false} DelayIsPermanent(l: Ledger, books: map<string, Book>, cards: map<int, Card>,
                                            links: map<int, string>, c: int, today: int, later: int,
                                            d: int, r: Reservation, code: string, dateTo: int, status: Status)
    requires HasLate(ListOf(l, c), today) && today <= later
    ensures HasLate(ListOf(l, c), later)
    ensures InsertResult(l, books, cards, links, d, r, later).Ok? ==>
              HasLate(ListOf(InsertResult(l, books, cards, links, d, r, later).value, c), later)
    ensures UpdatePeriodResult(l, links, d, code, dateTo, later).Ok? ==>
              HasLate(ListOf(UpdatePeriodResult(l, links, d, code, dateTo, later).value, c), later)
    ensures UpdateStatusResult(l, d, code, status, later).Ok? ==>
              HasLate(ListOf(UpdateStatusResult(l, d, code, status, later).value, c), later)
  {
    var k :| 0 <= k < |ListOf(l, c)| && IsLate(ListOf(l, c)[k], today);
    assert IsLate(ListOf(l, c)[k], later);
    if InsertResult(l, books, cards, links, d, r, later).Ok? {
      var l': Ledger := InsertResult(l, books, cards, links, d, r, later).value;
      assert ListOf(l', c)[k] == ListOf(l, c)[k];
    }
    if UpdatePeriodResult(l, links, d, code, dateTo, later).Ok? {
      var l': Ledger := UpdatePeriodResult(l, links, d, code, dateTo, later).value;
      assert ListOf(l', c)[k] == ListOf(l, c)[k];
    }
    if UpdateStatusResult(l, d, code, status, later).Ok? {
      var l': Ledger := UpdateStatusResult(l, d, code, status, later).value;
      assert ListOf(l', c)[k].period == ListOf(l, c)[k].period;
    }
  }

  // ---------------------------------------------------------------------------
  // The two code comparisons

  /** UpdateStatus checks presence ignoring case but looks the reservation up
      ordinally, so a code that differs only in case passes the first check
      and is then reported missing. */
  lemma StatusLookupIsOrdinal()
    ensures var l: Ledger := map[1 := [Reservation("a", Period(0, 5), Reserved)]];
            && ListHasCode(l[1], "A")
            && UpdateStatusResult(l, 1, "A", Returned, 0) == Err(ReservationNotFound)
  {
    var l: Ledger := map[1 := [Reservation("a", Period(0, 5), Reserved)]];
    FoldIsCoarser();
    assert Fold(l[1][0].bookCode) == Fold("A");
  }
}
