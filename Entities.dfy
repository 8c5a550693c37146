/** The records the stores keep.  Every entity is a value: a store that hands
    one out hands out a copy.  Dates are whole day numbers. */
module Entities {
  import opened Errors

  /** A nullable field (`int?`, `string?`, `List<T>?`). */
  datatype Option<T> = None | Some(value: T)

  /** Genres are identified by the numeric value of their enumeration member. */
  type Genre = nat

  datatype Publication = Publication(
    isbn: string,
    title: Option<string>,
    authors: Option<seq<string>>,
    genres: Option<seq<Genre>>)

  /** A physical copy: its code, the ISBN it instantiates, and its shelf
      position, absent for an uncatalogued copy. */
  datatype Book = Book(code: string, isbn: string, position: Option<int>)

  datatype Card = Card(number: int, isBlocked: bool)

  /** A card with the blocked flag defaulting to false. */
  function NewCard(number: int): (c: Card)
    ensures c.number == number && !c.isBlocked
  {
    Card(number, false)
  }

  datatype Address = Address(street: Option<string>, number: Option<string>, postCode: Option<string>)

  datatype Person = Person(
    id: string,
    name: Option<string>,
    surname: Option<string>,
    address: Option<Address>)

  // ---------------------------------------------------------------------------
  // Reservations

  /** Exactly three states; a new reservation starts Reserved. */
  datatype Status = Reserved | Picked | Returned

  /** The statuses that count against a card's quota. */
  predicate IsActive(s: Status)
  {
    s == Reserved || s == Picked
  }

  datatype Period = Period(dateFrom: int, dateTo: int)

  /** Length of the default loan, in days. */
  const MaxNoOfDays := 5

  /** `Period()`: the loan starts today and lasts the default length. */
  function DefaultPeriod(today: int): (p: Period)
    ensures p.dateFrom == today && p.dateTo - p.dateFrom == MaxNoOfDays
  {
    Period(today, today + MaxNoOfDays)
  }

  /** `Period(dateFrom)`: the loan starts on the given day and lasts the
      default length. */
  function PeriodFrom(dateFrom: int): (p: Period)
    ensures p.dateFrom == dateFrom && p.dateTo - p.dateFrom == MaxNoOfDays
  {
    Period(dateFrom, dateFrom + MaxNoOfDays)
  }

  /** `Period(dateFrom, dateTo)`: refuses a period that ends before it starts;
      a one-day period (from == to) is allowed. */
  function PeriodBetween(dateFrom: int, dateTo: int): (r: Result<Period>)
    ensures r.Ok? <==> dateFrom <= dateTo
    ensures r.Ok? ==> r.value.dateFrom == dateFrom && r.value.dateTo == dateTo
    ensures r.Err? ==> r.error == InvalidOperation
  {
    if dateFrom > dateTo then Err(InvalidOperation) else Ok(Period(dateFrom, dateTo))
  }

  /** A period is ordered when it does not end before it starts. */
  predicate Ordered(p: Period)
  {
    p.dateFrom <= p.dateTo
  }

  /** The three period constructors agree with each other and all build
      ordered periods. */
  lemma PeriodConstructorsAgree(today: int, dateFrom: int, dateTo: int)
    ensures DefaultPeriod(today) == PeriodFrom(today)
    ensures PeriodBetween(dateFrom, dateFrom + MaxNoOfDays) == Ok(PeriodFrom(dateFrom))
    ensures Ordered(DefaultPeriod(today)) && Ordered(PeriodFrom(dateFrom))
    ensures PeriodBetween(dateFrom, dateTo).Ok? ==> Ordered(PeriodBetween(dateFrom, dateTo).value)
  {
  }

  datatype Reservation = Reservation(bookCode: string, period: Period, status: Status)

  /** `Reservation(bookCode, period)`: the status defaults to Reserved. */
  function NewReservation(bookCode: string, period: Period): (r: Reservation)
    ensures r.bookCode == bookCode && r.period == period
    ensures r.status == Reserved && IsActive(r.status)
  {
    Reservation(bookCode, period, Reserved)
  }
}
