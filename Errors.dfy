/** Failure kinds of the library engine, one constructor per exception class the
    stores throw.  Several exception classes share a simple name across the
    stores' namespaces (StoreIsEmptyException, CardNotFoundException); those
    carry the registry that raised them. */
module Errors {

  /** The registry an exception belongs to. */
  datatype Registry = Publications | Books | Cards | Persons | Users | Reservations

  datatype Error =
    // raised by every registry
    | StoreIsEmpty(registry: Registry)
    // book store
    | BookCodeNotFound
    | NoPublicationCorrespondence
    | PositionAlreadyOccupied
    // card store
    | CardNumberNotFound
    | ReservationOpen
    | UserRegistered
    | DuplicatedCardNumber
    // person store
    | IdCodeNotFound
    | DuplicatedId
    // publication store
    | DuplicatedIsbn
    | IsbnNotFound
    // link (user) store and ledger (reservation) store
    | CardNotFound(registry: Registry)
    | PersonNotFound
    | DuplicatedCard
    | DuplicatedPerson
    | CardNotInUserStore
    | BookAlreadyReserved
    | BookNotReservable
    | NumberOfReservationsExceeded
    | CardBlocked
    | ReservationNotFound
    | UserHasReservationInDelay
    // filtered query that matched nothing
    | EmptyResult
    // framework exceptions
    | InvalidOperation
    | KeyNotFound

  /** Outcome of an operation that returns nothing (a `Task`). */
  datatype Outcome = Success | Failure(error: Error)

  /** Outcome of an operation that returns a value (a `Task<T>`). */
  datatype Result<T> = Ok(value: T) | Err(error: Error)
}
