# Library engine: the six in-memory stores

A model of the in-memory engine of a small lending library.  Six registries,
each a dictionary the store owns and updates in place:

- the **publication catalog** (ISBN -> publication) with filters by author,
  genre and title, where a null filter selects the publications whose field is
  unset;
- the **book copies** (copy code -> book), each an instance of a catalogued
  publication and each on at most one shelf position;
- the **cards** (card number -> card with a blocked flag);
- the **persons** (id -> person with an optional address);
- the **users**, a one-to-one link card number -> person id;
- the **reservation ledger**, card number -> that card's reservations in
  insertion order, with a seven-step validated insert, period and status
  updates behind a "delay gate", and a query for reservations in delay.

Each store is a Dafny `class` with a `map` field and a `Valid()` predicate
holding its invariant: every entry filed under its own key; no two copies on
one shelf position; no person linked to two cards; no empty list in the
ledger and no book code twice in it, ignoring case.  Operations are methods
that return `Outcome` (`Success` or `Failure(error)`) or `Result<T>`, one
`Error` constructor per exception kind, checked in the order the source
checks them.  The ledger operations are also written as pure functions on the
ledger value (`Ledgers.InsertResult`, `UpdatePeriodResult`,
`UpdateStatusResult`); the `ReservationStore` methods are proved to compute
exactly them, and the ledger lemmas are stated about them: the fixed check
order, append-only insertion, the quota of five active reservations, the
never-reopening delay gate, codes never reserved twice, the ordinal versus
case-insensitive lookups of a status update.  The cross-store rule that
every ledger key and every user link has its card is kept by the only
operations that add keys (ledger insert, user insert) and by card delete,
which refuses a card that is still used.

Modelling choices:

- Dates are integer day numbers; the system clock's date is the explicit
  parameter `today` of every ledger operation that reads it.
- Dictionary iteration order is not under the program's control:
  `Collections.Enumerate` gives it as an arbitrary sequence of distinct keys,
  and queries are specified by membership (each element once), not order.
- Case-insensitive comparisons (`InvariantCultureIgnoreCase`,
  `CurrentCultureIgnoreCase`) are `Text.Fold` equality, ASCII lower-casing;
  ordinal `Equals` is plain equality, and the two are kept apart.
- Entities are values (`datatype`s).  In the source only `CardStore.GetAsync`
  and `PublicationStore.GetAsync` return clones (the publication's a shallow
  one); every other query hands out the stored objects themselves.  The
  model does not distinguish the two: see "Reference aliasing" under
  "## Left out".
- Only `FoldIdempotent` and the lemmas that need a concrete case difference
  depend on `Fold`'s definition; the rest hold for any folding.
- C# overloads get distinct names: `ReservationStore.Contains(int)` is
  `Contains`, `Contains(string)` is `ContainsBookCode`; `PersonStore`'s
  `GetStoreAsync` (refuses an empty store) is `GetStoreChecked`, `GetStore`
  (never fails) is `GetStore`.
- The exceptions shared by name between stores (`StoreIsEmptyException`,
  `CardNotFoundException`) carry the registry that raised them:
  `StoreIsEmpty(Cards)`, `CardNotFound(Users)`.
- The ledger's delay check compares only the end date with today, whatever
  the status, so a returned reservation that ended before today still keeps
  the card "in delay".  The loop of `InsertAsync`
  (Library/Stores/ReservationStore.cs:132-136) and the checks of
  `UpdatePeriodAsync` (:160) and `UpdateStatusAsync` (:191) read only
  `DateTo < today`; `Ledgers.DelayIsPermanent` states the consequence.

## Model

| member | source | states |
|---|---|---|
| Entities.NewCard | Entities/Card.cs:12-16 | a card built from a number carries that number and is not blocked |
| Entities.NewReservation | Entities/Reservation.cs:7-16 | a reservation built without a status keeps its code and period and is Reserved, an active status |
| Entities.DefaultPeriod | Entities/Reservation.cs:39-43 | the default period starts today and lasts five days |
| Entities.PeriodFrom | Entities/Reservation.cs:35-48 | a period from a start date lasts maxNoOfDays = 5 days |
| Entities.PeriodBetween | Entities/Reservation.cs:49-56 | an explicit period is built exactly when start <= end (equal dates allowed), holds both dates, and otherwise fails with InvalidOperation |
| Entities.PeriodConstructorsAgree | Entities/Reservation.cs:35-56 | the default period equals the period from today; the two-date constructor with a five-day gap equals the one-date constructor; every constructed period is ordered |
| Text.Fold | Library/Stores/ReservationStore.cs:41 | case folding keeps the length of a string |
| Text.FoldIdempotent | Library/Stores/ReservationStore.cs:101 | folding twice is folding once |
| Text.FoldIsCoarser | Library/Stores/ReservationStore.cs:183-196 | case-insensitive equality is strictly coarser than ordinal equality ("A" and "a") |
| Text.TrimStart | Library/Stores/PublicationStore.cs:147 | the result is a suffix of the input, what was dropped is white space, and it starts with a non-space |
| Text.TrimEnd | Library/Stores/PublicationStore.cs:147 | the result is a prefix of the input, what was dropped is white space, and it ends with a non-space |
| Text.Trim | Library/Stores/PublicationStore.cs:147 | the trimmed title is no longer than the title and neither starts nor ends with white space |
| Text.TrimDropsOnlyBorderSpace | Library/Stores/PublicationStore.cs:147 | the trimmed title is the title's own middle slice, left after dropping exactly its leading and its trailing white space |
| Collections.Enumerate | Library/Stores/CardStore.cs:76 | a `foreach` over a dictionary visits every key exactly once |
| Collections.Select | Library/Stores/CardStore.cs:75-80 | a loop adding each matching dictionary value to a result lists exactly the matching values, each once |
| Collections.DistinctCardinality | Library/Stores/BookStore.cs:111-144 | a listing without repetitions is as long as the set of its elements |
| PublicationStores.PublicationStore.constructor | Library/Stores/PublicationStore.cs:12-15 | a new catalog is empty |
| PublicationStores.PublicationStore.Delete | Library/Stores/PublicationStore.cs:17-27 | fails on an empty catalog, then with IsbnNotFound; otherwise removes exactly that ISBN |
| PublicationStores.PublicationStore.Get | Library/Stores/PublicationStore.cs:29-38 | fails on an empty catalog, then with IsbnNotFound; otherwise returns (a copy of) the stored publication |
| PublicationStores.PublicationStore.GetAll | Library/Stores/PublicationStore.cs:40-46 | fails exactly on an empty catalog; otherwise lists every publication once |
| PublicationStores.PublicationStore.GetByAuthor | Library/Stores/PublicationStore.cs:48-85 | empty catalog fails; a null author lists exactly the publications with unset authors and never fails; a name lists exactly those whose non-empty author list contains it, failing with EmptyResult exactly when there are none |
| PublicationStores.PublicationStore.GetByGenre | Library/Stores/PublicationStore.cs:87-120 | fails only on an empty catalog; a null genre lists exactly the publications with unset or empty genres, a genre exactly those containing it |
| PublicationStores.PublicationStore.GetByTitle | Library/Stores/PublicationStore.cs:122-153 | fails only on an empty catalog; a null title lists exactly the untitled publications, a title exactly those whose trimmed title equals the untrimmed query ignoring case |
| PublicationStores.PublicationStore.Insert | Library/Stores/PublicationStore.cs:155-162 | fails with DuplicatedIsbn exactly when the ISBN is present; otherwise adds exactly that entry |
| PublicationStores.PublicationStore.Contains | Library/Stores/PublicationStore.cs:179-185 | holds exactly when the ISBN is a key |
| PersonStores.PersonStore.constructor | Library/Stores/PersonStore.cs:15-18 | a new registry is empty |
| PersonStores.PersonStore.Contains | Library/Stores/PersonStore.cs:21-27 | holds exactly when the id is a key |
| PersonStores.PersonStore.DeleteAll | Library/Stores/PersonStore.cs:29-35 | always succeeds and leaves the registry empty |
| PersonStores.PersonStore.GetStoreChecked | Library/Stores/PersonStore.cs:37-43 | fails exactly on an empty registry; otherwise returns the registry |
| PersonStores.PersonStore.GetById | Library/Stores/PersonStore.cs:45-54 | fails on an empty registry, then with IdCodeNotFound; otherwise returns the stored person |
| PersonStores.PersonStore.GetStore | Library/Stores/PersonStore.cs:56-59 | never fails and returns the registry's contents |
| PersonStores.PersonStore.Insert | Library/Stores/PersonStore.cs:61-78 | fails with DuplicatedId exactly when the id is present; otherwise adds exactly that person |
| PersonStores.PersonStore.UpdateAddress | Library/Stores/PersonStore.cs:80-92 | fails on an empty registry, then with IdCodeNotFound; otherwise sets only that person's address |
| BookStores.AtMostOneAtPosition | Library/Stores/BookStore.cs:111-144 | with exclusive positions, the copies listed at a non-null position number at most one |
| BookStores.BookStore.constructor | Library/Stores/BookStore.cs:18-24 | a new copy registry is empty and uses the given catalog |
| BookStores.BookStore.Contains | Library/Stores/BookStore.cs:35-41 | holds exactly when the code is a key |
| BookStores.BookStore.DeleteAll | Library/Stores/BookStore.cs:47-56 | fails exactly on an empty registry and leaves it empty |
| BookStores.BookStore.DeleteByCode | Library/Stores/BookStore.cs:65-75 | fails on an empty registry, then with BookCodeNotFound; otherwise removes exactly that code |
| BookStores.BookStore.GetAll | Library/Stores/BookStore.cs:81-87 | fails exactly on an empty registry; otherwise lists every copy once |
| BookStores.BookStore.GetByCode | Library/Stores/BookStore.cs:93-102 | fails on an empty registry, then with BookCodeNotFound; otherwise returns the stored copy |
| BookStores.BookStore.GetByPosition | Library/Stores/BookStore.cs:111-144 | empty registry fails; otherwise lists exactly the copies at the given position (null: the unshelved ones), fails with EmptyResult exactly when there are none, and a non-null position yields exactly one copy |
| BookStores.BookStore.Insert | Library/Stores/BookStore.cs:151-165 | fails first without a catalogued ISBN, then on an occupied non-null position, then (InvalidOperation) on a present code; succeeds exactly otherwise, adding exactly that copy and keeping positions exclusive |
| BookStores.BookStore.UpdatePosition | Library/Stores/BookStore.cs:175-193 | fails on an empty registry, then on a position held by a different copy, then on an absent code; otherwise changes only that copy's position, re-occupying its own position allowed, keeping positions exclusive |
| Stores.CardStore.constructor | Library/Stores/CardStore.cs:15-18 | a new card registry is empty |
| Stores.CardStore.Count | Library/Stores/CardStore.cs:20-23 | the number of registered cards |
| Stores.CardStore.Contains | Library/Stores/CardStore.cs:25-31 | holds exactly when the number is a key |
| Stores.CardStore.Delete | Library/Stores/CardStore.cs:33-57 | fails on an empty registry, then on an absent number, then while the ledger holds the card (ReservationOpen), then while a user is linked to it (UserRegistered); otherwise removes exactly that card; ledger keys and user links stay within the card keys |
| Stores.CardStore.Get | Library/Stores/CardStore.cs:59-68 | fails on an empty registry, then with CardNumberNotFound; otherwise returns (a copy of) the stored card |
| Stores.CardStore.GetIsBlocked | Library/Stores/CardStore.cs:70-86 | empty registry fails; otherwise lists exactly the cards whose flag equals the argument, each once, failing with EmptyResult exactly when there are none |
| Stores.CardStore.GetStore | Library/Stores/CardStore.cs:88-91 | never fails and returns the registry's contents |
| Stores.CardStore.GetValues | Library/Stores/CardStore.cs:93-96 | never fails and lists every card once |
| Stores.CardStore.Insert | Library/Stores/CardStore.cs:98-107 | fails with DuplicatedCardNumber exactly when the number is present; otherwise adds exactly that card, so the count grows by one |
| Stores.CardStore.UpdateIsBlocked | Library/Stores/CardStore.cs:109-121 | the flag defaults to blocked; fails on an empty registry, then on an absent number; otherwise changes only that card's flag |
| Stores.UserStore.constructor | Library/Stores/UserStore.cs:17-23 | a new link registry is empty and uses the given card and person registries |
| Stores.UserStore.Contains | Library/Stores/UserStore.cs:25-31 | holds exactly when the card is linked |
| Stores.UserStore.Delete | Library/Stores/UserStore.cs:33-45 | fails on an empty registry, then with CardNotFound; otherwise removes exactly that link |
| Stores.UserStore.GetStore | Library/Stores/UserStore.cs:47-50 | never fails and returns the links |
| Stores.UserStore.Insert | Library/Stores/UserStore.cs:52-79 | fails in order on an unknown card, an unknown person, an already linked card, an already linked person; succeeds exactly otherwise, adding exactly that link, keeping the links one-to-one and within the card keys |
| Ledgers.ScanForLate | Library/Stores/ReservationStore.cs:132-136 | the loop finds a reservation in delay exactly when the list has one |
| Ledgers.ActiveCount | Library/Stores/ReservationStore.cs:124-125 | the number of Reserved or Picked reservations is at most the list length, and zero when none is active |
| Ledgers.ActiveCountAppend | Library/Stores/ReservationStore.cs:124-138 | appending raises the active count by one exactly when the new reservation is active |
| Ledgers.FindOrdinal | Library/Stores/ReservationStore.cs:164-166 | `FindIndex`: the first index whose code is ordinally equal, or none exactly when no code is |
| Ledgers.EntriesDiffer | Library/Stores/ReservationStore.cs:97-104 | in a well-formed ledger, reservations at different places are different values |
| Ledgers.InsertSucceedsIff | Library/Stores/ReservationStore.cs:80-140 | an insert succeeds exactly when the book exists and is shelved, the card exists and is unblocked, the code is free ignoring case, the card is linked, its active count is below 5 and none of its reservations is in delay |
| Ledgers.InsertAppends | Library/Stores/ReservationStore.cs:116-138 | a successful insert appends at the end of that card's list (creating it for a first reservation), changes no other card, and adds only a card the card registry holds |
| Ledgers.InsertKeepsWellFormed | Library/Stores/ReservationStore.cs:97-138 | a successful insert keeps every list non-empty and every code unique ignoring case |
| Ledgers.ReservedCodeRefused | Library/Stores/ReservationStore.cs:97-104 | a code already in the ledger (any case, any status) is refused, at the duplicate check or earlier |
| Ledgers.InsertKeepsCodes | Library/Stores/ReservationStore.cs:138 | a successful insert keeps every code already present, so a reserved code stays refused |
| Ledgers.QuotaRefusesSixth | Library/Stores/ReservationStore.cs:113-128 | a card with five active reservations gets no further reservation |
| Ledgers.InsertUsesQuota | Library/Stores/ReservationStore.cs:124-138 | a successful insert raises the card's active count by one for an active reservation and leaves it at most 5 |
| Ledgers.UpdatePeriodChangesOneDate | Library/Stores/ReservationStore.cs:142-171 | a successful period update needs a linked card in the ledger and changes only the end date of the first ordinally matching reservation |
| Ledgers.UpdateStatusChangesOneStatus | Library/Stores/ReservationStore.cs:173-203 | a successful status update changes only the status of the first ordinally matching reservation, whatever its current status |
| Ledgers.SameCodeReplacement | Library/Stores/ReservationStore.cs:169-201 | replacing a reservation by one with the same code keeps the ledger well formed and its codes |
| Ledgers.UpdatePeriodKeepsWellFormed | Library/Stores/ReservationStore.cs:169 | a period update keeps the ledger well formed and its codes |
| Ledgers.UpdateStatusKeepsWellFormed | Library/Stores/ReservationStore.cs:201 | a status update keeps the ledger well formed and its codes |
| Ledgers.UpdatePeriodMayInvertPeriod | Library/Stores/ReservationStore.cs:169 | a period update may set the end date before the start date: the ordering is checked only by the period constructor |
| Ledgers.DelayGate | Library/Stores/ReservationStore.cs:132-194 | a card with a reservation in delay can take no reservation, extend no period, and set no status to Reserved or Picked |
| Ledgers.ReturnIgnoresDelay | Library/Stores/ReservationStore.cs:186-201 | setting Returned succeeds whenever the card holds an ordinally matching reservation, delays or not |
| Ledgers.DelayIsPermanent | Library/Stores/ReservationStore.cs:132-201 | a card in delay stays in delay on every later day and after every successful insert, period update or status update, Returned included |
| Ledgers.StatusLookupIsOrdinal | Library/Stores/ReservationStore.cs:183-199 | a code differing only in case passes the presence check of a status update and is then reported not found |
| Stores.ReservationStore.constructor | Library/Stores/ReservationStore.cs:20-27 | a new ledger is empty and uses the given book, card and user registries |
| Stores.ReservationStore.Contains | Library/Stores/ReservationStore.cs:29-35 | holds exactly when the card is a key, which in a well-formed ledger is exactly when it holds a reservation |
| Stores.ReservationStore.ContainsBookCode | Library/Stores/ReservationStore.cs:37-46 | holds exactly when some card holds the code ignoring case |
| Stores.ReservationStore.GetAll | Library/Stores/ReservationStore.cs:48-54 | fails exactly on an empty ledger; otherwise returns the ledger |
| Stores.ReservationStore.GetDelayed | Library/Stores/ReservationStore.cs:56-78 | empty ledger fails; a ledger key the card registry lacks fails as the card lookup does, and only then; otherwise lists exactly, each once, the reservations ending before today under cards matching the blocked filter (all cards for a null filter), status not consulted |
| Stores.ReservationStore.Insert | Library/Stores/ReservationStore.cs:80-140 | computes `InsertResult`: the checks in source order and, on success only, the append; ledger keys stay within the card keys |
| Stores.ReservationStore.UpdatePeriod | Library/Stores/ReservationStore.cs:142-171 | computes `UpdatePeriodResult`: empty ledger, unlinked card, card not in the ledger (KeyNotFound), delay, no ordinal match, else the first match's new end date; keys unchanged |
| Stores.ReservationStore.UpdateStatus | Library/Stores/ReservationStore.cs:173-203 | computes `UpdateStatusResult`: empty ledger, card not in the ledger, no case-insensitive match, delay (active target status only), no ordinal match, else the first match's new status; status defaults to Returned; keys unchanged |

## Left out

- Asynchrony: `async`/`Task.Run` are sequential calls; the stores have no locks and no concurrency is modelled.
- The clock: `DateTime.Today` and `DateTime.Now` are the parameter `today`; dates are whole days, so `AddDays` overflow past year 9999 and time of day are not modelled.
- Reference aliasing: every entity is a value here, so a caller mutating an object the store still holds is not modelled.  In the source these return live stored objects: `CardStore.GetIsBlockedAsync` (the cards), `GetValues` (the cards) and `GetStore` (a new dictionary over the same cards); `PublicationStore.GetAllAsync`, `GetByAuthorAsync`, `GetByGenreAsync` and `GetByTitleAsync` (the publications); `PublicationStore.GetAsync`'s shallow clone (its `Authors` and `Genres` lists stay shared); `PersonStore.GetById` (the person), `GetStoreAsync` and `GetStore` (the live dictionary); `BookStore.GetAllAsync`, `GetByCodeAsync` and `GetByPositionAsync` (the books); `ReservationStore.GetAllAsync` (the live dictionary with its lists, reservations and periods) and `GetDelayedAsync` (the reservations); and `UserStore.GetStore` copies only the dictionary of strings.  Objects passed to the `Insert` methods stay shared with the caller in the same way.
- Text.Fold: culture-aware case folding is ASCII lower-casing, the same for the invariant and the current culture.
- Text.Trim: white space is the ASCII and Latin-1 white-space characters; other Unicode white space is not trimmed.
- Genres are natural numbers: the genre enumeration's definition is not part of this model.
- `PublicationStore.UpdateAuthorsAsync`, `UpdateGenresAsync` and `UpdateTitleAsync` throw NotImplemented and are not modelled.
- `BookStore.Get()` (a connection ping that casts a task to a sequence) is not modelled.
- `PersonStore.InsertAsync` rewraps as InvalidOperation any exception thrown inside its `try` (Library/Stores/PersonStore.cs:68-76). That `try` holds only `Store.Add` (:70), which runs after the `ContainsKey` check at :65 has ruled out a duplicate key; a null id already throws at :65, outside the `try`. Nothing inside the `try` can throw, so only DuplicatedId is modelled.
- Exception messages and the method names they carry are dropped; only the error kind (and, for the shared names, the registry) is kept.
- Null keys and null arguments (a null book code, a null reservation) are not modelled; optional fields and filters are `Option`s.
- Interfaces, controllers, the console front end and persistence are outside the model.
- Stores.ReservationStore.GetDelayed: the result's order follows dictionary iteration order and is specified only by membership.
- The user link is not required to outlive the ledger: `UserStore.DeleteAsync` does not consult the ledger, so ledger keys are not kept within the user links.
