# Trip booking data service, modelled in Dafny

This project models the data-access service of a small trip-booking web
API (`DbService`). The service answers three requests against a relational
store of trips, countries, clients and enrollments (`Client_Trip`):

- **Listing trips, one page at a time.** It counts the trips and computes
  the number of pages and the row offset. It then folds the rows of one
  denormalising join (trip × country × client) into trip aggregates. Each
  aggregate holds its countries and its clients.
- **Removing a client.** The id must exist and the client must have no
  enrollment. Then exactly that client row is deleted.
- **Assigning a client to a trip.** The trip id in the URL is compared
  with the one in the body first, before any connection is opened. Then,
  inside a transaction: the trip exists, its `DateFrom` is read (NULL is an
  error), its name matches (ignoring case), and it is not in the past. Then
  comes an upsert of the client keyed by Pesel,
  a duplicate-enrollment check, and the parsing of an optional payment date
  in four fixed layouts. The enrollment row is built with today's date
  encoded as the integer `yyyyMMdd`.

The store is modelled as a value (`Store.Tables`): trips and clients are
maps keyed by their ids, and enrollments are a set of rows. The service
itself is modelled by two classes in module `DbService`:

- `Database` holds the committed tables and the Client identity column.
- `Transaction` holds a working copy of the tables, which only a commit
  would publish.

Each method of these classes is proved to do what a specification function
says. Those functions live in modules `Paging`, `TripQuery`, `Listing` and `Store`, and
lemmas about them state the properties of the service.

Modules:

| file | module | what it holds |
|---|---|---|
| wrappers.dfy | `Wrappers` | `Option`, `Outcome`, `Result` |
| text.dfy | `Text` | `IsNullOrWhiteSpace` and the ordinal case-insensitive comparison |
| dates.dfy | `Dates` | calendar days, the `yyyyMMdd` integer encoding, the four text layouts with their renderings and exact parsing (the ISO 8601 calendar date in extended and basic format, section 4.1.2.2 of ISO 8601:2004, plus `MM/dd/yyyy` and `dd.MM.yyyy`) |
| paging.dfy | `Paging` | page count and the 32-bit row offset |
| trip_query.dfy | `TripQuery` | join rows, trip DTOs, the declarative aggregate and the fold loop |
| listing.dfy | `Listing` | the `OFFSET … FETCH` window over the join, what it does to a trip with several rows, and paging over trips |
| store.dfy | `Store` | tables, integrity rules, client removal and assignment as functions of a store snapshot, and the committing variant |
| db_service.dfy | `DbService` | the `Database` and `Transaction` classes and the three operations |

Two behaviours of the code are easy to misread, and the model states them
as the code has them:

- **Join fan-out.** The join has one row per country–client pair of a trip,
  and the loop appends one country and one client per row. A trip with
  N ≥ 1 countries and M ≥ 1 clients therefore lists N·M country entries and
  N·M client entries (`TripQuery.JoinFanOut`). With no clients it lists its
  N countries once and no client; with no countries, its M clients once.
- **No commit.** The assignment builds the `Client_Trip` insert but never
  executes it, and it never commits. Disposing the transaction rolls it
  back, so the committed store is unchanged on every path. See
  "## Findings".

## Model

| member | source | states |
|---|---|---|
| Paging.PageCount | WebApplication6/Service/DbService.cs:24-25 | the page count is enough pages for every trip, and with one page fewer some trip is left out (the ceiling of count / size); it never exceeds the trip count |
| Paging.PageCountIsLeast | WebApplication6/Service/DbService.cs:25 | no smaller number of pages holds every trip |
| Paging.PageCountExamples | WebApplication6/Service/DbService.cs:25 | 0 trips give 0 pages, 10 trips of size 10 give 1 page, 11 give 2 |
| Paging.OffsetIsProduct | WebApplication6/Service/DbService.cs:26 | the 32-bit offset equals `(page - 1) * pageSize` whenever that product fits in an `int` |
| Paging.Wrap32Shift | WebApplication6/Service/DbService.cs:26 | unchecked `int` arithmetic sees a value only modulo 2^32 |
| Paging.Offset | WebApplication6/Service/DbService.cs:26 | the offset always fits in an `int`; `Paging.OffsetIsProduct` states when it is the true product |
| Listing.PageRows | WebApplication6/Service/DbService.cs:38 | the page holds at most `pageSize` rows, the join's rows from `offset` on in their order, and a full page whenever the join has that many rows left |
| Listing.RowPagingDropsCountry | WebApplication6/Service/DbService.cs:23-38 | as written, a trip with two countries and a page size of 1 gives a page count of 1, and page 1 lists the trip with only its first country |
| Listing.TripPage | WebApplication6/Service/DbService.cs:23-38 | paging over trips: the same `OFFSET … FETCH` window taken over the listing, so a page holds at most `pageSize` whole trips |
| Listing.PageWithinCount | WebApplication6/Service/DbService.cs:25 | every position before the trip count falls on a page within the page count |
| Listing.TripPagingShowsEveryTrip | WebApplication6/Service/DbService.cs:23-38 | paged over trips, every trip of the join is on page `i / pageSize + 1`, within the page count, with all its countries and clients |
| Listing.TripPagingKeepsCountries | WebApplication6/Service/DbService.cs:23-38 | paged over trips, the two-country trip is listed with both countries |
| TripQuery.AddRow | WebApplication6/Service/DbService.cs:49-75 | one pass of the loop body: the row's trip is looked up or created from this row, and gets the row's country and client appended; nothing else in the dictionary changes |
| TripQuery.ShowDate | WebApplication6/Service/DbService.cs:56-57 | a date is shown exactly when the column is not NULL, as ten characters with dashes at positions 4 and 7; `TripQuery.ShowDateRoundTrip` states it reads back |
| TripQuery.NewTrip | WebApplication6/Service/DbService.cs:52-59 | a new trip starts with no countries and no clients, and each date is null exactly when the row's column is |
| TripQuery.FoldRows | WebApplication6/Service/DbService.cs:45-76 | the loop's result is the fold of the rows: one aggregate per trip id, in first-appearance order, each equal to the declarative aggregate of that trip's rows |
| TripQuery.ValuesInOrder | WebApplication6/Service/DbService.cs:83 | the dictionary's values come out in key insertion order |
| TripQuery.AccumulatesStep | WebApplication6/Service/DbService.cs:49-75 | one loop pass keeps the dictionary equal to the aggregates of the rows read so far, and its keys equal to the first-appearance order |
| TripQuery.TripIdsDistinct | WebApplication6/Service/DbService.cs:50-61 | each trip id appears once in the listing |
| TripQuery.TripIdsAreRowIds | WebApplication6/Service/DbService.cs:49-61 | a trip is listed exactly when some row carries its id |
| TripQuery.TripIdsGrowByPrefix | WebApplication6/Service/DbService.cs:47-61 | reading more rows only appends trips; the listing of a prefix is a prefix of the listing |
| TripQuery.TripCountAtMostRows | WebApplication6/Service/DbService.cs:45-83 | there are never more trips than rows |
| TripQuery.FoldWithinPage | WebApplication6/Service/DbService.cs:38 | when the page query returns at most `pageSize` rows, at most `pageSize` trips are returned |
| TripQuery.FirstRowDecides | WebApplication6/Service/DbService.cs:50-61 | a trip's name, description, capacity and dates come from its first row; each date is null exactly when that row's column is null |
| TripQuery.ShowDateRoundTrip | WebApplication6/Service/DbService.cs:56-57 | a shown date is null exactly when the column is, and its `yyyy-MM-dd` text parses back to the same day |
| TripQuery.LaterRowsOnlyAppend | WebApplication6/Service/DbService.cs:50-75 | later rows never change a trip's scalar fields; its country and client lists only grow at the end |
| TripQuery.CountriesFromRows | WebApplication6/Service/DbService.cs:63-66 | a trip lists a country exactly when one of its rows names that country |
| TripQuery.ClientsFromRows | WebApplication6/Service/DbService.cs:68-75 | a trip lists a client exactly when one of its rows carries both names; a row with one name missing adds nothing |
| TripQuery.CountriesAppend | WebApplication6/Service/DbService.cs:63-66 | countries are appended in row order: the list for two runs of rows is the concatenation |
| TripQuery.ClientsAppend | WebApplication6/Service/DbService.cs:68-75 | clients are appended in row order: the list for two runs of rows is the concatenation |
| TripQuery.ListsAtMostRows | WebApplication6/Service/DbService.cs:63-75 | a run of rows never yields more countries, or more clients, than it has rows |
| TripQuery.JoinFanOut | WebApplication6/Service/DbService.cs:33-36 | a trip with 2 countries and 2 clients comes back with 4 country entries and 4 client entries, duplicates kept |
| Text.EqualsIgnoreCase | WebApplication6/Service/DbService.cs:137 | equal strings match, and matching strings have the same length; `Text.EqualsIgnoreCaseIffSameUpper` states what it decides |
| Text.IsNullOrWhiteSpace | WebApplication6/Service/DbService.cs:187 | a blank string holds no digit |
| Text.EqualsIgnoreCaseIffSameUpper | WebApplication6/Service/DbService.cs:137 | the case-insensitive comparison holds exactly when both names fold to the same upper-case string |
| Text.EqualsIgnoreCaseIsEquivalence | WebApplication6/Service/DbService.cs:137 | the comparison is reflexive, symmetric and transitive |
| Text.EqualsIgnoreCaseSameLength | WebApplication6/Service/DbService.cs:137 | names of different lengths never match |
| Text.EqualsIgnoreCaseUpper | WebApplication6/Service/DbService.cs:137 | a name matches its own upper-case form |
| Dates.DaysInMonth | WebApplication6/Service/DbService.cs:194 | months have 28 to 31 days; February has 29 exactly in leap years; April, June, September and November have 30 |
| Dates.Encode | WebApplication6/Service/DbService.cs:184 | the stored integer lies between 10101 and 99991231; `Dates.EncodeRoundTrip` states it decodes back |
| Dates.Render | WebApplication6/Service/DbService.cs:56-57 | a rendering has 8 characters in `yyyyMMdd` and 10 in the other layouts; `Dates.ParseLayoutIff` states it parses back |
| Dates.ParseLayout | WebApplication6/Service/DbService.cs:194 | a text accepted in one layout has that layout's length; `Dates.ParseLayoutIff` states what it accepts |
| Dates.ParseFirst | WebApplication6/Service/DbService.cs:193-194 | a day returned is what some listed layout parses the text to; none is returned only when every listed layout rejects the text |
| Dates.EncodeRoundTrip | WebApplication6/Service/DbService.cs:184 | `y*10000 + m*100 + d` decodes back to the same day and lies between 10101 and 99991231 |
| Dates.EncodeInjective | WebApplication6/Service/DbService.cs:199 | different days get different integers |
| Dates.EncodeMonotonic | WebApplication6/Service/DbService.cs:140 | one day is before another exactly when its integer is smaller |
| Dates.TwoRoundTrip | WebApplication6/Service/DbService.cs:184 | two-digit zero-padded text reads back as the same number |
| Dates.NumberTwoRoundTrip | WebApplication6/Service/DbService.cs:194 | any two-digit text is the padded text of the number it reads as |
| Dates.FourRoundTrip | WebApplication6/Service/DbService.cs:184 | four-digit zero-padded text reads back as the same number |
| Dates.NumberFourRoundTrip | WebApplication6/Service/DbService.cs:194 | any four-digit text is the padded text of the number it reads as |
| Dates.SplitJoin | WebApplication6/Service/DbService.cs:193 | cutting a joined date text recovers its year, month and day fields, in each layout |
| Dates.JoinSplit | WebApplication6/Service/DbService.cs:193 | a text that cuts into fields is the join of those fields |
| Dates.ParseLayoutIff | WebApplication6/Service/DbService.cs:193-194 | parsing in one layout accepts exactly the renderings of real calendar days in that layout, and returns that day |
| Dates.LayoutsExclusive | WebApplication6/Service/DbService.cs:193 | no text parses in two different layouts |
| Dates.ParseFirstSome | WebApplication6/Service/DbService.cs:193-194 | trying the layouts in order returns a day exactly when one layout parses the text to that day |
| Dates.ParsePaymentLayoutsIff | WebApplication6/Service/DbService.cs:193-197 | the payment text parses to a day exactly when it is that day rendered in one of the four layouts |
| Dates.BasicTextIsEncoding | WebApplication6/Service/DbService.cs:184 | `int.Parse` of the `yyyyMMdd` text of a day equals the day's integer encoding |
| Store.DeleteClient | WebApplication6/Service/DbService.cs:87-111 | a failure leaves the store as it was; a removal keeps trips and enrollments, only takes client ids away and changes no remaining client; `Store.DeleteClientOutcomes` states which outcome each case gets |
| Store.DeleteClientOutcomes | WebApplication6/Service/DbService.cs:93-110 | an unknown id is NotFound; a client with an enrollment is InvalidOperation; both leave the store unchanged; otherwise exactly that client key is removed and every other client, trip and enrollment is unchanged |
| Store.DeleteClientKeepsConsistent | WebApplication6/Service/DbService.cs:101-110 | a removal never leaves an enrollment pointing at a missing client, and keeps Pesel unique |
| Store.DeleteClientTwice | WebApplication6/Service/DbService.cs:97-99 | removing the same client again finds nothing |
| Store.PeselOwner | WebApplication6/Service/DbService.cs:144-147 | the lookup returns a client holding the Pesel, or none when no client holds it |
| Store.ParsePaymentDate | WebApplication6/Service/DbService.cs:187-201 | a rejection is InvalidOperation (bad date format) and a stored date decodes to a real calendar day; `Store.PaymentDateParsesIff` states which strings are accepted |
| Store.BlankNeverParses | WebApplication6/Service/DbService.cs:187-194 | a blank string is a date in no layout, so testing for blankness first takes no date away |
| Store.PaymentDateParsesIff | WebApplication6/Service/DbService.cs:187-197 | a payment string is accepted exactly when it is blank or a real day in one of the four layouts; a rejection is InvalidOperation |
| Store.UpsertedClientEnrolledIff | WebApplication6/Service/DbService.cs:149-175 | after the upsert the duplicate check fails exactly when a client with this Pesel is already enrolled on the trip; a new client never is |
| Store.AssignClientToTrip | WebApplication6/Service/DbService.cs:113-207 | a call succeeds exactly when it prepares an enrollment row, and a successful call always opened a transaction |
| Store.FirstFailing | WebApplication6/Service/DbService.cs:115-197 | the index found is of a check that fails with all earlier checks passing, or the end when all pass |
| Store.FailuresDistinct | WebApplication6/Service/DbService.cs:115-197 | different checks report different errors |
| Store.AssignOutcomeIsFirstFailure | WebApplication6/Service/DbService.cs:115-197 | the outcome is the error of the first failing check, or success when none fails |
| Store.AssignFirstFailingCheckDecides | WebApplication6/Service/DbService.cs:115-197 | the call succeeds exactly when all seven checks pass; it fails with a check's error exactly when that check fails and every earlier one passes |
| Store.IdMismatchOpensNothing | WebApplication6/Service/DbService.cs:115-121 | a URL/body trip id mismatch is InvalidOperation before any transaction opens or any identity value is used |
| Store.PastTripBoundary | WebApplication6/Service/DbService.cs:140-141 | a trip starting today passes the date check; one that started earlier fails it |
| Store.ExistingPeselReused | WebApplication6/Service/DbService.cs:144-167 | an existing Pesel reuses that client's id, leaves every client row untouched and draws no identity value |
| Store.UnseenPeselAddsOneClient | WebApplication6/Service/DbService.cs:149-163 | an unseen Pesel adds exactly one client with a fresh id and the request's fields to the working copy; nothing else changes and the integrity rules still hold |
| Store.PreparedEnrollment | WebApplication6/Service/DbService.cs:177-201 | the prepared row names the resolved client and the trip, registers today as `yyyyMMdd`, has a null payment date exactly for a blank string, and could be inserted without breaking the integrity rules |
| Store.IsoExtendedExample | WebApplication6/Service/DbService.cs:193-200 | `2024-05-01` is stored as 20240501 |
| Store.IsoBasicExample | WebApplication6/Service/DbService.cs:193-200 | `20240501` is stored as 20240501 |
| Store.MonthDayYearExample | WebApplication6/Service/DbService.cs:193-200 | `05/01/2024` is stored as 20240501 |
| Store.DayMonthYearExample | WebApplication6/Service/DbService.cs:193-200 | `01.05.2024` is stored as 20240501 |
| Store.PaymentExample | WebApplication6/Service/DbService.cs:193-200 | any rendering of a day in an accepted layout is stored as that day's integer |
| Store.UnparsablePaymentExample | WebApplication6/Service/DbService.cs:194-197 | `not-a-date` is rejected as a bad format |
| Store.NonLeapDayRejected | WebApplication6/Service/DbService.cs:194-197 | `2023-02-29` is rejected as a bad format |
| Store.LeapDayAccepted | WebApplication6/Service/DbService.cs:194-200 | `2024-02-29` is stored as 20240229 |
| Store.BlankPaymentExamples | WebApplication6/Service/DbService.cs:187-190 | a missing, empty or white-space payment string stores no payment date |
| Store.AsWrittenResubmissionSucceedsAgain | WebApplication6/Service/DbService.cs:177-207 | as written, a request that succeeded succeeds again when sent a second time, never reporting the client as already assigned |
| Store.AssignAndCommit | WebApplication6/Service/DbService.cs:177-207 | with the insert and the commit, the outcome is that of the checks, and a failure leaves the store as it was |
| Store.CommitKeepsConsistent | WebApplication6/Service/DbService.cs:169-207 | a committing call keeps the integrity rules and the identity column ahead of every id; on success the client with the request's Pesel is enrolled on the trip |
| Store.CommittedResubmissionRejected | WebApplication6/Service/DbService.cs:169-207 | with the commit in place, sending a successful request again is InvalidOperation (already assigned) and leaves the store unchanged |
| DbService.Database.GetTrips | WebApplication6/Service/DbService.cs:17-85 | a page size below 1 or a negative offset is an error from the database; otherwise page number and size are echoed, the page count is the ceiling over the trip table, the trips are the fold of the `OFFSET … FETCH` window of the join, and there are at most `pageSize` of them |
| DbService.Database.constructor | WebApplication6/Service/DbService.cs:19-21 | a database opens on tables that keep the integrity rules, with the identity column ahead of every client id |
| DbService.Database.CountClientTrips | WebApplication6/Service/DbService.cs:101-105 | the count is positive exactly when the client has an enrollment |
| DbService.Database.DeleteClient | WebApplication6/Service/DbService.cs:87-111 | the outcome and the new tables are those of `Store.DeleteClient`; the integrity rules and the identity column are kept |
| DbService.Database.AssignClientToTrip | WebApplication6/Service/DbService.cs:113-208 | the committed tables never change; the outcome, the prepared row and the identity column's new value are those of `Store.AssignClientToTrip` |
| DbService.Database.RunChecks | WebApplication6/Service/DbService.cs:123-201 | the checks, the upsert and the row preparation leave the transaction's working copy equal to the specification's working copy, with the same outcome and prepared row |
| DbService.Database.AssignAndCommit | WebApplication6/Service/DbService.cs:177-207 | the corrected assignment: the new tables, the outcome and the identity column are those of `Store.AssignAndCommit`, and the integrity rules are kept |
| DbService.Transaction.constructor | WebApplication6/Service/DbService.cs:121 | a new transaction is active on its database, and its working copy is the committed tables |
| DbService.Transaction.FindTrip | WebApplication6/Service/DbService.cs:125-134 | a trip is found exactly when its id is in the working copy, and it is that trip |
| DbService.Transaction.FindClientByPesel | WebApplication6/Service/DbService.cs:144-147 | the id returned holds the Pesel; none is returned only when no client holds it |
| DbService.Transaction.InsertClient | WebApplication6/Service/DbService.cs:151-162 | the new client gets the identity column's next value, which advances by one |
| DbService.Transaction.CountEnrollments | WebApplication6/Service/DbService.cs:169-174 | the count is positive exactly when the client is enrolled on the trip |
| DbService.Transaction.InsertEnrollment | WebApplication6/Service/DbService.cs:177-182 | executing the prepared insert adds exactly that row to the working copy's enrollments |
| DbService.Transaction.Commit | WebApplication6/Service/DbService.cs:121-207 | the commit the service never makes: the committed tables become the working copy and the transaction ends |
| DbService.Transaction.Rollback | WebApplication6/Service/DbService.cs:121-206 | the transaction ends and nothing reaches the committed tables |

## Left out

- Connections, commands, readers, `async`/`await` and connection-string loading are I/O. The database is a `Database` object and a query is a read of its tables.
- The SQL join and its `ORDER BY` are evaluated by the database engine, not modelled. `DbService.Database.GetTrips` takes the ordered join result as a parameter, and `Listing.PageRows` cuts the `OFFSET … FETCH` window from it. That join result is not tied to the tables the trip count reads.
- `DbService.Database.GetTrips`: a page size below 1 is an `Unexpected(NonPositiveFetch)` error, because the database refuses a `FETCH NEXT` of fewer than one row. The `double` page count the source computes first is discarded on that path and is not modelled. When both the page size and the offset are refused, which refusal the database reports is not modelled; the error is `Unexpected` either way.
- `Paging.PageCount`: the `double` division and `Math.Ceiling` are replaced by integer ceiling division. For a count and page size that fit in an `int`, the `double` quotient is never rounded onto an integer, so the two agree.
- `DateTime.Now` is a clock read; `today` is a parameter. The source reads the clock twice, once for the past-trip check and once for `RegisteredAt`. Both reads are taken to fall on the same day, so a call that straddles midnight is not modelled.
- A trip's `DateFrom` is modelled as a calendar day. A time of day stored in the column is not modelled.
- A NULL `DateFrom` makes `GetDateTime` throw. It is modelled as an unexpected error (`Unexpected(DateFromNull)`) raised before the name comparison, because line 134 runs before line 137.
- `Text.EqualsIgnoreCase`: folds ASCII letters only. .NET's ordinal ignore-case comparison also folds non-ASCII letters by the invariant culture's simple case mapping.
- `DateTime.TryParseExact` is modelled only on the four fixed-width digit layouts with years 1 to 9999; its other culture and style handling is not modelled.
- Null strings in the request (other than the payment date) are not modelled. Strings are values.
- `TripQuery.Row`: a NULL Name, Description or MaxPeople in the Trip table is not modelled. `GetString(1)`, `GetString(2)` and `GetInt32(5)` (lines 54, 55 and 58) would throw on it, as would `GetString(0)` (line 133) on a NULL Name; the row type holds a value in each of these columns.
- `TripQuery.ValuesInOrder`: lists the values in key insertion order. `Values.ToList()` (line 83) enumerates a `Dictionary`, whose order .NET documents as unspecified; the model relies on the runtime's behaviour of insertion order for a dictionary with no removals, which this one never has.
- `Store.AssignClientToTrip`: a missing trip (lines 130-131) and a NULL `DateFrom` (line 134) are thrown while the trip reader opened at line 128 is still open; it is closed only at line 135. The catch then calls `RollbackAsync`, which the SqlClient driver may refuse while a reader is open on a connection without multiple active result sets. Its `InvalidOperationException` would then replace the original error, and the controller would answer 400 instead of 404 or 500. This depends on the driver and the connection string, which are not part of this model. The model reports the exception the service throws: NotFound(TripMissing) and Unexpected(DateFromNull).
- `DbService.Database.AssignClientToTrip`: the same open-reader rollback on those two paths is not modelled; see the line above.
- `Store.PeselOwner`: compares Pesel by exact string equality. `WHERE Pesel = @Pesel` (line 145) compares under the column's collation instead. SQL Server ignores trailing spaces, and a case-insensitive collation ignores case. So a stored "123" and a request "123 " name one client in the database and two in the model. The collation is a database setting that is not part of this model.
- `DbService.Transaction.FindClientByPesel`: exact string equality, for the same reason as `Store.PeselOwner`.
- `Store.PeselUnique`: uniqueness is stated under exact string equality, not under the column's collation.
- `Dates.Render`: renders in the Gregorian calendar. `ToString("yyyy-MM-dd")` (lines 56-57) and `ToString("yyyyMMdd")` (lines 184, 199) format with the current culture's calendar. A culture whose default calendar is not Gregorian, such as Thai Buddhist, would write other years. The process culture is not part of this model.
- `Dates.Encode`: the `yyyyMMdd` integer is the Gregorian one, for the same reason as `Dates.Render`.
- Pesel is taken to be unique across clients; this is part of the store's integrity rules (`Store.Consistent`). With duplicates, the scalar lookup would return whichever row the engine yields first.
- Concurrent requests, such as two assignments racing on a new Pesel or on the same enrollment pair, depend on the store's isolation level. The model is sequential.
- Trip DTOs are values. The aliasing of the `TripDto` objects shared between the dictionary and the returned list is not modelled.
- The controllers that map exceptions to HTTP status codes are not part of this model. The `Error` kinds NotFound, InvalidOperation and Unexpected stand for the exceptions they catch.
- `DbService.Database.GetTrips`: the database's refusals are reported as `Unexpected(NegativeOffset)` and `Unexpected(NonPositiveFetch)`. The engine's message text is not modelled.

## Findings

| source | as written | input that shows it | evidently intended | confidence | as-written member | corrected member |
|---|---|---|---|---|---|---|
| WebApplication6/Service/DbService.cs:177-207 | the `Client_Trip` insert command is built but never executed, and the transaction is never committed, so disposing it rolls back any new client as well | a request that passes every check, sent twice: the second call succeeds again instead of failing with "Client already assigned to this trip" | execute the insert and commit on success, so the enrollment persists and a repeat is rejected as already assigned | not executed | Store.AsWrittenResubmissionSucceedsAgain | Store.CommittedResubmissionRejected |
| WebApplication6/Service/DbService.cs:23-38 | the page count is over trips (`COUNT(*) FROM Trip`), but `OFFSET … FETCH` pages the rows of the join, which has one row per country–client pair | one trip with two countries and no clients, page size 1: the page count is 1, and page 1 lists the trip with only its first country | page over trips, so that every trip is listed whole on a page within the page count | not executed | Listing.RowPagingDropsCountry | Listing.TripPagingShowsEveryTrip |
