/**
 * The data service itself: a database holding the committed tables and the
 * Client identity column, the transactions the assignment opens on it, and
 * the three operations of the service carried out step by step. Each
 * operation is proved to do what the specification functions of modules
 * Paging, TripQuery and Store say.
 */
module DbService {
  import opened Wrappers
  import opened Text
  import opened Dates
  import opened Paging
  import opened TripQuery
  import opened Store
  import opened Listing

  /** The trip listing's response: the echoed page number and size, the
      number of pages, and the page's trips. */
  datatype TripListResponse = TripListResponse(pageNum: int, pageSize: int, allPages: int, trips: seq<TripDto>)

  class Database {
    /** The committed Trip, Client and Client_Trip tables. */
    var tables: Tables
    /** The next value of Client's identity column; a rollback does not
        give used values back. */
    var identity: int

    ghost predicate Valid()
      reads this
    {
      Consistent(tables) && IdentityAhead(tables, identity)
    }

    constructor (t: Tables, nextClientId: int)
      requires Consistent(t) && IdentityAhead(t, nextClientId)
      ensures Valid() && tables == t && identity == nextClientId
    {
      tables := t;
      identity := nextClientId;
    }

    /** GetTripsAsync. `all` is the join ordered by `DateFrom` descending,
        as the database produces it; the page is the window that
        `OFFSET … FETCH NEXT` cuts from it. The database rejects a page size
        below 1 (`FETCH NEXT` needs at least one row) and a negative offset
        before any row is read; which of the two it names when both hold is
        not modelled. */
    method GetTrips(page: int, pageSize: int, all: seq<Row>) returns (r: Result<TripListResponse, Error>)
      requires IsInt32(page) && IsInt32(pageSize)
      ensures r.Err? <==> pageSize < 1 || Offset(page, pageSize) < 0
      ensures r.Err? ==> r.error.Unexpected?
      ensures pageSize >= 1 && Offset(page, pageSize) < 0 ==> r == Err(Unexpected(NegativeOffset))
      ensures pageSize < 1 && Offset(page, pageSize) >= 0 ==> r == Err(Unexpected(NonPositiveFetch))
      ensures r.Ok? ==>
        && pageSize >= 1 && Offset(page, pageSize) >= 0
        && r.value.pageNum == page
        && r.value.pageSize == pageSize
        && r.value.allPages == PageCount(|tables.trips|, pageSize)
        && r.value.allPages * pageSize >= |tables.trips|
        && IsFoldOf(r.value.trips, PageRows(all, Offset(page, pageSize), pageSize))
        && |r.value.trips| <= pageSize
    {
      var offset := Offset(page, pageSize);
      if pageSize < 1 {
        return Err(Unexpected(NonPositiveFetch));
      }
      if offset < 0 {
        return Err(Unexpected(NegativeOffset));
      }
      var totalPages := PageCount(|tables.trips|, pageSize);
      var rows := PageRows(all, offset, pageSize);
      var trips := FoldRows(rows);
      FoldWithinPage(trips, rows, pageSize);
      r := Ok(TripListResponse(page, pageSize, totalPages, trips));
    }

    /** How many Client_Trip rows name this client. */
    method CountClientTrips(idClient: int) returns (n: nat)
      ensures n > 0 <==> HasTrips(tables, idClient)
    {
      var matching := set e | e in tables.enrollments && e.clientId == idClient;
      n := |matching|;
      if HasTrips(tables, idClient) {
        var e :| e in tables.enrollments && e.clientId == idClient;
        assert e in matching;
      }
    }

    /** DeleteClientAsync. */
    method DeleteClient(idClient: int) returns (outcome: Outcome<Error>)
      requires Valid()
      modifies this
      ensures Valid()
      ensures Transition(outcome, tables) == Store.DeleteClient(old(tables), idClient)
      ensures identity == old(identity)
    {
      if idClient !in tables.clients {
        return Fail(NotFound(ClientMissing));
      }
      var tripCount := CountClientTrips(idClient);
      if tripCount > 0 {
        return Fail(InvalidOperation(ClientHasTrips));
      }
      DeleteClientKeepsConsistent(tables, idClient, identity);
      tables := tables.(clients := tables.clients - {idClient});
      outcome := Pass;
    }

    /** AssignClientToTripAsync, on the current day `today`. The checks run
        inside a transaction; every path ends in a rollback or in disposing
        the transaction uncommitted, so the committed tables never change.
        On success the Client_Trip row the service prepared is returned. */
    method AssignClientToTrip(idTrip: int, req: AssignRequest, today: CalendarDate)
      returns (outcome: Outcome<Error>, prepared: Option<Enrollment>)
      requires Valid()
      modifies this
      ensures Valid()
      ensures tables == old(tables)
      ensures var run := Store.AssignClientToTrip(old(tables), old(identity), idTrip, req, today);
        outcome == run.outcome && prepared == run.prepared && identity == run.nextClientId
    {
      if req.idTrip != idTrip {
        return Fail(InvalidOperation(IdMismatch)), None;
      }
      var tx := new Transaction(this);
      outcome, prepared := RunChecks(tx, idTrip, req, today);
      // Disposing the uncommitted transaction rolls it back, on success too.
      tx.Rollback();
    }

    /** The assignment with the Client_Trip insert executed and the
        transaction committed on success; any failure rolls back. */
    method AssignAndCommit(idTrip: int, req: AssignRequest, today: CalendarDate) returns (outcome: Outcome<Error>)
      requires Valid()
      modifies this
      ensures Valid()
      ensures var c := Store.AssignAndCommit(old(tables), old(identity), idTrip, req, today);
        outcome == c.outcome && tables == c.after && identity == c.nextClientId
    {
      if req.idTrip != idTrip {
        return Fail(InvalidOperation(IdMismatch));
      }
      var tx := new Transaction(this);
      var prepared;
      outcome, prepared := RunChecks(tx, idTrip, req, today);
      if outcome.Pass? {
        tx.InsertEnrollment(prepared.value);
        tx.Commit();
        CommitKeepsConsistent(old(tables), old(identity), idTrip, req, today);
      } else {
        tx.Rollback();
      }
    }

    /** The body of the assignment's `try` block: the checks, the Pesel
        upsert and the preparation of the Client_Trip row, all on the
        transaction's working copy, which is left open. */
    method RunChecks(tx: Transaction, idTrip: int, req: AssignRequest, today: CalendarDate)
      returns (outcome: Outcome<Error>, prepared: Option<Enrollment>)
      requires Valid() && req.idTrip == idTrip
      requires tx.db == this && tx.active && tx.working == tables
      modifies tx, this`identity
      ensures Valid() && tx.active
      ensures var run := Store.AssignClientToTrip(old(tables), old(identity), idTrip, req, today);
        && outcome == run.outcome && prepared == run.prepared && identity == run.nextClientId
        && run.working == Some(tx.working)
    {
      var trip := tx.FindTrip(idTrip);
      if trip.None? {
        return Fail(NotFound(TripMissing)), None;
      }
      var dateFrom := trip.value.dateFrom;
      if dateFrom.None? {
        return Fail(Unexpected(DateFromNull)), None;
      }
      if !EqualsIgnoreCase(trip.value.name, req.tripName) {
        return Fail(InvalidOperation(NameMismatch)), None;
      }
      if Before(dateFrom.value, today) {
        return Fail(InvalidOperation(PastTrip)), None;
      }
      var found := tx.FindClientByPesel(req.pesel);
      ghost var owner := PeselOwner(tables.clients, req.pesel);
      var clientId;
      if found.None? {
        clientId := tx.InsertClient(NewClient(req));
      } else {
        assert owner.Some? && owner.value == found.value;
        clientId := found.value;
      }
      var pairCount := tx.CountEnrollments(clientId, idTrip);
      if pairCount > 0 {
        return Fail(InvalidOperation(AlreadyAssigned)), None;
      }
      var registeredAt := Encode(today);
      var paid: Option<int> := None;
      if !IsNullOrWhiteSpace(req.paymentDate) {
        var parsed := ParseFirst(req.paymentDate.value, PaymentLayouts);
        if parsed.None? {
          return Fail(InvalidOperation(BadDateFormat)), None;
        }
        paid := Some(Encode(parsed.value));
      }
      prepared := Some(Enrollment(clientId, idTrip, registeredAt, paid));
      outcome := Pass;
    }
  }

  /** A transaction on a database: reads and writes go to a working copy of
      the committed tables, which a rollback discards. The service never
      commits one. Inserted clients draw on the database's identity column. */
  class Transaction {
    const db: Database
    var working: Tables
    var active: bool

    /** BeginTransaction: the working copy starts as the committed tables. */
    constructor (db: Database)
      ensures this.db == db && working == db.tables && active
    {
      this.db := db;
      working := db.tables;
      active := true;
    }

    /** `SELECT Name, DateFrom FROM Trip WHERE IdTrip = @IdTrip`. */
    method FindTrip(idTrip: int) returns (trip: Option<Trip>)
      ensures trip.Some? <==> idTrip in working.trips
      ensures trip.Some? ==> trip.value == working.trips[idTrip]
    {
      if idTrip in working.trips {
        trip := Some(working.trips[idTrip]);
      } else {
        trip := None;
      }
    }

    /** `SELECT IdClient FROM Client WHERE Pesel = @Pesel`. */
    method FindClientByPesel(pesel: string) returns (id: Option<int>)
      ensures id.Some? ==> id.value in working.clients && working.clients[id.value].pesel == pesel
      ensures id.None? ==> forall k :: k in working.clients ==> working.clients[k].pesel != pesel
    {
      if k :| k in working.clients && working.clients[k].pesel == pesel {
        id := Some(k);
      } else {
        id := None;
      }
    }

    /** `INSERT INTO Client … OUTPUT INSERTED.IdClient`: the new row gets the
        identity column's next value, which advances. */
    method InsertClient(c: Client) returns (id: int)
      requires active
      modifies this, db`identity
      ensures id == old(db.identity) && db.identity == id + 1
      ensures working == old(working).(clients := old(working.clients)[id := c])
      ensures active
    {
      id := db.identity;
      db.identity := id + 1;
      working := working.(clients := working.clients[id := c]);
    }

    /** `SELECT COUNT(*) FROM Client_Trip WHERE IdClient = @IdClient AND
        IdTrip = @IdTrip`. */
    method CountEnrollments(clientId: int, tripId: int) returns (n: nat)
      ensures n > 0 <==> Enrolled(working, clientId, tripId)
    {
      var matching := set e | e in working.enrollments && e.clientId == clientId && e.tripId == tripId;
      n := |matching|;
      if Enrolled(working, clientId, tripId) {
        var e :| e in working.enrollments && e.clientId == clientId && e.tripId == tripId;
        assert e in matching;
      }
    }

    /** `INSERT INTO Client_Trip …`, which the service prepares but does
        not execute. */
    method InsertEnrollment(e: Enrollment)
      requires active
      modifies this
      ensures working == old(working).(enrollments := old(working.enrollments) + {e})
      ensures active
    {
      working := working.(enrollments := working.enrollments + {e});
    }

    /** CommitAsync, which the service never calls: the working copy becomes
        the committed tables. */
    method Commit()
      requires active
      modifies this, db`tables
      ensures db.tables == old(working) && working == old(working) && !active
    {
      db.tables := working;
      active := false;
    }

    /** RollbackAsync, and the rollback that disposing an uncommitted
        transaction performs: the working copy is discarded. */
    method Rollback()
      modifies this
      ensures !active && working == old(working)
    {
      active := false;
    }
  }
}
