/**
 * The relational store behind the data service, as a value, and the two
 * operations that check and change it: removing a client and assigning a
 * client to a trip. The functions here say what one call does to a given
 * snapshot of the tables; the classes in module DbService carry them out
 * step by step.
 */
module Store {
  import opened Wrappers
  import opened Text
  import opened Dates

  datatype Trip = Trip(
    name: string,
    description: string,
    dateFrom: Option<CalendarDate>,
    dateTo: Option<CalendarDate>,
    maxPeople: int)

  datatype Client = Client(firstName: string, lastName: string, email: string, telephone: string, pesel: string)

  /** A row of Client_Trip; both dates are `yyyyMMdd` integers. */
  datatype Enrollment = Enrollment(clientId: int, tripId: int, registeredAt: int, paymentDate: Option<int>)

  /** The Trip, Client and Client_Trip tables, keyed by IdTrip and IdClient. */
  datatype Tables = Tables(trips: map<int, Trip>, clients: map<int, Client>, enrollments: set<Enrollment>)

  /** What the service reports when it throws. NegativeOffset and
      NonPositiveFetch stand for the database refusing an `OFFSET` below zero
      and a `FETCH NEXT` of fewer than one row. */
  datatype Reason =
    | NegativeOffset | NonPositiveFetch
    | ClientMissing | ClientHasTrips
    | IdMismatch | TripMissing | DateFromNull | NameMismatch | PastTrip | AlreadyAssigned | BadDateFormat

  /** NotFoundException, InvalidOperationException, and anything else
      (which the controllers answer with status 500). */
  datatype Error = NotFound(reason: Reason) | InvalidOperation(reason: Reason) | Unexpected(reason: Reason)

  predicate HasTrips(t: Tables, clientId: int) {
    exists e :: e in t.enrollments && e.clientId == clientId
  }

  predicate Enrolled(t: Tables, clientId: int, tripId: int) {
    exists e :: e in t.enrollments && e.clientId == clientId && e.tripId == tripId
  }

  /** At most one client per Pesel. */
  predicate PeselUnique(clients: map<int, Client>) {
    forall a, b :: a in clients && b in clients && clients[a].pesel == clients[b].pesel ==> a == b
  }

  /** The store's integrity rules: enrollments refer to existing clients and
      trips, a client is enrolled on a trip at most once, and Pesel is a
      natural key of Client. */
  predicate Consistent(t: Tables) {
    && (forall e :: e in t.enrollments ==> e.clientId in t.clients && e.tripId in t.trips)
    && (forall e1, e2 ::
          (e1 in t.enrollments && e2 in t.enrollments && e1.clientId == e2.clientId && e1.tripId == e2.tripId)
          ==> e1 == e2)
    && PeselUnique(t.clients)
  }

  /** The identity column's next value lies above every client id in use. */
  predicate IdentityAhead(t: Tables, nextClientId: int) {
    forall id :: id in t.clients ==> id < nextClientId
  }

  // ---------------------------------------------------------------------
  // Client removal

  datatype Transition = Transition(outcome: Outcome<Error>, after: Tables)

  /** DeleteClientAsync: existence check, dependency check, then the delete. */
  function DeleteClient(t: Tables, id: int): (r: Transition)
    ensures r.outcome.Fail? ==> r.after == t
    ensures r.after.trips == t.trips && r.after.enrollments == t.enrollments
    ensures r.after.clients.Keys <= t.clients.Keys
    ensures forall k :: k in r.after.clients ==> r.after.clients[k] == t.clients[k]
  {
    if id !in t.clients then Transition(Fail(NotFound(ClientMissing)), t)
    else if HasTrips(t, id) then Transition(Fail(InvalidOperation(ClientHasTrips)), t)
    else Transition(Pass, t.(clients := t.clients - {id}))
  }

  /** The outcomes of a removal: an unknown id is NotFound, a client with an
      enrollment is InvalidOperation, and both leave the store as it was;
      otherwise exactly that one client row goes and nothing else changes. */
  lemma DeleteClientOutcomes(t: Tables, id: int)
    ensures var r := DeleteClient(t, id);
      && (r.outcome == Fail(NotFound(ClientMissing)) <==> id !in t.clients)
      && (r.outcome == Fail(InvalidOperation(ClientHasTrips)) <==> id in t.clients && HasTrips(t, id))
      && (r.outcome.Pass? <==> id in t.clients && !HasTrips(t, id))
      && (r.outcome.Fail? ==> r.after == t)
      && (r.outcome.Pass? ==>
            && r.after.clients.Keys == t.clients.Keys - {id}
            && |r.after.clients| == |t.clients| - 1
            && (forall k :: k in r.after.clients ==> r.after.clients[k] == t.clients[k])
            && r.after.trips == t.trips
            && r.after.enrollments == t.enrollments)
  {
    var r := DeleteClient(t, id);
    if r.outcome.Pass? {
      assert t.clients.Keys == r.after.clients.Keys + {id};
    }
  }

  /** A removal never breaks the store's integrity rules. */
  lemma DeleteClientKeepsConsistent(t: Tables, id: int, nextClientId: int)
    requires Consistent(t) && IdentityAhead(t, nextClientId)
    ensures Consistent(DeleteClient(t, id).after) && IdentityAhead(DeleteClient(t, id).after, nextClientId)
  {
    var r := DeleteClient(t, id);
    if r.outcome.Pass? {
      forall e | e in t.enrollments
        ensures e.clientId != id
      {
        if e.clientId == id {
          assert HasTrips(t, id);
        }
      }
    }
  }

  /** Removing the same client twice: the second call finds nothing. */
  lemma DeleteClientTwice(t: Tables, id: int)
    requires DeleteClient(t, id).outcome.Pass?
    ensures DeleteClient(DeleteClient(t, id).after, id).outcome == Fail(NotFound(ClientMissing))
  {
  }

  // ---------------------------------------------------------------------
  // Trip assignment

  datatype AssignRequest = AssignRequest(
    idTrip: int,
    tripName: string,
    firstName: string,
    lastName: string,
    email: string,
    telephone: string,
    pesel: string,
    paymentDate: Option<string>)

  /** The client row an unseen Pesel creates. */
  function NewClient(req: AssignRequest): Client {
    Client(req.firstName, req.lastName, req.email, req.telephone, req.pesel)
  }

  /** The id of the client with this Pesel (`SELECT IdClient FROM Client
      WHERE Pesel = @Pesel`), if any. */
  ghost function PeselOwner(clients: map<int, Client>, pesel: string): (r: Option<int>)
    ensures r.Some? ==> r.value in clients && clients[r.value].pesel == pesel
    ensures r.None? ==> forall k :: k in clients ==> clients[k].pesel != pesel
  {
    if exists k :: k in clients && clients[k].pesel == pesel then
      Some(var k :| k in clients && clients[k].pesel == pesel; k)
    else None
  }

  /** The payment date as stored: NULL for a missing or blank string,
      otherwise the `yyyyMMdd` encoding of the first layout that parses it. */
  function ParsePaymentDate(s: Option<string>): (r: Result<Option<int>, Error>)
    ensures r.Err? ==> r.error == InvalidOperation(BadDateFormat)
    ensures r.Ok? && r.value.Some? ==> IsValid(Decode(r.value.value))
  {
    if IsNullOrWhiteSpace(s) then Ok(None)
    else match ParseFirst(s.value, PaymentLayouts)
      case Some(d) => EncodeRoundTrip(d); Ok(Some(Encode(d)))
      case None => Err(InvalidOperation(BadDateFormat))
  }

  /** Everything one assignment call does: its outcome; the transaction's
      working copy of the tables when the transaction ended (None when it
      failed before opening one); the Client_Trip row it prepared; and the
      identity column's next value afterwards. */
  datatype AssignRun = AssignRun(
    outcome: Outcome<Error>,
    working: Option<Tables>,
    prepared: Option<Enrollment>,
    nextClientId: int)

  /** AssignClientToTripAsync against a snapshot `t` of the store, the
      identity column's next value, and the current day. */
  ghost function AssignClientToTrip(t: Tables, nextClientId: int, idTrip: int, req: AssignRequest, today: CalendarDate): (r: AssignRun)
    ensures r.outcome.Pass? <==> r.prepared.Some?
    ensures r.outcome.Pass? ==> r.working.Some?
  {
    if req.idTrip != idTrip then AssignRun(Fail(InvalidOperation(IdMismatch)), None, None, nextClientId)
    else if idTrip !in t.trips then AssignRun(Fail(NotFound(TripMissing)), Some(t), None, nextClientId)
    else
      var trip := t.trips[idTrip];
      if trip.dateFrom.None? then AssignRun(Fail(Unexpected(DateFromNull)), Some(t), None, nextClientId)
      else if !EqualsIgnoreCase(trip.name, req.tripName) then AssignRun(Fail(InvalidOperation(NameMismatch)), Some(t), None, nextClientId)
      else if Before(trip.dateFrom.value, today) then AssignRun(Fail(InvalidOperation(PastTrip)), Some(t), None, nextClientId)
      else
        var owner := PeselOwner(t.clients, req.pesel);
        var clientId := if owner.Some? then owner.value else nextClientId;
        var work := if owner.Some? then t else t.(clients := t.clients[nextClientId := NewClient(req)]);
        var next := if owner.Some? then nextClientId else nextClientId + 1;
        if Enrolled(work, clientId, idTrip) then AssignRun(Fail(InvalidOperation(AlreadyAssigned)), Some(work), None, next)
        else match ParsePaymentDate(req.paymentDate)
          case Err(e) => AssignRun(Fail(e), Some(work), None, next)
          case Ok(paid) => AssignRun(Pass, Some(work), Some(Enrollment(clientId, idTrip, Encode(today), paid)), next)
  }

  /** The checks of an assignment, in the order the service makes them. */
  datatype Check =
    | IdsMatch | TripExists | DateFromPresent | NameMatches | NotPast | NotAlreadyAssigned | PaymentDateParses

  const AssignChecks: seq<Check> :=
    [IdsMatch, TripExists, DateFromPresent, NameMatches, NotPast, NotAlreadyAssigned, PaymentDateParses]

  /** What the service throws when a check fails. */
  function FailureOf(c: Check): Error {
    match c
    case IdsMatch => InvalidOperation(IdMismatch)
    case TripExists => NotFound(TripMissing)
    case DateFromPresent => Unexpected(DateFromNull)
    case NameMatches => InvalidOperation(NameMismatch)
    case NotPast => InvalidOperation(PastTrip)
    case NotAlreadyAssigned => InvalidOperation(AlreadyAssigned)
    case PaymentDateParses => InvalidOperation(BadDateFormat)
  }

  /** Each check stated on its own, against the committed store. A check that
      needs the trip holds vacuously when there is none (an earlier check
      fails first). */
  ghost predicate Passes(c: Check, t: Tables, idTrip: int, req: AssignRequest, today: CalendarDate) {
    match c
    case IdsMatch => req.idTrip == idTrip
    case TripExists => idTrip in t.trips
    case DateFromPresent => idTrip in t.trips ==> t.trips[idTrip].dateFrom.Some?
    case NameMatches => idTrip in t.trips ==> EqualsIgnoreCase(t.trips[idTrip].name, req.tripName)
    case NotPast =>
      idTrip in t.trips && t.trips[idTrip].dateFrom.Some? ==> !Before(t.trips[idTrip].dateFrom.value, today)
    case NotAlreadyAssigned =>
      !exists k :: k in t.clients && t.clients[k].pesel == req.pesel && Enrolled(t, k, idTrip)
    case PaymentDateParses =>
      || IsNullOrWhiteSpace(req.paymentDate)
      || exists l, d: CalendarDate :: l in PaymentLayouts && req.paymentDate.value == Render(d, l)
  }

  /** A date rendered in any layout starts with a digit. */
  lemma RenderStartsWithDigit(d: CalendarDate, l: Layout)
    ensures IsDigit(Render(d, l)[0])
  {
    FourRoundTrip(d.year);
    TwoRoundTrip(d.month);
    TwoRoundTrip(d.day);
    var s := Render(d, l);
    match l
    case IsoExtended => assert s[0] == Four(d.year)[0];
    case IsoBasic => assert s[0] == Four(d.year)[0];
    case MonthDayYear => assert s[0] == Two(d.month)[0];
    case DayMonthYear => assert s[0] == Two(d.day)[0];
  }

  /** A blank payment string is a date in no layout, so testing for blankness
      before parsing takes no date away. */
  lemma BlankNeverParses(s: string, l: Layout)
    requires IsNullOrWhiteSpace(Some(s))
    ensures ParseLayout(s, l).None?
  {
    if ParseLayout(s, l).Some? {
      var d := ParseLayout(s, l).value;
      RenderStartsWithDigit(d, l);
      ParseLayoutIff(s, l, d);
    }
  }

  /** The payment string is accepted exactly when it is blank or is a valid
      day written in one of the four layouts; a rejection is InvalidOperation. */
  lemma PaymentDateParsesIff(t: Tables, idTrip: int, req: AssignRequest, today: CalendarDate)
    ensures ParsePaymentDate(req.paymentDate).Ok? <==> Passes(PaymentDateParses, t, idTrip, req, today)
    ensures ParsePaymentDate(req.paymentDate).Err? ==>
      ParsePaymentDate(req.paymentDate).error == InvalidOperation(BadDateFormat)
  {
    if !IsNullOrWhiteSpace(req.paymentDate) {
      var s := req.paymentDate.value;
      match ParseFirst(s, PaymentLayouts)
      case Some(d) =>
        ParsePaymentLayoutsIff(s, d);
      case None =>
        forall l, d: CalendarDate | l in PaymentLayouts
          ensures s != Render(d, l)
        {
          ParsePaymentLayoutsIff(s, d);
        }
    }
  }

  /** With the store's integrity rules, the duplicate-enrollment check after
      the Pesel upsert fails exactly when the Pesel belongs to a client
      already enrolled on the trip: a freshly created client never is. */
  lemma UpsertedClientEnrolledIff(t: Tables, nextClientId: int, idTrip: int, req: AssignRequest, today: CalendarDate)
    requires Consistent(t) && IdentityAhead(t, nextClientId)
    ensures var owner := PeselOwner(t.clients, req.pesel);
      var clientId := if owner.Some? then owner.value else nextClientId;
      var work := if owner.Some? then t else t.(clients := t.clients[nextClientId := NewClient(req)]);
      Enrolled(work, clientId, idTrip) <==> !Passes(NotAlreadyAssigned, t, idTrip, req, today)
  {
    var owner := PeselOwner(t.clients, req.pesel);
    if owner.None? {
      forall e | e in t.enrollments
        ensures e.clientId < nextClientId
      {
        assert e.clientId in t.clients;
      }
    }
  }

  /** The position of the first check from `from` on that fails, or the
      number of checks when none does. */
  ghost function FirstFailing(t: Tables, idTrip: int, req: AssignRequest, today: CalendarDate, from: nat): (i: nat)
    requires from <= |AssignChecks|
    ensures from <= i <= |AssignChecks|
    ensures forall j :: from <= j < i ==> Passes(AssignChecks[j], t, idTrip, req, today)
    ensures i < |AssignChecks| ==> !Passes(AssignChecks[i], t, idTrip, req, today)
    decreases |AssignChecks| - from
  {
    if from == |AssignChecks| then from
    else if !Passes(AssignChecks[from], t, idTrip, req, today) then from
    else FirstFailing(t, idTrip, req, today, from + 1)
  }

  /** Different checks fail with different errors. */
  lemma FailuresDistinct()
    ensures forall i, j :: 0 <= i < j < |AssignChecks| ==> FailureOf(AssignChecks[i]) != FailureOf(AssignChecks[j])
  {
    var checks := AssignChecks;
    assert checks[0] == IdsMatch && checks[1] == TripExists && checks[2] == DateFromPresent;
    assert checks[3] == NameMatches && checks[4] == NotPast && checks[5] == NotAlreadyAssigned;
    assert checks[6] == PaymentDateParses && |checks| == 7;
  }

  /** The call fails with the error of the first failing check, and succeeds
      when no check fails. */
  lemma AssignOutcomeIsFirstFailure(t: Tables, nextClientId: int, idTrip: int, req: AssignRequest, today: CalendarDate)
    requires Consistent(t) && IdentityAhead(t, nextClientId)
    ensures var first := FirstFailing(t, idTrip, req, today, 0);
      AssignClientToTrip(t, nextClientId, idTrip, req, today).outcome ==
        if first < |AssignChecks| then Fail(FailureOf(AssignChecks[first])) else Pass
  {
    PaymentDateParsesIff(t, idTrip, req, today);
    UpsertedClientEnrolledIff(t, nextClientId, idTrip, req, today);
    var checks := AssignChecks;
    assert checks[0] == IdsMatch && checks[1] == TripExists && checks[2] == DateFromPresent;
    assert checks[3] == NameMatches && checks[4] == NotPast && checks[5] == NotAlreadyAssigned;
    assert checks[6] == PaymentDateParses && |checks| == 7;
    var first := FirstFailing(t, idTrip, req, today, 0);
    if first < 7 {
      assert forall j :: 0 <= j < first ==> Passes(checks[j], t, idTrip, req, today);
    } else {
      assert forall j :: 0 <= j < 7 ==> Passes(checks[j], t, idTrip, req, today);
    }
  }

  /** The checks are made in source order and the first that fails decides
      the error: the call succeeds exactly when every check passes, and it
      fails with a check's error exactly when that check fails and all
      earlier ones pass. */
  lemma AssignFirstFailingCheckDecides(t: Tables, nextClientId: int, idTrip: int, req: AssignRequest, today: CalendarDate)
    requires Consistent(t) && IdentityAhead(t, nextClientId)
    ensures var r := AssignClientToTrip(t, nextClientId, idTrip, req, today);
      && (r.outcome.Pass? <==> forall i :: 0 <= i < |AssignChecks| ==> Passes(AssignChecks[i], t, idTrip, req, today))
      && forall i :: 0 <= i < |AssignChecks| ==>
           (r.outcome == Fail(FailureOf(AssignChecks[i])) <==>
              && !Passes(AssignChecks[i], t, idTrip, req, today)
              && forall j :: 0 <= j < i ==> Passes(AssignChecks[j], t, idTrip, req, today))
  {
    AssignOutcomeIsFirstFailure(t, nextClientId, idTrip, req, today);
    FailuresDistinct();
    var r := AssignClientToTrip(t, nextClientId, idTrip, req, today);
    var first := FirstFailing(t, idTrip, req, today, 0);
    forall i | 0 <= i < |AssignChecks|
      ensures r.outcome == Fail(FailureOf(AssignChecks[i])) <==>
        && !Passes(AssignChecks[i], t, idTrip, req, today)
        && forall j :: 0 <= j < i ==> Passes(AssignChecks[j], t, idTrip, req, today)
    {
      if i < first {
        assert Passes(AssignChecks[i], t, idTrip, req, today);
      } else if first < i {
        assert !Passes(AssignChecks[first], t, idTrip, req, today);
      }
    }
  }

  /** The checks that come before the Pesel lookup. */
  ghost predicate TripChecksPass(t: Tables, idTrip: int, req: AssignRequest, today: CalendarDate) {
    && Passes(IdsMatch, t, idTrip, req, today)
    && Passes(TripExists, t, idTrip, req, today)
    && Passes(DateFromPresent, t, idTrip, req, today)
    && Passes(NameMatches, t, idTrip, req, today)
    && Passes(NotPast, t, idTrip, req, today)
  }

  /** A mismatch between the addressed trip and the payload's trip fails
      before any table is read: no transaction is opened. */
  lemma IdMismatchOpensNothing(t: Tables, nextClientId: int, idTrip: int, req: AssignRequest, today: CalendarDate)
    requires req.idTrip != idTrip
    ensures var r := AssignClientToTrip(t, nextClientId, idTrip, req, today);
      r.outcome == Fail(InvalidOperation(IdMismatch)) && r.working.None? && r.nextClientId == nextClientId
  {
  }

  /** An existing Pesel reuses that client's id: the working copy keeps every
      client row as it was and the identity column is not used. */
  lemma ExistingPeselReused(t: Tables, nextClientId: int, idTrip: int, req: AssignRequest, today: CalendarDate, k: int)
    requires Consistent(t)
    requires k in t.clients && t.clients[k].pesel == req.pesel
    requires TripChecksPass(t, idTrip, req, today)
    ensures var r := AssignClientToTrip(t, nextClientId, idTrip, req, today);
      && r.working == Some(t)
      && r.nextClientId == nextClientId
      && (r.outcome.Pass? <==> !Enrolled(t, k, idTrip) && ParsePaymentDate(req.paymentDate).Ok?)
      && (r.prepared.Some? ==> r.prepared.value.clientId == k)
  {
    var owner := PeselOwner(t.clients, req.pesel);
    assert owner.Some?;
    assert owner.value == k;
  }

  /** An unseen Pesel adds exactly one client, under the identity column's
      next id and with the payload's fields, to the working copy; nothing
      else in it changes and its integrity rules still hold. */
  lemma UnseenPeselAddsOneClient(t: Tables, nextClientId: int, idTrip: int, req: AssignRequest, today: CalendarDate)
    requires Consistent(t) && IdentityAhead(t, nextClientId)
    requires forall k :: k in t.clients ==> t.clients[k].pesel != req.pesel
    requires TripChecksPass(t, idTrip, req, today)
    ensures var r := AssignClientToTrip(t, nextClientId, idTrip, req, today);
      && r.working.Some?
      && nextClientId !in t.clients
      && r.working.value.clients == t.clients[nextClientId := NewClient(req)]
      && |r.working.value.clients| == |t.clients| + 1
      && r.working.value.trips == t.trips
      && r.working.value.enrollments == t.enrollments
      && Consistent(r.working.value)
      && IdentityAhead(r.working.value, r.nextClientId)
      && r.nextClientId == nextClientId + 1
      && (r.outcome.Pass? <==> ParsePaymentDate(req.paymentDate).Ok?)
      && (r.prepared.Some? ==> r.prepared.value.clientId == nextClientId)
  {
    var w := t.(clients := t.clients[nextClientId := NewClient(req)]);
    UpsertedClientEnrolledIff(t, nextClientId, idTrip, req, today);
    assert !Enrolled(w, nextClientId, idTrip);
    assert w.clients.Keys == t.clients.Keys + {nextClientId};
  }

  /** The row a successful call prepares: the resolved client, the addressed
      trip, today's date as `yyyyMMdd`, and the payment date, NULL exactly
      when the payment string is missing or blank. Had it been inserted, the
      store's integrity rules would still hold. */
  lemma PreparedEnrollment(t: Tables, nextClientId: int, idTrip: int, req: AssignRequest, today: CalendarDate)
    requires Consistent(t) && IdentityAhead(t, nextClientId)
    ensures var r := AssignClientToTrip(t, nextClientId, idTrip, req, today);
      r.outcome.Pass? ==>
        var e := r.prepared.value;
        && e.tripId == idTrip
        && e.registeredAt == Encode(today)
        && Decode(e.registeredAt) == today
        && (e.paymentDate.None? <==> IsNullOrWhiteSpace(req.paymentDate))
        && e.clientId in r.working.value.clients
        && r.working.value.clients[e.clientId].pesel == req.pesel
        && !Enrolled(r.working.value, e.clientId, idTrip)
        && Consistent(r.working.value.(enrollments := r.working.value.enrollments + {e}))
  {
    var r := AssignClientToTrip(t, nextClientId, idTrip, req, today);
    EncodeRoundTrip(today);
    if r.outcome.Pass? {
      var owner := PeselOwner(t.clients, req.pesel);
      if owner.None? {
        UnseenPeselAddsOneClient(t, nextClientId, idTrip, req, today);
      }
      var w := r.working.value;
      var e := r.prepared.value;
      var w' := w.(enrollments := w.enrollments + {e});
      forall e1, e2 | e1 in w'.enrollments && e2 in w'.enrollments && e1.clientId == e2.clientId && e1.tripId == e2.tripId
        ensures e1 == e2
      {
        if e1 != e && e2 != e {
          assert e1 in w.enrollments && e2 in w.enrollments;
        }
      }
    }
  }

  /** A trip that starts today passes the date check; one that started
      yesterday or earlier fails it. */
  lemma PastTripBoundary(t: Tables, idTrip: int, req: AssignRequest, today: CalendarDate)
    requires idTrip in t.trips && t.trips[idTrip].dateFrom.Some?
    ensures t.trips[idTrip].dateFrom.value == today ==> Passes(NotPast, t, idTrip, req, today)
    ensures Passes(NotPast, t, idTrip, req, today) <==> Encode(t.trips[idTrip].dateFrom.value) >= Encode(today)
  {
    EncodeMonotonic(t.trips[idTrip].dateFrom.value, today);
  }

  /** Each of the four accepted spellings of 1 May 2024 stores 20240501. */
  lemma IsoExtendedExample()
    ensures ParsePaymentDate(Some("2024-05-01")) == Ok(Some(20240501))
  {
    var d: CalendarDate := Date(2024, 5, 1);
    assert Four(2024) == "2024" && Two(5) == "05" && Two(1) == "01";
    PaymentExample(d, IsoExtended, "2024-05-01");
  }

  lemma IsoBasicExample()
    ensures ParsePaymentDate(Some("20240501")) == Ok(Some(20240501))
  {
    var d: CalendarDate := Date(2024, 5, 1);
    assert Four(2024) == "2024" && Two(5) == "05" && Two(1) == "01";
    PaymentExample(d, IsoBasic, "20240501");
  }

  lemma MonthDayYearExample()
    ensures ParsePaymentDate(Some("05/01/2024")) == Ok(Some(20240501))
  {
    var d: CalendarDate := Date(2024, 5, 1);
    assert Four(2024) == "2024" && Two(5) == "05" && Two(1) == "01";
    PaymentExample(d, MonthDayYear, "05/01/2024");
  }

  lemma DayMonthYearExample()
    ensures ParsePaymentDate(Some("01.05.2024")) == Ok(Some(20240501))
  {
    var d: CalendarDate := Date(2024, 5, 1);
    assert Four(2024) == "2024" && Two(5) == "05" && Two(1) == "01";
    PaymentExample(d, DayMonthYear, "01.05.2024");
  }

  lemma PaymentExample(d: CalendarDate, l: Layout, s: string)
    requires l in PaymentLayouts && s == Render(d, l)
    ensures ParsePaymentDate(Some(s)) == Ok(Some(Encode(d)))
  {
    RenderStartsWithDigit(d, l);
    ParsePaymentLayoutsIff(s, d);
  }

  /** Text in no accepted layout is rejected as a bad format. */
  lemma UnparsablePaymentExample()
    ensures ParsePaymentDate(Some("not-a-date")) == Err(InvalidOperation(BadDateFormat))
  {
    var s := "not-a-date";
    assert !IsWhiteSpace(s[0]);
    assert |s| == 10 && s[4] == 'a' && s[2] == 't';
    forall l | l in PaymentLayouts
      ensures ParseLayout(s, l).None?
    {
      assert Split(s, l).None?;
    }
  }

  /** A day the calendar does not have is rejected. */
  lemma NonLeapDayRejected()
    ensures ParsePaymentDate(Some("2023-02-29")) == Err(InvalidOperation(BadDateFormat))
  {
    var s := "2023-02-29";
    assert !IsWhiteSpace(s[0]);
    assert s == "2023" + "-" + "02" + "-" + "29";
    SplitJoin("2023", "02", "29", IsoExtended);
    assert AllDigits("2023") && AllDigits("02") && AllDigits("29");
    assert Number4("2023") == 2023 && Number2("02") == 2 && Number2("29") == 29;
    assert ParseLayout(s, IsoExtended).None?;
    assert Split(s, IsoBasic).None? && Split(s, MonthDayYear).None? && Split(s, DayMonthYear).None?;
  }

  /** 29 February is accepted in a leap year. */
  lemma LeapDayAccepted()
    ensures ParsePaymentDate(Some("2024-02-29")) == Ok(Some(20240229))
  {
    assert Four(2024) == "2024" && Two(2) == "02" && Two(29) == "29";
    PaymentExample(Date(2024, 2, 29), IsoExtended, "2024-02-29");
  }

  /** A blank or missing payment string stores no payment date. */
  lemma BlankPaymentExamples()
    ensures ParsePaymentDate(Some(" \t ")) == Ok(None)
    ensures ParsePaymentDate(Some("")) == Ok(None)
    ensures ParsePaymentDate(None) == Ok(None)
  {
  }

  // ---------------------------------------------------------------------
  // The assignment is never committed

  /** As written, a successful call leaves the committed store as it was (the
      Client_Trip insert is prepared but never executed and the transaction
      is disposed without a commit), so sending the same request again
      succeeds again instead of reporting the client as already assigned. */
  lemma AsWrittenResubmissionSucceedsAgain(t: Tables, nextClientId: int, idTrip: int, req: AssignRequest, today: CalendarDate)
    requires Consistent(t) && IdentityAhead(t, nextClientId)
    requires AssignClientToTrip(t, nextClientId, idTrip, req, today).outcome.Pass?
    ensures var again := AssignClientToTrip(t, AssignClientToTrip(t, nextClientId, idTrip, req, today).nextClientId, idTrip, req, today);
      again.outcome.Pass? && again.outcome != Fail(InvalidOperation(AlreadyAssigned))
  {
    var next := AssignClientToTrip(t, nextClientId, idTrip, req, today).nextClientId;
    assert IdentityAhead(t, next);
    AssignFirstFailingCheckDecides(t, nextClientId, idTrip, req, today);
    AssignFirstFailingCheckDecides(t, next, idTrip, req, today);
  }

  /** What one committing call does to the store. */
  datatype Committed = Committed(outcome: Outcome<Error>, after: Tables, nextClientId: int)

  /** The assignment as evidently intended: on success the prepared
      Client_Trip row is inserted and the working copy (with any new client)
      is committed; on any error the transaction rolls back to `t`. The
      identity column keeps what the call consumed either way. */
  ghost function AssignAndCommit(t: Tables, nextClientId: int, idTrip: int, req: AssignRequest, today: CalendarDate): (r: Committed)
    ensures r.outcome == AssignClientToTrip(t, nextClientId, idTrip, req, today).outcome
    ensures r.outcome.Fail? ==> r.after == t
  {
    var run := AssignClientToTrip(t, nextClientId, idTrip, req, today);
    if run.outcome.Pass? then
      var w := run.working.value;
      Committed(Pass, w.(enrollments := w.enrollments + {run.prepared.value}), run.nextClientId)
    else Committed(run.outcome, t, run.nextClientId)
  }

  /** A committing call keeps the store's integrity rules and the identity
      column ahead of every client id; on success the client with the
      request's Pesel is enrolled on the trip. */
  lemma CommitKeepsConsistent(t: Tables, nextClientId: int, idTrip: int, req: AssignRequest, today: CalendarDate)
    requires Consistent(t) && IdentityAhead(t, nextClientId)
    ensures var r := AssignAndCommit(t, nextClientId, idTrip, req, today);
      && Consistent(r.after)
      && IdentityAhead(r.after, r.nextClientId)
      && (r.outcome.Pass? ==>
            exists k :: k in r.after.clients && r.after.clients[k].pesel == req.pesel && Enrolled(r.after, k, idTrip))
  {
    var run := AssignClientToTrip(t, nextClientId, idTrip, req, today);
    PreparedEnrollment(t, nextClientId, idTrip, req, today);
    if run.outcome.Pass? {
      var owner := PeselOwner(t.clients, req.pesel);
      if owner.None? {
        UnseenPeselAddsOneClient(t, nextClientId, idTrip, req, today);
      }
      var r := AssignAndCommit(t, nextClientId, idTrip, req, today);
      var e := run.prepared.value;
      assert e in r.after.enrollments;
      assert Enrolled(r.after, e.clientId, idTrip);
    } else {
      assert IdentityAhead(t, run.nextClientId);
    }
  }

  /** With the commit in place, sending the same successful request again is
      rejected as already assigned and leaves the store as it was. */
  lemma CommittedResubmissionRejected(t: Tables, nextClientId: int, idTrip: int, req: AssignRequest, today: CalendarDate)
    requires Consistent(t) && IdentityAhead(t, nextClientId)
    requires AssignAndCommit(t, nextClientId, idTrip, req, today).outcome.Pass?
    ensures var first := AssignAndCommit(t, nextClientId, idTrip, req, today);
      var again := AssignAndCommit(first.after, first.nextClientId, idTrip, req, today);
      again.outcome == Fail(InvalidOperation(AlreadyAssigned)) && again.after == first.after
  {
    var first := AssignAndCommit(t, nextClientId, idTrip, req, today);
    CommitKeepsConsistent(t, nextClientId, idTrip, req, today);
    var u := first.after;
    AssignFirstFailingCheckDecides(t, nextClientId, idTrip, req, today);
    AssignFirstFailingCheckDecides(u, first.nextClientId, idTrip, req, today);
    var checks := AssignChecks;
    assert checks[0] == IdsMatch && checks[1] == TripExists && checks[2] == DateFromPresent;
    assert checks[3] == NameMatches && checks[4] == NotPast && checks[5] == NotAlreadyAssigned;
    assert Passes(checks[0], t, idTrip, req, today) && Passes(checks[1], t, idTrip, req, today);
    assert Passes(checks[2], t, idTrip, req, today) && Passes(checks[3], t, idTrip, req, today);
    assert Passes(checks[4], t, idTrip, req, today);
    assert u.trips == t.trips;
    forall j | 0 <= j < 5
      ensures Passes(checks[j], u, idTrip, req, today)
    {
      assert Passes(checks[j], t, idTrip, req, today);
    }
    assert !Passes(checks[5], u, idTrip, req, today);
  }
}
