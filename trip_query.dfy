/**
 * The trip listing's fold of denormalised join rows into trip aggregates.
 *
 * The join query returns one row per (trip, country, client) combination,
 * with NULLs where a trip has no country or no client. The service walks the
 * rows once, keeping a dictionary from trip id to the trip being built: the
 * first row of a trip creates it, and every row appends at most one country
 * and at most one client to it. The trips come out in the dictionary's
 * insertion order, that is, in order of each trip's first row.
 *
 * The specification here is declarative: `TripIds` lists the trip ids in
 * order of first appearance, `RowsOf` selects one trip's rows, and
 * `Aggregate` builds a trip from its rows. `FoldRows` is the loop.
 */
module TripQuery {
  import opened Wrappers
  import opened Dates

  /** One row of the paged join: the trip's columns, the country's name and
      the client's names; the last three are NULL when the outer join found
      nothing. */
  datatype Row = Row(
    idTrip: int,
    name: string,
    description: string,
    dateFrom: Option<CalendarDate>,
    dateTo: Option<CalendarDate>,
    maxPeople: int,
    countryName: Option<string>,
    clientFirstName: Option<string>,
    clientLastName: Option<string>)

  datatype CountryDto = CountryDto(name: string)

  datatype ClientDto = ClientDto(firstName: string, lastName: string)

  datatype TripDto = TripDto(
    name: string,
    description: string,
    dateFrom: Option<string>,
    dateTo: Option<string>,
    maxPeople: int,
    countries: seq<CountryDto>,
    clients: seq<ClientDto>)

  /** A nullable date column shown as `yyyy-MM-dd` text. */
  function ShowDate(d: Option<CalendarDate>): (r: Option<string>)
    ensures r.None? <==> d.None?
    ensures r.Some? ==> |r.value| == 10 && r.value[4] == '-' && r.value[7] == '-'
  {
    match d
    case None => None
    case Some(day) => Some(Render(day, IsoExtended))
  }

  /** A shown date is null exactly when the column is, and otherwise reads
      back as the same day. */
  lemma ShowDateRoundTrip(d: Option<CalendarDate>)
    ensures ShowDate(d).None? <==> d.None?
    ensures d.Some? ==> ParseLayout(ShowDate(d).value, IsoExtended) == Some(d.value)
  {
    if d.Some? {
      ParseLayoutIff(ShowDate(d).value, IsoExtended, d.value);
    }
  }

  /** The trip that a trip's first row creates, with no countries or clients yet. */
  function NewTrip(row: Row): (t: TripDto)
    ensures t.countries == [] && t.clients == []
    ensures t.dateFrom.None? <==> row.dateFrom.None?
    ensures t.dateTo.None? <==> row.dateTo.None?
  {
    TripDto(row.name, row.description, ShowDate(row.dateFrom), ShowDate(row.dateTo), row.maxPeople, [], [])
  }

  /** What a row adds to its trip's countries: one entry unless the country is NULL. */
  function CountryOf(row: Row): seq<CountryDto> {
    if row.countryName.Some? then [CountryDto(row.countryName.value)] else []
  }

  /** What a row adds to its trip's clients: one entry only if both names are non-NULL. */
  function ClientOf(row: Row): seq<ClientDto> {
    if row.clientFirstName.Some? && row.clientLastName.Some? then
      [ClientDto(row.clientFirstName.value, row.clientLastName.value)]
    else []
  }

  // ---------------------------------------------------------------------
  // Specification

  function Last<T>(s: seq<T>): T
    requires s != []
  {
    s[|s| - 1]
  }

  function Init<T>(s: seq<T>): seq<T>
    requires s != []
  {
    s[..|s| - 1]
  }

  /** The trip ids of the rows, each once, in order of first appearance. */
  function TripIds(rows: seq<Row>): seq<int> {
    if rows == [] then []
    else
      var ids := TripIds(Init(rows));
      if Last(rows).idTrip in ids then ids else ids + [Last(rows).idTrip]
  }

  /** The rows of one trip, in row order. */
  function RowsOf(rows: seq<Row>, id: int): seq<Row> {
    if rows == [] then []
    else RowsOf(Init(rows), id) + (if Last(rows).idTrip == id then [Last(rows)] else [])
  }

  /** The countries a sequence of rows contributes, in row order. */
  function Countries(rows: seq<Row>): seq<CountryDto> {
    if rows == [] then [] else Countries(Init(rows)) + CountryOf(Last(rows))
  }

  /** The clients a sequence of rows contributes, in row order. */
  function Clients(rows: seq<Row>): seq<ClientDto> {
    if rows == [] then [] else Clients(Init(rows)) + ClientOf(Last(rows))
  }

  lemma {:induction false} RowsOfNonEmpty(rows: seq<Row>, id: int)
    ensures id in TripIds(rows) <==> RowsOf(rows, id) != []
  {
    if rows != [] {
      RowsOfNonEmpty(Init(rows), id);
    }
  }

  /** One trip's aggregate: scalar fields from its first row, countries and
      clients from all of its rows. */
  function Aggregate(rows: seq<Row>, id: int): TripDto
    requires id in TripIds(rows)
  {
    RowsOfNonEmpty(rows, id);
    var mine := RowsOf(rows, id);
    NewTrip(mine[0]).(countries := Countries(mine), clients := Clients(mine))
  }

  /** The trips the listing returns for a page of rows. */
  predicate IsFoldOf(trips: seq<TripDto>, rows: seq<Row>) {
    && |trips| == |TripIds(rows)|
    && forall i :: 0 <= i < |trips| ==> trips[i] == Aggregate(rows, TripIds(rows)[i])
  }

  // ---------------------------------------------------------------------
  // How the specification grows by one row

  lemma InitOfSnoc<T>(s: seq<T>, x: T)
    ensures Init(s + [x]) == s && Last(s + [x]) == x
  {
    assert (s + [x])[..|s|] == s;
  }

  /** What a row adds to a trip that already exists. */
  function Extend(t: TripDto, row: Row): TripDto {
    t.(countries := t.countries + CountryOf(row), clients := t.clients + ClientOf(row))
  }

  lemma AggregateSnoc(rows: seq<Row>, row: Row, id: int)
    requires id in TripIds(rows + [row])
    ensures TripIds(rows + [row]) ==
      if row.idTrip in TripIds(rows) then TripIds(rows) else TripIds(rows) + [row.idTrip]
    ensures id != row.idTrip ==> id in TripIds(rows) && Aggregate(rows + [row], id) == Aggregate(rows, id)
    ensures id == row.idTrip && id in TripIds(rows) ==>
      Aggregate(rows + [row], id) == Extend(Aggregate(rows, id), row)
    ensures id == row.idTrip && id !in TripIds(rows) ==>
      Aggregate(rows + [row], id) == Extend(NewTrip(row), row)
  {
    InitOfSnoc(rows, row);
    var mine := RowsOf(rows, id);
    RowsOfNonEmpty(rows, id);
    RowsOfNonEmpty(rows + [row], id);
    if id == row.idTrip {
      assert RowsOf(rows + [row], id) == mine + [row];
      InitOfSnoc(mine, row);
      if id !in TripIds(rows) {
        assert mine + [row] == [row];
        InitOfSnoc([], row);
        assert Countries([row]) == CountryOf(row) && Clients([row]) == ClientOf(row);
      }
    } else {
      assert RowsOf(rows + [row], id) == mine;
    }
  }

  /** The loop's state after some rows: `order` lists the dictionary's keys
      in insertion order, and each key maps to its trip's aggregate so far. */
  ghost predicate Accumulates(tripDict: map<int, TripDto>, order: seq<int>, rows: seq<Row>) {
    && order == TripIds(rows)
    && (forall id :: id in tripDict <==> id in order)
    && forall id :: id in tripDict ==> tripDict[id] == Aggregate(rows, id)
  }

  lemma AccumulatesStep(
    tripDict: map<int, TripDto>, order: seq<int>, rows: seq<Row>, row: Row,
    tripDict': map<int, TripDto>, order': seq<int>)
    requires Accumulates(tripDict, order, rows)
    requires order' == if row.idTrip in tripDict then order else order + [row.idTrip]
    requires tripDict' == tripDict[row.idTrip :=
      Extend(if row.idTrip in tripDict then tripDict[row.idTrip] else NewTrip(row), row)]
    ensures Accumulates(tripDict', order', rows + [row])
    ensures forall j :: 0 <= j < |order'| ==> order'[j] in tripDict'
  {
    StepKeys(tripDict, order, rows, row, tripDict', order');
    StepValues(tripDict, order, rows, row, tripDict');
  }

  /** A row's trip id joins the keys, and the order, the first time it is seen. */
  lemma StepKeys(
    tripDict: map<int, TripDto>, order: seq<int>, rows: seq<Row>, row: Row,
    tripDict': map<int, TripDto>, order': seq<int>)
    requires Accumulates(tripDict, order, rows)
    requires order' == if row.idTrip in tripDict then order else order + [row.idTrip]
    requires tripDict'.Keys == tripDict.Keys + {row.idTrip}
    ensures order' == TripIds(rows + [row])
    ensures forall id :: id in tripDict' <==> id in order'
    ensures forall j :: 0 <= j < |order'| ==> order'[j] in tripDict'
  {
    InitOfSnoc(rows, row);
    assert forall id :: id in tripDict' <==> id in order';
    forall j | 0 <= j < |order'|
      ensures order'[j] in tripDict'
    {
      assert order'[j] in order';
    }
  }

  /** Only the row's own trip changes, by what the row adds to it. */
  lemma StepValues(
    tripDict: map<int, TripDto>, order: seq<int>, rows: seq<Row>, row: Row,
    tripDict': map<int, TripDto>)
    requires Accumulates(tripDict, order, rows)
    requires tripDict' == tripDict[row.idTrip :=
      Extend(if row.idTrip in tripDict then tripDict[row.idTrip] else NewTrip(row), row)]
    ensures forall id :: id in tripDict' ==> id in TripIds(rows + [row]) && tripDict'[id] == Aggregate(rows + [row], id)
  {
    InitOfSnoc(rows, row);
    AggregateSnoc(rows, row, row.idTrip);
    forall id | id in tripDict'
      ensures id in TripIds(rows + [row]) && tripDict'[id] == Aggregate(rows + [row], id)
    {
      if id != row.idTrip {
        AggregateSnoc(rows, row, id);
      }
    }
  }

  /** Listing the accumulated trips in insertion order gives the fold. */
  lemma AccumulatedFold(tripDict: map<int, TripDto>, order: seq<int>, rows: seq<Row>, trips: seq<TripDto>)
    requires Accumulates(tripDict, order, rows)
    requires forall j :: 0 <= j < |order| ==> order[j] in tripDict
    requires |trips| == |order|
    requires forall j :: 0 <= j < |order| ==> trips[j] == tripDict[order[j]]
    ensures IsFoldOf(trips, rows)
  {
    forall i | 0 <= i < |trips|
      ensures trips[i] == Aggregate(rows, TripIds(rows)[i])
    {
      assert order[i] in order;
    }
  }

  /** The loop's step, stated on the prefixes it walks. */
  lemma AccumulatesNext(
    tripDict: map<int, TripDto>, order: seq<int>, rows: seq<Row>, k: int,
    tripDict': map<int, TripDto>, order': seq<int>)
    requires 0 <= k < |rows|
    requires Accumulates(tripDict, order, rows[..k])
    requires order' == if rows[k].idTrip in tripDict then order else order + [rows[k].idTrip]
    requires tripDict' == tripDict[rows[k].idTrip :=
      Extend(if rows[k].idTrip in tripDict then tripDict[rows[k].idTrip] else NewTrip(rows[k]), rows[k])]
    ensures Accumulates(tripDict', order', rows[..k + 1])
    ensures forall j :: 0 <= j < |order'| ==> order'[j] in tripDict'
  {
    assert rows[..k + 1] == rows[..k] + [rows[k]];
    AccumulatesStep(tripDict, order, rows[..k], rows[k], tripDict', order');
  }

  // ---------------------------------------------------------------------
  // The loop

  /** The `while (reader.Read())` loop over the rows and the final
      `tripDict.Values.ToList()`. `order` stands for the insertion order in
      which the dictionary enumerates its values. */
  method FoldRows(rows: seq<Row>) returns (trips: seq<TripDto>)
    ensures IsFoldOf(trips, rows)
  {
    var tripDict: map<int, TripDto> := map[];
    var order: seq<int> := [];
    var k := 0;
    while k < |rows|
      invariant 0 <= k <= |rows|
      invariant Accumulates(tripDict, order, rows[..k])
      invariant forall j :: 0 <= j < |order| ==> order[j] in tripDict
    {
      ghost var dict0, order0 := tripDict, order;
      tripDict, order := AddRow(tripDict, order, rows[k]);
      AccumulatesNext(dict0, order0, rows, k, tripDict, order);
      k := k + 1;
    }
    assert rows[..k] == rows;
    trips := ValuesInOrder(tripDict, order);
    AccumulatedFold(tripDict, order, rows, trips);
  }

  /** One pass of the loop body: look the row's trip up, creating it from
      this row if it is new, then append the row's country and client. */
  method AddRow(tripDict: map<int, TripDto>, order: seq<int>, row: Row)
    returns (tripDict': map<int, TripDto>, order': seq<int>)
    ensures order' == if row.idTrip in tripDict then order else order + [row.idTrip]
    ensures tripDict' == tripDict[row.idTrip :=
      Extend(if row.idTrip in tripDict then tripDict[row.idTrip] else NewTrip(row), row)]
  {
    var trip;
    order' := order;
    if row.idTrip in tripDict {
      trip := tripDict[row.idTrip];
    } else {
      trip := NewTrip(row);
      order' := order + [row.idTrip];
    }
    ghost var created := trip;
    if row.countryName.Some? {
      trip := trip.(countries := trip.countries + [CountryDto(row.countryName.value)]);
    }
    if row.clientFirstName.Some? && row.clientLastName.Some? {
      trip := trip.(clients := trip.clients + [ClientDto(row.clientFirstName.value, row.clientLastName.value)]);
    }
    assert trip == Extend(created, row);
    tripDict' := tripDict[row.idTrip := trip];
  }

  /** `Dictionary.Values.ToList()`: the values in key insertion order. */
  method ValuesInOrder(tripDict: map<int, TripDto>, order: seq<int>) returns (trips: seq<TripDto>)
    requires forall j :: 0 <= j < |order| ==> order[j] in tripDict
    ensures |trips| == |order|
    ensures forall j :: 0 <= j < |order| ==> trips[j] == tripDict[order[j]]
  {
    trips := [];
    for i := 0 to |order|
      invariant |trips| == i
      invariant forall j :: 0 <= j < i ==> trips[j] == tripDict[order[j]]
    {
      trips := trips + [tripDict[order[i]]];
    }
  }

  // ---------------------------------------------------------------------
  // Properties of the fold

  /** Each trip id is listed once. */
  lemma {:induction false} TripIdsDistinct(rows: seq<Row>)
    ensures forall i, j :: 0 <= i < j < |TripIds(rows)| ==> TripIds(rows)[i] != TripIds(rows)[j]
  {
    if rows != [] {
      TripIdsDistinct(Init(rows));
    }
  }

  /** The ids listed are exactly the ids of the rows. */
  lemma {:induction false} TripIdsAreRowIds(rows: seq<Row>, id: int)
    ensures id in TripIds(rows) <==> exists j :: 0 <= j < |rows| && rows[j].idTrip == id
  {
    if rows != [] {
      TripIdsAreRowIds(Init(rows), id);
      if id in TripIds(Init(rows)) {
        var j :| 0 <= j < |Init(rows)| && Init(rows)[j].idTrip == id;
        assert rows[j].idTrip == id;
      }
      if j :| 0 <= j < |rows| && rows[j].idTrip == id {
        if j < |rows| - 1 {
          assert Init(rows)[j].idTrip == id;
        }
      }
    }
  }

  /** Trips are listed in order of their first rows: the trips of any
      prefix of the rows are a prefix of the listing. */
  lemma {:induction false} TripIdsGrowByPrefix(rows: seq<Row>, k: nat)
    requires k <= |rows|
    ensures TripIds(rows[..k]) <= TripIds(rows)
  {
    if k < |rows| {
      assert Init(rows) == rows[..|rows| - 1];
      assert rows[..|rows| - 1][..k] == rows[..k];
      TripIdsGrowByPrefix(Init(rows), k);
    } else {
      assert rows[..k] == rows;
    }
  }

  /** There are never more trips than rows. */
  lemma {:induction false} TripCountAtMostRows(rows: seq<Row>)
    ensures |TripIds(rows)| <= |rows|
  {
    if rows != [] {
      TripCountAtMostRows(Init(rows));
    }
  }

  /** A page's fold yields at most `pageSize` trips when the query returned
      at most `pageSize` rows. */
  lemma FoldWithinPage(trips: seq<TripDto>, rows: seq<Row>, pageSize: int)
    requires IsFoldOf(trips, rows)
    requires |rows| <= pageSize
    ensures |trips| <= pageSize
  {
    TripCountAtMostRows(rows);
  }

  lemma InitOfAppend<T>(a: seq<T>, b: seq<T>)
    requires b != []
    ensures Init(a + b) == a + Init(b) && Last(a + b) == Last(b)
  {
    assert (a + b)[..|a + b| - 1] == a + b[..|b| - 1];
  }

  lemma {:induction false} RowsOfAppend(a: seq<Row>, b: seq<Row>, id: int)
    ensures RowsOf(a + b, id) == RowsOf(a, id) + RowsOf(b, id)
  {
    if b == [] {
      assert a + b == a;
    } else {
      InitOfAppend(a, b);
      RowsOfAppend(a, Init(b), id);
    }
  }

  lemma {:induction false} CountriesAppend(a: seq<Row>, b: seq<Row>)
    ensures Countries(a + b) == Countries(a) + Countries(b)
  {
    if b == [] {
      assert a + b == a;
    } else {
      InitOfAppend(a, b);
      CountriesAppend(a, Init(b));
      AppendAssoc(Countries(a), Countries(Init(b)), CountryOf(Last(b)));
    }
  }

  lemma {:induction false} ClientsAppend(a: seq<Row>, b: seq<Row>)
    ensures Clients(a + b) == Clients(a) + Clients(b)
  {
    if b == [] {
      assert a + b == a;
    } else {
      InitOfAppend(a, b);
      ClientsAppend(a, Init(b));
      AppendAssoc(Clients(a), Clients(Init(b)), ClientOf(Last(b)));
    }
  }

  lemma AppendAssoc<T>(x: seq<T>, y: seq<T>, z: seq<T>)
    ensures (x + y) + z == x + (y + z)
  {
  }

  lemma {:induction false} RowsOfAbsent(rows: seq<Row>, id: int)
    requires forall i :: 0 <= i < |rows| ==> rows[i].idTrip != id
    ensures RowsOf(rows, id) == []
  {
    if rows != [] {
      RowsOfAbsent(Init(rows), id);
    }
  }

  lemma SliceAt<T>(s: seq<T>, j: int)
    requires 0 <= j < |s|
    ensures s == s[..j] + ([s[j]] + s[j + 1..])
  {
  }

  /** A trip's rows start with the first row that carries its id. */
  lemma FirstRowLeads(rows: seq<Row>, id: int, j: int)
    requires 0 <= j < |rows| && rows[j].idTrip == id
    requires forall i :: 0 <= i < j ==> rows[i].idTrip != id
    ensures RowsOf(rows, id) != [] && RowsOf(rows, id)[0] == rows[j]
  {
    var before, rest := rows[..j], rows[j + 1..];
    SliceAt(rows, j);
    RowsOfAppend(before, [rows[j]] + rest, id);
    RowsOfAbsent(before, id);
    RowsOfAppend([rows[j]], rest, id);
    assert RowsOf([rows[j]], id) == [rows[j]] by {
      InitOfSnoc([], rows[j]);
    }
  }

  /** A trip's name, description, dates and capacity are those of its first
      row, with each date NULL exactly when that row's column is. */
  lemma FirstRowDecides(rows: seq<Row>, id: int, j: int)
    requires 0 <= j < |rows| && rows[j].idTrip == id
    requires forall i :: 0 <= i < j ==> rows[i].idTrip != id
    ensures id in TripIds(rows)
    ensures var t := Aggregate(rows, id);
      && t.name == rows[j].name
      && t.description == rows[j].description
      && t.maxPeople == rows[j].maxPeople
      && t.dateFrom == ShowDate(rows[j].dateFrom)
      && t.dateTo == ShowDate(rows[j].dateTo)
      && (t.dateFrom.None? <==> rows[j].dateFrom.None?)
      && (t.dateTo.None? <==> rows[j].dateTo.None?)
  {
    FirstRowLeads(rows, id, j);
    RowsOfNonEmpty(rows, id);
    ShowDateRoundTrip(rows[j].dateFrom);
    ShowDateRoundTrip(rows[j].dateTo);
  }

  /** Rows read after a trip's first row never change its scalar fields;
      they only append to its countries and clients. */
  lemma LaterRowsOnlyAppend(rows: seq<Row>, more: seq<Row>, id: int)
    requires id in TripIds(rows)
    ensures id in TripIds(rows + more)
    ensures var before, after := Aggregate(rows, id), Aggregate(rows + more, id);
      && after.(countries := [], clients := []) == before.(countries := [], clients := [])
      && before.countries <= after.countries
      && before.clients <= after.clients
  {
    RowsOfNonEmpty(rows, id);
    RowsOfAppend(rows, more, id);
    RowsOfNonEmpty(rows + more, id);
    CountriesAppend(RowsOf(rows, id), RowsOf(more, id));
    ClientsAppend(RowsOf(rows, id), RowsOf(more, id));
  }

  /** A trip lists a country exactly when one of its rows names it. */
  lemma CountriesFromRows(rows: seq<Row>, id: int, c: string)
    ensures CountryDto(c) in Countries(RowsOf(rows, id)) <==>
      exists j :: 0 <= j < |rows| && rows[j].idTrip == id && rows[j].countryName == Some(c)
  {
    if CountryDto(c) in Countries(RowsOf(rows, id)) {
      var j := CountryWitness(rows, id, c);
    }
    if j :| 0 <= j < |rows| && rows[j].idTrip == id && rows[j].countryName == Some(c) {
      ListedFromRow(rows, id, j);
    }
  }

  /** A trip lists a client exactly when one of its rows carries both of
      that client's names; a row with only one name contributes nothing. */
  lemma ClientsFromRows(rows: seq<Row>, id: int, first: string, last: string)
    ensures ClientDto(first, last) in Clients(RowsOf(rows, id)) <==>
      exists j :: 0 <= j < |rows| && rows[j].idTrip == id
        && rows[j].clientFirstName == Some(first) && rows[j].clientLastName == Some(last)
  {
    if ClientDto(first, last) in Clients(RowsOf(rows, id)) {
      var j := ClientWitness(rows, id, first, last);
    }
    if j :| (0 <= j < |rows| && rows[j].idTrip == id
             && rows[j].clientFirstName == Some(first) && rows[j].clientLastName == Some(last)) {
      ListedFromRow(rows, id, j);
    }
  }

  /** The row that put a country on a trip's list. */
  lemma {:induction false} CountryWitness(rows: seq<Row>, id: int, c: string) returns (j: int)
    requires CountryDto(c) in Countries(RowsOf(rows, id))
    ensures 0 <= j < |rows| && rows[j].idTrip == id && rows[j].countryName == Some(c)
  {
    assert rows != [];
    var init, final := Init(rows), Last(rows);
    CountriesOfSnoc(rows, id);
    PrefixIndices(rows);
    if CountryDto(c) in Countries(RowsOf(init, id)) {
      j := CountryWitness(init, id, c);
    } else {
      assert CountryDto(c) in CountryOf(final) && final.idTrip == id;
      j := |rows| - 1;
    }
  }

  /** The row that put a client on a trip's list. */
  lemma {:induction false} ClientWitness(rows: seq<Row>, id: int, first: string, last: string) returns (j: int)
    requires ClientDto(first, last) in Clients(RowsOf(rows, id))
    ensures 0 <= j < |rows| && rows[j].idTrip == id
    ensures rows[j].clientFirstName == Some(first) && rows[j].clientLastName == Some(last)
  {
    assert rows != [];
    var init, final := Init(rows), Last(rows);
    ClientsOfSnoc(rows, id);
    PrefixIndices(rows);
    if ClientDto(first, last) in Clients(RowsOf(init, id)) {
      j := ClientWitness(init, id, first, last);
    } else {
      assert ClientDto(first, last) in ClientOf(final) && final.idTrip == id;
      j := |rows| - 1;
    }
  }

  /** Every row of a trip puts its country and client on the trip's lists. */
  lemma ListedFromRow(rows: seq<Row>, id: int, j: int)
    requires 0 <= j < |rows| && rows[j].idTrip == id
    ensures forall x :: x in CountryOf(rows[j]) ==> x in Countries(RowsOf(rows, id))
    ensures forall x :: x in ClientOf(rows[j]) ==> x in Clients(RowsOf(rows, id))
  {
    var before, rest := rows[..j], rows[j + 1..];
    SliceAt(rows, j);
    RowsOfAppend(before, [rows[j]] + rest, id);
    RowsOfAppend([rows[j]], rest, id);
    assert RowsOf([rows[j]], id) == [rows[j]] by {
      InitOfSnoc([], rows[j]);
    }
    var mine := RowsOf(before, id);
    CountriesAppend(mine, [rows[j]] + RowsOf(rest, id));
    CountriesAppend([rows[j]], RowsOf(rest, id));
    ClientsAppend(mine, [rows[j]] + RowsOf(rest, id));
    ClientsAppend([rows[j]], RowsOf(rest, id));
    assert Countries([rows[j]]) == CountryOf(rows[j]) && Clients([rows[j]]) == ClientOf(rows[j]) by {
      InitOfSnoc([], rows[j]);
    }
  }

  /** What the last row adds to one trip's countries. */
  lemma CountriesOfSnoc(rows: seq<Row>, id: int)
    requires rows != []
    ensures var last := Last(rows);
      Countries(RowsOf(rows, id)) ==
        Countries(RowsOf(Init(rows), id)) + (if last.idTrip == id then CountryOf(last) else [])
  {
    var mine, last := RowsOf(Init(rows), id), Last(rows);
    CountriesAppend(mine, if last.idTrip == id then [last] else []);
    InitOfSnoc([], last);
  }

  /** What the last row adds to one trip's clients. */
  lemma ClientsOfSnoc(rows: seq<Row>, id: int)
    requires rows != []
    ensures var last := Last(rows);
      Clients(RowsOf(rows, id)) ==
        Clients(RowsOf(Init(rows), id)) + (if last.idTrip == id then ClientOf(last) else [])
  {
    var mine, last := RowsOf(Init(rows), id), Last(rows);
    ClientsAppend(mine, if last.idTrip == id then [last] else []);
    InitOfSnoc([], last);
  }

  /** The rows before the last are the prefix's rows. */
  lemma PrefixIndices(rows: seq<Row>)
    requires rows != []
    ensures forall j :: 0 <= j < |rows| - 1 ==> Init(rows)[j] == rows[j]
    ensures |Init(rows)| == |rows| - 1 && Last(rows) == rows[|rows| - 1]
  {
  }

  /** Each row adds at most one country and at most one client. */
  lemma {:induction false} ListsAtMostRows(rows: seq<Row>)
    ensures |Countries(rows)| <= |rows| && |Clients(rows)| <= |rows|
  {
    if rows != [] {
      ListsAtMostRows(Init(rows));
    }
  }

  /** The join repeats a trip's countries once per client and its clients
      once per country: a trip in two countries with two clients comes back
      as four rows and lists four countries and four clients. */
  lemma JoinFanOut()
    ensures var t := Row(7, "Alps", "", None, None, 10, None, None, None);
      var rows := [
        t.(countryName := Some("AT"), clientFirstName := Some("Anna"), clientLastName := Some("Nowak")),
        t.(countryName := Some("AT"), clientFirstName := Some("Jan"), clientLastName := Some("Kowalski")),
        t.(countryName := Some("CH"), clientFirstName := Some("Anna"), clientLastName := Some("Nowak")),
        t.(countryName := Some("CH"), clientFirstName := Some("Jan"), clientLastName := Some("Kowalski"))];
      && TripIds(rows) == [7]
      && |Aggregate(rows, 7).countries| == 4
      && |Aggregate(rows, 7).clients| == 4
  {
    var t := Row(7, "Alps", "", None, None, 10, None, None, None);
    var r0 := t.(countryName := Some("AT"), clientFirstName := Some("Anna"), clientLastName := Some("Nowak"));
    var r1 := t.(countryName := Some("AT"), clientFirstName := Some("Jan"), clientLastName := Some("Kowalski"));
    var r2 := t.(countryName := Some("CH"), clientFirstName := Some("Anna"), clientLastName := Some("Nowak"));
    var r3 := t.(countryName := Some("CH"), clientFirstName := Some("Jan"), clientLastName := Some("Kowalski"));
    assert [r0] == [] + [r0];
    assert [r0, r1] == [r0] + [r1];
    assert [r0, r1, r2] == [r0, r1] + [r2];
    assert [r0, r1, r2, r3] == [r0, r1, r2] + [r3];
    AggregateSnoc([], r0, 7);
    AggregateSnoc([r0], r1, 7);
    AggregateSnoc([r0, r1], r2, 7);
    AggregateSnoc([r0, r1, r2], r3, 7);
  }
}
