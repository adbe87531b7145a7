/**
 * Paging of the trip listing. The service pages the ROWS of the join
 * (`OFFSET … ROWS FETCH NEXT … ROWS ONLY` at DbService.cs:38) but counts its
 * pages over TRIPS (the `COUNT(*) FROM Trip` at :23-25). A trip has one join
 * row per country–client pair, so its rows can fall on a page of their own
 * or beyond the last page that the page count admits. This module states
 * the row window the query returns, shows a trip losing a country to it, and
 * states paging over trips, which lists every trip whole on exactly the page
 * the page count predicts.
 */
module Listing {
  import opened Wrappers
  import opened Paging
  import opened TripQuery

  function Min(a: int, b: int): int {
    if a <= b then a else b
  }

  /** `OFFSET offset ROWS FETCH NEXT pageSize ROWS ONLY` over an ordered
      result `all`: the window of at most `pageSize` entries starting at
      `offset`. */
  function PageRows<T>(all: seq<T>, offset: nat, pageSize: int): (rows: seq<T>)
    requires pageSize >= 1
    ensures |rows| == if offset < |all| then Min(pageSize, |all| - offset) else 0
    ensures forall j :: 0 <= j < |rows| ==> offset + j < |all| && rows[j] == all[offset + j]
  {
    if offset >= |all| then [] else all[offset .. Min(offset + pageSize, |all|)]
  }

  /** The listing of a whole run of rows: one aggregate per trip, in order of
      each trip's first row. */
  function Fold(rows: seq<Row>): (trips: seq<TripDto>)
    ensures IsFoldOf(trips, rows)
  {
    var ids := TripIds(rows);
    seq(|ids|, i requires 0 <= i < |ids| => Aggregate(rows, ids[i]))
  }

  /** The join result of one trip (id 7) with two countries and no clients. */
  function TwoCountryTrip(): seq<Row> {
    [ Row(7, "Alps", "", None, None, 10, Some("Austria"), None, None),
      Row(7, "Alps", "", None, None, 10, Some("Italy"), None, None) ]
  }

  lemma TwoCountryTripRows()
    ensures TripIds(TwoCountryTrip()) == [7]
    ensures Aggregate(TwoCountryTrip(), 7) ==
      TripDto("Alps", "", None, None, 10, [CountryDto("Austria"), CountryDto("Italy")], [])
  {
    var all := TwoCountryTrip();
    assert Init(all) == all[..1];
    assert Init(all[..1]) == [];
    assert RowsOf(all, 7) == all;
  }

  /** The first one-row page of the two-country trip: the trip with its
      first country. */
  lemma TwoCountryTripFirstPage()
    ensures Fold(PageRows(TwoCountryTrip(), 0, 1)) ==
      [TripDto("Alps", "", None, None, 10, [CountryDto("Austria")], [])]
  {
    var page := PageRows(TwoCountryTrip(), 0, 1);
    assert page == [TwoCountryTrip()[0]];
    assert Init(page) == [];
    assert TripIds(page) == [7];
    assert RowsOf(page, 7) == page;
    assert Countries(page) == [CountryDto("Austria")];
    assert Clients(page) == [];
    var first := Aggregate(page, 7);
    assert first == TripDto("Alps", "", None, None, 10, [CountryDto("Austria")], []);
    assert Fold(page) == [first];
  }

  /** As written: with one row per page, the one trip makes the page count 1,
      and page 1 shows that trip with its first country only. Its second
      country is on no page the page count admits. */
  lemma RowPagingDropsCountry()
    ensures PageCount(|TripIds(TwoCountryTrip())|, 1) == 1
    ensures Fold(PageRows(TwoCountryTrip(), Offset(1, 1), 1)) ==
      [TripDto("Alps", "", None, None, 10, [CountryDto("Austria")], [])]
    ensures Aggregate(TwoCountryTrip(), 7).countries == [CountryDto("Austria"), CountryDto("Italy")]
  {
    TwoCountryTripRows();
    PageCountIsLeast(1, 1, 1);
    OffsetIsProduct(1, 1);
    TwoCountryTripFirstPage();
  }

  /** Paging over trips, as evidently intended: the same window, taken over
      the whole listing instead of over the join rows, so each trip is whole. */
  function TripPage(all: seq<Row>, page: int, pageSize: int): (trips: seq<TripDto>)
    requires page >= 1 && pageSize >= 1
    ensures |trips| <= pageSize
  {
    MulMonotonic(0, page - 1, pageSize);
    PageRows(Fold(all), (page - 1) * pageSize, pageSize)
  }

  lemma MulMonotonic(a: int, b: int, c: nat)
    requires a <= b
    ensures a * c <= b * c
  {
  }

  /** Position `i` of a listing is on page `i / pageSize + 1`, at `i % pageSize`. */
  lemma PagePosition(i: nat, pageSize: int)
    requires pageSize >= 1
    ensures 0 <= i / pageSize && 0 <= (i / pageSize) * pageSize
    ensures (i / pageSize) * pageSize + i % pageSize == i
    ensures 0 <= i % pageSize < pageSize
  {
    MulMonotonic(0, i / pageSize, pageSize);
  }

  /** A page of the page count's range holds every listing position before
      the end. */
  lemma PageWithinCount(count: nat, pageSize: int, i: nat)
    requires pageSize >= 1 && i < count
    ensures i / pageSize + 1 <= PageCount(count, pageSize)
  {
    var n := PageCount(count, pageSize);
    PagePosition(i, pageSize);
    if n < i / pageSize + 1 {
      MulMonotonic(n, i / pageSize, pageSize);
    }
  }

  /** Entry `i % pageSize` of window `i / pageSize + 1` is entry `i`. */
  lemma PageEntry<T>(s: seq<T>, pageSize: int, i: nat)
    requires pageSize >= 1 && i < |s|
    ensures var offset := (i / pageSize + 1 - 1) * pageSize;
      && offset >= 0
      && i % pageSize < |PageRows(s, offset, pageSize)|
      && PageRows(s, offset, pageSize)[i % pageSize] == s[i]
  {
    PagePosition(i, pageSize);
    assert (i / pageSize + 1 - 1) * pageSize == (i / pageSize) * pageSize;
  }

  /** Paging over trips shows every trip of the join, whole, at position
      `i % pageSize` of page `i / pageSize + 1`, and that page is within the
      page count. */
  lemma TripPagingShowsEveryTrip(all: seq<Row>, pageSize: int, i: int)
    requires pageSize >= 1 && 0 <= i < |TripIds(all)|
    ensures var page := i / pageSize + 1;
      && page <= PageCount(|TripIds(all)|, pageSize)
      && i % pageSize < |TripPage(all, page, pageSize)|
      && TripPage(all, page, pageSize)[i % pageSize] == Aggregate(all, TripIds(all)[i])
  {
    PageWithinCount(|TripIds(all)|, pageSize, i);
    var listing := Fold(all);
    PageEntry(listing, pageSize, i);
  }

  /** Paging the two-country trip over trips shows it with both countries. */
  lemma TripPagingKeepsCountries()
    ensures TripPage(TwoCountryTrip(), 1, 1) ==
      [TripDto("Alps", "", None, None, 10, [CountryDto("Austria"), CountryDto("Italy")], [])]
  {
    TwoCountryTripRows();
    TripPagingShowsEveryTrip(TwoCountryTrip(), 1, 0);
  }
}
