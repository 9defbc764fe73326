// The statistics the API answers with: daily rows grouped into years and months, truncated to whole
// kilometres on the way out.

module Stats {
  import opened Ordering
  import opened Clock
  import opened Histories
  import opened DailyStats
  import opened Tables
  import opened Server
  import opened Recalculation
  import opened Conservation

  /** The civil calendar: the year a day belongs to, and its month, January being 1. */
  datatype Calendar = Calendar(year: int -> int, month: int -> int) {
    ghost predicate Valid() {
      forall d :: 1 <= month(d) <= 12
    }
  }

  // int64 of a float: truncation toward zero.
  function KmToInt(km: real): (whole: int)
    ensures km >= 0.0 ==> whole as real <= km < whole as real + 1.0
    ensures km < 0.0 ==> whole as real - 1.0 < km <= whole as real
  {
    if km >= 0.0 then km.Floor else -((-km).Floor)
  }

  function Years(cal: Calendar, rows: seq<DayStat>): set<int> {
    if rows == [] then {} else Years(cal, rows[..|rows| - 1]) + {cal.year(rows[|rows| - 1].day)}
  }

  function YearKm(cal: Calendar, rows: seq<DayStat>, year: int): real {
    if rows == [] then 0.0 else
      var last := rows[|rows| - 1];
      YearKm(cal, rows[..|rows| - 1], year) + if cal.year(last.day) == year then last.stat.km else 0.0
  }

  function MonthKm(cal: Calendar, rows: seq<DayStat>, year: int, month: int): real {
    if rows == [] then 0.0 else
      var last := rows[|rows| - 1];
      MonthKm(cal, rows[..|rows| - 1], year, month)
      + if cal.year(last.day) == year && cal.month(last.day) == month then last.stat.km else 0.0
  }

  datatype Kind = Country | City

  function PlacesOn(row: DayStat, kind: Kind): seq<Place> {
    if kind == Country then row.stat.countries else row.stat.cities
  }

  function Elements(places: seq<Place>): set<Place> {
    set p | p in places
  }

  // The different places of all rows, and of one year's.
  function Places(rows: seq<DayStat>, kind: Kind): set<Place> {
    if rows == [] then {} else Places(rows[..|rows| - 1], kind) + Elements(PlacesOn(rows[|rows| - 1], kind))
  }

  function YearPlaces(cal: Calendar, rows: seq<DayStat>, year: int, kind: Kind): set<Place> {
    if rows == [] then {} else
      var last := rows[|rows| - 1];
      YearPlaces(cal, rows[..|rows| - 1], year, kind)
      + if cal.year(last.day) == year then Elements(PlacesOn(last, kind)) else {}
  }

  // The loops that mark each place of a row as seen.
  method Mark(seen: set<Place>, places: seq<Place>) returns (marked: set<Place>)
    ensures marked == seen + Elements(places)
  {
    marked := seen;
    for i := 0 to |places|
      invariant marked == seen + Elements(places[..i])
    {
      assert Elements(places[..i + 1]) == Elements(places[..i]) + {places[i]};
      marked := marked + {places[i]};
    }
    assert places[..|places|] == places;
  }

  // sortedYearsDesc.
  function Descending(years: set<int>): (r: seq<int>)
    ensures forall y :: y in r <==> y in years
    ensures forall i, j :: 0 <= i < j < |r| ==> r[i] > r[j]
  {
    var up := InOrder(years);
    var down := seq(|up|, i requires 0 <= i < |up| => up[|up| - 1 - i]);
    assert forall i :: 0 <= i < |up| ==> down[|up| - 1 - i] == up[i];
    down
  }

  datatype YearlyStats = YearlyStats(year: int, km: int, countries: nat, cities: nat, monthly: seq<int>)

  datatype Totals =
    Totals(km: int, points: nat, geocoded: nat, countries: nat, cities: nat, yearly: seq<YearlyStats>)

  datatype YearAgg = YearAgg(km: real, countries: set<Place>, cities: set<Place>, months: seq<real>)

  // One year's sums over some rows.
  ghost predicate Sums(cal: Calendar, rows: seq<DayStat>, year: int, agg: YearAgg) {
    && agg.km == YearKm(cal, rows, year)
    && agg.countries == YearPlaces(cal, rows, year, Country)
    && agg.cities == YearPlaces(cal, rows, year, City)
    && |agg.months| == 12
    && forall m :: 0 <= m < 12 ==> agg.months[m] == MonthKm(cal, rows, year, m + 1)
  }

  ghost predicate SumsAll(cal: Calendar, rows: seq<DayStat>, years: map<int, YearAgg>) {
    years.Keys == Years(cal, rows) && forall y :: y in years ==> Sums(cal, rows, y, years[y])
  }

  lemma {:induction false} NothingInNewYear(cal: Calendar, rows: seq<DayStat>, year: int)
    requires year !in Years(cal, rows)
    ensures YearKm(cal, rows, year) == 0.0
    ensures forall kind :: YearPlaces(cal, rows, year, kind) == {}
    ensures forall m :: MonthKm(cal, rows, year, m) == 0.0
  {
    if rows != [] {
      NothingInNewYear(cal, rows[..|rows| - 1], year);
    }
  }

  const NEW_YEAR := YearAgg(0.0, {}, {}, seq(12, _ => 0.0))

  // What one more row makes of a year's sums.
  function Added(cal: Calendar, agg: YearAgg, row: DayStat): YearAgg
    requires cal.Valid() && |agg.months| == 12
  {
    var m := cal.month(row.day) - 1;
    YearAgg(agg.km + row.stat.km, agg.countries + Elements(row.stat.countries), agg.cities + Elements(row.stat.cities),
            agg.months[m := agg.months[m] + row.stat.km])
  }

  lemma AddedSums(cal: Calendar, rows: seq<DayStat>, row: DayStat, years: map<int, YearAgg>, agg: YearAgg)
    requires cal.Valid() && SumsAll(cal, rows, years)
    requires agg == if cal.year(row.day) in years then years[cal.year(row.day)] else NEW_YEAR
    ensures |agg.months| == 12
    ensures SumsAll(cal, rows + [row], years[cal.year(row.day) := Added(cal, agg, row)])
  {
    var year := cal.year(row.day);
    if year !in years {
      NothingInNewYear(cal, rows, year);
    }
    assert Sums(cal, rows, year, agg);
    var after := years[year := Added(cal, agg, row)];
    assert (rows + [row])[..|rows|] == rows;
    forall y | y in after
      ensures Sums(cal, rows + [row], y, after[y])
    {
      if y == year {
        RowCounts(cal, rows, row, agg);
      } else {
        RowDoesNotCount(cal, rows, row, y, years[y]);
      }
    }
  }

  lemma RowCounts(cal: Calendar, rows: seq<DayStat>, row: DayStat, agg: YearAgg)
    requires cal.Valid() && Sums(cal, rows, cal.year(row.day), agg)
    ensures Sums(cal, rows + [row], cal.year(row.day), Added(cal, agg, row))
  {
    assert (rows + [row])[..|rows|] == rows;
  }

  lemma RowDoesNotCount(cal: Calendar, rows: seq<DayStat>, row: DayStat, year: int, agg: YearAgg)
    requires Sums(cal, rows, year, agg) && cal.year(row.day) != year
    ensures Sums(cal, rows + [row], year, agg)
  {
    assert (rows + [row])[..|rows|] == rows;
  }

  // The answer's entry for a year.
  ghost predicate Reports(cal: Calendar, rows: seq<DayStat>, entry: YearlyStats) {
    && entry.km == KmToInt(YearKm(cal, rows, entry.year))
    && entry.countries == |YearPlaces(cal, rows, entry.year, Country)|
    && entry.cities == |YearPlaces(cal, rows, entry.year, City)|
    && |entry.monthly| == 12
    && forall m :: 0 <= m < 12 ==> entry.monthly[m] == KmToInt(MonthKm(cal, rows, entry.year, m + 1))
  }

  ghost predicate ReportsUpTo(cal: Calendar, rows: seq<DayStat>, order: seq<int>, n: nat, yearly: seq<YearlyStats>) {
    && |yearly| == n <= |order|
    && forall i :: 0 <= i < n ==> yearly[i].year == order[i] && Reports(cal, rows, yearly[i])
  }

  // One entry per year that has a row, the latest first.
  ghost predicate ReportsAll(cal: Calendar, rows: seq<DayStat>, yearly: seq<YearlyStats>) {
    var order := Descending(Years(cal, rows));
    ReportsUpTo(cal, rows, order, |order|, yearly)
  }

  function Entry(year: int, agg: YearAgg): YearlyStats
    requires |agg.months| == 12
  {
    YearlyStats(year, KmToInt(agg.km), |agg.countries|, |agg.cities|,
                seq(12, m requires 0 <= m < 12 => KmToInt(agg.months[m])))
  }

  lemma EntryReports(cal: Calendar, rows: seq<DayStat>, order: seq<int>, yearly: seq<YearlyStats>, agg: YearAgg)
    requires |yearly| < |order| && ReportsUpTo(cal, rows, order, |yearly|, yearly)
    requires Sums(cal, rows, order[|yearly|], agg)
    ensures ReportsUpTo(cal, rows, order, |yearly| + 1, yearly + [Entry(order[|yearly|], agg)])
  {
    assert Reports(cal, rows, Entry(order[|yearly|], agg));
  }

  // The running totals over some rows.
  ghost predicate Running(rows: seq<DayStat>, points: nat, geocoded: nat, km: real, countries: set<Place>,
                          cities: set<Place>) {
    && points == SumPoints(rows) && geocoded == SumGeocoded(rows) && km == SumKm(rows)
    && countries == Places(rows, Country) && cities == Places(rows, City)
  }

  lemma RunningMore(rows: seq<DayStat>, row: DayStat, points: nat, geocoded: nat, km: real, countries: set<Place>,
                    cities: set<Place>)
    requires Running(rows, points, geocoded, km, countries, cities)
    ensures Running(rows + [row], points + row.stat.points, geocoded + row.stat.geocoded, km + row.stat.km,
                    countries + Elements(row.stat.countries), cities + Elements(row.stat.cities))
  {
    assert (rows + [row])[..|rows|] == rows;
  }

  // A round of the first loop of statsToDTO, as far as the row's year goes.
  method AddToYear(cal: Calendar, ghost rows: seq<DayStat>, row: DayStat, years: map<int, YearAgg>)
      returns (added: map<int, YearAgg>)
    requires cal.Valid() && SumsAll(cal, rows, years)
    ensures SumsAll(cal, rows + [row], added)
  {
    var year := cal.year(row.day);
    var agg := if year in years then years[year] else NEW_YEAR;
    AddedSums(cal, rows, row, years, agg);
    var countries := Mark(agg.countries, row.stat.countries);
    var cities := Mark(agg.cities, row.stat.cities);
    var m := cal.month(row.day) - 1;
    agg := YearAgg(agg.km + row.stat.km, countries, cities, agg.months[m := agg.months[m] + row.stat.km]);
    added := years[year := agg];
  }

  // The last loop of statsToDTO: one entry per year, the latest first.
  method Report(cal: Calendar, rows: seq<DayStat>, years: map<int, YearAgg>) returns (yearly: seq<YearlyStats>)
    requires SumsAll(cal, rows, years)
    ensures ReportsAll(cal, rows, yearly)
  {
    var order := Descending(years.Keys);
    yearly := [];
    for i := 0 to |order|
      invariant ReportsUpTo(cal, rows, order, i, yearly)
    {
      assert order[i] in order;
      EntryReports(cal, rows, order, yearly, years[order[i]]);
      yearly := yearly + [Entry(order[i], years[order[i]])];
    }
  }

  // statsToDTO.
  method StatsToDTO(cal: Calendar, rows: seq<DayStat>) returns (totals: Totals)
    requires cal.Valid()
    ensures totals.points == SumPoints(rows) && totals.geocoded == SumGeocoded(rows)
    ensures totals.km == KmToInt(SumKm(rows))
    ensures totals.countries == |Places(rows, Country)| && totals.cities == |Places(rows, City)|
    ensures ReportsAll(cal, rows, totals.yearly)
  {
    var points: nat, geocoded: nat, km: real := 0, 0, 0.0;
    var allCountries: set<Place>, allCities: set<Place> := {}, {};
    var years: map<int, YearAgg> := map[];
    for i := 0 to |rows|
      invariant Running(rows[..i], points, geocoded, km, allCountries, allCities)
      invariant SumsAll(cal, rows[..i], years)
    {
      var row := rows[i];
      CutAt(rows, i);
      RunningMore(rows[..i], row, points, geocoded, km, allCountries, allCities);
      points, geocoded, km := points + row.stat.points, geocoded + row.stat.geocoded, km + row.stat.km;
      allCountries := Mark(allCountries, row.stat.countries);
      allCities := Mark(allCities, row.stat.cities);
      years := AddToYear(cal, rows[..i], row, years);
    }
    assert rows[..|rows|] == rows;
    var yearly := Report(cal, rows, years);
    totals := Totals(KmToInt(km), points, geocoded, |allCountries|, |allCities|, yearly);
  }

  function SumReals(s: seq<real>): real {
    if s == [] then 0.0 else SumReals(s[..|s| - 1]) + s[|s| - 1]
  }

  function SumInts(s: seq<int>): int {
    if s == [] then 0 else SumInts(s[..|s| - 1]) + s[|s| - 1]
  }

  // Truncating each part of a sum loses less than one whole for every part but one.
  lemma {:induction false} TruncationLoses(parts: seq<real>, whole: seq<int>)
    requires |parts| == |whole|
    requires forall i :: 0 <= i < |parts| ==> parts[i] >= 0.0 && whole[i] == KmToInt(parts[i])
    ensures SumReals(parts) >= 0.0
    ensures 0 <= KmToInt(SumReals(parts)) - SumInts(whole) <= if parts == [] then 0 else |parts| - 1
  {
    if |parts| > 0 {
      var n := |parts| - 1;
      TruncationLoses(parts[..n], whole[..n]);
      if n == 0 {
        assert SumReals(parts[..0]) == 0.0;
      }
    }
  }

  function MonthsOf(cal: Calendar, rows: seq<DayStat>, year: int): (parts: seq<real>)
    ensures |parts| == 12 && forall m :: 0 <= m < 12 ==> parts[m] == MonthKm(cal, rows, year, m + 1)
  {
    seq(12, m requires 0 <= m < 12 => MonthKm(cal, rows, year, m + 1))
  }

  lemma {:induction false} SumOfZeros(s: seq<real>)
    requires forall i :: 0 <= i < |s| ==> s[i] == 0.0
    ensures SumReals(s) == 0.0
  {
    if s != [] {
      SumOfZeros(s[..|s| - 1]);
    }
  }

  lemma {:induction false} SumAfterAdding(s: seq<real>, i: nat, x: real)
    requires i < |s|
    ensures SumReals(s[i := s[i] + x]) == SumReals(s) + x
  {
    var n := |s| - 1;
    var after := s[i := s[i] + x];
    if i < n {
      SumAfterAdding(s[..n], i, x);
      assert after[..n] == s[..n][i := s[..n][i] + x];
    } else {
      assert after[..n] == s[..n];
    }
  }

  // A year is its twelve months.
  lemma {:induction false} YearIsItsMonths(cal: Calendar, rows: seq<DayStat>, year: int)
    requires cal.Valid()
    ensures YearKm(cal, rows, year) == SumReals(MonthsOf(cal, rows, year))
  {
    var parts := MonthsOf(cal, rows, year);
    if rows == [] {
      SumOfZeros(parts);
    } else {
      var init, last := rows[..|rows| - 1], rows[|rows| - 1];
      var before := MonthsOf(cal, init, year);
      YearIsItsMonths(cal, init, year);
      if cal.year(last.day) == year {
        var m := cal.month(last.day) - 1;
        assert parts == before[m := before[m] + last.stat.km];
        SumAfterAdding(before, m, last.stat.km);
      } else {
        assert parts == before;
      }
    }
  }

  function YearsOf(cal: Calendar, rows: seq<DayStat>, years: seq<int>): (parts: seq<real>)
    ensures |parts| == |years| && forall i :: 0 <= i < |years| ==> parts[i] == YearKm(cal, rows, years[i])
  {
    seq(|years|, i requires 0 <= i < |years| => YearKm(cal, rows, years[i]))
  }

  // One more row adds its distance to exactly the month it is in.
  lemma MonthGrows(cal: Calendar, rows: seq<DayStat>, row: DayStat, year: int, month: int)
    ensures MonthKm(cal, [], year, month) == 0.0
    ensures MonthKm(cal, rows + [row], year, month)
            == MonthKm(cal, rows, year, month) + if InMonth(cal, row.day, year, month) then row.stat.km else 0.0
  {
    assert (rows + [row])[..|rows|] == rows;
  }

  // And to exactly the year.
  lemma YearGrows(cal: Calendar, rows: seq<DayStat>, row: DayStat, year: int)
    ensures YearKm(cal, [], year) == 0.0
    ensures YearKm(cal, rows + [row], year)
            == YearKm(cal, rows, year) + if cal.year(row.day) == year then row.stat.km else 0.0
  {
    assert (rows + [row])[..|rows|] == rows;
  }

  lemma LastYearAdds(cal: Calendar, rows: seq<DayStat>, years: seq<int>)
    requires years != []
    ensures var last := |years| - 1;
            SumReals(YearsOf(cal, rows, years))
            == SumReals(YearsOf(cal, rows, years[..last])) + YearKm(cal, rows, years[last])
  {
    assert YearsOf(cal, rows, years)[..|years| - 1] == YearsOf(cal, rows, years[..|years| - 1]);
  }

  // One more row adds its distance to exactly one of the years.
  lemma {:induction false} OneYearGrows(cal: Calendar, rows: seq<DayStat>, row: DayStat, years: seq<int>)
    requires forall i, j :: 0 <= i < j < |years| ==> years[i] != years[j]
    ensures SumReals(YearsOf(cal, rows + [row], years))
            == SumReals(YearsOf(cal, rows, years)) + if cal.year(row.day) in years then row.stat.km else 0.0
  {
    if years != [] {
      var init, last := years[..|years| - 1], years[|years| - 1];
      OneYearGrows(cal, rows, row, init);
      YearGrows(cal, rows, row, last);
      LastYearAdds(cal, rows, years);
      LastYearAdds(cal, rows + [row], years);
      assert years == init + [last];
    }
  }

  lemma {:induction false} NoRows(cal: Calendar, years: seq<int>)
    ensures SumReals(YearsOf(cal, [], years)) == 0.0
  {
    if years != [] {
      NoRows(cal, years[..|years| - 1]);
      assert YearsOf(cal, [], years)[..|years| - 1] == YearsOf(cal, [], years[..|years| - 1]);
    }
  }

  // All of the distance is in the years that have rows.
  lemma {:induction false} TotalIsItsYears(cal: Calendar, rows: seq<DayStat>, years: seq<int>)
    requires forall i, j :: 0 <= i < j < |years| ==> years[i] != years[j]
    requires Years(cal, rows) <= set y | y in years
    ensures SumKm(rows) == SumReals(YearsOf(cal, rows, years))
  {
    if rows == [] {
      NoRows(cal, years);
    } else {
      var init, last := rows[..|rows| - 1], rows[|rows| - 1];
      assert rows == init + [last];
      TotalIsItsYears(cal, init, years);
      OneYearGrows(cal, init, last, years);
      assert cal.year(last.day) in Years(cal, rows);
    }
  }

  lemma {:induction false} MonthsNonNegative(cal: Calendar, rows: seq<DayStat>, year: int, month: int)
    requires forall i :: 0 <= i < |rows| ==> rows[i].stat.km >= 0.0
    ensures MonthKm(cal, rows, year, month) >= 0.0 && YearKm(cal, rows, year) >= 0.0
  {
    if rows != [] {
      MonthsNonNegative(cal, rows[..|rows| - 1], year, month);
    }
  }

  // All of a year's rows lie in one month.
  ghost predicate OnlyIn(cal: Calendar, rows: seq<DayStat>, year: int, month: int) {
    forall i :: 0 <= i < |rows| && cal.year(rows[i].day) == year ==> InMonth(cal, rows[i].day, year, month)
  }

  lemma {:induction false} OneMonthHasAll(cal: Calendar, rows: seq<DayStat>, year: int, month: int, other: int)
    requires OnlyIn(cal, rows, year, month)
    ensures MonthKm(cal, rows, year, other) == if other == month then YearKm(cal, rows, year) else 0.0
  {
    if rows == [] {
      MonthGrows(cal, [], DayStat(0, DailyStat(0, 0.0, 0, [], [])), year, other);
    } else {
      var init, last := rows[..|rows| - 1], rows[|rows| - 1];
      assert rows == init + [last];
      assert forall i :: 0 <= i < |init| ==> init[i] == rows[i];
      OneMonthHasAll(cal, init, year, month, other);
      MonthGrows(cal, init, last, year, other);
      YearGrows(cal, init, last, year);
    }
  }

  // In the answer: a year whose rows all lie in one month reports its whole distance in that month and
  // nothing in the other eleven.
  lemma OneMonthReported(cal: Calendar, rows: seq<DayStat>, entry: YearlyStats, month: int)
    requires Reports(cal, rows, entry) && 1 <= month <= 12 && OnlyIn(cal, rows, entry.year, month)
    ensures |entry.monthly| == 12
    ensures forall m :: 0 <= m < 12 ==> entry.monthly[m] == if m + 1 == month then entry.km else 0
  {
    forall m | 0 <= m < 12
      ensures entry.monthly[m] == if m + 1 == month then entry.km else 0
    {
      OneMonthHasAll(cal, rows, entry.year, month, m + 1);
    }
  }

  // Countries are counted from the rows' countries and cities from their cities.
  lemma {:induction false} PlacesOfRows(rows: seq<DayStat>, p: Place)
    ensures p in Places(rows, Country) <==> exists i :: 0 <= i < |rows| && p in rows[i].stat.countries
    ensures p in Places(rows, City) <==> exists i :: 0 <= i < |rows| && p in rows[i].stat.cities
  {
    if rows != [] {
      PlacesOfRows(rows[..|rows| - 1], p);
      assert forall i :: 0 <= i < |rows| - 1 ==> rows[..|rows| - 1][i] == rows[i];
    }
  }

  // And a year's from its own rows.
  lemma {:induction false} YearPlacesOfRows(cal: Calendar, rows: seq<DayStat>, year: int, p: Place)
    ensures p in YearPlaces(cal, rows, year, Country) <==>
            exists i :: 0 <= i < |rows| && cal.year(rows[i].day) == year && p in rows[i].stat.countries
    ensures p in YearPlaces(cal, rows, year, City) <==>
            exists i :: 0 <= i < |rows| && cal.year(rows[i].day) == year && p in rows[i].stat.cities
  {
    if rows != [] {
      YearPlacesOfRows(cal, rows[..|rows| - 1], year, p);
      assert forall i :: 0 <= i < |rows| - 1 ==> rows[..|rows| - 1][i] == rows[i];
    }
  }

  // Each total is the sum over the rows, one row's share being its own figure.
  lemma {:induction false} TotalsAdd(a: seq<DayStat>, b: seq<DayStat>)
    ensures SumPoints(a + b) == SumPoints(a) + SumPoints(b)
    ensures SumGeocoded(a + b) == SumGeocoded(a) + SumGeocoded(b)
    ensures SumKm(a + b) == SumKm(a) + SumKm(b)
  {
    if b == [] {
      assert a + b == a;
    } else {
      assert (a + b)[..|a + b| - 1] == a + b[..|b| - 1];
      TotalsAdd(a, b[..|b| - 1]);
    }
  }

  lemma TotalsOfOne(row: DayStat)
    ensures SumPoints([row]) == row.stat.points
    ensures SumGeocoded([row]) == row.stat.geocoded
    ensures SumKm([row]) == row.stat.km
  {
    assert [row][..0] == [];
  }

  // The years answered are exactly those with a row.
  lemma {:induction false} YearsHaveRows(cal: Calendar, rows: seq<DayStat>, year: int)
    ensures year in Years(cal, rows) <==> exists i :: 0 <= i < |rows| && cal.year(rows[i].day) == year
  {
    if rows != [] {
      var init, last := rows[..|rows| - 1], rows[|rows| - 1];
      YearsHaveRows(cal, init, year);
      assert forall i :: 0 <= i < |init| ==> init[i] == rows[i];
    }
  }

  function YearlyKm(yearly: seq<YearlyStats>): (whole: seq<int>)
    ensures |whole| == |yearly| && forall i :: 0 <= i < |yearly| ==> whole[i] == yearly[i].km
  {
    seq(|yearly|, i requires 0 <= i < |yearly| => yearly[i].km)
  }

  // A year's figure exceeds the sum of its months' by at most eleven kilometres, never falls short.
  lemma MonthsLoseAtMostEleven(cal: Calendar, rows: seq<DayStat>, entry: YearlyStats)
    requires cal.Valid() && Reports(cal, rows, entry)
    requires forall i :: 0 <= i < |rows| ==> rows[i].stat.km >= 0.0
    ensures 0 <= entry.km - SumInts(entry.monthly) <= 11
  {
    var parts := MonthsOf(cal, rows, entry.year);
    forall i | 0 <= i < 12
      ensures parts[i] >= 0.0 && entry.monthly[i] == KmToInt(parts[i])
    {
      MonthsNonNegative(cal, rows, entry.year, i + 1);
    }
    YearIsItsMonths(cal, rows, entry.year);
    TruncationLoses(parts, entry.monthly);
  }

  // The grand total exceeds the sum of the years' figures by less than one kilometre a year but one.
  lemma YearsLoseLessThanTheirNumber(cal: Calendar, rows: seq<DayStat>, yearly: seq<YearlyStats>)
    requires ReportsAll(cal, rows, yearly)
    requires forall i :: 0 <= i < |rows| ==> rows[i].stat.km >= 0.0
    ensures 0 <= KmToInt(SumKm(rows)) - SumInts(YearlyKm(yearly)) <= if yearly == [] then 0 else |yearly| - 1
  {
    var years := Descending(Years(cal, rows));
    var parts := YearsOf(cal, rows, years);
    forall i | 0 <= i < |parts|
      ensures parts[i] >= 0.0 && YearlyKm(yearly)[i] == KmToInt(parts[i])
    {
      MonthsNonNegative(cal, rows, years[i], 1);
      assert Reports(cal, rows, yearly[i]);
    }
    TotalIsItsYears(cal, rows, years);
    TruncationLoses(parts, YearlyKm(yearly));
  }

  // time.Month's String.
  function MonthString(month: int): string {
    match month
    case 1 => "January"
    case 2 => "February"
    case 3 => "March"
    case 4 => "April"
    case 5 => "May"
    case 6 => "June"
    case 7 => "July"
    case 8 => "August"
    case 9 => "September"
    case 10 => "October"
    case 11 => "November"
    case _ => "December"
  }

  // Its first three letters.
  function Abbreviated(month: int): (s: string)
    ensures |s| == 3
  {
    MonthString(month)[..3]
  }

  datatype TrackedYear = TrackedYear(year: int, months: seq<string>)

  predicate InMonth(cal: Calendar, day: int, year: int, month: int) {
    cal.year(day) == year && cal.month(day) == month
  }

  ghost predicate HasRowIn(cal: Calendar, rows: seq<DayStat>, year: int, month: int) {
    exists i :: 0 <= i < |rows| && InMonth(cal, rows[i].day, year, month)
  }

  // The months of a year that have a row.
  function MonthsWith(cal: Calendar, rows: seq<DayStat>, year: int): set<int> {
    if rows == [] then {} else
      var last := rows[|rows| - 1];
      MonthsWith(cal, rows[..|rows| - 1], year) + if cal.year(last.day) == year then {cal.month(last.day)} else {}
  }

  lemma {:induction false} MonthsWithRows(cal: Calendar, rows: seq<DayStat>, year: int, month: int)
    ensures month in MonthsWith(cal, rows, year) <==> HasRowIn(cal, rows, year, month)
  {
    if rows != [] {
      var init, last := rows[..|rows| - 1], rows[|rows| - 1];
      MonthsWithRows(cal, init, year, month);
      if i :| 0 <= i < |init| && InMonth(cal, init[i].day, year, month) {
        assert InMonth(cal, rows[i].day, year, month);
      }
      if i :| 0 <= i < |rows| && InMonth(cal, rows[i].day, year, month) {
        assert i < |init| ==> InMonth(cal, init[i].day, year, month);
      }
    }
  }

  // The names of the months seen, of the first n of the year, in calendar order.
  function MonthNames(seen: set<int>, n: nat): seq<string>
    requires n <= 12
  {
    if n == 0 then [] else MonthNames(seen, n - 1) + if n in seen then [Abbreviated(n)] else []
  }

  lemma NamesDiffer(a: int, b: int)
    requires 1 <= a <= 12 && 1 <= b <= 12 && Abbreviated(a) == Abbreviated(b)
    ensures a == b
  {
    var first, second := Abbreviated(a), Abbreviated(b);
    assert first[0] == second[0] && first[1] == second[1] && first[2] == second[2];
  }

  lemma {:induction false} NamedIffSeen(seen: set<int>, n: nat, month: int)
    requires n <= 12 && 1 <= month <= 12
    ensures Abbreviated(month) in MonthNames(seen, n) <==> month <= n && month in seen
  {
    if n > 0 {
      NamedIffSeen(seen, n - 1, month);
      if Abbreviated(month) == Abbreviated(n) {
        NamesDiffer(month, n);
      }
    }
  }

  // Which name is which month's.
  lemma MonthsAreNamed()
    ensures Abbreviated(1) == "Jan" && Abbreviated(2) == "Feb" && Abbreviated(3) == "Mar"
    ensures Abbreviated(4) == "Apr" && Abbreviated(5) == "May" && Abbreviated(6) == "Jun"
    ensures Abbreviated(7) == "Jul" && Abbreviated(8) == "Aug" && Abbreviated(9) == "Sep"
    ensures Abbreviated(10) == "Oct" && Abbreviated(11) == "Nov" && Abbreviated(12) == "Dec"
  {
  }

  // Names of months, in the order of the months.
  ghost predicate NamesOf(months: seq<int>, names: seq<string>) {
    && |names| == |months|
    && forall i :: 0 <= i < |months| ==> 1 <= months[i] <= 12 && names[i] == Abbreviated(months[i])
  }

  ghost predicate MonthsUpTo(seen: set<int>, n: int, months: seq<int>) {
    Increasing(months) && forall m :: m in months <==> m in seen && 1 <= m <= n
  }

  lemma MonthsOneMore(seen: set<int>, n: nat, months: seq<int>)
    requires MonthsUpTo(seen, n, months)
    ensures MonthsUpTo(seen, n + 1, if n + 1 in seen then months + [n + 1] else months)
  {
    assert forall i :: 0 <= i < |months| ==> months[i] in months;
  }

  lemma NamedOneMore(months: seq<int>, names: seq<string>, n: int)
    requires NamesOf(months, names) && 1 <= n <= 12
    ensures NamesOf(months + [n], names + [Abbreviated(n)])
  {
  }

  // The names of the first n months seen are the names of these months.
  ghost predicate CalendarOrder(seen: set<int>, n: nat, months: seq<int>)
    requires n <= 12
  {
    MonthsUpTo(seen, n, months) && NamesOf(months, MonthNames(seen, n))
  }

  lemma CalendarOrderStep(seen: set<int>, n: nat, months: seq<int>)
    requires n < 12 && CalendarOrder(seen, n, months)
    ensures CalendarOrder(seen, n + 1, if n + 1 in seen then months + [n + 1] else months)
  {
    MonthsOneMore(seen, n, months);
    NamedOneMore(months, MonthNames(seen, n), n + 1);
  }

  // The names stand in calendar order, and each once: which months they are is increasing.
  lemma {:induction false} NamesInCalendarOrder(seen: set<int>, n: nat) returns (months: seq<int>)
    requires n <= 12
    ensures CalendarOrder(seen, n, months)
  {
    if n == 0 {
      months := [];
    } else {
      var before := NamesInCalendarOrder(seen, n - 1);
      CalendarOrderStep(seen, n - 1, before);
      months := if n in seen then before + [n] else before;
    }
  }

  // What the first loop of trackedMonthsToDTO has recorded of these rows.
  ghost predicate Records(cal: Calendar, rows: seq<DayStat>, months: map<int, set<int>>) {
    && months.Keys == Years(cal, rows)
    && forall y :: y in months ==> months[y] == MonthsWith(cal, rows, y)
  }

  lemma {:induction false} NoMonthsInNewYear(cal: Calendar, rows: seq<DayStat>, year: int)
    requires year !in Years(cal, rows)
    ensures MonthsWith(cal, rows, year) == {}
  {
    if rows != [] {
      NoMonthsInNewYear(cal, rows[..|rows| - 1], year);
    }
  }

  lemma RecordsMore(cal: Calendar, rows: seq<DayStat>, row: DayStat, months: map<int, set<int>>)
    requires Records(cal, rows, months)
    ensures var year := cal.year(row.day);
            var before := if year in months then months[year] else {};
            Records(cal, rows + [row], months[year := before + {cal.month(row.day)}])
  {
    assert (rows + [row])[..|rows|] == rows;
    if cal.year(row.day) !in months {
      NoMonthsInNewYear(cal, rows, cal.year(row.day));
    }
  }

  // A year's entry: its months that have a row, in calendar order.
  ghost predicate ListsYear(cal: Calendar, rows: seq<DayStat>, entry: TrackedYear) {
    entry.months == MonthNames(MonthsWith(cal, rows, entry.year), 12)
  }

  ghost predicate ListsUpTo(cal: Calendar, rows: seq<DayStat>, order: seq<int>, n: nat, tracked: seq<TrackedYear>) {
    && |tracked| == n <= |order|
    && forall i :: 0 <= i < n ==> tracked[i].year == order[i] && ListsYear(cal, rows, tracked[i])
  }

  ghost predicate ListsAll(cal: Calendar, rows: seq<DayStat>, tracked: seq<TrackedYear>) {
    var order := Descending(Years(cal, rows));
    ListsUpTo(cal, rows, order, |order|, tracked)
  }

  method MonthList(seen: set<int>) returns (list: seq<string>)
    ensures list == MonthNames(seen, 12)
  {
    list := [];
    for month := 1 to 13
      invariant list == MonthNames(seen, month - 1)
    {
      if month in seen {
        list := list + [Abbreviated(month)];
      }
    }
  }

  lemma ListsMore(cal: Calendar, rows: seq<DayStat>, order: seq<int>, tracked: seq<TrackedYear>, list: seq<string>)
    requires |tracked| < |order| && ListsUpTo(cal, rows, order, |tracked|, tracked)
    requires ListsYear(cal, rows, TrackedYear(order[|tracked|], list))
    ensures ListsUpTo(cal, rows, order, |tracked| + 1, tracked + [TrackedYear(order[|tracked|], list)])
  {
  }

  // trackedMonthsToDTO.
  method TrackedMonthsToDTO(cal: Calendar, rows: seq<DayStat>) returns (tracked: seq<TrackedYear>)
    ensures ListsAll(cal, rows, tracked)
  {
    var months: map<int, set<int>> := map[];
    for i := 0 to |rows|
      invariant Records(cal, rows[..i], months)
    {
      CutAt(rows, i);
      RecordsMore(cal, rows[..i], rows[i], months);
      var year := cal.year(rows[i].day);
      if year !in months {
        months := months[year := {}];
      }
      months := months[year := months[year] + {cal.month(rows[i].day)}];
    }
    assert rows[..|rows|] == rows;
    var order := Descending(months.Keys);
    tracked := [];
    for i := 0 to |order|
      invariant ListsUpTo(cal, rows, order, i, tracked)
    {
      assert order[i] in order;
      var list := MonthList(months[order[i]]);
      ListsMore(cal, rows, order, tracked, list);
      tracked := tracked + [TrackedYear(order[i], list)];
    }
  }

  // The listing names this month of this year.
  ghost predicate Names(tracked: seq<TrackedYear>, year: int, month: nat)
    requires 1 <= month <= 12
  {
    exists i :: 0 <= i < |tracked| && tracked[i].year == year && Abbreviated(month) in tracked[i].months
  }

  lemma {:induction false} RowYearIsAYear(cal: Calendar, rows: seq<DayStat>, i: nat)
    requires i < |rows|
    ensures cal.year(rows[i].day) in Years(cal, rows)
  {
    if i < |rows| - 1 {
      RowYearIsAYear(cal, rows[..|rows| - 1], i);
    }
  }

  lemma NamesWhatHasRows(cal: Calendar, rows: seq<DayStat>, tracked: seq<TrackedYear>, year: int, month: nat)
    requires 1 <= month <= 12 && ListsAll(cal, rows, tracked)
    ensures Names(tracked, year, month) <==> HasRowIn(cal, rows, year, month)
  {
    var order := Descending(Years(cal, rows));
    NamedIffSeen(MonthsWith(cal, rows, year), 12, month);
    MonthsWithRows(cal, rows, year, month);
    if HasRowIn(cal, rows, year, month) {
      var i :| 0 <= i < |rows| && InMonth(cal, rows[i].day, year, month);
      RowYearIsAYear(cal, rows, i);
      assert year in order;
      var j :| 0 <= j < |order| && order[j] == year;
      assert ListsYear(cal, rows, tracked[j]);
    }
    if Names(tracked, year, month) {
      var j :| 0 <= j < |tracked| && tracked[j].year == year && Abbreviated(month) in tracked[j].months;
      assert ListsYear(cal, rows, tracked[j]);
    }
  }

  ghost predicate HasPointIn(cal: Calendar, zone: Zone, h: seq<Point>, year: int, month: int) {
    exists i :: 0 <= i < |h| && InMonth(cal, zone.dayOf(h[i].ts), year, month)
  }

  lemma RowsInMonth(cal: Calendar, cfg: Config, s: Tables, user: int, year: int, month: int)
    requires cfg.zone.Valid() && WellFormed(s) && UserDailyCorrect(cfg, s, user)
    ensures HasRowIn(cal, AllRows(s.daily, user), year, month)
            <==> exists d :: d in InOrder(DaysStored(s.daily, user)) && InMonth(cal, d, year, month)
  {
    var rows, days := AllRows(s.daily, user), InOrder(DaysStored(s.daily, user));
    if HasRowIn(cal, rows, year, month) {
      var i :| 0 <= i < |rows| && InMonth(cal, rows[i].day, year, month);
      assert days[i] in days && InMonth(cal, days[i], year, month);
    }
    if d :| d in days && InMonth(cal, d, year, month) {
      var i :| 0 <= i < |days| && days[i] == d;
      assert InMonth(cal, rows[i].day, year, month);
    }
  }

  // From points to answer: when a user's daily rows are right, the months listed are exactly those
  // holding one of the user's points.
  lemma TrackedMonthsHoldPoints(cal: Calendar, cfg: Config, s: Tables, user: int, tracked: seq<TrackedYear>,
                                year: int, month: nat)
    requires 1 <= month <= 12
    requires cfg.zone.Valid() && WellFormed(s) && UserDailyCorrect(cfg, s, user)
    requires ListsAll(cal, AllRows(s.daily, user), tracked)
    ensures Names(tracked, year, month) <==> HasPointIn(cal, cfg.zone, History(s.points, user), year, month)
  {
    var h, days := History(s.points, user), InOrder(DaysStored(s.daily, user));
    NamesWhatHasRows(cal, AllRows(s.daily, user), tracked, year, month);
    RowsInMonth(cal, cfg, s, user, year, month);
    forall d
      ensures d in days <==> HasPointOn(cfg, h, d)
    {
      StoredDaysAreDaysWithPoints(cfg, s, user, d);
    }
    if HasPointIn(cal, cfg.zone, h, year, month) {
      var p :| 0 <= p < |h| && InMonth(cal, cfg.zone.dayOf(h[p].ts), year, month);
      assert HasPointOn(cfg, h, cfg.zone.dayOf(h[p].ts));
    }
  }

  lemma {:induction false} LaggedKmNonNegative(cfg: Config, h: seq<Point>, from: int, before: int, n: nat)
    requires n <= |h| && forall a, b :: cfg.distance(a, b) >= 0.0
    ensures LaggedKm(cfg, h, from, before, n) >= 0.0
  {
    if n > 0 {
      LaggedKmNonNegative(cfg, h, from, before, n - 1);
    }
  }

  // From points to answer: the points counted are the points stored, the distance is the distance
  // travelled cut down to whole kilometres, and what grouping by year loses of it is bounded.
  lemma StatsOfPoints(cal: Calendar, cfg: Config, s: Tables, user: int, totals: Totals)
    requires cal.Valid() && cfg.zone.Valid() && (forall a, b :: cfg.distance(a, b) >= 0.0)
    requires WellFormed(s) && UserDailyCorrect(cfg, s, user)
    requires totals.points == SumPoints(AllRows(s.daily, user)) && totals.km == KmToInt(SumKm(AllRows(s.daily, user)))
    requires ReportsAll(cal, AllRows(s.daily, user), totals.yearly)
    ensures totals.points == |History(s.points, user)|
    ensures totals.km == KmToInt(TravelKm(cfg, History(s.points, user), |History(s.points, user)|))
    ensures 0 <= totals.km - SumInts(YearlyKm(totals.yearly)) <= if totals.yearly == [] then 0 else |totals.yearly| - 1
    ensures forall i :: 0 <= i < |totals.yearly| ==> 0 <= totals.yearly[i].km - SumInts(totals.yearly[i].monthly) <= 11
  {
    var h, rows := History(s.points, user), AllRows(s.daily, user);
    var days := InOrder(DaysStored(s.daily, user));
    DailyTotals(cfg, s, user);
    forall i | 0 <= i < |rows|
      ensures rows[i].stat.km >= 0.0
    {
      assert RowCorrect(cfg, s, user, days[i]);
      LaggedKmNonNegative(cfg, h, cfg.zone.start(days[i]), cfg.zone.start(days[i] + 1), |h|);
    }
    YearsLoseLessThanTheirNumber(cal, rows, totals.yearly);
    forall i | 0 <= i < |totals.yearly|
      ensures 0 <= totals.yearly[i].km - SumInts(totals.yearly[i].monthly) <= 11
    {
      MonthsLoseAtMostEleven(cal, rows, totals.yearly[i]);
    }
  }
}
