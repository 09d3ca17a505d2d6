/**
 * `get_statistics` of the MS/NYC script: the two census tables are cleaned
 * (GEOID from the `Geography` column, the "-" placeholder of the over-18
 * count replaced) and left-merged onto the census tracts.
 */
module MsCensus {
  import opened Common
  import opened Frames
  import opened Aggregation

  /** Length of the summary-level prefix of a `Geography` value ("1400000US" for tracts). */
  const GEOGRAPHY_PREFIX_LENGTH: nat := 9

  /** Share of the overall population assumed to be over 18 when the census cell is "-". */
  const OVER18_SHARE: real := 0.8

  /** The over-18 cell of the age table: the placeholder "-" or a count. */
  datatype Over18Cell = Dash | Count(value: real)

  /** The three columns kept from the age table: `Geography`, the overall population, the over-18 population. */
  datatype PopulationCsvRow = PopulationCsvRow(geography: string, popOverall: real, over18: Over18Cell)

  /** The two columns kept from the employment table: `Geography` and the employed population. */
  datatype EmploymentCsvRow = EmploymentCsvRow(geography: string, popEmployment: real)

  datatype PopulationRow = PopulationRow(geoid: Geoid, popOverall: real, popOver18: real)

  datatype EmploymentRow = EmploymentRow(geoid: Geoid, popEmployment: real)

  /** A census tract as selected from the TIGER boundary files. */
  datatype Tract = Tract(geoid: Geoid, aland: real)

  /** `x[9:]` on a `Geography` value. */
  function GeoidOf(geography: string): (g: Geoid)
    ensures |geography| <= GEOGRAPHY_PREFIX_LENGTH ==> g == []
    ensures |geography| > GEOGRAPHY_PREFIX_LENGTH ==> geography == geography[..GEOGRAPHY_PREFIX_LENGTH] + g
  {
    Drop(geography, GEOGRAPHY_PREFIX_LENGTH)
  }

  /** Stripping recovers the GEOID from any `Geography` value made of a 9-character prefix and the GEOID. */
  lemma GeographyRoundTrip(prefix: string, g: Geoid)
    requires |prefix| == GEOGRAPHY_PREFIX_LENGTH
    ensures GeoidOf(prefix + g) == g
  {
    if g != [] {
      assert (prefix + g)[GEOGRAPHY_PREFIX_LENGTH..] == g;
    }
  }

  /** The over-18 population: 0.8 times the overall population where the cell is "-", the cell itself otherwise. */
  function Over18(popOverall: real, cell: Over18Cell): (v: real)
    ensures cell.Dash? ==> v == OVER18_SHARE * popOverall
    ensures cell.Count? ==> v == cell.value
  {
    match cell
    case Dash => popOverall * OVER18_SHARE
    case Count(c) => c
  }

  function CleanPopulationRow(r: PopulationCsvRow): PopulationRow
  {
    PopulationRow(GeoidOf(r.geography), r.popOverall, Over18(r.popOverall, r.over18))
  }

  /** The cleaned age table: every row kept, in order. */
  function CleanPopulation(rows: seq<PopulationCsvRow>): (t: seq<PopulationRow>)
    ensures |t| == |rows|
    ensures forall i :: 0 <= i < |rows| ==> t[i] == CleanPopulationRow(rows[i])
  {
    seq(|rows|, i requires 0 <= i < |rows| => CleanPopulationRow(rows[i]))
  }

  /** The cleaned employment table: every row kept, in order. */
  function CleanEmployment(rows: seq<EmploymentCsvRow>): (t: seq<EmploymentRow>)
    ensures |t| == |rows|
    ensures forall i :: 0 <= i < |rows| ==>
      t[i] == EmploymentRow(GeoidOf(rows[i].geography), rows[i].popEmployment)
  {
    seq(|rows|, i requires 0 <= i < |rows| => EmploymentRow(GeoidOf(rows[i].geography), rows[i].popEmployment))
  }

  function TractKey(t: Tract): Geoid { t.geoid }

  function PopulationKey(p: PopulationRow): Geoid { p.geoid }

  function EmploymentKey(e: EmploymentRow): Geoid { e.geoid }

  function MergedKey(m: (Tract, Option<PopulationRow>)): Geoid { m.0.geoid }

  /** A merged row as a region row with the columns `pop_overall`, `population_over18`, `pop_employment`. */
  function ToRegion(m: ((Tract, Option<PopulationRow>), Option<EmploymentRow>)): Region
  {
    var t, p, e := m.0.0, m.0.1, m.1;
    Region(t.geoid, t.aland, [
      if p.Some? then Some(p.value.popOverall) else None,
      if p.Some? then Some(p.value.popOver18) else None,
      if e.Some? then Some(e.value.popEmployment) else None])
  }

  /** `get_statistics(gdf_region)` on values, the two census tables given. */
  function GetStatistics(tracts: seq<Tract>, population: seq<PopulationCsvRow>, employment: seq<EmploymentCsvRow>)
    : seq<Region>
  {
    var withPopulation := LeftMerge(tracts, CleanPopulation(population), TractKey, PopulationKey);
    var withEmployment := LeftMerge(withPopulation, CleanEmployment(employment), MergedKey, EmploymentKey);
    seq(|withEmployment|, i requires 0 <= i < |withEmployment| => ToRegion(withEmployment[i]))
  }

  /** A cell looked up in a cleaned table, missing when the tract has no row there. */
  function PopulationOf(population: seq<PopulationCsvRow>, g: Geoid): Option<PopulationRow>
  {
    Find(CleanPopulation(population), PopulationKey, g)
  }

  function EmploymentOf(employment: seq<EmploymentCsvRow>, g: Geoid): Option<EmploymentRow>
  {
    Find(CleanEmployment(employment), EmploymentKey, g)
  }

  /**
   * With one census row per tract, the merges keep every tract once and in
   * order, and attach the tract's own census counts; a tract missing from a
   * table gets missing cells for that table's columns.
   */
  lemma StatisticsPerTract(tracts: seq<Tract>, population: seq<PopulationCsvRow>, employment: seq<EmploymentCsvRow>)
    requires UniqueKeys(CleanPopulation(population), PopulationKey)
    requires UniqueKeys(CleanEmployment(employment), EmploymentKey)
    ensures |GetStatistics(tracts, population, employment)| == |tracts|
    ensures forall i :: 0 <= i < |tracts| ==>
      var r := GetStatistics(tracts, population, employment)[i];
      var p := PopulationOf(population, tracts[i].geoid);
      var e := EmploymentOf(employment, tracts[i].geoid);
      && r.geoid == tracts[i].geoid && r.aland == tracts[i].aland
      && r.extra == [
        if p.Some? then Some(p.value.popOverall) else None,
        if p.Some? then Some(p.value.popOver18) else None,
        if e.Some? then Some(e.value.popEmployment) else None]
  {
    var withPopulation := LeftMerge(tracts, CleanPopulation(population), TractKey, PopulationKey);
    LeftMergeOneToOne(tracts, CleanPopulation(population), TractKey, PopulationKey);
    LeftMergeOneToOne(withPopulation, CleanEmployment(employment), MergedKey, EmploymentKey);
  }

  /**
   * After `get_building_feature`, a tract missing from a census table has 0 in
   * that table's columns; a tract present there carries its cleaned counts.
   */
  lemma CensusColumnsZeroFilled(
    tracts: seq<Tract>, population: seq<PopulationCsvRow>, employment: seq<EmploymentCsvRow>,
    rows: seq<JoinedBuilding>, i: nat)
    requires UniqueKeys(CleanPopulation(population), PopulationKey)
    requires UniqueKeys(CleanEmployment(employment), EmploymentKey)
    requires i < |tracts|
    ensures |BuildingFeatures(GetStatistics(tracts, population, employment), rows)| == |tracts|
    ensures var out := BuildingFeatures(GetStatistics(tracts, population, employment), rows)[i];
      var g := tracts[i].geoid;
      |out.extra| == 3
      && ((forall r :: r in population ==> GeoidOf(r.geography) != g) ==> out.extra[0] == 0.0 && out.extra[1] == 0.0)
      && ((forall r :: r in employment ==> GeoidOf(r.geography) != g) ==> out.extra[2] == 0.0)
      && (PopulationOf(population, g).Some? ==>
            out.extra[0] == PopulationOf(population, g).value.popOverall
            && out.extra[1] == PopulationOf(population, g).value.popOver18)
      && (EmploymentOf(employment, g).Some? ==> out.extra[2] == EmploymentOf(employment, g).value.popEmployment)
  {
    var regions := GetStatistics(tracts, population, employment);
    var g := tracts[i].geoid;
    var p, e := PopulationOf(population, g), EmploymentOf(employment, g);
    StatisticsAt(tracts, population, employment, i);
    ExtraFilled(regions, rows, i);
    var extra := BuildingFeatures(regions, rows)[i].extra;
    assert extra[0] == OrZero(regions[i].extra[0]) == if p.Some? then p.value.popOverall else 0.0;
    assert extra[1] == OrZero(regions[i].extra[1]) == if p.Some? then p.value.popOver18 else 0.0;
    assert extra[2] == OrZero(regions[i].extra[2]) == if e.Some? then e.value.popEmployment else 0.0;
    if forall r :: r in population ==> GeoidOf(r.geography) != g {
      PopulationAbsent(population, g);
    }
    if forall r :: r in employment ==> GeoidOf(r.geography) != g {
      EmploymentAbsent(employment, g);
    }
  }

  /** The region row of tract `i` after `get_statistics`. */
  lemma StatisticsAt(
    tracts: seq<Tract>, population: seq<PopulationCsvRow>, employment: seq<EmploymentCsvRow>, i: nat)
    requires UniqueKeys(CleanPopulation(population), PopulationKey)
    requires UniqueKeys(CleanEmployment(employment), EmploymentKey)
    requires i < |tracts|
    ensures |GetStatistics(tracts, population, employment)| == |tracts|
    ensures var p, e := PopulationOf(population, tracts[i].geoid), EmploymentOf(employment, tracts[i].geoid);
      GetStatistics(tracts, population, employment)[i].extra == [
        if p.Some? then Some(p.value.popOverall) else None,
        if p.Some? then Some(p.value.popOver18) else None,
        if e.Some? then Some(e.value.popEmployment) else None]
  {
    StatisticsPerTract(tracts, population, employment);
  }

  /** `fillna(0)` on the census columns of region `i`. */
  lemma ExtraFilled(regions: seq<Region>, rows: seq<JoinedBuilding>, i: nat)
    requires i < |regions|
    ensures |BuildingFeatures(regions, rows)| == |regions|
    ensures BuildingFeatures(regions, rows)[i].extra == FillNa(regions[i].extra)
  {
    RegionAggregates(regions, rows, i);
  }

  /** A tract with no row in the age table has no cleaned row there. */
  lemma PopulationAbsent(population: seq<PopulationCsvRow>, g: Geoid)
    requires forall r :: r in population ==> GeoidOf(r.geography) != g
    ensures PopulationOf(population, g).None?
  {
    var cp := CleanPopulation(population);
    forall x | x in cp ensures PopulationKey(x) != g {
      var k :| 0 <= k < |cp| && cp[k] == x;
      assert population[k] in population;
    }
  }

  /** A tract with no row in the employment table has no cleaned row there. */
  lemma EmploymentAbsent(employment: seq<EmploymentCsvRow>, g: Geoid)
    requires forall r :: r in employment ==> GeoidOf(r.geography) != g
    ensures EmploymentOf(employment, g).None?
  {
    var ce := CleanEmployment(employment);
    forall x | x in ce ensures EmploymentKey(x) != g {
      var k :| 0 <= k < |ce| && ce[k] == x;
      assert employment[k] in employment;
    }
  }
}
