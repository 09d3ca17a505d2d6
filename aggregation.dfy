/**
 * `get_building_feature`, which is the same code in both feature scripts:
 * per-building volume, per-GEOID aggregation of the joined buildings, a left
 * merge back onto the regions, zero fill, and the two ratios over land area.
 */
module Aggregation {
  import opened Common
  import opened Frames

  type Geoid = string

  /** A row of the building/region spatial join: the containing region, footprint area, height. */
  datatype JoinedBuilding = JoinedBuilding(geoid: Geoid, area: real, height: real)

  /** A region row: GEOID, land area, and the numeric columns merged in before (population counts), each possibly missing. */
  datatype Region = Region(geoid: Geoid, aland: real, extra: seq<Option<real>>)

  /** The four aggregate columns `area_mean`, `area_sum`, `height_mean`, `volume_sum`. */
  datatype Stats = Stats(areaMean: real, areaSum: real, heightMean: real, volumeSum: real)

  /** A row of the grouped table. */
  datatype GroupRow = GroupRow(geoid: Geoid, stats: Stats)

  /** A float quotient: dividing by a zero land area gives NaN for 0 / 0 and an infinity otherwise. */
  datatype Ratio = Finite(value: real) | Infinite | NotANumber

  /** A region row after the aggregation: every column filled, plus `building_density` and `plot_ratio`. */
  datatype FeatureRow = FeatureRow(
    geoid: Geoid, aland: real, extra: seq<real>, stats: Stats,
    buildingDensity: Ratio, plotRatio: Ratio)

  const NO_BUILDINGS := Stats(0.0, 0.0, 0.0, 0.0)

  function AreaOf(b: JoinedBuilding): real { b.area }

  function HeightOf(b: JoinedBuilding): real { b.height }

  /** The `volume` column: footprint area times height. */
  function Volume(b: JoinedBuilding): real { b.area * b.height }

  function RegionKey(r: Region): Geoid { r.geoid }

  function GroupKey(r: GroupRow): Geoid { r.geoid }

  /** The rows one feature yields in the inner spatial join: one per containing region, in order. */
  function JoinRows(within: seq<Geoid>, area: real, height: real): (rs: seq<JoinedBuilding>)
    ensures |rs| == |within|
    ensures forall k :: 0 <= k < |within| ==> rs[k] == JoinedBuilding(within[k], area, height)
  {
    seq(|within|, k requires 0 <= k < |within| => JoinedBuilding(within[k], area, height))
  }

  /** The sum of one column over some rows. */
  function SumBy(rs: seq<JoinedBuilding>, f: JoinedBuilding -> real): real
  {
    if rs == [] then 0.0 else f(rs[0]) + SumBy(rs[1..], f)
  }

  lemma {:induction false} SumByAppend(a: seq<JoinedBuilding>, b: seq<JoinedBuilding>, f: JoinedBuilding -> real)
    ensures SumBy(a + b, f) == SumBy(a, f) + SumBy(b, f)
  {
    if a != [] {
      assert (a + b)[1..] == a[1..] + b;
      SumByAppend(a[1..], b, f);
    } else {
      assert a + b == b;
    }
  }

  /** The joined rows of one region, in order. */
  function RowsOf(rows: seq<JoinedBuilding>, g: Geoid): (rs: seq<JoinedBuilding>)
    ensures |rs| <= |rows|
    ensures forall b :: b in rs <==> b in rows && b.geoid == g
  {
    if rows == [] then []
    else (if rows[0].geoid == g then [rows[0]] else []) + RowsOf(rows[1..], g)
  }

  /**
   * The rows of region `g` are kept as often as they occur and the others not
   * at all; on rows all of region `g` the result is the rows themselves.
   */
  lemma {:induction false} RowsOfCount(rows: seq<JoinedBuilding>, g: Geoid)
    ensures forall b :: multiset(RowsOf(rows, g))[b] == if b.geoid == g then multiset(rows)[b] else 0
    ensures (forall b :: b in rows ==> b.geoid == g) ==> RowsOf(rows, g) == rows
  {
    if rows != [] {
      assert rows == [rows[0]] + rows[1..];
      RowsOfCount(rows[1..], g);
    }
  }

  /** The aggregates of a group; on no rows, the zeros that `fillna(0)` leaves. */
  function StatsOf(rs: seq<JoinedBuilding>): Stats
  {
    if rs == [] then NO_BUILDINGS
    else
      var n := |rs| as real;
      var areaSum := SumBy(rs, AreaOf);
      Stats(areaSum / n, areaSum, SumBy(rs, HeightOf) / n, SumBy(rs, Volume))
  }

  /** The GEOIDs that have at least one joined row, each once. */
  function GroupKeys(rows: seq<JoinedBuilding>): (ks: seq<Geoid>)
    ensures Distinct(ks)
    ensures forall g :: g in ks <==> RowsOf(rows, g) != []
  {
    if rows == [] then []
    else
      var ks := GroupKeys(rows[1..]);
      assert rows[0] in RowsOf(rows, rows[0].geoid);
      if rows[0].geoid in ks then ks else [rows[0].geoid] + ks
  }

  /** `groupby("GEOID").agg(...)`: one row per GEOID that has joined rows. */
  function GroupBy(rows: seq<JoinedBuilding>): (t: seq<GroupRow>)
    ensures |t| == |GroupKeys(rows)|
  {
    var ks := GroupKeys(rows);
    seq(|ks|, k requires 0 <= k < |ks| => GroupRow(ks[k], StatsOf(RowsOf(rows, ks[k]))))
  }

  /** A float division that yields a non-finite value when the divisor is zero. */
  function Divide(num: real, den: real): (q: Ratio)
    ensures q.Finite? <==> den != 0.0
    ensures q.NotANumber? <==> den == 0.0 && num == 0.0
    ensures q.Finite? ==> q.value * den == num
  {
    if den != 0.0 then Finite(num / den) else if num == 0.0 then NotANumber else Infinite
  }

  /** One region row after `fillna(0)` and the two ratio columns. */
  function Fill(r: Region, s: Stats): FeatureRow
  {
    FeatureRow(r.geoid, r.aland, FillNa(r.extra), s,
      Divide(s.areaSum, r.aland), Divide(s.volumeSum, r.aland))
  }

  function FillMerged(m: (Region, Option<GroupRow>)): FeatureRow
  {
    Fill(m.0, if m.1.Some? then m.1.value.stats else NO_BUILDINGS)
  }

  /** `get_building_feature(gdf_region, result_gdf)` on values. */
  function BuildingFeatures(regions: seq<Region>, rows: seq<JoinedBuilding>): seq<FeatureRow>
  {
    var merged := LeftMerge(regions, GroupBy(rows), RegionKey, GroupKey);
    seq(|merged|, i requires 0 <= i < |merged| => FillMerged(merged[i]))
  }

  lemma GroupByUnique(rows: seq<JoinedBuilding>)
    ensures UniqueKeys(GroupBy(rows), GroupKey)
  {
  }

  /** Looking up a GEOID in the grouped table finds its group exactly when it has joined rows. */
  lemma FindGroup(rows: seq<JoinedBuilding>, g: Geoid)
    ensures var o := Find(GroupBy(rows), GroupKey, g);
      (o.Some? <==> RowsOf(rows, g) != [])
      && (o.Some? ==> o.value.stats == StatsOf(RowsOf(rows, g)))
  {
    var t := GroupBy(rows);
    var ks := GroupKeys(rows);
    var o := Find(t, GroupKey, g);
    if o.Some? {
      var k :| 0 <= k < |t| && t[k] == o.value;
      assert ks[k] == g;
    }
    if RowsOf(rows, g) != [] {
      var k :| 0 <= k < |ks| && ks[k] == g;
      assert t[k] in t && GroupKey(t[k]) == g;
    }
  }

  /**
   * The left merge on the grouped table keeps every region exactly once and in
   * order, and each row carries the aggregates of that region's own joined rows
   * (all zero when it has none).
   */
  lemma BuildingFeaturesPerRegion(regions: seq<Region>, rows: seq<JoinedBuilding>)
    ensures |BuildingFeatures(regions, rows)| == |regions|
    ensures forall i :: 0 <= i < |regions| ==>
      BuildingFeatures(regions, rows)[i] == Fill(regions[i], StatsOf(RowsOf(rows, regions[i].geoid)))
  {
    var t := GroupBy(rows);
    GroupByUnique(rows);
    LeftMergeOneToOne(regions, t, RegionKey, GroupKey);
    forall i | 0 <= i < |regions|
      ensures BuildingFeatures(regions, rows)[i] == Fill(regions[i], StatsOf(RowsOf(rows, regions[i].geoid)))
    {
      FindGroup(rows, regions[i].geoid);
    }
  }

  /**
   * What each region row holds after the aggregation, stated column by column
   * against the region's own joined rows: the sums are sums over those rows,
   * the means divide by their number (zero-height rows included), a region
   * without rows gets zeros, the extra columns are zero-filled, and the two
   * ratios divide by the land area.
   */
  lemma RegionAggregates(regions: seq<Region>, rows: seq<JoinedBuilding>, i: nat)
    requires i < |regions|
    ensures |BuildingFeatures(regions, rows)| == |regions|
    ensures var out := BuildingFeatures(regions, rows)[i];
      var rs := RowsOf(rows, regions[i].geoid);
      var n := |rs| as real;
      && out.geoid == regions[i].geoid
      && out.aland == regions[i].aland
      && out.extra == FillNa(regions[i].extra)
      && out.stats.areaSum == SumBy(rs, AreaOf)
      && out.stats.volumeSum == SumBy(rs, Volume)
      && (rs != [] ==> out.stats.areaMean == SumBy(rs, AreaOf) / n)
      && (rs != [] ==> out.stats.heightMean == SumBy(rs, HeightOf) / n)
      && (rs == [] ==> out.stats == NO_BUILDINGS)
      && out.buildingDensity == Divide(out.stats.areaSum, regions[i].aland)
      && out.plotRatio == Divide(out.stats.volumeSum, regions[i].aland)
  {
    BuildingFeaturesPerRegion(regions, rows);
    var rs := RowsOf(rows, regions[i].geoid);
    assert BuildingFeatures(regions, rows)[i] == Fill(regions[i], StatsOf(rs));
  }

  /** A region with no joined building gets zero aggregates and, with a nonzero land area, zero ratios. */
  lemma NoBuildingsAllZero(regions: seq<Region>, rows: seq<JoinedBuilding>, i: nat)
    requires i < |regions|
    requires forall b :: b in rows ==> b.geoid != regions[i].geoid
    requires regions[i].aland != 0.0
    ensures |BuildingFeatures(regions, rows)| == |regions|
    ensures var out := BuildingFeatures(regions, rows)[i];
      out.stats == NO_BUILDINGS && out.buildingDensity == Finite(0.0) && out.plotRatio == Finite(0.0)
  {
    BuildingFeaturesPerRegion(regions, rows);
    var rs := RowsOf(rows, regions[i].geoid);
    assert rs == [] by {
      forall b | b in rs ensures false {
      }
    }
    assert BuildingFeatures(regions, rows)[i] == Fill(regions[i], NO_BUILDINGS);
  }

  lemma {:induction false} SumByPositive(rs: seq<JoinedBuilding>)
    requires forall b :: b in rs ==> b.height > 0.0
    ensures rs != [] ==> SumBy(rs, HeightOf) > 0.0
    ensures SumBy(rs, HeightOf) >= 0.0
  {
    if rs != [] {
      assert rs[0] in rs;
      assert forall b :: b in rs[1..] ==> b in rs;
      SumByPositive(rs[1..]);
    }
  }

  /**
   * When every joined row has a positive height (the filtered CN path), a
   * region's mean height is positive exactly when it has joined rows.
   */
  lemma HeightMeanPositiveIff(regions: seq<Region>, rows: seq<JoinedBuilding>, i: nat)
    requires i < |regions|
    requires forall b :: b in rows ==> b.height > 0.0
    ensures |BuildingFeatures(regions, rows)| == |regions|
    ensures BuildingFeatures(regions, rows)[i].stats.heightMean > 0.0
      <==> exists b :: b in rows && b.geoid == regions[i].geoid
  {
    BuildingFeaturesPerRegion(regions, rows);
    var rs := RowsOf(rows, regions[i].geoid);
    assert BuildingFeatures(regions, rows)[i].stats == StatsOf(rs);
    StatsHeightPositive(rs);
    if rs != [] {
      assert rs[0] in rs;
    }
  }

  lemma StatsHeightPositive(rs: seq<JoinedBuilding>)
    requires forall b :: b in rs ==> b.height > 0.0
    ensures StatsOf(rs).heightMean > 0.0 <==> rs != []
  {
    SumByPositive(rs);
    if rs != [] {
      var n := |rs| as real;
      var h := SumBy(rs, HeightOf);
      assert h / n > 0.0 by {
        assert n > 0.0 && h > 0.0;
        assert (h / n) * n == h;
      }
    }
  }

  /** The set of region GEOIDs. */
  ghost function GeoidsOf(regions: seq<Region>): set<Geoid>
  {
    set r | r in regions :: r.geoid
  }

  /** A column summed over the regions, each region contributing the sum over its own joined rows. */
  function RegionTotal(regions: seq<Region>, rows: seq<JoinedBuilding>, f: JoinedBuilding -> real): real
  {
    if regions == [] then 0.0
    else SumBy(RowsOf(rows, regions[0].geoid), f) + RegionTotal(regions[1..], rows, f)
  }

  lemma {:induction false} RegionTotalCons(
    regions: seq<Region>, b: JoinedBuilding, rows: seq<JoinedBuilding>, f: JoinedBuilding -> real)
    requires UniqueKeys(regions, RegionKey)
    ensures RegionTotal(regions, [b] + rows, f)
      == RegionTotal(regions, rows, f) + (if b.geoid in GeoidsOf(regions) then f(b) else 0.0)
  {
    if regions != [] {
      var tail := regions[1..];
      assert UniqueKeys(tail, RegionKey) by {
        forall i, j | 0 <= i < j < |tail| ensures RegionKey(tail[i]) != RegionKey(tail[j]) {
          assert tail[i] == regions[i + 1] && tail[j] == regions[j + 1];
        }
      }
      RegionTotalCons(tail, b, rows, f);
      var g := regions[0].geoid;
      assert ([b] + rows)[0] == b && ([b] + rows)[1..] == rows;
      assert RowsOf([b] + rows, g) == (if b.geoid == g then [b] else []) + RowsOf(rows, g);
      SumByAppend(if b.geoid == g then [b] else [], RowsOf(rows, g), f);
      assert GeoidsOf(regions) == {g} + GeoidsOf(tail) by {
        forall x | x in GeoidsOf(regions) ensures x in {g} + GeoidsOf(tail) {
          var r :| r in regions && r.geoid == x;
          var k :| 0 <= k < |regions| && regions[k] == r;
          if k > 0 { assert tail[k - 1] == r; }
        }
      }
      assert g !in GeoidsOf(tail) by {
        forall r | r in tail ensures r.geoid != g {
          var k :| 0 <= k < |tail| && tail[k] == r;
          assert RegionKey(regions[0]) != RegionKey(regions[k + 1]);
        }
      }
    } else {
      assert GeoidsOf(regions) == {};
    }
  }

  /**
   * Nothing is lost or counted twice: when the region GEOIDs are unique and
   * every joined row names one of them, summing a column per region and then
   * over the regions gives the column's total over all joined rows.
   */
  lemma {:induction false} RegionTotalConserved(regions: seq<Region>, rows: seq<JoinedBuilding>, f: JoinedBuilding -> real)
    requires UniqueKeys(regions, RegionKey)
    requires forall b :: b in rows ==> b.geoid in GeoidsOf(regions)
    ensures RegionTotal(regions, rows, f) == SumBy(rows, f)
  {
    if rows == [] {
      RegionTotalEmpty(regions, f);
    } else {
      assert rows == [rows[0]] + rows[1..];
      assert rows[0] in rows;
      assert forall b :: b in rows[1..] ==> b in rows;
      RegionTotalCons(regions, rows[0], rows[1..], f);
      RegionTotalConserved(regions, rows[1..], f);
    }
  }

  lemma {:induction false} RegionTotalEmpty(regions: seq<Region>, f: JoinedBuilding -> real)
    ensures RegionTotal(regions, [], f) == 0.0
  {
    if regions != [] {
      RegionTotalEmpty(regions[1..], f);
    }
  }

  /** The `area_sum` column summed over the output rows. */
  function AreaSumColumn(out: seq<FeatureRow>): real
  {
    if out == [] then 0.0 else out[0].stats.areaSum + AreaSumColumn(out[1..])
  }

  /** The `volume_sum` column summed over the output rows. */
  function VolumeSumColumn(out: seq<FeatureRow>): real
  {
    if out == [] then 0.0 else out[0].stats.volumeSum + VolumeSumColumn(out[1..])
  }

  lemma {:induction false} ColumnsMatchRegionTotals(out: seq<FeatureRow>, regions: seq<Region>, rows: seq<JoinedBuilding>)
    requires |out| == |regions|
    requires forall i :: 0 <= i < |out| ==> out[i].stats == StatsOf(RowsOf(rows, regions[i].geoid))
    ensures AreaSumColumn(out) == RegionTotal(regions, rows, AreaOf)
    ensures VolumeSumColumn(out) == RegionTotal(regions, rows, Volume)
  {
    if out != [] {
      assert out[0].stats == StatsOf(RowsOf(rows, regions[0].geoid));
      ColumnsMatchRegionTotals(out[1..], regions[1..], rows);
    }
  }

  /**
   * The output's `area_sum` and `volume_sum` columns add up to the total area
   * and total volume of the joined buildings, when region GEOIDs are unique
   * and every joined row belongs to a region (as the inner spatial join makes it).
   */
  lemma TotalsConserved(regions: seq<Region>, rows: seq<JoinedBuilding>)
    requires UniqueKeys(regions, RegionKey)
    requires forall b :: b in rows ==> b.geoid in GeoidsOf(regions)
    ensures AreaSumColumn(BuildingFeatures(regions, rows)) == SumBy(rows, AreaOf)
    ensures VolumeSumColumn(BuildingFeatures(regions, rows)) == SumBy(rows, Volume)
  {
    BuildingFeaturesPerRegion(regions, rows);
    ColumnsMatchRegionTotals(BuildingFeatures(regions, rows), regions, rows);
    RegionTotalConserved(regions, rows, AreaOf);
    RegionTotalConserved(regions, rows, Volume);
  }

  /**
   * Two regions: "001" (land area 1000, one building 100 x 10 and one of area
   * 50 with height 0) and "002" (land area 500, no building).
   * This path does not drop the zero-height building: it counts in the area
   * mean and in the height mean's denominator.
   */
  lemma UnfilteredExample()
    ensures var out := BuildingFeatures(
        [Region("001", 1000.0, []), Region("002", 500.0, [])],
        [JoinedBuilding("001", 100.0, 10.0), JoinedBuilding("001", 50.0, 0.0)]);
      |out| == 2
      && out[0].stats == Stats(75.0, 150.0, 5.0, 1000.0)
      && out[0].buildingDensity == Finite(0.15) && out[0].plotRatio == Finite(1.0)
      && out[1].stats == NO_BUILDINGS
      && out[1].buildingDensity == Finite(0.0) && out[1].plotRatio == Finite(0.0)
  {
    var regions := [Region("001", 1000.0, []), Region("002", 500.0, [])];
    var rows := [JoinedBuilding("001", 100.0, 10.0), JoinedBuilding("001", 50.0, 0.0)];
    UnfilteredExampleGroups();
    BuildingFeaturesPerRegion(regions, rows);
    var out := BuildingFeatures(regions, rows);
    assert out[0] == Fill(regions[0], Stats(75.0, 150.0, 5.0, 1000.0));
    assert out[1] == Fill(regions[1], NO_BUILDINGS);
  }

  /** The groups of `UnfilteredExample`: both rows in region "001", none in region "002". */
  lemma UnfilteredExampleGroups()
    ensures var rows := [JoinedBuilding("001", 100.0, 10.0), JoinedBuilding("001", 50.0, 0.0)];
      && RowsOf(rows, "001") == rows
      && RowsOf(rows, "002") == []
      && StatsOf(rows) == Stats(75.0, 150.0, 5.0, 1000.0)
  {
    var rows := [JoinedBuilding("001", 100.0, 10.0), JoinedBuilding("001", 50.0, 0.0)];
    assert "001" != "002";
    var last := [rows[1]];
    assert rows[1..] == last && last[1..] == [];
    assert Volume(rows[0]) == 100.0 * 10.0 == 1000.0;
    assert Volume(rows[1]) == 50.0 * 0.0 == 0.0;
    assert SumBy(last, AreaOf) == 50.0 && SumBy(last, HeightOf) == 0.0 && SumBy(last, Volume) == 0.0 by {
      assert SumBy(last, AreaOf) == AreaOf(rows[1]) + SumBy([], AreaOf);
      assert SumBy(last, HeightOf) == HeightOf(rows[1]) + SumBy([], HeightOf);
      assert SumBy(last, Volume) == Volume(rows[1]) + SumBy([], Volume);
    }
    assert SumBy(rows, AreaOf) == AreaOf(rows[0]) + SumBy(last, AreaOf) == 150.0;
    assert SumBy(rows, HeightOf) == HeightOf(rows[0]) + SumBy(last, HeightOf) == 10.0;
    assert SumBy(rows, Volume) == Volume(rows[0]) + SumBy(last, Volume) == 1000.0;
    assert RowsOf(last, "001") == last;
    assert RowsOf(last, "002") == [];
  }

  /**
   * The frame of joined rows as the source holds it: columns that
   * `get_building_feature` extends in place with a `volume` column.
   */
  class BuildingFrame {
    var geoid: seq<Geoid>
    var area: seq<real>
    var height: seq<real>
    var volume: Option<seq<real>>

    ghost predicate Valid()
      reads this
    {
      |area| == |geoid| && |height| == |geoid|
      && (volume.Some? ==> |volume.value| == |geoid|)
    }

    /** The frame's rows, without the derived column. */
    function Rows(): (rs: seq<JoinedBuilding>)
      reads this
      requires Valid()
      ensures |rs| == |geoid|
      ensures forall i :: 0 <= i < |rs| ==> rs[i] == JoinedBuilding(geoid[i], area[i], height[i])
    {
      var g, a, h := geoid, area, height;
      seq(|g|, i requires 0 <= i < |g| && |a| == |g| && |h| == |g| => JoinedBuilding(g[i], a[i], h[i]))
    }

    constructor (rows: seq<JoinedBuilding>)
      ensures Valid() && Rows() == rows && volume == None
    {
      geoid := seq(|rows|, i requires 0 <= i < |rows| => rows[i].geoid);
      area := seq(|rows|, i requires 0 <= i < |rows| => rows[i].area);
      height := seq(|rows|, i requires 0 <= i < |rows| => rows[i].height);
      volume := None;
    }

    /** `result_gdf["volume"] = result_gdf["area"] * result_gdf["height"]`. */
    method AddVolume()
      requires Valid()
      modifies this
      ensures Valid()
      ensures geoid == old(geoid) && area == old(area) && height == old(height)
      ensures volume.Some? && |volume.value| == |geoid|
      ensures forall i :: 0 <= i < |geoid| ==> volume.value[i] == Volume(Rows()[i])
    {
      var a, h := area, height;
      volume := Some(seq(|a|, i requires 0 <= i < |a| && |h| == |a| => a[i] * h[i]));
    }
  }

  /**
   * `get_building_feature` as the source runs it: the caller's frame gains its
   * `volume` column, and the returned region table is the aggregation above.
   */
  method GetBuildingFeature(regions: seq<Region>, frame: BuildingFrame) returns (out: seq<FeatureRow>)
    requires frame.Valid()
    modifies frame
    ensures frame.Valid() && frame.Rows() == old(frame.Rows())
    ensures frame.volume.Some?
    ensures forall i :: 0 <= i < |frame.geoid| ==> frame.volume.value[i] == Volume(frame.Rows()[i])
    ensures out == BuildingFeatures(regions, frame.Rows())
  {
    frame.AddVolume();
    out := BuildingFeatures(regions, frame.Rows());
  }
}
