/**
 * The CN script's building and population rows: the OSM footprint filter of
 * `get_footprint_from_osmnx`, the per-tile height frames that
 * `get_CN_building` concatenates and filters, its spatial join, and the
 * positive-cell population sum of `get_pop`.
 *
 * The raster and geometry libraries are inputs: `intersects(t, i)` says
 * whether footprint `i` meets the bounds of tile `t`, `heightOf(t, i)` is
 * the masked maximum height of footprint `i` in tile `t`, `within(i)` lists
 * the regions containing footprint `i`, `areaOf(i)` is its geodesic area,
 * and `masked(k)` holds the raster cells under region `k`.
 */
module CnBuildings {
  import opened Common
  import opened Aggregation
  import opened CnTiles

  /** The geometry type of an OSM feature. */
  datatype GeomType = Point | LineString | Polygon | MultiPolygon | GeometryCollection

  /** An OSM feature returned for the `building` tag: the tag's value (possibly null) and its geometry type. */
  datatype OsmFeature = OsmFeature(building: Option<string>, geomType: GeomType)

  /** The query box osmnx takes: north, south, east, west. */
  datatype Bbox = Bbox(north: real, south: real, east: real, west: real)

  /** One row of a tile's footprint frame: the footprint (its index after `reset_index`) and its height there. */
  datatype HeightRow = HeightRow(footprint: nat, height: real)

  /** A region row of the CN script before `get_pop`. */
  datatype CnArea = CnArea(geoid: Geoid, aland: real)

  predicate HasBuildingTag(f: OsmFeature) { f.building.Some? }

  predicate IsAreaGeometry(f: OsmFeature) { f.geomType == Polygon || f.geomType == MultiPolygon }

  predicate IsFootprint(f: OsmFeature) { HasBuildingTag(f) && IsAreaGeometry(f) }

  /** `total_bounds` read back from a query box. */
  function BoundsOf(q: Bbox): Bounds
  {
    Bounds(q.west, q.south, q.east, q.north)
  }

  /** `[bounds[3], bounds[1], bounds[2], bounds[0]]`: the bounds permuted into the query box. */
  function OsmBbox(b: Bounds): (q: Bbox)
    ensures BoundsOf(q) == b
    ensures WellFormed(b) ==> q.south <= q.north && q.west <= q.east
  {
    Bbox(b.maxY, b.minY, b.maxX, b.minX)
  }

  /**
   * The footprints `get_footprint_from_osmnx` keeps: first the rows with a
   * non-null `building` tag, then those of Polygon or MultiPolygon geometry.
   */
  function Footprints(fs: seq<OsmFeature>): seq<OsmFeature>
  {
    Filter(Filter(fs, HasBuildingTag), IsAreaGeometry)
  }

  /** The two selections keep exactly the tagged polygonal features, in their original order. */
  lemma FootprintsInOrder(fs: seq<OsmFeature>)
    ensures Footprints(fs) == Filter(fs, IsFootprint)
    ensures forall f :: f in Footprints(fs) <==>
      (f in fs && f.building.Some? && (f.geomType == Polygon || f.geomType == MultiPolygon))
  {
    FilterFilter(fs, HasBuildingTag, IsAreaGeometry, IsFootprint);
  }

  /** The footprints of a concatenation are those of each part, in order. */
  lemma FootprintsAppend(a: seq<OsmFeature>, b: seq<OsmFeature>)
    ensures Footprints(a + b) == Footprints(a) + Footprints(b)
  {
    FilterAppend(a, b, HasBuildingTag);
    FilterAppend(Filter(a, HasBuildingTag), Filter(b, HasBuildingTag), IsAreaGeometry);
  }

  /**
   * `footprints[footprints["geometry"].intersects(tile)]` with its `height`
   * column: the footprints `0 .. n-1` that meet the tile, in index order.
   */
  function TileFrame(t: Tile, n: nat, intersects: (Tile, nat) -> bool, heightOf: (Tile, nat) -> real)
    : seq<HeightRow>
  {
    if n == 0 then [] else TileFrame(t, n - 1, intersects, heightOf) + RowIfMeets(t, n - 1, intersects, heightOf)
  }

  /**
   * A tile's frame holds exactly the footprints below `n` that meet the tile,
   * each with the tile's height, in increasing footprint order.
   */
  lemma {:induction false} TileFrameExactly(t: Tile, n: nat, intersects: (Tile, nat) -> bool, heightOf: (Tile, nat) -> real)
    ensures var rows := TileFrame(t, n, intersects, heightOf);
      && |rows| <= n
      && (forall r :: r in rows <==> r.footprint < n && intersects(t, r.footprint) && r.height == heightOf(t, r.footprint))
      && (forall k, l :: 0 <= k < l < |rows| ==> rows[k].footprint < rows[l].footprint)
  {
    if n > 0 {
      TileFrameExactly(t, n - 1, intersects, heightOf);
      var init, last := TileFrame(t, n - 1, intersects, heightOf), RowIfMeets(t, n - 1, intersects, heightOf);
      assert TileFrame(t, n, intersects, heightOf) == init + last;
      assert forall k :: 0 <= k < |init| ==> init[k] in init;
    }
  }

  /** The row footprint `i` adds to the frame of tile `t`: one row when it meets the tile, none otherwise. */
  function RowIfMeets(t: Tile, i: nat, intersects: (Tile, nat) -> bool, heightOf: (Tile, nat) -> real): seq<HeightRow>
  {
    if intersects(t, i) then [HeightRow(i, heightOf(t, i))] else []
  }

  /** The list `gdfs`: one frame per tile, in tile order. */
  function Frames(tiles: seq<Tile>, n: nat, intersects: (Tile, nat) -> bool, heightOf: (Tile, nat) -> real)
    : (fs: seq<seq<HeightRow>>)
    ensures |fs| == |tiles|
    ensures forall k :: 0 <= k < |tiles| ==> fs[k] == TileFrame(tiles[k], n, intersects, heightOf)
  {
    seq(|tiles|, k requires 0 <= k < |tiles| => TileFrame(tiles[k], n, intersects, heightOf))
  }

  predicate PositiveHeight(r: HeightRow) { r.height > 0.0 }

  /** The number of rows of footprint `i`. */
  function Occurrences(rows: seq<HeightRow>, i: nat): nat
  {
    if rows == [] then 0 else (if rows[0].footprint == i then 1 else 0) + Occurrences(rows[1..], i)
  }

  /** The number of tiles that footprint `i` meets, counted along the tile list. */
  function IntersectCount(tiles: seq<Tile>, i: nat, intersects: (Tile, nat) -> bool): nat
  {
    if tiles == [] then 0 else (if intersects(tiles[0], i) then 1 else 0) + IntersectCount(tiles[1..], i, intersects)
  }

  lemma {:induction false} OccurrencesAppend(a: seq<HeightRow>, b: seq<HeightRow>, i: nat)
    ensures Occurrences(a + b, i) == Occurrences(a, i) + Occurrences(b, i)
  {
    if a == [] {
      assert a + b == b;
    } else {
      assert (a + b)[0] == a[0] && (a + b)[1..] == a[1..] + b;
      OccurrencesAppend(a[1..], b, i);
    }
  }

  lemma {:induction false} TileFrameOccurrences(
    t: Tile, n: nat, intersects: (Tile, nat) -> bool, heightOf: (Tile, nat) -> real, i: nat)
    ensures Occurrences(TileFrame(t, n, intersects, heightOf), i) == if i < n && intersects(t, i) then 1 else 0
  {
    if n > 0 {
      TileFrameOccurrences(t, n - 1, intersects, heightOf, i);
      var init, last := TileFrame(t, n - 1, intersects, heightOf), RowIfMeets(t, n - 1, intersects, heightOf);
      assert TileFrame(t, n, intersects, heightOf) == init + last;
      OccurrencesAppend(init, last, i);
      RowIfMeetsOccurrences(t, n - 1, intersects, heightOf, i);
      assert Occurrences(init, i) == if i < n - 1 && intersects(t, i) then 1 else 0;
    }
  }

  lemma RowIfMeetsOccurrences(t: Tile, k: nat, intersects: (Tile, nat) -> bool, heightOf: (Tile, nat) -> real, i: nat)
    ensures Occurrences(RowIfMeets(t, k, intersects, heightOf), i) == if i == k && intersects(t, i) then 1 else 0
  {
    var last := RowIfMeets(t, k, intersects, heightOf);
    if last != [] {
      assert last[1..] == [];
    }
  }

  /**
   * Before the height filter, the concatenated frames hold footprint `i`
   * once per tile it meets: a footprint that straddles tile borders is
   * counted several times.
   */
  lemma {:induction false} FramesOccurrences(
    tiles: seq<Tile>, n: nat, intersects: (Tile, nat) -> bool, heightOf: (Tile, nat) -> real, i: nat)
    requires i < n
    ensures Occurrences(Concat(Frames(tiles, n, intersects, heightOf)), i) == IntersectCount(tiles, i, intersects)
  {
    if tiles != [] {
      var fs := Frames(tiles, n, intersects, heightOf);
      assert fs[1..] == Frames(tiles[1..], n, intersects, heightOf);
      FramesOccurrences(tiles[1..], n, intersects, heightOf, i);
      TileFrameOccurrences(tiles[0], n, intersects, heightOf, i);
      OccurrencesAppend(fs[0], Concat(fs[1..]), i);
    }
  }

  /** A row is in the concatenated frames exactly when its footprint meets some tile, with that tile's height. */
  lemma {:induction false} FramesExactly(
    tiles: seq<Tile>, n: nat, intersects: (Tile, nat) -> bool, heightOf: (Tile, nat) -> real, r: HeightRow)
    ensures r in Concat(Frames(tiles, n, intersects, heightOf)) <==>
      (exists t :: t in tiles && r.footprint < n && intersects(t, r.footprint) && r.height == heightOf(t, r.footprint))
  {
    if tiles != [] {
      var fs := Frames(tiles, n, intersects, heightOf);
      assert fs[1..] == Frames(tiles[1..], n, intersects, heightOf);
      FramesExactly(tiles[1..], n, intersects, heightOf, r);
      TileFrameExactly(tiles[0], n, intersects, heightOf);
      assert forall t :: t in tiles <==> t == tiles[0] || t in tiles[1..] by {
        assert tiles == [tiles[0]] + tiles[1..];
      }
    }
  }

  /**
   * The tile loop of `get_CN_building`: one frame per tile appended to
   * `gdfs`, then `pd.concat` (which raises on an empty list: `None`) and
   * the filter `height > 0`.
   */
  method CollectHeights(tiles: seq<Tile>, n: nat, intersects: (Tile, nat) -> bool, heightOf: (Tile, nat) -> real)
    returns (rows: Option<seq<HeightRow>>)
    ensures rows.None? <==> tiles == []
    ensures rows.Some? ==> rows.value == Filter(Concat(Frames(tiles, n, intersects, heightOf)), PositiveHeight)
  {
    var gdfs: seq<seq<HeightRow>> := [];
    for k := 0 to |tiles|
      invariant gdfs == Frames(tiles[..k], n, intersects, heightOf)
    {
      var gdf := TileFrame(tiles[k], n, intersects, heightOf);
      gdfs := gdfs + [gdf];
      assert gdfs == Frames(tiles[..k + 1], n, intersects, heightOf);
    }
    assert tiles[..|tiles|] == tiles;
    if gdfs == [] {
      return None;
    }
    rows := Some(Filter(Concat(gdfs), PositiveHeight));
  }

  /** The inner `within` join: one row per region containing the footprint, with its area and this row's height. */
  function CnJoin(rows: seq<HeightRow>, within: nat -> seq<Geoid>, areaOf: nat -> real): seq<JoinedBuilding>
  {
    if rows == [] then []
    else JoinRows(within(rows[0].footprint), areaOf(rows[0].footprint), rows[0].height) + CnJoin(rows[1..], within, areaOf)
  }

  lemma {:induction false} CnJoinExactly(rows: seq<HeightRow>, within: nat -> seq<Geoid>, areaOf: nat -> real, b: JoinedBuilding)
    ensures b in CnJoin(rows, within, areaOf) <==>
      (exists r :: r in rows && b.geoid in within(r.footprint) && b.area == areaOf(r.footprint) && b.height == r.height)
  {
    if rows != [] {
      var r := rows[0];
      CnJoinExactly(rows[1..], within, areaOf, b);
      var mine := JoinRows(within(r.footprint), areaOf(r.footprint), r.height);
      assert b in mine <==> b.geoid in within(r.footprint) && b.area == areaOf(r.footprint) && b.height == r.height by {
        if b in mine {
          var k :| 0 <= k < |mine| && mine[k] == b;
        }
        if b.geoid in within(r.footprint) && b.area == areaOf(r.footprint) && b.height == r.height {
          var k :| 0 <= k < |within(r.footprint)| && within(r.footprint)[k] == b.geoid;
          assert mine[k] == b;
        }
      }
      assert forall x :: x in rows <==> x == r || x in rows[1..] by {
        assert rows == [r] + rows[1..];
      }
    }
  }

  /** `get_CN_building(gdf_region)` on values: footprints, tile grid, height frames, filter, join. */
  function CnBuildingRows(
    osm: seq<OsmFeature>, b: Bounds,
    intersects: (Tile, nat) -> bool, heightOf: (Tile, nat) -> real,
    within: nat -> seq<Geoid>, areaOf: nat -> real): Option<seq<JoinedBuilding>>
  {
    var tiles := TileGrid(b);
    if tiles == [] then None
    else
      var heights := Filter(Concat(Frames(tiles, |Footprints(osm)|, intersects, heightOf)), PositiveHeight);
      Some(CnJoin(heights, within, areaOf))
  }

  /**
   * `get_CN_building` as the source runs it: the footprints, the downloads
   * of `download_tifs` (whose file system is `present`), the tile loop and
   * the join.
   */
  method GetCnBuilding(
    osm: seq<OsmFeature>, b: Bounds, present: set<Tile>,
    intersects: (Tile, nat) -> bool, heightOf: (Tile, nat) -> real,
    within: nat -> seq<Geoid>, areaOf: nat -> real)
    returns (result: Option<seq<JoinedBuilding>>, fetched: seq<Tile>)
    ensures result == CnBuildingRows(osm, b, intersects, heightOf, within, areaOf)
    ensures fetched == Missing(TileGrid(b), present)
  {
    var footprints := Footprints(osm);
    var tifs;
    tifs, fetched := DownloadTifs(b, present);
    var heights := CollectHeights(tifs, |footprints|, intersects, heightOf);
    if heights.None? {
      return None, fetched;
    }
    result := Some(CnJoin(heights.value, within, areaOf));
  }

  /**
   * For a well-formed bounding box the building rows exist, and each is a
   * region containing a kept footprint with a positive height in some tile
   * it meets: no row of height 0 or less reaches the aggregation.
   */
  lemma CnBuildingRowsPositive(
    osm: seq<OsmFeature>, b: Bounds,
    intersects: (Tile, nat) -> bool, heightOf: (Tile, nat) -> real,
    within: nat -> seq<Geoid>, areaOf: nat -> real)
    requires WellFormed(b)
    ensures CnBuildingRows(osm, b, intersects, heightOf, within, areaOf).Some?
    ensures forall row :: row in CnBuildingRows(osm, b, intersects, heightOf, within, areaOf).value ==>
      row.height > 0.0
      && exists i: nat, t :: (i < |Footprints(osm)| && t in TileGrid(b) && intersects(t, i)
           && row.geoid in within(i) && row.area == areaOf(i) && row.height == heightOf(t, i))
  {
    TileGridNonEmpty(b);
    var tiles, n := TileGrid(b), |Footprints(osm)|;
    var heights := Filter(Concat(Frames(tiles, n, intersects, heightOf)), PositiveHeight);
    forall row | row in CnJoin(heights, within, areaOf)
      ensures row.height > 0.0
      ensures exists i: nat, t :: (i < n && t in tiles && intersects(t, i)
        && row.geoid in within(i) && row.area == areaOf(i) && row.height == heightOf(t, i))
    {
      CnJoinExactly(heights, within, areaOf, row);
      var r :| r in heights && row.geoid in within(r.footprint) && row.area == areaOf(r.footprint) && row.height == r.height;
      FramesExactly(tiles, n, intersects, heightOf, r);
      var t :| t in tiles && r.footprint < n && intersects(t, r.footprint) && r.height == heightOf(t, r.footprint);
      assert r.footprint < n && t in tiles && intersects(t, r.footprint);
    }
  }

  /**
   * On the CN path a region's mean height is positive exactly when some
   * building row lies in it.
   */
  lemma CnHeightMeanPositiveIff(
    regions: seq<Region>, osm: seq<OsmFeature>, b: Bounds,
    intersects: (Tile, nat) -> bool, heightOf: (Tile, nat) -> real,
    within: nat -> seq<Geoid>, areaOf: nat -> real, k: nat)
    requires WellFormed(b) && k < |regions|
    ensures CnBuildingRows(osm, b, intersects, heightOf, within, areaOf).Some?
    ensures var rows := CnBuildingRows(osm, b, intersects, heightOf, within, areaOf).value;
      |BuildingFeatures(regions, rows)| == |regions|
      && (BuildingFeatures(regions, rows)[k].stats.heightMean > 0.0
          <==> exists row :: row in rows && row.geoid == regions[k].geoid)
  {
    CnBuildingRowsPositive(osm, b, intersects, heightOf, within, areaOf);
    HeightMeanPositiveIff(regions, CnBuildingRows(osm, b, intersects, heightOf, within, areaOf).value, k);
  }

  /**
   * On the CN path: two footprints of region "001" with heights 10 and 0
   * and areas 100 and 50; the zero-height one is dropped,
   * so the region's aggregates come from the single 100 x 10 building.
   */
  lemma FilteredExample()
    ensures var heights := Filter([HeightRow(0, 10.0), HeightRow(1, 0.0)], PositiveHeight);
      var rows := CnJoin(heights, i => ["001"], i => if i == 0 then 100.0 else 50.0);
      var out := BuildingFeatures([Region("001", 1000.0, [Some(5.0)])], rows);
      |out| == 1
      && out[0].stats == Stats(100.0, 100.0, 10.0, 1000.0)
      && out[0].buildingDensity == Finite(0.1) && out[0].plotRatio == Finite(1.0)
  {
    var source := [HeightRow(0, 10.0), HeightRow(1, 0.0)];
    var within: nat -> seq<Geoid> := i => ["001"];
    var areaOf: nat -> real := i => if i == 0 then 100.0 else 50.0;
    assert source[1..] == [HeightRow(1, 0.0)];
    var heights := Filter(source, PositiveHeight);
    assert heights == [HeightRow(0, 10.0)];
    assert heights[1..] == [];
    var rows := CnJoin(heights, within, areaOf);
    assert rows == [JoinedBuilding("001", 100.0, 10.0)] by {
      assert within(0) == ["001"] && areaOf(0) == 100.0;
      assert CnJoin(heights[1..], within, areaOf) == [];
      assert JoinRows(["001"], 100.0, 10.0) == [JoinedBuilding("001", 100.0, 10.0)];
    }
    assert rows[1..] == [];
    assert RowsOf(rows, "001") == rows;
    assert Volume(rows[0]) == 100.0 * 10.0 == 1000.0;
    assert SumBy(rows, AreaOf) == AreaOf(rows[0]) + SumBy([], AreaOf) == 100.0;
    assert SumBy(rows, HeightOf) == HeightOf(rows[0]) + SumBy([], HeightOf) == 10.0;
    assert SumBy(rows, Volume) == Volume(rows[0]) + SumBy([], Volume) == 1000.0;
    var regions := [Region("001", 1000.0, [Some(5.0)])];
    BuildingFeaturesPerRegion(regions, rows);
    assert StatsOf(rows) == Stats(100.0, 100.0, 10.0, 1000.0);
  }

  predicate IsPopulated(x: real) { x > 0.0 }

  lemma {:induction false} SumOfPositives(s: seq<real>)
    requires forall x :: x in s ==> x > 0.0
    ensures Sum(s) >= 0.0
    ensures Sum(s) == 0.0 <==> s == []
  {
    if s != [] {
      assert s[0] in s;
      assert forall x :: x in s[1..] ==> x in s;
      SumOfPositives(s[1..]);
    }
  }

  /**
   * `data[data > 0].sum()`: the population under a region, the sum of its
   * positive cells; it is never negative, and it is zero exactly when no
   * cell is positive.
   */
  function PositiveSum(cells: seq<real>): (s: real)
    ensures s >= 0.0
    ensures s == 0.0 <==> forall x :: x in cells ==> x <= 0.0
  {
    PositiveCells(cells);
    Sum(Filter(cells, IsPopulated))
  }

  lemma PositiveCells(cells: seq<real>)
    ensures Sum(Filter(cells, IsPopulated)) >= 0.0
    ensures Sum(Filter(cells, IsPopulated)) == 0.0 <==> forall x :: x in cells ==> x <= 0.0
  {
    var pos := Filter(cells, IsPopulated);
    SumOfPositives(pos);
    if pos != [] {
      assert pos[0] in pos;
    }
  }

  /** A non-positive (nodata) cell adds nothing; a positive cell adds its value. */
  lemma PositiveSumSnoc(cells: seq<real>, x: real)
    ensures PositiveSum(cells + [x]) == PositiveSum(cells) + (if x > 0.0 then x else 0.0)
  {
    FilterAppend(cells, [x], IsPopulated);
    assert [x][1..] == [];
    SumAppend(Filter(cells, IsPopulated), Filter([x], IsPopulated));
    if x > 0.0 {
      assert Sum([x]) == x + Sum([]);
    }
  }

  /** `get_pop(gdf_region)`: every region gains `pop_overall`, the positive sum of the cells under it. */
  function GetPop(areas: seq<CnArea>, masked: nat -> seq<real>): (regions: seq<Region>)
    ensures |regions| == |areas|
    ensures forall k :: 0 <= k < |areas| ==>
      && regions[k].geoid == areas[k].geoid && regions[k].aland == areas[k].aland
      && regions[k].extra == [Some(PositiveSum(masked(k)))]
      && regions[k].extra[0].value >= 0.0
  {
    seq(|areas|, k requires 0 <= k < |areas| => Region(areas[k].geoid, areas[k].aland, [Some(PositiveSum(masked(k)))]))
  }
}
