/**
 * `dump_region2info` of both scripts: the feature columns of a copy of the
 * region table are standardised in place (`StandardScaler.fit_transform`),
 * and one record per region, keyed by GEOID, holds the raw columns (some of
 * them truncated by `int()`) and the standardised feature vector.
 *
 * The scaler's standard deviations need a square root and sklearn's own
 * handling of zero variance, so they are the input `scales`, one positive
 * value per column. The scaler fits each column on its non-NaN cells,
 * leaves NaN cells as they are, and refuses infinite cells or a table
 * without rows.
 */
module Export {
  import opened Common
  import opened Aggregation

  /** A float cell of the feature table. */
  datatype Cell = Num(value: real) | NaN | Inf

  /** Why `fit_transform` raises. */
  datatype DumpError = NoSamples | InfiniteInput

  datatype Result<T> = Ok(value: T) | Err(error: DumpError)

  /** A record of the MS/NYC `region2info` dictionary. */
  datatype MsRecord = MsRecord(
    aland: int, popOverall: int, populationOver18: real, popEmployment: int,
    areaMean: real, heightMean: real, buildingDensity: Cell, plotRatio: Cell,
    feature: seq<Cell>)

  /** A record of the CN `region2info` dictionary. */
  datatype CnRecord = CnRecord(
    aland: int, popOverall: int, areaMean: real, heightMean: real,
    buildingDensity: Cell, plotRatio: Cell,
    feature: seq<Cell>)

  /** The MS/NYC feature columns, in the order `dump_region2info` selects them. */
  const MS_COLUMNS: seq<string> :=
    ["ALAND", "pop_overall", "population_over18", "pop_employment",
     "area_mean", "height_mean", "building_density", "plot_ratio"]
  const MS_WIDTH: nat := 8

  /** The CN feature columns, in the order `dump_region2info` selects them. */
  const CN_COLUMNS: seq<string> :=
    ["ALAND", "pop_overall", "area_mean", "height_mean", "building_density", "plot_ratio"]
  const CN_WIDTH: nat := 6

  /** A ratio column's float value. */
  function CellOf(q: Ratio): (c: Cell)
    ensures c.Num? <==> q.Finite?
    ensures c.NaN? <==> q.NotANumber?
    ensures c.Num? ==> c.value == q.value
  {
    match q
    case Finite(v) => Num(v)
    case Infinite => Inf
    case NotANumber => NaN
  }

  /** The non-NaN values of a column, in order: what the scaler fits on. */
  function Present(col: seq<Cell>): (vs: seq<real>)
    ensures |vs| <= |col|
  {
    if col == [] then [] else (if col[0].Num? then [col[0].value] else []) + Present(col[1..])
  }

  function Mean(vs: seq<real>): real
    requires vs != []
  {
    Sum(vs) / (|vs| as real)
  }

  /** The scaler's value of one raw value: its distance from the mean, in units of the scale. */
  function Scaled(v: real, mean: real, scale: real): real
    requires scale > 0.0
  {
    (v - mean) / scale
  }

  /** `inverse_transform` of one standardised value: back to units, then the mean added back. */
  function Unscaled(y: real, mean: real, scale: real): real
  {
    y * scale + mean
  }

  /** Every numeric cell shifted by `mean` and divided by `scale`; other cells kept. */
  function Shift(col: seq<Cell>, mean: real, scale: real): (out: seq<Cell>)
    requires scale > 0.0
    ensures |out| == |col|
    ensures forall i :: 0 <= i < |col| && col[i].Num? ==> out[i] == Num(Scaled(col[i].value, mean, scale))
    ensures forall i :: 0 <= i < |col| && !col[i].Num? ==> out[i] == col[i]
  {
    seq(|col|, i requires 0 <= i < |col| => if col[i].Num? then Num(Scaled(col[i].value, mean, scale)) else col[i])
  }

  /** One column of `fit_transform`: centred on the mean of its numeric cells, divided by its scale. */
  function StandardizeColumn(col: seq<Cell>, scale: real): (out: seq<Cell>)
    requires scale > 0.0
    ensures |out| == |col|
    ensures forall i :: 0 <= i < |col| ==> (out[i].Num? <==> col[i].Num?) && (!col[i].Num? ==> out[i] == col[i])
  {
    var vs := Present(col);
    if vs == [] then col else Shift(col, Mean(vs), scale)
  }

  lemma ShiftStep(x: real, total: real, k: real, mean: real, scale: real)
    requires scale > 0.0
    ensures Scaled(x, mean, scale) + Scaled(total, k * mean, scale) == Scaled(x + total, (k + 1.0) * mean, scale)
  {
    assert (k + 1.0) * mean == k * mean + mean;
  }

  /** The standardised values of a list of values. */
  function ShiftAll(vs: seq<real>, mean: real, scale: real): (out: seq<real>)
    requires scale > 0.0
    ensures |out| == |vs|
    ensures forall k :: 0 <= k < |vs| ==> out[k] == Scaled(vs[k], mean, scale)
  {
    seq(|vs|, k requires 0 <= k < |vs| => Scaled(vs[k], mean, scale))
  }

  /** The numeric cells of a shifted column are the shifted numeric cells. */
  lemma {:induction false} PresentShift(col: seq<Cell>, mean: real, scale: real)
    requires scale > 0.0
    ensures Present(Shift(col, mean, scale)) == ShiftAll(Present(col), mean, scale)
  {
    if col != [] {
      var sc := Shift(col, mean, scale);
      assert sc[1..] == Shift(col[1..], mean, scale);
      PresentShift(col[1..], mean, scale);
      if col[0].Num? {
        var x, rest := col[0].value, Present(col[1..]);
        assert Present(col) == [x] + rest;
        assert ShiftAll([x] + rest, mean, scale) == [Scaled(x, mean, scale)] + ShiftAll(rest, mean, scale);
      }
    }
  }

  /** The standardised values add up to the scaled distance of their total from n times the mean. */
  lemma {:induction false} SumShiftAll(vs: seq<real>, mean: real, scale: real)
    requires scale > 0.0
    ensures Sum(ShiftAll(vs, mean, scale)) == Scaled(Sum(vs), (|vs| as real) * mean, scale)
  {
    if vs == [] {
      assert Scaled(0.0, 0.0 * mean, scale) == 0.0;
    } else {
      var out := ShiftAll(vs, mean, scale);
      assert out[1..] == ShiftAll(vs[1..], mean, scale);
      SumShiftAll(vs[1..], mean, scale);
      ShiftStep(vs[0], Sum(vs[1..]), |vs[1..]| as real, mean, scale);
    }
  }

  lemma Centre(vs: seq<real>, scale: real)
    requires vs != [] && scale > 0.0
    ensures Scaled(Sum(vs), (|vs| as real) * Mean(vs), scale) == 0.0
  {
    var n, total := |vs| as real, Sum(vs);
    assert n * (total / n) == total;
  }

  /** `fit_transform` centres every column: its numeric cells sum to zero. */
  lemma StandardizeCentred(col: seq<Cell>, scale: real)
    requires scale > 0.0
    ensures Sum(Present(StandardizeColumn(col, scale))) == 0.0
  {
    var vs := Present(col);
    if vs != [] {
      var m := Mean(vs);
      PresentShift(col, m, scale);
      SumShiftAll(vs, m, scale);
      Centre(vs, scale);
    }
  }

  /** `inverse_transform` recovers every numeric cell: multiply by the scale and add the mean back. */
  lemma StandardizeInverse(col: seq<Cell>, scale: real, i: nat)
    requires scale > 0.0 && i < |col| && col[i].Num?
    ensures Present(col) != []
    ensures Unscaled(StandardizeColumn(col, scale)[i].value, Mean(Present(col)), scale) == col[i].value
  {
    StandardizeAt(col, scale, i);
    Unshift(col[i].value, Mean(Present(col)), scale);
  }

  lemma StandardizeAt(col: seq<Cell>, scale: real, i: nat)
    requires scale > 0.0 && i < |col| && col[i].Num?
    ensures Present(col) != []
    ensures StandardizeColumn(col, scale)[i] == Num(Scaled(col[i].value, Mean(Present(col)), scale))
  {
    PresentHas(col, i);
    var vs := Present(col);
    assert vs != [];
    assert StandardizeColumn(col, scale) == Shift(col, Mean(vs), scale);
  }

  /** `inverse_transform` undoes the scaler value by value. */
  lemma Unshift(x: real, mean: real, scale: real)
    requires scale > 0.0
    ensures Unscaled(Scaled(x, mean, scale), mean, scale) == x
  {
  }

  lemma {:induction false} PresentHas(col: seq<Cell>, i: nat)
    requires i < |col| && col[i].Num?
    ensures col[i].value in Present(col)
  {
    if i > 0 {
      PresentHas(col[1..], i - 1);
    }
  }

  lemma ScaledMonotone(x: real, y: real, mean: real, scale: real)
    requires scale > 0.0
    ensures x <= y <==> Scaled(x, mean, scale) <= Scaled(y, mean, scale)
  {
    var a, b := x - mean, y - mean;
    assert a / scale * scale == a && b / scale * scale == b;
  }

  /** Standardising keeps the order of the numeric cells of a column. */
  lemma StandardizeMonotone(col: seq<Cell>, scale: real, i: nat, j: nat)
    requires scale > 0.0 && i < |col| && j < |col| && col[i].Num? && col[j].Num?
    ensures var out := StandardizeColumn(col, scale);
      col[i].value <= col[j].value <==> out[i].value <= out[j].value
  {
    StandardizeAt(col, scale, i);
    StandardizeAt(col, scale, j);
    ScaledMonotone(col[i].value, col[j].value, Mean(Present(col)), scale);
  }

  /** Column `c` of a table given by its rows. */
  function Column(rows: seq<seq<Cell>>, c: nat): (col: seq<Cell>)
    requires forall i :: 0 <= i < |rows| ==> c < |rows[i]|
    ensures |col| == |rows|
    ensures forall i :: 0 <= i < |rows| ==> col[i] == rows[i][c]
  {
    seq(|rows|, i requires 0 <= i < |rows| && c < |rows[i]| => rows[i][c])
  }

  predicate Scales(scales: seq<real>, width: nat)
  {
    |scales| == width && forall c :: 0 <= c < width ==> scales[c] > 0.0
  }

  predicate Rectangular(rows: seq<seq<Cell>>, width: nat)
  {
    forall i :: 0 <= i < |rows| ==> |rows[i]| == width
  }

  /** `scaler.fit_transform(table)`: every column standardised with its own scale, given back by rows. */
  function StandardizeTable(rows: seq<seq<Cell>>, width: nat, scales: seq<real>): (out: seq<seq<Cell>>)
    requires Scales(scales, width) && Rectangular(rows, width)
    ensures |out| == |rows| && Rectangular(out, width)
    ensures forall c :: 0 <= c < width ==> Column(out, c) == StandardizeColumn(Column(rows, c), scales[c])
  {
    var cols := seq(width, c requires 0 <= c < width => StandardizeColumn(Column(rows, c), scales[c]));
    var out := seq(|rows|, i requires 0 <= i < |rows| => seq(width, c requires 0 <= c < width => cols[c][i]));
    assert forall c :: 0 <= c < width ==> Column(out, c) == cols[c];
    out
  }

  /**
   * Every column of the standardised table is centred, and each numeric raw
   * cell is recovered from its standardised value.
   */
  lemma StandardizeTableFacts(rows: seq<seq<Cell>>, width: nat, scales: seq<real>, i: nat, c: nat)
    requires Scales(scales, width) && Rectangular(rows, width)
    requires i < |rows| && c < width
    ensures Sum(Present(Column(StandardizeTable(rows, width, scales), c))) == 0.0
    ensures rows[i][c].Num? ==>
      && Present(Column(rows, c)) != []
      && StandardizeTable(rows, width, scales)[i][c].Num?
      && Unscaled(StandardizeTable(rows, width, scales)[i][c].value, Mean(Present(Column(rows, c))), scales[c])
         == rows[i][c].value
  {
    var out := StandardizeTable(rows, width, scales);
    StandardizeCentred(Column(rows, c), scales[c]);
    if rows[i][c].Num? {
      StandardizeInverse(Column(rows, c), scales[c], i);
      assert out[i][c] == Column(out, c)[i];
    }
  }

  predicate HasInf(rows: seq<seq<Cell>>)
  {
    exists i, c :: 0 <= i < |rows| && 0 <= c < |rows[i]| && rows[i][c].Inf?
  }

  /** Whether `fit_transform` raises on the table, and why. */
  function FitError(rows: seq<seq<Cell>>): (e: Option<DumpError>)
    ensures e == Some(NoSamples) <==> rows == []
    ensures e == Some(InfiniteInput) <==> rows != [] && HasInf(rows)
    ensures e.None? <==> rows != [] && !HasInf(rows)
  {
    if rows == [] then Some(NoSamples) else if HasInf(rows) then Some(InfiniteInput) else None
  }

  /**
   * The copy `gdf_region_normal`: GEOIDs and the feature columns, which
   * `fit_transform`'s result overwrites in place.
   */
  class NormalFrame {
    var geoid: seq<Geoid>
    var table: seq<seq<Cell>>
    const width: nat

    ghost predicate Valid()
      reads this
    {
      |table| == |geoid| && Rectangular(table, width)
    }

    constructor (geoid: seq<Geoid>, table: seq<seq<Cell>>, width: nat)
      requires |table| == |geoid| && Rectangular(table, width)
      ensures Valid() && this.geoid == geoid && this.table == table && this.width == width
    {
      this.geoid := geoid;
      this.table := table;
      this.width := width;
    }

    /** `gdf_region_normal.iloc[:, 1:] = scaler.fit_transform(gdf_region_normal.iloc[:, 1:])`. */
    method AssignStandardized(scales: seq<real>) returns (err: Option<DumpError>)
      requires Valid() && Scales(scales, width)
      modifies this
      ensures Valid() && geoid == old(geoid)
      ensures err == FitError(old(table))
      ensures err.None? ==> table == StandardizeTable(old(table), width, scales)
      ensures err.Some? ==> table == old(table)
    {
      err := FitError(table);
      if err.None? {
        table := StandardizeTable(table, width, scales);
      }
    }
  }

  /**
   * A dictionary comprehension: the key of every entry with the value of
   * its last occurrence, since a later duplicate key overwrites an earlier one.
   */
  function Keyed<V>(keys: seq<Geoid>, vals: seq<V>): (m: map<Geoid, V>)
    requires |keys| == |vals|
    ensures m.Keys == set k | k in keys
  {
    if keys == [] then map[]
    else
      var n := |keys| - 1;
      var init := Keyed(keys[..n], vals[..n]);
      assert forall k :: k in keys <==> k in keys[..n] || k == keys[n] by {
        assert keys == keys[..n] + [keys[n]];
      }
      init[keys[n] := vals[n]]
  }

  /** The entry of a key is the value of its last occurrence. */
  lemma {:induction false} KeyedLast<V>(keys: seq<Geoid>, vals: seq<V>, j: nat)
    requires |keys| == |vals| && j < |keys|
    requires forall l :: j < l < |keys| ==> keys[l] != keys[j]
    ensures keys[j] in Keyed(keys, vals) && Keyed(keys, vals)[keys[j]] == vals[j]
  {
    var n := |keys| - 1;
    if j < n {
      KeyedLast(keys[..n], vals[..n], j);
    }
  }

  /** The last index of a row with key `g`. */
  predicate IsLast(keys: seq<Geoid>, j: nat)
  {
    j < |keys| && forall l :: j < l < |keys| ==> keys[l] != keys[j]
  }

  /** A key present in the table has a last occurrence. */
  lemma {:induction false} LastExists(keys: seq<Geoid>, g: Geoid) returns (j: nat)
    requires g in keys
    ensures IsLast(keys, j) && keys[j] == g
  {
    var n := |keys| - 1;
    if keys[n] == g {
      j := n;
    } else {
      assert g in keys[..n] by {
        assert keys == keys[..n] + [keys[n]];
      }
      j := LastExists(keys[..n], g);
    }
  }

  // ---------------------------------------------------------------- MS/NYC

  /**
   * The value of the named column of an MS/NYC region (`gdf_region[name]`):
   * the census columns are ALAND and the three joined counts, the building
   * columns the aggregates and the ratios.
   */
  function MsCell(r: FeatureRow, name: string): Cell
    requires |r.extra| == 3 && name in MS_COLUMNS
  {
    if name == "ALAND" then Num(r.aland)
    else if name == "pop_overall" then Num(r.extra[0])
    else if name == "population_over18" then Num(r.extra[1])
    else if name == "pop_employment" then Num(r.extra[2])
    else if name == "area_mean" then Num(r.stats.areaMean)
    else if name == "height_mean" then Num(r.stats.heightMean)
    else if name == "building_density" then CellOf(r.buildingDensity)
    else CellOf(r.plotRatio)
  }

  /** The MS/NYC feature row of one region: cell `c` holds column `MS_COLUMNS[c]`. */
  function MsRaw(r: FeatureRow): (cells: seq<Cell>)
    requires |r.extra| == 3
    ensures |cells| == MS_WIDTH == |MS_COLUMNS|
    ensures forall c :: 0 <= c < MS_WIDTH ==> cells[c] == MsCell(r, MS_COLUMNS[c])
  {
    [Num(r.aland), Num(r.extra[0]), Num(r.extra[1]), Num(r.extra[2]),
     Num(r.stats.areaMean), Num(r.stats.heightMean), CellOf(r.buildingDensity), CellOf(r.plotRatio)]
  }

  predicate MsShaped(rows: seq<FeatureRow>)
  {
    forall i :: 0 <= i < |rows| ==> |rows[i].extra| == 3
  }

  function MsTable(rows: seq<FeatureRow>): (t: seq<seq<Cell>>)
    requires MsShaped(rows)
    ensures |t| == |rows| && Rectangular(t, MS_WIDTH)
    ensures forall i :: 0 <= i < |rows| ==> t[i] == MsRaw(rows[i])
  {
    seq(|rows|, i requires 0 <= i < |rows| && MsShaped(rows) => MsRaw(rows[i]))
  }

  /** The record of one region: `int()` on ALAND, pop_overall and pop_employment, raw values elsewhere. */
  function MsRecordOf(r: FeatureRow, feature: seq<Cell>): MsRecord
    requires |r.extra| == 3
  {
    MsRecord(Trunc(r.aland), Trunc(r.extra[0]), r.extra[1], Trunc(r.extra[2]),
      r.stats.areaMean, r.stats.heightMean, CellOf(r.buildingDensity), CellOf(r.plotRatio), feature)
  }

  function Geoids(rows: seq<FeatureRow>): (gs: seq<Geoid>)
    ensures |gs| == |rows| && forall i :: 0 <= i < |rows| ==> gs[i] == rows[i].geoid
  {
    seq(|rows|, i requires 0 <= i < |rows| => rows[i].geoid)
  }

  /** `region2info` of the MS/NYC script, or the error `fit_transform` raises. */
  function MsRegion2Info(rows: seq<FeatureRow>, scales: seq<real>): Result<map<Geoid, MsRecord>>
    requires MsShaped(rows) && Scales(scales, MS_WIDTH)
  {
    var raw := MsTable(rows);
    match FitError(raw)
    case Some(e) => Err(e)
    case None =>
      var features := StandardizeTable(raw, MS_WIDTH, scales);
      Ok(Keyed(Geoids(rows), seq(|rows|, i requires 0 <= i < |rows| => MsRecordOf(rows[i], features[i]))))
  }

  /** A region makes `fit_transform` raise exactly when its land area is 0 and one of its ratio numerators is not. */
  lemma InfiniteRatioIff(r: FeatureRow)
    requires |r.extra| == 3
    ensures (exists c :: 0 <= c < MS_WIDTH && MsRaw(r)[c].Inf?)
      <==> CellOf(r.buildingDensity).Inf? || CellOf(r.plotRatio).Inf?
  {
    var cells := MsRaw(r);
    if CellOf(r.buildingDensity).Inf? {
      assert cells[6].Inf?;
    }
    if CellOf(r.plotRatio).Inf? {
      assert cells[7].Inf?;
    }
  }

  /**
   * The MS/NYC dump fails exactly when there is no region, or when a region
   * of land area 0 has buildings with a nonzero area or volume sum (an
   * infinite ratio); a 0 / 0 ratio is a NaN cell, which the scaler accepts.
   */
  lemma MsRegion2InfoFails(regions: seq<Region>, buildings: seq<JoinedBuilding>, scales: seq<real>)
    requires forall i :: 0 <= i < |regions| ==> |regions[i].extra| == 3
    requires Scales(scales, MS_WIDTH)
    ensures var rows := BuildingFeatures(regions, buildings);
      && MsShaped(rows)
      && (MsRegion2Info(rows, scales) == Err(NoSamples) <==> regions == [])
      && (MsRegion2Info(rows, scales) == Err(InfiniteInput) <==>
            (regions != [] && exists i :: (0 <= i < |regions| && regions[i].aland == 0.0
              && (rows[i].stats.areaSum != 0.0 || rows[i].stats.volumeSum != 0.0))))
  {
    var rows := BuildingFeatures(regions, buildings);
    BuildingFeaturesPerRegion(regions, buildings);
    assert MsShaped(rows);
    MsTableInfIff(rows);
    forall i | 0 <= i < |regions|
      ensures (rows[i].buildingDensity.Infinite? || rows[i].plotRatio.Infinite?) <==>
        (regions[i].aland == 0.0 && (rows[i].stats.areaSum != 0.0 || rows[i].stats.volumeSum != 0.0))
    {
      RegionAggregates(regions, buildings, i);
    }
  }

  /** The MS/NYC table has an infinite cell exactly when some region has an infinite ratio. */
  lemma MsTableInfIff(rows: seq<FeatureRow>)
    requires MsShaped(rows)
    ensures HasInf(MsTable(rows)) <==>
      exists i :: 0 <= i < |rows| && (rows[i].buildingDensity.Infinite? || rows[i].plotRatio.Infinite?)
  {
    var raw := MsTable(rows);
    if HasInf(raw) {
      var i, c :| 0 <= i < |raw| && 0 <= c < |raw[i]| && raw[i][c].Inf?;
      InfiniteRatioIff(rows[i]);
    }
    if exists i :: 0 <= i < |rows| && (rows[i].buildingDensity.Infinite? || rows[i].plotRatio.Infinite?) {
      var i :| 0 <= i < |rows| && (rows[i].buildingDensity.Infinite? || rows[i].plotRatio.Infinite?);
      InfiniteRatioIff(rows[i]);
      var c :| 0 <= c < MS_WIDTH && MsRaw(rows[i])[c].Inf?;
      assert raw[i][c].Inf?;
    }
  }

  /**
   * Every GEOID of the table has a record, and the record of a GEOID is built
   * from its last row: ALAND, pop_overall and pop_employment truncated
   * toward zero, the other columns as they are, and the 8 standardised
   * columns, each centred over the table (`MsFeatureColumn` maps them back).
   */
  lemma MsRegion2InfoRecords(rows: seq<FeatureRow>, scales: seq<real>, j: nat)
    requires MsShaped(rows) && Scales(scales, MS_WIDTH)
    requires MsRegion2Info(rows, scales).Ok?
    requires IsLast(Geoids(rows), j)
    ensures var m := MsRegion2Info(rows, scales).value;
      var r, features := rows[j], StandardizeTable(MsTable(rows), MS_WIDTH, scales);
      && m.Keys == (set i | 0 <= i < |rows| :: rows[i].geoid)
      && r.geoid in m
      && m[r.geoid].aland == Trunc(r.aland)
      && m[r.geoid].popOverall == Trunc(r.extra[0])
      && m[r.geoid].populationOver18 == r.extra[1]
      && m[r.geoid].popEmployment == Trunc(r.extra[2])
      && m[r.geoid].areaMean == r.stats.areaMean
      && m[r.geoid].heightMean == r.stats.heightMean
      && m[r.geoid].buildingDensity == CellOf(r.buildingDensity)
      && m[r.geoid].plotRatio == CellOf(r.plotRatio)
      && m[r.geoid].feature == features[j]
      && |m[r.geoid].feature| == MS_WIDTH
      && (forall c :: 0 <= c < MS_WIDTH ==> Sum(Present(Column(features, c))) == 0.0)
  {
    var raw := MsTable(rows);
    var features := StandardizeTable(raw, MS_WIDTH, scales);
    var recs := seq(|rows|, i requires 0 <= i < |rows| => MsRecordOf(rows[i], features[i]));
    KeyedLast(Geoids(rows), recs, j);
    var gs := Geoids(rows);
    assert (set k | k in gs) == set i | 0 <= i < |rows| :: rows[i].geoid by {
      forall k | k in gs ensures k in set i | 0 <= i < |rows| :: rows[i].geoid {
        var i :| 0 <= i < |gs| && gs[i] == k;
      }
      forall i | 0 <= i < |rows| ensures rows[i].geoid in gs {
        assert gs[i] == rows[i].geoid;
      }
    }
    forall c | 0 <= c < MS_WIDTH ensures Sum(Present(Column(features, c))) == 0.0 {
      StandardizeTableFacts(raw, MS_WIDTH, scales, j, c);
    }
  }

  /**
   * Cell `c` of a region's feature is its column `MS_COLUMNS[c]` standardised:
   * scaled back by the column's scale and mean it is the raw value again.
   */
  lemma MsFeatureColumn(rows: seq<FeatureRow>, scales: seq<real>, j: nat, c: nat)
    requires MsShaped(rows) && Scales(scales, MS_WIDTH)
    requires j < |rows| && c < MS_WIDTH
    requires MsCell(rows[j], MS_COLUMNS[c]).Num?
    ensures var feature := StandardizeTable(MsTable(rows), MS_WIDTH, scales)[j];
      && feature[c].Num?
      && Present(Column(MsTable(rows), c)) != []
      && Unscaled(feature[c].value, Mean(Present(Column(MsTable(rows), c))), scales[c]) == MsCell(rows[j], MS_COLUMNS[c]).value
  {
    StandardizeTableFacts(MsTable(rows), MS_WIDTH, scales, j, c);
  }

  /** `dump_region2info` of the MS/NYC script as it runs: the copy, the in-place scaling, the records. */
  method DumpMsRegion2Info(rows: seq<FeatureRow>, scales: seq<real>) returns (result: Result<map<Geoid, MsRecord>>)
    requires MsShaped(rows) && Scales(scales, MS_WIDTH)
    ensures result == MsRegion2Info(rows, scales)
  {
    var normal := new NormalFrame(Geoids(rows), MsTable(rows), MS_WIDTH);
    var err := normal.AssignStandardized(scales);
    if err.Some? {
      return Err(err.value);
    }
    var features := normal.table;
    result := Ok(Keyed(Geoids(rows), seq(|rows|, i requires 0 <= i < |rows| => MsRecordOf(rows[i], features[i]))));
  }

  // -------------------------------------------------------------------- CN

  /** The value of the named column of a CN region (`gdf_region[name]`). */
  function CnCell(r: FeatureRow, name: string): Cell
    requires |r.extra| == 1 && name in CN_COLUMNS
  {
    if name == "ALAND" then Num(r.aland)
    else if name == "pop_overall" then Num(r.extra[0])
    else if name == "area_mean" then Num(r.stats.areaMean)
    else if name == "height_mean" then Num(r.stats.heightMean)
    else if name == "building_density" then CellOf(r.buildingDensity)
    else CellOf(r.plotRatio)
  }

  /** The CN feature row of one region: cell `c` holds column `CN_COLUMNS[c]`. */
  function CnRaw(r: FeatureRow): (cells: seq<Cell>)
    requires |r.extra| == 1
    ensures |cells| == CN_WIDTH == |CN_COLUMNS|
    ensures forall c :: 0 <= c < CN_WIDTH ==> cells[c] == CnCell(r, CN_COLUMNS[c])
  {
    [Num(r.aland), Num(r.extra[0]), Num(r.stats.areaMean), Num(r.stats.heightMean),
     CellOf(r.buildingDensity), CellOf(r.plotRatio)]
  }

  predicate CnShaped(rows: seq<FeatureRow>)
  {
    forall i :: 0 <= i < |rows| ==> |rows[i].extra| == 1
  }

  function CnTable(rows: seq<FeatureRow>): (t: seq<seq<Cell>>)
    requires CnShaped(rows)
    ensures |t| == |rows| && Rectangular(t, CN_WIDTH)
    ensures forall i :: 0 <= i < |rows| ==> t[i] == CnRaw(rows[i])
  {
    seq(|rows|, i requires 0 <= i < |rows| && CnShaped(rows) => CnRaw(rows[i]))
  }

  /** The record of one region: `int()` on ALAND and pop_overall, raw values elsewhere. */
  function CnRecordOf(r: FeatureRow, feature: seq<Cell>): CnRecord
    requires |r.extra| == 1
  {
    CnRecord(Trunc(r.aland), Trunc(r.extra[0]), r.stats.areaMean, r.stats.heightMean,
      CellOf(r.buildingDensity), CellOf(r.plotRatio), feature)
  }

  /** `region2info` of the CN script, or the error `fit_transform` raises. */
  function CnRegion2Info(rows: seq<FeatureRow>, scales: seq<real>): Result<map<Geoid, CnRecord>>
    requires CnShaped(rows) && Scales(scales, CN_WIDTH)
  {
    var raw := CnTable(rows);
    match FitError(raw)
    case Some(e) => Err(e)
    case None =>
      var features := StandardizeTable(raw, CN_WIDTH, scales);
      Ok(Keyed(Geoids(rows), seq(|rows|, i requires 0 <= i < |rows| => CnRecordOf(rows[i], features[i]))))
  }

  /**
   * The CN dump fails exactly when there is no region, or when a region of
   * land area 0 has buildings with a nonzero area or volume sum.
   */
  lemma CnRegion2InfoFails(regions: seq<Region>, buildings: seq<JoinedBuilding>, scales: seq<real>)
    requires forall i :: 0 <= i < |regions| ==> |regions[i].extra| == 1
    requires Scales(scales, CN_WIDTH)
    ensures var rows := BuildingFeatures(regions, buildings);
      && CnShaped(rows)
      && (CnRegion2Info(rows, scales) == Err(NoSamples) <==> regions == [])
      && (CnRegion2Info(rows, scales) == Err(InfiniteInput) <==>
            (regions != [] && exists i :: (0 <= i < |regions| && regions[i].aland == 0.0
              && (rows[i].stats.areaSum != 0.0 || rows[i].stats.volumeSum != 0.0))))
  {
    var rows := BuildingFeatures(regions, buildings);
    BuildingFeaturesPerRegion(regions, buildings);
    assert CnShaped(rows);
    CnTableInfIff(rows);
    forall i | 0 <= i < |regions|
      ensures (rows[i].buildingDensity.Infinite? || rows[i].plotRatio.Infinite?) <==>
        (regions[i].aland == 0.0 && (rows[i].stats.areaSum != 0.0 || rows[i].stats.volumeSum != 0.0))
    {
      RegionAggregates(regions, buildings, i);
    }
  }

  /** The CN table has an infinite cell exactly when some region has an infinite ratio. */
  lemma CnTableInfIff(rows: seq<FeatureRow>)
    requires CnShaped(rows)
    ensures HasInf(CnTable(rows)) <==>
      exists i :: 0 <= i < |rows| && (rows[i].buildingDensity.Infinite? || rows[i].plotRatio.Infinite?)
  {
    var raw := CnTable(rows);
    if HasInf(raw) {
      var i, c :| 0 <= i < |raw| && 0 <= c < |raw[i]| && raw[i][c].Inf?;
      assert c == 4 || c == 5;
    }
    if exists i :: 0 <= i < |rows| && (rows[i].buildingDensity.Infinite? || rows[i].plotRatio.Infinite?) {
      var i :| 0 <= i < |rows| && (rows[i].buildingDensity.Infinite? || rows[i].plotRatio.Infinite?);
      if rows[i].buildingDensity.Infinite? {
        assert raw[i][4].Inf?;
      } else {
        assert raw[i][5].Inf?;
      }
    }
  }

  /**
   * Every GEOID of the CN table has a record, built from its last row:
   * ALAND and pop_overall truncated toward zero, the other columns as they
   * are, and the 6 standardised columns, each centred over the table.
   */
  lemma CnRegion2InfoRecords(rows: seq<FeatureRow>, scales: seq<real>, j: nat)
    requires CnShaped(rows) && Scales(scales, CN_WIDTH)
    requires CnRegion2Info(rows, scales).Ok?
    requires IsLast(Geoids(rows), j)
    ensures var m := CnRegion2Info(rows, scales).value;
      var r, features := rows[j], StandardizeTable(CnTable(rows), CN_WIDTH, scales);
      && m.Keys == (set i | 0 <= i < |rows| :: rows[i].geoid)
      && r.geoid in m
      && m[r.geoid].aland == Trunc(r.aland)
      && m[r.geoid].popOverall == Trunc(r.extra[0])
      && m[r.geoid].areaMean == r.stats.areaMean
      && m[r.geoid].heightMean == r.stats.heightMean
      && m[r.geoid].buildingDensity == CellOf(r.buildingDensity)
      && m[r.geoid].plotRatio == CellOf(r.plotRatio)
      && m[r.geoid].feature == features[j]
      && |m[r.geoid].feature| == CN_WIDTH
      && (forall c :: 0 <= c < CN_WIDTH ==> Sum(Present(Column(features, c))) == 0.0)
  {
    var raw := CnTable(rows);
    var features := StandardizeTable(raw, CN_WIDTH, scales);
    var recs := seq(|rows|, i requires 0 <= i < |rows| => CnRecordOf(rows[i], features[i]));
    KeyedLast(Geoids(rows), recs, j);
    var gs := Geoids(rows);
    assert (set k | k in gs) == set i | 0 <= i < |rows| :: rows[i].geoid by {
      forall k | k in gs ensures k in set i | 0 <= i < |rows| :: rows[i].geoid {
        var i :| 0 <= i < |gs| && gs[i] == k;
      }
      forall i | 0 <= i < |rows| ensures rows[i].geoid in gs {
        assert gs[i] == rows[i].geoid;
      }
    }
    forall c | 0 <= c < CN_WIDTH ensures Sum(Present(Column(features, c))) == 0.0 {
      StandardizeTableFacts(raw, CN_WIDTH, scales, j, c);
    }
  }

  /**
   * Cell `c` of a region's feature is its column `CN_COLUMNS[c]` standardised:
   * scaled back by the column's scale and mean it is the raw value again.
   */
  lemma CnFeatureColumn(rows: seq<FeatureRow>, scales: seq<real>, j: nat, c: nat)
    requires CnShaped(rows) && Scales(scales, CN_WIDTH)
    requires j < |rows| && c < CN_WIDTH
    requires CnCell(rows[j], CN_COLUMNS[c]).Num?
    ensures var feature := StandardizeTable(CnTable(rows), CN_WIDTH, scales)[j];
      && feature[c].Num?
      && Present(Column(CnTable(rows), c)) != []
      && Unscaled(feature[c].value, Mean(Present(Column(CnTable(rows), c))), scales[c]) == CnCell(rows[j], CN_COLUMNS[c]).value
  {
    StandardizeTableFacts(CnTable(rows), CN_WIDTH, scales, j, c);
  }

  /** `dump_region2info` of the CN script as it runs: the copy, the in-place scaling, the records. */
  method DumpCnRegion2Info(rows: seq<FeatureRow>, scales: seq<real>) returns (result: Result<map<Geoid, CnRecord>>)
    requires CnShaped(rows) && Scales(scales, CN_WIDTH)
    ensures result == CnRegion2Info(rows, scales)
  {
    var normal := new NormalFrame(Geoids(rows), CnTable(rows), CN_WIDTH);
    var err := normal.AssignStandardized(scales);
    if err.Some? {
      return Err(err.value);
    }
    var features := normal.table;
    result := Ok(Keyed(Geoids(rows), seq(|rows|, i requires 0 <= i < |rows| => CnRecordOf(rows[i], features[i]))));
  }
}
