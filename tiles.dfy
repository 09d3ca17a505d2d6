/**
 * The CNBH10m tile grid of `download_tifs` in the CN script: the regions'
 * bounding box is padded by 0.5, each bound truncated and snapped to an odd
 * integer, and the tiles are every odd (X, Y) pair between the snapped
 * bounds, enumerated as `np.meshgrid(...).flatten()` does.
 */
module CnTiles {
  import opened Common

  /** `total_bounds` of the regions: (minx, miny, maxx, maxy). */
  datatype Bounds = Bounds(minX: real, minY: real, maxX: real, maxY: real)

  /** A tile of the CNBH10m file naming `CNBH10m_X{X}Y{Y}.tif`. */
  datatype Tile = Tile(x: int, y: int)

  /** `bounds_int`: the snapped bounds. */
  datatype TileRange = TileRange(x0: int, y0: int, x1: int, y1: int)

  /** The padding added on every side of the bounding box. */
  const PAD: real := 0.5

  predicate Odd(n: int) { n % 2 == 1 }

  predicate WellFormed(b: Bounds) { b.minX <= b.maxX && b.minY <= b.maxY }

  /** The bounding box widened by `PAD` on every side. */
  function Padded(b: Bounds): (p: Bounds)
    ensures p.maxX - p.minX == b.maxX - b.minX + 2.0 * PAD
    ensures p.maxY - p.minY == b.maxY - b.minY + 2.0 * PAD
    ensures p.minX < b.minX && p.minY < b.minY && b.maxX < p.maxX && b.maxY < p.maxY
    ensures b.minX - p.minX == PAD && b.minY - p.minY == PAD
    ensures p.maxX - b.maxX == PAD && p.maxY - b.maxY == PAD
  {
    Bounds(b.minX - PAD, b.minY - PAD, b.maxX + PAD, b.maxY + PAD)
  }

  /**
   * `int(x) + 1 if int(x) % 2 == 0 else int(x)` on the truncated value `t`.
   * Python's `%` and Dafny's agree on the divisor 2 (both give 0 or 1).
   */
  function SnapOdd(t: int): (o: int)
    ensures Odd(o)
    ensures t <= o <= t + 1
    ensures Odd(t) ==> o == t
  {
    if t % 2 == 0 then t + 1 else t
  }

  lemma SnapOddMonotone(s: int, t: int)
    requires s <= t
    ensures SnapOdd(s) <= SnapOdd(t)
  {
  }

  lemma TruncMonotone(a: real, b: real)
    requires a <= b
    ensures Trunc(a) <= Trunc(b)
  {
  }

  /** `bounds_int`: every padded bound truncated toward zero, then snapped to an odd integer. */
  function BoundsInt(b: Bounds): (r: TileRange)
    ensures Odd(r.x0) && Odd(r.y0) && Odd(r.x1) && Odd(r.y1)
    ensures var p := Padded(b);
      && Trunc(p.minX) <= r.x0 <= Trunc(p.minX) + 1
      && Trunc(p.minY) <= r.y0 <= Trunc(p.minY) + 1
      && Trunc(p.maxX) <= r.x1 <= Trunc(p.maxX) + 1
      && Trunc(p.maxY) <= r.y1 <= Trunc(p.maxY) + 1
  {
    var p := Padded(b);
    TileRange(SnapOdd(Trunc(p.minX)), SnapOdd(Trunc(p.minY)), SnapOdd(Trunc(p.maxX)), SnapOdd(Trunc(p.maxY)))
  }

  /** `np.arange(start, stop, 2)`. */
  function Arange(start: int, stop: int): (r: seq<int>)
    decreases stop - start
    ensures |r| == if start < stop then (stop - start + 1) / 2 else 0
    ensures forall k :: 0 <= k < |r| ==> r[k] == start + 2 * k && r[k] < stop
  {
    if start >= stop then [] else [start] + Arange(start + 2, stop)
  }

  /** The values of `np.arange(start, stop, 2)` are those below `stop`, from `start` on, of its parity. */
  lemma ArangeExactly(start: int, stop: int, v: int)
    ensures v in Arange(start, stop) <==> start <= v < stop && (v - start) % 2 == 0
  {
    if v in Arange(start, stop) {
      var r := Arange(start, stop);
      var k :| 0 <= k < |r| && r[k] == v;
      assert v - start == 2 * k;
    }
    var r := Arange(start, stop);
    if start <= v < stop && (v - start) % 2 == 0 {
      var k := (v - start) / 2;
      assert r[k] == v;
    }
  }

  lemma ArangeDistinct(start: int, stop: int)
    ensures Distinct(Arange(start, stop))
  {
  }

  /** One row of the mesh grid: every X with the same Y. */
  function GridRow(xs: seq<int>, y: int): (row: seq<Tile>)
    ensures |row| == |xs|
    ensures forall j :: 0 <= j < |xs| ==> row[j] == Tile(xs[j], y)
  {
    seq(|xs|, j requires 0 <= j < |xs| => Tile(xs[j], y))
  }

  /** `zip(*[a.flatten() for a in np.meshgrid(xs, ys)])`: rows by Y, and X inside each row. */
  function Grid(xs: seq<int>, ys: seq<int>): seq<Tile>
  {
    if ys == [] then [] else GridRow(xs, ys[0]) + Grid(xs, ys[1..])
  }

  lemma MulSucc(a: int, n: int)
    ensures (a + 1) * n == a * n + n
  {
  }

  lemma MulMonotone(a: nat, b: nat, n: nat)
    requires a <= b
    ensures a * n <= b * n
  {
  }

  lemma {:induction false} GridLength(xs: seq<int>, ys: seq<int>)
    ensures |Grid(xs, ys)| == |ys| * |xs|
  {
    if ys != [] {
      GridLength(xs, ys[1..]);
      MulSucc(|ys| - 1, |xs|);
    }
  }

  /** Entry `i * |xs| + j` of the grid is the tile of `ys[i]` and `xs[j]`. */
  lemma {:induction false} GridAt(xs: seq<int>, ys: seq<int>, i: nat, j: nat)
    requires i < |ys| && j < |xs|
    ensures |Grid(xs, ys)| == |ys| * |xs|
    ensures i * |xs| + j < |Grid(xs, ys)|
    ensures Grid(xs, ys)[i * |xs| + j] == Tile(xs[j], ys[i])
  {
    GridLength(xs, ys);
    MulMonotone(i + 1, |ys|, |xs|);
    MulSucc(i, |xs|);
    if i > 0 {
      var n := |xs|;
      GridAt(xs, ys[1..], i - 1, j);
      MulSucc(i - 1, n);
      assert i * n + j == n + ((i - 1) * n + j);
      assert ys[1..][i - 1] == ys[i];
    }
  }

  lemma {:induction false} GridExactly(xs: seq<int>, ys: seq<int>, t: Tile)
    ensures t in Grid(xs, ys) <==> t.x in xs && t.y in ys
  {
    if ys != [] {
      GridExactly(xs, ys[1..], t);
      var row := GridRow(xs, ys[0]);
      assert t in row <==> t.x in xs && t.y == ys[0] by {
        if t in row {
          var j :| 0 <= j < |row| && row[j] == t;
        }
        if t.x in xs && t.y == ys[0] {
          var j :| 0 <= j < |xs| && xs[j] == t.x;
          assert row[j] == t;
        }
      }
      assert t.y in ys <==> t.y == ys[0] || t.y in ys[1..] by {
        assert ys == [ys[0]] + ys[1..];
      }
    }
  }

  lemma {:induction false} GridDistinct(xs: seq<int>, ys: seq<int>)
    requires Distinct(xs) && Distinct(ys)
    ensures Distinct(Grid(xs, ys))
  {
    if ys != [] {
      var rest := ys[1..];
      GridDistinct(xs, rest);
      var row, tail := GridRow(xs, ys[0]), Grid(xs, rest);
      forall t | t in tail ensures t.y != ys[0] {
        GridExactly(xs, rest, t);
        var k :| 0 <= k < |rest| && rest[k] == t.y;
        assert ys[k + 1] == t.y;
      }
      var g := row + tail;
      forall i, j | 0 <= i < j < |g| ensures g[i] != g[j] {
        if j < |row| {
        } else if i < |row| {
          assert g[j] in tail;
        } else {
          assert g[i] == tail[i - |row|] && g[j] == tail[j - |row|];
        }
      }
    }
  }

  /** The X and Y axes of the grid: `np.arange(bounds_int[0], bounds_int[2] + 1, 2)` and the same for Y. */
  function XAxis(b: Bounds): seq<int>
  {
    var r := BoundsInt(b);
    Arange(r.x0, r.x1 + 1)
  }

  function YAxis(b: Bounds): seq<int>
  {
    var r := BoundsInt(b);
    Arange(r.y0, r.y1 + 1)
  }

  /** The tiles `download_tifs` enumerates for the regions' bounds. */
  function TileGrid(b: Bounds): seq<Tile>
  {
    Grid(XAxis(b), YAxis(b))
  }

  /** A tile is in the grid exactly when both its coordinates are odd and lie between the snapped bounds. */
  lemma TileGridExactly(b: Bounds, t: Tile)
    ensures var r := BoundsInt(b);
      t in TileGrid(b) <==> r.x0 <= t.x <= r.x1 && Odd(t.x) && r.y0 <= t.y <= r.y1 && Odd(t.y)
  {
    var r := BoundsInt(b);
    assert TileGrid(b) == Grid(Arange(r.x0, r.x1 + 1), Arange(r.y0, r.y1 + 1));
    RangeGridExactly(r, t);
  }

  /** The grid of a snapped range holds exactly its tiles with odd coordinates. */
  lemma RangeGridExactly(r: TileRange, t: Tile)
    requires Odd(r.x0) && Odd(r.y0)
    ensures t in Grid(Arange(r.x0, r.x1 + 1), Arange(r.y0, r.y1 + 1))
      <==> r.x0 <= t.x <= r.x1 && Odd(t.x) && r.y0 <= t.y <= r.y1 && Odd(t.y)
  {
    var xs, ys := Arange(r.x0, r.x1 + 1), Arange(r.y0, r.y1 + 1);
    var inX, inY := r.x0 <= t.x <= r.x1 && Odd(t.x), r.y0 <= t.y <= r.y1 && Odd(t.y);
    AxisExactly(r.x0, r.x1, t.x);
    AxisExactly(r.y0, r.y1, t.y);
    assert t.x in xs <==> inX;
    assert t.y in ys <==> inY;
    GridExactly(xs, ys, t);
  }

  /** An axis from an odd bound to another, inclusive, holds exactly the odd values between them. */
  lemma AxisExactly(lo: int, hi: int, v: int)
    requires Odd(lo)
    ensures v in Arange(lo, hi + 1) <==> lo <= v <= hi && Odd(v)
  {
    ArangeExactly(lo, hi + 1, v);
    OddParity(v, lo);
  }

  lemma OddParity(v: int, s: int)
    requires Odd(s)
    ensures (v - s) % 2 == 0 <==> Odd(v)
  {
  }

  /** Every tile is enumerated once. */
  lemma TileGridDistinct(b: Bounds)
    ensures Distinct(TileGrid(b))
  {
    ArangeDistinct(BoundsInt(b).x0, BoundsInt(b).x1 + 1);
    ArangeDistinct(BoundsInt(b).y0, BoundsInt(b).y1 + 1);
    GridDistinct(XAxis(b), YAxis(b));
  }

  /** An axis between two odd bounds has one entry per odd value between them. */
  lemma AxisLength(lo: int, hi: int)
    requires Odd(lo) && Odd(hi)
    ensures |Arange(lo, hi + 1)| == if lo <= hi then (hi - lo) / 2 + 1 else 0
  {
  }

  /**
   * The enumeration order: with `nx` tiles per row, entry `i * nx + j` is the
   * tile `j` steps of 2 east of the first X and `i` steps of 2 north of the first Y.
   */
  lemma TileGridAt(b: Bounds, i: nat, j: nat)
    requires i < |YAxis(b)| && j < |XAxis(b)|
    ensures i * |XAxis(b)| + j < |TileGrid(b)|
    ensures TileGrid(b)[i * |XAxis(b)| + j] == Tile(BoundsInt(b).x0 + 2 * j, BoundsInt(b).y0 + 2 * i)
  {
    GridAt(XAxis(b), YAxis(b), i, j);
  }

  /** The number of tiles per row and per column of the grid. */
  lemma TileGridShape(b: Bounds)
    ensures var r := BoundsInt(b);
      && |XAxis(b)| == (if r.x0 <= r.x1 then (r.x1 - r.x0) / 2 + 1 else 0)
      && |YAxis(b)| == (if r.y0 <= r.y1 then (r.y1 - r.y0) / 2 + 1 else 0)
      && |TileGrid(b)| == |YAxis(b)| * |XAxis(b)|
  {
    var r := BoundsInt(b);
    AxisLength(r.x0, r.x1);
    AxisLength(r.y0, r.y1);
    GridLength(XAxis(b), YAxis(b));
  }

  /** For a well-formed bounding box the grid is never empty. */
  lemma TileGridNonEmpty(b: Bounds)
    requires WellFormed(b)
    ensures TileGrid(b) != []
  {
    var p, r := Padded(b), BoundsInt(b);
    TruncMonotone(p.minX, p.maxX);
    TruncMonotone(p.minY, p.maxY);
    SnapOddMonotone(Trunc(p.minX), Trunc(p.maxX));
    SnapOddMonotone(Trunc(p.minY), Trunc(p.maxY));
    TileGridExactly(b, Tile(r.x0, r.y0));
  }

  /** The tiles of `tiles` whose file is not on disk yet, in order. */
  function Missing(tiles: seq<Tile>, present: set<Tile>): seq<Tile>
  {
    if tiles == [] then []
    else
      var last := tiles[|tiles| - 1];
      Missing(tiles[..|tiles| - 1], present) + (if last in present then [] else [last])
  }

  /** A tile is downloaded exactly when it is in the grid and its file is absent, and at most once. */
  lemma {:induction false} MissingExactly(tiles: seq<Tile>, present: set<Tile>)
    requires Distinct(tiles)
    ensures forall t :: t in Missing(tiles, present) <==> t in tiles && t !in present
    ensures Distinct(Missing(tiles, present))
  {
    if tiles != [] {
      var init, last := tiles[..|tiles| - 1], tiles[|tiles| - 1];
      assert tiles == init + [last];
      MissingExactly(init, present);
      assert last !in init by {
        forall k | 0 <= k < |init| ensures init[k] != last {
          assert tiles[k] == init[k];
        }
      }
    }
  }

  /**
   * `download_tifs(regions)`: the tile grid, and the loop that runs `wget`
   * for every tile whose file is not in `present`; `fetched` lists those
   * downloads in order. The file system is the input `present`.
   */
  method DownloadTifs(regionsBounds: Bounds, present: set<Tile>) returns (tifs: seq<Tile>, fetched: seq<Tile>)
    ensures tifs == TileGrid(regionsBounds)
    ensures fetched == Missing(tifs, present)
  {
    tifs := TileGrid(regionsBounds);
    fetched := [];
    for k := 0 to |tifs|
      invariant fetched == Missing(tifs[..k], present)
    {
      assert tifs[..k + 1][..k] == tifs[..k];
      if tifs[k] !in present {
        fetched := fetched + [tifs[k]];
      }
    }
    assert tifs[..|tifs|] == tifs;
  }

  /** After `download_tifs`, every tile of the grid has its file, and no tile was fetched twice. */
  lemma DownloadCompletesGrid(b: Bounds, present: set<Tile>)
    ensures forall t :: t in TileGrid(b) ==> t in present || t in Missing(TileGrid(b), present)
    ensures Distinct(Missing(TileGrid(b), present))
  {
    TileGridDistinct(b);
    MissingExactly(TileGrid(b), present);
  }
}
