/**
 * The building rows of the MS/NYC script (`get_nyc_building`,
 * `get_MS_building`) after the spatial join, and the loop that fetches the
 * Microsoft building tiles of the wanted quadkeys.
 *
 * The spatial join (`within`) and the geodesic area are computed by
 * libraries; each feature carries their results: its area and the GEOIDs of
 * the regions that contain it (one joined row per containing region, none
 * when no region contains it).
 */
module MsSources {
  import opened Common
  import opened Aggregation

  /** The NYC `feat_code` of a building footprint. */
  const NYC_BUILDING_CODE: string := "2100"

  const METRES_PER_FOOT: real := 0.3048

  /** A NYC footprint feature: `feat_code`, `heightroof` (feet, possibly missing), area, containing regions. */
  datatype NycFeature = NycFeature(featCode: string, heightRoof: Option<real>, area: real, within: seq<Geoid>)

  /** A Microsoft footprint feature: `height` (metres), area, containing regions. */
  datatype MsFeature = MsFeature(height: real, area: real, within: seq<Geoid>)

  /** One row of the quadkey index `dataset-links.csv`. */
  datatype DatasetLink = DatasetLink(quadKey: int, url: string)

  /** `fillna(0)`, then feet to metres. */
  function NycHeight(heightRoof: Option<real>): (m: real)
    ensures heightRoof.None? ==> m == 0.0
    ensures heightRoof.Some? ==> m == heightRoof.value * METRES_PER_FOOT
  {
    OrZero(heightRoof) * METRES_PER_FOOT
  }

  /** `get_nyc_building`: keep `feat_code == "2100"`, join, height in metres; no height filter. */
  function NycRows(fs: seq<NycFeature>): seq<JoinedBuilding>
  {
    if fs == [] then []
    else
      (if fs[0].featCode == NYC_BUILDING_CODE
       then JoinRows(fs[0].within, fs[0].area, NycHeight(fs[0].heightRoof))
       else [])
      + NycRows(fs[1..])
  }

  /** `get_MS_building`: join, the `height` property as it is; no height filter. */
  function MsRows(fs: seq<MsFeature>): seq<JoinedBuilding>
  {
    if fs == [] then [] else JoinRows(fs[0].within, fs[0].area, fs[0].height) + MsRows(fs[1..])
  }

  /** The NYC rows of a concatenation are the rows of each part, in order. */
  lemma {:induction false} NycRowsAppend(a: seq<NycFeature>, b: seq<NycFeature>)
    ensures NycRows(a + b) == NycRows(a) + NycRows(b)
  {
    if a == [] {
      assert a + b == b;
    } else {
      assert (a + b)[0] == a[0] && (a + b)[1..] == a[1..] + b;
      NycRowsAppend(a[1..], b);
    }
  }

  /**
   * A row is produced exactly for a pair of a `2100` feature and a region
   * containing it, with the feature's area and its roof height in metres
   * (0 when missing): other feature codes yield nothing, and zero heights are kept.
   */
  lemma {:induction false} NycRowsExactly(fs: seq<NycFeature>, b: JoinedBuilding)
    ensures b in NycRows(fs) <==> (exists f :: f in fs && f.featCode == NYC_BUILDING_CODE
                                    && b.geoid in f.within && b.area == f.area && b.height == NycHeight(f.heightRoof))
  {
    if fs != [] {
      NycRowsExactly(fs[1..], b);
      var f := fs[0];
      var mine := if f.featCode == NYC_BUILDING_CODE then JoinRows(f.within, f.area, NycHeight(f.heightRoof)) else [];
      assert NycRows(fs) == mine + NycRows(fs[1..]);
      assert b in mine <==> (f.featCode == NYC_BUILDING_CODE && b.geoid in f.within
                             && b.area == f.area && b.height == NycHeight(f.heightRoof)) by {
        if b in mine {
          var k :| 0 <= k < |mine| && mine[k] == b;
        }
        if f.featCode == NYC_BUILDING_CODE && b.geoid in f.within && b.area == f.area && b.height == NycHeight(f.heightRoof) {
          var k :| 0 <= k < |f.within| && f.within[k] == b.geoid;
          assert mine[k] == b;
        }
      }
      assert forall g :: g in fs <==> g == f || g in fs[1..] by {
        assert fs == [f] + fs[1..];
      }
    }
  }

  /** A feature yields as many NYC rows as regions contain it when it is a building, and none otherwise. */
  lemma NycRowsCount(fs: seq<NycFeature>, f: NycFeature)
    ensures |NycRows(fs + [f])| == |NycRows(fs)| + (if f.featCode == NYC_BUILDING_CODE then |f.within| else 0)
  {
    NycRowsAppend(fs, [f]);
    assert [f][1..] == [];
  }

  /** A row is produced exactly for a pair of a Microsoft feature and a region containing it, with the feature's own height. */
  lemma {:induction false} MsRowsExactly(fs: seq<MsFeature>, b: JoinedBuilding)
    ensures b in MsRows(fs) <==> (exists f :: f in fs
                                   && b.geoid in f.within && b.area == f.area && b.height == f.height)
  {
    if fs != [] {
      MsRowsExactly(fs[1..], b);
      var f := fs[0];
      var mine := JoinRows(f.within, f.area, f.height);
      assert b in mine <==> b.geoid in f.within && b.area == f.area && b.height == f.height by {
        if b in mine {
          var k :| 0 <= k < |mine| && mine[k] == b;
        }
        if b.geoid in f.within && b.area == f.area && b.height == f.height {
          var k :| 0 <= k < |f.within| && f.within[k] == b.geoid;
          assert mine[k] == b;
        }
      }
      assert forall g :: g in fs <==> g == f || g in fs[1..] by {
        assert fs == [f] + fs[1..];
      }
    }
  }

  /** The features of the links whose quadkey is wanted, concatenated in link order. */
  function FetchedFeatures(links: seq<DatasetLink>, quadKeys: set<int>, fetch: string -> seq<MsFeature>)
    : seq<MsFeature>
  {
    if links == [] then []
    else
      var last := links[|links| - 1];
      FetchedFeatures(links[..|links| - 1], quadKeys, fetch)
        + (if last.quadKey in quadKeys then fetch(last.url) else [])
  }

  /** Whether some link is wanted (otherwise `pd.concat` gets no frame). */
  predicate AnyWanted(links: seq<DatasetLink>, quadKeys: set<int>)
  {
    exists l :: l in links && l.quadKey in quadKeys
  }

  /** A feature is fetched exactly when it belongs to the file of a link whose quadkey is wanted. */
  lemma {:induction false} FetchedFeaturesExactly(links: seq<DatasetLink>, quadKeys: set<int>, fetch: string -> seq<MsFeature>, f: MsFeature)
    ensures f in FetchedFeatures(links, quadKeys, fetch)
      <==> exists l :: l in links && l.quadKey in quadKeys && f in fetch(l.url)
  {
    if links != [] {
      var init, last := links[..|links| - 1], links[|links| - 1];
      FetchedFeaturesExactly(init, quadKeys, fetch, f);
      assert forall l :: l in links <==> l in init || l == last by {
        assert links == init + [last];
      }
    }
  }

  /**
   * The `df_list` loop of `get_MS_building`: each index row whose quadkey is
   * wanted has its file read (`fetch`) and appended; `pd.concat` of no frames
   * raises, which is `None`.
   */
  method FetchQuadKeyTiles(links: seq<DatasetLink>, quadKeys: set<int>, fetch: string -> seq<MsFeature>)
    returns (features: Option<seq<MsFeature>>)
    ensures features.None? <==> !AnyWanted(links, quadKeys)
    ensures features.Some? ==> features.value == FetchedFeatures(links, quadKeys, fetch)
  {
    var frames := 0;
    var acc: seq<MsFeature> := [];
    for i := 0 to |links|
      invariant acc == FetchedFeatures(links[..i], quadKeys, fetch)
      invariant frames == 0 <==> !AnyWanted(links[..i], quadKeys)
    {
      assert links[..i + 1][..i] == links[..i];
      assert forall l :: l in links[..i + 1] <==> l in links[..i] || l == links[i] by {
        assert links[..i + 1] == links[..i] + [links[i]];
      }
      if links[i].quadKey in quadKeys {
        acc := acc + fetch(links[i].url);
        frames := frames + 1;
      }
    }
    assert links[..|links|] == links;
    if frames == 0 {
      return None;
    }
    return Some(acc);
  }
}
