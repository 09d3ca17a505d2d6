/**
 * `get_gdf_region` of the MS/NYC script: the state ids are the 2-character
 * prefixes of the requested tract ids; the tract files of those states are
 * concatenated (the `df_list` loop) and the requested tracts kept.
 * Reading (and downloading) a state's file is the input `tractsOfState`.
 */
module MsRegions {
  import opened Common
  import opened MsCensus

  /** `a[:2]`: the state part of a tract id. */
  function StateId(areaId: string): (s: string)
    ensures |s| <= 2
    ensures 2 <= |areaId| ==> areaId == s + areaId[2..]
    ensures |areaId| < 2 ==> s == areaId
  {
    Take(areaId, 2)
  }

  /** `set([a[:2] for a in area_id])`. */
  function StateIds(areaIds: seq<string>): (ids: set<string>)
    ensures forall a :: a in areaIds ==> StateId(a) in ids
    ensures forall s :: s in ids ==> |s| <= 2 && exists a :: a in areaIds && StateId(a) == s
  {
    set a | a in areaIds :: StateId(a)
  }

  /** No state file is read when no tract is requested, and one is read for each requested state. */
  lemma StateIdsEmptyIff(areaIds: seq<string>)
    ensures StateIds(areaIds) == {} <==> areaIds == []
  {
    if areaIds != [] {
      assert StateId(areaIds[0]) in StateIds(areaIds);
    }
  }

  /** `df[df["GEOID"].isin(area_id)]`: the requested tracts, in order. */
  function KeepRequested(tracts: seq<Tract>, areaIds: seq<string>): (kept: seq<Tract>)
    ensures |kept| <= |tracts|
    ensures forall t :: t in kept <==> t in tracts && t.geoid in areaIds
  {
    if tracts == [] then []
    else (if tracts[0].geoid in areaIds then [tracts[0]] else []) + KeepRequested(tracts[1..], areaIds)
  }

  /**
   * Requested tracts are kept as often as they occur and the others not at
   * all; when every tract is requested nothing is dropped.
   */
  lemma {:induction false} KeepRequestedCount(tracts: seq<Tract>, areaIds: seq<string>)
    ensures forall t ::
      multiset(KeepRequested(tracts, areaIds))[t] == if t.geoid in areaIds then multiset(tracts)[t] else 0
    ensures (forall t :: t in tracts ==> t.geoid in areaIds) ==> KeepRequested(tracts, areaIds) == tracts
  {
    if tracts != [] {
      assert tracts == [tracts[0]] + tracts[1..];
      KeepRequestedCount(tracts[1..], areaIds);
    }
  }

  lemma {:induction false} KeepRequestedAppend(a: seq<Tract>, b: seq<Tract>, areaIds: seq<string>)
    ensures KeepRequested(a + b, areaIds) == KeepRequested(a, areaIds) + KeepRequested(b, areaIds)
  {
    if a == [] {
      assert a + b == b;
    } else {
      assert (a + b)[0] == a[0] && (a + b)[1..] == a[1..] + b;
      KeepRequestedAppend(a[1..], b, areaIds);
    }
  }

  /**
   * `get_gdf_region(city)`: the state files are read in the set's own
   * (unspecified) order; `pd.concat` of no frames raises, which is `None`.
   * The kept tracts are exactly the requested ones found in the files read,
   * and every requested tract present in its own state's file is kept.
   */
  method GetGdfRegion(areaIds: seq<string>, tractsOfState: string -> seq<Tract>)
    returns (regions: Option<seq<Tract>>)
    ensures regions.None? <==> areaIds == []
    ensures regions.Some? ==> forall t :: t in regions.value ==>
      t.geoid in areaIds && exists s :: s in StateIds(areaIds) && t in tractsOfState(s)
    ensures regions.Some? ==> forall g, t ::
      g in areaIds && t in tractsOfState(StateId(g)) && t.geoid == g ==> t in regions.value
  {
    var ids := StateIds(areaIds);
    StateIdsEmptyIff(areaIds);
    if ids == {} {
      return None;
    }
    var todo := ids;
    var all: seq<Tract> := [];
    while todo != {}
      invariant todo <= ids
      invariant forall t :: t in all ==> exists s :: s in ids - todo && t in tractsOfState(s)
      invariant forall s, t :: s in ids - todo && t in tractsOfState(s) ==> t in all
      decreases todo
    {
      var s :| s in todo;
      all := all + tractsOfState(s);
      todo := todo - {s};
    }
    regions := Some(KeepRequested(all, areaIds));
  }
}
