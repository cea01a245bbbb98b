/** The three horizontal bands of a rendered page (`computeRegionHashes`, Main.java),
    the map from band name to fingerprint it builds, and the per-band comparison of two
    such maps (`compareRegionHashes`). */
module Regions {
  import opened Seqs
  import opened LinkedMaps
  import opened Fingerprint

  /** A horizontal band of the page: the row it starts at and its number of rows. */
  datatype Band = Band(y: int, height: int)

  datatype Bands = Bands(top: Band, middle: Band, bottom: Band)

  /** The band arithmetic of `computeRegionHashes` for a page `height` rows tall: two
      bands of `height / 3` rows, and a bottom band with the remaining rows. The bands
      are contiguous, cover the page exactly, and the bottom one is the tallest, by at
      most two rows. */
  function RegionBands(height: nat): (b: Bands)
    ensures b.top.y == 0
    ensures b.middle.y == b.top.y + b.top.height
    ensures b.bottom.y == b.middle.y + b.middle.height
    ensures b.bottom.y + b.bottom.height == height
    ensures b.top.height == b.middle.height <= b.bottom.height <= b.top.height + 2
    ensures b.top.height >= 0 && (b.top.height > 0 <==> height >= 3)
  {
    var regionHeight := height / 3;
    var bottomY := regionHeight * 2;
    Bands(Band(0, regionHeight), Band(regionHeight, regionHeight), Band(bottomY, height - bottomY))
  }

  const TopRegion: string := "top"
  const MiddleRegion: string := "middle"
  const BottomRegion: string := "bottom"

  /** The map `computeRegionHashes` returns, given the fingerprints of its three bands:
      the band names in the order they are put, each with its fingerprint. */
  function RegionHashes(top: bv64, middle: bv64, bottom: bv64): (r: LinkedMap<bv64>)
    ensures r.Valid()
    ensures r.keys == [TopRegion, MiddleRegion, BottomRegion]
    ensures r.Get(TopRegion) == Some(top) && r.Get(MiddleRegion) == Some(middle) && r.Get(BottomRegion) == Some(bottom)
  {
    LinkedMap([], map[]).Put(TopRegion, top).Put(MiddleRegion, middle).Put(BottomRegion, bottom)
  }

  /** The entry `compareRegionHashes` stores for `region`: the Hamming distance when both
      maps hold a fingerprint for it, and -1 when either lacks one. */
  function RegionDistance(hashA: LinkedMap<bv64>, hashB: LinkedMap<bv64>, region: string): int
  {
    match (hashA.Get(region), hashB.Get(region))
    case (Some(ha), Some(hb)) => Distance(ha, hb)
    case _ => -1
  }

  /** The map holding the entries of `regions`, put in that order. */
  function DistancesOver(regions: seq<string>, hashA: LinkedMap<bv64>, hashB: LinkedMap<bv64>): LinkedMap<int>
  {
    LinkedMap(Dedup(regions), map r | r in regions :: RegionDistance(hashA, hashB, r))
  }

  /** What `compareRegionHashes` returns: an entry for each key of `hashA`, in
      `hashA`'s order. */
  function RegionDistances(hashA: LinkedMap<bv64>, hashB: LinkedMap<bv64>): LinkedMap<int>
  {
    DistancesOver(hashA.keys, hashA, hashB)
  }

  lemma DistancesOverSnoc(regions: seq<string>, region: string, hashA: LinkedMap<bv64>, hashB: LinkedMap<bv64>)
    ensures DistancesOver(regions + [region], hashA, hashB)
            == DistancesOver(regions, hashA, hashB).Put(region, RegionDistance(hashA, hashB, region))
  {
    DedupSnoc(regions, region);
    var d := DistancesOver(regions, hashA, hashB);
    assert region in d.keys <==> region in Dedup(regions);
    assert (map r | r in regions + [region] :: RegionDistance(hashA, hashB, r))
           == d.values[region := RegionDistance(hashA, hashB, region)];
  }

  /** `compareRegionHashes`: one `put` per key of `hashA`, in order. */
  method CompareRegionHashes(hashA: LinkedMap<bv64>, hashB: LinkedMap<bv64>) returns (distances: LinkedMap<int>)
    ensures distances == RegionDistances(hashA, hashB)
  {
    distances := LinkedMap([], map[]);
    for i := 0 to |hashA.keys|
      invariant distances == DistancesOver(hashA.keys[..i], hashA, hashB)
    {
      var region := hashA.keys[i];
      var ha := hashA.Get(region);
      var hb := hashB.Get(region);
      var dist: int := -1;
      if ha.Some? && hb.Some? {
        dist := Distance(ha.value, hb.value);
      }
      assert hashA.keys[..i + 1] == hashA.keys[..i] + [region];
      DistancesOverSnoc(hashA.keys[..i], region, hashA, hashB);
      distances := distances.Put(region, dist);
    }
    assert hashA.keys[..|hashA.keys|] == hashA.keys;
  }

  /** The comparison has exactly `hashA`'s keys, in `hashA`'s order; an entry is -1
      exactly when either map lacks a fingerprint for the region, and otherwise the
      distance, which is 0 exactly when the two fingerprints are equal. */
  lemma RegionDistancesEntries(hashA: LinkedMap<bv64>, hashB: LinkedMap<bv64>)
    requires hashA.Valid()
    ensures RegionDistances(hashA, hashB).Valid()
    ensures RegionDistances(hashA, hashB).keys == hashA.keys
    ensures forall r :: r in RegionDistances(hashA, hashB).values <==> r in hashA.keys
    ensures forall r :: r in hashA.keys ==>
      var d := RegionDistances(hashA, hashB).values[r];
      && -1 <= d <= 64
      && (d == -1 <==> r !in hashA.values || r !in hashB.values)
      && (d == 0 <==> r in hashA.values && r in hashB.values && hashA.values[r] == hashB.values[r])
  {
    DedupOfDistinct(hashA.keys);
    forall r | r in hashA.keys && r in hashA.values && r in hashB.values {
      DistanceProperties(hashA.values[r], hashB.values[r]);
    }
  }

  /** Keys of `hashB` that `hashA` lacks play no part in the comparison. */
  lemma ExtraKeysIgnored(hashA: LinkedMap<bv64>, hashB: LinkedMap<bv64>, hashB': LinkedMap<bv64>)
    requires forall r :: r in hashA.keys ==> hashB.Get(r) == hashB'.Get(r)
    ensures RegionDistances(hashA, hashB) == RegionDistances(hashA, hashB')
  {
  }

  /** `dists.values().stream().allMatch(dist -> dist == 0)`, true for an empty map. */
  predicate AllZero(dists: LinkedMap<int>)
  {
    forall r :: r in dists.values ==> dists.values[r] == 0
  }

  /** The merge test of `groupRegionWiseDuplicates`: every per-region distance between
      the seed's map and the candidate's is 0. */
  predicate RegionsMatch(ha: LinkedMap<bv64>, hb: LinkedMap<bv64>)
  {
    AllZero(RegionDistances(ha, hb))
  }

  /** Two region maps match exactly when every region of the SEED's map has a
      fingerprint in both maps and the two are equal; regions only the candidate has
      are not looked at. */
  lemma RegionsMatchMeaning(ha: LinkedMap<bv64>, hb: LinkedMap<bv64>)
    ensures RegionsMatch(ha, hb) <==>
      forall r :: r in ha.keys ==> r in ha.values && r in hb.values && ha.values[r] == hb.values[r]
  {
    var d := RegionDistances(ha, hb);
    assert forall r :: r in d.values <==> r in ha.keys;
    forall r | r in ha.keys
      ensures d.values[r] == 0 <==> r in ha.values && r in hb.values && ha.values[r] == hb.values[r]
    {
      if r in ha.values && r in hb.values {
        DistanceProperties(ha.values[r], hb.values[r]);
      }
    }
  }

  /** A seed whose region map is empty matches every candidate (`allMatch` over no
      values is true). */
  lemma EmptyMapMatchesAll(ha: LinkedMap<bv64>, hb: LinkedMap<bv64>)
    requires ha.keys == []
    ensures RegionsMatch(ha, hb)
  {
  }

  /** For the maps `computeRegionHashes` builds, all three bands must carry identical
      fingerprints for two pages to match. */
  lemma PagesMatchIffAllBandsEqual(a1: bv64, a2: bv64, a3: bv64, b1: bv64, b2: bv64, b3: bv64)
    ensures RegionsMatch(RegionHashes(a1, a2, a3), RegionHashes(b1, b2, b3)) <==> a1 == b1 && a2 == b2 && a3 == b3
  {
    var ha := RegionHashes(a1, a2, a3);
    var hb := RegionHashes(b1, b2, b3);
    RegionsMatchMeaning(ha, hb);
    assert TopRegion in ha.keys && MiddleRegion in ha.keys && BottomRegion in ha.keys;
  }
}
