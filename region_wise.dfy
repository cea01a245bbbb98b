/** Region-wise duplicate detection (Main.java): `groupRegionWiseDuplicates` over an
    index that maps each file name to its map of region fingerprints (or to null), and
    the selection of the files `main` copies, one per group. */
module RegionWise {
  import opened Seqs
  import opened LinkedMaps
  import opened Clustering
  import opened Regions

  /** What `groupRegionWiseDuplicates` returns: the greedy pass with the all-regions-equal
      test, keeping groups of one file. */
  function RegionGroups(index: LinkedMap<LinkedMap<bv64>>): seq<seq<string>>
  {
    Greedy(index.keys, index.values, RegionsMatch, true)
  }

  /** The body of `groupRegionWiseDuplicates` for a seed at position `i` with region map
      `ha`: mark the seed, then scan the files after it and mark and collect every unseen
      one whose region map is at distance 0 from the seed's in every region the seed has. */
  method GrowRegionGroup(index: LinkedMap<LinkedMap<bv64>>, seen: array<bool>, i: nat, ha: LinkedMap<bv64>)
    returns (group: seq<string>)
    requires seen.Length == |index.keys| && i < seen.Length
    modifies seen
    ensures seen[..] == Marked(old(seen[..])[i := true], JoinFlags(index.keys, index.values, ha, RegionsMatch), i + 1, seen.Length)
    ensures group == [index.keys[i]] + Joiners(Unseen(index.keys, old(seen[..]), i + 1), index.values, ha, RegionsMatch)
  {
    var files := index.keys;
    var n := |files|;
    ghost var initial := seen[..];
    seen[i] := true;
    ghost var before := initial[i := true];
    ghost var joins := JoinFlags(files, index.values, ha, RegionsMatch);
    ghost var marks := before;
    var joined := [];
    for j := i + 1 to n
      invariant seen[..] == marks
      invariant marks == Marked(before, joins, i + 1, j)
      invariant joined == Collected(files, before, joins, i + 1, j)
    {
      MarkedStep(before, joins, i + 1, j);
      if !seen[j] {
        var b := files[j];
        var hb := index.Get(b);
        if hb.Some? {
          var dists := CompareRegionHashes(ha, hb.value);
          var allZero := AllZero(dists);
          if allZero {
            joined := joined + [b];
            seen[j] := true;
            marks := marks[j := true];
          }
        }
      }
    }
    ScanComplete(files, initial, i, index.values, ha, RegionsMatch);
    group := [files[i]] + joined;
  }

  /** `groupRegionWiseDuplicates`: the greedy single pass over the index, in key order,
      with a `seen` flag per file; every group is kept, including groups of one file. */
  method GroupRegionWiseDuplicates(index: LinkedMap<LinkedMap<bv64>>) returns (groups: seq<seq<string>>)
    ensures groups == RegionGroups(index)
  {
    var files := index.keys;
    var n := |files|;
    ghost var idx := index.values;
    var seen := new bool[n](_ => false);
    ghost var marks := seen[..];
    UnseenNoneSeen(files, marks, 0);
    assert files[0..] == files;
    groups := [];
    for i := 0 to n
      invariant seen[..] == marks
      invariant groups + Greedy(Unseen(files, marks, i), idx, RegionsMatch, true) == Greedy(files, idx, RegionsMatch, true)
    {
      ScanStep(files, marks, i, idx, RegionsMatch, true);
      if !seen[i] {
        var ha := index.Get(files[i]);
        if ha.Some? {
          var group := GrowRegionGroup(index, seen, i, ha.value);
          ghost var tail := Greedy(Unseen(files, seen[..], i + 1), idx, RegionsMatch, true);
          ConcatAssoc(groups, [group], tail);
          groups := groups + [group];
          marks := seen[..];
        }
      }
    }
  }

  /** On a well-formed index, the groups partition the files that have a region map:
      each such file is in exactly one group, every grouped file has one, no group lists
      a file twice, the seeds come out in index order, and every later member matches
      its SEED in every region the seed has. */
  lemma RegionGroupsPartition(index: LinkedMap<LinkedMap<bv64>>)
    requires index.Valid()
    ensures forall x :: x in index.keys && x in index.values ==> InSomeGroup(x, RegionGroups(index))
    ensures DrawnFrom(RegionGroups(index), index.keys, index.values)
    ensures PairwiseDisjoint(RegionGroups(index)) && EachDistinct(RegionGroups(index))
    ensures NonEmptyGroups(RegionGroups(index))
    ensures Subseq(Seeds(RegionGroups(index)), index.keys) && Distinct(Seeds(RegionGroups(index)))
    ensures forall k, m :: 0 <= k < |RegionGroups(index)| && 1 <= m < |RegionGroups(index)[k]| ==>
      RegionsMatch(index.values[RegionGroups(index)[k][0]], index.values[RegionGroups(index)[k][m]])
  {
    var gs := RegionGroups(index);
    GreedyCovers(index.keys, index.values, RegionsMatch);
    GreedyMembers(index.keys, index.values, RegionsMatch, true);
    GreedyDisjoint(index.keys, index.values, RegionsMatch, true);
    GreedySeedsInOrder(index.keys, index.values, RegionsMatch, true);
    SubseqDistinct(Seeds(gs), index.keys);
    GreedyGroupShape(index.keys, index.values, RegionsMatch, true);
    forall k, m | 0 <= k < |gs| && 1 <= m < |gs[k]|
      ensures RegionsMatch(index.values[gs[k][0]], index.values[gs[k][m]])
    {
      assert WellFormedGroup(gs[k], index.keys, index.values, RegionsMatch, true);
      assert Joins(gs[k][m], index.values, index.values[gs[k][0]], RegionsMatch);
    }
  }

  /** Files without a region map form no group. */
  lemma {:induction false} NoGroupsWithoutMaps(rest: seq<string>, idx: map<string, LinkedMap<bv64>>)
    requires forall x :: x in rest ==> x !in idx
    ensures Greedy(rest, idx, RegionsMatch, true) == []
    decreases |rest|
  {
    if rest != [] {
      assert rest[0] !in idx;
      NoGroupsWithoutMaps(rest[1..], idx);
    }
  }

  /** When the first file's region map is empty, the vacuous `allMatch` lets every later
      file that has a region map join its group: the result is that single group. */
  lemma EmptySeedAbsorbs(index: LinkedMap<LinkedMap<bv64>>)
    requires index.keys != [] && index.keys[0] in index.values && index.values[index.keys[0]].keys == []
    ensures |RegionGroups(index)| == 1
    ensures forall x :: x in index.keys && x in index.values ==> x in RegionGroups(index)[0]
  {
    var rest := index.keys;
    var idx := index.values;
    var seed := idx[rest[0]];
    forall x | x in idx ensures RegionsMatch(seed, idx[x]) {
      EmptyMapMatchesAll(seed, idx[x]);
    }
    JoinersMembers(rest[1..], idx, seed, RegionsMatch);
    OthersMembers(rest[1..], idx, seed, RegionsMatch);
    NoGroupsWithoutMaps(Others(rest[1..], idx, seed, RegionsMatch), idx);
    assert forall x :: x in rest ==> x == rest[0] || x in rest[1..];
  }

  /** The copy loop of `main`: for each group in order, its first file is copied unless a
      file of that name was already copied. `copies` lists the files in the order they
      are copied; `copied` is the set the loop keeps. */
  method SelectCopies(groups: seq<seq<string>>) returns (copies: seq<string>, copied: set<string>)
    requires NonEmptyGroups(groups)
    ensures copies == Dedup(Seeds(groups))
    ensures forall x :: x in copied <==> x in Seeds(groups)
  {
    var seeds := Seeds(groups);
    copies := [];
    copied := {};
    for k := 0 to |groups|
      invariant copies == Dedup(seeds[..k])
      invariant forall x :: x in copied <==> x in copies
    {
      var fileToCopy := groups[k][0];
      assert seeds[..k + 1] == seeds[..k] + [fileToCopy];
      DedupSnoc(seeds[..k], fileToCopy);
      if fileToCopy !in copied {
        copies := copies + [fileToCopy];
        copied := copied + {fileToCopy};
      }
    }
    assert seeds[..|groups|] == seeds;
  }

  /** For the groups of a well-formed index, `main` copies exactly one file per group:
      the group's seed, in group order, and never the same file twice. */
  lemma CopiesOnePerGroup(index: LinkedMap<LinkedMap<bv64>>)
    requires index.Valid()
    ensures NonEmptyGroups(RegionGroups(index))
    ensures Dedup(Seeds(RegionGroups(index))) == Seeds(RegionGroups(index))
    ensures |Seeds(RegionGroups(index))| == |RegionGroups(index)|
  {
    RegionGroupsPartition(index);
    DedupOfDistinct(Seeds(RegionGroups(index)));
  }
}
