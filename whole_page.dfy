/** Whole-page duplicate detection (Main.java): `groupDuplicates`, `getOriginals` and
    the lookup of `findDuplicatesForFile`, over an index that maps each file name to the
    64-bit aHash of its first page. A file whose page could not be hashed is not in the
    index at all; a key without a value stands for a null value that a caller may put,
    which the program's own indices never contain.

    The result of `groupDuplicates` is a LinkedHashMap from a seed to its group; the
    group's first element IS the seed, so the map is modelled as the sequence of its
    groups, in insertion order, and its key set is `Seeds(groups)`. */
module WholePage {
  import opened Seqs
  import opened LinkedMaps
  import opened Fingerprint
  import opened Clustering

  /** Two fingerprints are near-duplicates when their Hamming distance is at most `threshold`. */
  function WithinThreshold(threshold: int): (bv64, bv64) -> bool
  {
    (ha: bv64, hb: bv64) => Distance(ha, hb) <= threshold
  }

  /** What `groupDuplicates` returns: the greedy pass with the Hamming-distance test,
      dropping groups of one file. */
  function DuplicateGroups(index: LinkedMap<bv64>, threshold: int): seq<seq<string>>
  {
    Greedy(index.keys, index.values, WithinThreshold(threshold), false)
  }

  /** The body of `groupDuplicates` for a seed at position `i` with fingerprint `ha`:
      mark the seed, then scan the files after it and mark and collect every unseen one
      whose fingerprint is `near` the seed's (`groupDuplicates` passes the Hamming-distance
      test `WithinThreshold(threshold)`). The group is the seed followed by its joiners. */
  method GrowGroup(index: LinkedMap<bv64>, seen: array<bool>, i: nat, ha: bv64, near: (bv64, bv64) -> bool)
    returns (group: seq<string>)
    requires seen.Length == |index.keys| && i < seen.Length
    modifies seen
    ensures seen[..] == Marked(old(seen[..])[i := true], JoinFlags(index.keys, index.values, ha, near), i + 1, seen.Length)
    ensures group == [index.keys[i]] + Joiners(Unseen(index.keys, old(seen[..]), i + 1), index.values, ha, near)
  {
    var files := index.keys;
    var n := |files|;
    ghost var initial := seen[..];
    seen[i] := true;
    ghost var before := initial[i := true];
    ghost var joins := JoinFlags(files, index.values, ha, near);
    ghost var marks := before;
    var joined := [];
    for j := i + 1 to n
      invariant seen[..] == marks
      invariant marks == Marked(before, joins, i + 1, j)
      invariant joined == Collected(files, before, joins, i + 1, j)
    {
      MarkedStep(before, joins, i + 1, j);
      if !seen[j] {
        var b := files[j];
        var hb := index.Get(b);
        if hb.Some? && near(ha, hb.value) {
          joined := joined + [b];
          seen[j] := true;
          marks := marks[j := true];
        }
      }
    }
    ScanComplete(files, initial, i, index.values, ha, near);
    group := [files[i]] + joined;
  }

  /** `groupDuplicates`: the greedy single pass over the index, in key order, with a
      `seen` flag per file. Groups of one file are dropped. */
  method GroupDuplicates(index: LinkedMap<bv64>, threshold: int) returns (groups: seq<seq<string>>)
    ensures groups == DuplicateGroups(index, threshold)
  {
    var files := index.keys;
    var n := |files|;
    ghost var idx := index.values;
    var near := WithinThreshold(threshold);
    var seen := new bool[n](_ => false);
    ghost var marks := seen[..];
    UnseenNoneSeen(files, marks, 0);
    assert files[0..] == files;
    groups := [];
    for i := 0 to n
      invariant seen[..] == marks
      invariant groups + Greedy(Unseen(files, marks, i), idx, near, false) == Greedy(files, idx, near, false)
    {
      ScanStep(files, marks, i, idx, near, false);
      if !seen[i] {
        var ha := index.Get(files[i]);
        if ha.Some? {
          var group := GrowGroup(index, seen, i, ha.value, near);
          ghost var emitted := if |group| > 1 then [group] else [];
          ghost var tail := Greedy(Unseen(files, seen[..], i + 1), idx, near, false);
          ConcatAssoc(groups, emitted, tail);
          ghost var previous := groups;
          if |group| > 1 {
            groups := groups + [group];
          }
          assert groups == previous + emitted;
          marks := seen[..];
        }
      }
    }
  }

  /** The names of `files` that belong to no group, in order. */
  function Unclaimed(files: seq<string>, groups: seq<seq<string>>): (r: seq<string>)
    ensures forall x :: x in r <==> x in files && !InSomeGroup(x, groups)
  {
    if files == [] then []
    else
      var last := files[|files| - 1];
      assert forall x :: x in files <==> x in files[..|files| - 1] || x == last;
      Unclaimed(files[..|files| - 1], groups) + (if InSomeGroup(last, groups) then [] else [last])
  }

  lemma UnclaimedSnoc(files: seq<string>, f: nat, groups: seq<seq<string>>)
    requires f < |files|
    ensures Unclaimed(files[..f + 1], groups)
            == Unclaimed(files[..f], groups) + (if InSomeGroup(files[f], groups) then [] else [files[f]])
  {
    assert files[..f + 1][..f] == files[..f];
  }

  /** The inner loop of `getOriginals`: whether some group lists `file`, stopping at
      the first group that does. */
  method IsInAnyGroup(groups: seq<seq<string>>, file: string) returns (isDuplicate: bool)
    ensures isDuplicate == InSomeGroup(file, groups)
  {
    isDuplicate := false;
    for g := 0 to |groups|
      invariant forall q :: 0 <= q < g ==> file !in groups[q]
    {
      if file in groups[g] {
        isDuplicate := true;
        return;
      }
    }
  }

  /** `getOriginals`: a LinkedHashSet filled with the group keys (seeds) and then with
      every indexed file, null fingerprint or not, that is in no group. */
  method GetOriginals(index: LinkedMap<bv64>, groups: seq<seq<string>>) returns (originals: seq<string>)
    requires NonEmptyGroups(groups)
    ensures originals == Dedup(Seeds(groups) + Unclaimed(index.keys, groups))
    ensures Distinct(originals)
    ensures forall x :: x in originals <==> x in Seeds(groups) || (x in index.keys && !InSomeGroup(x, groups))
  {
    var seeds := Seeds(groups);
    originals := Dedup(seeds);
    assert seeds + Unclaimed(index.keys[..0], groups) == seeds;

    var files := index.keys;
    for f := 0 to |files|
      invariant originals == Dedup(seeds + Unclaimed(files[..f], groups))
    {
      var file := files[f];
      var isDuplicate := IsInAnyGroup(groups, file);
      UnclaimedSnoc(files, f, groups);
      ghost var claimed := Unclaimed(files[..f], groups);
      if !isDuplicate {
        assert Unclaimed(files[..f + 1], groups) == claimed + [file];
        ConcatAssoc(seeds, claimed, [file]);
        DedupSnoc(seeds + claimed, file);
        if file !in originals {
          originals := originals + [file];
        }
      } else {
        assert Unclaimed(files[..f + 1], groups) == claimed;
      }
    }
    assert files[..|files|] == files;
  }

  /** The first group that lists `name`, or the empty list when none does. */
  function FirstGroupContaining(groups: seq<seq<string>>, name: string): (r: seq<string>)
    ensures r == [] <==> !InSomeGroup(name, groups)
    ensures r != [] ==> name in r && exists k :: 0 <= k < |groups| && groups[k] == r && forall q :: 0 <= q < k ==> name !in groups[q]
  {
    if groups == [] then []
    else if name in groups[0] then groups[0]
    else
      var r := FirstGroupContaining(groups[1..], name);
      assert InSomeGroup(name, groups) <==> InSomeGroup(name, groups[1..]) by {
        if InSomeGroup(name, groups) {
          var k :| 0 <= k < |groups| && name in groups[k];
          assert groups[1..][k - 1] == groups[k];
        }
        if InSomeGroup(name, groups[1..]) {
          var k :| 0 <= k < |groups[1..]| && name in groups[1..][k];
          assert groups[k + 1] == groups[1..][k];
        }
      }
      assert r != [] ==> exists k :: 0 <= k < |groups| && groups[k] == r && forall q :: 0 <= q < k ==> name !in groups[q] by {
        if r != [] {
          var k :| 0 <= k < |groups[1..]| && groups[1..][k] == r && forall q :: 0 <= q < k ==> name !in groups[1..][q];
          assert groups[k + 1] == r;
          forall q | 0 <= q < k + 1 ensures name !in groups[q] {
            if q > 0 {
              assert groups[q] == groups[1..][q - 1];
            }
          }
        }
      }
      r
  }

  /** The shape of every group `groupDuplicates` returns: at least two files; every file
      is an indexed file with a fingerprint (a file whose hash is null is in no group);
      the files occur in index order after the seed (the group's key, its first file);
      and every later member is within `threshold` of the SEED, not necessarily of the
      other members. */
  lemma DuplicateGroupShape(index: LinkedMap<bv64>, threshold: int)
    ensures forall k :: 0 <= k < |DuplicateGroups(index, threshold)| ==>
      var g := DuplicateGroups(index, threshold)[k];
      && |g| >= 2
      && Subseq(g, index.keys)
      && (forall x :: x in g ==> x in index.keys && x in index.values)
      && forall m :: 1 <= m < |g| ==> Distance(index.values[g[0]], index.values[g[m]]) <= threshold
  {
    var gs := DuplicateGroups(index, threshold);
    var near := WithinThreshold(threshold);
    GreedyGroupShape(index.keys, index.values, near, false);
    GreedyMembers(index.keys, index.values, near, false);
    forall k | 0 <= k < |gs|
      ensures forall m :: 1 <= m < |gs[k]| ==> Distance(index.values[gs[k][0]], index.values[gs[k][m]]) <= threshold
    {
      assert WellFormedGroup(gs[k], index.keys, index.values, near, false);
      forall m | 1 <= m < |gs[k]| ensures Distance(index.values[gs[k][0]], index.values[gs[k][m]]) <= threshold {
        assert Joins(gs[k][m], index.values, index.values[gs[k][0]], near);
      }
    }
  }

  /** On a well-formed index, no file is in two groups, no group lists a file twice, and
      the seeds are distinct, so the groups form a map keyed by their seeds. */
  lemma DuplicateGroupsDisjoint(index: LinkedMap<bv64>, threshold: int)
    requires index.Valid()
    ensures PairwiseDisjoint(DuplicateGroups(index, threshold))
    ensures EachDistinct(DuplicateGroups(index, threshold))
    ensures NonEmptyGroups(DuplicateGroups(index, threshold))
    ensures Distinct(Seeds(DuplicateGroups(index, threshold)))
    ensures Subseq(Seeds(DuplicateGroups(index, threshold)), index.keys)
  {
    var near := WithinThreshold(threshold);
    GreedyDisjoint(index.keys, index.values, near, false);
    GreedySeedsInOrder(index.keys, index.values, near, false);
    SubseqDistinct(Seeds(DuplicateGroups(index, threshold)), index.keys);
  }

  lemma {:induction false} UnclaimedDistinct(files: seq<string>, groups: seq<seq<string>>)
    requires Distinct(files)
    ensures Distinct(Unclaimed(files, groups))
    decreases |files|
  {
    if files != [] {
      var prefix := files[..|files| - 1];
      var last := files[|files| - 1];
      assert Distinct(prefix) by {
        forall i, j | 0 <= i < j < |prefix| ensures prefix[i] != prefix[j] {
          assert prefix[i] == files[i] && prefix[j] == files[j];
        }
      }
      UnclaimedDistinct(prefix, groups);
      assert last !in prefix;
      DistinctConcat(Unclaimed(prefix, groups), if InSomeGroup(last, groups) then [] else [last]);
    }
  }

  /** In disjoint repeat-free groups, a member after the first is no group's seed. */
  lemma NotASeed(gs: seq<seq<string>>, k: nat, m: nat)
    requires NonEmptyGroups(gs) && PairwiseDisjoint(gs) && EachDistinct(gs)
    requires k < |gs| && 1 <= m < |gs[k]|
    ensures gs[k][m] !in Seeds(gs)
  {
    var x := gs[k][m];
    forall q | 0 <= q < |gs| ensures Seeds(gs)[q] != x {
      assert Seeds(gs)[q] == gs[q][0] && gs[q][0] in gs[q];
      if q == k {
        assert Distinct(gs[k]);
      }
    }
  }

  /** On a well-formed index, what `getOriginals` returns for the groups of
      `groupDuplicates` is exactly the seeds, in group order, followed by the files in
      no group, in index order (nothing is dropped as a repeat); no group member other
      than its seed is among them; and every indexed file is either among them or in a
      group whose seed is. */
  lemma OriginalsOfDuplicateGroups(index: LinkedMap<bv64>, threshold: int)
    requires index.Valid()
    ensures NonEmptyGroups(DuplicateGroups(index, threshold))
    ensures Dedup(Seeds(DuplicateGroups(index, threshold)) + Unclaimed(index.keys, DuplicateGroups(index, threshold)))
            == Seeds(DuplicateGroups(index, threshold)) + Unclaimed(index.keys, DuplicateGroups(index, threshold))
    ensures forall k, m :: 0 <= k < |DuplicateGroups(index, threshold)| && 1 <= m < |DuplicateGroups(index, threshold)[k]| ==>
      DuplicateGroups(index, threshold)[k][m]
        !in Seeds(DuplicateGroups(index, threshold)) + Unclaimed(index.keys, DuplicateGroups(index, threshold))
    ensures forall x :: x in index.keys ==>
      x in Seeds(DuplicateGroups(index, threshold)) + Unclaimed(index.keys, DuplicateGroups(index, threshold))
      || exists k :: 0 <= k < |DuplicateGroups(index, threshold)| && x in DuplicateGroups(index, threshold)[k]
                     && DuplicateGroups(index, threshold)[k][0] in Seeds(DuplicateGroups(index, threshold))
  {
    var gs := DuplicateGroups(index, threshold);
    DuplicateGroupsDisjoint(index, threshold);
    var seeds := Seeds(gs);
    var rest := Unclaimed(index.keys, gs);
    UnclaimedDistinct(index.keys, gs);
    forall x | x in seeds ensures x !in rest {
      var q :| 0 <= q < |seeds| && seeds[q] == x;
      assert x in gs[q];
    }
    DistinctConcat(seeds, rest);
    DedupOfDistinct(seeds + rest);
    forall k, m | 0 <= k < |gs| && 1 <= m < |gs[k]| ensures gs[k][m] !in seeds + rest {
      NotASeed(gs, k, m);
      assert InSomeGroup(gs[k][m], gs);
    }
    forall x | x in index.keys
      ensures x in seeds + rest || exists k :: 0 <= k < |gs| && x in gs[k] && gs[k][0] in seeds
    {
      if !(x in rest) {
        var k :| 0 <= k < |gs| && x in gs[k];
        assert seeds[k] == gs[k][0];
      }
    }
  }

  /** `findDuplicatesForFile` after the fingerprints of the folder are computed: the first
      group of `groupDuplicates` that lists the file, or the empty list. */
  method FindDuplicatesForFile(index: LinkedMap<bv64>, fileName: string, threshold: int) returns (result: seq<string>)
    ensures result == FirstGroupContaining(DuplicateGroups(index, threshold), fileName)
    ensures result != [] ==> fileName in result && |result| >= 2
    ensures forall x :: x in result ==> x in index.keys && x in index.values
    ensures result != [] ==> forall m :: 1 <= m < |result| ==> Distance(index.values[result[0]], index.values[result[m]]) <= threshold
  {
    var groups := GroupDuplicates(index, threshold);
    result := FirstGroupContaining(groups, fileName);
    DuplicateGroupShape(index, threshold);
  }

  /** A file that is not in the index, or whose key carries no fingerprint, has
      no duplicates: the lookup returns the empty list. */
  lemma LookupOfUnindexedFile(index: LinkedMap<bv64>, fileName: string, threshold: int)
    requires fileName !in index.values
    ensures FirstGroupContaining(DuplicateGroups(index, threshold), fileName) == []
  {
    DuplicateGroupShape(index, threshold);
  }

  /** A group whose later members are all within `threshold` of its seed cannot list a
      file that is farther than `threshold` from every other hashed file. */
  lemma FarFileNotInGroup(g: seq<string>, values: map<string, bv64>, fileName: string, threshold: int)
    requires |g| >= 2 && Distinct(g) && fileName in values
    requires forall x :: x in g ==> x in values
    requires forall m :: 1 <= m < |g| ==> Distance(values[g[0]], values[g[m]]) <= threshold
    requires forall f :: f in values && f != fileName ==> Distance(values[fileName], values[f]) > threshold
    ensures fileName !in g
  {
    assert g[1] in g && g[1] != g[0];
    if fileName in g {
      var m :| 0 <= m < |g| && g[m] == fileName;
      if m == 0 {
        assert false;
      } else {
        DistanceProperties(values[g[0]], values[fileName]);
        assert false;
      }
    }
  }

  /** A file whose fingerprint is farther than `threshold` from every other file's has no
      duplicates either: the lookup returns the same empty list as for a missing file. */
  lemma LookupOfUniqueFile(index: LinkedMap<bv64>, fileName: string, threshold: int)
    requires index.Valid() && fileName in index.values
    requires forall f :: f in index.values && f != fileName ==> Distance(index.values[fileName], index.values[f]) > threshold
    ensures FirstGroupContaining(DuplicateGroups(index, threshold), fileName) == []
  {
    var gs := DuplicateGroups(index, threshold);
    DuplicateGroupShape(index, threshold);
    DuplicateGroupsDisjoint(index, threshold);
    forall k | 0 <= k < |gs| ensures fileName !in gs[k] {
      assert Distinct(gs[k]);
      FarFileNotInGroup(gs[k], index.values, fileName, threshold);
    }
  }

  /** The Hamming distances among the fingerprints 0, 3 and 7 (binary 000, 011, 111). */
  lemma SmallDistances()
    ensures Distance(0, 3) == 2 && Distance(0, 7) == 3 && Distance(3, 7) == 1
  {
    assert 0 ^ 3 == 3 as bv64 && 0 ^ 7 == 7 as bv64 && 3 ^ 7 == 4 as bv64;
    CountFromZero(3, 2);
    CountFromZero(7, 3);
    CountFromZero(4, 3);
    assert CountFrom(3, 0) == 1 + CountFrom(3, 1) == 2 + CountFrom(3, 2);
    assert CountFrom(7, 0) == 1 + CountFrom(7, 1) == 2 + CountFrom(7, 2) == 3 + CountFrom(7, 3);
    assert CountFrom(4, 0) == CountFrom(4, 1) == CountFrom(4, 2) == 1 + CountFrom(4, 3);
  }

  /** With fingerprints a = 0, b = 3, c = 7 in that order and threshold 1, `a` is too far
      from both others and stays alone; `b` seeds a group with `c`. */
  lemma GroupsAtOne(idx: map<string, bv64>)
    requires idx == map["a" := 0, "b" := 3, "c" := 7]
    ensures Greedy(["a", "b", "c"], idx, WithinThreshold(1), false) == [["b", "c"]]
  {
    var one := WithinThreshold(1);
    SmallDistances();
    assert !one(0, 3) && !one(0, 7) && one(3, 7);
    assert ["a", "b", "c"] == ["a"] + ["b", "c"] && ["b", "c"] == ["b"] + ["c"];
    GreedyCons("a", ["b", "c"], idx, one, false);
    JoinersCons("b", ["c"], idx, 0, one);
    assert Others(["b", "c"], idx, 0, one) == ["b", "c"];
    GreedyCons("b", ["c"], idx, one, false);
    assert Joiners(["c"], idx, 3, one) == ["c"];
    assert Others(["c"], idx, 3, one) == [];
  }

  /** The same index with threshold 2: `a` now takes `b` (distance 2) but not `c`
      (distance 3), and `c` is left alone. */
  lemma GroupsAtTwo(idx: map<string, bv64>)
    requires idx == map["a" := 0, "b" := 3, "c" := 7]
    ensures Greedy(["a", "b", "c"], idx, WithinThreshold(2), false) == [["a", "b"]]
  {
    var two := WithinThreshold(2);
    SmallDistances();
    assert two(0, 3) && !two(0, 7);
    assert ["a", "b", "c"] == ["a"] + ["b", "c"] && ["b", "c"] == ["b"] + ["c"];
    GreedyCons("a", ["b", "c"], idx, two, false);
    JoinersCons("b", ["c"], idx, 0, two);
    assert Joiners(["c"], idx, 0, two) == [] && Others(["c"], idx, 0, two) == ["c"];
    assert Joiners(["b", "c"], idx, 0, two) == ["b"];
    assert Others(["b", "c"], idx, 0, two) == ["c"];
    assert ["c"] == ["c"] + [];
    GreedyCons("c", [], idx, two, false);
    assert Greedy(["c"], idx, two, false) == [];
    assert ["a"] + ["b"] == ["a", "b"];
    assert Greedy(["a", "b", "c"], idx, two, false) == [["a", "b"]] + Greedy(["c"], idx, two, false);
  }

  /** Raising the threshold can split a group: `b` and `c` are grouped at threshold 1 but
      not at threshold 2, because at 2 the earlier seed `a` takes `b` and leaves `c`. The
      greedy pass compares members with the seed only, so a larger threshold changes which
      files become seeds. */
  lemma ThresholdNotMonotone()
    ensures var index := LinkedMap(["a", "b", "c"], map["a" := 0, "b" := 3, "c" := 7]);
      DuplicateGroups(index, 1) == [["b", "c"]] && DuplicateGroups(index, 2) == [["a", "b"]]
  {
    GroupsAtOne(map["a" := 0, "b" := 3, "c" := 7]);
    GroupsAtTwo(map["a" := 0, "b" := 3, "c" := 7]);
  }
}
