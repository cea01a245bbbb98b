/** The greedy, seed-based clustering that `groupDuplicates` and
    `groupRegionWiseDuplicates` (Main.java) both perform, stated as a functional
    specification, and what it guarantees.

    The files are taken in index order. The first file not yet consumed that has a
    fingerprint becomes a seed; every later unconsumed file with a fingerprint that
    `matches` the SEED's fingerprint joins its group and is consumed. The pass is not a
    transitive closure: members are compared with the seed only. Files without a
    fingerprint (a null map value) are skipped and never join a group. */
module Clustering {
  import opened Seqs

  /** File `b` joins the group whose seed has fingerprint `seed`. */
  predicate Joins<V>(b: string, idx: map<string, V>, seed: V, matches: (V, V) -> bool)
  {
    b in idx && matches(seed, idx[b])
  }

  /** The files of `s` that join the seed's group, in order. */
  function Joiners<V>(s: seq<string>, idx: map<string, V>, seed: V, matches: (V, V) -> bool): (r: seq<string>)
    ensures |r| <= |s|
  {
    if s == [] then []
    else (if Joins(s[0], idx, seed, matches) then [s[0]] else []) + Joiners(s[1..], idx, seed, matches)
  }

  /** The files of `s` that stay unconsumed after the seed's scan, in order. */
  function Others<V>(s: seq<string>, idx: map<string, V>, seed: V, matches: (V, V) -> bool): (r: seq<string>)
    ensures |r| <= |s|
  {
    if s == [] then []
    else (if Joins(s[0], idx, seed, matches) then [] else [s[0]]) + Others(s[1..], idx, seed, matches)
  }

  /** The groups the greedy pass emits for the unconsumed files `rest`, in seed order.
      A group of one file is emitted only when `keepSingletons` holds. */
  function Greedy<V>(rest: seq<string>, idx: map<string, V>, matches: (V, V) -> bool, keepSingletons: bool): seq<seq<string>>
    decreases |rest|
  {
    if rest == [] then []
    else if rest[0] !in idx then Greedy(rest[1..], idx, matches, keepSingletons)
    else
      var seed := idx[rest[0]];
      var group := [rest[0]] + Joiners(rest[1..], idx, seed, matches);
      (if keepSingletons || |group| > 1 then [group] else [])
        + Greedy(Others(rest[1..], idx, seed, matches), idx, matches, keepSingletons)
  }

  lemma JoinersCons<V>(x: string, s: seq<string>, idx: map<string, V>, seed: V, matches: (V, V) -> bool)
    ensures Joiners([x] + s, idx, seed, matches)
            == (if Joins(x, idx, seed, matches) then [x] else []) + Joiners(s, idx, seed, matches)
  {
    assert ([x] + s)[0] == x && ([x] + s)[1..] == s;
  }

  /** One step of the pass: a file without a fingerprint is passed over; a file with
      one seeds a group of itself and its joiners, and the pass goes on with the others. */
  lemma GreedyCons<V>(x: string, s: seq<string>, idx: map<string, V>, matches: (V, V) -> bool, keep: bool)
    ensures x !in idx ==> Greedy([x] + s, idx, matches, keep) == Greedy(s, idx, matches, keep)
    ensures x in idx ==>
      var group := [x] + Joiners(s, idx, idx[x], matches);
      Greedy([x] + s, idx, matches, keep)
      == (if keep || |group| > 1 then [group] else []) + Greedy(Others(s, idx, idx[x], matches), idx, matches, keep)
  {
    assert ([x] + s)[0] == x && ([x] + s)[1..] == s;
  }

  /** The files at positions `lo..` of the index whose `seen` flag is still false. */
  ghost function Unseen(files: seq<string>, seen: seq<bool>, lo: nat): seq<string>
    requires |seen| == |files| && lo <= |files|
    decreases |files| - lo
  {
    if lo == |files| then [] else (if seen[lo] then [] else [files[lo]]) + Unseen(files, seen, lo + 1)
  }

  lemma {:induction false} JoinersMembers<V>(s: seq<string>, idx: map<string, V>, seed: V, matches: (V, V) -> bool)
    ensures forall x :: x in Joiners(s, idx, seed, matches) <==> x in s && Joins(x, idx, seed, matches)
  {
    if s != [] {
      JoinersMembers(s[1..], idx, seed, matches);
      assert forall x :: x in s <==> x == s[0] || x in s[1..];
    }
  }

  lemma {:induction false} OthersMembers<V>(s: seq<string>, idx: map<string, V>, seed: V, matches: (V, V) -> bool)
    ensures forall x :: x in Others(s, idx, seed, matches) <==> x in s && !Joins(x, idx, seed, matches)
  {
    if s != [] {
      OthersMembers(s[1..], idx, seed, matches);
      assert forall x :: x in s <==> x == s[0] || x in s[1..];
    }
  }

  lemma {:induction false} JoinersSubseq<V>(s: seq<string>, idx: map<string, V>, seed: V, matches: (V, V) -> bool)
    ensures Subseq(Joiners(s, idx, seed, matches), s)
  {
    if s != [] {
      var r := Joiners(s[1..], idx, seed, matches);
      JoinersSubseq(s[1..], idx, seed, matches);
      if Joins(s[0], idx, seed, matches) {
        assert ([s[0]] + r)[1..] == r;
      } else {
        assert [] + r == r;
      }
    }
  }

  lemma {:induction false} OthersSubseq<V>(s: seq<string>, idx: map<string, V>, seed: V, matches: (V, V) -> bool)
    ensures Subseq(Others(s, idx, seed, matches), s)
  {
    if s != [] {
      var r := Others(s[1..], idx, seed, matches);
      OthersSubseq(s[1..], idx, seed, matches);
      if Joins(s[0], idx, seed, matches) {
        assert [] + r == r;
      } else {
        assert ([s[0]] + r)[1..] == r;
      }
    }
  }

  lemma SubseqUnderCons(x: string, s: seq<string>, t: seq<string>)
    requires Subseq(s, t)
    ensures Subseq(s, [x] + t)
  {
    assert ([x] + t)[1..] == t;
  }

  /** Every member of every group is a file of `rest` that has a fingerprint. */
  ghost predicate DrawnFrom<V>(gs: seq<seq<string>>, rest: seq<string>, idx: map<string, V>)
  {
    forall k, x :: 0 <= k < |gs| && x in gs[k] ==> x in rest && x in idx
  }

  /** Putting a group (or nothing) drawn from `rest` in front of groups drawn from a
      part of `rest` gives groups drawn from `rest`. */
  lemma DrawnAfterPrepend<V>(group: seq<string>, tail: seq<seq<string>>, pool: seq<string>, rest: seq<string>,
                             idx: map<string, V>, emit: bool)
    requires forall x :: x in group ==> x in rest && x in idx
    requires DrawnFrom(tail, pool, idx)
    requires forall x :: x in pool ==> x in rest
    ensures DrawnFrom((if emit then [group] else []) + tail, rest, idx)
  {
    var gs := (if emit then [group] else []) + tail;
    var d := if emit then 1 else 0;
    forall k, x | 0 <= k < |gs| && x in gs[k] ensures x in rest && x in idx {
      if k >= d {
        assert gs[k] == tail[k - d];
      }
    }
  }

  /** Every grouped file is a file of the index that has a fingerprint: a file whose
      fingerprint is null appears in no group. */
  lemma {:induction false} GreedyMembers<V>(rest: seq<string>, idx: map<string, V>, matches: (V, V) -> bool, keep: bool)
    ensures DrawnFrom(Greedy(rest, idx, matches, keep), rest, idx)
    decreases |rest|
  {
    if rest != [] {
      var a := rest[0];
      assert [a] + rest[1..] == rest;
      assert forall x :: x in rest[1..] ==> x in rest;
      if a !in idx {
        GreedyMembers(rest[1..], idx, matches, keep);
        DrawnAfterPrepend([], Greedy(rest[1..], idx, matches, keep), rest[1..], rest, idx, false);
      } else {
        var seed := idx[a];
        var group := [a] + Joiners(rest[1..], idx, seed, matches);
        var others := Others(rest[1..], idx, seed, matches);
        JoinersMembers(rest[1..], idx, seed, matches);
        OthersMembers(rest[1..], idx, seed, matches);
        GreedyMembers(others, idx, matches, keep);
        DrawnAfterPrepend(group, Greedy(others, idx, matches, keep), others, rest, idx, keep || |group| > 1);
      }
    }
  }

  /** The shape of an emitted group: it is non-empty, its seed (first element) has a
      fingerprint, it has at least two files unless singletons are kept, its files
      occur in the order of `rest`, and every later member matches the SEED's
      fingerprint. */
  ghost predicate WellFormedGroup<V>(g: seq<string>, rest: seq<string>, idx: map<string, V>,
                                     matches: (V, V) -> bool, keep: bool)
  {
    && |g| > 0
    && g[0] in idx
    && (keep || |g| > 1)
    && Subseq(g, rest)
    && forall m :: 1 <= m < |g| ==> Joins(g[m], idx, idx[g[0]], matches)
  }

  lemma WellFormedInLonger<V>(g: seq<string>, rest: seq<string>, longer: seq<string>, idx: map<string, V>,
                              matches: (V, V) -> bool, keep: bool)
    requires WellFormedGroup(g, rest, idx, matches, keep) && Subseq(rest, longer)
    ensures WellFormedGroup(g, longer, idx, matches, keep)
  {
    SubseqTrans(g, rest, longer);
  }

  ghost predicate AllWellFormed<V>(gs: seq<seq<string>>, rest: seq<string>, idx: map<string, V>,
                                   matches: (V, V) -> bool, keep: bool)
  {
    forall k :: 0 <= k < |gs| ==> WellFormedGroup(gs[k], rest, idx, matches, keep)
  }

  /** Putting a well-formed group (or nothing) in front of groups well formed for a
      subsequence of `rest` gives groups well formed for `rest`. */
  lemma ShapeAfterPrepend<V>(group: seq<string>, tail: seq<seq<string>>, pool: seq<string>, rest: seq<string>,
                             idx: map<string, V>, matches: (V, V) -> bool, keep: bool, emit: bool)
    requires emit ==> WellFormedGroup(group, rest, idx, matches, keep)
    requires AllWellFormed(tail, pool, idx, matches, keep) && Subseq(pool, rest)
    ensures AllWellFormed((if emit then [group] else []) + tail, rest, idx, matches, keep)
  {
    var gs := (if emit then [group] else []) + tail;
    var d := if emit then 1 else 0;
    forall k | 0 <= k < |gs| ensures WellFormedGroup(gs[k], rest, idx, matches, keep) {
      if k >= d {
        assert gs[k] == tail[k - d];
        WellFormedInLonger(gs[k], pool, rest, idx, matches, keep);
      }
    }
  }

  /** The group a seed `a` forms with its joiners among `s` is well formed for `[a] + s`
      whenever it is emitted. */
  lemma SeedGroupShape<V>(a: string, s: seq<string>, idx: map<string, V>, matches: (V, V) -> bool, keep: bool)
    requires a in idx
    requires keep || 1 + |Joiners(s, idx, idx[a], matches)| > 1
    ensures WellFormedGroup([a] + Joiners(s, idx, idx[a], matches), [a] + s, idx, matches, keep)
  {
    var joiners := Joiners(s, idx, idx[a], matches);
    var group := [a] + joiners;
    JoinersMembers(s, idx, idx[a], matches);
    JoinersSubseq(s, idx, idx[a], matches);
    assert group[0] == ([a] + s)[0] && group[1..] == joiners && ([a] + s)[1..] == s;
    forall m | 1 <= m < |group| ensures Joins(group[m], idx, idx[a], matches) {
      assert group[m] == joiners[m - 1];
    }
  }

  /** Every emitted group is well formed. */
  lemma {:induction false} GreedyGroupShape<V>(rest: seq<string>, idx: map<string, V>, matches: (V, V) -> bool, keep: bool)
    ensures AllWellFormed(Greedy(rest, idx, matches, keep), rest, idx, matches, keep)
    decreases |rest|
  {
    if rest != [] {
      var a := rest[0];
      assert [a] + rest[1..] == rest;
      SubseqRefl(rest[1..]);
      SubseqUnderCons(a, rest[1..], rest[1..]);
      if a !in idx {
        GreedyGroupShape(rest[1..], idx, matches, keep);
        ShapeAfterPrepend([], Greedy(rest[1..], idx, matches, keep), rest[1..], rest, idx, matches, keep, false);
      } else {
        var seed := idx[a];
        var group := [a] + Joiners(rest[1..], idx, seed, matches);
        var others := Others(rest[1..], idx, seed, matches);
        var emit := keep || |group| > 1;
        if emit {
          SeedGroupShape(a, rest[1..], idx, matches, keep);
        }
        OthersSubseq(rest[1..], idx, seed, matches);
        SubseqTrans(others, rest[1..], rest);
        GreedyGroupShape(others, idx, matches, keep);
        ShapeAfterPrepend(group, Greedy(others, idx, matches, keep), others, rest, idx, matches, keep, emit);
      }
    }
  }

  /** Putting a group that starts with `rest[0]` (or nothing) in front of groups whose
      seeds are drawn in order from a part of `rest[1..]` keeps the seeds in order. */
  lemma SeedsAfterPrepend(group: seq<string>, tail: seq<seq<string>>, pool: seq<string>, rest: seq<string>, emit: bool)
    requires rest != []
    requires emit ==> |group| > 0 && group[0] == rest[0]
    requires NonEmptyGroups(tail)
    requires Subseq(Seeds(tail), pool) && Subseq(pool, rest[1..])
    ensures NonEmptyGroups((if emit then [group] else []) + tail)
    ensures Subseq(Seeds((if emit then [group] else []) + tail), rest)
  {
    var gs := (if emit then [group] else []) + tail;
    SubseqTrans(Seeds(tail), pool, rest[1..]);
    assert [rest[0]] + rest[1..] == rest;
    if emit {
      assert gs == [group] + tail;
      assert Seeds(gs) == [rest[0]] + Seeds(tail);
      assert ([rest[0]] + Seeds(tail))[1..] == Seeds(tail);
    } else {
      assert gs == tail;
      SubseqUnderCons(rest[0], Seeds(tail), rest[1..]);
    }
  }

  /** The seeds come out in index order. */
  lemma {:induction false} GreedySeedsInOrder<V>(rest: seq<string>, idx: map<string, V>, matches: (V, V) -> bool, keep: bool)
    ensures NonEmptyGroups(Greedy(rest, idx, matches, keep))
    ensures Subseq(Seeds(Greedy(rest, idx, matches, keep)), rest)
    decreases |rest|
  {
    if rest != [] {
      var a := rest[0];
      if a !in idx {
        GreedySeedsInOrder(rest[1..], idx, matches, keep);
        SubseqRefl(rest[1..]);
        SeedsAfterPrepend([], Greedy(rest[1..], idx, matches, keep), rest[1..], rest, false);
      } else {
        var seed := idx[a];
        var group := [a] + Joiners(rest[1..], idx, seed, matches);
        var others := Others(rest[1..], idx, seed, matches);
        GreedySeedsInOrder(others, idx, matches, keep);
        OthersSubseq(rest[1..], idx, seed, matches);
        SeedsAfterPrepend(group, Greedy(others, idx, matches, keep), others, rest, keep || |group| > 1);
      }
    }
  }

  /** Every group lists each of its files once. */
  ghost predicate EachDistinct(gs: seq<seq<string>>)
  {
    forall k :: 0 <= k < |gs| ==> Distinct(gs[k])
  }

  /** Putting a group (or nothing) in front of groups that share no file with it
      keeps the groups disjoint and repeat-free. */
  lemma DisjointAfterPrepend<V>(group: seq<string>, tail: seq<seq<string>>, pool: seq<string>, idx: map<string, V>, emit: bool)
    requires Distinct(group) && PairwiseDisjoint(tail) && EachDistinct(tail)
    requires DrawnFrom(tail, pool, idx)
    requires forall x :: x in pool ==> x !in group
    ensures PairwiseDisjoint((if emit then [group] else []) + tail)
    ensures EachDistinct((if emit then [group] else []) + tail)
  {
    var gs := (if emit then [group] else []) + tail;
    var d := if emit then 1 else 0;
    forall i, j, x | 0 <= i < j < |gs| && x in gs[i] ensures x !in gs[j] {
      assert gs[j] == tail[j - d];
      if i >= d {
        assert gs[i] == tail[i - d];
      }
    }
    forall k | 0 <= k < |gs| ensures Distinct(gs[k]) {
      if k >= d {
        assert gs[k] == tail[k - d];
      }
    }
  }

  /** On a sequence without repeats, the seed's group (the seed and its joiners) has
      no repeats, nor do the files left over, and the two share no file. */
  lemma SeedSplit<V>(a: string, s: seq<string>, idx: map<string, V>, seed: V, matches: (V, V) -> bool)
    requires Distinct([a] + s)
    ensures Distinct([a] + Joiners(s, idx, seed, matches))
    ensures Distinct(Others(s, idx, seed, matches))
    ensures forall x :: x in Others(s, idx, seed, matches) ==> x !in [a] + Joiners(s, idx, seed, matches)
  {
    var joiners := Joiners(s, idx, seed, matches);
    var others := Others(s, idx, seed, matches);
    DistinctCons(a, s);
    JoinersMembers(s, idx, seed, matches);
    OthersMembers(s, idx, seed, matches);
    JoinersSubseq(s, idx, seed, matches);
    OthersSubseq(s, idx, seed, matches);
    SubseqDistinct(joiners, s);
    SubseqDistinct(others, s);
    DistinctCons(a, joiners);
  }

  /** On an index without repeated names, no file is in two groups and no group
      lists a file twice. */
  lemma {:induction false} GreedyDisjoint<V>(rest: seq<string>, idx: map<string, V>, matches: (V, V) -> bool, keep: bool)
    requires Distinct(rest)
    ensures PairwiseDisjoint(Greedy(rest, idx, matches, keep))
    ensures EachDistinct(Greedy(rest, idx, matches, keep))
    decreases |rest|
  {
    if rest != [] {
      var a := rest[0];
      assert [a] + rest[1..] == rest;
      if a !in idx {
        DistinctCons(a, rest[1..]);
        GreedyDisjoint(rest[1..], idx, matches, keep);
      } else {
        var seed := idx[a];
        var group := [a] + Joiners(rest[1..], idx, seed, matches);
        var others := Others(rest[1..], idx, seed, matches);
        SeedSplit(a, rest[1..], idx, seed, matches);
        GreedyDisjoint(others, idx, matches, keep);
        GreedyMembers(others, idx, matches, keep);
        DisjointAfterPrepend(group, Greedy(others, idx, matches, keep), others, idx, keep || |group| > 1);
      }
    }
  }

  /** When singletons are kept, every file of the index that has a fingerprint lands
      in some group (exactly one, by `GreedyDisjoint`). */
  lemma {:induction false} GreedyCovers<V>(rest: seq<string>, idx: map<string, V>, matches: (V, V) -> bool)
    ensures forall x :: x in rest && x in idx ==> InSomeGroup(x, Greedy(rest, idx, matches, true))
    decreases |rest|
  {
    if rest != [] {
      var gs := Greedy(rest, idx, matches, true);
      assert forall x :: x in rest ==> x == rest[0] || x in rest[1..];
      if rest[0] !in idx {
        GreedyCovers(rest[1..], idx, matches);
      } else {
        var a := rest[0];
        var seed := idx[a];
        var group := [a] + Joiners(rest[1..], idx, seed, matches);
        var others := Others(rest[1..], idx, seed, matches);
        var tail := Greedy(others, idx, matches, true);
        assert gs == [group] + tail;
        JoinersMembers(rest[1..], idx, seed, matches);
        OthersMembers(rest[1..], idx, seed, matches);
        GreedyCovers(others, idx, matches);
        forall x | x in rest && x in idx ensures InSomeGroup(x, gs) {
          if x in group {
            assert gs[0] == group;
          } else {
            assert x in others;
            var k :| 0 <= k < |tail| && x in tail[k];
            assert gs[k + 1] == tail[k];
          }
        }
      }
    }
  }

  /** The files at positions `lo..hi-1` that are unseen and whose `joins` flag is set:
      what the inner scan of one seed has collected when it reaches position `hi`. */
  ghost function Collected(files: seq<string>, seen: seq<bool>, joins: seq<bool>, lo: nat, hi: nat): seq<string>
    requires |seen| == |files| && |joins| == |files| && lo <= hi <= |files|
    decreases hi - lo
  {
    if hi == lo then []
    else Collected(files, seen, joins, lo, hi - 1) + (if !seen[hi - 1] && joins[hi - 1] then [files[hi - 1]] else [])
  }

  /** The `seen` flags after the inner scan has passed positions `lo..hi-1`: a flag is
      set when it was set before or when the scan marked a joining file there. */
  ghost function Marked(seen: seq<bool>, joins: seq<bool>, lo: nat, hi: nat): (r: seq<bool>)
    requires |joins| == |seen|
    ensures |r| == |seen|
  {
    seq(|seen|, k requires 0 <= k < |seen| => seen[k] || (lo <= k < hi && joins[k]))
  }

  /** For every file of the index, whether it would join the seed's group. */
  ghost function JoinFlags<V>(files: seq<string>, idx: map<string, V>, seed: V, matches: (V, V) -> bool): (r: seq<bool>)
    ensures |r| == |files|
  {
    seq(|files|, k requires 0 <= k < |files| => Joins(files[k], idx, seed, matches))
  }

  /** Advancing the scan by one position sets at most the flag at that position. */
  lemma MarkedStep(seen: seq<bool>, joins: seq<bool>, lo: nat, j: nat)
    requires |joins| == |seen| && lo <= j < |seen|
    ensures Marked(seen, joins, lo, j)[j] == seen[j]
    ensures Marked(seen, joins, lo, j + 1)
            == if !seen[j] && joins[j] then Marked(seen, joins, lo, j)[j := true] else Marked(seen, joins, lo, j)
  {
  }

  /** A completed scan collects exactly the joiners among the unseen files. */
  lemma {:induction false} CollectedJoiners<V>(files: seq<string>, seen: seq<bool>, joins: seq<bool>, lo: nat, hi: nat,
                                               idx: map<string, V>, seed: V, matches: (V, V) -> bool)
    requires |seen| == |files| && lo <= hi <= |files|
    requires joins == JoinFlags(files, idx, seed, matches)
    ensures Collected(files, seen, joins, lo, hi) + Joiners(Unseen(files, seen, hi), idx, seed, matches)
            == Joiners(Unseen(files, seen, lo), idx, seed, matches)
    decreases hi - lo
  {
    if hi == lo {
      assert [] + Joiners(Unseen(files, seen, hi), idx, seed, matches) == Joiners(Unseen(files, seen, hi), idx, seed, matches);
    } else {
      var h := hi - 1;
      CollectedJoiners(files, seen, joins, lo, h, idx, seed, matches);
      var rest := Unseen(files, seen, hi);
      var step := if !seen[h] && joins[h] then [files[h]] else [];
      if seen[h] {
        assert Unseen(files, seen, h) == rest;
      } else {
        assert Unseen(files, seen, h) == [files[h]] + rest;
        JoinersCons(files[h], rest, idx, seed, matches);
      }
      assert Joiners(Unseen(files, seen, h), idx, seed, matches) == step + Joiners(rest, idx, seed, matches);
      ConcatAssoc(Collected(files, seen, joins, lo, h), step, Joiners(rest, idx, seed, matches));
    }
  }

  lemma {:induction false} UnseenNoneSeen(files: seq<string>, seen: seq<bool>, lo: nat)
    requires |seen| == |files| && lo <= |files|
    requires forall k :: lo <= k < |files| ==> !seen[k]
    ensures Unseen(files, seen, lo) == files[lo..]
    decreases |files| - lo
  {
    if lo < |files| {
      UnseenNoneSeen(files, seen, lo + 1);
      assert files[lo..] == [files[lo]] + files[lo + 1..];
    }
  }

  /** After the scan for one seed, the files still unseen are exactly the `Others`
      of the files that were unseen before it. */
  lemma {:induction false} UnseenAfterScan<V>(files: seq<string>, before: seq<bool>, after: seq<bool>, lo: nat,
                                              idx: map<string, V>, seed: V, matches: (V, V) -> bool)
    requires |before| == |files| && |after| == |files| && lo <= |files|
    requires forall k :: lo <= k < |files| ==> after[k] == (before[k] || Joins(files[k], idx, seed, matches))
    ensures Unseen(files, after, lo) == Others(Unseen(files, before, lo), idx, seed, matches)
    decreases |files| - lo
  {
    if lo < |files| {
      UnseenAfterScan(files, before, after, lo + 1, idx, seed, matches);
      var r := Unseen(files, before, lo + 1);
      var r' := Unseen(files, after, lo + 1);
      if before[lo] {
        assert Unseen(files, before, lo) == r;
        assert Unseen(files, after, lo) == r';
      } else {
        var s := [files[lo]] + r;
        assert Unseen(files, before, lo) == s;
        assert s[0] == files[lo] && s[1..] == r;
        assert Others(s, idx, seed, matches)
          == (if Joins(files[lo], idx, seed, matches) then [] else [files[lo]]) + Others(r, idx, seed, matches);
      }
    }
  }

  /** The unseen files from position `lo` on depend only on the flags from `lo` on. */
  lemma {:induction false} UnseenFrom(files: seq<string>, a: seq<bool>, b: seq<bool>, lo: nat)
    requires |a| == |files| && |b| == |files| && lo <= |files|
    requires forall k :: lo <= k < |files| ==> a[k] == b[k]
    ensures Unseen(files, a, lo) == Unseen(files, b, lo)
    decreases |files| - lo
  {
    if lo < |files| {
      UnseenFrom(files, a, b, lo + 1);
    }
  }

  /** One iteration of the outer loop over the positions of the index, stated on the
      `seen` flags: an already consumed file and a file without a fingerprint leave the
      remaining groups unchanged; otherwise the file seeds a group made of itself and the
      joiners among the unseen files after it, and the pass continues with the flags the
      seed's scan leaves behind. */
  lemma ScanStep<V>(files: seq<string>, seen: seq<bool>, i: nat, idx: map<string, V>, matches: (V, V) -> bool, keep: bool)
    requires |seen| == |files| && i < |files|
    ensures seen[i] || files[i] !in idx ==>
      Greedy(Unseen(files, seen, i), idx, matches, keep) == Greedy(Unseen(files, seen, i + 1), idx, matches, keep)
    ensures !seen[i] && files[i] in idx ==>
      Greedy(Unseen(files, seen, i), idx, matches, keep)
      == (if keep || |[files[i]] + Joiners(Unseen(files, seen, i + 1), idx, idx[files[i]], matches)| > 1
          then [[files[i]] + Joiners(Unseen(files, seen, i + 1), idx, idx[files[i]], matches)] else [])
         + Greedy(Unseen(files, Marked(seen[i := true], JoinFlags(files, idx, idx[files[i]], matches), i + 1, |files|), i + 1),
                  idx, matches, keep)
  {
    var later := Unseen(files, seen, i + 1);
    if seen[i] {
      assert Unseen(files, seen, i) == later;
    } else {
      var a := files[i];
      assert Unseen(files, seen, i) == [a] + later;
      GreedyCons(a, later, idx, matches, keep);
      if a in idx {
        var flags := JoinFlags(files, idx, idx[a], matches);
        var marked := seen[i := true];
        UnseenFrom(files, marked, seen, i + 1);
        var after := Marked(marked, flags, i + 1, |files|);
        UnseenAfterScan(files, marked, after, i + 1, idx, idx[a], matches);
      }
    }
  }

  /** A completed scan for the seed at position `i` collects exactly the joiners among
      the files after it that were unseen before the seed was marked. */
  lemma ScanComplete<V>(files: seq<string>, seen: seq<bool>, i: nat, idx: map<string, V>, seed: V, matches: (V, V) -> bool)
    requires |seen| == |files| && i < |files|
    ensures Collected(files, seen[i := true], JoinFlags(files, idx, seed, matches), i + 1, |files|)
            == Joiners(Unseen(files, seen, i + 1), idx, seed, matches)
  {
    var marked := seen[i := true];
    CollectedJoiners(files, marked, JoinFlags(files, idx, seed, matches), i + 1, |files|, idx, seed, matches);
    assert Unseen(files, marked, |files|) == [];
    UnseenFrom(files, marked, seen, i + 1);
  }
}
