/** Facts about sequences of file names: distinctness, subsequences, first-seen
    de-duplication (the behaviour of a LinkedHashSet) and group membership. */
module Seqs {

  /** No name occurs twice. */
  ghost predicate Distinct(s: seq<string>)
  {
    forall i, j :: 0 <= i < j < |s| ==> s[i] != s[j]
  }

  /** `s` can be obtained from `t` by deleting elements: its names occur in `t` in the same order. */
  ghost predicate Subseq(s: seq<string>, t: seq<string>)
    decreases |t|
  {
    s == [] || (t != [] && ((s[0] == t[0] && Subseq(s[1..], t[1..])) || Subseq(s, t[1..])))
  }

  /** The names in the order a LinkedHashSet would hold them after adding all of `s`:
      the first occurrence of each name is kept, later ones are dropped. */
  function Dedup(s: seq<string>): (r: seq<string>)
    ensures Distinct(r)
    ensures forall x :: x in r <==> x in s
  {
    if s == [] then []
    else
      var d := Dedup(s[..|s| - 1]);
      var x := s[|s| - 1];
      assert forall y :: y in s <==> y in s[..|s| - 1] || y == x;
      if x in d then d else d + [x]
  }

  /** Every group has a first element. */
  predicate NonEmptyGroups(groups: seq<seq<string>>)
  {
    forall k :: 0 <= k < |groups| ==> |groups[k]| > 0
  }

  /** Adding one more name to a LinkedHashSet. */
  lemma DedupSnoc(s: seq<string>, x: string)
    ensures Dedup(s + [x]) == if x in Dedup(s) then Dedup(s) else Dedup(s) + [x]
  {
    assert (s + [x])[..|s|] == s;
  }

  /** The first element of every group, in group order. */
  function Seeds(groups: seq<seq<string>>): (r: seq<string>)
    requires NonEmptyGroups(groups)
  {
    seq(|groups|, k requires 0 <= k < |groups| => groups[k][0])
  }

  /** Some group contains `x`. */
  predicate InSomeGroup(x: string, groups: seq<seq<string>>)
  {
    exists k :: 0 <= k < |groups| && x in groups[k]
  }

  /** No name belongs to two different groups. */
  ghost predicate PairwiseDisjoint(groups: seq<seq<string>>)
  {
    forall i, j, x :: 0 <= i < j < |groups| && x in groups[i] ==> x !in groups[j]
  }

  lemma ConcatAssoc<T>(a: seq<T>, b: seq<T>, c: seq<T>)
    ensures a + (b + c) == (a + b) + c
  {
  }

  lemma DistinctCons(x: string, s: seq<string>)
    ensures Distinct([x] + s) <==> x !in s && Distinct(s)
  {
    if x !in s && Distinct(s) {
      forall i, j | 0 <= i < j < |[x] + s| ensures ([x] + s)[i] != ([x] + s)[j] {
        if i > 0 {
          assert ([x] + s)[i] == s[i - 1] && ([x] + s)[j] == s[j - 1];
        } else {
          assert ([x] + s)[j] == s[j - 1];
        }
      }
    }
    if Distinct([x] + s) {
      forall i, j | 0 <= i < j < |s| ensures s[i] != s[j] {
        assert s[i] == ([x] + s)[i + 1] && s[j] == ([x] + s)[j + 1];
      }
    }
    if x in s {
      var k :| 0 <= k < |s| && s[k] == x;
      assert ([x] + s)[0] == ([x] + s)[k + 1];
    }
  }

  /** Two sequences without repeats and without a common name concatenate to one
      without repeats. */
  lemma DistinctConcat(a: seq<string>, b: seq<string>)
    requires Distinct(a) && Distinct(b)
    requires forall x :: x in a ==> x !in b
    ensures Distinct(a + b)
  {
    forall i, j | 0 <= i < j < |a + b| ensures (a + b)[i] != (a + b)[j] {
      if j >= |a| {
        assert (a + b)[j] == b[j - |a|];
        if i >= |a| {
          assert (a + b)[i] == b[i - |a|];
        } else {
          assert (a + b)[i] == a[i] && a[i] in a;
        }
      } else {
        assert (a + b)[i] == a[i] && (a + b)[j] == a[j];
      }
    }
  }

  /** A distinct sequence is left unchanged by de-duplication. */
  lemma {:induction false} DedupOfDistinct(s: seq<string>)
    requires Distinct(s)
    ensures Dedup(s) == s
  {
    if s != [] {
      var p := s[..|s| - 1];
      assert Distinct(p) by {
        forall i, j | 0 <= i < j < |p| ensures p[i] != p[j] {
          assert p[i] == s[i] && p[j] == s[j];
        }
      }
      DedupOfDistinct(p);
      assert s[|s| - 1] !in p;
      assert p + [s[|s| - 1]] == s;
    }
  }

  lemma {:induction false} SubseqMembers(s: seq<string>, t: seq<string>)
    requires Subseq(s, t)
    ensures forall x :: x in s ==> x in t
    decreases |t|
  {
    if s != [] {
      if s[0] == t[0] && Subseq(s[1..], t[1..]) {
        SubseqMembers(s[1..], t[1..]);
        assert forall x :: x in s ==> x == s[0] || x in s[1..];
        assert forall x :: x in t[1..] ==> x in t;
      } else {
        SubseqMembers(s, t[1..]);
        assert forall x :: x in t[1..] ==> x in t;
      }
    }
  }

  lemma {:induction false} SubseqTrans(a: seq<string>, b: seq<string>, c: seq<string>)
    requires Subseq(a, b) && Subseq(b, c)
    ensures Subseq(a, c)
    decreases |c|
  {
    if a != [] {
      if b[0] == c[0] && Subseq(b[1..], c[1..]) {
        if a[0] == b[0] && Subseq(a[1..], b[1..]) {
          SubseqTrans(a[1..], b[1..], c[1..]);
        } else {
          SubseqTrans(a, b[1..], c[1..]);
        }
      } else {
        SubseqTrans(a, b, c[1..]);
      }
    }
  }

  lemma {:induction false} SubseqRefl(s: seq<string>)
    ensures Subseq(s, s)
    decreases |s|
  {
    if s != [] {
      SubseqRefl(s[1..]);
    }
  }

  /** A subsequence of a sequence without repeats has no repeats. */
  lemma {:induction false} SubseqDistinct(s: seq<string>, t: seq<string>)
    requires Subseq(s, t) && Distinct(t)
    ensures Distinct(s)
    decreases |t|
  {
    if s != [] {
      DistinctCons(t[0], t[1..]);
      assert [t[0]] + t[1..] == t;
      if s[0] == t[0] && Subseq(s[1..], t[1..]) {
        SubseqDistinct(s[1..], t[1..]);
        SubseqMembers(s[1..], t[1..]);
        DistinctCons(s[0], s[1..]);
        assert [s[0]] + s[1..] == s;
      } else {
        SubseqDistinct(s, t[1..]);
      }
    }
  }
}
