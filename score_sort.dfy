/**
 * The sort of the ranker (main.py, find_top_matches): the matches are sorted
 * in place by score, highest first, and the sort is stable, so matches with
 * equal scores keep their order.
 *
 * SortDesc is the specification, an insertion sort on sequences; SortByScore
 * is the in-place sort on an array, proved to compute it. Both stability and
 * the permutation property are proved about SortDesc, and StableSortUnique
 * shows that these properties determine its result.
 */
module ScoreSort {
  import opened Matches
  import opened Seqs

  /** Non-increasing in score. */
  predicate SortedDesc(s: seq<Match>)
  {
    forall i, j :: 0 <= i < j < |s| ==> s[i].score >= s[j].score
  }

  /** The matches of s whose score is v, in their order in s. A sort is
      stable when it leaves every such subsequence as it was. */
  function WithScore(s: seq<Match>, v: real): seq<Match>
  {
    if s == [] then [] else ScoreIs(s[0], v) + WithScore(s[1..], v)
  }

  /** The match itself if it scores v, else nothing. */
  function ScoreIs(m: Match, v: real): seq<Match>
  {
    if m.score == v then [m] else []
  }

  /** Inserts x into s after the trailing run of elements scoring strictly
      less than x, scanning from the end. */
  function Insert(s: seq<Match>, x: Match): seq<Match>
  {
    if s == [] then [x]
    else if s[|s| - 1].score < x.score then Insert(s[..|s| - 1], x) + [s[|s| - 1]]
    else s + [x]
  }

  /** Insertion sort, highest score first, from the left. */
  function SortDesc(s: seq<Match>): seq<Match>
  {
    if s == [] then [] else Insert(SortDesc(s[..|s| - 1]), s[|s| - 1])
  }

  /** The sort of the source, in place on an array: each element in turn is
      moved left past the elements that score strictly less. */
  method SortByScore(a: array<Match>)
    modifies a
    ensures a[..] == SortDesc(old(a[..]))
  {
    ghost var input := a[..];
    var i := 0;
    while i < a.Length
      invariant 0 <= i <= a.Length
      invariant a[..i] == SortDesc(input[..i])
      invariant forall k :: i <= k < a.Length ==> a[k] == input[k]
    {
      InsertLast(a, i);
      SortDescSnoc(input, i);
      i := i + 1;
    }
    assert a[..] == a[..a.Length];
    assert input[..a.Length] == input;
  }

  /** One pass of the sort: a[i] is swapped leftwards while its left
      neighbour scores strictly less, which inserts it into a[..i]. */
  method InsertLast(a: array<Match>, i: nat)
    requires i < a.Length
    modifies a
    ensures a[..i + 1] == Insert(old(a[..i]), old(a[i]))
    ensures forall k :: i < k < a.Length ==> a[k] == old(a[k])
  {
    ghost var sorted := a[..i];
    ghost var x := a[i];
    var j := i;
    while j > 0 && a[j - 1].score < a[j].score
      invariant 0 <= j <= i
      invariant forall k :: 0 <= k < j ==> a[k] == sorted[k]
      invariant a[j] == x
      invariant forall k :: j < k <= i ==> a[k] == sorted[k - 1]
      invariant forall k :: i < k < a.Length ==> a[k] == old(a[k])
      invariant forall k :: j <= k < i ==> sorted[k].score < x.score
    {
      a[j - 1], a[j] := a[j], a[j - 1];
      j := j - 1;
    }
    InsertIsSplice(sorted, x, j);
    SpliceFromPointwise(a[..i + 1], sorted, x, j);
  }

  lemma SortDescSnoc(s: seq<Match>, i: nat)
    requires i < |s|
    ensures SortDesc(s[..i + 1]) == Insert(SortDesc(s[..i]), s[i])
  {
    assert s[..i + 1][..i] == s[..i];
  }

  // ---- Facts about Insert ----

  lemma WithScoreSingleton(m: Match, v: real)
    ensures WithScore([m], v) == ScoreIs(m, v)
  {
    assert [m][1..] == [];
  }

  /** Insert places x at the point m that the backward scan stops at. */
  lemma {:induction false} InsertIsSplice(s: seq<Match>, x: Match, m: nat)
    requires m <= |s|
    requires forall k :: m <= k < |s| ==> s[k].score < x.score
    requires m == 0 || s[m - 1].score >= x.score
    ensures Insert(s, x) == s[..m] + [x] + s[m..]
  {
    if s == [] {
    } else if m == |s| {
      assert s[..m] == s;
    } else {
      var init := s[..|s| - 1];
      InsertIsSplice(init, x, m);
      assert init[..m] == s[..m];
      assert init[m..] + [s[|s| - 1]] == s[m..];
    }
  }

  lemma {:induction false} InsertMultiset(s: seq<Match>, x: Match)
    ensures multiset(Insert(s, x)) == multiset(s) + multiset{x}
  {
    if s != [] && s[|s| - 1].score < x.score {
      var init := s[..|s| - 1];
      InsertMultiset(init, x);
      SplitLast(s);
    }
  }

  lemma {:induction false} InsertSorted(s: seq<Match>, x: Match)
    requires SortedDesc(s)
    ensures SortedDesc(Insert(s, x))
  {
    if s != [] && s[|s| - 1].score < x.score {
      var init, last := s[..|s| - 1], s[|s| - 1];
      InsertSorted(init, x);
      InsertMultiset(init, x);
      var r := Insert(init, x);
      forall k | 0 <= k < |r|
        ensures r[k].score >= last.score
      {
        assert r[k] in multiset(init) + multiset{x};
        if r[k] in init {
          var k' :| 0 <= k' < |init| && init[k'] == r[k];
          assert s[k'] == r[k];
        }
      }
    }
  }

  lemma {:induction false} WithScoreAppend(a: seq<Match>, b: seq<Match>, v: real)
    ensures WithScore(a + b, v) == WithScore(a, v) + WithScore(b, v)
  {
    if a == [] {
      assert a + b == b;
    } else {
      calc {
        WithScore(a + b, v);
        { AppendTail(a, b); }
        ScoreIs(a[0], v) + WithScore(a[1..] + b, v);
        { WithScoreAppend(a[1..], b, v); }
        ScoreIs(a[0], v) + (WithScore(a[1..], v) + WithScore(b, v));
        (ScoreIs(a[0], v) + WithScore(a[1..], v)) + WithScore(b, v);
        WithScore(a, v) + WithScore(b, v);
      }
    }
  }

  /** Inserting into a sorted sequence puts x after every element with the
      same score, so each per-score subsequence only grows at its end. */
  lemma {:induction false} InsertWithScore(s: seq<Match>, x: Match, v: real)
    requires SortedDesc(s)
    ensures WithScore(Insert(s, x), v) == WithScore(s, v) + ScoreIs(x, v)
  {
    if s == [] {
      WithScoreSingleton(x, v);
    } else if s[|s| - 1].score < x.score {
      var init, last := s[..|s| - 1], s[|s| - 1];
      assert ScoreIs(x, v) + ScoreIs(last, v) == ScoreIs(last, v) + ScoreIs(x, v);
      calc {
        WithScore(Insert(s, x), v);
        WithScore(Insert(init, x) + [last], v);
        { WithScoreAppend(Insert(init, x), [last], v); }
        WithScore(Insert(init, x), v) + WithScore([last], v);
        { InsertWithScore(init, x, v); WithScoreSingleton(last, v); }
        WithScore(init, v) + ScoreIs(x, v) + ScoreIs(last, v);
        WithScore(init, v) + ScoreIs(last, v) + ScoreIs(x, v);
        { WithScoreSingleton(last, v); WithScoreAppend(init, [last], v); }
        WithScore(init + [last], v) + ScoreIs(x, v);
        { SplitLast(s); }
        WithScore(s, v) + ScoreIs(x, v);
      }
    } else {
      WithScoreAppend(s, [x], v);
      WithScoreSingleton(x, v);
    }
  }

  // ---- What the sort promises ----

  /** The result is non-increasing in score. */
  lemma {:induction false} SortDescSorted(s: seq<Match>)
    ensures SortedDesc(SortDesc(s))
  {
    if s != [] {
      SortDescSorted(s[..|s| - 1]);
      InsertSorted(SortDesc(s[..|s| - 1]), s[|s| - 1]);
    }
  }

  /** The result is a permutation of the input. */
  lemma {:induction false} SortDescPermutation(s: seq<Match>)
    ensures multiset(SortDesc(s)) == multiset(s)
    ensures |SortDesc(s)| == |s|
  {
    if s != [] {
      var init, last := s[..|s| - 1], s[|s| - 1];
      calc {
        multiset(SortDesc(s));
        multiset(Insert(SortDesc(init), last));
        { InsertMultiset(SortDesc(init), last); }
        multiset(SortDesc(init)) + multiset{last};
        { SortDescPermutation(init); }
        multiset(init) + multiset{last};
        multiset(init + [last]);
        { SplitLast(s); }
        multiset(s);
      }
    }
    assert |multiset(SortDesc(s))| == |SortDesc(s)|;
  }

  /** The sort is stable: the matches with any one score appear in the
      result in the order they had in the input. */
  lemma {:induction false} SortDescStable(s: seq<Match>, v: real)
    ensures WithScore(SortDesc(s), v) == WithScore(s, v)
  {
    if s != [] {
      var init, last := s[..|s| - 1], s[|s| - 1];
      calc {
        WithScore(SortDesc(s), v);
        WithScore(Insert(SortDesc(init), last), v);
        { SortDescSorted(init); InsertWithScore(SortDesc(init), last, v); }
        WithScore(SortDesc(init), v) + ScoreIs(last, v);
        { SortDescStable(init, v); }
        WithScore(init, v) + ScoreIs(last, v);
        { WithScoreSingleton(last, v); WithScoreAppend(init, [last], v); }
        WithScore(init + [last], v);
        { SplitLast(s); }
        WithScore(s, v);
      }
    }
  }

  lemma {:induction false} WithScoreMembership(s: seq<Match>, v: real, m: Match)
    ensures m in WithScore(s, v) <==> m in s && m.score == v
  {
    if s != [] {
      WithScoreMembership(s[1..], v, m);
      assert s == [s[0]] + s[1..];
    }
  }

  /** An element of t1 is an element of any sequence with the same per-score
      subsequences as t1. */
  lemma MemberOfSameClasses(t1: seq<Match>, t2: seq<Match>, m: Match)
    requires forall v :: WithScore(t1, v) == WithScore(t2, v)
    requires m in t1
    ensures m in t2
  {
    WithScoreMembership(t1, m.score, m);
    assert WithScore(t1, m.score) == WithScore(t2, m.score);
    WithScoreMembership(t2, m.score, m);
  }

  /** Two sequences sorted by score with the same per-score subsequences are
      equal. */
  lemma {:induction false} SortedSameClassesEqual(t1: seq<Match>, t2: seq<Match>)
    requires SortedDesc(t1) && SortedDesc(t2)
    requires forall v :: WithScore(t1, v) == WithScore(t2, v)
    ensures t1 == t2
  {
    if t2 != [] {
      MemberOfSameClasses(t2, t1, t2[0]);
    }
    if t1 != [] {
      MemberOfSameClasses(t1, t2, t1[0]);
      SameHeads(t1, t2);
      SameTailClasses(t1, t2);
      SortedSameClassesEqual(t1[1..], t2[1..]);
      SplitHead(t1);
      SplitHead(t2);
    }
  }

  /** The first elements of two such sequences score the same: each scores
      at least as much as the other. */
  lemma SameHeadScores(t1: seq<Match>, t2: seq<Match>)
    requires SortedDesc(t1) && SortedDesc(t2) && t1 != [] && t2 != []
    requires forall v :: WithScore(t1, v) == WithScore(t2, v)
    ensures t1[0].score == t2[0].score
  {
    MemberOfSameClasses(t1, t2, t1[0]);
    var k :| 0 <= k < |t2| && t2[k] == t1[0];
    assert t2[0].score >= t2[k].score;
    MemberOfSameClasses(t2, t1, t2[0]);
    var k' :| 0 <= k' < |t1| && t1[k'] == t2[0];
    assert t1[0].score >= t1[k'].score;
  }

  /** Both first elements head the subsequence of their common score, so
      they are the same match. */
  lemma SameHeads(t1: seq<Match>, t2: seq<Match>)
    requires SortedDesc(t1) && SortedDesc(t2) && t1 != [] && t2 != []
    requires forall v :: WithScore(t1, v) == WithScore(t2, v)
    ensures t1[0] == t2[0]
  {
    SameHeadScores(t1, t2);
    var v := t1[0].score;
    assert WithScore(t1, v) == WithScore(t2, v);
    assert WithScore(t1, v) == [t1[0]] + WithScore(t1[1..], v);
    assert WithScore(t2, v) == [t2[0]] + WithScore(t2[1..], v);
    assert WithScore(t1, v)[0] == t1[0];
  }

  lemma SameTailClasses(t1: seq<Match>, t2: seq<Match>)
    requires t1 != [] && t2 != [] && t1[0] == t2[0]
    requires forall v :: WithScore(t1, v) == WithScore(t2, v)
    ensures forall v :: WithScore(t1[1..], v) == WithScore(t2[1..], v)
  {
    forall v
      ensures WithScore(t1[1..], v) == WithScore(t2[1..], v)
    {
      assert WithScore(t1, v) == WithScore(t2, v);
      assert WithScore(t1, v) == ScoreIs(t1[0], v) + WithScore(t1[1..], v);
      assert WithScore(t2, v) == ScoreIs(t1[0], v) + WithScore(t2[1..], v);
      CancelPrefix(ScoreIs(t1[0], v), WithScore(t1[1..], v), WithScore(t2[1..], v));
    }
  }

  /** SortDesc is the only stable sort by score: any sequence that is sorted
      by score and keeps every per-score subsequence of s is SortDesc(s). */
  lemma StableSortUnique(s: seq<Match>, t: seq<Match>)
    requires SortedDesc(t)
    requires forall v :: WithScore(t, v) == WithScore(s, v)
    ensures t == SortDesc(s)
  {
    SortDescSorted(s);
    forall v
      ensures WithScore(t, v) == WithScore(SortDesc(s), v)
    {
      SortDescStable(s, v);
    }
    SortedSameClassesEqual(t, SortDesc(s));
  }
}
