/**
 * The scoring loop of the ranker (main.py, find_top_matches): every
 * enumerated path is scored; a path whose scoring fails is skipped and the
 * loop goes on with the next one.
 *
 * The image embedding and the cosine similarity are one oracle here, a
 * function from a path to an optional score: None stands for the exception
 * that the loop catches.
 */
module Matches {
  import opened Wrappers
  import opened Seqs

  /** A scored image: its path and its similarity to the query. */
  datatype Match = Match(path: string, score: real)

  /** The match contributed by one path: none when its scoring fails. */
  function ScoreOne(path: string, score: string -> Option<real>): seq<Match>
  {
    match score(path)
    case Some(v) => [Match(path, v)]
    case None => []
  }

  /** The matches of a list of paths, in the paths' order. */
  function Scored(paths: seq<string>, score: string -> Option<real>): seq<Match>
  {
    if paths == [] then [] else ScoreOne(paths[0], score) + Scored(paths[1..], score)
  }

  /** The loop of the source: try to score each path, append its match on
      success, skip it on failure. */
  method ScoreAll(paths: seq<string>, score: string -> Option<real>) returns (matches: seq<Match>)
    ensures matches == Scored(paths, score)
  {
    matches := [];
    for i := 0 to |paths|
      invariant matches == Scored(paths[..i], score)
    {
      PrefixSnoc(paths, i);
      ScoredAppend(paths[..i], [paths[i]], score);
      assert [paths[i]][1..] == [];
      var result := score(paths[i]);
      if result.Some? {
        matches := matches + [Match(paths[i], result.value)];
      }
    }
    assert paths[..|paths|] == paths;
  }

  lemma {:induction false} ScoredAppend(a: seq<string>, b: seq<string>, score: string -> Option<real>)
    ensures Scored(a + b, score) == Scored(a, score) + Scored(b, score)
  {
    if a == [] {
      assert a + b == b;
    } else {
      calc {
        Scored(a + b, score);
        { AppendTail(a, b); }
        ScoreOne(a[0], score) + Scored(a[1..] + b, score);
        { ScoredAppend(a[1..], b, score); }
        ScoreOne(a[0], score) + (Scored(a[1..], score) + Scored(b, score));
        (ScoreOne(a[0], score) + Scored(a[1..], score)) + Scored(b, score);
        Scored(a, score) + Scored(b, score);
      }
    }
  }

  /** A match is produced exactly for a listed path whose scoring succeeds,
      and it carries that path's score. */
  lemma {:induction false} ScoredMembership(paths: seq<string>, score: string -> Option<real>, m: Match)
    ensures m in Scored(paths, score) <==> m.path in paths && score(m.path) == Some(m.score)
  {
    if paths != [] {
      ScoredMembership(paths[1..], score, m);
      assert paths == [paths[0]] + paths[1..];
    }
  }

  /** Each occurrence of a path yields one match when its scoring succeeds
      and none when it fails. */
  lemma {:induction false} ScoredCount(paths: seq<string>, score: string -> Option<real>, m: Match)
    ensures multiset(Scored(paths, score))[m] ==
      if score(m.path) == Some(m.score) then multiset(paths)[m.path] else 0
  {
    if paths != [] {
      ScoredCount(paths[1..], score, m);
      SplitHead(paths);
      assert multiset(paths) == multiset([paths[0]]) + multiset(paths[1..]);
      assert multiset(Scored(paths, score)) == multiset(ScoreOne(paths[0], score)) + multiset(Scored(paths[1..], score));
    }
  }

  /** One match per successfully scored path, and none when every scoring
      fails (an empty list of paths among them). */
  lemma {:induction false} ScoredLength(paths: seq<string>, score: string -> Option<real>)
    ensures |Scored(paths, score)| <= |paths|
    ensures |Scored(paths, score)| == |paths| <==> forall k :: 0 <= k < |paths| ==> score(paths[k]).Some?
    ensures Scored(paths, score) == [] <==> forall k :: 0 <= k < |paths| ==> score(paths[k]).None?
  {
    if paths != [] {
      ScoredLength(paths[1..], score);
      assert forall k :: 1 <= k < |paths| ==> paths[k] == paths[1..][k - 1];
    }
  }

  /** A path whose scoring fails does not change the outcome: the matches are
      those of the same list with that path taken out. */
  lemma ScoredSkipsFailure(paths: seq<string>, score: string -> Option<real>, k: nat)
    requires k < |paths| && score(paths[k]).None?
    ensures Scored(paths, score) == Scored(paths[..k] + paths[k + 1..], score)
  {
    var before, after := paths[..k], paths[k + 1..];
    calc {
      Scored(paths, score);
      { SplitAt(paths, k); }
      Scored(before + ([paths[k]] + after), score);
      { ScoredAppend(before, [paths[k]] + after, score); }
      Scored(before, score) + Scored([paths[k]] + after, score);
      { ScoredAppend([paths[k]], after, score); ScoredOfFailure(paths[k], score); }
      Scored(before, score) + ([] + Scored(after, score));
      Scored(before, score) + Scored(after, score);
      { ScoredAppend(before, after, score); }
      Scored(before + after, score);
    }
  }

  lemma ScoredOfFailure(path: string, score: string -> Option<real>)
    requires score(path).None?
    ensures Scored([path], score) == []
  {
    assert [path][1..] == [];
  }
}
