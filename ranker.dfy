/**
 * The ranking pipeline (main.py, find_top_matches): embed the query once,
 * enumerate the image files, score each one (skipping failures), sort the
 * matches by score, highest first and stably, and keep the first top_n.
 */
module Ranker {
  import opened Wrappers
  import opened Enumerator
  import opened Matches
  import opened ScoreSort

  /** The slice s[:n] of the source's language: the first n elements, all of
      them when n exceeds the length, and for a negative n all but the last
      -n elements. */
  function SliceTo<T>(s: seq<T>, n: int): seq<T>
  {
    if n >= 0 then s[..if n <= |s| then n else |s|]
    else s[..if |s| + n >= 0 then |s| + n else 0]
  }

  /** The ranking of a list of paths: score, sort, slice. */
  function Rank(paths: seq<string>, score: string -> Option<real>, topN: int): seq<Match>
  {
    SliceTo(SortDesc(Scored(paths, score)), topN)
  }

  /** The ranking of the images a walk yields. */
  function TopMatches(walk: seq<WalkStep>, score: string -> Option<real>, topN: int): seq<Match>
  {
    Rank(ImagePaths(walk), score, topN)
  }

  /** What a call of the pipeline ends with: a ranking, or the failure of the
      query's embedding, which the source does not catch. */
  datatype Outcome = Ranked(matches: seq<Match>) | QueryFailed

  /** The pipeline as the source runs it. The query is embedded once by
      embedText; similarity(q) scores one image path against the query's
      embedding q and yields None where the source's loop catches an
      exception. */
  method FindTopMatches<F>(prompt: string, walk: seq<WalkStep>, embedText: string -> Option<F>,
                           similarity: F -> string -> Option<real>, topN: int)
    returns (outcome: Outcome)
    ensures embedText(prompt).None? ==> outcome == QueryFailed
    ensures embedText(prompt).Some? ==>
      outcome == Ranked(TopMatches(walk, similarity(embedText(prompt).value), topN))
    ensures outcome.Ranked? ==> SortedDesc(outcome.matches)
  {
    var textFeatures := embedText(prompt);
    if textFeatures.None? {
      return QueryFailed;
    }
    var score := similarity(textFeatures.value);
    var imageFiles := GetImageFiles(walk);
    var matches := ScoreAll(imageFiles, score);
    var a := new Match[|matches|](k requires 0 <= k < |matches| => matches[k]);
    assert a[..] == matches;
    SortByScore(a);
    outcome := Ranked(SliceTo(a[..], topN));
    RankSorted(imageFiles, score, topN);
  }

  // ---- The slice ----

  /** The slice is a prefix; with n >= 0 its length is the smaller of n and
      the length of s, with n < 0 it drops -n elements from the end. */
  lemma SliceToPrefix<T>(s: seq<T>, n: int)
    ensures SliceTo(s, n) <= s
    ensures n >= 0 ==> |SliceTo(s, n)| == (if n <= |s| then n else |s|)
    ensures n < 0 ==> |SliceTo(s, n)| == (if |s| + n >= 0 then |s| + n else 0)
  {
  }

  lemma {:induction false} PrefixSorted(r: seq<Match>, s: seq<Match>)
    requires r <= s && SortedDesc(s)
    ensures SortedDesc(r)
  {
    forall i, j | 0 <= i < j < |r|
      ensures r[i].score >= r[j].score
    {
      assert r[i] == s[i] && r[j] == s[j];
    }
  }

  lemma {:induction false} WithScorePrefix(r: seq<Match>, s: seq<Match>, v: real)
    requires r <= s
    ensures WithScore(r, v) <= WithScore(s, v)
  {
    if r != [] {
      assert r[1..] <= s[1..];
      WithScorePrefix(r[1..], s[1..], v);
    }
  }

  // ---- What the ranking promises ----

  /** The ranking is non-increasing in score. */
  lemma RankSorted(paths: seq<string>, score: string -> Option<real>, topN: int)
    ensures SortedDesc(Rank(paths, score, topN))
  {
    var sorted := SortDesc(Scored(paths, score));
    SortDescSorted(Scored(paths, score));
    SliceToPrefix(sorted, topN);
    PrefixSorted(Rank(paths, score, topN), sorted);
  }

  /** With topN >= 0 the ranking has min(topN, number of scored images)
      matches. */
  lemma RankLength(paths: seq<string>, score: string -> Option<real>, topN: int)
    requires topN >= 0
    ensures var scored := |Scored(paths, score)|;
      |Rank(paths, score, topN)| == if topN <= scored then topN else scored
  {
    SortDescPermutation(Scored(paths, score));
    SliceToPrefix(SortDesc(Scored(paths, score)), topN);
  }

  /** With topN > 0 the ranking is empty exactly when every image fails to
      score, an empty corpus among them. */
  lemma RankEmpty(paths: seq<string>, score: string -> Option<real>, topN: int)
    requires topN > 0
    ensures Rank(paths, score, topN) == [] <==> forall k :: 0 <= k < |paths| ==> score(paths[k]).None?
  {
    RankLength(paths, score, topN);
    ScoredLength(paths, score);
  }

  /** Each returned match is an image of the corpus that scored successfully,
      with the oracle's score for it. */
  lemma RankSound(paths: seq<string>, score: string -> Option<real>, topN: int, m: Match)
    requires m in Rank(paths, score, topN)
    ensures m.path in paths && score(m.path) == Some(m.score)
  {
    var scored := Scored(paths, score);
    SortDescPermutation(scored);
    SliceToPrefix(SortDesc(scored), topN);
    assert m in SortDesc(scored);
    assert m in multiset(scored);
    ScoredMembership(paths, score, m);
  }

  /** The ranking is a prefix of a permutation of the successful matches. */
  lemma RankPrefixOfPermutation(paths: seq<string>, score: string -> Option<real>, topN: int)
    ensures var t := SortDesc(Scored(paths, score));
      multiset(t) == multiset(Scored(paths, score)) && Rank(paths, score, topN) <= t
  {
    var t := SortDesc(Scored(paths, score));
    SortDescPermutation(Scored(paths, score));
    SliceToPrefix(t, topN);
  }

  /** The ranking keeps the best matches: every successful match left out
      scores no higher than any match kept. */
  lemma RankKeepsBest(paths: seq<string>, score: string -> Option<real>, topN: int)
    ensures var r := Rank(paths, score, topN);
      forall m, m' :: m in r && m' in multiset(Scored(paths, score)) - multiset(r) ==> m'.score <= m.score
  {
    var scored := Scored(paths, score);
    var t := SortDesc(scored);
    SortDescPermutation(scored);
    SortDescSorted(scored);
    SliceToPrefix(t, topN);
    SortedPrefixKeepsBest(t, |Rank(paths, score, topN)|);
    assert Rank(paths, score, topN) == t[..|Rank(paths, score, topN)|];
  }

  lemma SortedPrefixKeepsBest(t: seq<Match>, n: nat)
    requires SortedDesc(t) && n <= |t|
    ensures forall m, m' :: m in t[..n] && m' in multiset(t) - multiset(t[..n]) ==> m'.score <= m.score
  {
    MultisetOfRest(t, n);
    forall m: Match, m': Match | m in t[..n] && m' in multiset(t) - multiset(t[..n])
      ensures m'.score <= m.score
    {
      assert m' in t[n..];
      ScoreAbove(t, n, m, m');
    }
  }

  lemma MultisetOfRest(t: seq<Match>, n: nat)
    requires n <= |t|
    ensures multiset(t) - multiset(t[..n]) == multiset(t[n..])
  {
    assert t == t[..n] + t[n..];
  }

  lemma ScoreAbove(t: seq<Match>, n: nat, m: Match, m': Match)
    requires SortedDesc(t) && n <= |t|
    requires m in t[..n] && m' in t[n..]
    ensures m'.score <= m.score
  {
    var i :| 0 <= i < n && t[..n][i] == m;
    var j :| 0 <= j < |t| - n && t[n..][j] == m';
    assert t[i] == m && t[n + j] == m';
  }

  /** Images with equal scores keep their enumeration order: for each score,
      the returned matches with that score are the first ones with that score
      among the successful matches. */
  lemma RankStable(paths: seq<string>, score: string -> Option<real>, topN: int, v: real)
    ensures WithScore(Rank(paths, score, topN), v) <= WithScore(Scored(paths, score), v)
  {
    var t := SortDesc(Scored(paths, score));
    SliceToPrefix(t, topN);
    WithScorePrefix(Rank(paths, score, topN), t, v);
    SortDescStable(Scored(paths, score), v);
  }

  /** An image that fails to score changes nothing: the ranking equals that
      of the corpus without it. */
  lemma RankSkipsFailure(paths: seq<string>, score: string -> Option<real>, topN: int, k: nat)
    requires k < |paths| && score(paths[k]).None?
    ensures Rank(paths, score, topN) == Rank(paths[..k] + paths[k + 1..], score, topN)
  {
    ScoredSkipsFailure(paths, score, k);
  }

  /** When the oracle's scores are cosine similarities, in [-1, 1], so are
      the returned scores. */
  lemma RankScoresBounded(paths: seq<string>, score: string -> Option<real>, topN: int)
    requires forall p :: score(p).Some? ==> -1.0 <= score(p).value <= 1.0
    ensures forall m :: m in Rank(paths, score, topN) ==> -1.0 <= m.score <= 1.0
  {
    forall m | m in Rank(paths, score, topN)
      ensures -1.0 <= m.score <= 1.0
    {
      RankSound(paths, score, topN, m);
    }
  }

  // ---- The whole pipeline ----

  /** Each returned match is the joined path of an image file of the walk,
      ends in an image extension, and carries the oracle's score. */
  lemma TopMatchesSound(walk: seq<WalkStep>, score: string -> Option<real>, topN: int, m: Match)
    requires m in TopMatches(walk, score, topN)
    ensures exists f :: f in Flatten(walk) && IsImageName(f.name) && Join(f.root, f.name) == m.path
    ensures IsImageName(m.path)
    ensures score(m.path) == Some(m.score)
  {
    RankSound(ImagePaths(walk), score, topN, m);
    ImagePathsMembership(walk, m.path);
    ImagePathsHaveImageNames(walk);
  }

  /** A walk with no image files, an empty walk among them, gives an empty
      result, for which the source reports that no image matched. */
  lemma NoImagesNoMatches(walk: seq<WalkStep>, score: string -> Option<real>, topN: int)
    requires forall f :: f in Flatten(walk) ==> !IsImageName(f.name)
    ensures TopMatches(walk, score, topN) == []
  {
    NoImagesNoPaths(walk);
  }

  // ---- Scenarios ----

  /** A cat photo and a car photo, the query scoring the cat higher: the cat
      comes first and both are returned. */
  lemma CatBeforeCar(score: string -> Option<real>, cat: real, car: real)
    requires score("cat.jpg") == Some(cat) && score("car.png") == Some(car) && cat > car
    ensures Rank(["cat.jpg", "car.png"], score, 5) == [Match("cat.jpg", cat), Match("car.png", car)]
  {
    var paths := ["cat.jpg", "car.png"];
    assert paths[1..] == ["car.png"];
    assert Scored(paths, score) == [Match("cat.jpg", cat), Match("car.png", car)];
    var s := [Match("cat.jpg", cat), Match("car.png", car)];
    assert s[..1] == [Match("cat.jpg", cat)];
    assert SortDesc(s[..1]) == [Match("cat.jpg", cat)];
  }

  /** Two scored images listed lower score first: the sort moves the higher
      one ahead, and both are returned. */
  lemma HigherScoreMovesFirst(score: string -> Option<real>, p: string, q: string, lo: real, hi: real)
    requires score(p) == Some(lo) && score(q) == Some(hi) && lo < hi
    ensures Rank([p, q], score, 5) == [Match(q, hi), Match(p, lo)]
  {
    var paths := [p, q];
    assert paths[1..] == [q] && paths[1..][1..] == [];
    var s := [Match(p, lo), Match(q, hi)];
    assert Scored([q], score) == [Match(q, hi)] + Scored([], score);
    assert Scored(paths, score) == [Match(p, lo)] + Scored([q], score);
    assert s[..1] == [Match(p, lo)] && [Match(p, lo)][..0] == [];
    assert SortDesc(s[..1]) == [Match(p, lo)];
    assert [Match(p, lo)][..0] == [];
    assert Insert([Match(p, lo)], Match(q, hi)) == Insert([], Match(q, hi)) + [Match(p, lo)];
  }

  /** The walk of one folder lists the car photo before the cat photo; the
      query scoring the cat higher, the cat's path comes first. */
  lemma CatBeforeCarInWalk(score: string -> Option<real>, cat: real, car: real)
    requires score("images/cat.jpg") == Some(cat) && score("images/car.png") == Some(car) && cat > car
    ensures TopMatches([WalkStep("images", ["car.png", "cat.jpg"])], score, 5)
         == [Match("images/cat.jpg", cat), Match("images/car.png", car)]
  {
    CarAndCatPaths();
    HigherScoreMovesFirst(score, "images/car.png", "images/cat.jpg", car, cat);
  }

  /** The enumerator keeps both photos of that walk, in listing order. */
  lemma CarAndCatPaths()
    ensures ImagePaths([WalkStep("images", ["car.png", "cat.jpg"])]) == ["images/car.png", "images/cat.jpg"]
  {
    var walk := [WalkStep("images", ["car.png", "cat.jpg"])];
    var car, cat := FoundFile("images", "car.png"), FoundFile("images", "cat.jpg");
    assert walk[1..] == [];
    assert FilesOf(walk[0]) == [car, cat];
    assert Flatten(walk) == [car, cat] + [];
    CarAndCatAreImages();
    SelectImagesAllKept([car, cat]);
    assert Join("images", "car.png") == "images/car.png";
    assert Join("images", "cat.jpg") == "images/cat.jpg";
  }

  lemma CarAndCatAreImages()
    ensures IsImageName("car.png") && IsImageName("cat.jpg")
  {
    assert Lower("car.png")[3..] == ".png";
    assert Lower("cat.jpg")[3..] == ".jpg";
  }

  /** A corrupt file and a valid image: only the valid image is returned. */
  lemma CorruptFileSkipped(score: string -> Option<real>, v: real)
    requires score("broken.jpg") == None && score("cat.jpg") == Some(v)
    ensures Rank(["broken.jpg", "cat.jpg"], score, 5) == [Match("cat.jpg", v)]
  {
    var paths := ["broken.jpg", "cat.jpg"];
    assert paths[1..] == ["cat.jpg"] && paths[1..][1..] == [];
    assert Scored(paths, score) == [Match("cat.jpg", v)];
    assert [Match("cat.jpg", v)][..0] == [];
    assert SortDesc([Match("cat.jpg", v)]) == [Match("cat.jpg", v)];
  }
}
