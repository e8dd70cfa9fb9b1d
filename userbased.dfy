/**
 The user-based recommender, `user(...)` in both source files: the similarity
 of the target user to every other user, then for each candidate item the
 weighted mean of the ratings of its most similar positive watchers, then the
 best N candidates. The two files differ only in the threshold k and in how
 they select the largest entries, which are the parameters `k` and
 `selection`.
 */
module UserBased {
  import opened Results
  import opened Dicts
  import opened Ratings
  import opened Ranking
  import opened Similarities
  import opened Scoring

  /** `all_similarities`: the target's similarity to every other user who rated something, and to nobody else. */
  ghost function UserSimilarities(metric: Metric, sqrt: real -> real, rows: seq<Rating>, target: int): (r: map<int, real>)
    requires target in Users(rows)
    ensures r.Keys == Users(rows) - {target}
    ensures forall u :: u in r ==> r[u] == Similarity(metric, sqrt, ByUser(rows)[target], ByUser(rows)[u])
  {
    var ratings := ByUser(rows);
    map u | u in ratings && u != target :: Similarity(metric, sqrt, ratings[target], ratings[u])
  }

  /** The dictionary `similarities` of one candidate: its watchers with positive similarity, in row order. */
  function PositiveWatchers(rows: seq<Rating>, sims: map<int, real>, m: int): (r: seq<Scored>)
    requires forall u :: u in Watchers(rows, m) ==> u in sims
    ensures forall e :: e in r <==> e.id in Watchers(rows, m) && sims[e.id] > 0.0 && e.score == sims[e.id]
    ensures DistinctIds(r)
    ensures |r| <= |Watchers(rows, m)|
  {
    PositivePool(Watchers(rows, m), sims)
  }

  /** The kept neighbours are positive watchers of m, so their ratings of m exist. */
  lemma KeptNeighbours(selection: Selection, k: nat, rows: seq<Rating>, sims: map<int, real>, m: int)
    requires forall u :: u in Watchers(rows, m) ==> u in sims
    ensures forall i :: 0 <= i < |Top(selection, k, PositiveWatchers(rows, sims, m))| ==>
              var e := Top(selection, k, PositiveWatchers(rows, sims, m))[i];
              e.score > 0.0 && e.id in Watchers(rows, m) && Lookup(ByUser(rows), e.id, m).Some?
  {
    var pool := PositiveWatchers(rows, sims, m);
    TopOfPositive(selection, k, pool);
    forall u | u in Watchers(rows, m) ensures Lookup(ByUser(rows), u, m).Some? {
      ByUserLookup(rows, u, m);
    }
  }

  /**
   Which count the watcher threshold is applied to: the source compares the
   number of rating rows of m, `len(watchers)`; the item-based recommender
   compares the number of positive neighbours, `len(similarities)`.
   */
  datatype Threshold = AllWatchers | PositiveNeighbours

  /** Whether m has enough watchers for a score. */
  function Qualifies(threshold: Threshold, k: nat, rows: seq<Rating>, sims: map<int, real>, m: int): bool
    requires forall u :: u in Watchers(rows, m) ==> u in sims
  {
    match threshold
    case AllWatchers => |Watchers(rows, m)| >= k
    case PositiveNeighbours => |PositiveWatchers(rows, sims, m)| >= k
  }

  /** `_score_of(m)`: 0 below the watcher threshold, otherwise the weighted mean of the top k positive watchers. */
  function UserScore(threshold: Threshold, k: nat, selection: Selection, rows: seq<Rating>, sims: map<int, real>, m: int): (r: Result<real>)
    requires forall u :: u in Watchers(rows, m) ==> u in sims
    ensures r.Err? ==> r.error == ZeroDivision
  {
    if !Qualifies(threshold, k, rows, sims, m) then Ok(0.0)
    else
      var top := Top(selection, k, PositiveWatchers(rows, sims, m));
      KeptNeighbours(selection, k, rows, sims, m);
      WeightedMean(NeighbourRatings(ByUser(rows), top, m))
  }

  /** The kept neighbours of m with their ratings of m. */
  ghost function Neighbourhood(k: nat, selection: Selection, rows: seq<Rating>, sims: map<int, real>, m: int): (r: seq<Observation>)
    requires forall u :: u in Watchers(rows, m) ==> u in sims
    ensures PositiveWeights(r)
    ensures forall lo, hi :: ItemRatingsWithin(rows, m, lo, hi) ==> RatingsWithin(r, lo, hi)
    ensures |r| == |Top(selection, k, PositiveWatchers(rows, sims, m))|
  {
    var top := Top(selection, k, PositiveWatchers(rows, sims, m));
    KeptNeighbours(selection, k, rows, sims, m);
    var obs := NeighbourRatings(ByUser(rows), top, m);
    assert forall lo, hi :: ItemRatingsWithin(rows, m, lo, hi) ==> RatingsWithin(obs, lo, hi) by {
      forall lo, hi | ItemRatingsWithin(rows, m, lo, hi) ensures RatingsWithin(obs, lo, hi) {
        forall i | 0 <= i < |obs| ensures lo <= obs[i].rating <= hi {
          var u := top[i].id;
          ByUserLookup(rows, u, m);
          LastRatingWithin(rows, u, m, lo, hi);
        }
      }
    }
    obs
  }

  /** Above the threshold the score is the weighted mean of the neighbourhood. */
  lemma ScoreOfNeighbourhood(threshold: Threshold, k: nat, selection: Selection, rows: seq<Rating>, sims: map<int, real>, m: int)
    requires forall u :: u in Watchers(rows, m) ==> u in sims
    requires Qualifies(threshold, k, rows, sims, m)
    ensures UserScore(threshold, k, selection, rows, sims, m) == WeightedMean(Neighbourhood(k, selection, rows, sims, m))
  {
  }

  /**
   Below the threshold the score is 0 whatever the similarities; above it
   any score is the neighbours' weighted mean, which lies between the lowest
   and the highest rating of m.
   */
  lemma UserScoreWithin(threshold: Threshold, k: nat, selection: Selection, rows: seq<Rating>, sims: map<int, real>, m: int, lo: real, hi: real)
    requires forall u :: u in Watchers(rows, m) ==> u in sims
    requires ItemRatingsWithin(rows, m, lo, hi)
    ensures !Qualifies(threshold, k, rows, sims, m) ==> UserScore(threshold, k, selection, rows, sims, m) == Ok(0.0)
    ensures Qualifies(threshold, k, rows, sims, m) && UserScore(threshold, k, selection, rows, sims, m).Ok? ==>
              lo <= UserScore(threshold, k, selection, rows, sims, m).value <= hi
  {
    if Qualifies(threshold, k, rows, sims, m) {
      ScoreOfNeighbourhood(threshold, k, selection, rows, sims, m);
      WeightedMeanWithin(Neighbourhood(k, selection, rows, sims, m), lo, hi);
    }
  }

  /** The pool of positive watchers is empty exactly when no watcher has a positive similarity. */
  lemma NoPositiveWatcher(rows: seq<Rating>, sims: map<int, real>, m: int)
    requires forall u :: u in Watchers(rows, m) ==> u in sims
    ensures |PositiveWatchers(rows, sims, m)| == 0 <==> forall u :: u in Watchers(rows, m) ==> sims[u] <= 0.0
  {
    var pool := PositiveWatchers(rows, sims, m);
    if |pool| > 0 {
      assert pool[0] in pool;
    }
    if exists u :: u in Watchers(rows, m) && sims[u] > 0.0 {
      var u :| u in Watchers(rows, m) && sims[u] > 0.0;
      assert Scored(u, sims[u]) in pool;
    }
  }

  /** Above the threshold the score fails exactly when the neighbourhood is empty. */
  lemma EmptyNeighbourhood(threshold: Threshold, k: nat, selection: Selection, rows: seq<Rating>, sims: map<int, real>, m: int)
    requires forall u :: u in Watchers(rows, m) ==> u in sims
    requires k >= 1 && Qualifies(threshold, k, rows, sims, m)
    ensures UserScore(threshold, k, selection, rows, sims, m).Err? <==> |PositiveWatchers(rows, sims, m)| == 0
    ensures UserScore(threshold, k, selection, rows, sims, m).Err? ==> UserScore(threshold, k, selection, rows, sims, m).error == ZeroDivision
  {
    ScoreOfNeighbourhood(threshold, k, selection, rows, sims, m);
    TotalWeightPositive(Neighbourhood(k, selection, rows, sims, m));
    TopKeepsLargest(selection, k, PositiveWatchers(rows, sims, m));
  }

  /**
   As written, with at least k >= 1 rating rows the score fails with a
   division by zero exactly when no watcher has a positive similarity: the
   threshold counts watchers, the mean only positive ones.
   */
  lemma UserScoreFails(k: nat, selection: Selection, rows: seq<Rating>, sims: map<int, real>, m: int)
    requires forall u :: u in Watchers(rows, m) ==> u in sims
    requires k >= 1 && |Watchers(rows, m)| >= k
    ensures UserScore(AllWatchers, k, selection, rows, sims, m).Err? <==> forall u :: u in Watchers(rows, m) ==> sims[u] <= 0.0
    ensures UserScore(AllWatchers, k, selection, rows, sims, m).Err? ==> UserScore(AllWatchers, k, selection, rows, sims, m).error == ZeroDivision
  {
    EmptyNeighbourhood(AllWatchers, k, selection, rows, sims, m);
    NoPositiveWatcher(rows, sims, m);
  }

  /** Counting positive neighbours, as the item-based recommender does, the score never fails. */
  lemma NeighbourThresholdNeverFails(k: nat, selection: Selection, rows: seq<Rating>, sims: map<int, real>, m: int)
    requires forall u :: u in Watchers(rows, m) ==> u in sims
    requires k >= 1
    ensures UserScore(PositiveNeighbours, k, selection, rows, sims, m).Ok?
  {
    if Qualifies(PositiveNeighbours, k, rows, sims, m) {
      EmptyNeighbourhood(PositiveNeighbours, k, selection, rows, sims, m);
    }
  }

  /**
   The two thresholds agree on every candidate with at least k positive
   neighbours and on every candidate with fewer than k watchers.
   */
  lemma ThresholdsAgree(k: nat, selection: Selection, rows: seq<Rating>, sims: map<int, real>, m: int)
    requires forall u :: u in Watchers(rows, m) ==> u in sims
    requires |PositiveWatchers(rows, sims, m)| >= k || |Watchers(rows, m)| < k
    ensures UserScore(PositiveNeighbours, k, selection, rows, sims, m) == UserScore(AllWatchers, k, selection, rows, sims, m)
  {
  }

  /** The score of every candidate of a known target: `_score_of(m)` for each m of `not_watched_movies`. */
  ghost function CandidateScores(threshold: Threshold, k: nat, selection: Selection, metric: Metric, sqrt: real -> real,
                                 rows: seq<Rating>, movies: seq<int>, target: int): (r: map<int, Result<real>>)
    requires target in Users(rows)
    ensures forall m :: m in r <==> m in Candidates(movies, rows, target)
    ensures forall m :: m in r ==> r[m] == UserScore(threshold, k, selection, rows, UserSimilarities(metric, sqrt, rows, target), m)
  {
    var sims := UserSimilarities(metric, sqrt, rows, target);
    map m | m in Candidates(movies, rows, target) :: UserScore(threshold, k, selection, rows, sims, m)
  }

  /**
   A candidate's score fails, always by a division by zero, exactly when k
   is 0 (no neighbour is kept) or, as written, when k or more rating rows
   of the candidate meet the threshold while no watcher has a positive
   similarity to the target.
   */
  lemma CandidateScoreFails(threshold: Threshold, k: nat, selection: Selection, metric: Metric, sqrt: real -> real,
                            rows: seq<Rating>, movies: seq<int>, target: int, m: int)
    requires target in Users(rows)
    requires m in Candidates(movies, rows, target)
    ensures var sims := UserSimilarities(metric, sqrt, rows, target);
            var r := CandidateScores(threshold, k, selection, metric, sqrt, rows, movies, target)[m];
            && (r.Err? <==> k == 0 || (threshold.AllWatchers? && |Watchers(rows, m)| >= k &&
                                       forall u :: u in Watchers(rows, m) ==> sims[u] <= 0.0))
            && (r.Err? ==> r.error == ZeroDivision)
  {
    var sims := UserSimilarities(metric, sqrt, rows, target);
    if k == 0 {
      ScoreOfNeighbourhood(threshold, k, selection, rows, sims, m);
      TopKeepsLargest(selection, k, PositiveWatchers(rows, sims, m));
      TotalWeightPositive(Neighbourhood(k, selection, rows, sims, m));
    } else if threshold.PositiveNeighbours? {
      NeighbourThresholdNeverFails(k, selection, rows, sims, m);
    } else if |Watchers(rows, m)| >= k {
      UserScoreFails(k, selection, rows, sims, m);
    }
  }

  /**
   A candidate's score is 0 when it has fewer than k watchers (fewer than
   k positive ones under the corrected threshold), and otherwise any score
   lies between the lowest and the highest rating the candidate received.
   */
  lemma CandidateScoreWithin(threshold: Threshold, k: nat, selection: Selection, metric: Metric, sqrt: real -> real,
                             rows: seq<Rating>, movies: seq<int>, target: int, m: int, lo: real, hi: real)
    requires target in Users(rows)
    requires m in Candidates(movies, rows, target)
    requires ItemRatingsWithin(rows, m, lo, hi)
    ensures var sims := UserSimilarities(metric, sqrt, rows, target);
            var r := CandidateScores(threshold, k, selection, metric, sqrt, rows, movies, target)[m];
            && (!Qualifies(threshold, k, rows, sims, m) ==> r == Ok(0.0))
            && (Qualifies(threshold, k, rows, sims, m) && r.Ok? ==> lo <= r.value <= hi)
  {
    UserScoreWithin(threshold, k, selection, rows, UserSimilarities(metric, sqrt, rows, target), m, lo, hi);
  }

  /**
   `user(...)`: the top N candidates by score. It fails with a `KeyError`
   when the target rated nothing while others did, and with a division by
   zero when some candidate fails.
   */
  ghost function RecommendByUser(threshold: Threshold, k: nat, selection: Selection, metric: Metric, sqrt: real -> real,
                                 rows: seq<Rating>, movies: seq<int>, n: int, target: int): (r: Result<seq<Scored>>)
  {
    if target !in Users(rows) then
      // no row at all leaves no candidate and so an empty result
      if |rows| > 0 then Err(UnknownTarget) else Ok([])
    else
      match Tabulate(Candidates(movies, rows, target), CandidateScores(threshold, k, selection, metric, sqrt, rows, movies, target))
      case Err(e) => Err(e)
      case Ok(scores) => Ok(Top(selection, n, scores))
  }

  /** An unknown target fails with a `KeyError` unless there are no rows at all. */
  lemma UnknownUser(threshold: Threshold, k: nat, selection: Selection, metric: Metric, sqrt: real -> real,
                    rows: seq<Rating>, movies: seq<int>, n: int, target: int)
    requires target !in Users(rows)
    ensures RecommendByUser(threshold, k, selection, metric, sqrt, rows, movies, n, target)
            == if rows == [] then Ok([]) else Err(UnknownTarget)
  {
  }

  /** For a known target the recommendation fails exactly when some candidate's score does, always by a division by zero. */
  lemma RecommendByUserFails(threshold: Threshold, k: nat, selection: Selection, metric: Metric, sqrt: real -> real,
                             rows: seq<Rating>, movies: seq<int>, n: int, target: int)
    requires target in Users(rows)
    ensures var scores := CandidateScores(threshold, k, selection, metric, sqrt, rows, movies, target);
            RecommendByUser(threshold, k, selection, metric, sqrt, rows, movies, n, target).Err? <==>
              exists m :: m in scores && scores[m].Err?
    ensures RecommendByUser(threshold, k, selection, metric, sqrt, rows, movies, n, target).Err? ==>
              RecommendByUser(threshold, k, selection, metric, sqrt, rows, movies, n, target).error == ZeroDivision
  {
    var scores := CandidateScores(threshold, k, selection, metric, sqrt, rows, movies, target);
    var table := Tabulate(Candidates(movies, rows, target), scores);
    assert RecommendByUser(threshold, k, selection, metric, sqrt, rows, movies, n, target).Err? <==> table.Err?;
    if table.Err? {
      assert RecommendByUser(threshold, k, selection, metric, sqrt, rows, movies, n, target).error == table.error;
      var m :| m in Candidates(movies, rows, target) && scores[m] == Err(table.error);
    }
  }

  /**
   A successful recommendation holds min(n, number of candidates) distinct
   candidates with their scores, best first, and no candidate left out
   scores above one kept.
   */
  lemma RecommendByUserRanked(threshold: Threshold, k: nat, selection: Selection, metric: Metric, sqrt: real -> real,
                              rows: seq<Rating>, movies: seq<int>, n: nat, target: int)
    requires target in Users(rows)
    requires RecommendByUser(threshold, k, selection, metric, sqrt, rows, movies, n, target).Ok?
    ensures Ranked(RecommendByUser(threshold, k, selection, metric, sqrt, rows, movies, n, target).value, n,
                   Candidates(movies, rows, target), CandidateScores(threshold, k, selection, metric, sqrt, rows, movies, target))
  {
    var candidates := Candidates(movies, rows, target);
    var scores := CandidateScores(threshold, k, selection, metric, sqrt, rows, movies, target);
    TabulateTable(candidates, scores);
    RankedTable(selection, n, Tabulate(candidates, scores).value, candidates, scores);
  }

  /**
   The corrected threshold never divides by zero: with k >= 1 the only
   failure left is the unknown target.
   */
  lemma CorrectedRecommendation(k: nat, selection: Selection, metric: Metric, sqrt: real -> real,
                                rows: seq<Rating>, movies: seq<int>, n: nat, target: int)
    requires k >= 1
    ensures RecommendByUser(PositiveNeighbours, k, selection, metric, sqrt, rows, movies, n, target).Err? <==>
              target !in Users(rows) && rows != []
  {
    if target in Users(rows) {
      var sims := UserSimilarities(metric, sqrt, rows, target);
      forall m | m in Candidates(movies, rows, target) ensures UserScore(PositiveNeighbours, k, selection, rows, sims, m).Ok? {
        NeighbourThresholdNeverFails(k, selection, rows, sims, m);
      }
      assert forall m :: m in CandidateScores(PositiveNeighbours, k, selection, metric, sqrt, rows, movies, target) ==>
               CandidateScores(PositiveNeighbours, k, selection, metric, sqrt, rows, movies, target)[m].Ok?;
      RecommendByUserFails(PositiveNeighbours, k, selection, metric, sqrt, rows, movies, n, target);
    }
  }

  /** The two-row example: user 1 rated only item 10 (with a), user 2 only item 20 (with b). */
  function ExampleRows(a: real, b: real): seq<Rating>
  {
    [Rating(1, 10, a), Rating(2, 20, b)]
  }

  lemma ExampleIndex(a: real, b: real)
    ensures Users(ExampleRows(a, b)) == {1, 2}
    ensures ByUser(ExampleRows(a, b)) == map[1 := map[10 := a], 2 := map[20 := b]]
    ensures Candidates([10, 20], ExampleRows(a, b), 1) == [20]
    ensures Watchers(ExampleRows(a, b), 20) == [2]
  {
    var rows := ExampleRows(a, b);
    assert rows[0].user == 1 && rows[1].user == 2;
    assert Users(rows) == {1, 2};
    ExampleByUser(a, b);
    ExampleWatched(a, b);
    ExampleUnwatched(a, b);
  }

  /** The example rows: the first one alone, and the first one before the second. */
  lemma ExamplePrefix(a: real, b: real)
    ensures ExampleRows(a, b)[..1] == [Rating(1, 10, a)]
    ensures [Rating(1, 10, a)][..0] == []
  {
  }

  lemma ExampleByUser(a: real, b: real)
    ensures ByUser(ExampleRows(a, b)) == map[1 := map[10 := a], 2 := map[20 := b]]
  {
    ExamplePrefix(a, b);
    var first := [Rating(1, 10, a)];
    assert ByUser(first) == Put(map[], 1, 10, a);
    assert ByUser(ExampleRows(a, b)) == Put(map[1 := map[10 := a]], 2, 20, b);
  }

  lemma ExampleWatched(a: real, b: real)
    ensures Watched(ExampleRows(a, b), 1) == [10]
    ensures Watchers(ExampleRows(a, b), 20) == [2]
  {
    ExamplePrefix(a, b);
    var first := [Rating(1, 10, a)];
    assert Watched(first, 1) == [10];
    assert Watchers(first, 20) == [];
  }

  lemma ExampleUnwatched(a: real, b: real)
    requires Watched(ExampleRows(a, b), 1) == [10]
    ensures Candidates([10, 20], ExampleRows(a, b), 1) == [20]
  {
    var rows := ExampleRows(a, b);
    assert Items(rows) == {10, 20} by {
      assert rows[0].item == 10 && rows[1].item == 20;
    }
    var movies := [10, 20];
    assert movies[1..] == [20] && movies[1..][1..] == [];
    assert Unwatched(movies, [10], {10, 20}) == [20];
    assert [20][..0] == [];
    assert Distinct([20]) == [20];
  }

  lemma ExampleCandidates(a: real, b: real)
    ensures Candidates([10, 20], ExampleRows(a, b), 1) == [20]
  {
    ExampleIndex(a, b);
  }

  lemma ExampleSimilarities(sqrt: real -> real, a: real, b: real)
    ensures 1 in Users(ExampleRows(a, b))
    ensures UserSimilarities(JaccardIndex, sqrt, ExampleRows(a, b), 1) == map[2 := 0.0]
  {
    ExampleIndex(a, b);
    var ratings := ByUser(ExampleRows(a, b));
    assert ratings[1].Keys !! ratings[2].Keys;
  }

  /**
   A candidate with k >= 1 watchers, none of them positively similar: the
   source's threshold divides by zero, the corrected one scores 0.
   */
  lemma NoPositiveNeighbour(k: nat, selection: Selection, rows: seq<Rating>, sims: map<int, real>, m: int)
    requires forall u :: u in Watchers(rows, m) ==> u in sims
    requires k >= 1 && |Watchers(rows, m)| >= k
    requires forall u :: u in Watchers(rows, m) ==> sims[u] <= 0.0
    ensures UserScore(AllWatchers, k, selection, rows, sims, m) == Err(ZeroDivision)
    ensures UserScore(PositiveNeighbours, k, selection, rows, sims, m) == Ok(0.0)
  {
    UserScoreFails(k, selection, rows, sims, m);
    NoPositiveWatcher(rows, sims, m);
  }

  lemma ExampleUserScores(a: real, b: real)
    ensures Watchers(ExampleRows(a, b), 20) == [2]
    ensures UserScore(AllWatchers, 1, Heap, ExampleRows(a, b), map[2 := 0.0], 20) == Err(ZeroDivision)
    ensures UserScore(PositiveNeighbours, 1, Heap, ExampleRows(a, b), map[2 := 0.0], 20) == Ok(0.0)
  {
    ExampleIndex(a, b);
    NoPositiveNeighbour(1, Heap, ExampleRows(a, b), map[2 := 0.0], 20);
  }

  /** With a single candidate m the recommendation is m with its score, or the score's error. */
  lemma OneCandidate(threshold: Threshold, k: nat, selection: Selection, metric: Metric, sqrt: real -> real,
                     rows: seq<Rating>, movies: seq<int>, n: int, target: int, m: int, sims: map<int, real>, score: Result<real>)
    requires target in Users(rows) && n >= 1
    requires Candidates(movies, rows, target) == [m]
    requires UserSimilarities(metric, sqrt, rows, target) == sims
    requires forall u :: u in Watchers(rows, m) ==> u in sims
    requires UserScore(threshold, k, selection, rows, sims, m) == score
    ensures RecommendByUser(threshold, k, selection, metric, sqrt, rows, movies, n, target)
            == if score.Ok? then Ok([Scored(m, score.value)]) else Err(score.error)
  {
    var scores := CandidateScores(threshold, k, selection, metric, sqrt, rows, movies, target);
    assert m in scores && scores[m] == score;
    TabulateOne(m, scores);
    if score.Ok? {
      TopOfOne(selection, n, Scored(m, score.value));
    }
  }

  /** As written, the recommendation for user 1 divides by zero. */
  lemma ExampleSourceFails(sqrt: real -> real, a: real, b: real)
    ensures RecommendByUser(AllWatchers, 1, Heap, JaccardIndex, sqrt, ExampleRows(a, b), [10, 20], 10, 1) == Err(ZeroDivision)
  {
    ExampleCandidates(a, b);
    ExampleSimilarities(sqrt, a, b);
    ExampleUserScores(a, b);
    OneCandidate(AllWatchers, 1, Heap, JaccardIndex, sqrt, ExampleRows(a, b), [10, 20], 10, 1, 20, map[2 := 0.0], Err(ZeroDivision));
  }

  /** With the corrected threshold user 1 is recommended item 20 with score 0. */
  lemma ExampleCorrectedSucceeds(sqrt: real -> real, a: real, b: real)
    ensures RecommendByUser(PositiveNeighbours, 1, Heap, JaccardIndex, sqrt, ExampleRows(a, b), [10, 20], 10, 1) == Ok([Scored(20, 0.0)])
  {
    ExampleCandidates(a, b);
    ExampleSimilarities(sqrt, a, b);
    ExampleUserScores(a, b);
    OneCandidate(PositiveNeighbours, 1, Heap, JaccardIndex, sqrt, ExampleRows(a, b), [10, 20], 10, 1, 20, map[2 := 0.0], Ok(0.0));
  }

  /**
   A concrete failure of the source as written: with k = 1 and the Jaccard
   index, user 2 is a watcher of the candidate 20 with similarity 0, so the
   mean divides by zero. The corrected threshold scores 20 with 0 instead.
   */
  lemma DivisionByZeroExample(sqrt: real -> real, a: real, b: real)
    ensures RecommendByUser(AllWatchers, 1, Heap, JaccardIndex, sqrt, ExampleRows(a, b), [10, 20], 10, 1) == Err(ZeroDivision)
    ensures RecommendByUser(PositiveNeighbours, 1, Heap, JaccardIndex, sqrt, ExampleRows(a, b), [10, 20], 10, 1) == Ok([Scored(20, 0.0)])
  {
    ExampleSourceFails(sqrt, a, b);
    ExampleCorrectedSucceeds(sqrt, a, b);
  }

  // ---------------------------------------------------------------- heapq and sorted agree

  /** A candidate's score does not depend on whether the neighbours are picked by `heapq.nlargest` or by `sorted(...)[:k]`. */
  lemma UserScoreSelection(threshold: Threshold, k: nat, rows: seq<Rating>, sims: map<int, real>, m: int)
    requires forall u :: u in Watchers(rows, m) ==> u in sims
    ensures UserScore(threshold, k, Heap, rows, sims, m) == UserScore(threshold, k, Sort, rows, sims, m)
  {
    HeapIsSort(k, PositiveWatchers(rows, sims, m));
  }

  /** Every candidate gets the same score under both selections. */
  lemma CandidateScoresSelection(threshold: Threshold, k: nat, metric: Metric, sqrt: real -> real,
                                 rows: seq<Rating>, movies: seq<int>, target: int)
    requires target in Users(rows)
    ensures CandidateScores(threshold, k, Heap, metric, sqrt, rows, movies, target)
            == CandidateScores(threshold, k, Sort, metric, sqrt, rows, movies, target)
  {
    var heap := CandidateScores(threshold, k, Heap, metric, sqrt, rows, movies, target);
    var sort := CandidateScores(threshold, k, Sort, metric, sqrt, rows, movies, target);
    var sims := UserSimilarities(metric, sqrt, rows, target);
    forall m | m in heap ensures heap[m] == sort[m] {
      assert heap[m] == UserScore(threshold, k, Heap, rows, sims, m);
      assert sort[m] == UserScore(threshold, k, Sort, rows, sims, m);
      UserScoreSelection(threshold, k, rows, sims, m);
    }
    assert heap.Keys == sort.Keys;
    EqualMaps(heap, sort);
  }

  /**
   The two selections give the same recommendation, so the sorting variant
   differs from the heap variant only in its neighbourhood size.
   */
  lemma RecommendByUserSelection(threshold: Threshold, k: nat, metric: Metric, sqrt: real -> real,
                                 rows: seq<Rating>, movies: seq<int>, n: nat, target: int)
    ensures RecommendByUser(threshold, k, Heap, metric, sqrt, rows, movies, n, target)
            == RecommendByUser(threshold, k, Sort, metric, sqrt, rows, movies, n, target)
  {
    if target in Users(rows) {
      CandidateScoresSelection(threshold, k, metric, sqrt, rows, movies, target);
      var table := Tabulate(Candidates(movies, rows, target), CandidateScores(threshold, k, Heap, metric, sqrt, rows, movies, target));
      if table.Ok? {
        HeapIsSort(n, table.value);
      }
    }
  }
}
