/**
 The item-based recommender, `item(...)` in both source files: for each
 candidate item its similarity to every item the target rated, then the
 weighted mean of the target's ratings of the most similar positive ones,
 then the best N candidates. The threshold counts the positive neighbours,
 so no score divides by zero once k >= 1; and an unknown target only has no
 neighbours, so unlike the user-based recommender nothing here fails.
 */
module ItemBased {
  import opened Results
  import opened Dicts
  import opened Ratings
  import opened Ranking
  import opened Similarities
  import opened Scoring

  /** The first `similarities` of one candidate m: m's similarity to every item the target rated. */
  ghost function ItemSimilarities(metric: Metric, sqrt: real -> real, rows: seq<Rating>, target: int, m: int): (r: map<int, real>)
    requires m in Items(rows)
    ensures forall mv :: mv in r <==> mv in Watched(rows, target)
    ensures forall mv :: mv in r ==> mv in Items(rows) && r[mv] == Similarity(metric, sqrt, ByItem(rows)[m], ByItem(rows)[mv])
  {
    var ratings := ByItem(rows);
    map mv | mv in Watched(rows, target) :: Similarity(metric, sqrt, ratings[m], ratings[mv])
  }

  /** The filtered `similarities`: the target's rated items with positive similarity, in row order. */
  function PositiveWatched(rows: seq<Rating>, sims: map<int, real>, target: int): (r: seq<Scored>)
    requires forall mv :: mv in Watched(rows, target) ==> mv in sims
    ensures forall e :: e in r <==> e.id in Watched(rows, target) && sims[e.id] > 0.0 && e.score == sims[e.id]
    ensures DistinctIds(r)
  {
    PositivePool(Watched(rows, target), sims)
  }

  /** The kept neighbours are items the target rated, so `ratings[movie][userId]` exists. */
  lemma KeptItems(selection: Selection, k: nat, rows: seq<Rating>, sims: map<int, real>, target: int)
    requires forall mv :: mv in Watched(rows, target) ==> mv in sims
    ensures forall i :: 0 <= i < |Top(selection, k, PositiveWatched(rows, sims, target))| ==>
              var e := Top(selection, k, PositiveWatched(rows, sims, target))[i];
              e.score > 0.0 && e.id in Watched(rows, target) && Lookup(ByItem(rows), e.id, target).Some?
  {
    TopOfPositive(selection, k, PositiveWatched(rows, sims, target));
    forall mv | mv in Watched(rows, target) ensures Lookup(ByItem(rows), mv, target).Some? {
      ByItemLookup(rows, target, mv);
    }
  }

  /** `_score_of(m)`: 0 with fewer than k positive neighbours, otherwise the weighted mean of the top k. */
  function ItemScore(k: nat, selection: Selection, rows: seq<Rating>, sims: map<int, real>, target: int): (r: Result<real>)
    requires forall mv :: mv in Watched(rows, target) ==> mv in sims
    ensures r.Err? ==> r.error == ZeroDivision
  {
    var pool := PositiveWatched(rows, sims, target);
    if |pool| < k then Ok(0.0)
    else
      KeptItems(selection, k, rows, sims, target);
      WeightedMean(NeighbourRatings(ByItem(rows), Top(selection, k, pool), target))
  }

  /** The kept neighbours with the target's ratings of them. */
  ghost function ItemNeighbourhood(k: nat, selection: Selection, rows: seq<Rating>, sims: map<int, real>, target: int): (r: seq<Observation>)
    requires forall mv :: mv in Watched(rows, target) ==> mv in sims
    ensures PositiveWeights(r)
    ensures forall lo, hi :: UserRatingsWithin(rows, target, lo, hi) ==> RatingsWithin(r, lo, hi)
    ensures |r| == |Top(selection, k, PositiveWatched(rows, sims, target))|
  {
    var top := Top(selection, k, PositiveWatched(rows, sims, target));
    KeptItems(selection, k, rows, sims, target);
    var obs := NeighbourRatings(ByItem(rows), top, target);
    assert forall lo, hi :: UserRatingsWithin(rows, target, lo, hi) ==> RatingsWithin(obs, lo, hi) by {
      forall lo, hi | UserRatingsWithin(rows, target, lo, hi) ensures RatingsWithin(obs, lo, hi) {
        forall i | 0 <= i < |obs| ensures lo <= obs[i].rating <= hi {
          var mv := top[i].id;
          ByItemLookup(rows, target, mv);
          LastRatingWithin(rows, target, mv, lo, hi);
        }
      }
    }
    obs
  }

  /** Above the threshold the score is the weighted mean of the neighbourhood. */
  lemma ScoreOfItemNeighbourhood(k: nat, selection: Selection, rows: seq<Rating>, sims: map<int, real>, target: int)
    requires forall mv :: mv in Watched(rows, target) ==> mv in sims
    requires |PositiveWatched(rows, sims, target)| >= k
    ensures ItemScore(k, selection, rows, sims, target) == WeightedMean(ItemNeighbourhood(k, selection, rows, sims, target))
  {
  }

  /**
   With k >= 1 the score never fails; below the threshold it is 0, and above
   it lies between the lowest and the highest rating the target gave.
   */
  lemma ItemScoreWithin(k: nat, selection: Selection, rows: seq<Rating>, sims: map<int, real>, target: int, lo: real, hi: real)
    requires forall mv :: mv in Watched(rows, target) ==> mv in sims
    requires k >= 1
    requires UserRatingsWithin(rows, target, lo, hi)
    ensures ItemScore(k, selection, rows, sims, target).Ok?
    ensures |PositiveWatched(rows, sims, target)| < k ==> ItemScore(k, selection, rows, sims, target) == Ok(0.0)
    ensures |PositiveWatched(rows, sims, target)| >= k ==> lo <= ItemScore(k, selection, rows, sims, target).value <= hi
  {
    var pool := PositiveWatched(rows, sims, target);
    if |pool| >= k {
      ScoreOfItemNeighbourhood(k, selection, rows, sims, target);
      TopKeepsLargest(selection, k, pool);
      WeightedMeanWithin(ItemNeighbourhood(k, selection, rows, sims, target), lo, hi);
    }
  }

  /** With k >= 1 the score never fails, whatever the target rated. */
  lemma ItemScoreNeverFails(k: nat, selection: Selection, rows: seq<Rating>, sims: map<int, real>, target: int)
    requires forall mv :: mv in Watched(rows, target) ==> mv in sims
    requires k >= 1
    ensures ItemScore(k, selection, rows, sims, target).Ok?
  {
    var pool := PositiveWatched(rows, sims, target);
    if |pool| >= k {
      ScoreOfItemNeighbourhood(k, selection, rows, sims, target);
      TopKeepsLargest(selection, k, pool);
      TotalWeightPositive(ItemNeighbourhood(k, selection, rows, sims, target));
    }
  }

  /** The score of every candidate: `_score_of(m)` for each m of `not_watched_movies`. */
  ghost function ItemCandidateScores(k: nat, selection: Selection, metric: Metric, sqrt: real -> real,
                                     rows: seq<Rating>, movies: seq<int>, target: int): (r: map<int, Result<real>>)
    ensures forall m :: m in r <==> m in Candidates(movies, rows, target)
    ensures forall m :: m in r ==> m in Items(rows) && r[m] == ItemScore(k, selection, rows, ItemSimilarities(metric, sqrt, rows, target, m), target)
  {
    map m | m in Candidates(movies, rows, target) :: ItemScore(k, selection, rows, ItemSimilarities(metric, sqrt, rows, target, m), target)
  }

  /** No user rated both m and mv. */
  ghost predicate NoCommonRater(rows: seq<Rating>, m: int, mv: int)
  {
    forall u :: LastRating(rows, u, m).None? || LastRating(rows, u, mv).None?
  }

  /**
   Under the Jaccard index or the Dice coefficient every similarity of a
   candidate lies in [0, 1]; under any metric but the Pearson correlation an
   item that no user rated together with the candidate has similarity 0.
   */
  lemma ItemSimilaritiesWithin(metric: Metric, sqrt: real -> real, rows: seq<Rating>, target: int, m: int)
    requires m in Items(rows)
    ensures var r := ItemSimilarities(metric, sqrt, rows, target, m);
            && (metric.JaccardIndex? || metric.DiceCoefficient? ==> forall mv :: mv in r ==> 0.0 <= r[mv] <= 1.0)
            && (forall mv :: mv in r && !metric.PearsonCorrelation? && NoCommonRater(rows, m, mv) ==> r[mv] == 0.0)
  {
    var r := ItemSimilarities(metric, sqrt, rows, target, m);
    var ratings := ByItem(rows);
    forall mv | mv in r && NoCommonRater(rows, m, mv)
      ensures ratings[m].Keys !! ratings[mv].Keys
    {
      forall u | u in ratings[m] ensures u !in ratings[mv] {
        ByItemLookup(rows, u, m);
        ByItemLookup(rows, u, mv);
      }
    }
  }

  /** Every candidate's score is Ok exactly when k >= 1: with k = 0 no neighbour is kept and the mean divides by zero. */
  lemma ItemCandidateScoresOk(k: nat, selection: Selection, metric: Metric, sqrt: real -> real,
                              rows: seq<Rating>, movies: seq<int>, target: int)
    ensures var r := ItemCandidateScores(k, selection, metric, sqrt, rows, movies, target);
            forall m :: m in r ==> (r[m].Ok? <==> k >= 1)
  {
    var r := ItemCandidateScores(k, selection, metric, sqrt, rows, movies, target);
    forall m | m in r ensures r[m].Ok? <==> k >= 1 {
      var sims := ItemSimilarities(metric, sqrt, rows, target, m);
      if k >= 1 {
        ItemScoreNeverFails(k, selection, rows, sims, target);
      } else {
        ScoreOfItemNeighbourhood(k, selection, rows, sims, target);
        TopKeepsLargest(selection, k, PositiveWatched(rows, sims, target));
        TotalWeightPositive(ItemNeighbourhood(k, selection, rows, sims, target));
      }
    }
  }

  /**
   A candidate's score is 0 with fewer than k positive neighbours and
   otherwise lies between the lowest and the highest rating the target gave.
   */
  lemma ItemCandidateScoreWithin(k: nat, selection: Selection, metric: Metric, sqrt: real -> real,
                                 rows: seq<Rating>, movies: seq<int>, target: int, m: int, lo: real, hi: real)
    requires k >= 1
    requires m in Candidates(movies, rows, target)
    requires UserRatingsWithin(rows, target, lo, hi)
    ensures var sims := ItemSimilarities(metric, sqrt, rows, target, m);
            var r := ItemCandidateScores(k, selection, metric, sqrt, rows, movies, target)[m];
            && r.Ok?
            && (|PositiveWatched(rows, sims, target)| < k ==> r.value == 0.0)
            && (|PositiveWatched(rows, sims, target)| >= k ==> lo <= r.value <= hi)
  {
    ItemScoreWithin(k, selection, rows, ItemSimilarities(metric, sqrt, rows, target, m), target, lo, hi);
  }

  /** `item(...)`: the top N candidates by score. */
  ghost function RecommendByItem(k: nat, selection: Selection, metric: Metric, sqrt: real -> real,
                                 rows: seq<Rating>, movies: seq<int>, n: int, target: int): Result<seq<Scored>>
  {
    match Tabulate(Candidates(movies, rows, target), ItemCandidateScores(k, selection, metric, sqrt, rows, movies, target))
    case Err(e) => Err(e)
    case Ok(scores) => Ok(Top(selection, n, scores))
  }

  /**
   With k >= 1 the item-based recommendation never fails, not even for an
   unknown target, and it holds min(n, number of candidates) distinct
   candidates with their scores, best first, no candidate left out scoring
   above one kept.
   */
  lemma RecommendByItemRanked(k: nat, selection: Selection, metric: Metric, sqrt: real -> real,
                              rows: seq<Rating>, movies: seq<int>, n: nat, target: int)
    requires k >= 1
    ensures RecommendByItem(k, selection, metric, sqrt, rows, movies, n, target).Ok?
    ensures Ranked(RecommendByItem(k, selection, metric, sqrt, rows, movies, n, target).value, n,
                   Candidates(movies, rows, target), ItemCandidateScores(k, selection, metric, sqrt, rows, movies, target))
  {
    var candidates := Candidates(movies, rows, target);
    var scores := ItemCandidateScores(k, selection, metric, sqrt, rows, movies, target);
    forall m | m in candidates ensures scores[m].Ok? {
      ItemScoreNeverFails(k, selection, rows, ItemSimilarities(metric, sqrt, rows, target, m), target);
    }
    TabulateTable(candidates, scores);
    RankedTable(selection, n, Tabulate(candidates, scores).value, candidates, scores);
  }

  /** Whatever the number of recommendations asked for, with k >= 1 the item-based recommendation never fails. */
  lemma RecommendByItemNeverFails(k: nat, selection: Selection, metric: Metric, sqrt: real -> real,
                                  rows: seq<Rating>, movies: seq<int>, n: int, target: int)
    requires k >= 1
    ensures RecommendByItem(k, selection, metric, sqrt, rows, movies, n, target).Ok?
  {
    RecommendByItemRanked(k, selection, metric, sqrt, rows, movies, 0, target);
    var table := Tabulate(Candidates(movies, rows, target), ItemCandidateScores(k, selection, metric, sqrt, rows, movies, target));
    assert RecommendByItem(k, selection, metric, sqrt, rows, movies, 0, target).Ok? <==> table.Ok?;
  }

  /**
   A target who rated nothing has no neighbours: with k >= 1 every listed
   item someone rated scores 0.
   */
  lemma UnknownTargetScoresZero(k: nat, selection: Selection, metric: Metric, sqrt: real -> real,
                                rows: seq<Rating>, movies: seq<int>, target: int)
    requires k >= 1
    requires target !in Users(rows)
    ensures forall m :: m in ItemCandidateScores(k, selection, metric, sqrt, rows, movies, target) ==>
              m in movies && m in Items(rows) && ItemCandidateScores(k, selection, metric, sqrt, rows, movies, target)[m] == Ok(0.0)
  {
    assert Watched(rows, target) == [] by {
      if Watched(rows, target) != [] {
        var mv := Watched(rows, target)[0];
        WatchedIffRated(rows, target, mv);
        ByUserLookup(rows, target, mv);
      }
    }
  }

  // ---------------------------------------------------------------- heapq and sorted agree

  /** A candidate's score does not depend on whether the neighbours are picked by `heapq.nlargest` or by `sorted(...)[:k]`. */
  lemma ItemScoreSelection(k: nat, rows: seq<Rating>, sims: map<int, real>, target: int)
    requires forall mv :: mv in Watched(rows, target) ==> mv in sims
    ensures ItemScore(k, Heap, rows, sims, target) == ItemScore(k, Sort, rows, sims, target)
  {
    HeapIsSort(k, PositiveWatched(rows, sims, target));
  }

  /** Every candidate gets the same score under both selections. */
  lemma ItemCandidateScoresSelection(k: nat, metric: Metric, sqrt: real -> real,
                                     rows: seq<Rating>, movies: seq<int>, target: int)
    ensures ItemCandidateScores(k, Heap, metric, sqrt, rows, movies, target)
            == ItemCandidateScores(k, Sort, metric, sqrt, rows, movies, target)
  {
    var heap := ItemCandidateScores(k, Heap, metric, sqrt, rows, movies, target);
    var sort := ItemCandidateScores(k, Sort, metric, sqrt, rows, movies, target);
    forall m | m in heap ensures heap[m] == sort[m] {
      ItemScoreSelection(k, rows, ItemSimilarities(metric, sqrt, rows, target, m), target);
    }
    assert heap.Keys == sort.Keys;
    EqualMaps(heap, sort);
  }

  /** The two selections give the same recommendation: both source files recommend the same items. */
  lemma RecommendByItemSelection(k: nat, metric: Metric, sqrt: real -> real,
                                 rows: seq<Rating>, movies: seq<int>, n: nat, target: int)
    ensures RecommendByItem(k, Heap, metric, sqrt, rows, movies, n, target)
            == RecommendByItem(k, Sort, metric, sqrt, rows, movies, n, target)
  {
    ItemCandidateScoresSelection(k, metric, sqrt, rows, movies, target);
    var table := Tabulate(Candidates(movies, rows, target), ItemCandidateScores(k, Heap, metric, sqrt, rows, movies, target));
    if table.Ok? {
      HeapIsSort(n, table.value);
    }
  }
}
