/**
 The recommenders of the MovieLens 100k layout: the user threshold compares
 k = 30 with all watchers, the item threshold k = 30 with the positive
 neighbours, and both pick neighbours and results with `sorted(...)[:k]`.
 The title recommender is the same as in the other layout.
 */
module Algorithms100k {
  import opened Results
  import opened Ratings
  import opened Ranking
  import opened Scoring
  import opened Similarities
  import opened UserBased
  import opened ItemBased
  import Algorithms

  /** Neighbourhood size of `user(...)` and `item(...)`. */
  const Neighbours := 30

  /**
   `user(...)`: a `KeyError` exactly for an unknown user when there are
   ratings; otherwise, when no score divides by zero, at most n distinct
   unwatched movies with their scores, best first, none left out scoring
   above one kept. It agrees with the heap-based selection of the same
   neighbourhood size.
   */
  ghost function User(metric: Metric, sqrt: real -> real, rows: seq<Rating>, movies: seq<int>, n: int, userId: int): (r: Result<seq<Scored>>)
    ensures n >= 0 ==> r == RecommendByUser(AllWatchers, Neighbours, Heap, metric, sqrt, rows, movies, n, userId)
    ensures r.Err? && r.error == UnknownTarget <==> userId !in Users(rows) && rows != []
    ensures r.Ok? && n >= 0 ==> |r.value| <= n && Descending(r.value) && DistinctIds(r.value)
    ensures r.Ok? && userId !in Users(rows) ==> r.value == []
    ensures r.Ok? && n >= 0 && userId in Users(rows) ==>
              Ranked(r.value, n, Candidates(movies, rows, userId),
                     CandidateScores(AllWatchers, Neighbours, Sort, metric, sqrt, rows, movies, userId))
  {
    var r := RecommendByUser(AllWatchers, Neighbours, Sort, metric, sqrt, rows, movies, n, userId);
    if userId !in Users(rows) then
      UnknownUser(AllWatchers, Neighbours, Sort, metric, sqrt, rows, movies, n, userId);
      UnknownUser(AllWatchers, Neighbours, Heap, metric, sqrt, rows, movies, n, userId);
      r
    else if n < 0 then
      RecommendByUserFails(AllWatchers, Neighbours, Sort, metric, sqrt, rows, movies, n, userId);
      r
    else
      RecommendByUserSelection(AllWatchers, Neighbours, metric, sqrt, rows, movies, n, userId);
      RecommendByUserFails(AllWatchers, Neighbours, Sort, metric, sqrt, rows, movies, n, userId);
      if r.Ok? then
        RecommendByUserRanked(AllWatchers, Neighbours, Sort, metric, sqrt, rows, movies, n, userId);
        r
      else r
  }

  /**
   `user(...)` with the watcher threshold applied to the positive
   neighbours, as `item(...)` does: it fails only with a `KeyError` on an
   unknown user, and otherwise returns the top n unwatched movies with
   their scores, best first, none left out scoring above one kept.
   */
  ghost function CorrectedUser(metric: Metric, sqrt: real -> real, rows: seq<Rating>, movies: seq<int>, n: int, userId: int): (r: Result<seq<Scored>>)
    ensures r.Err? <==> userId !in Users(rows) && rows != []
    ensures r.Err? ==> r.error == UnknownTarget
    ensures r.Ok? && n >= 0 ==> |r.value| <= n && Descending(r.value) && DistinctIds(r.value)
    ensures r.Ok? && userId !in Users(rows) ==> r.value == []
    ensures n >= 0 && userId in Users(rows) ==>
              r.Ok? && Ranked(r.value, n, Candidates(movies, rows, userId),
                              CandidateScores(PositiveNeighbours, Neighbours, Sort, metric, sqrt, rows, movies, userId))
  {
    var r := RecommendByUser(PositiveNeighbours, Neighbours, Sort, metric, sqrt, rows, movies, n, userId);
    CorrectedRecommendation(Neighbours, Sort, metric, sqrt, rows, movies, if n < 0 then 0 else n, userId);
    if userId !in Users(rows) then
      UnknownUser(PositiveNeighbours, Neighbours, Sort, metric, sqrt, rows, movies, n, userId);
      r
    else if r.Ok? && n >= 0 then
      RecommendByUserRanked(PositiveNeighbours, Neighbours, Sort, metric, sqrt, rows, movies, n, userId);
      r
    else
      RecommendByUserFails(PositiveNeighbours, Neighbours, Sort, metric, sqrt, rows, movies, n, userId);
      r
  }

  /**
   `item(...)`: it never fails, and for n >= 0 it gives the same
   recommendation as the heap-based `item(...)` of the other layout.
   */
  ghost function Item(metric: Metric, sqrt: real -> real, rows: seq<Rating>, movies: seq<int>, n: int, userId: int): (r: Result<seq<Scored>>)
    ensures n >= 0 ==> r == Algorithms.Item(metric, sqrt, rows, movies, n, userId)
    ensures r.Ok?
  {
    var r := RecommendByItem(Neighbours, Sort, metric, sqrt, rows, movies, n, userId);
    RecommendByItemNeverFails(Neighbours, Sort, metric, sqrt, rows, movies, n, userId);
    if n >= 0 then
      RecommendByItemSelection(Neighbours, metric, sqrt, rows, movies, n, userId);
      r
    else r
  }
}
