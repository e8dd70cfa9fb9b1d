/**
 The three recommenders of the MovieLens "latest" layout as the source file
 fixes them: the user threshold compares k = 128 with all watchers, the item
 threshold k = 30 with the positive neighbours, and every selection is
 `heapq.nlargest`.
 */
module Algorithms {
  import opened Results
  import opened Ratings
  import opened Ranking
  import opened Scoring
  import opened Similarities
  import opened UserBased
  import opened ItemBased
  import opened ContentBased

  /** Neighbourhood size of `user(...)`. */
  const UserNeighbours := 128

  /** Neighbourhood size of `item(...)`. */
  const ItemNeighbours := 30

  /**
   `user(...)`: a `KeyError` exactly for an unknown user when there are
   ratings; otherwise, when no score divides by zero, the top n unwatched
   movies: min(n, number of candidates) of them with their scores, best
   first, none left out scoring above one kept.
   */
  ghost function User(metric: Metric, sqrt: real -> real, rows: seq<Rating>, movies: seq<int>, n: int, userId: int): (r: Result<seq<Scored>>)
    ensures r.Err? && r.error == UnknownTarget <==> userId !in Users(rows) && rows != []
    ensures r.Ok? && n >= 0 ==> |r.value| <= n && Descending(r.value) && DistinctIds(r.value)
    ensures r.Ok? && n >= 0 ==> forall e :: e in r.value ==> e.id in Candidates(movies, rows, userId)
    ensures r.Ok? && userId !in Users(rows) ==> r.value == []
    ensures r.Ok? && n >= 0 && userId in Users(rows) ==>
              Ranked(r.value, n, Candidates(movies, rows, userId),
                     CandidateScores(AllWatchers, UserNeighbours, Heap, metric, sqrt, rows, movies, userId))
  {
    var r := RecommendByUser(AllWatchers, UserNeighbours, Heap, metric, sqrt, rows, movies, n, userId);
    if userId !in Users(rows) then
      UnknownUser(AllWatchers, UserNeighbours, Heap, metric, sqrt, rows, movies, n, userId);
      r
    else
      RecommendByUserFails(AllWatchers, UserNeighbours, Heap, metric, sqrt, rows, movies, n, userId);
      if r.Ok? && n >= 0 then
        RecommendByUserRanked(AllWatchers, UserNeighbours, Heap, metric, sqrt, rows, movies, n, userId);
        r
      else r
  }

  /**
   `user(...)` with the watcher threshold applied to the positive
   neighbours, as `item(...)` does: it fails only with a `KeyError` on an
   unknown user, and otherwise returns the top n unwatched movies, ranked
   as in `User`.
   */
  ghost function CorrectedUser(metric: Metric, sqrt: real -> real, rows: seq<Rating>, movies: seq<int>, n: int, userId: int): (r: Result<seq<Scored>>)
    ensures r.Err? <==> userId !in Users(rows) && rows != []
    ensures r.Err? ==> r.error == UnknownTarget
    ensures r.Ok? && n >= 0 ==> |r.value| <= n && Descending(r.value) && DistinctIds(r.value)
    ensures r.Ok? && userId !in Users(rows) ==> r.value == []
    ensures n >= 0 && userId in Users(rows) ==>
              r.Ok? && Ranked(r.value, n, Candidates(movies, rows, userId),
                              CandidateScores(PositiveNeighbours, UserNeighbours, Heap, metric, sqrt, rows, movies, userId))
  {
    var r := RecommendByUser(PositiveNeighbours, UserNeighbours, Heap, metric, sqrt, rows, movies, n, userId);
    CorrectedRecommendation(UserNeighbours, Heap, metric, sqrt, rows, movies, if n < 0 then 0 else n, userId);
    if userId !in Users(rows) then
      UnknownUser(PositiveNeighbours, UserNeighbours, Heap, metric, sqrt, rows, movies, n, userId);
      r
    else if r.Ok? && n >= 0 then
      RecommendByUserRanked(PositiveNeighbours, UserNeighbours, Heap, metric, sqrt, rows, movies, n, userId);
      r
    else
      RecommendByUserFails(PositiveNeighbours, UserNeighbours, Heap, metric, sqrt, rows, movies, n, userId);
      r
  }

  /**
   `item(...)`: never fails, and returns min(n, number of candidates)
   distinct unwatched movies, best first.
   */
  ghost function Item(metric: Metric, sqrt: real -> real, rows: seq<Rating>, movies: seq<int>, n: int, userId: int): (r: Result<seq<Scored>>)
    ensures r.Ok?
    ensures n < 0 ==> r.value == []
    ensures n >= 0 ==> |r.value| == if n < |Candidates(movies, rows, userId)| then n else |Candidates(movies, rows, userId)|
    ensures Descending(r.value) && DistinctIds(r.value)
    ensures forall e :: e in r.value ==> e.id in Candidates(movies, rows, userId)
    ensures n >= 0 ==> Ranked(r.value, n, Candidates(movies, rows, userId),
                              ItemCandidateScores(ItemNeighbours, Heap, metric, sqrt, rows, movies, userId))
  {
    RecommendByItemRanked(ItemNeighbours, Heap, metric, sqrt, rows, movies, if n < 0 then 0 else n, userId);
    RecommendByItem(ItemNeighbours, Heap, metric, sqrt, rows, movies, n, userId)
  }

  /**
   `title(...)`: a `KeyError` exactly for an unknown movie when there is
   another movie, a division by zero only under Pearson; otherwise the top
   n movies other than the target: min(n, number of other movies) of them
   with their similarities, best first, none left out more similar than
   one kept.
   */
  ghost function Title(metric: Metric, sqrt: real -> real, movies: seq<Movie>, n: int, itemId: int): (r: Result<seq<Scored>>)
    ensures r.Err? && r.error == UnknownTarget <==> itemId !in MovieIds(movies) && movies != []
    ensures r.Err? && r.error == ZeroDivision ==> metric.PearsonCorrelation?
    ensures r.Ok? && n >= 0 ==> |r.value| <= n && Descending(r.value) && DistinctIds(r.value)
    ensures r.Ok? && n >= 0 ==> forall e :: e in r.value ==> e.id in MovieIds(movies) && e.id != itemId
    ensures r.Ok? && itemId !in MovieIds(movies) ==> r.value == []
    ensures r.Ok? && n >= 0 && itemId in MovieIds(movies) ==>
              Ranked(r.value, n, OtherIds(movies, itemId), TitleScores(metric, sqrt, movies, itemId))
  {
    var r := RecommendByTitle(metric, sqrt, movies, n, itemId);
    if itemId !in MovieIds(movies) then
      UnknownMovie(metric, sqrt, movies, n, itemId);
      r
    else
      RecommendByTitleFails(metric, sqrt, movies, n, itemId);
      if r.Ok? && n >= 0 then
        RecommendByTitleRanked(metric, sqrt, movies, n, itemId);
        r
      else r
  }
}
