/**
 The rating rows and the nested rating index the recommenders build from them:
 `{user: {item: rating}}` for the user-based recommender and
 `{item: {user: rating}}` for the item-based one. Reading the rows from a file
 is left out; the rows arrive as a sequence in file order.
 */
module Ratings {
  import opened Results
  import opened Dicts

  /** One row of the ratings file. */
  datatype Rating = Rating(user: int, item: int, score: real)

  /** A nested dictionary `{outer: {inner: rating}}`. */
  type Index = map<int, map<int, real>>

  /** `idx.setdefault(outer, {}).update({inner: v})`. */
  function Put(idx: Index, outer: int, inner: int, v: real): Index
  {
    idx[outer := (if outer in idx then idx[outer] else map[])[inner := v]]
  }

  /** The by-user index after the loop has read every row: `{user: {item: rating}}`. */
  function ByUser(rows: seq<Rating>): (r: Index)
    ensures r.Keys == Users(rows)
    ensures forall u :: u in r ==> |r[u]| > 0
    decreases |rows|
  {
    if rows == [] then map[]
    else
      var init := rows[..|rows| - 1];
      var row := rows[|rows| - 1];
      assert Users(rows) == Users(init) + {row.user} by {
        forall i | 0 <= i < |init| ensures init[i] == rows[i] { }
      }
      Put(ByUser(init), row.user, row.item, row.score)
  }

  /** The by-item index after the loop has read every row: `{item: {user: rating}}`. */
  function ByItem(rows: seq<Rating>): (r: Index)
    ensures r.Keys == Items(rows)
    ensures forall m :: m in r ==> |r[m]| > 0
    decreases |rows|
  {
    if rows == [] then map[]
    else
      var init := rows[..|rows| - 1];
      var row := rows[|rows| - 1];
      assert Items(rows) == Items(init) + {row.item} by {
        forall i | 0 <= i < |init| ensures init[i] == rows[i] { }
      }
      Put(ByItem(init), row.item, row.user, row.score)
  }

  /** The index loop of the user-based recommender. */
  method BuildByUser(rows: seq<Rating>) returns (ratings: Index)
    ensures ratings == ByUser(rows)
  {
    ratings := map[];
    var i := 0;
    while i < |rows|
      invariant 0 <= i <= |rows|
      invariant ratings == ByUser(rows[..i])
    {
      var row := rows[i];
      var inner := if row.user in ratings then ratings[row.user] else map[];
      ratings := ratings[row.user := inner[row.item := row.score]];
      i := i + 1;
      assert rows[..i][..i - 1] == rows[..i - 1];
    }
    assert rows[..|rows|] == rows;
  }

  /** The index loop of the item-based recommender. */
  method BuildByItem(rows: seq<Rating>) returns (ratings: Index)
    ensures ratings == ByItem(rows)
  {
    ratings := map[];
    var i := 0;
    while i < |rows|
      invariant 0 <= i <= |rows|
      invariant ratings == ByItem(rows[..i])
    {
      var row := rows[i];
      var inner := if row.item in ratings then ratings[row.item] else map[];
      ratings := ratings[row.item := inner[row.user := row.score]];
      i := i + 1;
      assert rows[..i][..i - 1] == rows[..i - 1];
    }
    assert rows[..|rows|] == rows;
  }

  // ---------------------------------------------------------------- reference definitions

  /** The rating of the last row for user u and item m, if there is one. */
  function LastRating(rows: seq<Rating>, u: int, m: int): Option<real>
    decreases |rows|
  {
    if rows == [] then None
    else
      var row := rows[|rows| - 1];
      if row.user == u && row.item == m then Some(row.score)
      else LastRating(rows[..|rows| - 1], u, m)
  }

  /** The users that occur in some row. */
  function Users(rows: seq<Rating>): set<int>
  {
    set i | 0 <= i < |rows| :: rows[i].user
  }

  /** The items that occur in some row: `ratings_df["movieId"]`. */
  function Items(rows: seq<Rating>): set<int>
  {
    set i | 0 <= i < |rows| :: rows[i].item
  }

  /** Looking up `ratings[u][m]` in the user index. */
  function Lookup(idx: Index, outer: int, inner: int): Option<real>
  {
    if outer in idx && inner in idx[outer] then Some(idx[outer][inner]) else None
  }

  // ---------------------------------------------------------------- index lemmas

  /** After the loop, `ratings[u][m]` exists exactly when some row rates m by u, and holds the last such rating. */
  lemma {:induction false} ByUserLookup(rows: seq<Rating>, u: int, m: int)
    ensures Lookup(ByUser(rows), u, m) == LastRating(rows, u, m)
    decreases |rows|
  {
    if rows != [] {
      ByUserLookup(rows[..|rows| - 1], u, m);
    }
  }

  /** After the loop, `ratings[m][u]` exists exactly when some row rates m by u, and holds the last such rating. */
  lemma {:induction false} ByItemLookup(rows: seq<Rating>, u: int, m: int)
    ensures Lookup(ByItem(rows), m, u) == LastRating(rows, u, m)
    decreases |rows|
  {
    if rows != [] {
      ByItemLookup(rows[..|rows| - 1], u, m);
    }
  }

  /** The by-item index is the transpose of the by-user index. */
  lemma Transpose(rows: seq<Rating>, u: int, m: int)
    ensures Lookup(ByItem(rows), m, u) == Lookup(ByUser(rows), u, m)
  {
    ByUserLookup(rows, u, m);
    ByItemLookup(rows, u, m);
  }

  /** A row's own pair always has a last rating. */
  lemma {:induction false} RowIsRated(rows: seq<Rating>, i: nat)
    requires i < |rows|
    ensures LastRating(rows, rows[i].user, rows[i].item).Some?
    decreases |rows|
  {
    if i < |rows| - 1 {
      var init := rows[..|rows| - 1];
      assert init[i] == rows[i];
      RowIsRated(init, i);
    }
  }

  // ---------------------------------------------------------------- selections of rows

  /** The positions of the rows that rate m. */
  function RowsRating(rows: seq<Rating>, m: int): set<int>
  {
    set i | 0 <= i < |rows| && rows[i].item == m
  }

  /** The rows that rate m are those before the last, and the last one if it rates m. */
  lemma RowsRatingSnoc(rows: seq<Rating>, m: int)
    requires rows != []
    ensures RowsRating(rows, m) == RowsRating(rows[..|rows| - 1], m) + (if rows[|rows| - 1].item == m then {|rows| - 1} else {})
    ensures |rows| - 1 !in RowsRating(rows[..|rows| - 1], m)
  {
    var init := rows[..|rows| - 1];
    assert forall i :: 0 <= i < |init| ==> init[i] == rows[i];
  }

  /**
   `ratings_df[ratings_df['movieId'] == m]['userId']`: who rated m, once per
   row, so its length counts the rows that rate m.
   */
  function Watchers(rows: seq<Rating>, m: int): (r: seq<int>)
    ensures forall u :: u in r ==> LastRating(rows, u, m).Some? && u in Users(rows)
    ensures |r| == |RowsRating(rows, m)|
    decreases |rows|
  {
    if rows == [] then []
    else
      var init := rows[..|rows| - 1];
      var row := rows[|rows| - 1];
      var front := Watchers(init, m);
      RowsRatingSnoc(rows, m);
      if row.item == m then
        RowIsRated(rows, |rows| - 1);
        assert forall u :: u in front ==> LastRating(rows, u, m).Some? by {
          forall u | u in front && u != row.user ensures LastRating(rows, u, m).Some? { }
        }
        assert Users(init) <= Users(rows) by {
          forall i | 0 <= i < |init| ensures init[i] == rows[i] { }
        }
        assert row.user in Users(rows);
        front + [row.user]
      else front
  }

  /** `ratings_df[ratings_df['userId'] == u]['movieId']`: what u rated, once per row. */
  function Watched(rows: seq<Rating>, u: int): (r: seq<int>)
    ensures forall m :: m in r ==> LastRating(rows, u, m).Some? && m in Items(rows)
    decreases |rows|
  {
    if rows == [] then []
    else
      var init := rows[..|rows| - 1];
      var row := rows[|rows| - 1];
      var front := Watched(init, u);
      if row.user == u then
        RowIsRated(rows, |rows| - 1);
        assert forall m :: m in front ==> LastRating(rows, u, m).Some? by {
          forall m | m in front && m != row.item ensures LastRating(rows, u, m).Some? { }
        }
        assert Items(init) <= Items(rows) by {
          forall i | 0 <= i < |init| ensures init[i] == rows[i] { }
        }
        assert row.item in Items(rows);
        front + [row.item]
      else front
  }

  /** u rated m exactly when m is among the items u rated. */
  lemma {:induction false} WatchedIffRated(rows: seq<Rating>, u: int, m: int)
    ensures m in Watched(rows, u) <==> LastRating(rows, u, m).Some?
    ensures u in Watchers(rows, m) <==> LastRating(rows, u, m).Some?
    decreases |rows|
  {
    if rows != [] {
      WatchedIffRated(rows[..|rows| - 1], u, m);
    }
  }

  /** The movies of `movies`, in order, kept by the candidate filter. */
  function Unwatched(movies: seq<int>, watched: seq<int>, rated: set<int>): (r: seq<int>)
    ensures forall m :: m in r <==> m in movies && m !in watched && m in rated
  {
    if movies == [] then []
    else
      var rest := Unwatched(movies[1..], watched, rated);
      assert forall m :: m in movies <==> m == movies[0] || m in movies[1..];
      if movies[0] !in watched && movies[0] in rated then [movies[0]] + rest else rest
  }

  /**
   The candidates `not_watched_movies`, as the keys of the score dictionary:
   exactly the listed movies the target has not rated and someone has, each
   once, in the order of the movie list.
   */
  function Candidates(movies: seq<int>, rows: seq<Rating>, target: int): (r: seq<int>)
    ensures forall m :: m in r <==> m in movies && LastRating(rows, target, m).None? && m in Items(rows)
    ensures NoDuplicates(r)
  {
    var watched := Watched(rows, target);
    forall m ensures m in watched <==> LastRating(rows, target, m).Some? {
      WatchedIffRated(rows, target, m);
    }
    Distinct(Unwatched(movies, watched, Items(rows)))
  }

  // ---------------------------------------------------------------- rating ranges

  /** Every rating of item m lies in [lo, hi]. */
  predicate ItemRatingsWithin(rows: seq<Rating>, m: int, lo: real, hi: real)
  {
    forall i :: 0 <= i < |rows| && rows[i].item == m ==> lo <= rows[i].score <= hi
  }

  /** Every rating given by user u lies in [lo, hi]. */
  predicate UserRatingsWithin(rows: seq<Rating>, u: int, lo: real, hi: real)
  {
    forall i :: 0 <= i < |rows| && rows[i].user == u ==> lo <= rows[i].score <= hi
  }

  /** The last rating of a pair is one of the pair's rows, so it lies in any range all of them do. */
  lemma {:induction false} LastRatingWithin(rows: seq<Rating>, u: int, m: int, lo: real, hi: real)
    requires (forall i :: 0 <= i < |rows| && rows[i].user == u && rows[i].item == m ==> lo <= rows[i].score <= hi)
    ensures LastRating(rows, u, m).Some? ==> lo <= LastRating(rows, u, m).value <= hi
    decreases |rows|
  {
    if rows != [] {
      var init := rows[..|rows| - 1];
      forall i | 0 <= i < |init| && init[i].user == u && init[i].item == m ensures lo <= init[i].score <= hi {
        assert init[i] == rows[i];
      }
      LastRatingWithin(init, u, m, lo, hi);
    }
  }
}
