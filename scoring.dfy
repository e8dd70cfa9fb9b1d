/**
 The recommendation score of one candidate: the neighbour weights, the
 positive filter, and the weighted mean `sum(w * r) / sum(w)` over the kept
 neighbours, which fails with a division by zero when nothing is kept.
 */
module Scoring {
  import opened Results
  import opened Dicts
  import opened Ranking

  /** One kept neighbour: its similarity (the weight) and its rating of the candidate. */
  datatype Observation = Observation(weight: real, rating: real)

  /** `sum([w for ...])`. */
  function TotalWeight(obs: seq<Observation>): real
  {
    if obs == [] then 0.0 else obs[0].weight + TotalWeight(obs[1..])
  }

  /** `sum([w * r for ...])`. */
  function TotalWeighted(obs: seq<Observation>): real
  {
    if obs == [] then 0.0 else obs[0].weight * obs[0].rating + TotalWeighted(obs[1..])
  }

  /** Every weight is strictly positive. */
  predicate PositiveWeights(obs: seq<Observation>)
  {
    forall i :: 0 <= i < |obs| ==> obs[i].weight > 0.0
  }

  /** Every rating lies in [lo, hi]. */
  predicate RatingsWithin(obs: seq<Observation>, lo: real, hi: real)
  {
    forall i :: 0 <= i < |obs| ==> lo <= obs[i].rating <= hi
  }

  /** `sum(w * r) / sum(w)`, or a division by zero when the weights sum to zero. */
  function WeightedMean(obs: seq<Observation>): (r: Result<real>)
    ensures r.Err? <==> TotalWeight(obs) == 0.0
    ensures r.Err? ==> r.error == ZeroDivision
  {
    var total := TotalWeight(obs);
    if total == 0.0 then Err(ZeroDivision) else Ok(TotalWeighted(obs) / total)
  }

  // ---------------------------------------------------------------- the weighted mean lies between the ratings

  lemma ScaledBelow(w: real, r: real, lo: real)
    requires w > 0.0 && r >= lo
    ensures w * r >= lo * w
  {
    assert w * (r - lo) >= 0.0;
  }

  lemma ScaledAbove(w: real, r: real, hi: real)
    requires w > 0.0 && r <= hi
    ensures w * r <= hi * w
  {
    assert w * (hi - r) >= 0.0;
  }

  lemma QuotientAtLeast(a: real, d: real, lo: real)
    requires d > 0.0 && a >= lo * d
    ensures a / d >= lo
  {
    var q := a / d;
    assert q * d == a;
    if q < lo {
      assert (lo - q) * d > 0.0;
    }
  }

  lemma QuotientAtMost(a: real, d: real, hi: real)
    requires d > 0.0 && a <= hi * d
    ensures a / d <= hi
  {
    var q := a / d;
    assert q * d == a;
    if q > hi {
      assert (q - hi) * d > 0.0;
    }
  }

  /** Positive weights have a positive total as soon as there is one. */
  lemma {:induction false} TotalWeightPositive(obs: seq<Observation>)
    requires PositiveWeights(obs)
    ensures TotalWeight(obs) >= 0.0
    ensures TotalWeight(obs) > 0.0 <==> |obs| > 0
  {
    if obs != [] {
      TotalWeightPositive(obs[1..]);
    }
  }

  /** Every rating is at least lo. */
  predicate RatingsAtLeast(obs: seq<Observation>, lo: real)
  {
    forall i :: 0 <= i < |obs| ==> lo <= obs[i].rating
  }

  /** Every rating is at most hi. */
  predicate RatingsAtMost(obs: seq<Observation>, hi: real)
  {
    forall i :: 0 <= i < |obs| ==> obs[i].rating <= hi
  }

  /** lo * sum(w) <= sum(w * r) when every rating is at least lo. */
  lemma {:induction false} TotalWeightedAtLeast(obs: seq<Observation>, lo: real)
    requires PositiveWeights(obs) && RatingsAtLeast(obs, lo)
    ensures lo * TotalWeight(obs) <= TotalWeighted(obs)
  {
    if obs != [] {
      var o := obs[0];
      TotalWeightedAtLeast(obs[1..], lo);
      ScaledBelow(o.weight, o.rating, lo);
      assert lo * (o.weight + TotalWeight(obs[1..])) == lo * o.weight + lo * TotalWeight(obs[1..]);
    }
  }

  /** sum(w * r) <= hi * sum(w) when every rating is at most hi. */
  lemma {:induction false} TotalWeightedAtMost(obs: seq<Observation>, hi: real)
    requires PositiveWeights(obs) && RatingsAtMost(obs, hi)
    ensures TotalWeighted(obs) <= hi * TotalWeight(obs)
  {
    if obs != [] {
      var o := obs[0];
      TotalWeightedAtMost(obs[1..], hi);
      ScaledAbove(o.weight, o.rating, hi);
      assert hi * (o.weight + TotalWeight(obs[1..])) == hi * o.weight + hi * TotalWeight(obs[1..]);
    }
  }

  /**
   With positive weights the mean is defined exactly when some neighbour is
   kept, and then it lies between the smallest and the largest rating.
   */
  lemma WeightedMeanWithin(obs: seq<Observation>, lo: real, hi: real)
    requires PositiveWeights(obs) && RatingsWithin(obs, lo, hi)
    ensures WeightedMean(obs).Ok? <==> |obs| > 0
    ensures WeightedMean(obs).Ok? ==> lo <= WeightedMean(obs).value <= hi
  {
    TotalWeightPositive(obs);
    if |obs| > 0 {
      TotalWeightedAtLeast(obs, lo);
      TotalWeightedAtMost(obs, hi);
      QuotientAtLeast(TotalWeighted(obs), TotalWeight(obs), lo);
      QuotientAtMost(TotalWeighted(obs), TotalWeight(obs), hi);
    }
  }

  // ---------------------------------------------------------------- weights and the positive filter

  /** `{x: weights[x] for x in ids}` as a sequence of items. */
  function Weights(ids: seq<int>, weights: map<int, real>): (r: seq<Scored>)
    requires forall i :: 0 <= i < |ids| ==> ids[i] in weights
    ensures |r| == |ids|
    ensures forall i :: 0 <= i < |ids| ==> r[i] == Scored(ids[i], weights[ids[i]])
    ensures forall e :: e in r <==> e.id in ids && e.id in weights && e.score == weights[e.id]
  {
    if ids == [] then [] else [Scored(ids[0], weights[ids[0]])] + Weights(ids[1..], weights)
  }

  /** The items whose weight is strictly positive, in order. */
  function PositiveOnly(s: seq<Scored>): (r: seq<Scored>)
    ensures forall e :: e in r <==> e in s && e.score > 0.0
    ensures |r| <= |s|
  {
    if s == [] then []
    else
      var rest := PositiveOnly(s[1..]);
      assert forall e :: e in s <==> e == s[0] || e in s[1..];
      if s[0].score > 0.0 then [s[0]] + rest else rest
  }

  /** Keeping only positive items keeps distinct ids distinct. */
  lemma {:induction false} PositiveOnlyDistinct(s: seq<Scored>)
    requires DistinctIds(s)
    ensures DistinctIds(PositiveOnly(s))
  {
    if s != [] {
      PositiveOnlyDistinct(s[1..]);
      var rest := PositiveOnly(s[1..]);
      if s[0].score > 0.0 {
        forall j | 0 <= j < |rest| ensures rest[j].id != s[0].id {
          assert rest[j] in s[1..];
        }
      }
    }
  }

  /**
   `{x: sims[x] for x in ids if sims[x] > 0}`: the ids with positive weight,
   each once, in order of first appearance.
   */
  function PositivePool(ids: seq<int>, sims: map<int, real>): (r: seq<Scored>)
    requires forall x :: x in ids ==> x in sims
    ensures forall e :: e in r <==> e.id in ids && sims[e.id] > 0.0 && e.score == sims[e.id]
    ensures DistinctIds(r)
    ensures |r| <= |ids|
  {
    var keys := Distinct(ids);
    assert forall i :: 0 <= i < |keys| ==> keys[i] in keys;
    var weights := Weights(keys, sims);
    assert DistinctIds(weights) by {
      forall i, j | 0 <= i < j < |weights| ensures weights[i].id != weights[j].id {
        assert weights[i].id == keys[i] && weights[j].id == keys[j];
      }
    }
    PositiveOnlyDistinct(weights);
    PositiveOnly(weights)
  }

  /** The kept neighbours' weights with their ratings `ratings[neighbour][key]`. */
  function NeighbourRatings(ratings: map<int, map<int, real>>, top: seq<Scored>, key: int): (r: seq<Observation>)
    requires forall i :: 0 <= i < |top| ==> top[i].id in ratings && key in ratings[top[i].id]
    ensures |r| == |top|
    ensures forall i :: 0 <= i < |top| ==> r[i] == Observation(top[i].score, ratings[top[i].id][key])
  {
    if top == [] then []
    else [Observation(top[0].score, ratings[top[0].id][key])] + NeighbourRatings(ratings, top[1..], key)
  }

  /** Every item of a selection of positive items is positive and comes from the pool. */
  lemma TopOfPositive(selection: Selection, k: nat, pool: seq<Scored>)
    requires forall e :: e in pool ==> e.score > 0.0
    ensures forall e :: e in Top(selection, k, pool) ==> e in pool && e.score > 0.0
  {
    TopKeepsLargest(selection, k, pool);
    forall e | e in Top(selection, k, pool) ensures e in pool {
      assert e in multiset(Top(selection, k, pool));
    }
  }

  // ---------------------------------------------------------------- tables of scores

  /**
   `{m: score_of(m) for m in ids}` for a score function given as a map: the
   entries in order, or the error of the first id whose score fails.
   */
  function Tabulate(ids: seq<int>, scores: map<int, Result<real>>): (r: Result<seq<Scored>>)
    requires forall m :: m in ids ==> m in scores
    ensures r.Ok? <==> forall m :: m in ids ==> scores[m].Ok?
    ensures r.Ok? ==> Ids(r.value) == ids && forall i :: 0 <= i < |ids| ==> r.value[i].score == scores[ids[i]].value
    ensures r.Err? ==> exists m :: m in ids && scores[m] == Err(r.error)
    ensures r.Err? ==> exists i :: 0 <= i < |ids| && ids[i] in scores && scores[ids[i]] == Err(r.error) &&
                                  forall j :: 0 <= j < i ==> ids[j] in scores && scores[ids[j]].Ok?
  {
    if ids == [] then Ok([])
    else
      assert forall m :: m in ids <==> m == ids[0] || m in ids[1..];
      match scores[ids[0]]
      case Err(e) => Err(e)
      case Ok(v) =>
        match Tabulate(ids[1..], scores)
        case Err(e) =>
          FirstErrorOfTail(ids, scores, e);
          Err(e)
        case Ok(tail) => Ok([Scored(ids[0], v)] + tail)
  }

  /** The first failing id of the tail, after a succeeding head, is the first failing id of the whole sequence. */
  lemma FirstErrorOfTail(ids: seq<int>, scores: map<int, Result<real>>, e: Error)
    requires |ids| > 0 && ids[0] in scores && scores[ids[0]].Ok?
    requires exists i :: 0 <= i < |ids[1..]| && ids[1..][i] in scores && scores[ids[1..][i]] == Err(e) &&
                         forall j :: 0 <= j < i ==> ids[1..][j] in scores && scores[ids[1..][j]].Ok?
    ensures exists i :: 0 <= i < |ids| && ids[i] in scores && scores[ids[i]] == Err(e) &&
                        forall j :: 0 <= j < i ==> ids[j] in scores && scores[ids[j]].Ok?
  {
    var i :| 0 <= i < |ids[1..]| && ids[1..][i] in scores && scores[ids[1..][i]] == Err(e) &&
             forall j :: 0 <= j < i ==> ids[1..][j] in scores && scores[ids[1..][j]].Ok?;
    forall j | 0 <= j < i + 1 ensures ids[j] in scores && scores[ids[j]].Ok? {
      if j > 0 { assert ids[j] == ids[1..][j - 1]; }
    }
    assert ids[i + 1] == ids[1..][i];
  }

  /** A table of one id holds that id's score, or fails with its error. */
  lemma TabulateOne(m: int, scores: map<int, Result<real>>)
    requires m in scores
    ensures Tabulate([m], scores) == if scores[m].Ok? then Ok([Scored(m, scores[m].value)]) else Err(scores[m].error)
  {
    assert [m][1..] == [];
    if scores[m].Ok? {
      assert Tabulate([], scores) == Ok([]);
      assert [Scored(m, scores[m].value)] + [] == [Scored(m, scores[m].value)];
    }
  }

  /** The entries of a complete table carry their ids' scores, and distinct ids give distinct entries. */
  lemma TabulateTable(ids: seq<int>, scores: map<int, Result<real>>)
    requires forall m :: m in ids ==> m in scores
    requires Tabulate(ids, scores).Ok?
    ensures forall e :: e in Tabulate(ids, scores).value ==> scores[e.id] == Ok(e.score)
    ensures NoDuplicates(ids) ==> DistinctIds(Tabulate(ids, scores).value)
  {
    var table := Tabulate(ids, scores).value;
    forall e | e in table ensures scores[e.id] == Ok(e.score) {
      var i :| 0 <= i < |table| && table[i] == e;
      assert Ids(table)[i] == e.id;
    }
  }

  /**
   r is the top n of the score table of ids: min(n, number of ids) distinct
   ids with their scores, best first, and no id left out scoring above a
   kept one.
   */
  predicate Ranked(r: seq<Scored>, n: nat, ids: seq<int>, scores: map<int, Result<real>>)
  {
    && |r| == (if n < |ids| then n else |ids|)
    && Descending(r)
    && DistinctIds(r)
    && (forall e :: e in r ==> e.id in scores && scores[e.id] == Ok(e.score))
    && (forall e, m :: e in r && m in scores && m !in Ids(r) ==> scores[m].Ok? && scores[m].value <= e.score)
  }

  /** The top k of a complete score table is ranked. */
  lemma RankedTable(selection: Selection, k: nat, table: seq<Scored>, ids: seq<int>, scores: map<int, Result<real>>)
    requires Ids(table) == ids && DistinctIds(table)
    requires forall m :: m in scores <==> m in ids
    requires forall e :: e in table ==> scores[e.id] == Ok(e.score)
    ensures Ranked(Top(selection, k, table), k, ids, scores)
  {
    TableComplete(table, ids, scores);
    var score := map m | m in scores :: scores[m].value;
    TopRanked(selection, k, table, score);
    ScoresOfResults(Top(selection, k, table), table, ids, scores, score);
  }

  /** A table holding an entry for every id means every id's score succeeded. */
  lemma TableComplete(table: seq<Scored>, ids: seq<int>, scores: map<int, Result<real>>)
    requires Ids(table) == ids
    requires forall m :: m in scores <==> m in ids
    requires forall e :: e in table ==> scores[e.id] == Ok(e.score)
    ensures forall m :: m in scores ==> scores[m].Ok?
  {
    forall m | m in scores ensures scores[m].Ok? {
      var i :| 0 <= i < |ids| && ids[i] == m;
      assert table[i] in table;
    }
  }

  /** The ranking facts over the successful scores, restated over the results. */
  lemma ScoresOfResults(r: seq<Scored>, table: seq<Scored>, ids: seq<int>, scores: map<int, Result<real>>, score: map<int, real>)
    requires Ids(table) == ids
    requires forall m :: m in scores <==> m in ids
    requires forall m :: m in scores ==> scores[m].Ok?
    requires score == map m | m in scores :: scores[m].value
    requires forall e :: e in r ==> e.id in Ids(table) && score[e.id] == e.score
    requires forall e, m :: e in r && m in Ids(table) && m !in Ids(r) ==> m in score && score[m] <= e.score
    ensures forall e :: e in r ==> e.id in scores && scores[e.id] == Ok(e.score)
    ensures forall e, m :: e in r && m in scores && m !in Ids(r) ==> scores[m].Ok? && scores[m].value <= e.score
  {
    forall e | e in r ensures e.id in scores && scores[e.id] == Ok(e.score) {
      assert e.id in ids;
      assert score[e.id] == scores[e.id].value;
    }
    forall e, m | e in r && m in scores && m !in Ids(r) ensures scores[m].Ok? && scores[m].value <= e.score {
      assert m in Ids(table);
      assert score[m] == scores[m].value;
    }
  }
}
