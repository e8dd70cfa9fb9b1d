# Movie recommender: a verified Dafny model

This project models the recommendation engine of a small MovieLens
recommender. There are three strategies, and each ranks the movies a user has
not rated:

- **User-based collaborative filtering**, `user(...)`. Compute the target
  user's similarity to every other user. For each candidate movie, take the
  movie's watchers with positive similarity and keep the k most similar. The
  score is the similarity-weighted mean of their ratings. Return the best N
  candidates.
- **Item-based collaborative filtering**, `item(...)`. For each candidate,
  compute its similarity to every movie the target rated. Keep the k most
  similar positive ones. The score is the weighted mean of the target's
  ratings of them.
- **Content-based ranking**, `title(...)`. Build a keyword table DF over all
  titles. Give every movie the weight vector `count / DF` over its title's
  keywords. Rank the other movies by their similarity to the target movie.

All three strategies take one of four similarity metrics: Jaccard, Dice,
cosine (with its denominator rounded to 10 decimals) and Pearson (cosine
after mean-centering each vector).

Two source files implement the strategies:

- `algorithms.py` is for the MovieLens "latest" layout. The user threshold is
  k = 128. It uses `heapq.nlargest` everywhere.
- `algorithms100k.py` is for the 100k layout. The user threshold is k = 30.
  For neighbours and results it uses `sorted(..., reverse=True)[:k]`. Its
  `title(...)` is the same as the other file's.

The model is written once, with the threshold k and the selection (`Heap` or
`Sort`) as parameters. The modules `Algorithms` and `Algorithms100k` fix them
as each file does.

## Structure

| module | models |
|---|---|
| `Results` | the two failures, a `KeyError` on the target and a `ZeroDivisionError`, plus `Result` and `Option` |
| `Sums` | an order-free sum over the values of a dictionary, for `sum(x.values())` |
| `Dicts` | insertion-ordered dictionary keys, where a comprehension keeps the first position of each key |
| `Similarities` | the four metrics of `similarities.py` |
| `Ranking` | `heapq.nlargest` as repeated extraction of the first maximum; `sorted(..., reverse=True)` as a stable insertion sort; Python slices |
| `Scoring` | the weighted mean, the positive-similarity filter, and the score table `{m: _score_of(m) for m in ...}` where a score may raise |
| `Ratings` | the rating rows; the two nested indices built by the `setdefault(...).update(...)` loops, as methods proved equal to functions; watchers, watched movies and candidates |
| `UserBased`, `ItemBased` | `user(...)` and `item(...)` of both files |
| `Titles` | `str.split()` and `str.count` |
| `ContentBased` | `title(...)`: the DF loop as a method proved equal to a function; the weight vectors; the ranking |
| `Algorithms`, `Algorithms100k` | each file's constants |

Some things are parameters of the model:

- The square root is an argument `sqrt: real -> real`. Properties that need
  it to be a true root assume `IsRoot(sqrt)`.
- The CSV contents are arguments:
  - the ratings are a sequence of `Rating(user, item, score)` rows, in file
    order;
  - the user and item recommenders take the movies as a sequence of movie ids;
  - the title recommender takes them as a sequence of `Movie(id, title)`, all
    in file order.

Both failures of the source are modelled as results. `Err(UnknownTarget)` is
the `KeyError` on `ratings[userId]` or `TFIDF[itemId]`. `Err(ZeroDivision)`
is a division by an empty sum.

## Model

| member | source | states |
|---|---|---|
| Similarities.Jaccard | similarities.py:8-15 | the result lies in [0, 1]; it is 0 exactly for disjoint key sets (including the empty-union guard), and 1 exactly for equal non-empty key sets |
| Similarities.JaccardSymmetric | similarities.py:8-15 | Jaccard is symmetric |
| Similarities.Dice | similarities.py:18-24 | the result lies in [0, 1]; it is 0 exactly for disjoint key sets (including both empty), and 1 exactly for equal non-empty key sets |
| Similarities.DiceSymmetric | similarities.py:18-24 | Dice is symmetric |
| Similarities.SetMetricsUseKeysOnly | similarities.py:8-24 | Jaccard and Dice depend only on the key sets, not on the values |
| Similarities.NormNonNegative | similarities.py:27-28 | with a true square root the norm is non-negative |
| Similarities.NormZero | similarities.py:27-28 | the norm is 0 exactly when every value is 0 |
| Similarities.DotSymmetric | similarities.py:30-32 | the dot product over the common keys is symmetric |
| Similarities.DotDisjoint | similarities.py:30-32 | vectors with disjoint keys have dot product 0 |
| Similarities.Round10Zero | similarities.py:35 | `round(p, 10)` (half-even) of a non-negative p is 0 exactly when p <= 5e-11 |
| Similarities.GuardedQuotientSign | similarities.py:34-37 | the guarded quotient is 0 when a norm is 0, and positive exactly when the rounded denominator is non-zero and the dot product is positive |
| Similarities.CosineSymmetric | similarities.py:34-37 | cosine is symmetric |
| Similarities.CosineDisjoint | similarities.py:34-37 | cosine of vectors with disjoint keys is 0 |
| Similarities.CosineDegenerate | similarities.py:34-37 | cosine with an all-zero vector is 0 through the zero-denominator guard |
| Similarities.CosinePositive | similarities.py:34-37 | cosine is positive exactly when the norm product exceeds 5e-11 and the dot product is positive |
| Similarities.Mean | similarities.py:41 | the mean times the number of entries is the sum of the values |
| Similarities.ZeroCentered | similarities.py:40-42 | same keys, every value minus the mean, and the centred values sum to 0 |
| Similarities.MeanOfConstant | similarities.py:40-42 | the mean of a constant vector is that constant |
| Similarities.PearsonSymmetric | similarities.py:44-45 | Pearson is symmetric on non-empty vectors |
| Similarities.PearsonConstant | similarities.py:44-45 | Pearson with a constant vector is 0, since centring makes it all zero |
| Similarities.Similarity | similarities.py:8-45 | the chosen metric: Jaccard and Dice lie in [0, 1], and every metric but Pearson gives 0 on disjoint keys |
| Similarities.SimilaritySymmetric | similarities.py:8-45 | every metric is symmetric (Pearson needs both vectors non-empty) |
| Ratings.BuildByUser | algorithms.py:24-27 | the `setdefault(user, {}).update({movie: rating})` loop builds exactly `ByUser(rows)`; the same loop is at algorithms100k.py:25-28 |
| Ratings.ByUser | algorithms.py:24-27 | the keys are exactly the users of the rows, and each user's dictionary is non-empty |
| Ratings.ByUserLookup | algorithms.py:24-27 | `ratings[u][m]` is the last rating u gave m, and is absent when u never rated m |
| Ratings.BuildByItem | algorithms.py:135-138 | the loop keyed by movie builds exactly `ByItem(rows)`; the same loop is at algorithms100k.py:136-139 |
| Ratings.ByItem | algorithms.py:135-138 | the keys are exactly the rated movies, and each movie's dictionary is non-empty |
| Ratings.ByItemLookup | algorithms.py:135-138 | `ratings[m][u]` is the last rating u gave m |
| Ratings.Transpose | algorithms.py:24-27 | the two indices hold the same ratings, transposed |
| Ratings.WatchedIffRated | algorithms.py:52-54 | a movie is in `watched_movies` exactly when the user has a rating row for it; symmetrically for the watchers of a movie |
| Ratings.Watchers | algorithms.py:68-70 | one entry per rating row of m, so its length is the number of rows rating m, which `len(watchers)` reads; every watcher listed has a rating of m and is a key of the user index |
| Ratings.Candidates | algorithms.py:56-59 | `not_watched_movies`, as dictionary keys: exactly the listed movies the target has not rated and someone has, without repetition |
| Ratings.LastRatingWithin | algorithms.py:24-27 | if all rows for (u, m) lie in [lo, hi], so does the rating the index keeps |
| UserBased.UserSimilarities | algorithms.py:35-40 | `all_similarities` has one entry per other user and none for the target, each being the metric on the two users' ratings |
| UserBased.PositiveWatchers | algorithms.py:72-77 | the filtered `similarities` are exactly the watchers with positive similarity, with their similarities and without repetition |
| UserBased.KeptNeighbours | algorithms.py:86-95 | every kept neighbour has positive weight and a rating of the candidate, so `ratings[other_user][not_watched_movie]` exists |
| UserBased.UserScoreWithin | algorithms.py:79-95 | below the threshold the score is 0; above it, a successful score lies between the lowest and the highest rating of the candidate |
| UserBased.NoPositiveWatcher | algorithms.py:72-77 | the filtered pool is empty exactly when no watcher has positive similarity |
| UserBased.UserScoreFails | algorithms.py:79-95 | as written, with k >= 1 watchers present, the score divides by zero exactly when no watcher has positive similarity; algorithms100k.py:81-95 has the same threshold |
| UserBased.NeighbourThresholdNeverFails | algorithms.py:79-95 | with the threshold on the positive neighbours the score never fails |
| UserBased.ThresholdsAgree | algorithms.py:79-81 | the two thresholds give the same score when there are at least k positive neighbours or fewer than k watchers |
| UserBased.CandidateScoreFails | algorithms.py:66-101 | a candidate's entry in `scores` fails, always with a division by zero, exactly when k = 0 or when, under the as-written threshold, m has at least k rating rows and no watcher of positive similarity |
| UserBased.CandidateScoreWithin | algorithms.py:66-101 | a candidate's entry is 0 below the threshold, and otherwise any score lies between the lowest and the highest rating m received |
| UserBased.UnknownUser | algorithms.py:37 | for an unknown user the result is a `KeyError` when there are rows, and the empty result when there are none |
| UserBased.RecommendByUserFails | algorithms.py:98-101 | for a known user the recommendation fails exactly when some candidate's score fails, and then with a division by zero |
| UserBased.RecommendByUserRanked | algorithms.py:104-108 | a successful result holds min(N, number of candidates) distinct candidates with their scores, in descending order, and no left-out candidate scores above a kept one |
| UserBased.CorrectedRecommendation | algorithms.py:79-81 | with the corrected threshold and k >= 1 the result fails exactly for an unknown user when there are rows |
| UserBased.NoPositiveNeighbour | algorithms.py:79-95 | for a movie with at least k >= 1 watchers, none positively similar, the source's threshold divides by zero and the corrected one scores 0 |
| UserBased.DivisionByZeroExample | algorithms.py:79-95 | a two-row input, with any two rating values, on which the source as written raises a division by zero, while the corrected threshold returns the candidate with score 0 |
| UserBased.UserScoreSelection | algorithms100k.py:85-89 | a candidate's score is the same with `sorted(...)[:k]` as with `heapq.nlargest` |
| UserBased.RecommendByUserSelection | algorithms100k.py:104-108 | the whole recommendation is the same under both selections, for every N >= 0 |
| ItemBased.ItemSimilaritiesWithin | algorithms.py:166-171 | under Jaccard or Dice every similarity lies in [0, 1]; under every metric but Pearson a watched movie that no user rated together with the candidate has similarity 0 |
| ItemBased.PositiveWatched | algorithms.py:173-177 | the filtered `similarities` are exactly the target's movies with positive similarity, without repetition |
| ItemBased.KeptItems | algorithms.py:183-192 | every kept neighbour has positive weight and the target rated it, so `ratings[movie][userId]` exists |
| ItemBased.ItemScoreWithin | algorithms.py:179-192 | with k >= 1 the score never fails; below the threshold it is 0; otherwise it lies between the target's lowest and highest rating |
| ItemBased.ItemScoreNeverFails | algorithms.py:179-192 | with k >= 1 no score divides by zero |
| ItemBased.ItemCandidateScoresOk | algorithms.py:165-197 | every entry of `scores` is a number exactly when k >= 1, as the source's k = 30 is; with k = 0 no neighbour is kept and the mean divides by zero |
| ItemBased.ItemCandidateScoreWithin | algorithms.py:165-192 | with k >= 1 a candidate's score is 0 below k positive neighbours and otherwise lies between the lowest and the highest rating the target gave |
| ItemBased.RecommendByItemRanked | algorithms.py:200-204 | the result never fails, holds min(N, number of candidates) distinct candidates in descending order, and no left-out candidate scores above a kept one |
| ItemBased.RecommendByItemNeverFails | algorithms.py:194-204 | for every N, including negative ones, the item-based result is never an error |
| ItemBased.UnknownTargetScoresZero | algorithms.py:165-181 | a user who rated nothing gets score 0 for every candidate |
| ItemBased.ItemScoreSelection | algorithms100k.py:185-189 | a candidate's score is the same under both selections |
| ItemBased.RecommendByItemSelection | algorithms100k.py:203-207 | the whole item-based recommendation is the same under both selections, for every N >= 0 |
| Scoring.WeightedMean | algorithms.py:92-95 | the quotient fails exactly when the weights sum to 0, and then with a division by zero |
| Scoring.WeightedMeanWithin | algorithms.py:92-95 | with positive weights the mean exists exactly for a non-empty neighbourhood, and lies within the ratings' range |
| Scoring.TotalWeightPositive | algorithms.py:95 | positive weights sum to a positive total exactly when there is at least one |
| Scoring.PositivePool | algorithms.py:72-77 | the positive filter of a dictionary built from a key sequence: membership, deduplication and length |
| Scoring.NeighbourRatings | algorithms.py:92-94 | one (weight, rating) pair per kept neighbour, in order |
| Scoring.Tabulate | algorithms.py:98-101 | the table succeeds exactly when every score does; it then has exactly the keys in order with their scores, and otherwise the error of the first id whose score fails, every earlier id having succeeded |
| Scoring.TabulateTable | algorithms.py:98-101 | every entry of a successful table carries its own score, and distinct keys give distinct entries |
| Scoring.RankedTable | algorithms.py:104-108 | the top N of a table: length min(N, size), descending, distinct, each entry with its score, nothing left out above a kept entry |
| Ranking.SortPermutes | algorithms100k.py:104-108 | `sorted` returns a permutation of its input |
| Ranking.SortDescends | algorithms100k.py:104-108 | `sorted(..., reverse=True)` is in descending order of score |
| Ranking.Slice | algorithms100k.py:108 | `s[:n]` is a prefix, min(n, len) long for n >= 0, and for n < 0 drops the last -n entries |
| Ranking.FirstMaxIsMax | algorithms.py:86-89 | the entry `heapq.nlargest` takes first has the greatest score, and every earlier entry scores strictly less |
| Ranking.RemoveAtCounts | algorithms.py:86-89 | taking that entry out removes exactly one copy of it and nothing else |
| Ranking.NLargestIsSlice | algorithms100k.py:104-108 | `heapq.nlargest(k, s)` is the first k entries of the stable descending sort of s, for every k >= 0 |
| Ranking.HeapIsSort | algorithms100k.py:85-89 | `heapq.nlargest(k, s)` equals the stable `sorted(s, reverse=True)[:k]` for k >= 0, ties included |
| Ranking.TopKeepsLargest | algorithms.py:86-89 | the k kept entries number min(k, len), are descending, form a sub-multiset of the input, and no entry left out scores above one kept; with k >= len all entries are kept |
| Ranking.NegativeCount | algorithms100k.py:104-108 | for every negative N, `heapq.nlargest` returns nothing while the slice keeps the sorted entries but the last -N |
| Ranking.TopDistinct | algorithms.py:86-89 | selecting from entries with distinct ids keeps them distinct |
| Ranking.TopRanked | algorithms.py:104-108 | the selection from a table consistent with a score function keeps min(k, size) entries with their scores, best first, dominating every left-out id |
| Titles.Split | algorithms.py:228-234 | every keyword of `title.split()` is non-empty, holds no whitespace and occurs in the title |
| Titles.WordAt | algorithms.py:227 | the first keyword is the longest whitespace-free prefix |
| Titles.SplitJoin | algorithms.py:227 | splitting non-empty whitespace-free words joined by single spaces gives the words back |
| Titles.CountOccurs | algorithms.py:233 | for a non-empty keyword, `title.count(kw) >= 1` exactly when kw occurs in the title |
| Titles.WordCounted | algorithms.py:233 | every keyword of a title is counted at least once in it |
| ContentBased.BuildDocFreq | algorithms.py:226-229 | the nested loops that increment `DF[keyword]` build exactly `DocFreq(titles)`; the same loop is at algorithms100k.py:231-234 |
| ContentBased.AddWordsCounts | algorithms.py:228-229 | reading keywords adds to each entry its number of occurrences among them, and adds exactly the keywords read as new keys |
| ContentBased.DocFreqCounts | algorithms.py:226-229 | DF holds exactly the keywords of the titles, each with its number of occurrences summed over all titles |
| ContentBased.KeywordOccurs | algorithms.py:226-229 | a keyword of any title has at least one occurrence |
| ContentBased.DocFreqCovers | algorithms.py:231-236 | every keyword of every title has a positive DF entry, so `DF[keyword]` exists and is non-zero |
| ContentBased.Weight | algorithms.py:233 | `row.title.count(kw) / DF[kw]` is positive for a keyword of the title |
| ContentBased.TermWeights | algorithms.py:232-235 | the weight vector has exactly the title's keywords as keys, with positive weights |
| ContentBased.EmptyWeights | algorithms.py:232-235 | the weight vector is empty exactly when the title has no keyword |
| ContentBased.Profiles | algorithms.py:231-236 | `TFIDF` has exactly the movie ids as keys |
| ContentBased.ProfileOfLastRow | algorithms.py:231-236 | the vector of an id is the one of the last row with that id, because later keys overwrite earlier ones; the same `TFIDF` construction is at algorithms100k.py:236-241 |
| ContentBased.TitleProfiles | algorithms.py:226-236 | `TFIDF` over the DF table of the movies' own titles has exactly the movie ids as keys |
| ContentBased.Compare | algorithms.py:239-241 | the metric on two weight vectors fails only under Pearson with an empty vector, with a division by zero |
| ContentBased.OtherIds | algorithms.py:242 | the movies compared are exactly the ids of `TFIDF` other than the target, each once |
| ContentBased.TitleScoreFails | algorithms.py:231-242 | the entry of another movie, read from the last rows of the two ids, fails, always with a division by zero, exactly under Pearson when one of the two titles has no keyword |
| ContentBased.UnknownMovie | algorithms.py:240 | an unknown target gives a `KeyError` when there is any movie, and the empty result when there is none |
| ContentBased.RecommendByTitleFails | algorithms.py:238-248 | for a known target the result fails exactly when some similarity does, only under Pearson, and with a division by zero |
| ContentBased.OnlyPearsonFails | algorithms.py:238-242 | under Jaccard, Dice and cosine a failure can only be the `KeyError` |
| ContentBased.RecommendByTitleRanked | algorithms.py:244-248 | a successful result holds min(N, other movies) distinct movies other than the target with their similarities, best first, with no left-out movie above a kept one; the title recommender of algorithms100k.py:243-253 is the same |
| ContentBased.SharedKeywords | algorithms.py:238-242 | a movie sharing no keyword with the target scores 0 under every metric but Pearson, and under Jaccard and Dice a movie scores above 0 exactly when it shares a keyword |
| ContentBased.ExampleDocFreq | algorithms.py:226-229 | for "the matrix", "the matrix reloaded" and "inception", DF is 2 for "the" and "matrix" and 1 for "reloaded" and "inception" |
| ContentBased.RepeatedKeyword | algorithms.py:226-229 | DF counts occurrences, not titles: in the single title "New York New York", "New" has DF 2 |
| Algorithms.User | algorithms.py:8-108 | `user(...)` with k = 128 and heapq: a `KeyError` exactly for an unknown user when there are rows; a successful result for a known user holds min(N, candidates) distinct unwatched movies with their scores, best first, none left out scoring above a kept one, and for an unknown user it is empty |
| Algorithms.CorrectedUser | algorithms.py:79-81 | with the threshold on the positive neighbours, the only failure is the `KeyError` on an unknown user, and a known user gets the top N candidates ranked as in `Algorithms.User` |
| Algorithms.Item | algorithms.py:119-204 | `item(...)` with k = 30 never fails, and returns min(N, candidates) distinct unwatched movies with their scores, best first, none left out scoring above a kept one (none for a negative N) |
| Algorithms.Title | algorithms.py:215-248 | `title(...)`: a `KeyError` exactly for an unknown movie when there are movies; a division by zero only under Pearson; otherwise min(N, other movies) distinct movies other than the target with their similarities, best first, none left out more similar than a kept one |
| Algorithms100k.User | algorithms100k.py:8-108 | `user(...)` with k = 30 and sorting: for N >= 0 it equals the heapq variant with the same k; a `KeyError` exactly for an unknown user when there are rows; a successful result for a known user and N >= 0 holds min(N, candidates) distinct movies with their scores, best first, none left out scoring above a kept one |
| Algorithms100k.CorrectedUser | algorithms100k.py:81-83 | the 100k user recommender with the corrected threshold fails only for an unknown user, and ranks the top N candidates otherwise |
| Algorithms100k.Item | algorithms100k.py:119-207 | `item(...)` of the 100k file never fails, and for N >= 0 it recommends exactly what `Algorithms.Item` does |

## Left out

- CSV loading is not modelled. That covers `pandas.read_csv`, column selection, separators and encodings, and the file name `"ratings"` without an extension at algorithms.py:131. The rows arrive as sequences in file order.
- Floating-point arithmetic is not modelled. Ratings, similarities and weights are real numbers. `math.sqrt` is the parameter `sqrt`, and `round(·, 10)` is exact decimal rounding, half to even.
- The cost of `heapq.nlargest` is not modelled, because it is only a performance property. The result is modelled, including its tie order.
- The code after each second `return` is dead and is not modelled: algorithms.py:110-116 and 206-212, and algorithms100k.py:110-116 and 209-215.
- main.py is not part of this model. It is the command-line caller that picks the strategy, the metric, the target and N.
- ml-100k-csv/sort_dataset.py is not part of this model. It is a data-preparation script.
- `str.split()` is modelled only for the separators among the first 256 code points. Those are the characters of the ISO-8859-1 titles of the 100k file. Other Unicode whitespace is not.
- The ranking properties of the recommendations are stated only for N >= 0. For a negative N, `heapq.nlargest` returns nothing, while the slice of algorithms100k.py drops entries from the end; `Ranking.NegativeCount` states both.
- Algorithms.User: states when the `KeyError` occurs and the ranking, but gives no closed form for when a known user's recommendation divides by zero. That condition is stated per candidate by `UserBased.UserScoreFails` and `UserBased.CandidateScoreFails` and lifted to the whole recommendation by `UserBased.RecommendByUserFails`.
- Algorithms.Title: not restated for algorithms100k.py, whose `title(...)` differs only in the CSV layout. The `ContentBased` rows cite both files.
- ContentBased.SharedKeywords: the similarity example with cosine on the three titles is not proved. Concretely, only the DF values of that example are proved, in `ContentBased.ExampleDocFreq`. The general keyword-sharing statement is proved for Jaccard and Dice.
- ContentBased.RepeatedKeyword: DF counts keyword occurrences over all titles, not the titles containing a keyword. The model preserves this as written rather than correcting it to a per-title document frequency.

## Findings

| source | as written | input that shows it | evidently intended | confidence | as-written member | corrected member |
|---|---|---|---|---|---|---|
| algorithms.py:79-95 | `if len(watchers) < k: return 0` counts every rating row of the candidate. The mean divides by the similarities of the positive watchers only. | k lowered to 1: rows (1, 10, a) and (2, 20, b) for any ratings a and b, movies [10, 20], target 1, Jaccard. User 2 rates 20 with similarity 0, so the pool is empty and the division is 0/0. With k = 128 this takes a movie with 128 rating rows and no positively similar watcher. | the threshold on `len(similarities)`, as in `item(...)` at algorithms.py:180 | not executed | UserBased.DivisionByZeroExample | UserBased.CorrectedRecommendation |
| algorithms100k.py:81-95 | the same watcher count with k = 30 | a movie with 30 rating rows whose watchers all have similarity at most 0 to the target | the threshold on `len(similarities)`, as at algorithms100k.py:182 | not executed | UserBased.UserScoreFails | Algorithms100k.CorrectedUser |
