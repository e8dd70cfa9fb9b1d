/**
 The content-based recommender, `title(...)` in both source files: a
 keyword frequency table DF over all titles, a weight vector per movie
 `{kw: title.count(kw) / DF[kw]}`, and the similarity of the target movie's
 vector to every other movie's, best N first. DF counts every occurrence of
 a keyword, so a keyword repeated within one title counts twice.
 */
module ContentBased {
  import opened Results
  import opened Dicts
  import opened Ranking
  import opened Similarities
  import opened Scoring
  import opened Titles

  /** One row of the movies file. */
  datatype Movie = Movie(id: int, title: string)

  /** `movies_df['title']`, in file order. */
  function TitleList(movies: seq<Movie>): (r: seq<string>)
    ensures |r| == |movies|
    ensures forall i :: 0 <= i < |movies| ==> r[i] == movies[i].title
  {
    if movies == [] then [] else [movies[0].title] + TitleList(movies[1..])
  }

  /** `movies_df['movieId']`, in file order. */
  function MovieIds(movies: seq<Movie>): (r: seq<int>)
    ensures |r| == |movies|
    ensures forall i :: 0 <= i < |movies| ==> r[i] == movies[i].id
  {
    if movies == [] then [] else [movies[0].id] + MovieIds(movies[1..])
  }

  // ---------------------------------------------------------------- the keyword frequency table

  /** `DF.get(keyword, 0)`. */
  function Get(df: map<string, int>, w: string): int
  {
    if w in df then df[w] else 0
  }

  /** `DF[keyword] = DF.get(keyword, 0) + 1`. */
  function Bump(df: map<string, int>, w: string): map<string, int>
  {
    df[w := Get(df, w) + 1]
  }

  /** `Bump` for each keyword in turn. */
  function AddWords(df: map<string, int>, words: seq<string>): map<string, int>
    decreases |words|
  {
    if words == [] then df
    else Bump(AddWords(df, words[..|words| - 1]), words[|words| - 1])
  }

  /** DF after the outer loop has read every title. */
  function DocFreq(titles: seq<string>): map<string, int>
    decreases |titles|
  {
    if titles == [] then map[]
    else AddWords(DocFreq(titles[..|titles| - 1]), Split(titles[|titles| - 1]))
  }

  /** The number of times w is a keyword of the titles, summed over titles. */
  function Occurrences(titles: seq<string>, w: string): nat
    decreases |titles|
  {
    if titles == [] then 0
    else Occurrences(titles[..|titles| - 1], w) + multiset(Split(titles[|titles| - 1]))[w]
  }

  /** The nested loops that fill DF. */
  method BuildDocFreq(titles: seq<string>) returns (df: map<string, int>)
    ensures df == DocFreq(titles)
  {
    df := map[];
    var i := 0;
    while i < |titles|
      invariant 0 <= i <= |titles|
      invariant df == DocFreq(titles[..i])
    {
      var words := Split(titles[i]);
      var j := 0;
      ghost var before := df;
      while j < |words|
        invariant 0 <= j <= |words|
        invariant df == AddWords(before, words[..j])
      {
        var keyword := words[j];
        AddWordsStep(before, words, j);
        df := Bump(df, keyword);
        j := j + 1;
      }
      assert words[..j] == words;
      DocFreqStep(titles, i);
      i := i + 1;
    }
    assert titles[..|titles|] == titles;
  }

  /** Reading keyword j adds one to its entry. */
  lemma AddWordsStep(df: map<string, int>, words: seq<string>, j: nat)
    requires j < |words|
    ensures AddWords(df, words[..j + 1]) == Bump(AddWords(df, words[..j]), words[j])
  {
    assert words[..j + 1][..j] == words[..j];
  }

  /** Reading title i adds its keywords. */
  lemma DocFreqStep(titles: seq<string>, i: nat)
    requires i < |titles|
    ensures DocFreq(titles[..i + 1]) == AddWords(DocFreq(titles[..i]), Split(titles[i]))
  {
    assert titles[..i + 1][..i] == titles[..i];
  }

  /** Each keyword read adds one to its own entry and leaves the others alone. */
  lemma {:induction false} AddWordsCounts(df: map<string, int>, words: seq<string>, w: string)
    ensures Get(AddWords(df, words), w) == Get(df, w) + multiset(words)[w]
    ensures w in AddWords(df, words) <==> w in df || w in words
    decreases |words|
  {
    if words != [] {
      var init := words[..|words| - 1];
      AddWordsCounts(df, init, w);
      assert words == init + [words[|words| - 1]];
    }
  }

  /**
   DF holds exactly the keywords of the titles, each with its number of
   occurrences over all titles, which is at least one.
   */
  lemma {:induction false} DocFreqCounts(titles: seq<string>, w: string)
    ensures Get(DocFreq(titles), w) == Occurrences(titles, w)
    ensures w in DocFreq(titles) <==> Occurrences(titles, w) > 0
    decreases |titles|
  {
    if titles != [] {
      var init := titles[..|titles| - 1];
      DocFreqCounts(init, w);
      AddWordsCounts(DocFreq(init), Split(titles[|titles| - 1]), w);
    }
  }

  /** A keyword of a title occurs at least once over the titles. */
  lemma {:induction false} KeywordOccurs(titles: seq<string>, i: nat, w: string)
    requires i < |titles| && w in Split(titles[i])
    ensures Occurrences(titles, w) >= 1
    decreases |titles|
  {
    if i < |titles| - 1 {
      var init := titles[..|titles| - 1];
      assert init[i] == titles[i];
      KeywordOccurs(init, i, w);
    }
  }

  /** Every keyword of a title has a positive entry in a table. */
  predicate Knows(df: map<string, int>, title: string)
  {
    forall w :: w in Split(title) ==> w in df && df[w] > 0
  }

  /** A table knows every title. */
  predicate Covers(df: map<string, int>, movies: seq<Movie>)
  {
    forall i :: 0 <= i < |movies| ==> Knows(df, movies[i].title)
  }

  /** DF covers the keywords of the titles it was built from. */
  lemma DocFreqCovers(movies: seq<Movie>)
    ensures Covers(DocFreq(TitleList(movies)), movies)
  {
    var titles := TitleList(movies);
    forall i | 0 <= i < |movies| ensures Knows(DocFreq(titles), movies[i].title) {
      forall w | w in Split(movies[i].title) ensures w in DocFreq(titles) && DocFreq(titles)[w] > 0 {
        KeywordOccurs(titles, i, w);
        DocFreqCounts(titles, w);
      }
    }
  }

  // ---------------------------------------------------------------- weight vectors

  /** `row.title.count(kw) / DF[kw]`, positive for a keyword of the title. */
  function Weight(title: string, df: map<string, int>, w: string): (r: real)
    requires w in Split(title) && w in df && df[w] > 0
    ensures r > 0.0
  {
    WordCounted(title, w);
    QuotientSign(Count(title, w) as real, df[w] as real);
    (Count(title, w) as real) / (df[w] as real)
  }

  /** `{kw: title.count(kw) / DF[kw] for kw in title.split()}`: one positive weight per keyword. */
  function TermWeights(title: string, df: map<string, int>): (r: map<string, real>)
    requires Knows(df, title)
    ensures forall w :: w in r <==> w in Split(title)
    ensures forall w :: w in r ==> r[w] > 0.0
  {
    map w | w in Split(title) :: Weight(title, df, w)
  }

  /** A title has an empty weight vector exactly when it has no keyword. */
  lemma EmptyWeights(title: string, df: map<string, int>)
    requires Knows(df, title)
    ensures |TermWeights(title, df)| == 0 <==> Split(title) == []
  {
    if Split(title) != [] {
      assert Split(title)[0] in TermWeights(title, df);
    }
  }

  /** The ids of all rows are those of the rows before the last and the last one's. */
  lemma MovieIdsInit(movies: seq<Movie>)
    requires movies != []
    ensures forall id :: id in MovieIds(movies) <==> id in MovieIds(movies[..|movies| - 1]) || id == movies[|movies| - 1].id
  {
    var init := movies[..|movies| - 1];
    assert MovieIds(movies) == MovieIds(init) + [movies[|movies| - 1].id];
  }

  /** A table covering all rows covers the rows before the last. */
  lemma CoversInit(df: map<string, int>, movies: seq<Movie>)
    requires movies != [] && Covers(df, movies)
    ensures Covers(df, movies[..|movies| - 1])
  {
    var init := movies[..|movies| - 1];
    forall i | 0 <= i < |init| ensures Knows(df, init[i].title) {
      assert init[i] == movies[i];
    }
  }

  /**
   The dictionary `TFIDF`: one weight vector per movie id, rebuilt for each
   row, so that a later row with the same id overwrites an earlier one.
   */
  function Profiles(movies: seq<Movie>, df: map<string, int>): (r: map<int, map<string, real>>)
    requires Covers(df, movies)
    ensures forall id :: id in r <==> id in MovieIds(movies)
    decreases |movies|
  {
    if movies == [] then map[]
    else
      var last := movies[|movies| - 1];
      CoversInit(df, movies);
      MovieIdsInit(movies);
      Profiles(movies[..|movies| - 1], df)[last.id := TermWeights(last.title, df)]
  }

  /** The vector of an id is that of the last row with the id. */
  lemma {:induction false} ProfileOfLastRow(movies: seq<Movie>, df: map<string, int>, i: nat)
    requires Covers(df, movies)
    requires i < |movies|
    requires forall j :: i < j < |movies| ==> movies[j].id != movies[i].id
    ensures movies[i].id in Profiles(movies, df)
    ensures Profiles(movies, df)[movies[i].id] == TermWeights(movies[i].title, df)
    decreases |movies|
  {
    assert MovieIds(movies)[i] == movies[i].id;
    ProfilesSnoc(movies, df);
    var last := movies[|movies| - 1];
    if i < |movies| - 1 {
      var init := movies[..|movies| - 1];
      EarlierRow(movies, init, i);
      ProfileOfLastRow(init, df, i);
      UpdateElsewhere(Profiles(init, df), last.id, TermWeights(last.title, df), movies[i].id);
    }
  }

  /** `TFIDF` after one more row: the previous table with the last row's vector stored under its id. */
  lemma ProfilesSnoc(movies: seq<Movie>, df: map<string, int>)
    requires Covers(df, movies) && movies != []
    ensures Covers(df, movies[..|movies| - 1])
    ensures Profiles(movies, df)
            == Profiles(movies[..|movies| - 1], df)[movies[|movies| - 1].id := TermWeights(movies[|movies| - 1].title, df)]
  {
    CoversInit(df, movies);
  }

  /** A row followed by no row of the same id keeps that property among the rows before the last. */
  lemma EarlierRow(movies: seq<Movie>, init: seq<Movie>, i: nat)
    requires i < |movies| - 1 && init == movies[..|movies| - 1]
    requires forall j :: i < j < |movies| ==> movies[j].id != movies[i].id
    ensures init[i] == movies[i]
    ensures movies[|movies| - 1].id != movies[i].id
    ensures forall j :: i < j < |init| ==> init[j].id != movies[i].id
  {
    forall j | i < j < |init| ensures init[j].id != movies[i].id {
      assert init[j] == movies[j];
    }
  }

  /** Storing under one key leaves the entry of another key as it was. */
  lemma UpdateElsewhere<V>(m: map<int, V>, k: int, v: V, j: int)
    requires j in m && j != k
    ensures j in m[k := v] && m[k := v][j] == m[j]
  {
  }

  // ---------------------------------------------------------------- the similarity table

  /**
   One entry of `similarities`: the metric on two weight vectors. Only the
   Pearson correlation can fail, by taking the mean of an empty vector.
   */
  ghost function Compare(metric: Metric, sqrt: real -> real, x: map<string, real>, y: map<string, real>): (r: Result<real>)
    ensures r.Err? <==> metric.PearsonCorrelation? && (|x| == 0 || |y| == 0)
    ensures r.Err? ==> r.error == ZeroDivision
    ensures r.Ok? ==> r.value == Similarity(metric, sqrt, x, y)
  {
    if metric.PearsonCorrelation? && (|x| == 0 || |y| == 0) then Err(ZeroDivision)
    else Ok(Similarity(metric, sqrt, x, y))
  }

  /** The ids of `TFIDF` other than the target, in dictionary order. */
  function OtherIds(movies: seq<Movie>, itemId: int): (r: seq<int>)
    ensures forall m :: m in r <==> m in MovieIds(movies) && m != itemId
    ensures NoDuplicates(r)
  {
    Without(Distinct(MovieIds(movies)), itemId)
  }

  /** s without x, in order. */
  function Without(s: seq<int>, x: int): (r: seq<int>)
    ensures forall m :: m in r <==> m in s && m != x
    ensures NoDuplicates(s) ==> NoDuplicates(r)
  {
    if s == [] then []
    else
      var rest := Without(s[1..], x);
      assert forall m :: m in s <==> m == s[0] || m in s[1..];
      assert NoDuplicates(s) ==> NoDuplicates(s[1..]) && s[0] !in s[1..];
      if s[0] == x then rest else [s[0]] + rest
  }

  /** `TFIDF` for the movies file: the weight vectors over the DF table of its own titles. */
  function TitleProfiles(movies: seq<Movie>): (r: map<int, map<string, real>>)
    ensures forall id :: id in r <==> id in MovieIds(movies)
  {
    DocFreqCovers(movies);
    Profiles(movies, DocFreq(TitleList(movies)))
  }

  /** The similarity of the target's vector to every other movie's. */
  ghost function TitleScores(metric: Metric, sqrt: real -> real, movies: seq<Movie>, itemId: int): (r: map<int, Result<real>>)
    requires itemId in MovieIds(movies)
    ensures forall m :: m in r <==> m in OtherIds(movies, itemId)
    ensures forall m :: m in r ==> r[m] == Compare(metric, sqrt, TitleProfiles(movies)[itemId], TitleProfiles(movies)[m])
  {
    var tfidf := TitleProfiles(movies);
    map m | m in OtherIds(movies, itemId) :: Compare(metric, sqrt, tfidf[itemId], tfidf[m])
  }

  /** In `TFIDF` of the movies file, the vector of an id is empty exactly when the title of its last row has no keyword. */
  lemma EmptyProfile(movies: seq<Movie>, i: nat)
    requires i < |movies|
    requires forall l :: i < l < |movies| ==> movies[l].id != movies[i].id
    ensures movies[i].id in TitleProfiles(movies)
    ensures |TitleProfiles(movies)[movies[i].id]| == 0 <==> Split(movies[i].title) == []
  {
    var df := DocFreq(TitleList(movies));
    DocFreqCovers(movies);
    ProfileOfLastRow(movies, df, i);
    EmptyWeights(movies[i].title, df);
  }

  /**
   The entry of another movie, read from the last rows i of the target and
   j of the other movie: it fails, by a division by zero, exactly under the
   Pearson correlation when one of the two titles has no keyword.
   */
  lemma TitleScoreFails(metric: Metric, sqrt: real -> real, movies: seq<Movie>, i: nat, j: nat)
    requires i < |movies| && j < |movies| && movies[i].id != movies[j].id
    requires forall l :: i < l < |movies| ==> movies[l].id != movies[i].id
    requires forall l :: j < l < |movies| ==> movies[l].id != movies[j].id
    ensures movies[i].id in MovieIds(movies) && movies[j].id in TitleScores(metric, sqrt, movies, movies[i].id)
    ensures TitleScores(metric, sqrt, movies, movies[i].id)[movies[j].id].Err? <==>
              metric.PearsonCorrelation? && (Split(movies[i].title) == [] || Split(movies[j].title) == [])
    ensures TitleScores(metric, sqrt, movies, movies[i].id)[movies[j].id].Err? ==>
              TitleScores(metric, sqrt, movies, movies[i].id)[movies[j].id].error == ZeroDivision
  {
    assert MovieIds(movies)[i] == movies[i].id && MovieIds(movies)[j] == movies[j].id;
    EmptyProfile(movies, i);
    EmptyProfile(movies, j);
    assert movies[j].id in OtherIds(movies, movies[i].id);
  }

  /**
   `title(...)`: the N movies most similar to the target. Looking up the
   target's vector raises a `KeyError` as soon as there is another movie to
   compare it with; with no other movie the table is empty.
   */
  ghost function RecommendByTitle(metric: Metric, sqrt: real -> real, movies: seq<Movie>, n: int, itemId: int): Result<seq<Scored>>
  {
    if itemId !in MovieIds(movies) then
      if OtherIds(movies, itemId) == [] then Ok([]) else Err(UnknownTarget)
    else
      match Tabulate(OtherIds(movies, itemId), TitleScores(metric, sqrt, movies, itemId))
      case Err(e) => Err(e)
      case Ok(table) => Ok(Top(Heap, n, table))
  }

  /** An unknown target fails with a `KeyError` exactly when there is some movie at all. */
  lemma UnknownMovie(metric: Metric, sqrt: real -> real, movies: seq<Movie>, n: int, itemId: int)
    requires itemId !in MovieIds(movies)
    ensures RecommendByTitle(metric, sqrt, movies, n, itemId) == if movies == [] then Ok([]) else Err(UnknownTarget)
  {
    if movies != [] {
      assert MovieIds(movies)[0] in OtherIds(movies, itemId);
    }
  }

  /**
   For a known target the recommendation fails exactly when some entry
   fails, which takes the Pearson correlation and an empty weight vector,
   and always by a division by zero.
   */
  lemma RecommendByTitleFails(metric: Metric, sqrt: real -> real, movies: seq<Movie>, n: int, itemId: int)
    requires itemId in MovieIds(movies)
    ensures var scores := TitleScores(metric, sqrt, movies, itemId);
            RecommendByTitle(metric, sqrt, movies, n, itemId).Err? <==> exists m :: m in scores && scores[m].Err?
    ensures RecommendByTitle(metric, sqrt, movies, n, itemId).Err? ==>
              metric.PearsonCorrelation? && RecommendByTitle(metric, sqrt, movies, n, itemId).error == ZeroDivision
  {
    var scores := TitleScores(metric, sqrt, movies, itemId);
    var table := Tabulate(OtherIds(movies, itemId), scores);
    assert RecommendByTitle(metric, sqrt, movies, n, itemId).Err? <==> table.Err?;
    if table.Err? {
      assert RecommendByTitle(metric, sqrt, movies, n, itemId).error == table.error;
      var m :| m in OtherIds(movies, itemId) && scores[m] == Err(table.error);
    }
  }

  /**
   A successful recommendation holds min(n, number of other movies)
   distinct movies other than the target with their similarities, best
   first, no movie left out being more similar than one kept.
   */
  lemma RecommendByTitleRanked(metric: Metric, sqrt: real -> real, movies: seq<Movie>, n: nat, itemId: int)
    requires itemId in MovieIds(movies)
    requires RecommendByTitle(metric, sqrt, movies, n, itemId).Ok?
    ensures Ranked(RecommendByTitle(metric, sqrt, movies, n, itemId).value, n,
                   OtherIds(movies, itemId), TitleScores(metric, sqrt, movies, itemId))
    ensures forall e :: e in RecommendByTitle(metric, sqrt, movies, n, itemId).value ==> e.id != itemId
  {
    var others := OtherIds(movies, itemId);
    var scores := TitleScores(metric, sqrt, movies, itemId);
    TabulateTable(others, scores);
    RankedTable(Heap, n, Tabulate(others, scores).value, others, scores);
  }

  /**
   A movie sharing no keyword with the target scores 0 under every metric but
   Pearson's; under Jaccard and Dice a movie scores above 0 exactly when it
   shares one.
   */
  lemma SharedKeywords(metric: Metric, sqrt: real -> real, movies: seq<Movie>, itemId: int, m: int)
    requires itemId in MovieIds(movies) && m in OtherIds(movies, itemId)
    ensures var tfidf := TitleProfiles(movies);
            var score := TitleScores(metric, sqrt, movies, itemId)[m];
            && (!metric.PearsonCorrelation? && tfidf[itemId].Keys !! tfidf[m].Keys ==> score == Ok(0.0))
            && (metric.JaccardIndex? || metric.DiceCoefficient? ==>
                  score.Ok? && (score.value > 0.0 <==> !(tfidf[itemId].Keys !! tfidf[m].Keys)))
  {
    var tfidf := TitleProfiles(movies);
    var score := TitleScores(metric, sqrt, movies, itemId)[m];
    assert score == Compare(metric, sqrt, tfidf[itemId], tfidf[m]);
  }

  /** Jaccard, Dice and cosine similarity never fail on titles. */
  lemma OnlyPearsonFails(metric: Metric, sqrt: real -> real, movies: seq<Movie>, n: int, itemId: int)
    requires !metric.PearsonCorrelation?
    ensures RecommendByTitle(metric, sqrt, movies, n, itemId).Err? ==>
              RecommendByTitle(metric, sqrt, movies, n, itemId).error == UnknownTarget
  {
    if itemId in MovieIds(movies) {
      RecommendByTitleFails(metric, sqrt, movies, n, itemId);
    }
  }

  // ---------------------------------------------------------------- examples

  /** Three titles, the target "the matrix" sharing two keywords with the second and none with the third. */
  function ExampleMovies(): seq<Movie>
  {
    [Movie(1, "the matrix"), Movie(2, "the matrix reloaded"), Movie(3, "inception")]
  }

  /** The keywords of the example are words without separators. */
  lemma ExampleWords()
    ensures NoSpace("the") && NoSpace("matrix") && NoSpace("reloaded") && NoSpace("inception")
    ensures NoSpace("New") && NoSpace("York")
  {
  }

  /** Words joined by single spaces are split back into the same words. */
  lemma SplitWords(t: string, words: seq<string>)
    requires forall i :: 0 <= i < |words| ==> |words[i]| > 0 && NoSpace(words[i])
    requires Join(words) == t
    ensures Split(t) == words
  {
    SplitJoin(words);
  }

  lemma SplitFirstTitle()
    ensures Split("the matrix") == ["the", "matrix"]
  {
    ExampleWords();
    assert Join(["the", "matrix"]) == "the matrix";
    SplitWords("the matrix", ["the", "matrix"]);
  }

  lemma SplitSecondTitle()
    ensures Split("the matrix reloaded") == ["the", "matrix", "reloaded"]
  {
    ExampleWords();
    assert Join(["the", "matrix", "reloaded"]) == "the matrix reloaded";
    SplitWords("the matrix reloaded", ["the", "matrix", "reloaded"]);
  }

  lemma SplitThirdTitle()
    ensures Split("inception") == ["inception"]
  {
    ExampleWords();
    assert Join(["inception"]) == "inception";
    SplitWords("inception", ["inception"]);
  }

  /** The DF entry of a keyword over one title is its number of occurrences in it. */
  lemma OneTitle(t: string, w: string)
    ensures Get(DocFreq([t]), w) == multiset(Split(t))[w]
  {
    var titles: seq<string> := [t];
    DocFreqCounts(titles, w);
    assert titles[..0] == [];
  }

  /** The DF entry of a keyword over three titles is its number of occurrences in them. */
  lemma ThreeTitles(a: string, b: string, c: string, w: string)
    ensures Get(DocFreq([a, b, c]), w) == multiset(Split(a))[w] + multiset(Split(b))[w] + multiset(Split(c))[w]
  {
    var titles := [a, b, c];
    DocFreqCounts(titles, w);
    assert titles[..2] == [a, b];
    assert [a, b][..1] == [a];
    assert [a][..0] == [];
    assert Occurrences([a], w) == multiset(Split(a))[w];
    assert Occurrences([a, b], w) == Occurrences([a], w) + multiset(Split(b))[w];
  }

  lemma ExampleTitles()
    ensures TitleList(ExampleMovies()) == ["the matrix", "the matrix reloaded", "inception"]
  {
  }

  /** DF of the example: "the" and "matrix" twice, "reloaded" and "inception" once. */
  lemma ExampleDocFreq()
    ensures var df := DocFreq(TitleList(ExampleMovies()));
            Get(df, "the") == 2 && Get(df, "matrix") == 2 && Get(df, "reloaded") == 1 && Get(df, "inception") == 1
  {
    ExampleTitles();
    SplitFirstTitle();
    SplitSecondTitle();
    SplitThirdTitle();
    ThreeTitleCounts("the matrix", "the matrix reloaded", "inception", "the", "matrix", "reloaded", "inception");
  }

  /**
   Over titles with keywords [x, y], [x, y, z] and [w], all four distinct,
   DF is 2 for x and y and 1 for z and w.
   */
  lemma ThreeTitleCounts(a: string, b: string, c: string, x: string, y: string, z: string, w: string)
    requires Split(a) == [x, y] && Split(b) == [x, y, z] && Split(c) == [w]
    requires x != y && x != z && x != w && y != z && y != w && z != w
    ensures var df := DocFreq([a, b, c]);
            Get(df, x) == 2 && Get(df, y) == 2 && Get(df, z) == 1 && Get(df, w) == 1
  {
    KeywordTallies(x, y, z, w);
    ThreeTitles(a, b, c, x);
    ThreeTitles(a, b, c, y);
    ThreeTitles(a, b, c, z);
    ThreeTitles(a, b, c, w);
  }

  /** How often each of four distinct keywords occurs in the keyword lists [x, y], [x, y, z] and [w]. */
  lemma KeywordTallies(x: string, y: string, z: string, w: string)
    requires x != y && x != z && x != w && y != z && y != w && z != w
    ensures multiset([x, y])[x] == 1 && multiset([x, y, z])[x] == 1 && multiset([w])[x] == 0
    ensures multiset([x, y])[y] == 1 && multiset([x, y, z])[y] == 1 && multiset([w])[y] == 0
    ensures multiset([x, y])[z] == 0 && multiset([x, y, z])[z] == 1 && multiset([w])[z] == 0
    ensures multiset([x, y])[w] == 0 && multiset([x, y, z])[w] == 0 && multiset([w])[w] == 1
  {
  }

  lemma SplitRepeatedTitle()
    ensures Split("New York New York") == ["New", "York", "New", "York"]
  {
    ExampleWords();
    assert Join(["New", "York", "New", "York"]) == "New York New York";
    SplitWords("New York New York", ["New", "York", "New", "York"]);
  }

  /** DF counts occurrences, not titles: in the single title "New York New York" "New" has DF 2. */
  lemma RepeatedKeyword()
    ensures Get(DocFreq(["New York New York"]), "New") == 2
  {
    SplitRepeatedTitle();
    OneTitle("New York New York", "New");
    assert multiset(["New", "York", "New", "York"])["New"] == 2;
  }
}
