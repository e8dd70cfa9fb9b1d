/**
 Ranking scored entries by score, highest first, as the recommenders do with
 `sorted(items, key=score, reverse=True)[:k]` and `heapq.nlargest(k, items,
 key=score)`. A dictionary's items are a sequence in insertion order.

 Python's sort is stable, also with `reverse=True`, so entries of equal score
 keep their original order; `heapq.nlargest` is documented to return the same
 list as the sorted prefix. Both are modelled here and proved equal for every
 non-negative k.
 */
module Ranking {

  /** One `(key, score)` item of a score dictionary. */
  datatype Scored = Scored(id: int, score: real)

  /** Which of the two selections a source file uses. */
  datatype Selection =
    | Heap   // heapq.nlargest(k, items, key=score)
    | Sort   // sorted(items, key=score, reverse=True)[:k]

  /** Scores never increase along the sequence. */
  predicate Descending(s: seq<Scored>)
  {
    forall i, j :: 0 <= i < j < |s| ==> s[i].score >= s[j].score
  }

  /** Every score in s is at most b. */
  predicate Bounded(s: seq<Scored>, b: real)
  {
    forall i :: 0 <= i < |s| ==> s[i].score <= b
  }

  /** The ids of the entries, in order. */
  function Ids(s: seq<Scored>): (r: seq<int>)
    ensures |r| == |s|
    ensures forall i :: 0 <= i < |s| ==> r[i] == s[i].id
  {
    if s == [] then [] else [s[0].id] + Ids(s[1..])
  }

  // ---------------------------------------------------------------- stable sort

  /**
   Insert x into a descending sequence in front of the first entry whose
   score it reaches: x goes before entries of equal score, which is where a
   stable sort puts an entry that came earlier in the input.
   */
  function Insert(x: Scored, s: seq<Scored>): (r: seq<Scored>)
    ensures |r| == |s| + 1
  {
    if s == [] || x.score >= s[0].score then [x] + s
    else [s[0]] + Insert(x, s[1..])
  }

  /** `sorted(s, key=score, reverse=True)`. */
  function SortDescending(s: seq<Scored>): (r: seq<Scored>)
    ensures |r| == |s|
  {
    if s == [] then []
    else Insert(s[0], SortDescending(s[1..]))
  }

  /** Inserting adds exactly x. */
  lemma {:induction false} InsertPermutes(x: Scored, s: seq<Scored>)
    ensures multiset(Insert(x, s)) == multiset(s) + multiset{x}
  {
    if s != [] && x.score < s[0].score {
      InsertPermutes(x, s[1..]);
      assert s == [s[0]] + s[1..];
    }
  }

  /** Inserting an entry no larger than a bound keeps every score within it. */
  lemma {:induction false} InsertBounded(x: Scored, s: seq<Scored>, b: real)
    requires Bounded(s, b) && x.score <= b
    ensures Bounded(Insert(x, s), b)
  {
    if s != [] && x.score < s[0].score {
      InsertBounded(x, s[1..], b);
    }
  }

  /** Inserting into a descending sequence keeps it descending. */
  lemma {:induction false} InsertDescending(x: Scored, s: seq<Scored>)
    requires Descending(s)
    ensures Descending(Insert(x, s))
  {
    if s != [] && x.score < s[0].score {
      InsertDescending(x, s[1..]);
      InsertBounded(x, s[1..], s[0].score);
      var r := Insert(x, s);
      assert r == [s[0]] + Insert(x, s[1..]);
    }
  }

  /** The sort is a permutation. */
  lemma {:induction false} SortPermutes(s: seq<Scored>)
    ensures multiset(SortDescending(s)) == multiset(s)
  {
    if s != [] {
      SortPermutes(s[1..]);
      InsertPermutes(s[0], SortDescending(s[1..]));
      assert s == [s[0]] + s[1..];
    }
  }

  /** The sort is descending. */
  lemma {:induction false} SortDescends(s: seq<Scored>)
    ensures Descending(SortDescending(s))
  {
    if s != [] {
      SortDescends(s[1..]);
      InsertDescending(s[0], SortDescending(s[1..]));
    }
  }

  // ---------------------------------------------------------------- heap selection

  /** The position of the first entry of greatest score (see `FirstMaxIsMax`). */
  function FirstMax(s: seq<Scored>): (m: nat)
    requires |s| > 0
    ensures m < |s|
  {
    if |s| == 1 then 0
    else
      var m' := FirstMax(s[1..]);
      if s[0].score >= s[1..][m'].score then 0 else m' + 1
  }

  /** `FirstMax` is a position of greatest score, and every earlier entry scores less. */
  lemma {:induction false} FirstMaxIsMax(s: seq<Scored>)
    requires |s| > 0
    ensures forall i :: 0 <= i < |s| ==> s[i].score <= s[FirstMax(s)].score
    ensures forall i :: 0 <= i < FirstMax(s) ==> s[i].score < s[FirstMax(s)].score
  {
    if |s| > 1 {
      var t := s[1..];
      FirstMaxIsMax(t);
      var m := FirstMax(s);
      forall i | 0 <= i < |s| ensures s[i].score <= s[m].score {
        if i > 0 { assert s[i] == t[i - 1]; }
      }
      forall i | 0 <= i < m ensures s[i].score < s[m].score {
        if i > 0 { assert s[i] == t[i - 1]; }
      }
    }
  }

  /** s without its entry at position i (see `RemoveAtCounts`). */
  function RemoveAt(s: seq<Scored>, i: nat): (r: seq<Scored>)
    requires i < |s|
    ensures |r| == |s| - 1
  {
    s[..i] + s[i + 1..]
  }

  /** Removing position i takes away one copy of s[i] and nothing else. */
  lemma RemoveAtCounts(s: seq<Scored>, i: nat)
    requires i < |s|
    ensures multiset(RemoveAt(s, i)) == multiset(s) - multiset{s[i]}
  {
    assert s == s[..i] + [s[i]] + s[i + 1..];
  }

  /**
   `heapq.nlargest(k, s, key=score)`: nothing for k <= 0, otherwise the first
   entry of greatest score followed by the k - 1 largest of the rest.
   */
  function NLargest(k: int, s: seq<Scored>): (r: seq<Scored>)
    decreases |s|
  {
    if k <= 0 || s == [] then []
    else
      var m := FirstMax(s);
      [s[m]] + NLargest(k - 1, RemoveAt(s, m))
  }

  /** Python's slice `s[:n]`, where a negative n counts from the end. */
  function Slice(s: seq<Scored>, n: int): (r: seq<Scored>)
    ensures 0 <= n ==> |r| == if n < |s| then n else |s|
    ensures n < 0 ==> |r| == if -n < |s| then |s| + n else 0
    ensures r == s[..|r|]
  {
    if n >= 0 then (if n < |s| then s[..n] else s)
    else (if -n < |s| then s[..|s| + n] else [])
  }

  /** The k entries a source file's selection keeps. */
  function Top(selection: Selection, k: int, s: seq<Scored>): seq<Scored>
  {
    match selection
    case Heap => NLargest(k, s)
    case Sort => Slice(SortDescending(s), k)
  }

  // ---------------------------------------------------------------- heap = sort

  /** Selecting at least one entry from a single entry keeps it. */
  lemma TopOfOne(selection: Selection, k: int, x: Scored)
    requires k >= 1
    ensures Top(selection, k, [x]) == [x]
  {
    match selection
    case Heap =>
      assert FirstMax([x]) == 0;
      assert RemoveAt([x], 0) == [];
      assert NLargest(k, [x]) == [x] + NLargest(k - 1, []);
    case Sort =>
      assert [x][1..] == [];
      assert SortDescending([x]) == Insert(x, []) == [x];
  }

  /** An entry that reaches the head of a descending sequence is inserted in front. */
  lemma InsertInFront(x: Scored, s: seq<Scored>)
    requires Bounded(s, x.score)
    ensures Insert(x, s) == [x] + s
  {
  }

  /**
   The stable descending sort starts with the first entry of greatest score
   and continues with the sort of the remaining entries.
   */
  lemma {:induction false} SortHead(s: seq<Scored>)
    requires |s| > 0
    ensures SortDescending(s) == [s[FirstMax(s)]] + SortDescending(RemoveAt(s, FirstMax(s)))
  {
    var m := FirstMax(s);
    if m == 0 {
      SortHeadFirst(s);
    } else {
      var t := s[1..];
      var m' := FirstMax(t);
      assert m' == m - 1;
      SortHead(t);
      assert s[0].score < t[m'].score;
      SortHeadLater(s, m');
    }
  }

  /** When the first entry is a first maximum, it stays in front. */
  lemma SortHeadFirst(s: seq<Scored>)
    requires |s| > 0 && FirstMax(s) == 0
    ensures SortDescending(s) == [s[0]] + SortDescending(RemoveAt(s, 0))
  {
    FirstMaxIsMax(s);
    var t := s[1..];
    assert RemoveAt(s, 0) == t;
    var sorted := SortDescending(t);
    SortPermutes(t);
    assert Bounded(sorted, s[0].score) by {
      forall i | 0 <= i < |sorted| ensures sorted[i].score <= s[0].score {
        assert sorted[i] in multiset(t);
      }
    }
    InsertInFront(s[0], sorted);
  }

  /**
   When the first maximum of s comes later, at position m' + 1, the first
   entry is inserted behind it.
   */
  lemma SortHeadLater(s: seq<Scored>, m': nat)
    requires |s| > 1 && m' < |s| - 1 && s[0].score < s[m' + 1].score
    requires SortDescending(s[1..]) == [s[m' + 1]] + SortDescending(RemoveAt(s[1..], m'))
    ensures SortDescending(s) == [s[m' + 1]] + SortDescending(RemoveAt(s, m' + 1))
  {
    var rest := SortDescending(RemoveAt(s[1..], m'));
    InsertBehind(s[0], s[m' + 1], rest);
    RemoveLater(s, m');
    SortCons(s[0], RemoveAt(s[1..], m'));
  }

  /** An entry of lower score than the head is inserted behind it. */
  lemma InsertBehind(x: Scored, y: Scored, rest: seq<Scored>)
    requires x.score < y.score
    ensures Insert(x, [y] + rest) == [y] + Insert(x, rest)
  {
    assert ([y] + rest)[1..] == rest;
  }

  /** Removing a later entry keeps the first one in front. */
  lemma RemoveLater(s: seq<Scored>, m': nat)
    requires m' < |s| - 1
    ensures RemoveAt(s, m' + 1) == [s[0]] + RemoveAt(s[1..], m')
  {
  }

  /** The sort of x followed by r inserts x into the sort of r. */
  lemma SortCons(x: Scored, r: seq<Scored>)
    ensures SortDescending([x] + r) == Insert(x, SortDescending(r))
  {
    assert ([x] + r)[1..] == r;
  }

  /** `heapq.nlargest(k, s)` equals `sorted(s, reverse=True)[:k]` for every k >= 0. */
  lemma HeapIsSort(k: int, s: seq<Scored>)
    requires k >= 0
    ensures Top(Heap, k, s) == Top(Sort, k, s)
  {
    NLargestIsSlice(k, s);
  }

  /** `heapq.nlargest(k, s)` is the prefix of length k of the stable descending sort. */
  lemma {:induction false} NLargestIsSlice(k: int, s: seq<Scored>)
    requires k >= 0
    ensures NLargest(k, s) == Slice(SortDescending(s), k)
    decreases |s|, 1
  {
    if k > 0 && s != [] {
      HeapStep(k, s);
    } else if s == [] {
      assert SortDescending(s) == [];
    }
  }

  /** One step of `NLargestIsSlice`: both selections take the first maximum, then agree on the rest. */
  lemma {:induction false} HeapStep(k: int, s: seq<Scored>)
    requires k >= 1 && |s| > 0
    ensures NLargest(k, s) == Slice(SortDescending(s), k)
    decreases |s|, 0
  {
    var m := FirstMax(s);
    var rest := RemoveAt(s, m);
    NLargestIsSlice(k - 1, rest);
    SortHead(s);
    SliceCons(s[m], SortDescending(rest), k);
  }

  /** Taking k >= 1 entries of x followed by t takes x and k - 1 entries of t. */
  lemma SliceCons(x: Scored, t: seq<Scored>, k: int)
    requires k >= 1
    ensures Slice([x] + t, k) == [x] + Slice(t, k - 1)
  {
    if k - 1 < |t| {
      assert ([x] + t)[..k] == [x] + t[..k - 1];
    }
  }

  // ---------------------------------------------------------------- properties of the selection

  /** Dropping the tail of a descending sequence keeps it descending. */
  lemma PrefixDescending(s: seq<Scored>, c: nat)
    requires Descending(s) && c <= |s|
    ensures Descending(s[..c])
  {
  }

  /**
   With k >= 0 both selections keep min(k, |s|) entries, in descending order,
   taken from s; every kept score is at least every dropped one; and for
   k >= |s| everything is kept.
   */
  lemma {:induction false} TopKeepsLargest(selection: Selection, k: int, s: seq<Scored>)
    requires k >= 0
    ensures |Top(selection, k, s)| == if k < |s| then k else |s|
    ensures Descending(Top(selection, k, s))
    ensures multiset(Top(selection, k, s)) <= multiset(s)
    ensures forall i, y :: 0 <= i < |Top(selection, k, s)| && y in multiset(s) - multiset(Top(selection, k, s))
              ==> Top(selection, k, s)[i].score >= y.score
    ensures k >= |s| ==> multiset(Top(selection, k, s)) == multiset(s)
  {
    HeapIsSort(k, s);
    var sorted := SortDescending(s);
    SortPermutes(s);
    SortDescends(s);
    var r := Top(selection, k, s);
    assert r == sorted[..|r|];
    PrefixKeepsLargest(sorted, |r|);
  }

  /**
   A prefix of a descending sequence is descending, is part of the sequence,
   and scores at least as high as everything after it.
   */
  lemma PrefixKeepsLargest(sorted: seq<Scored>, c: nat)
    requires Descending(sorted) && c <= |sorted|
    ensures Descending(sorted[..c])
    ensures multiset(sorted[..c]) <= multiset(sorted)
    ensures forall i, y :: 0 <= i < c && y in multiset(sorted) - multiset(sorted[..c]) ==> sorted[..c][i].score >= y.score
    ensures c == |sorted| ==> multiset(sorted[..c]) == multiset(sorted)
  {
    var r := sorted[..c];
    assert sorted == r + sorted[c..];
    assert multiset(sorted) == multiset(r) + multiset(sorted[c..]);
    PrefixDescending(sorted, c);
    forall i, y | 0 <= i < c && y in multiset(sorted) - multiset(r)
      ensures r[i].score >= y.score
    {
      assert y in multiset(sorted[c..]);
      var j :| 0 <= j < |sorted| - c && sorted[c..][j] == y;
      assert sorted[c + j] == y;
    }
  }

  /**
   A negative k selects differently: `heapq.nlargest` keeps nothing, the
   slice `sorted(...)[:k]` keeps the sorted entries but the last -k.
   */
  lemma NegativeCount(k: int, s: seq<Scored>)
    requires k < 0
    ensures Top(Heap, k, s) == []
    ensures Top(Sort, k, s) == SortDescending(s)[..(if -k < |s| then |s| + k else 0)]
  {
  }

  /** No two entries share an id, as for the items of a dictionary. */
  predicate DistinctIds(s: seq<Scored>)
  {
    forall i, j :: 0 <= i < j < |s| ==> s[i].id != s[j].id
  }

  /** Entries with distinct ids keep distinct ids after any selection. */
  lemma TopDistinct(selection: Selection, k: int, s: seq<Scored>)
    requires DistinctIds(s)
    requires k >= 0
    ensures DistinctIds(Top(selection, k, s))
  {
    TopKeepsLargest(selection, k, s);
    SubDistinct(Top(selection, k, s), s);
  }

  /** Entries taken from a sequence with distinct ids have distinct ids. */
  lemma SubDistinct(r: seq<Scored>, s: seq<Scored>)
    requires DistinctIds(s)
    requires multiset(r) <= multiset(s)
    ensures DistinctIds(r)
  {
    forall i, j | 0 <= i < j < |r| ensures r[i].id != r[j].id {
      if r[i] == r[j] {
        TwiceCounted(r, i, j);
        var a :| 0 <= a < |s| && s[a] == r[i];
        DistinctCount(s, a);
      } else {
        assert r[i] in multiset(s) && r[j] in multiset(s);
        var a :| 0 <= a < |s| && s[a] == r[i];
        var b :| 0 <= b < |s| && s[b] == r[j];
        assert a != b;
      }
    }
  }

  /** An entry at two positions is counted at least twice. */
  lemma TwiceCounted(r: seq<Scored>, i: nat, j: nat)
    requires i < j < |r| && r[i] == r[j]
    ensures multiset(r)[r[i]] >= 2
  {
    assert r == r[..i] + [r[i]] + r[i + 1..j] + [r[j]] + r[j + 1..];
  }

  /** An entry of a sequence with distinct ids occurs in it once. */
  lemma DistinctCount(s: seq<Scored>, a: nat)
    requires DistinctIds(s)
    requires a < |s|
    ensures multiset(s)[s[a]] == 1
  {
    var before, after := s[..a], s[a + 1..];
    assert s == before + [s[a]] + after;
    forall i | 0 <= i < |before| ensures before[i] != s[a] {
      assert before[i].id == s[i].id;
    }
    forall i | 0 <= i < |after| ensures after[i] != s[a] {
      assert after[i].id == s[a + 1 + i].id;
    }
    assert s[a] !in before;
    assert s[a] !in after;
  }

  /**
   Selecting from a table with distinct ids: every kept entry is an entry of
   the table, the ids stay distinct, and no table entry whose id was dropped
   scores above a kept one.
   */
  lemma TopOfTable(selection: Selection, k: int, t: seq<Scored>)
    requires DistinctIds(t)
    requires k >= 0
    ensures forall e :: e in Top(selection, k, t) ==> e in t
    ensures DistinctIds(Top(selection, k, t))
    ensures forall e, y :: e in Top(selection, k, t) && y in t && y.id !in Ids(Top(selection, k, t)) ==> y.score <= e.score
  {
    TopKeepsLargest(selection, k, t);
    TopDistinct(selection, k, t);
    KeptAbove(Top(selection, k, t), t);
  }

  /**
   The selection from a score table with distinct ids, against the table's
   score function: min(k, |t|) entries of the table with their scores, best
   first, each id once, and no id left out scores above a kept entry.
   */
  lemma TopRanked(selection: Selection, k: nat, t: seq<Scored>, score: map<int, real>)
    requires DistinctIds(t)
    requires forall e :: e in t ==> e.id in score && score[e.id] == e.score
    ensures |Top(selection, k, t)| == if k < |t| then k else |t|
    ensures Descending(Top(selection, k, t))
    ensures DistinctIds(Top(selection, k, t))
    ensures forall e :: e in Top(selection, k, t) ==> e.id in Ids(t) && score[e.id] == e.score
    ensures forall e, m :: e in Top(selection, k, t) && m in Ids(t) && m !in Ids(Top(selection, k, t)) ==>
              m in score && score[m] <= e.score
  {
    TopShape(selection, k, t);
    TopOfTable(selection, k, t);
    MembersScored(Top(selection, k, t), t, score);
    LeftOutScored(Top(selection, k, t), t, score);
  }

  /** The selection keeps min(k, |s|) entries, best first. */
  lemma TopShape(selection: Selection, k: nat, s: seq<Scored>)
    ensures |Top(selection, k, s)| == if k < |s| then k else |s|
    ensures Descending(Top(selection, k, s))
  {
    TopKeepsLargest(selection, k, s);
  }

  /** Entries taken from a consistently scored table carry their ids' scores. */
  lemma MembersScored(r: seq<Scored>, t: seq<Scored>, score: map<int, real>)
    requires forall e :: e in r ==> e in t
    requires forall e :: e in t ==> e.id in score && score[e.id] == e.score
    ensures forall e :: e in r ==> e.id in Ids(t) && score[e.id] == e.score
  {
    forall e | e in r ensures e.id in Ids(t) {
      var i :| 0 <= i < |t| && t[i] == e;
      assert Ids(t)[i] == e.id;
    }
  }

  /** An id of the table left out of r scores no higher than any entry of r. */
  lemma LeftOutScored(r: seq<Scored>, t: seq<Scored>, score: map<int, real>)
    requires forall e :: e in t ==> e.id in score && score[e.id] == e.score
    requires forall e, y :: e in r && y in t && y.id !in Ids(r) ==> y.score <= e.score
    ensures forall e, m :: e in r && m in Ids(t) && m !in Ids(r) ==> m in score && score[m] <= e.score
  {
    forall e, m | e in r && m in Ids(t) && m !in Ids(r) ensures m in score && score[m] <= e.score {
      var i :| 0 <= i < |t| && Ids(t)[i] == m;
      assert t[i] in t;
    }
  }

  /** The multiset form of "kept above dropped" stated over entries and ids. */
  lemma KeptAbove(r: seq<Scored>, t: seq<Scored>)
    requires multiset(r) <= multiset(t)
    requires forall i, y :: 0 <= i < |r| && y in multiset(t) - multiset(r) ==> r[i].score >= y.score
    ensures forall e :: e in r ==> e in t
    ensures forall e, y :: e in r && y in t && y.id !in Ids(r) ==> y.score <= e.score
  {
    forall e | e in r ensures e in t {
      assert e in multiset(r);
    }
    forall e, y | e in r && y in t && y.id !in Ids(r) ensures y.score <= e.score {
      var i :| 0 <= i < |r| && r[i] == e;
      assert y in multiset(t) - multiset(r);
    }
  }
}
