/**
 Titles as keyword lists: `str.split()` with no separator, and the
 substring count `str.count`.
 */
module Titles {

  /**
   The characters `str.split()` treats as separators among the 8-bit ones:
   space, tab, line feed, vertical tab, form feed, carriage return, the four
   information separators 0x1C-0x1F, next line 0x85 and the no-break space
   0xA0.
   */
  predicate IsSpace(c: char)
  {
    var n := c as int;
    n == 0x20 || 0x09 <= n <= 0x0D || 0x1C <= n <= 0x1F || n == 0x85 || n == 0xA0
  }

  /** A string without separators. */
  predicate NoSpace(w: string)
  {
    forall i :: 0 <= i < |w| ==> !IsSpace(w[i])
  }

  /** w occurs in s at position p. */
  predicate MatchesAt(w: string, s: string, p: int)
  {
    0 <= p && p + |w| <= |s| && s[p..p + |w|] == w
  }

  /** w occurs in s as a substring. */
  predicate Occurs(w: string, s: string)
  {
    exists p :: 0 <= p <= |s| && MatchesAt(w, s, p)
  }

  /** A substring of a suffix is a substring. */
  lemma OccursInSuffix(w: string, s: string, d: nat)
    requires d <= |s| && Occurs(w, s[d..])
    ensures Occurs(w, s)
  {
    var p :| 0 <= p <= |s[d..]| && MatchesAt(w, s[d..], p);
    assert s[d + p..d + p + |w|] == w;
    assert MatchesAt(w, s, d + p);
  }

  /** The longest prefix of s without separators. */
  function WordAt(s: string): (w: string)
    ensures |w| <= |s| && w == s[..|w|]
    ensures NoSpace(w)
    ensures |w| < |s| ==> IsSpace(s[|w|])
  {
    if s == [] || IsSpace(s[0]) then [] else [s[0]] + WordAt(s[1..])
  }

  /** `s.split()`: the maximal runs of non-separators, in order. */
  function Split(s: string): (r: seq<string>)
    ensures forall w :: w in r ==> |w| > 0 && NoSpace(w) && Occurs(w, s)
    decreases |s|
  {
    if s == [] then []
    else if IsSpace(s[0]) then
      var rest := Split(s[1..]);
      forall w | w in rest ensures Occurs(w, s) {
        OccursInSuffix(w, s, 1);
      }
      rest
    else
      var w := WordAt(s);
      var rest := Split(s[|w|..]);
      forall v | v in rest ensures Occurs(v, s) {
        OccursInSuffix(v, s, |w|);
      }
      assert MatchesAt(w, s, 0);
      [w] + rest
  }

  /** The words joined by single spaces, `" ".join(words)`. */
  function Join(words: seq<string>): string
  {
    if words == [] then []
    else if |words| == 1 then words[0]
    else words[0] + " " + Join(words[1..])
  }

  /** The word at the front of a word followed by a separator or by nothing. */
  lemma {:induction false} WordAtFront(w: string, rest: string)
    requires NoSpace(w)
    requires rest == [] || IsSpace(rest[0])
    ensures WordAt(w + rest) == w
  {
    if w != [] {
      assert (w + rest)[1..] == w[1..] + rest;
      WordAtFront(w[1..], rest);
    }
  }

  /** A word followed by a separator or by nothing is split off first. */
  lemma SplitAfterWord(w: string, rest: string)
    requires |w| > 0 && NoSpace(w)
    requires rest == [] || IsSpace(rest[0])
    ensures Split(w + rest) == [w] + Split(rest)
  {
    WordAtFront(w, rest);
    assert (w + rest)[|w|..] == rest;
  }

  /** A leading separator is skipped. */
  lemma SplitAfterSpace(rest: string)
    ensures Split(" " + rest) == Split(rest)
  {
    assert (" " + rest)[1..] == rest;
  }

  /** Splitting words joined by spaces gives the words back, when they are non-empty and hold no separator. */
  lemma {:induction false} SplitJoin(words: seq<string>)
    requires forall i :: 0 <= i < |words| ==> |words[i]| > 0 && NoSpace(words[i])
    ensures Split(Join(words)) == words
  {
    if |words| == 1 {
      SplitAfterWord(words[0], []);
      assert words[0] + [] == words[0];
    } else if |words| > 1 {
      TailWords(words);
      SplitJoin(words[1..]);
      JoinStep(words);
    }
  }

  /** One step of `SplitJoin`: the first word is split off, and the rest splits back into the other words. */
  lemma JoinStep(words: seq<string>)
    requires |words| > 1 && |words[0]| > 0 && NoSpace(words[0])
    requires Split(Join(words[1..])) == words[1..]
    ensures Split(Join(words)) == words
  {
    SplitAfterSeparator(words[0], Join(words[1..]));
    assert words == [words[0]] + words[1..];
  }

  /** The words after the first are non-empty and hold no separator when all the words do. */
  lemma TailWords(words: seq<string>)
    requires |words| > 0
    requires forall i :: 0 <= i < |words| ==> |words[i]| > 0 && NoSpace(words[i])
    ensures forall i :: 0 <= i < |words[1..]| ==> |words[1..][i]| > 0 && NoSpace(words[1..][i])
  {
    forall i | 0 <= i < |words[1..]| ensures |words[1..][i]| > 0 && NoSpace(words[1..][i]) {
      assert words[1..][i] == words[i + 1];
    }
  }

  /** A word, a space and more text split into the word followed by the split of the text. */
  lemma SplitAfterSeparator(w: string, tail: string)
    requires |w| > 0 && NoSpace(w)
    ensures Split(w + " " + tail) == [w] + Split(tail)
  {
    assert w + " " + tail == w + (" " + tail);
    SplitAfterWord(w, " " + tail);
    SplitAfterSpace(tail);
  }

  /**
   `s.count(sub)`: the non-overlapping occurrences of sub, scanned from the
   left; an empty sub counts the |s| + 1 positions between characters.
   */
  function Count(s: string, sub: string): nat
    decreases |s|
  {
    if |sub| == 0 then |s| + 1
    else if |s| < |sub| then 0
    else if s[..|sub|] == sub then 1 + Count(s[|sub|..], sub)
    else Count(s[1..], sub)
  }

  /** A non-empty sub is counted at least once exactly when it occurs. */
  lemma {:induction false} CountOccurs(s: string, sub: string)
    requires |sub| > 0
    ensures Count(s, sub) >= 1 <==> Occurs(sub, s)
    decreases |s|
  {
    if |s| >= |sub| {
      if s[..|sub|] == sub {
        assert MatchesAt(sub, s, 0);
      } else {
        CountOccurs(s[1..], sub);
        if Occurs(sub, s) {
          var p :| 0 <= p <= |s| && MatchesAt(sub, s, p);
          assert p != 0;
          assert s[1..][p - 1..p - 1 + |sub|] == sub;
          assert MatchesAt(sub, s[1..], p - 1);
        }
        if Occurs(sub, s[1..]) {
          OccursInSuffix(sub, s, 1);
        }
      }
    }
  }

  /** A word of a title is counted at least once in it. */
  lemma WordCounted(title: string, w: string)
    requires w in Split(title)
    ensures Count(title, w) >= 1
  {
    CountOccurs(title, w);
  }
}
