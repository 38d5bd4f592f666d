/** Points, levels, game speed and the five-entry high-score table. */
module Scoring {

  const FoodPoints: int := 10
  const BonusPoints: int := 50
  const PointsPerLevel: int := 50
  const BaseFps: int := 10
  /** Ticks per second gained with each level. */
  const FpsPerLevel: int := 2
  const MaxHighScores: nat := 5

  function Max(a: int, b: int): int {
    if a >= b then a else b
  }

  function Min(a: int, b: int): int {
    if a <= b then a else b
  }

  /** The level is the number of 50-point bands the leading score has
      reached, counting from 1. */
  function Level(score1: int, score2: int): (r: int)
    ensures PointsPerLevel * (r - 1) <= Max(score1, score2) < PointsPerLevel * r
  {
    1 + Max(score1, score2) / PointsPerLevel
  }

  /** Ticks per second at a level. */
  function Fps(level: int): int {
    BaseFps + (level - 1) * FpsPerLevel
  }

  /** The speed only depends on the leader and never drops as the lead
      score grows: whoever is ahead sets the pace for both players. */
  lemma LeaderSetsPace(s1: int, s2: int, t1: int, t2: int)
    requires Max(s1, s2) <= Max(t1, t2)
    ensures Level(s1, s2) <= Level(t1, t2)
    ensures Fps(Level(s1, s2)) <= Fps(Level(t1, t2))
  {
  }

  /** Non-negative scores give level 1 or more and at least the base speed. */
  lemma LevelFloor(s1: int, s2: int)
    requires 0 <= s1 && 0 <= s2
    ensures Level(s1, s2) >= 1 && Fps(Level(s1, s2)) >= BaseFps
  {
  }

  predicate SortedDesc(s: seq<int>) {
    forall i, j :: 0 <= i < j < |s| ==> s[i] >= s[j]
  }

  /** Places `x` in front of the first entry it is at least as large as. */
  function Insert(x: int, s: seq<int>): seq<int> {
    if s == [] || x >= s[0] then [x] + s else [s[0]] + Insert(x, s[1..])
  }

  /** Inserting into a descending list keeps it descending and adds exactly
      one occurrence of `x`. */
  lemma {:induction false} InsertSorted(x: int, s: seq<int>)
    requires SortedDesc(s)
    ensures SortedDesc(Insert(x, s))
    ensures multiset(Insert(x, s)) == multiset(s) + multiset{x}
  {
    if s != [] && x < s[0] {
      InsertSorted(x, s[1..]);
      assert s == [s[0]] + s[1..];
      BelowHead(s, x, Insert(x, s[1..]));
    }
  }

  /** What Insert builds behind the head of `s` stays below that head, so the
      head may stay in front. */
  lemma BelowHead(s: seq<int>, x: int, rest: seq<int>)
    requires |s| > 0 && SortedDesc(s) && x < s[0]
    requires SortedDesc(rest) && multiset(rest) == multiset(s[1..]) + multiset{x}
    ensures SortedDesc([s[0]] + rest)
  {
    forall y | y in rest
      ensures y <= s[0]
    {
      assert y in multiset(rest);
      if y != x {
        assert y in multiset(s[1..]);
        assert y in s[1..];
      }
    }
    var r := [s[0]] + rest;
    forall i, j | 0 <= i < j < |r|
      ensures r[i] >= r[j]
    {
      assert r[j] == rest[j - 1] && rest[j - 1] in rest;
      if i > 0 {
        assert r[i] == rest[i - 1];
      }
    }
  }

  /** Insertion sort into descending order. */
  function SortDesc(s: seq<int>): seq<int> {
    if s == [] then [] else Insert(s[0], SortDesc(s[1..]))
  }

  /** SortDesc returns a descending rearrangement of its input. */
  lemma {:induction false} SortDescCorrect(s: seq<int>)
    ensures SortedDesc(SortDesc(s))
    ensures multiset(SortDesc(s)) == multiset(s)
  {
    if s != [] {
      SortDescCorrect(s[1..]);
      InsertSorted(s[0], SortDesc(s[1..]));
      assert s == [s[0]] + s[1..];
    }
  }

  /** The high-score table after recording `score`: append it, sort the list
      descending and keep the first five entries. */
  function WithScore(scores: seq<int>, score: int): seq<int> {
    var all := SortDesc(scores + [score]);
    all[..Min(MaxHighScores, |all|)]
  }

  /** The table keeps the five largest entries of the old table and the new
      score (fewer if there are fewer), in descending order. */
  lemma WithScoreTopFive(scores: seq<int>, score: int)
    ensures var r := WithScore(scores, score);
      |r| == Min(MaxHighScores, |scores| + 1) &&
      SortedDesc(r) &&
      multiset(r) <= multiset(scores + [score]) &&
      forall x, y :: x in multiset(scores + [score]) - multiset(r) && y in r ==> x <= y
  {
    var all := SortDesc(scores + [score]);
    SortDescCorrect(scores + [score]);
    assert |all| == |multiset(all)| == |scores| + 1;
    TopKeepsLargest(all, Min(MaxHighScores, |all|));
  }

  /** In a descending list, a prefix holds the largest entries: each entry
      cut off is at most each entry kept. */
  lemma TopKeepsLargest(s: seq<int>, n: nat)
    requires SortedDesc(s) && n <= |s|
    ensures SortedDesc(s[..n])
    ensures multiset(s[..n]) <= multiset(s)
    ensures forall x, y :: x in multiset(s) - multiset(s[..n]) && y in s[..n] ==> x <= y
  {
    assert s == s[..n] + s[n..];
    assert multiset(s) - multiset(s[..n]) == multiset(s[n..]);
    forall x, y | x in multiset(s) - multiset(s[..n]) && y in s[..n]
      ensures x <= y
    {
      assert x in s[n..];
      var j :| n <= j < |s| && s[j] == x;
      var i :| 0 <= i < n && s[i] == y;
    }
  }
}
