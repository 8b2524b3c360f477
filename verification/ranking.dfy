/**
 The ranking step of `recommend`:
 `sorted(list(enumerate(distances)), reverse=True, key=lambda x: x[1])[1:6]`.
 A similarity row is enumerated into (position, score) entries, sorted by
 descending score with Python's stable sort, and the window [1:6] of the
 ranking is kept.
 */
module Ranking {
  import opened Wrappers

  /** A similarity score; only its order matters, so no floating point is modelled. */
  type Score = real

  /** One item of `enumerate(distances)`: a catalog position and its score. */
  datatype Entry = Entry(index: nat, score: Score)

  /** The entry that `enumerate` produces for position p of the row. */
  function At(row: seq<Score>, p: nat): Entry
    requires p < |row|
  {
    Entry(p, row[p])
  }

  /**
   `list(enumerate(row))`: one entry per position, positions ascending, each
   paired with its own score.
   */
  function Enumerate(row: seq<Score>): (e: seq<Entry>)
    ensures |e| == |row|
    ensures IndicesAscend(e)
    ensures forall k :: 0 <= k < |e| ==> e[k].index < |row| && e[k].score == row[e[k].index]
    ensures forall p :: 0 <= p < |row| ==> p in Positions(e)
  {
    var e := seq(|row|, p requires 0 <= p < |row| => At(row, p));
    assert forall p :: 0 <= p < |row| ==> p in Positions(e) by {
      forall p | 0 <= p < |row|
        ensures p in Positions(e)
      {
        assert Positions(e)[p] == p;
      }
    }
    e
  }

  /** The positions carried by a sequence of entries, in the same order. */
  function Positions(t: seq<Entry>): seq<nat>
  {
    seq(|t|, k requires 0 <= k < |t| => t[k].index)
  }

  /**
   `a` ranks strictly ahead of `b`: a higher score, or an equal score and an
   earlier position (the stable sort keeps enumerate's ascending order on ties).
   */
  predicate Ahead(a: Entry, b: Entry)
  {
    a.score > b.score || (a.score == b.score && a.index < b.index)
  }

  /** Every entry ranks strictly ahead of every later one. */
  predicate Ranked(t: seq<Entry>)
  {
    forall i, j :: 0 <= i < j < |t| ==> Ahead(t[i], t[j])
  }

  /** Positions strictly ascend along the sequence, as they do in `enumerate`'s output. */
  predicate IndicesAscend(s: seq<Entry>)
  {
    forall i, j :: 0 <= i < j < |s| ==> s[i].index < s[j].index
  }

  /**
   Places `x` in front of the first entry whose score does not exceed its own,
   so that `x` stays ahead of the equal-scored entries that followed it in the input.
   */
  function Insert(x: Entry, t: seq<Entry>): (r: seq<Entry>)
    ensures multiset(r) == multiset(t) + multiset{x}
  {
    if |t| == 0 || t[0].score <= x.score then [x] + t
    else
      assert t == [t[0]] + t[1..];
      [t[0]] + Insert(x, t[1..])
  }

  /**
   `sorted(s, key=score, reverse=True)`: a stable sort by descending score,
   written as an insertion sort.
   */
  function SortDescending(s: seq<Entry>): (r: seq<Entry>)
    ensures multiset(r) == multiset(s)
  {
    if |s| == 0 then []
    else
      assert s == [s[0]] + s[1..];
      Insert(s[0], SortDescending(s[1..]))
  }

  /** Inserting an entry whose position precedes all of a ranked sequence keeps it ranked. */
  lemma {:induction false} InsertRanked(x: Entry, t: seq<Entry>)
    requires Ranked(t)
    requires forall k :: 0 <= k < |t| ==> x.index < t[k].index
    ensures Ranked(Insert(x, t))
  {
    if |t| == 0 || t[0].score <= x.score {
      forall k | 0 <= k < |t|
        ensures Ahead(x, t[k])
      {
        if k > 0 {
          assert Ahead(t[0], t[k]);
        }
      }
      var r := [x] + t;
      forall i, j | 0 <= i < j < |r|
        ensures Ahead(r[i], r[j])
      {
        if i > 0 {
          assert r[i] == t[i - 1] && r[j] == t[j - 1];
        } else {
          assert r[j] == t[j - 1];
        }
      }
    } else {
      var tail := t[1..];
      InsertRanked(x, tail);
      var rest := Insert(x, tail);
      forall k | 0 <= k < |rest|
        ensures Ahead(t[0], rest[k])
      {
        assert rest[k] in multiset(rest);
        if rest[k] != x {
          assert rest[k] in multiset(tail);
          var j :| 0 <= j < |tail| && tail[j] == rest[k];
          assert Ahead(t[0], t[j + 1]);
        }
      }
      var r := [t[0]] + rest;
      forall i, j | 0 <= i < j < |r|
        ensures Ahead(r[i], r[j])
      {
        if i > 0 {
          assert r[i] == rest[i - 1] && r[j] == rest[j - 1];
        } else {
          assert r[j] == rest[j - 1];
        }
      }
    }
  }

  /**
   Stability: sorting entries whose positions ascend yields a sequence ranked by
   descending score with ties in ascending position.
   */
  lemma {:induction false} SortRanked(s: seq<Entry>)
    requires IndicesAscend(s)
    ensures Ranked(SortDescending(s))
  {
    if |s| > 0 {
      var tail := s[1..];
      SortRanked(tail);
      var t := SortDescending(tail);
      forall k | 0 <= k < |t|
        ensures s[0].index < t[k].index
      {
        assert t[k] in multiset(t);
        var j :| 0 <= j < |tail| && tail[j] == t[k];
        assert tail[j] == s[j + 1];
      }
      InsertRanked(s[0], t);
    }
  }

  /**
   The full ranking of a similarity row: a permutation of the row's positions,
   each paired with its own score, ordered by descending score with ties in
   ascending position.
   */
  function Rank(row: seq<Score>): (r: seq<Entry>)
    ensures |r| == |row|
    ensures Ranked(r)
    ensures forall k :: 0 <= k < |r| ==> r[k].index < |row| && r[k].score == row[r[k].index]
    ensures forall p :: 0 <= p < |row| ==> p in Positions(r)
    ensures forall i, j :: 0 <= i < j < |r| ==> r[i].index != r[j].index
  {
    var e := Enumerate(row);
    SortRanked(e);
    RankIsPermutation(row, e, SortDescending(e));
    SortDescending(e)
  }

  /** A reordering of `enumerate(row)` pairs each position with its score and misses none. */
  lemma RankIsPermutation(row: seq<Score>, e: seq<Entry>, r: seq<Entry>)
    requires e == Enumerate(row)
    requires multiset(r) == multiset(e)
    ensures |r| == |row|
    ensures forall k :: 0 <= k < |r| ==> r[k].index < |row| && r[k].score == row[r[k].index]
    ensures forall p :: 0 <= p < |row| ==> p in Positions(r)
  {
    assert |r| == |multiset(r)| == |multiset(e)| == |e|;
    forall k | 0 <= k < |r|
      ensures r[k].index < |row| && r[k].score == row[r[k].index]
    {
      assert r[k] in multiset(r);
      var p :| 0 <= p < |e| && e[p] == r[k];
    }
    forall p | 0 <= p < |row|
      ensures p in Positions(r)
    {
      assert e[p] in multiset(e);
      var k :| 0 <= k < |r| && r[k] == e[p];
      assert Positions(r)[k] == p;
    }
  }

  /**
   Python's slice `s[lo:hi]` for non-negative bounds: both bounds are clamped to
   the length, and a start past the end yields nothing.
   */
  function Window<T>(s: seq<T>, lo: nat, hi: nat): (r: seq<T>)
    ensures |r| == if Min(hi, |s|) <= lo then 0 else Min(hi, |s|) - lo
    ensures forall k :: 0 <= k < |r| ==> r[k] == s[lo + k]
  {
    var end := Min(hi, |s|);
    if end <= lo then [] else s[lo..end]
  }

  /** First position kept by the slice `[1:6]`: the head of the ranking is skipped. */
  const KeepFrom: nat := 1
  /** End (exclusive) of the slice `[1:6]`. */
  const KeepUntil: nat := 6

  /**
   The positions that `recommend` keeps from a similarity row: at most five, in
   range, pairwise distinct, in ranking order, and never the head of the ranking.
   */
  function Picks(row: seq<Score>): (r: seq<nat>)
    ensures forall k :: 0 <= k < |r| ==> r[k] < |row|
    ensures |r| == if |row| == 0 then 0 else Min(KeepUntil - KeepFrom, |row| - 1)
    ensures forall i, j :: 0 <= i < j < |r| ==> Ahead(At(row, r[i]), At(row, r[j]))
    ensures forall i, j :: 0 <= i < j < |r| ==> r[i] != r[j]
    ensures |row| > 0 ==> Head(row) !in r
  {
    Positions(Window(Rank(row), KeepFrom, KeepUntil))
  }

  /**
   The position the ranking puts first, which the slice drops: the best-scored
   position, the earliest among equals.
   */
  function Head(row: seq<Score>): (h: nat)
    requires |row| > 0
    ensures h < |row|
    ensures forall p :: 0 <= p < |row| && p != h ==> Ahead(At(row, h), At(row, p))
  {
    var r := Rank(row);
    assert forall p :: 0 <= p < |row| && p != r[0].index ==> Ahead(At(row, r[0].index), At(row, p)) by {
      forall p | 0 <= p < |row| && p != r[0].index
        ensures Ahead(At(row, r[0].index), At(row, p))
      {
        assert p in Positions(r);
        var k :| 0 <= k < |r| && Positions(r)[k] == p;
        assert r[k] == At(row, p);
        assert r[0] == At(row, r[0].index);
      }
    }
    r[0].index
  }

  /** Entry k of the picks is the entry ranked k + 1. */
  lemma PicksFollowRank(row: seq<Score>, k: nat)
    requires k < |Picks(row)|
    ensures k + 1 < |row| && Picks(row)[k] == Rank(row)[k + 1].index
  {
  }

  /** Adjacent picks never increase in score, and equal scores appear in ascending position. */
  lemma PicksNonIncreasing(row: seq<Score>)
    ensures forall k :: 0 <= k < |Picks(row)| - 1 ==> row[Picks(row)[k]] >= row[Picks(row)[k + 1]]
    ensures forall k :: 0 <= k < |Picks(row)| - 1 && row[Picks(row)[k]] == row[Picks(row)[k + 1]] ==>
      Picks(row)[k] < Picks(row)[k + 1]
  {
  }

  /**
   Top-k: every position other than the head that is not picked ranks behind
   every pick, so the picks are the best five after the head.
   */
  lemma PicksAreBest(row: seq<Score>, p: nat)
    requires p < |row|
    requires p != Head(row)
    requires p !in Picks(row)
    ensures forall k :: 0 <= k < |Picks(row)| ==> Ahead(At(row, Picks(row)[k]), At(row, p))
  {
    var r := Rank(row);
    var picks := Picks(row);
    assert p in Positions(r);
    var j :| 0 <= j < |r| && Positions(r)[j] == p;
    assert r[j] == At(row, p);
    assert j != 0;
    if j <= |picks| {
      PicksFollowRank(row, j - 1);
      assert false;
    }
    forall k | 0 <= k < |picks|
      ensures Ahead(At(row, picks[k]), At(row, p))
    {
      PicksFollowRank(row, k);
      assert r[k + 1] == At(row, picks[k]);
    }
  }

  /**
   When the query's own score beats every other score of its row, the query is
   the head of the ranking, which the slice drops.
   */
  lemma SelfExcludedWhenStrictMaximum(row: seq<Score>, q: nat)
    requires q < |row|
    requires forall p :: 0 <= p < |row| && p != q ==> row[p] < row[q]
    ensures q !in Picks(row)
  {
  }

  /**
   Dropping the head is not dropping the query: with a tie at the top of the row
   of position 1, position 0 is the head and the query itself is recommended.
   */
  lemma QueryKeptOnTopTie()
    ensures Picks([1.0, 1.0]) == [1]
  {
  }
}
