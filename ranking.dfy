/**
 * The ranking step `listResults.sort(Comparator.reverseOrder())`: a stable sort of the
 * results, highest composite score first, where results with equal composite scores keep
 * the order in which they were added.
 */
module Ranking {
  import opened CompareResults

  /** Highest composite score first. */
  predicate RankedDesc(s: seq<CompareResult>)
    reads s
  {
    forall k, l :: 0 <= k < l < |s| ==> s[k].Composite() >= s[l].Composite()
  }

  /** `[o]` when `o` has composite score `score`, otherwise nothing. */
  function Pick(o: CompareResult, score: real): seq<CompareResult>
    reads o
  {
    if o.Composite() == score then [o] else []
  }

  /** The results whose composite score is `score`, in list order. */
  function WithScore(s: seq<CompareResult>, score: real): seq<CompareResult>
    reads s
  {
    if s == [] then [] else Pick(s[0], score) + WithScore(s[1..], score)
  }

  /**
   * Places `o` just before the first result that the reversed comparator does not put
   * ahead of it; `o` thus stays ahead of the results with the same composite score.
   */
  function Insert(o: CompareResult, s: seq<CompareResult>): (r: seq<CompareResult>)
    reads o, set x | x in s
    ensures multiset(r) == multiset(s) + multiset{o}
  {
    if s == [] then [o]
    else if o.CompareTo(s[0]) < 0 then
      assert s == [s[0]] + s[1..];
      [s[0]] + Insert(o, s[1..])
    else [o] + s
  }

  /** The list as `List.sort(Comparator.reverseOrder())` leaves it. */
  function Rank(s: seq<CompareResult>): (r: seq<CompareResult>)
    reads set x | x in s
    ensures multiset(r) == multiset(s)
  {
    if s == [] then []
    else
      var t := Rank(s[1..]);
      assert forall x | x in t :: x in multiset(s[1..]);
      assert s == [s[0]] + s[1..];
      Insert(s[0], t)
  }

  /** The first element after inserting is `o` itself, unless the first result is ahead of it. */
  lemma InsertHead(o: CompareResult, s: seq<CompareResult>)
    ensures Insert(o, s)[0] == if s != [] && o.CompareTo(s[0]) < 0 then s[0] else o
  {
  }

  lemma RankedTail(s: seq<CompareResult>)
    requires s != [] && RankedDesc(s)
    ensures RankedDesc(s[1..])
  {
    var tail := s[1..];
    forall k, l | 0 <= k < l < |tail|
      ensures tail[k].Composite() >= tail[l].Composite()
    {
      assert tail[k] == s[k + 1] && tail[l] == s[l + 1];
    }
  }

  /** A ranked list stays ranked when a result at least as high as its head goes in front. */
  lemma RankedCons(x: CompareResult, t: seq<CompareResult>)
    requires RankedDesc(t)
    requires t != [] ==> x.Composite() >= t[0].Composite()
    ensures RankedDesc([x] + t)
  {
    var r := [x] + t;
    forall k, l | 0 <= k < l < |r|
      ensures r[k].Composite() >= r[l].Composite()
    {
      if k == 0 {
        assert r[l] == t[l - 1];
        assert t[0].Composite() >= t[l - 1].Composite();
      } else {
        assert r[k] == t[k - 1] && r[l] == t[l - 1];
      }
    }
  }

  lemma {:induction false} InsertRanked(o: CompareResult, s: seq<CompareResult>)
    requires RankedDesc(s)
    ensures RankedDesc(Insert(o, s))
  {
    if s != [] && o.CompareTo(s[0]) < 0 {
      var tail := s[1..];
      RankedTail(s);
      InsertRanked(o, tail);
      InsertHead(o, tail);
      if tail != [] && o.CompareTo(tail[0]) < 0 {
        assert tail[0] == s[1];
      }
      RankedCons(s[0], Insert(o, tail));
    } else {
      RankedCons(o, s);
    }
  }

  /** The ranked list is ordered with the highest composite score first. */
  lemma {:induction false} RankRanked(s: seq<CompareResult>)
    ensures RankedDesc(Rank(s))
  {
    if s != [] {
      RankRanked(s[1..]);
      InsertRanked(s[0], Rank(s[1..]));
    }
  }

  lemma WithScoreCons(o: CompareResult, s: seq<CompareResult>, score: real)
    ensures WithScore([o] + s, score) == Pick(o, score) + WithScore(s, score)
  {
    assert ([o] + s)[1..] == s;
  }

  lemma PickSwap(a: CompareResult, b: CompareResult, score: real, w: seq<CompareResult>)
    requires a.Composite() != b.Composite()
    ensures Pick(b, score) + (Pick(a, score) + w) == Pick(a, score) + (Pick(b, score) + w)
  {
  }

  /** Inserting keeps `o` ahead of every result with the same score. */
  lemma {:induction false} InsertStable(o: CompareResult, s: seq<CompareResult>, score: real)
    ensures WithScore(Insert(o, s), score) == Pick(o, score) + WithScore(s, score)
  {
    if s == [] {
      WithScoreCons(o, [], score);
    } else if o.CompareTo(s[0]) < 0 {
      InsertStable(o, s[1..], score);
      InsertStableBehind(o, s, score);
    } else {
      WithScoreCons(o, s, score);
    }
  }

  /** When `o` goes behind the head, the head and `o` cannot have the same score. */
  lemma InsertStableBehind(o: CompareResult, s: seq<CompareResult>, score: real)
    requires s != [] && o.CompareTo(s[0]) < 0
    requires WithScore(Insert(o, s[1..]), score) == Pick(o, score) + WithScore(s[1..], score)
    ensures WithScore(Insert(o, s), score) == Pick(o, score) + WithScore(s, score)
  {
    var t := Insert(o, s[1..]);
    calc {
      WithScore(Insert(o, s), score);
      { assert Insert(o, s) == [s[0]] + t; }
      WithScore([s[0]] + t, score);
      { WithScoreCons(s[0], t, score); }
      Pick(s[0], score) + WithScore(t, score);
      Pick(s[0], score) + (Pick(o, score) + WithScore(s[1..], score));
      { PickSwap(o, s[0], score, WithScore(s[1..], score)); }
      Pick(o, score) + (Pick(s[0], score) + WithScore(s[1..], score));
      { WithScoreCons(s[0], s[1..], score); assert [s[0]] + s[1..] == s; }
      Pick(o, score) + WithScore(s, score);
    }
  }

  /**
   * The sort is stable: for every composite score, the results with that score appear in
   * the ranked list in the same order as in the original list.
   */
  lemma {:induction false} RankStable(s: seq<CompareResult>, score: real)
    ensures WithScore(Rank(s), score) == WithScore(s, score)
  {
    if s != [] {
      RankStable(s[1..], score);
      InsertStable(s[0], Rank(s[1..]), score);
      WithScoreCons(s[0], s[1..], score);
      assert [s[0]] + s[1..] == s;
    }
  }

  /** A list already ranked, such as one of equal scores, is left as it is. */
  lemma {:induction false} RankRankedUnchanged(s: seq<CompareResult>)
    requires RankedDesc(s)
    ensures Rank(s) == s
  {
    if s != [] {
      RankedTail(s);
      RankRankedUnchanged(s[1..]);
      if |s| > 1 {
        assert s[0].Composite() >= s[1].Composite();
      }
      assert [s[0]] + s[1..] == s;
    }
  }
}
