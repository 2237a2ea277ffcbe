/**
 * The `Compare` constructor as a whole: the sweep over every ordered pair of files, the
 * update of the column widths, the row separator, and the ranking of the results. What
 * it prints is not modelled; the outcome holds what the table is made of.
 */
module Comparison {
  import opened Wrappers
  import opened CompareResults
  import opened Ranking
  import opened Layout
  import opened Sweep

  /**
   * The end of a run: aborted at the first pair whose files could not be read (the program
   * prints both paths and calls `System.exit(0)`), or completed with the ranked results
   * and the separator printed between the rows of the table.
   */
  datatype Outcome =
    | Aborted(source: Path, destination: Path)
    | Completed(ranked: seq<CompareResult>, rowSeparator: string)

  /** The scan of every pair a < b of positions, in the row-major order of the sweep. */
  function Swept(env: Env, paths: seq<Path>): Scan
  {
    IndexPairsInRange(|paths|, |paths|);
    ScoreAll(env, paths, IndexPairs(|paths|, |paths|))
  }

  /** The state the sweep ends in is the scan of every pair. */
  lemma SweptIsFinal(env: Env, paths: seq<Path>, entries: seq<Entry>, failed: Option<(nat, nat)>)
    requires Reached(env, paths, |paths|, 0, entries, failed)
    ensures Swept(env, paths) == Scan(entries, failed)
  {
    FinalScan(env, paths, entries, failed);
  }

  /**
   * A completed sweep holds, in row-major order of the positions, the scores of the pair
   * (paths[a], paths[b]) for each a < b.
   */
  lemma SweptEntries(env: Env, paths: seq<Path>)
    requires Swept(env, paths).failedAt.None?
    ensures var es, ps := Swept(env, paths).entries, IndexPairs(|paths|, |paths|);
      && LexSorted(ps)
      && |es| == |ps|
      && forall k :: 0 <= k < |ps| ==>
           ps[k].0 < ps[k].1 < |paths| && Score(env, paths[ps[k].0], paths[ps[k].1]) == Some(es[k])
  {
    var n := |paths|;
    var ps := IndexPairs(n, n);
    IndexPairsInRange(n, n);
    IndexPairsSorted(n, n);
    ScoreAllSucceeded(env, paths, ps);
    forall k | 0 <= k < |ps|
      ensures ps[k].0 < ps[k].1 < n
    {
      IndexPairsMember(n, n, ps[k]);
    }
  }

  /**
   * Entries that hold, in a strictly increasing order of positions a < b, the files
   * (paths[a], paths[b]) of distinct files: none pairs a file with itself and no two
   * hold the same unordered pair.
   */
  lemma {:induction false} DistinctPairs(paths: seq<Path>, ps: seq<(nat, nat)>, es: seq<Entry>)
    requires Distinct(paths) && LexSorted(ps) && |es| == |ps|
    requires forall k :: 0 <= k < |ps| ==>
      ps[k].0 < ps[k].1 < |paths| && es[k].first == paths[ps[k].0] && es[k].second == paths[ps[k].1]
    ensures forall k :: 0 <= k < |es| ==> es[k].first != es[k].second
    ensures forall k, l :: 0 <= k < l < |es| ==> !SamePair(es[k].first, es[k].second, es[l].first, es[l].second)
  {
    forall k | 0 <= k < |es|
      ensures es[k].first != es[k].second
    {
      DistinctAt(paths, ps[k].0, ps[k].1);
    }
    forall k, l | 0 <= k < l < |es|
      ensures !SamePair(es[k].first, es[k].second, es[l].first, es[l].second)
    {
      DistinctAt(paths, ps[k].0, ps[l].0);
      DistinctAt(paths, ps[k].0, ps[l].1);
      DistinctAt(paths, ps[k].1, ps[l].1);
      assert LexLess(ps[k], ps[l]);
    }
  }

  /**
   * `es` holds n (n - 1) / 2 results, one for each pair of distinct files: none pairs a
   * file with itself, no two are equal under `equals`, and every pair of positions a < b
   * has the result (paths[a], paths[b]).
   */
  predicate OnePerPairOf(paths: seq<Path>, es: seq<Entry>)
  {
    && 2 * |es| == |paths| * (|paths| - 1)
    && (forall k :: 0 <= k < |es| ==> es[k].first != es[k].second)
    && (forall k, l :: 0 <= k < l < |es| ==> !SamePair(es[k].first, es[k].second, es[l].first, es[l].second))
    && forall a: nat, b: nat :: a < b < |paths| ==>
         HasPair(paths, es, a, b)
  }

  /** Some entry holds the pair (paths[a], paths[b]) in that order. */
  predicate HasPair(paths: seq<Path>, es: seq<Entry>, a: nat, b: nat)
    requires a < |paths| && b < |paths|
  {
    exists k :: 0 <= k < |es| && es[k].first == paths[a] && es[k].second == paths[b]
  }

  /** A completed sweep over distinct files holds one result per pair of them. */
  lemma SweptOnePerPair(env: Env, paths: seq<Path>)
    requires Distinct(paths)
    requires Swept(env, paths).failedAt.None?
    ensures OnePerPairOf(paths, Swept(env, paths).entries)
  {
    SweptPaths(env, paths);
    OnePerPair(paths, Swept(env, paths).entries);
  }

  /** Entry k of a completed sweep holds the two files of the k-th pair a < b. */
  lemma SweptPaths(env: Env, paths: seq<Path>)
    requires Swept(env, paths).failedAt.None?
    ensures var es, ps := Swept(env, paths).entries, IndexPairs(|paths|, |paths|);
      && |es| == |ps|
      && forall k :: 0 <= k < |ps| ==>
           ps[k].0 < ps[k].1 < |paths| && es[k].first == paths[ps[k].0] && es[k].second == paths[ps[k].1]
  {
    var n := |paths|;
    var es, ps := Swept(env, paths).entries, IndexPairs(n, n);
    IndexPairsInRange(n, n);
    ScoreAllSucceeded(env, paths, ps);
    forall k | 0 <= k < |ps|
      ensures ps[k].0 < ps[k].1 < n && es[k].first == paths[ps[k].0] && es[k].second == paths[ps[k].1]
    {
      IndexPairsMember(n, n, ps[k]);
      assert Score(env, paths[ps[k].0], paths[ps[k].1]) == Some(es[k]);
    }
  }

  /** Entries that follow the list of all pairs a < b of distinct files hold one result per pair. */
  lemma OnePerPair(paths: seq<Path>, es: seq<Entry>)
    requires Distinct(paths)
    requires var ps := IndexPairs(|paths|, |paths|);
      && |es| == |ps|
      && forall k :: 0 <= k < |ps| ==>
           ps[k].0 < ps[k].1 < |paths| && es[k].first == paths[ps[k].0] && es[k].second == paths[ps[k].1]
    ensures OnePerPairOf(paths, es)
  {
    PairCount(|paths|);
    NoRepeatedPair(paths, es);
    AllPairsCovered(paths, es);
  }

  /** There are n (n - 1) / 2 pairs a < b < n. */
  lemma PairCount(n: nat)
    ensures 2 * |IndexPairs(n, n)| == n * (n - 1)
  {
    IndexPairsLength(n, n);
    assert 2 * n - n - 1 == n - 1;
  }

  /** Entries that follow the list of all pairs a < b hold a result for each of them. */
  lemma AllPairsCovered(paths: seq<Path>, es: seq<Entry>)
    requires var ps := IndexPairs(|paths|, |paths|);
      && |es| == |ps|
      && forall k :: 0 <= k < |ps| ==>
           ps[k].0 < ps[k].1 < |paths| && es[k].first == paths[ps[k].0] && es[k].second == paths[ps[k].1]
    ensures forall a: nat, b: nat :: a < b < |paths| ==>
      HasPair(paths, es, a, b)
  {
    forall a: nat, b: nat | a < b < |paths|
      ensures HasPair(paths, es, a, b)
    {
      PairCovered(paths, es, a, b);
    }
  }

  /** Entries that follow the list of all pairs a < b of distinct files repeat no pair. */
  lemma NoRepeatedPair(paths: seq<Path>, es: seq<Entry>)
    requires Distinct(paths)
    requires var ps := IndexPairs(|paths|, |paths|);
      && |es| == |ps|
      && forall k :: 0 <= k < |ps| ==>
           ps[k].0 < ps[k].1 < |paths| && es[k].first == paths[ps[k].0] && es[k].second == paths[ps[k].1]
    ensures forall k :: 0 <= k < |es| ==> es[k].first != es[k].second
    ensures forall k, l :: 0 <= k < l < |es| ==> !SamePair(es[k].first, es[k].second, es[l].first, es[l].second)
  {
    IndexPairsSorted(|paths|, |paths|);
    DistinctPairs(paths, IndexPairs(|paths|, |paths|), es);
  }

  /** The pair (paths[a], paths[b]) has its entry where (a, b) stands in the list of all pairs. */
  lemma PairCovered(paths: seq<Path>, es: seq<Entry>, a: nat, b: nat)
    requires a < b < |paths|
    requires var ps := IndexPairs(|paths|, |paths|);
      && |es| == |ps|
      && forall k :: 0 <= k < |ps| ==>
           ps[k].0 < ps[k].1 < |paths| && es[k].first == paths[ps[k].0] && es[k].second == paths[ps[k].1]
    ensures HasPair(paths, es, a, b)
  {
    var ps := IndexPairs(|paths|, |paths|);
    IndexPairsMember(|paths|, |paths|, (a, b));
    var k :| 0 <= k < |ps| && ps[k] == (a, b);
    assert es[k].first == paths[a] && es[k].second == paths[b];
  }

  /** A scan over increasing pairs that failed at ps[k] had read both files of every earlier pair. */
  lemma FailureIsFirst(env: Env, paths: seq<Path>, ps: seq<(nat, nat)>, k: nat)
    requires InRange(ps, |paths|) && LexSorted(ps)
    requires FailsAt(env, paths, ps, k, ScoreAll(env, paths, ps))
    ensures forall m :: 0 <= m < |ps| && LexLess(ps[m], ps[k]) ==>
      Score(env, paths[ps[m].0], paths[ps[m].1]).Some?
  {
    var before := ps[..k];
    ScoreAllSucceeded(env, paths, before);
    forall m | 0 <= m < |ps| && LexLess(ps[m], ps[k])
      ensures Score(env, paths[ps[m].0], paths[ps[m].1]).Some?
    {
      assert m < k;
      assert before[m] == ps[m];
    }
  }

  /**
   * An aborted sweep stopped at the first pair a < b, in row-major order, for which one
   * of the two files cannot be read: both files of every earlier pair were read.
   */
  lemma AbortedAtFirstFailure(env: Env, paths: seq<Path>)
    requires Swept(env, paths).failedAt.Some?
    ensures var (a, b) := Swept(env, paths).failedAt.value;
      && a < b < |paths|
      && (env.readLines(paths[a]).None? || env.readLines(paths[b]).None?)
      && forall x: (nat, nat) :: x.0 < x.1 < |paths| && LexLess(x, (a, b)) ==>
           env.readLines(paths[x.0]).Some? && env.readLines(paths[x.1]).Some?
  {
    var n := |paths|;
    var ps := IndexPairs(n, n);
    IndexPairsInRange(n, n);
    IndexPairsSorted(n, n);
    ScoreAllFailed(env, paths, ps);
    var k: nat :| FailsAt(env, paths, ps, k, Swept(env, paths));
    IndexPairsMember(n, n, ps[k]);
    FailureIsFirst(env, paths, ps, k);
    forall x: (nat, nat) | x.0 < x.1 < n && LexLess(x, ps[k])
      ensures env.readLines(paths[x.0]).Some? && env.readLines(paths[x.1]).Some?
    {
      IndexPairsMember(n, n, x);
      var m :| 0 <= m < |ps| && ps[m] == x;
      assert Score(env, paths[x.0], paths[x.1]).Some?;
    }
  }

  /**
   * The constructor over a list of distinct files (the walk supplies it sorted). `colWidths` is `ARR_COL_WIDTHS`,
   * which the constructor updates in place: on completion the rank column becomes as wide
   * as n * n has digits and both path columns as wide as the longest absolute path; an
   * aborted run leaves it as it was. `unranked` is the list of results in the order they
   * were added, before the sort.
   */
  method Compare(env: Env, absolute: Path -> string, paths: seq<Path>, colWidths: array<int>)
    returns (outcome: Outcome, ghost unranked: seq<CompareResult>)
    requires Distinct(paths)
    requires colWidths.Length == |HEADER_LABELS|
    requires NonNegative(colWidths[..])
    modifies colWidths
    ensures outcome.Aborted? <==> Swept(env, paths).failedAt.Some?
    ensures outcome.Aborted? ==>
      var (a, b) := Swept(env, paths).failedAt.value;
      a < b < |paths| && outcome.source == paths[a] && outcome.destination == paths[b]
    ensures outcome.Aborted? ==> colWidths[..] == old(colWidths[..])
    ensures outcome.Completed? ==>
      colWidths[..] == old(colWidths[..])[0 := RankColumnWidth(|paths|)]
                                         [5 := MaxWidth(absolute, paths)][6 := MaxWidth(absolute, paths)]
    ensures NonNegative(colWidths[..])
    ensures outcome.Completed? ==> outcome.rowSeparator == RowSeparator(colWidths[..])
    ensures outcome.Completed? ==> Views(unranked) == Swept(env, paths).entries
    ensures outcome.Completed? ==> outcome.ranked == Rank(unranked)
  {
    var n := |paths|;
    var results, colWidPath, counter, failed, entries := Sweep.Sweep(env, absolute, paths);
    SweptIsFinal(env, paths, entries, failed);
    unranked := results;
    if failed.Some? {
      return Aborted(paths[failed.value.0], paths[failed.value.1]), unranked;
    }
    colWidths[0] := RankColumnWidth(n);
    colWidths[5] := colWidPath;
    colWidths[6] := colWidPath;
    assert Views(results) == entries;
    var rowSeparator := RowSeparator(colWidths[..]);
    var ranked := Rank(results);
    outcome := Completed(ranked, rowSeparator);
  }
}
