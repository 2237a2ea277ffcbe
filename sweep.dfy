/**
 * The comparison sweep of the `Compare` constructor: it visits every ordered pair of the
 * file list, advances the progress counter on each visit, tracks the longest
 * absolute path, skips self-pairs and pairs already present (found by a linear `contains`
 * using the symmetric `equals`), and scores and appends every other pair. A file that
 * cannot be read stops the sweep at the pair that needed it.
 */
module Sweep {
  import opened Wrappers
  import opened Normalizer
  import opened CompareResults

  /**
   * The collaborators the sweep calls: reading a file's lines (None when the read throws)
   * and the four similarity metrics of the text library, which are not modelled.
   */
  datatype Env = Env(
    readLines: Path -> Option<seq<string>>,
    jaccard: (string, string) -> real,
    jaro: (string, string) -> real,
    lcs: (string, string) -> int,
    fuzzy: (string, string) -> int)

  /** `getLinesAsString(path)`: the file's lines, normalized, or None when reading fails. */
  function GetLinesAsString(env: Env, path: Path): Option<string>
  {
    match env.readLines(path)
    case None => None
    case Some(lines) => Some(NormalizeLines(lines))
  }

  /** The entry for (source, dest) given both files' texts; None when either could not be read. */
  function Pair(env: Env, source: Path, dest: Path, strSource: Option<string>, strDest: Option<string>): (r: Option<Entry>)
    ensures r.Some? <==> strSource.Some? && strDest.Some?
  {
    match strSource
    case None => None
    case Some(s) =>
      match strDest
      case None => None
      case Some(d) => Some(Entry(source, dest, env.jaccard(s, d), env.jaro(s, d), env.lcs(s, d), env.fuzzy(s, d)))
  }

  /**
   * The scores of one new pair: the source is read, then the destination; None when
   * either read fails, since the metrics are then never reached.
   */
  function Score(env: Env, source: Path, dest: Path): (r: Option<Entry>)
    ensures r.Some? <==> env.readLines(source).Some? && env.readLines(dest).Some?
    ensures r.Some? ==> r.value.first == source && r.value.second == dest
  {
    Pair(env, source, dest, GetLinesAsString(env, source), GetLinesAsString(env, dest))
  }

  /** What `getLinesAsString` yields for each path of the list, in list order. */
  function Contents(env: Env, paths: seq<Path>): (r: seq<Option<string>>)
    ensures |r| == |paths|
  {
    if paths == [] then [] else Contents(env, paths[..|paths| - 1]) + [GetLinesAsString(env, paths[|paths| - 1])]
  }

  lemma {:induction false} ContentsAt(env: Env, paths: seq<Path>, k: nat)
    requires k < |paths|
    ensures Contents(env, paths)[k] == GetLinesAsString(env, paths[k])
  {
    if k < |paths| - 1 {
      ContentsAt(env, paths[..|paths| - 1], k);
    }
  }

  /** The scores of the pair of positions p, taken from the texts of the whole list. */
  function ScoreAt(env: Env, paths: seq<Path>, p: (nat, nat)): Option<Entry>
    requires p.0 < |paths| && p.1 < |paths|
  {
    var texts := Contents(env, paths);
    Pair(env, paths[p.0], paths[p.1], texts[p.0], texts[p.1])
  }

  lemma ScoreAtIsScore(env: Env, paths: seq<Path>, p: (nat, nat))
    requires p.0 < |paths| && p.1 < |paths|
    ensures ScoreAt(env, paths, p) == Score(env, paths[p.0], paths[p.1])
  {
    ContentsAt(env, paths, p.0);
    ContentsAt(env, paths, p.1);
  }

  /** No path occurs twice in the list (a directory walk yields each file once). */
  predicate Distinct(paths: seq<Path>)
  {
    paths == [] || (paths[|paths| - 1] !in paths[..|paths| - 1] && Distinct(paths[..|paths| - 1]))
  }

  /** In a list of distinct paths, two positions hold the same path only when they are the same position. */
  lemma {:induction false} DistinctAt(paths: seq<Path>, a: nat, b: nat)
    requires Distinct(paths) && a < |paths| && b < |paths|
    ensures paths[a] == paths[b] <==> a == b
  {
    var last := |paths| - 1;
    var init := paths[..last];
    if a == last && b < last {
      assert paths[b] == init[b];
    } else if b == last && a < last {
      assert paths[a] == init[a];
    } else if a < last && b < last {
      DistinctAt(init, a, b);
    }
  }

  /** The longest absolute-path length in the list, 0 for no paths: `colWidPath`. */
  function MaxWidth(absolute: Path -> string, paths: seq<Path>): nat
  {
    if paths == [] then 0
    else
      var w0 := MaxWidth(absolute, paths[..|paths| - 1]);
      var last := |absolute(paths[|paths| - 1])|;
      if w0 < last then last else w0
  }

  /** `colWidPath` is the maximum: no absolute path is longer, and one is as long unless there are none. */
  lemma {:induction false} MaxWidthIsMaximum(absolute: Path -> string, paths: seq<Path>)
    ensures forall k :: 0 <= k < |paths| ==> |absolute(paths[k])| <= MaxWidth(absolute, paths)
    ensures paths == [] ==> MaxWidth(absolute, paths) == 0
    ensures paths != [] ==> exists k :: 0 <= k < |paths| && MaxWidth(absolute, paths) == |absolute(paths[k])|
  {
    if paths != [] {
      var init := paths[..|paths| - 1];
      MaxWidthIsMaximum(absolute, init);
      forall k | 0 <= k < |paths| - 1
        ensures paths[k] == init[k]
      {
      }
      if MaxWidth(absolute, init) >= |absolute(paths[|paths| - 1])| && init != [] {
        var k :| 0 <= k < |init| && MaxWidth(absolute, init) == |absolute(init[k])|;
        assert paths[k] == init[k];
      }
    }
  }

  /** The pairs (a, b) with a < b < hi of row a, in increasing b. */
  function Row(a: nat, hi: nat): (r: seq<(nat, nat)>)
    ensures |r| == if hi > a + 1 then hi - a - 1 else 0
  {
    if hi <= a + 1 then [] else Row(a, hi - 1) + [(a, hi - 1)]
  }

  /** The index pairs a < b < n of rows 0 .. i - 1, row by row: the pairs the sweep scores. */
  function IndexPairs(n: nat, i: nat): seq<(nat, nat)>
  {
    if i == 0 then [] else IndexPairs(n, i - 1) + Row(i - 1, n)
  }

  /** The pairs scored before the sweep visits (i, j). */
  function Before(n: nat, i: nat, j: nat): seq<(nat, nat)>
  {
    IndexPairs(n, i) + Row(i, j)
  }

  /** (a, b) comes before (c, d) in row-major order. */
  predicate LexLess(x: (nat, nat), y: (nat, nat))
  {
    x.0 < y.0 || (x.0 == y.0 && x.1 < y.1)
  }

  predicate InRange(ps: seq<(nat, nat)>, n: nat)
  {
    forall k :: 0 <= k < |ps| ==> ps[k].0 < n && ps[k].1 < n
  }

  /** The outcome of scoring a list of pairs in order: the entries, and the pair that failed. */
  datatype Scan = Scan(entries: seq<Entry>, failedAt: Option<(nat, nat)>)

  /**
   * Scores one more pair p = (a, b): a scan that has failed stays as it is; otherwise the
   * scores of paths[a] and paths[b] are appended, or the scan fails at p when a read fails.
   */
  function Extend(env: Env, paths: seq<Path>, prev: Scan, p: (nat, nat)): Scan
    requires p.0 < |paths| && p.1 < |paths|
  {
    if prev.failedAt.Some? then prev
    else match ScoreAt(env, paths, p)
      case None => Scan(prev.entries, Some(p))
      case Some(e) => Scan(prev.entries + [e], None)
  }

  /** Scores the pairs in order and stops at the first one whose files cannot be read. */
  function ScoreAll(env: Env, paths: seq<Path>, ps: seq<(nat, nat)>): Scan
    requires InRange(ps, |paths|)
  {
    if ps == [] then Scan([], None)
    else Extend(env, paths, ScoreAll(env, paths, ps[..|ps| - 1]), ps[|ps| - 1])
  }

  lemma ScoreAllSnoc(env: Env, paths: seq<Path>, ps: seq<(nat, nat)>, p: (nat, nat))
    requires InRange(ps, |paths|) && p.0 < |paths| && p.1 < |paths|
    ensures InRange(ps + [p], |paths|)
    ensures ScoreAll(env, paths, ps + [p]) == Extend(env, paths, ScoreAll(env, paths, ps), p)
  {
    assert (ps + [p])[..|ps|] == ps;
  }

  /** Row a lists (a, a + 1), (a, a + 2), ... in order. */
  lemma {:induction false} RowElements(a: nat, hi: nat)
    ensures forall k :: 0 <= k < |Row(a, hi)| ==> Row(a, hi)[k] == (a, a + 1 + k)
  {
    if hi > a + 1 {
      RowElements(a, hi - 1);
    }
  }

  /** The membership of a row: exactly the pairs (a, b) with a < b < hi. */
  lemma RowMember(a: nat, hi: nat, x: (nat, nat))
    ensures x in Row(a, hi) <==> x.0 == a && a < x.1 < hi
  {
    RowElements(a, hi);
    if x.0 == a && a < x.1 < hi {
      assert Row(a, hi)[x.1 - a - 1] == x;
    }
  }

  /** The membership of the first i rows: exactly the pairs a < b < n with a < i. */
  lemma {:induction false} IndexPairsMember(n: nat, i: nat, x: (nat, nat))
    ensures x in IndexPairs(n, i) <==> x.0 < x.1 < n && x.0 < i
  {
    if i > 0 {
      IndexPairsMember(n, i - 1, x);
      RowMember(i - 1, n, x);
    }
  }

  lemma IndexPairsInRange(n: nat, i: nat)
    ensures InRange(IndexPairs(n, i), n)
  {
    forall k | 0 <= k < |IndexPairs(n, i)|
      ensures IndexPairs(n, i)[k].0 < n && IndexPairs(n, i)[k].1 < n
    {
      IndexPairsMember(n, i, IndexPairs(n, i)[k]);
    }
  }

  lemma BeforeMember(n: nat, i: nat, j: nat, x: (nat, nat))
    ensures x in Before(n, i, j) <==> (x.0 < x.1 < n && x.0 < i) || (x.0 == i && i < x.1 < j)
  {
    IndexPairsMember(n, i, x);
    RowMember(i, j, x);
  }

  lemma BeforeInRange(n: nat, i: nat, j: nat)
    requires i < n && j <= n
    ensures InRange(Before(n, i, j), n)
  {
    var ps := Before(n, i, j);
    forall k | 0 <= k < |ps|
      ensures ps[k].0 < n && ps[k].1 < n
    {
      BeforeMember(n, i, j, ps[k]);
    }
  }

  /** There are n (n - 1) / 2 pairs in all: 2 |IndexPairs(n, i)| == i (2n - i - 1). */
  lemma {:induction false} IndexPairsLength(n: nat, i: nat)
    requires i <= n
    ensures 2 * |IndexPairs(n, i)| == i * (2 * n - i - 1)
  {
    if i > 0 {
      IndexPairsLength(n, i - 1);
      assert |Row(i - 1, n)| == n - i;
      var m := 2 * n - i;
      assert (i - 1) * m == i * m - m;
      assert i * (m - 1) == i * m - i;
    }
  }

  predicate LexSorted(ps: seq<(nat, nat)>)
  {
    forall k, l :: 0 <= k < l < |ps| ==> LexLess(ps[k], ps[l])
  }

  /** The pairs come in strictly increasing row-major order, so none occurs twice. */
  lemma {:induction false} IndexPairsSorted(n: nat, i: nat)
    ensures LexSorted(IndexPairs(n, i))
  {
    if i > 0 {
      IndexPairsSorted(n, i - 1);
      var prev, row := IndexPairs(n, i - 1), Row(i - 1, n);
      var ps := prev + row;
      RowElements(i - 1, n);
      forall k, l | 0 <= k < l < |ps|
        ensures LexLess(ps[k], ps[l])
      {
        if l < |prev| {
          assert ps[k] == prev[k] && ps[l] == prev[l];
        } else if k < |prev| {
          IndexPairsMember(n, i - 1, prev[k]);
          assert ps[k] == prev[k] && ps[l] == row[l - |prev|];
        } else {
          assert ps[k] == row[k - |prev|] && ps[l] == row[l - |prev|];
        }
      }
    }
  }

  /** The pairs scored before (i, j) come first in the full list of pairs. */
  lemma {:induction false} BeforeIsPrefix(n: nat, i: nat, j: nat)
    requires i < n && j <= n
    ensures Before(n, i, j) <= IndexPairs(n, n)
    decreases n - i
  {
    var row, fullRow := Row(i, j), Row(i, n);
    RowElements(i, j);
    RowElements(i, n);
    assert row <= fullRow;
    assert Before(n, i, j) <= IndexPairs(n, i + 1);
    if i + 1 < n {
      BeforeIsPrefix(n, i + 1, 0);
      assert Before(n, i + 1, 0) == IndexPairs(n, i + 1);
    }
  }

  /** A scan that succeeded holds one entry per pair, the scores of that pair. */
  lemma {:induction false} ScoreAllSucceeded(env: Env, paths: seq<Path>, ps: seq<(nat, nat)>)
    requires InRange(ps, |paths|)
    requires ScoreAll(env, paths, ps).failedAt.None?
    ensures var es := ScoreAll(env, paths, ps).entries;
      && |es| == |ps|
      && forall k :: 0 <= k < |ps| ==> Score(env, paths[ps[k].0], paths[ps[k].1]) == Some(es[k])
  {
    if ps != [] {
      var init := ps[..|ps| - 1];
      assert InRange(init, |paths|);
      ScoreAllSucceeded(env, paths, init);
      ScoreAtIsScore(env, paths, ps[|ps| - 1]);
    }
  }

  /** Once a scan has failed, scoring further pairs changes nothing. */
  lemma {:induction false} ScoreAllStaysFailed(env: Env, paths: seq<Path>, ps: seq<(nat, nat)>, qs: seq<(nat, nat)>)
    requires InRange(qs, |paths|) && ps <= qs
    requires InRange(ps, |paths|)
    requires ScoreAll(env, paths, ps).failedAt.Some?
    ensures ScoreAll(env, paths, qs) == ScoreAll(env, paths, ps)
    decreases |qs|
  {
    if |qs| > |ps| {
      var init := qs[..|qs| - 1];
      assert ps <= init;
      assert InRange(init, |paths|);
      ScoreAllStaysFailed(env, paths, ps, init);
    } else {
      assert ps == qs;
    }
  }

  /**
   * `scan` failed at the pair ps[k], whose files cannot be read, after scoring the pairs
   * before it into its entries.
   */
  predicate FailsAt(env: Env, paths: seq<Path>, ps: seq<(nat, nat)>, k: nat, scan: Scan)
    requires InRange(ps, |paths|)
  {
    && k < |ps|
    && scan.failedAt == Some(ps[k])
    && InRange(ps[..k], |paths|)
    && ScoreAll(env, paths, ps[..k]) == Scan(scan.entries, None)
    && Score(env, paths[ps[k].0], paths[ps[k].1]).None?
  }

  /** A failed scan stopped at a pair whose files cannot be read, after scoring all earlier pairs. */
  lemma {:induction false} ScoreAllFailed(env: Env, paths: seq<Path>, ps: seq<(nat, nat)>)
    requires InRange(ps, |paths|)
    requires ScoreAll(env, paths, ps).failedAt.Some?
    ensures exists k :: FailsAt(env, paths, ps, k, ScoreAll(env, paths, ps))
  {
    var init := ps[..|ps| - 1];
    assert InRange(init, |paths|);
    if ScoreAll(env, paths, init).failedAt.Some? {
      ScoreAllFailed(env, paths, init);
      var k :| FailsAt(env, paths, init, k, ScoreAll(env, paths, init));
      ScoreAllFailedEarlier(env, paths, ps, k);
    } else {
      assert ps[..|ps| - 1] == init;
      ScoreAtIsScore(env, paths, ps[|ps| - 1]);
      assert FailsAt(env, paths, ps, |ps| - 1, ScoreAll(env, paths, ps));
    }
  }

  /** A failure found among all but the last pair is the failure of the whole list. */
  lemma ScoreAllFailedEarlier(env: Env, paths: seq<Path>, ps: seq<(nat, nat)>, k: nat)
    requires ps != [] && InRange(ps, |paths|) && InRange(ps[..|ps| - 1], |paths|)
    requires FailsAt(env, paths, ps[..|ps| - 1], k, ScoreAll(env, paths, ps[..|ps| - 1]))
    ensures FailsAt(env, paths, ps, k, ScoreAll(env, paths, ps))
  {
    var init := ps[..|ps| - 1];
    assert init[..k] == ps[..k];
    assert ScoreAll(env, paths, ps) == ScoreAll(env, paths, init);
  }

  /** The ordered visit (i, j), j != i, finds its pair already present exactly when j < i. */
  lemma PairPresentIff(paths: seq<Path>, i: nat, j: nat, es: seq<Entry>)
    requires Distinct(paths) && i < |paths| && j < |paths| && i != j
    requires var ps := Before(|paths|, i, j);
      |es| == |ps| && InRange(ps, |paths|)
      && forall k :: 0 <= k < |ps| ==> es[k].first == paths[ps[k].0] && es[k].second == paths[ps[k].1]
    ensures (exists k :: 0 <= k < |es| && SamePair(paths[i], paths[j], es[k].first, es[k].second)) <==> j < i
  {
    var n, ps := |paths|, Before(|paths|, i, j);
    forall a, b | 0 <= a < n && 0 <= b < n && a != b
      ensures paths[a] != paths[b]
    {
      DistinctAt(paths, a, b);
    }
    if j < i {
      BeforeMember(n, i, j, (j, i));
      var k :| 0 <= k < |ps| && ps[k] == (j, i);
      assert SamePair(paths[i], paths[j], es[k].first, es[k].second);
    } else {
      forall k | 0 <= k < |es|
        ensures !SamePair(paths[i], paths[j], es[k].first, es[k].second)
      {
        BeforeMember(n, i, j, ps[k]);
      }
    }
  }

  /** Before the first visit of row i, exactly the earlier rows are scored. */
  lemma BeforeRowStart(n: nat, i: nat)
    ensures Before(n, i, 0) == IndexPairs(n, i)
  {
    assert IndexPairs(n, i) + [] == IndexPairs(n, i);
  }

  /** After the last visit of row i, the rows up to i are scored. */
  lemma BeforeRowEnd(n: nat, i: nat)
    ensures Before(n, i, n) == IndexPairs(n, i + 1)
  {
  }

  /** One more visit adds the pair (i, j) exactly when it lies above the diagonal. */
  lemma BeforeStep(n: nat, i: nat, j: nat)
    ensures Before(n, i, j + 1) == if i < j then Before(n, i, j) + [(i, j)] else Before(n, i, j)
  {
  }

  /** (i, j) is a visit of the sweep, i < n and j <= n, or (n, 0), the position after the last one. */
  predicate Position(n: nat, i: nat, j: nat)
  {
    (i < n && j <= n) || (i == n && j == 0)
  }

  /**
   * The state of the sweep before its visit (i, j), following the two loops visit by
   * visit: a self-pair (j = i) and a pair already scored as (j, i) (j < i) change nothing;
   * any other pair is scored or, when one of its files cannot be read, ends the sweep.
   */
  function SweepState(env: Env, paths: seq<Path>, i: nat, j: nat): Scan
    requires Position(|paths|, i, j)
    decreases i, j
  {
    if j == 0 then
      if i == 0 then Scan([], None) else SweepState(env, paths, i - 1, |paths|)
    else
      var prev := SweepState(env, paths, i, j - 1);
      if j - 1 <= i then prev else Extend(env, paths, prev, (i, j - 1))
  }

  /** The visit-by-visit state is the scan of exactly the pairs a < b visited so far, in visiting order. */
  lemma {:induction false} SweepStateIsScoreAll(env: Env, paths: seq<Path>, i: nat, j: nat)
    requires Position(|paths|, i, j)
    ensures InRange(Before(|paths|, i, j), |paths|)
    ensures SweepState(env, paths, i, j) == ScoreAll(env, paths, Before(|paths|, i, j))
    decreases i, j, 2
  {
    if j > 0 {
      SweepStateStep(env, paths, i, j);
    } else if i > 0 {
      SweepStateRowStart(env, paths, i);
    } else {
      BeforeRowStart(|paths|, 0);
    }
  }

  /** The start of row i > 0 is the end of row i - 1. */
  lemma {:induction false} SweepStateRowStart(env: Env, paths: seq<Path>, i: nat)
    requires 0 < i <= |paths|
    ensures InRange(Before(|paths|, i, 0), |paths|)
    ensures SweepState(env, paths, i, 0) == ScoreAll(env, paths, Before(|paths|, i, 0))
    decreases i, 0, 1
  {
    var n := |paths|;
    SweepStateIsScoreAll(env, paths, i - 1, n);
    BeforeRowEnd(n, i - 1);
    BeforeRowStart(n, i);
  }

  /** Visit (i, j - 1) adds its pair to the scan exactly when it lies above the diagonal. */
  lemma {:induction false} SweepStateStep(env: Env, paths: seq<Path>, i: nat, j: nat)
    requires 0 < j && Position(|paths|, i, j)
    ensures InRange(Before(|paths|, i, j), |paths|)
    ensures SweepState(env, paths, i, j) == ScoreAll(env, paths, Before(|paths|, i, j))
    decreases i, j, 1
  {
    SweepStateIsScoreAll(env, paths, i, j - 1);
    BeforeInRange(|paths|, i, j);
    if i < j - 1 {
      SweepStateScored(env, paths, i, j - 1);
    } else {
      BeforeStep(|paths|, i, j - 1);
    }
  }

  lemma SweepStateScored(env: Env, paths: seq<Path>, i: nat, j: nat)
    requires i < j < |paths|
    requires InRange(Before(|paths|, i, j), |paths|)
    requires SweepState(env, paths, i, j) == ScoreAll(env, paths, Before(|paths|, i, j))
    ensures InRange(Before(|paths|, i, j + 1), |paths|)
    ensures SweepState(env, paths, i, j + 1) == ScoreAll(env, paths, Before(|paths|, i, j + 1))
  {
    var ps := Before(|paths|, i, j);
    BeforeInRange(|paths|, i, j + 1);
    BeforeStep(|paths|, i, j);
    ScoreAllSnoc(env, paths, ps, (i, j));
  }

  /** The results, and the pair whose read failed if any, are the state of the sweep before visit (i, j). */
  predicate Reached(env: Env, paths: seq<Path>, i: nat, j: nat, entries: seq<Entry>, failed: Option<(nat, nat)>)
  {
    Position(|paths|, i, j) && SweepState(env, paths, i, j) == Scan(entries, failed)
  }

  /** Once a visit has failed, the sweep ends in that state. */
  lemma SweepStateStaysFailed(env: Env, paths: seq<Path>, i: nat, j: nat)
    requires Position(|paths|, i, j) && SweepState(env, paths, i, j).failedAt.Some?
    ensures SweepState(env, paths, |paths|, 0) == SweepState(env, paths, i, j)
  {
    var n := |paths|;
    SweepStateIsScoreAll(env, paths, i, j);
    SweepStateIsScoreAll(env, paths, n, 0);
    BeforeRowStart(n, n);
    if i < n {
      BeforeIsPrefix(n, i, j);
      ScoreAllStaysFailed(env, paths, Before(n, i, j), IndexPairs(n, n));
    }
  }

  /** A self-pair, or a pair already scored the other way round, leaves the state as it was. */
  lemma ReachedSkip(env: Env, paths: seq<Path>, i: nat, j: nat, entries: seq<Entry>)
    requires i < |paths| && j <= i
    requires Reached(env, paths, i, j, entries, None)
    ensures Reached(env, paths, i, j + 1, entries, None)
  {
  }

  /** A new pair adds its scores, or, when a read fails, makes the sweep fail at that pair. */
  lemma ReachedScore(env: Env, paths: seq<Path>, i: nat, j: nat, entries: seq<Entry>)
    requires i < j < |paths|
    requires Reached(env, paths, i, j, entries, None)
    ensures Score(env, paths[i], paths[j]).None? ==> Reached(env, paths, i, j + 1, entries, Some((i, j)))
    ensures Score(env, paths[i], paths[j]).Some? ==>
      Reached(env, paths, i, j + 1, entries + [Score(env, paths[i], paths[j]).value], None)
  {
    ScoreAtIsScore(env, paths, (i, j));
  }

  lemma ReachedIsScoreAll(env: Env, paths: seq<Path>, i: nat, j: nat, entries: seq<Entry>, failed: Option<(nat, nat)>)
    requires Reached(env, paths, i, j, entries, failed)
    ensures InRange(Before(|paths|, i, j), |paths|)
    ensures ScoreAll(env, paths, Before(|paths|, i, j)) == Scan(entries, failed)
  {
    SweepStateIsScoreAll(env, paths, i, j);
  }

  /** The state after the last visit of row i is the state before the first visit of row i + 1. */
  lemma ReachedRowEnd(env: Env, paths: seq<Path>, i: nat, entries: seq<Entry>)
    requires i < |paths| && Reached(env, paths, i, |paths|, entries, None)
    ensures Reached(env, paths, i + 1, 0, entries, None)
  {
  }

  lemma ReachedStaysFailed(env: Env, paths: seq<Path>, i: nat, j: nat, entries: seq<Entry>, at: (nat, nat))
    requires Reached(env, paths, i, j, entries, Some(at))
    ensures Reached(env, paths, |paths|, 0, entries, Some(at))
  {
    SweepStateStaysFailed(env, paths, i, j);
  }

  /** The state after the last visit is the scan of all pairs a < b < n, row by row. */
  lemma FinalScan(env: Env, paths: seq<Path>, entries: seq<Entry>, failed: Option<(nat, nat)>)
    requires Reached(env, paths, |paths|, 0, entries, failed)
    ensures InRange(IndexPairs(|paths|, |paths|), |paths|)
    ensures ScoreAll(env, paths, IndexPairs(|paths|, |paths|)) == Scan(entries, failed)
  {
    SweepStateIsScoreAll(env, paths, |paths|, 0);
    BeforeRowStart(|paths|, |paths|);
  }

  /** A result is equal to a list member exactly when the list holds a result for the same unordered pair. */
  lemma ContainsSamePair(list: seq<CompareResult>, o: CompareResult)
    requires o !in list
    ensures (exists k :: 0 <= k < |list| && o.Equals(list[k]))
        <==> exists k :: 0 <= k < |list|
               && SamePair(o.pathFirstFile, o.pathSecondFile, list[k].pathFirstFile, list[k].pathSecondFile)
  {
    forall k | 0 <= k < |list|
      ensures o != list[k]
    {
      assert list[k] in list;
    }
  }

  /**
   * When the sweep visits (i, j), i != j, the new result for that pair equals one already
   * in the list exactly when j < i, that is, when (j, i) was scored earlier.
   */
  lemma PresentIff(env: Env, paths: seq<Path>, i: nat, j: nat, results: seq<CompareResult>, o: CompareResult)
    requires Distinct(paths) && i < |paths| && j < |paths| && i != j
    requires InRange(Before(|paths|, i, j), |paths|)
    requires ScoreAll(env, paths, Before(|paths|, i, j)) == Scan(Views(results), None)
    requires o !in results && o.pathFirstFile == paths[i] && o.pathSecondFile == paths[j]
    ensures (exists k :: 0 <= k < |results| && o.Equals(results[k])) <==> j < i
  {
    var ps := Before(|paths|, i, j);
    var es := Views(results);
    ViewsElements(results);
    ScoreAllSucceeded(env, paths, ps);
    forall k | 0 <= k < |ps|
      ensures es[k].first == paths[ps[k].0] && es[k].second == paths[ps[k].1]
    {
      assert Score(env, paths[ps[k].0], paths[ps[k].1]) == Some(es[k]);
    }
    forall k | 0 <= k < |results|
      ensures es[k].first == results[k].pathFirstFile && es[k].second == results[k].pathSecondFile
    {
      assert es[k] == results[k].View();
    }
    ContainsSamePair(results, o);
    PairPresentIff(paths, i, j, es);
  }

  /** `listResults.contains(o)`: the linear scan of `ArrayList.indexOf`, calling `o.equals`. */
  method Contains(list: seq<CompareResult>, o: CompareResult) returns (found: bool)
    ensures found <==> exists k :: 0 <= k < |list| && o.Equals(list[k])
  {
    var k := 0;
    while k < |list|
      invariant 0 <= k <= |list|
      invariant forall m :: 0 <= m < k ==> !o.Equals(list[m])
    {
      if o.Equals(list[k]) {
        return true;
      }
      k := k + 1;
    }
    return false;
  }

  /** The longest absolute path of a list grows by at most the next path. */
  lemma MaxWidthAppend(absolute: Path -> string, paths: seq<Path>, i: nat)
    requires i < |paths|
    ensures MaxWidth(absolute, paths[..i + 1])
         == if MaxWidth(absolute, paths[..i]) < |absolute(paths[i])| then |absolute(paths[i])|
            else MaxWidth(absolute, paths[..i])
  {
    assert paths[..i + 1][..i] == paths[..i];
  }

  /**
   * One visit of the inner loop, at source i and destination j: a self-pair is skipped and
   * any other pair is handed to `VisitPair`.
   */
  method Visit(env: Env, paths: seq<Path>, i: nat, j: nat, results: seq<CompareResult>, ghost es: seq<Entry>)
    returns (newResults: seq<CompareResult>, failed: bool, ghost entries: seq<Entry>)
    requires Distinct(paths) && i < |paths| && j < |paths|
    requires es == Views(results)
    requires Reached(env, paths, i, j, es, None)
    ensures entries == Views(newResults)
    ensures !failed ==> Reached(env, paths, i, j + 1, entries, None)
    ensures failed ==> newResults == results && i < j
    ensures failed ==> Reached(env, paths, i, j + 1, entries, Some((i, j)))
  {
    DistinctAt(paths, i, j);
    if paths[i] == paths[j] {
      ReachedSkip(env, paths, i, j, es);
      return results, false, es;
    }
    newResults, failed, entries := VisitPair(env, paths, i, j, results, es);
  }

  /**
   * The visit of a pair of different files: a pair already present is skipped, any other
   * pair is scored and appended, or, when one of its files cannot be read, reported as
   * failed with the results left as they were.
   */
  method VisitPair(env: Env, paths: seq<Path>, i: nat, j: nat, results: seq<CompareResult>, ghost es: seq<Entry>)
    returns (newResults: seq<CompareResult>, failed: bool, ghost entries: seq<Entry>)
    requires Distinct(paths) && i < |paths| && j < |paths| && i != j
    requires es == Views(results)
    requires Reached(env, paths, i, j, es, None)
    ensures entries == Views(newResults)
    ensures !failed ==> Reached(env, paths, i, j + 1, entries, None)
    ensures failed ==> newResults == results && i < j
    ensures failed ==> Reached(env, paths, i, j + 1, entries, Some((i, j)))
  {
    var compareResult := new CompareResult(paths[i], paths[j]);
    var present := Contains(results, compareResult);
    ReachedIsScoreAll(env, paths, i, j, es, None);
    PresentIff(env, paths, i, j, results, compareResult);
    if present {
      ReachedSkip(env, paths, i, j, es);
      return results, false, es;
    }
    ReachedScore(env, paths, i, j, es);
    newResults, failed := ScorePair(env, results, compareResult);
    entries := Views(newResults);
  }

  /**
   * Scoring a new pair: reads the source and then the destination file, and on success
   * fills in the four scores of `o` and appends it; a failed read leaves the list as it was.
   */
  method ScorePair(env: Env, results: seq<CompareResult>, o: CompareResult)
    returns (newResults: seq<CompareResult>, failed: bool)
    requires o !in results
    modifies o
    ensures failed <==> Score(env, old(o.pathFirstFile), old(o.pathSecondFile)).None?
    ensures failed ==> newResults == results && Views(newResults) == old(Views(results))
    ensures !failed ==>
      Views(newResults) == old(Views(results)) + [Score(env, old(o.pathFirstFile), old(o.pathSecondFile)).value]
  {
    ghost var es := Views(results);
    var strSource := GetLinesAsString(env, o.pathFirstFile);
    if strSource.None? {
      return results, true;
    }
    var strDestination := GetLinesAsString(env, o.pathSecondFile);
    if strDestination.None? {
      return results, true;
    }
    var s, d := strSource.value, strDestination.value;
    o.Update(env.jaccard(s, d), env.jaro(s, d), env.lcs(s, d), env.fuzzy(s, d));
    assert Score(env, o.pathFirstFile, o.pathSecondFile) == Some(o.View());
    newResults, failed := results + [o], false;
    ViewsAppend(results, o);
  }

  /**
   * The inner loop for source i: visits every destination j in order, advancing the counter
   * before each visit, and stops at the first visit whose files cannot be read.
   */
  method SweepRow(env: Env, paths: seq<Path>, i: nat, results0: seq<CompareResult>,
                  counter0: int, ghost rowStart: int, ghost entries0: seq<Entry>)
    returns (results: seq<CompareResult>, counter: int, failedAt: Option<nat>, ghost entries: seq<Entry>)
    requires Distinct(paths) && i < |paths|
    requires counter0 == rowStart + 1
    requires entries0 == Views(results0)
    requires Reached(env, paths, i, 0, entries0, None)
    ensures entries == Views(results)
    ensures failedAt.None? ==> counter == rowStart + |paths| + 1
    ensures failedAt.None? ==> Reached(env, paths, i + 1, 0, entries, None)
    ensures failedAt.Some? ==> i < failedAt.value < |paths| && counter == rowStart + failedAt.value + 2
    ensures failedAt.Some? ==> Reached(env, paths, |paths|, 0, entries, Some((i, failedAt.value)))
  {
    var n := |paths|;
    results, counter, failedAt, entries := results0, counter0, None, entries0;
    var j: nat := 0;
    while j < n
      invariant 0 <= j <= n
      invariant counter == rowStart + j + 1
      invariant entries == Views(results)
      invariant Reached(env, paths, i, j, entries, None)
    {
      counter := counter + 1;
      var stop;
      results, stop, entries := Visit(env, paths, i, j, results, entries);
      if stop {
        ReachedStaysFailed(env, paths, i, j + 1, entries, (i, j));
        return results, counter, Some(j), entries;
      }
      j := j + 1;
    }
    ReachedRowEnd(env, paths, i, entries);
  }

  /**
   * The sweep of the `Compare` constructor over the distinct `paths`. On success it
   * returns the results of all pairs i < j in row-major order, the final counter n * n + 1
   * and the longest absolute path; on a failed read it returns the failed pair, with the
   * results and the counter as they stood when the read failed.
   */
  method Sweep(env: Env, absolute: Path -> string, paths: seq<Path>)
    returns (results: seq<CompareResult>, colWidPath: nat, counter: int, failed: Option<(nat, nat)>,
             ghost entries: seq<Entry>)
    requires Distinct(paths)
    ensures entries == Views(results)
    ensures Reached(env, paths, |paths|, 0, entries, failed)
    ensures failed.None? ==> counter == |paths| * |paths| + 1
    ensures failed.None? ==> colWidPath == MaxWidth(absolute, paths)
    ensures failed.Some? ==> failed.value.0 < failed.value.1 < |paths|
    ensures failed.Some? ==> counter == failed.value.0 * |paths| + failed.value.1 + 2
    ensures failed.Some? ==> colWidPath == MaxWidth(absolute, paths[..failed.value.0 + 1])
  {
    var n := |paths|;
    colWidPath, counter, results, failed, entries := 0, 1, [], None, [];
    var i: nat := 0;
    while i < n
      invariant 0 <= i <= n
      invariant counter == i * n + 1
      invariant colWidPath == MaxWidth(absolute, paths[..i])
      invariant entries == Views(results)
      invariant Reached(env, paths, i, 0, entries, None)
    {
      var pathSource := paths[i];
      MaxWidthAppend(absolute, paths, i);
      colWidPath := if colWidPath < |absolute(pathSource)| then |absolute(pathSource)| else colWidPath;
      var failedAt;
      results, counter, failedAt, entries := SweepRow(env, paths, i, results, counter, i * n, entries);
      NextRow(i, n);
      if failedAt.Some? {
        failed := Some((i, failedAt.value));
        return;
      }
      i := i + 1;
    }
    assert paths[..n] == paths;
  }

  /** The row after row i starts n visits later. */
  lemma NextRow(i: nat, n: nat)
    ensures i * n + n == (i + 1) * n
  {
  }

  /**
   * The final counter n * n + 1 fits Java's 32-bit `int` exactly when there are at most
   * 46340 paths; from 46341 paths on it exceeds 2^31 - 1 and the program's counter wraps.
   */
  lemma CounterFitsInt(n: nat)
    ensures n * n + 1 <= 0x7FFF_FFFF <==> n <= 46340
  {
    if n <= 46340 {
      MulMonotone(n, 46340, n);
      MulMonotone(n, 46340, 46340);
    } else {
      MulMonotone(46341, n, n);
      MulMonotone(46341, n, 46341);
    }
  }

  /** Multiplication by a natural number is monotone. */
  lemma MulMonotone(a: nat, b: nat, c: nat)
    requires a <= b
    ensures a * c <= b * c
  {
    var d := b - a;
    assert b * c == a * c + d * c;
  }
}
