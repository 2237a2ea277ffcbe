# FileSimilarityMeasure in Dafny

A verified model of the core of FileSimilarityMeasure. The program compares every file of a
directory with every other file. It scores each unordered pair of distinct files with four
text-similarity metrics (Jaccard, Jaro-Winkler, longest common subsequence and fuzzy score).
It ranks the pairs by the sum of the Jaccard and Jaro-Winkler scores, and prints them as a
bordered table.

The model covers the `Compare` constructor after file discovery:
- the sweep over the ordered cross product of the file list, with its progress
  counter, its longest-path width and its skipping of self-pairs;
- the de-duplication through `ArrayList.contains` and the symmetric `CompareResult.equals`;
- the fail-fast abort when a file cannot be read;
- the update of the static column-width array;
- the row separator;
- the stable descending sort.

It also covers the content normalizer `getLinesAsString`, `buildSeparator`, and the class
`CompareResult`: its constructor, `equals`, `update` and `compareTo`.

Modules, in dependency order:

- `Wrappers` (wrappers.dfy): `Option`.
- `Strings` (strings.dfy): `Collectors.joining` as `Join`, and plain concatenation.
- `CompareResults` (compare_result.dfy): the class `CompareResult`. Its fields are updated in
  place by the constructor and by `Update`. `Equals` and `CompareTo` are functions reading the
  fields. The datatype `Entry` is the value of one result (paths and four scores), and
  `Views` gives the values of a list of results.
- `Layout` (layout.dfy): the table arithmetic. `BuildSeparator` is written as
  `buildSeparator` computes it (a right-justified `String.format` of one space, then `replaceAll(" ", "-")`).
  `RowSeparator` is the `+`-joined stream. `RankColumnWidth` is the digit count of n².
- `Normalizer` (normalizer.dfy): `line.replaceAll("\\s+", " ")` as `CollapseWhitespace`, over
  the six characters of Java's `\s`, and the joining of the lines as `NormalizeLines`.
- `Ranking` (ranking.dfy): `listResults.sort(Comparator.reverseOrder())` as a stable
  insertion of each result ahead of every result that does not outrank it.
- `Sweep` (sweep.dfy): the two nested loops as imperative methods (`Sweep`, `SweepRow`,
  `Visit`, `VisitPair`, `ScorePair`, `Contains`). They are proved against the specification
  function `ScoreAll`, which scores the index pairs a < b in row-major order and stops at the
  first pair whose files cannot be read. `SweepState` follows the loops visit by visit, and
  the lemma `SweepStateIsScoreAll` shows the two agree.
- `Comparison` (compare.dfy): the constructor as a whole. `Compare` runs the sweep over any list
  of distinct paths; the walk happens to supply it sorted, and no proof depends on the order. It then writes the rank and path widths into the column-width
  array, builds the row separator and ranks the results. If a read fails, it ends with
  `Aborted` and the two paths of the failed pair. `Swept` is the specification of the sweep.

Collaborators are parameters:
- The file reader and the four metrics are the fields of `Sweep.Env`. A read that throws is
  `None`.
- `Path.toAbsolutePath().toString()` is the function `absolute`.
- Paths are identified by their text: `Path.equals` is taken to be string equality.

Behaviour of the code worth noting:
- The normalizer collapses whitespace within each line only. A line that ends in whitespace,
  or an empty line, still leaves two neighbouring spaces where the lines are joined
  (`Normalizer.TrailingSpaceNotCollapsed`). The whole string is not guaranteed to be
  whitespace-collapsed.
- `CompareResult.hashCode` hashes the two paths in their order. It is therefore not
  symmetric like `equals`. `ArrayList.contains` never calls it.
- A failed read ends the process with `System.exit(0)`, status 0, and not with a failure
  status.
- The counter is post-incremented when printed. It shows 1 to n² and holds n² + 1 after a
  full sweep, for n ≤ 46340 files (beyond that the 32-bit `int` wraps).

## Model

| member | source | states |
|---|---|---|
| CompareResults.DoubleCompare | src/main/java/CompareResult.java:49 | `Double.compare` on values that are neither NaN nor signed zeros is -1, 0 or 1, negative, zero or positive exactly when x < y, x == y or x > y |
| CompareResults.CompareResult.constructor | src/main/java/CompareResult.java:33-37 | a new result holds the two given paths and all four scores are zero |
| CompareResults.CompareResult.Composite | src/main/java/CompareResult.java:49 | the composite score jaccard + jaro; no contract of its own, `CompareTo`, `CompareToIgnoresPaths` and the `Ranking` lemmas state what it orders |
| CompareResults.CompareResult.CompareTo | src/main/java/CompareResult.java:47-50 | the sign of `compareTo` is the sign of the comparison of the two sums jaccard + jaro |
| CompareResults.CompareResult.Update | src/main/java/CompareResult.java:74-81 | the four scores become the arguments and both paths are unchanged |
| CompareResults.CompareResult.Equals | src/main/java/CompareResult.java:62-72 | `equals`: the same object, or the same two paths in either order; no contract of its own, `EqualsIsUnorderedPair`, `EqualsReflexiveSymmetric`, `EqualsTransitive` and `EqualsIgnoresScores` state its properties |
| CompareResults.EqualsIsUnorderedPair | src/main/java/CompareResult.java:62-72 | two results are equal exactly when their two paths form the same multiset |
| CompareResults.EqualsReflexiveSymmetric | src/main/java/CompareResult.java:64-71 | `equals` is reflexive and symmetric, and the result for (A, B) equals the one for (B, A) |
| CompareResults.EqualsTransitive | src/main/java/CompareResult.java:71 | `equals` is transitive |
| CompareResults.EqualsIgnoresScores | src/main/java/CompareResult.java:71 | results with the same paths are equal, and equality does not depend on the scores |
| CompareResults.CompareToAntisymmetric | src/main/java/CompareResult.java:47-50 | a.compareTo(b) == -b.compareTo(a) |
| CompareResults.CompareToIgnoresPaths | src/main/java/CompareResult.java:49 | `compareTo` depends only on the two composite scores, never on the paths |
| CompareResults.ViewsElements | src/main/java/Compare.java:62 | position k of the list of result values is the value of result k |
| CompareResults.ViewsAppend | src/main/java/Compare.java:87 | appending a result appends its value |
| Strings.Join | src/main/java/Compare.java:154 | `Collectors.joining(sep)`, also used at line 108: "" for no parts, the part itself for one, and otherwise the parts in order with `sep` between neighbours; no contract of its own, `NormalizeLinesIsJoin`, `JoinEndsWith` and `RowSeparatorIsCells` state what the joins yield |
| Layout.Repeat | src/main/java/Compare.java:166 | n copies of one character |
| Layout.PadLeft | src/main/java/Compare.java:166 | `String.format("%<w>s", s)` is s right-justified in max(w, \|s\|) characters, padded with spaces |
| Layout.ReplaceChar | src/main/java/Compare.java:166 | `replaceAll(" ", "-")` keeps the length and replaces exactly the spaces |
| Layout.BuildSeparator | src/main/java/Compare.java:163-167 | `buildSeparator(w)` is exactly w + 2 dashes |
| Layout.Separators | src/main/java/Compare.java:106-107 | the mapped stream holds `buildSeparator` of each width, in column order |
| Layout.RowSeparator | src/main/java/Compare.java:105-109 | the `+`-joined stream of cells between an opening and a closing '+'; no contract of its own, `RowSeparatorIsCells`, `RowSeparatorShape`, `SevenColumnSeparator` and `UpdatedInitialWidth` state its shape and width |
| Layout.RowSeparatorIsCells | src/main/java/Compare.java:105-109 | the separator is '+' followed by each column's dashes, each closed by a '+' |
| Layout.CellsShape | src/main/java/Compare.java:105-109 | the column cells hold one '+' per column, end in '+', and consist only of '+' and '-' |
| Layout.RowSeparatorShape | src/main/java/Compare.java:105-109 | the separator starts and ends with '+', has one more '+' than columns, consists of '+' and '-' only, and its length is the table width (1 plus width + 3 per column) |
| Layout.SevenColumnSeparator | src/main/java/Compare.java:105-109 | with the seven columns of the table the separator holds eight '+' |
| Layout.UpdatedInitialWidth | src/main/java/Compare.java:102-109 | with the widths as initialised (line 33) and the rank width r and the path width w written in, the separator is r + 2w + 50 characters wide |
| Layout.DigitChar | src/main/java/Compare.java:102 | a digit value 0-9 is printed as a decimal digit |
| Layout.DecimalString | src/main/java/Compare.java:102 | the printed form of a count is a non-empty string of decimal digits |
| Layout.DecimalRoundTrip | src/main/java/Compare.java:102 | reading the printed digits back gives the count |
| Layout.DecimalLength | src/main/java/Compare.java:102 | the printed count has exactly as many digits as its magnitude needs (10^(w-1) <= m < 10^w) and no leading zero |
| Layout.RankColumnWidth | src/main/java/Compare.java:102 | the rank column width w is at least 1, with n² < 10^w and 10^(w-1) <= n² when w > 1 |
| Normalizer.IsWhitespace | src/main/java/Compare.java:153 | the regular-expression class `\s`: the six characters space, `\t`, `\n`, `\x0B`, `\f` and `\r`; no contract of its own, `CollapseIsCollapsed`, `CollapseKeepsText` and `NormalizeLinesOnlySpaces` state what the collapse does with these characters |
| Normalizer.DropWhitespace | src/main/java/Compare.java:153 | dropping the leading whitespace never lengthens the text |
| Normalizer.DropWhitespaceShape | src/main/java/Compare.java:153 | what is dropped is a run of whitespace, and what remains is the rest of the text, not starting with whitespace |
| Normalizer.CollapseWhitespace | src/main/java/Compare.java:153 | `replaceAll("\\s+", " ")` on one line; no contract of its own, `CollapseIsCollapsed`, `CollapseStart`, `CollapseEnd`, `CollapseKeepsText`, `CollapseFixedPoint` and `CollapseIdempotent` state its properties |
| Normalizer.CollapseIsCollapsed | src/main/java/Compare.java:153 | a normalized line has no two neighbouring whitespace characters, and its only whitespace is ' ' |
| Normalizer.CollapseStart | src/main/java/Compare.java:153 | a line normalizes to "" only when empty, and starts with whitespace exactly when the line does (nothing is trimmed) |
| Normalizer.CollapseEnd | src/main/java/Compare.java:153 | a normalized line ends with whitespace exactly when the line does |
| Normalizer.CollapseKeepsText | src/main/java/Compare.java:153 | normalizing keeps every non-whitespace character, in order |
| Normalizer.CollapseRun | src/main/java/Compare.java:153 | a run of whitespace alone becomes one space |
| Normalizer.CollapseConsWhitespace | src/main/java/Compare.java:153 | a leading whitespace run becomes one space followed by the normalized rest |
| Normalizer.CollapseConsText | src/main/java/Compare.java:153 | a leading non-whitespace character is kept in front of the normalized rest |
| Normalizer.CollapseAppend | src/main/java/Compare.java:153 | two texts that do not meet in whitespace normalize piecewise |
| Normalizer.CollapseFixedPoint | src/main/java/Compare.java:153 | a line is left unchanged exactly when it is already collapsed |
| Normalizer.CollapseIdempotent | src/main/java/Compare.java:153 | normalizing a normalized line changes nothing |
| Normalizer.CollapseEach | src/main/java/Compare.java:153 | mapping the lines keeps their number |
| Normalizer.CollapseEachElements | src/main/java/Compare.java:153 | each line is normalized on its own |
| Normalizer.NormalizeLines | src/main/java/Compare.java:152-154 | the lines mapped and joined by single spaces; no contract of its own, `NormalizeLinesIsJoin`, `NormalizeLinesKeepsText`, `NormalizeLinesOnlySpaces` and `NormalizeLinesAsCollapse` state its properties |
| Normalizer.NormalizeLinesIsJoin | src/main/java/Compare.java:152-154 | `getLinesAsString` is the normalized lines joined by single spaces, and "" for no lines |
| Normalizer.NormalizeLinesAppend | src/main/java/Compare.java:152-154 | one more line appends a space and that line normalized |
| Normalizer.NormalizeLinesKeepsText | src/main/java/Compare.java:152-154 | the result keeps every non-whitespace character of every line, in order |
| Normalizer.NormalizeLinesOnlySpaces | src/main/java/Compare.java:152-154 | the only whitespace character left in the result is ' ' |
| Normalizer.NormalizeLinesAsCollapse | src/main/java/Compare.java:152-154 | for lines that are non-empty and neither start nor end in whitespace, normalizing and joining equals joining and then collapsing |
| Normalizer.TrailingSpaceNotCollapsed | src/main/java/Compare.java:152-154 | the lines "a " and "b" give "a  b", which is not collapsed: the collapsing holds per line only |
| Normalizer.DoubleSpaceNormalizesAway | src/main/java/Compare.java:153 | "a  b" and "a b" normalize to the same "a b" |
| Ranking.Insert | src/main/java/Compare.java:124 | inserting one result adds exactly that result to the multiset of the list |
| Ranking.Rank | src/main/java/Compare.java:124 | the ranked list is a permutation of the list |
| Ranking.InsertHead | src/main/java/Compare.java:124 | the inserted result goes first unless the first result outranks it |
| Ranking.InsertRanked | src/main/java/Compare.java:124 | inserting into a list ranked highest first keeps it ranked |
| Ranking.RankRanked | src/main/java/Compare.java:124 | after the sort the composite scores are non-increasing |
| Ranking.InsertStable | src/main/java/Compare.java:124 | the inserted result stays ahead of every result with the same composite score |
| Ranking.RankStable | src/main/java/Compare.java:124 | the sort is stable: for every score, the results with that score keep their order |
| Ranking.RankRankedUnchanged | src/main/java/Compare.java:124 | a list already ranked, such as one of equal scores, is left as it is |
| Sweep.GetLinesAsString | src/main/java/Compare.java:149-156 | the file's lines normalized, or `None` when the read throws; no contract of its own, `Score` states when it fails and the `Normalizer` lemmas about `NormalizeLines` state what it yields |
| Sweep.Pair | src/main/java/Compare.java:79-85 | a pair is scored exactly when both texts were obtained |
| Sweep.Score | src/main/java/Compare.java:79-87 | a pair is scored exactly when both files can be read, and its result holds the source first and the destination second |
| Sweep.Contents | src/main/java/Compare.java:79-80 | there is one read outcome per path |
| Sweep.ContentsAt | src/main/java/Compare.java:79-80 | read outcome k is `getLinesAsString` of path k |
| Sweep.ScoreAtIsScore | src/main/java/Compare.java:79-87 | scoring pair (a, b) scores paths a and b |
| Sweep.DistinctAt | src/main/java/Compare.java:72 | in a list of distinct paths, two positions hold equal paths exactly when they are the same position |
| Sweep.MaxWidth | src/main/java/Compare.java:57-66 | the running `Math.max` of the absolute path lengths; no contract of its own, `MaxWidthIsMaximum` and `MaxWidthAppend` state its properties |
| Sweep.MaxWidthIsMaximum | src/main/java/Compare.java:57-66 | `colWidPath` bounds every absolute path's length and is reached by one of them, or is 0 for no paths |
| Sweep.MaxWidthAppend | src/main/java/Compare.java:66 | each outer step takes the maximum of the width so far and the next path's length |
| Sweep.Row | src/main/java/Compare.java:68-87 | row a holds one pair per destination after a |
| Sweep.RowElements | src/main/java/Compare.java:68-87 | row a lists (a, a+1), (a, a+2), ... in order |
| Sweep.RowMember | src/main/java/Compare.java:68-87 | row a holds exactly the pairs (a, b) with a < b below the bound |
| Sweep.IndexPairsMember | src/main/java/Compare.java:64-87 | the pairs scored by the first i rows are exactly those a < b < n with a < i |
| Sweep.IndexPairsInRange | src/main/java/Compare.java:64-87 | every scored pair indexes the path list |
| Sweep.BeforeMember | src/main/java/Compare.java:64-87 | the pairs scored before visit (i, j) are exactly the earlier rows' pairs and (i, b) with i < b < j |
| Sweep.BeforeInRange | src/main/java/Compare.java:64-87 | every pair scored before a visit indexes the path list |
| Sweep.IndexPairsLength | src/main/java/Compare.java:64-87 | the first i rows hold i(2n - i - 1)/2 pairs |
| Sweep.IndexPairsSorted | src/main/java/Compare.java:64-87 | the pairs come in strictly increasing row-major order, so none repeats |
| Sweep.BeforeIsPrefix | src/main/java/Compare.java:64-87 | the pairs scored before any visit are a prefix of all pairs |
| Sweep.ScoreAllSnoc | src/main/java/Compare.java:64-87 | scoring one more pair extends the scan by that pair |
| Sweep.ScoreAll | src/main/java/Compare.java:64-97 | the specification of the sweep: score the pairs in order and stop at the first unreadable one; no contract of its own, `ScoreAllSnoc`, `ScoreAllSucceeded`, `ScoreAllStaysFailed` and `ScoreAllFailed` state its properties |
| Sweep.ScoreAllSucceeded | src/main/java/Compare.java:79-87 | a scan without failure holds one entry per pair, the scores of that pair |
| Sweep.ScoreAllStaysFailed | src/main/java/Compare.java:88-94 | once a scan has failed, further pairs change nothing |
| Sweep.ScoreAllFailed | src/main/java/Compare.java:77-94 | a failed scan stopped at a pair whose files cannot be read, holding the scores of exactly the pairs before it |
| Sweep.ScoreAllFailedEarlier | src/main/java/Compare.java:88-94 | a failure among the earlier pairs is the failure of the whole scan |
| Sweep.PairPresentIff | src/main/java/Compare.java:72-76 | at visit (i, j), i != j, an entry for the same unordered pair is present exactly when j < i |
| Sweep.BeforeRowStart | src/main/java/Compare.java:64-68 | at the start of row i the scored pairs are those of the first i rows |
| Sweep.BeforeRowEnd | src/main/java/Compare.java:64-96 | at the end of row i the scored pairs are those of the first i + 1 rows |
| Sweep.BeforeStep | src/main/java/Compare.java:68-95 | visit (i, j) adds the pair (i, j) when i < j and nothing otherwise |
| Sweep.SweepState | src/main/java/Compare.java:64-97 | the state of the two loops visit by visit, skipping self-pairs and pairs already present; no contract of its own, `SweepStateIsScoreAll` ties it to `ScoreAll` |
| Sweep.SweepStateIsScoreAll | src/main/java/Compare.java:64-97 | the visit-by-visit state of the loops is the scan of exactly the pairs a < b visited so far |
| Sweep.SweepStateRowStart | src/main/java/Compare.java:64-68 | the loop state at the start of a row is the scan of the pairs before it |
| Sweep.SweepStateStep | src/main/java/Compare.java:68-95 | the loop state after a visit is the scan of the pairs before it |
| Sweep.SweepStateScored | src/main/java/Compare.java:74-87 | scoring pair (i, j) extends the loop state by that pair |
| Sweep.SweepStateStaysFailed | src/main/java/Compare.java:88-94 | a failed visit ends the sweep in that state |
| Sweep.ReachedSkip | src/main/java/Compare.java:72-76 | a self-pair or a pair already present leaves the results unchanged |
| Sweep.ReachedScore | src/main/java/Compare.java:77-94 | a new pair appends its scores, or ends the sweep failed at that pair |
| Sweep.ReachedIsScoreAll | src/main/java/Compare.java:64-97 | the results at any visit are the scan of the pairs before it |
| Sweep.ReachedRowEnd | src/main/java/Compare.java:64-96 | the end of a row is the start of the next |
| Sweep.ReachedStaysFailed | src/main/java/Compare.java:88-94 | a failure at a visit is the final state of the sweep |
| Sweep.FinalScan | src/main/java/Compare.java:64-97 | the final state of the sweep is the scan of all pairs a < b |
| Sweep.ContainsSamePair | src/main/java/Compare.java:76 | `contains` finds an equal result exactly when the list holds the same unordered pair |
| Sweep.PresentIff | src/main/java/Compare.java:74-76 | at visit (i, j), i != j, `contains` is true exactly when j < i |
| Sweep.Contains | src/main/java/Compare.java:76 | the linear scan returns true exactly when some list member is equal to the new result |
| Sweep.Visit | src/main/java/Compare.java:68-95 | one visit skips a self-pair, and otherwise moves the state to the next visit or ends it failed at this pair with the list unchanged |
| Sweep.VisitPair | src/main/java/Compare.java:74-94 | a pair already present is skipped; a new pair is scored and appended, or is the failed pair with the list unchanged |
| Sweep.ScorePair | src/main/java/Compare.java:77-94 | both files are read, source first; on success the result gets the four metric scores and is appended; a failed read leaves the list as it was |
| Sweep.SweepRow | src/main/java/Compare.java:68-96 | the inner loop advances the counter once per visit, and either reaches the next row or ends at the first failed destination, past row i's diagonal |
| Sweep.Sweep | src/main/java/Compare.java:57-97 | the sweep's results are the scan of all pairs a < b; on success the counter is n² + 1 and the width is the longest absolute path; on failure the counter and width are those at the failed pair |
| Sweep.CounterFitsInt | src/main/java/Compare.java:59 | the final counter n² + 1 fits the 32-bit `int` `counter` exactly when n ≤ 46340, so `Sweep`'s counter ensures is the program's value in that range and not beyond it |
| Comparison.SweptIsFinal | src/main/java/Compare.java:64-97 | the state the sweep ends in is the specification scan |
| Comparison.Swept | src/main/java/Compare.java:64-97 | the scan of every pair a < b in visiting order; no contract of its own, `SweptEntries`, `SweptOnePerPair` and `AbortedAtFirstFailure` state its properties and `Compare` is proved against it |
| Comparison.SweptEntries | src/main/java/Compare.java:64-87 | a completed sweep holds, in row-major order of a < b, the scores of (paths[a], paths[b]) |
| Comparison.DistinctPairs | src/main/java/Compare.java:72-87 | entries that follow increasing index pairs of distinct files pair no file with itself and repeat no unordered pair |
| Comparison.SweptOnePerPair | src/main/java/Compare.java:64-87 | a completed sweep holds n(n-1)/2 results, none for a self-pair, no two equal, and one for every pair a < b |
| Comparison.OnePerPair | src/main/java/Compare.java:64-87 | entries that follow all pairs a < b of distinct files hold exactly one result per pair |
| Comparison.PairCount | src/main/java/Compare.java:64-87 | there are n(n-1)/2 pairs a < b < n |
| Comparison.AllPairsCovered | src/main/java/Compare.java:64-87 | entries that follow all pairs a < b hold a result for each of them |
| Comparison.NoRepeatedPair | src/main/java/Compare.java:72-87 | entries that follow all pairs a < b of distinct files hold no self-pair and no repeated pair |
| Comparison.PairCovered | src/main/java/Compare.java:64-87 | the pair (paths[a], paths[b]) has its entry |
| Comparison.FailureIsFirst | src/main/java/Compare.java:77-94 | a scan over increasing pairs that failed at a pair had read both files of every earlier pair |
| Comparison.AbortedAtFirstFailure | src/main/java/Compare.java:77-94 | an aborted sweep stopped at the first pair a < b, in visiting order, one of whose files cannot be read |
| Comparison.Compare | src/main/java/Compare.java:57-124 | the run aborts exactly when the sweep fails, naming the failed pair and leaving the widths alone; otherwise columns 0, 5 and 6 become the digit count of n² and the longest path, the separator is built from the new widths, and the ranked list is the sort of the results, which hold the scores of all pairs a < b |

## Left out

- File discovery (`Files.walk`, the directory and file-name filters, and `sorted`): this is file-system I/O. The model takes any list of distinct paths as its input; the walk supplies a sorted one, and nothing in the model relies on the order.
- `main`, `promptDir` and `promptSpaceDelimited`: console input is not modelled.
- Printing: the progress percentage, the header and row format strings, the printed rows and the elapsed time are console output, and the clock is not modelled. The row separator, which those lines print, is modelled.
- The four metric algorithms (`JaccardSimilarity`, `JaroWinklerSimilarity`, `LongestCommonSubsequence` and `FuzzyScore`) belong to a library that is not part of this model. They are uninterpreted fields of `Env`, and nothing is claimed about their values.
- Reading a file (`Files.newBufferedReader`, `lines`) is the field `readLines` of `Env`. It is a deterministic function of the path, with `None` for a read that throws. A file read twice therefore gives the same lines both times.
- Floating point: scores are `real`. `Double.compare` is modelled for values that are neither NaN nor signed zeros. `compareSize` is the exact integer n², whose digits `%.0f` prints.
- CompareResults.CompareResult.Composite: adds the two scores exactly, while Java rounds `scoreJaccard + scoreJaro` to a `double`; two composites that differ by less than the rounding error tie in the program, so `List.sort` keeps them in insertion order, while `Rank` orders them strictly.
- Path equality is taken to be string equality, as on a case-sensitive file system. On Windows `Path.equals` ignores case, so the model assumes that no two walked paths differ only in case.
- Sweep.MaxWidth: counts the characters of `absolute(p)` as Dafny characters, that is Unicode scalar values, while `toString().length()` counts UTF-16 code units. A path with characters outside the Basic Multilingual Plane gives Java a larger `colWidPath`, and so wider path columns and a longer separator, unless `absolute` is read as yielding one character per UTF-16 code unit.
- `CompareResult.hashCode` is not modelled. `ArrayList.contains` does not call it.
- `System.exit(0)` and `printStackTrace` become the `Aborted` outcome with the two paths that are printed.
- Sweep.Sweep: the counter is Dafny's unbounded `int`, while `counter` (Compare.java line 59) is a 32-bit `int`. The ensures `counter == |paths| * |paths| + 1` holds of the program only for n ≤ 46340 paths; for 46341 or more, n² + 1 exceeds 2³¹ − 1 and the program's counter wraps to a negative value. `Sweep.CounterFitsInt` states the bound. The same holds for `Sweep.SweepRow`'s counter. The counter is only printed as the progress sequence number.
- Sweep.ScorePair: an exception thrown by a metric is not modelled. The metrics throw only for null arguments, which never occur here.
- Ranking.Rank: models what `List.sort` guarantees (a stable sort by the reversed `compareTo`) as a stable insertion sort, not the TimSort steps.
- Layout.BuildSeparator: requires a width of at least 0. All widths of the table are lengths or constants and so are never negative.
- `ARR_COL_WIDTHS` is passed to `Comparison.Compare` as an array of `int`. The `Float`-versus-`Integer` distinction of its entries only selects a format string for printing.
