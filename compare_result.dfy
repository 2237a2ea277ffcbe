/**
 * One scored pair of files: the class `CompareResult`. It is built with its two paths and
 * zero scores, filled in by a single `update`, compared with other results by the sum of
 * its Jaccard and Jaro-Winkler scores, and equal to another result when the two unordered
 * pairs of paths are the same.
 */
module CompareResults {

  /**
   * A file path, identified by its textual form: two paths are taken to be equal exactly
   * when their texts are, as `Path.equals` decides on a case-sensitive file system.
   */
  type Path = string

  /** The value held by a `CompareResult`: both paths and the four scores. */
  datatype Entry = Entry(first: Path, second: Path, jaccard: real, jaro: real, lcs: int, fuzzy: int)

  /** `{first, second}` and `{otherFirst, otherSecond}` are the same unordered pair. */
  predicate SamePair(first: Path, second: Path, otherFirst: Path, otherSecond: Path)
  {
    (first == otherFirst && second == otherSecond) || (first == otherSecond && second == otherFirst)
  }

  /** `Double.compare` on values that are neither NaN nor signed zeros: -1, 0 or 1. */
  function DoubleCompare(x: real, y: real): (c: int)
    ensures c == -1 || c == 0 || c == 1
    ensures c < 0 <==> x < y
    ensures c == 0 <==> x == y
    ensures c > 0 <==> x > y
  {
    if x < y then -1 else if x > y then 1 else 0
  }

  class CompareResult {
    var pathFirstFile: Path
    var pathSecondFile: Path
    var scoreJaccard: real
    var scoreJaro: real
    var scoreLCS: int
    var scoreFuzzy: int

    /** A new result holds the two given paths and four zero scores (Java's field defaults). */
    constructor (pathFirstFile: Path, pathSecondFile: Path)
      ensures this.pathFirstFile == pathFirstFile && this.pathSecondFile == pathSecondFile
      ensures scoreJaccard == 0.0 && scoreJaro == 0.0 && scoreLCS == 0 && scoreFuzzy == 0
    {
      this.pathFirstFile := pathFirstFile;
      this.pathSecondFile := pathSecondFile;
      scoreJaccard, scoreJaro, scoreLCS, scoreFuzzy := 0.0, 0.0, 0, 0;
    }

    /** The composite score by which results are ranked. */
    function Composite(): real
      reads this
    {
      scoreJaccard + scoreJaro
    }

    /** `compareTo`: the sign of the comparison of the two composite scores. */
    function CompareTo(other: CompareResult): (c: int)
      reads this, other
      ensures c < 0 <==> Composite() < other.Composite()
      ensures c == 0 <==> Composite() == other.Composite()
      ensures c > 0 <==> Composite() > other.Composite()
    {
      DoubleCompare(scoreJaccard + scoreJaro, other.scoreJaccard + other.scoreJaro)
    }

    /** `equals`: the same object, or the same two paths in either order; scores are ignored. */
    predicate Equals(other: CompareResult?)
      reads this, other
    {
      this == other
      || (other != null && SamePair(pathFirstFile, pathSecondFile, other.pathFirstFile, other.pathSecondFile))
    }

    /** `update`: sets the four scores and leaves both paths as they were. */
    method Update(scoreJaccard: real, scoreJaro: real, scoreLCS: int, scoreFuzzy: int)
      modifies this
      ensures this.scoreJaccard == scoreJaccard && this.scoreJaro == scoreJaro
      ensures this.scoreLCS == scoreLCS && this.scoreFuzzy == scoreFuzzy
      ensures pathFirstFile == old(pathFirstFile) && pathSecondFile == old(pathSecondFile)
    {
      this.scoreJaccard := scoreJaccard;
      this.scoreJaro := scoreJaro;
      this.scoreLCS := scoreLCS;
      this.scoreFuzzy := scoreFuzzy;
    }

    /** The current field values. */
    function View(): Entry
      reads this
    {
      Entry(pathFirstFile, pathSecondFile, scoreJaccard, scoreJaro, scoreLCS, scoreFuzzy)
    }
  }

  /** The field values of a list of results, in list order. */
  function Views(s: seq<CompareResult>): (r: seq<Entry>)
    reads s
    ensures |r| == |s|
  {
    if s == [] then [] else Views(s[..|s| - 1]) + [s[|s| - 1].View()]
  }

  /** Position k of the list of field values holds the fields of result k. */
  lemma {:induction false} ViewsElements(s: seq<CompareResult>)
    ensures forall k :: 0 <= k < |s| ==> Views(s)[k] == s[k].View()
  {
    if s != [] {
      ViewsElements(s[..|s| - 1]);
    }
  }

  lemma ViewsAppend(s: seq<CompareResult>, o: CompareResult)
    ensures Views(s + [o]) == Views(s) + [o.View()]
  {
    assert (s + [o])[..|s|] == s;
  }

  /** Two results are equal exactly when they hold the same multiset of two paths. */
  lemma {:induction false} EqualsIsUnorderedPair(a: CompareResult, b: CompareResult)
    ensures a.Equals(b) <==>
      multiset{a.pathFirstFile, a.pathSecondFile} == multiset{b.pathFirstFile, b.pathSecondFile}
  {
    var ma := multiset{a.pathFirstFile, a.pathSecondFile};
    var mb := multiset{b.pathFirstFile, b.pathSecondFile};
    if ma == mb {
      assert a.pathFirstFile in mb;
      if a.pathFirstFile == b.pathFirstFile {
        assert mb - multiset{b.pathFirstFile} == multiset{b.pathSecondFile};
        assert ma - multiset{a.pathFirstFile} == multiset{a.pathSecondFile};
      } else {
        assert a.pathFirstFile == b.pathSecondFile;
        assert mb - multiset{b.pathSecondFile} == multiset{b.pathFirstFile};
        assert ma - multiset{a.pathFirstFile} == multiset{a.pathSecondFile};
      }
    }
  }

  /** `equals` is reflexive and symmetric: the result for (A, B) equals the one for (B, A). */
  lemma EqualsReflexiveSymmetric(a: CompareResult, b: CompareResult)
    ensures a.Equals(a)
    ensures a.Equals(b) <==> b.Equals(a)
    ensures a.pathFirstFile == b.pathSecondFile && a.pathSecondFile == b.pathFirstFile ==> a.Equals(b)
  {
  }

  /** `equals` is transitive, so together with the lemma above it is an equivalence. */
  lemma EqualsTransitive(a: CompareResult, b: CompareResult, c: CompareResult)
    requires a.Equals(b) && b.Equals(c)
    ensures a.Equals(c)
  {
  }

  /** `equals` reads only the paths: results with the same paths are equal whatever their scores. */
  lemma EqualsIgnoresScores(a: CompareResult, b: CompareResult, c: CompareResult, d: CompareResult)
    requires a.pathFirstFile == c.pathFirstFile && a.pathSecondFile == c.pathSecondFile
    requires b.pathFirstFile == d.pathFirstFile && b.pathSecondFile == d.pathSecondFile
    ensures a.Equals(b) <==> c.Equals(d)
    ensures a.Equals(c)
  {
  }

  /** `compareTo` is antisymmetric in sign. */
  lemma CompareToAntisymmetric(a: CompareResult, b: CompareResult)
    ensures a.CompareTo(b) == -b.CompareTo(a)
  {
  }

  /** `compareTo` reads only the two composite scores, never the paths. */
  lemma CompareToIgnoresPaths(a: CompareResult, b: CompareResult, c: CompareResult, d: CompareResult)
    requires a.Composite() == c.Composite() && b.Composite() == d.Composite()
    ensures a.CompareTo(b) == c.CompareTo(d)
  {
  }
}
