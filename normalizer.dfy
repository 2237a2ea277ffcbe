/**
 * The content normalizer: the pure part of `getLinesAsString`, which maps every line
 * through `line.replaceAll("\\s+", " ")` and joins the results with `Collectors.joining(" ")`.
 * Reading the lines from the file is a separate step (see `Sweep.GetLinesAsString`).
 */
module Normalizer {
  import opened Strings

  /**
   * The characters of the Java regular-expression class `\s`: space, and \t, \n, \x0B, \f
   * and \r, which are the consecutive code points 9 to 13.
   */
  predicate IsWhitespace(c: char)
  {
    c == ' ' || '\t' <= c <= '\r'
  }

  /** No two neighbouring whitespace characters, and the only whitespace character is ' '. */
  predicate Collapsed(s: string)
  {
    && (forall k :: 0 <= k < |s| && IsWhitespace(s[k]) ==> s[k] == ' ')
    && (forall k :: 0 <= k < |s| - 1 ==> !(IsWhitespace(s[k]) && IsWhitespace(s[k + 1])))
  }

  predicate AllWhitespace(s: string)
  {
    forall k :: 0 <= k < |s| ==> IsWhitespace(s[k])
  }

  /** The non-whitespace characters of `s`, in order. */
  function Text(s: string): string
  {
    if s == [] then ""
    else if IsWhitespace(s[0]) then Text(s[1..])
    else [s[0]] + Text(s[1..])
  }

  /** Removes the whole leading run of whitespace, and nothing else. */
  function DropWhitespace(s: string): (r: string)
    ensures |r| <= |s|
  {
    if s != [] && IsWhitespace(s[0]) then DropWhitespace(s[1..]) else s
  }

  /** What is dropped is all whitespace, and what is left is a suffix that does not start with it. */
  lemma {:induction false} DropWhitespaceShape(s: string)
    ensures var r := DropWhitespace(s);
      && r == s[|s| - |r|..]
      && (r == [] || !IsWhitespace(r[0]))
      && AllWhitespace(s[..|s| - |r|])
  {
    if s != [] && IsWhitespace(s[0]) {
      DropWhitespaceShape(s[1..]);
      var r := DropWhitespace(s);
      assert s[..|s| - |r|] == [s[0]] + s[1..][..|s| - 1 - |r|];
    }
  }

  /**
   * `s.replaceAll("\\s+", " ")`: every maximal run of whitespace becomes one ' '.
   * Nothing is trimmed: a leading or trailing run leaves a leading or trailing ' '.
   */
  function CollapseWhitespace(s: string): (r: string)
    decreases |s|
  {
    if s == [] then ""
    else if IsWhitespace(s[0]) then " " + CollapseWhitespace(DropWhitespace(s[1..]))
    else [s[0]] + CollapseWhitespace(s[1..])
  }

  /** Prepending a character keeps a string collapsed unless it starts a second whitespace. */
  lemma CollapsedCons(c: char, t: string)
    requires Collapsed(t)
    requires IsWhitespace(c) ==> c == ' ' && (t == [] || !IsWhitespace(t[0]))
    ensures Collapsed([c] + t)
  {
    var u := [c] + t;
    forall k | 0 <= k < |u| - 1
      ensures !(IsWhitespace(u[k]) && IsWhitespace(u[k + 1]))
    {
      if k > 0 {
        assert u[k] == t[k - 1] && u[k + 1] == t[k];
      }
    }
    forall k | 0 <= k < |u| && IsWhitespace(u[k])
      ensures u[k] == ' '
    {
      if k > 0 {
        assert u[k] == t[k - 1];
      }
    }
  }

  /** The result contains no whitespace other than single spaces. */
  lemma {:induction false} CollapseIsCollapsed(s: string)
    ensures Collapsed(CollapseWhitespace(s))
    decreases |s|
  {
    if s == [] {
    } else if IsWhitespace(s[0]) {
      var rest := DropWhitespace(s[1..]);
      DropWhitespaceShape(s[1..]);
      CollapseIsCollapsed(rest);
      CollapseStart(rest);
      CollapsedCons(' ', CollapseWhitespace(rest));
    } else {
      CollapseIsCollapsed(s[1..]);
      CollapsedCons(s[0], CollapseWhitespace(s[1..]));
    }
  }

  /** The result is empty only for the empty line and starts with whitespace exactly when the line does. */
  lemma CollapseStart(s: string)
    ensures CollapseWhitespace(s) == [] <==> s == []
    ensures s != [] ==> (IsWhitespace(CollapseWhitespace(s)[0]) <==> IsWhitespace(s[0]))
  {
  }

  /** The result ends with whitespace exactly when the line does: trailing whitespace is not trimmed. */
  lemma {:induction false} CollapseEnd(s: string)
    requires s != []
    ensures CollapseWhitespace(s) != []
    ensures IsWhitespace(CollapseWhitespace(s)[|CollapseWhitespace(s)| - 1]) <==> IsWhitespace(s[|s| - 1])
    decreases |s|
  {
    if IsWhitespace(s[0]) {
      var rest := DropWhitespace(s[1..]);
      DropWhitespaceShape(s[1..]);
      if rest == [] {
        assert AllWhitespace(s[1..]);
        assert IsWhitespace(s[|s| - 1]) by {
          if |s| > 1 { assert s[1..][|s| - 2] == s[|s| - 1]; }
        }
      } else {
        CollapseEnd(rest);
        assert rest[|rest| - 1] == s[1..][|s| - 2] == s[|s| - 1];
      }
    } else if |s| > 1 {
      CollapseEnd(s[1..]);
      assert s[1..][|s| - 2] == s[|s| - 1];
    }
  }

  /** The normalized lines in order, joined by single spaces; no lines give "". */
  function NormalizeLines(lines: seq<string>): string
  {
    if lines == [] then ""
    else if |lines| == 1 then CollapseWhitespace(lines[0])
    else NormalizeLines(lines[..|lines| - 1]) + " " + CollapseWhitespace(lines[|lines| - 1])
  }

  function CollapseEach(lines: seq<string>): (r: seq<string>)
    ensures |r| == |lines|
  {
    if lines == [] then [] else CollapseEach(lines[..|lines| - 1]) + [CollapseWhitespace(lines[|lines| - 1])]
  }

  /** Each line is collapsed on its own. */
  lemma {:induction false} CollapseEachElements(lines: seq<string>)
    ensures forall k :: 0 <= k < |lines| ==> CollapseEach(lines)[k] == CollapseWhitespace(lines[k])
  {
    if lines != [] {
      CollapseEachElements(lines[..|lines| - 1]);
    }
  }

  lemma {:induction false} TextAppend(x: string, y: string)
    ensures Text(x + y) == Text(x) + Text(y)
  {
    if x == [] {
      assert x + y == y;
    } else {
      assert (x + y)[1..] == x[1..] + y;
      TextAppend(x[1..], y);
    }
  }

  /** Only whitespace is removed from the front. */
  lemma {:induction false} TextDropWhitespace(s: string)
    ensures Text(DropWhitespace(s)) == Text(s)
  {
    if s != [] && IsWhitespace(s[0]) {
      TextDropWhitespace(s[1..]);
    }
  }

  /** Collapsing keeps every non-whitespace character, in order. */
  lemma {:induction false} CollapseKeepsText(s: string)
    ensures Text(CollapseWhitespace(s)) == Text(s)
    decreases |s|
  {
    if s == [] {
    } else if IsWhitespace(s[0]) {
      var rest := DropWhitespace(s[1..]);
      CollapseKeepsText(rest);
      TextDropWhitespace(s[1..]);
      assert (" " + CollapseWhitespace(rest))[1..] == CollapseWhitespace(rest);
    } else {
      CollapseKeepsText(s[1..]);
      assert ([s[0]] + CollapseWhitespace(s[1..]))[1..] == CollapseWhitespace(s[1..]);
    }
  }

  /** A non-empty run made only of whitespace becomes exactly one space. */
  lemma CollapseRun(w: string)
    requires w != [] && AllWhitespace(w)
    ensures CollapseWhitespace(w) == " "
  {
    DropWhitespaceShape(w[1..]);
  }

  lemma CollapseConsWhitespace(c: char, t: string)
    requires IsWhitespace(c)
    ensures CollapseWhitespace([c] + t) == " " + CollapseWhitespace(DropWhitespace(t))
  {
    assert ([c] + t)[1..] == t;
  }

  lemma CollapseConsText(c: char, t: string)
    requires !IsWhitespace(c)
    ensures CollapseWhitespace([c] + t) == [c] + CollapseWhitespace(t)
  {
    assert ([c] + t)[1..] == t;
  }

  /**
   * Collapsing distributes over a concatenation that does not cut a whitespace run in two:
   * the runs of `x + y` are then the runs of `x` followed by the runs of `y`.
   */
  lemma {:induction false} CollapseAppend(x: string, y: string)
    requires x == [] || y == [] || !IsWhitespace(x[|x| - 1]) || !IsWhitespace(y[0])
    ensures CollapseWhitespace(x + y) == CollapseWhitespace(x) + CollapseWhitespace(y)
    decreases |x|, 2
  {
    if x == [] {
      assert x + y == y;
    } else if y == [] {
      assert x + y == x;
    } else {
      var c, t := x[0], x[1..];
      assert x == [c] + t;
      assert t != [] ==> t[|t| - 1] == x[|x| - 1];
      if IsWhitespace(c) {
        CollapseAppendRun(c, t, y);
      } else {
        CollapseAppendText(c, t, y);
      }
    }
  }

  /** Dropping the leading whitespace of u + y: u's own, and y's as well when u was only whitespace. */
  lemma {:induction false} DropWhitespaceSplit(u: string, y: string)
    ensures DropWhitespace(u + y) == if DropWhitespace(u) == [] then DropWhitespace(y) else DropWhitespace(u) + y
  {
    if u == [] {
      assert u + y == y;
    } else {
      assert (u + y)[0] == u[0];
      if IsWhitespace(u[0]) {
        assert (u + y)[1..] == u[1..] + y;
        DropWhitespaceSplit(u[1..], y);
      }
    }
  }

  /** A non-empty string is only whitespace, or keeps its last character when its leading run is dropped. */
  lemma {:induction false} DropWhitespaceLast(s: string)
    requires s != []
    ensures DropWhitespace(s) == [] ==> IsWhitespace(s[|s| - 1])
    ensures DropWhitespace(s) != [] ==> DropWhitespace(s)[|DropWhitespace(s)| - 1] == s[|s| - 1]
  {
    if IsWhitespace(s[0]) && |s| > 1 {
      DropWhitespaceLast(s[1..]);
      assert s[1..][|s| - 2] == s[|s| - 1];
    }
  }

  /** CollapseAppend for x = [c] + t, where c is whitespace. */
  lemma {:induction false} CollapseAppendRun(c: char, t: string, y: string)
    requires IsWhitespace(c) && y != []
    requires !IsWhitespace(if t == [] then c else t[|t| - 1]) || !IsWhitespace(y[0])
    ensures CollapseWhitespace([c] + t + y) == CollapseWhitespace([c] + t) + CollapseWhitespace(y)
    decreases |t| + 1, 1
  {
    AppendAssoc([c], t, y);
    CollapseConsWhitespace(c, t + y);
    CollapseConsWhitespace(c, t);
    CollapseDropAppend(c, t, y);
    AppendAssoc(" ", CollapseWhitespace(DropWhitespace(t)), CollapseWhitespace(y));
  }

  /** After the run that c starts, the rest of [c] + t + y collapses as the rest of [c] + t, then y. */
  lemma {:induction false} CollapseDropAppend(c: char, t: string, y: string)
    requires IsWhitespace(c) && y != []
    requires !IsWhitespace(if t == [] then c else t[|t| - 1]) || !IsWhitespace(y[0])
    ensures CollapseWhitespace(DropWhitespace(t + y)) == CollapseWhitespace(DropWhitespace(t)) + CollapseWhitespace(y)
    decreases |t| + 1, 0
  {
    DropWhitespaceSplit(t, y);
    var rest := DropWhitespace(t);
    if rest == [] {
      if t != [] {
        DropWhitespaceLast(t);
      }
      assert DropWhitespace(y) == y;
      assert "" + CollapseWhitespace(y) == CollapseWhitespace(y);
    } else {
      DropWhitespaceLast(t);
      CollapseAppend(rest, y);
    }
  }

  /** CollapseAppend for x = [c] + t, where c is not whitespace. */
  lemma {:induction false} CollapseAppendText(c: char, t: string, y: string)
    requires !IsWhitespace(c) && y != []
    requires !IsWhitespace(if t == [] then c else t[|t| - 1]) || !IsWhitespace(y[0])
    ensures CollapseWhitespace([c] + t + y) == CollapseWhitespace([c] + t) + CollapseWhitespace(y)
    decreases |t| + 1, 0
  {
    AppendAssoc([c], t, y);
    CollapseConsText(c, t + y);
    CollapseConsText(c, t);
    CollapseAppend(t, y);
    AppendAssoc([c], CollapseWhitespace(t), CollapseWhitespace(y));
  }

  /** A string is left unchanged by collapsing exactly when it is already collapsed. */
  lemma {:induction false} CollapseFixedPoint(s: string)
    ensures CollapseWhitespace(s) == s <==> Collapsed(s)
    decreases |s|
  {
    CollapseIsCollapsed(s);
    if s != [] && Collapsed(s) {
      assert Collapsed(s[1..]);
      CollapseFixedPoint(s[1..]);
      if IsWhitespace(s[0]) {
        assert s[1..] == [] || !IsWhitespace(s[1..][0]);
        assert DropWhitespace(s[1..]) == s[1..];
      }
    }
  }

  /** Collapsing twice is collapsing once. */
  lemma CollapseIdempotent(s: string)
    ensures CollapseWhitespace(CollapseWhitespace(s)) == CollapseWhitespace(s)
  {
    CollapseIsCollapsed(s);
    CollapseFixedPoint(CollapseWhitespace(s));
  }

  /** The stream pipeline as written: map every line through the collapse, then join with " ". */
  lemma {:induction false} NormalizeLinesIsJoin(lines: seq<string>)
    ensures NormalizeLines(lines) == Join(CollapseEach(lines), " ")
  {
    if |lines| > 1 {
      var init := lines[..|lines| - 1];
      NormalizeLinesIsJoin(init);
      var parts := CollapseEach(lines);
      assert parts[..|parts| - 1] == CollapseEach(init);
    } else if |lines| == 1 {
      assert lines[..0] == [];
    }
  }

  /** Appending a line adds one separating space and that line's collapsed form. */
  lemma NormalizeLinesAppend(lines: seq<string>, line: string)
    requires lines != []
    ensures NormalizeLines(lines + [line]) == NormalizeLines(lines) + " " + CollapseWhitespace(line)
  {
    assert (lines + [line])[..|lines|] == lines;
  }

  /** The non-whitespace text of the result is that of the lines, concatenated in order. */
  lemma {:induction false} NormalizeLinesKeepsText(lines: seq<string>)
    ensures Text(NormalizeLines(lines)) == Concat(seq(|lines|, k requires 0 <= k < |lines| => Text(lines[k])))
  {
    var texts := seq(|lines|, k requires 0 <= k < |lines| => Text(lines[k]));
    if |lines| == 1 {
      CollapseKeepsText(lines[0]);
      assert Concat(texts) == Concat([]) + texts[0];
    } else if |lines| > 1 {
      var init := lines[..|lines| - 1];
      NormalizeLinesKeepsText(init);
      assert init + [lines[|lines| - 1]] == lines;
      NormalizeLinesAppend(init, lines[|lines| - 1]);
      TextAppend(NormalizeLines(init) + " ", CollapseWhitespace(lines[|lines| - 1]));
      TextAppend(NormalizeLines(init), " ");
      CollapseKeepsText(lines[|lines| - 1]);
      assert texts[..|lines| - 1] == seq(|init|, k requires 0 <= k < |init| => Text(init[k]));
    }
  }

  /** Every whitespace character of the result is a plain space. */
  lemma {:induction false} NormalizeLinesOnlySpaces(lines: seq<string>)
    ensures forall k :: 0 <= k < |NormalizeLines(lines)| && IsWhitespace(NormalizeLines(lines)[k])
                        ==> NormalizeLines(lines)[k] == ' '
  {
    if |lines| == 1 {
      CollapseIsCollapsed(lines[0]);
    } else if |lines| > 1 {
      var init, last := lines[..|lines| - 1], lines[|lines| - 1];
      NormalizeLinesOnlySpaces(init);
      assert init + [last] == lines;
      NormalizeLinesAppend(init, last);
      CollapseIsCollapsed(last);
      var r, a, c := NormalizeLines(lines), NormalizeLines(init), CollapseWhitespace(last);
      assert r == a + " " + c;
      forall k | 0 <= k < |r| && IsWhitespace(r[k])
        ensures r[k] == ' '
      {
        if k < |a| {
          assert r[k] == a[k];
        } else if k > |a| {
          assert r[k] == c[k - |a| - 1];
        }
      }
    }
  }

  /**
   * When every line is non-empty and neither starts nor ends with whitespace, joining the
   * normalized lines is the same as collapsing the joined raw lines.
   */
  lemma {:induction false} NormalizeLinesAsCollapse(lines: seq<string>)
    requires forall k :: 0 <= k < |lines| ==>
      lines[k] != [] && !IsWhitespace(lines[k][0]) && !IsWhitespace(lines[k][|lines[k]| - 1])
    ensures NormalizeLines(lines) == CollapseWhitespace(Join(lines, " "))
  {
    if |lines| == 1 {
    } else if |lines| > 1 {
      var init := lines[..|lines| - 1];
      var last := lines[|lines| - 1];
      NormalizeLinesAsCollapse(init);
      assert init + [last] == lines;
      NormalizeLinesAppend(init, last);
      var joined := Join(init, " ");
      JoinEndsWith(init);
      CollapseAppend(joined, " ");
      CollapseAppend(joined + " ", last);
      CollapseRun(" ");
    }
  }

  lemma {:induction false} JoinEndsWith(lines: seq<string>)
    requires lines != []
    requires forall k :: 0 <= k < |lines| ==> lines[k] != [] && !IsWhitespace(lines[k][|lines[k]| - 1])
    ensures Join(lines, " ") != [] && !IsWhitespace(Join(lines, " ")[|Join(lines, " ")| - 1])
  {
  }

  /**
   * The collapsing holds per line only: a line with a trailing space, joined to the next,
   * leaves two neighbouring spaces in the result.
   */
  lemma TrailingSpaceNotCollapsed()
    ensures NormalizeLines(["a ", "b"]) == "a  b"
    ensures !Collapsed(NormalizeLines(["a ", "b"]))
  {
    CollapseFixedPoint("a ");
    CollapseFixedPoint("b");
    assert ["a ", "b"][..1] == ["a "];
    assert "a  b"[1] == ' ' && "a  b"[2] == ' ';
  }

  /** Lines that differ only in the length of a whitespace run normalize to the same string. */
  lemma DoubleSpaceNormalizesAway()
    ensures NormalizeLines(["a  b"]) == NormalizeLines(["a b"]) == "a b"
  {
    CollapseFixedPoint("a b");
    CollapseConsText('a', "  b");
    assert "a  b" == ['a'] + "  b";
    assert "  b" == [' '] + " b";
    CollapseConsWhitespace(' ', " b");
    assert DropWhitespace(" b") == "b";
    CollapseFixedPoint("b");
  }
}
