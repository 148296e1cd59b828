/**
 * The ordered line list of the line-based document, read on column 0: the
 * text it spells, the line-start invariant, the binary search that maps a
 * character index to its line, and the character lookup.
 */
module LineStore {
  import opened Wrappers
  import opened TextLines
  import opened Seqs

  function Txt(l: Line): string { LineText(l, 0) }

  function Len(l: Line): nat { LineLength(l, 0) }

  /** Every line's column-0 text followed by a line break. */
  function Flow(lines: seq<Line>): string
    decreases |lines|
  {
    if |lines| == 0 then "" else Flow(lines[..|lines| - 1]) + Txt(lines[|lines| - 1]) + "\n"
  }

  /** The document text: the flow without its final line break. */
  function Text(lines: seq<Line>): string
  {
    var f := Flow(lines);
    if |f| == 0 then "" else f[..|f| - 1]
  }

  /** TextDocumentByLines.TextLength: end of the last line, read on column 0. */
  function TextLength(lines: seq<Line>): int
  {
    if |lines| == 0 then 0 else lines[|lines| - 1].index + Len(lines[|lines| - 1])
  }

  /** Line k + 1 starts one past the end of line k. */
  predicate StepAt(lines: seq<Line>, k: int)
    requires 0 <= k < |lines| - 1
  {
    lines[k + 1].index == lines[k].index + Len(lines[k]) + 1
  }

  /** The line-start invariant: the first line starts at 0 and every step holds. */
  predicate LineStarts(lines: seq<Line>)
  {
    && (|lines| > 0 ==> lines[0].index == 0)
    && forall k :: 0 <= k < |lines| - 1 ==> StepAt(lines, k)
  }

  /** `index` lies on line k, whose end (the line break position) is inclusive. */
  predicate Holds(lines: seq<Line>, k: int, index: int)
    requires 0 <= k < |lines|
  {
    lines[k].index <= index <= lines[k].index + Len(lines[k])
  }

  // ---------------------------------------------------------------------------
  // The flow and its length
  // ---------------------------------------------------------------------------

  lemma {:induction false} FlowConcat(a: seq<Line>, b: seq<Line>)
    ensures Flow(a + b) == Flow(a) + Flow(b)
    decreases |b|
  {
    if |b| == 0 {
      assert a + b == a;
    } else {
      assert (a + b)[..|a + b| - 1] == a + b[..|b| - 1];
      FlowConcat(a, b[..|b| - 1]);
    }
  }

  /** The flow around line k. */
  lemma FlowAround(lines: seq<Line>, k: int)
    requires 0 <= k < |lines|
    ensures Flow(lines) == Flow(lines[..k]) + Txt(lines[k]) + "\n" + Flow(lines[k + 1..])
  {
    var pre, x, post := lines[..k], lines[k], lines[k + 1..];
    SplitAt(lines, k);
    var a, b, c := Flow(pre), Flow([x]), Flow(post);
    FlowConcat(pre + [x], post);
    FlowConcat(pre, [x]);
    FlowSingle(x);
    assert Flow(lines) == a + b + c;
    Assoc3(a, Txt(x), "\n", c);
  }

  lemma FlowSingle(x: Line)
    ensures Flow([x]) == Txt(x) + "\n"
  {
    assert [x][..0] == [];
  }

  lemma LineStartsPrefix(lines: seq<Line>, n: int)
    requires LineStarts(lines) && 0 <= n <= |lines|
    ensures LineStarts(lines[..n])
  {
    forall k | 0 <= k < n - 1
      ensures StepAt(lines[..n], k)
    {
      assert StepAt(lines, k);
    }
  }

  /** Under the invariant, the flow before line k is exactly lines[k].index long. */
  lemma {:induction false} FlowPrefixLength(lines: seq<Line>, k: int)
    requires LineStarts(lines) && 0 <= k < |lines|
    ensures |Flow(lines[..k])| == lines[k].index
    decreases k
  {
    if k > 0 {
      FlowPrefixLength(lines, k - 1);
      assert lines[..k][..k - 1] == lines[..k - 1];
      assert StepAt(lines, k - 1);
    }
  }

  /** Line k starts d characters past the flow of the lines before it. */
  predicate StartsAfter(lines: seq<Line>, k: int, d: int)
    requires 0 <= k < |lines|
  {
    lines[k].index == |Flow(lines[..k])| + d
  }

  lemma FlowPrefixStep(lines: seq<Line>, k: int)
    requires 0 <= k < |lines|
    ensures |Flow(lines[..k + 1])| == |Flow(lines[..k])| + Len(lines[k]) + 1
  {
    assert lines[..k + 1][..k] == lines[..k];
  }

  /**
   * The line-start invariant says exactly that every line starts where the
   * flow of the lines before it ends.
   */
  lemma LineStartsIsFlowStarts(lines: seq<Line>)
    ensures LineStarts(lines) <==> forall k :: 0 <= k < |lines| ==> StartsAfter(lines, k, 0)
  {
    if LineStarts(lines) {
      forall k | 0 <= k < |lines| ensures StartsAfter(lines, k, 0) {
        FlowPrefixLength(lines, k);
      }
    }
    if forall k :: 0 <= k < |lines| ==> StartsAfter(lines, k, 0) {
      forall k | 0 <= k < |lines| - 1 ensures StepAt(lines, k) {
        assert StartsAfter(lines, k, 0) && StartsAfter(lines, k + 1, 0);
        FlowPrefixStep(lines, k);
      }
      if |lines| > 0 {
        assert StartsAfter(lines, 0, 0);
      }
    }
  }

  /** The flow is the text plus one line break, so TextLength is the text's length. */
  lemma TextLengthIsLength(lines: seq<Line>)
    requires LineStarts(lines)
    ensures |lines| > 0 ==> Flow(lines) == Text(lines) + "\n"
    ensures |lines| > 0 ==> |Flow(lines)| == TextLength(lines) + 1
    ensures TextLength(lines) == |Text(lines)|
  {
    if |lines| > 0 {
      var n := |lines| - 1;
      FlowPrefixLength(lines, n);
      assert lines[..|lines|][..n] == lines[..n];
      assert Flow(lines) == Flow(lines[..n]) + Txt(lines[n]) + "\n";
    }
  }

  // ---------------------------------------------------------------------------
  // Order of the lines
  // ---------------------------------------------------------------------------

  /** TextLength is the length of the text (TextLengthIsLength without the flow). */
  lemma LengthOfText(lines: seq<Line>)
    requires LineStarts(lines)
    ensures TextLength(lines) == |Text(lines)|
  {
    TextLengthIsLength(lines);
  }

  /** Under the invariant a line ends strictly before any later line starts. */
  lemma {:induction false} LinesAscend(lines: seq<Line>, j: int, k: int)
    requires LineStarts(lines) && 0 <= j < k < |lines|
    ensures lines[j].index + Len(lines[j]) < lines[k].index
    decreases k - j
  {
    assert StepAt(lines, k - 1);
    if j < k - 1 {
      LinesAscend(lines, j, k - 1);
    }
  }

  lemma LineBounds(lines: seq<Line>, k: int)
    requires LineStarts(lines) && 0 <= k < |lines|
    ensures 0 <= lines[k].index
    ensures lines[k].index + Len(lines[k]) <= TextLength(lines)
  {
    if k > 0 {
      LinesAscend(lines, 0, k);
    }
    if k < |lines| - 1 {
      LinesAscend(lines, k, |lines| - 1);
    }
  }

  /** At most one line holds an index. */
  lemma HolderUnique(lines: seq<Line>, j: int, k: int, index: int)
    requires LineStarts(lines) && 0 <= j < |lines| && 0 <= k < |lines|
    requires Holds(lines, j, index) && Holds(lines, k, index)
    ensures j == k
  {
    if j < k {
      LinesAscend(lines, j, k);
    } else if k < j {
      LinesAscend(lines, k, j);
    }
  }

  /** Every index from 0 to TextLength is held by some line. */
  lemma {:induction false} HolderExists(lines: seq<Line>, index: int) returns (k: int)
    requires LineStarts(lines) && |lines| > 0 && 0 <= index <= TextLength(lines)
    ensures 0 <= k < |lines| && Holds(lines, k, index)
    decreases |lines|
  {
    var n := |lines| - 1;
    if index >= lines[n].index {
      k := n;
    } else {
      assert StepAt(lines, n - 1);
      LineStartsPrefix(lines, n);
      k := HolderExists(lines[..n], index);
    }
  }

  // ---------------------------------------------------------------------------
  // GetLineFromCharIndex
  // ---------------------------------------------------------------------------

  /** The binary search of GetLineFromCharIndex between lo and hi. */
  function SearchFrom(lines: seq<Line>, index: int, lo: int, hi: int): int
    requires 0 <= lo <= hi + 1 <= |lines|
    decreases hi - lo + 1
  {
    if lo > hi then |lines| - 1
    else
      var mid := (lo + hi) / 2;
      var m := lines[mid];
      if index < m.index then SearchFrom(lines, index, lo, mid - 1)
      else if index > m.index then
        if index <= m.index + Len(m) then mid else SearchFrom(lines, index, mid + 1, hi)
      else mid
  }

  /** GetLineFromCharIndex on column 0. */
  function LineFromCharIndex(lines: seq<Line>, index: int): int
  {
    if index == -1 || |lines| == 0 then -1 else SearchFrom(lines, index, 0, |lines| - 1)
  }

  lemma {:induction false} SearchFindsHolder(lines: seq<Line>, index: int, lo: int, hi: int)
    requires LineStarts(lines) && |lines| > 0 && 0 <= lo <= hi + 1 <= |lines|
    requires forall j :: 0 <= j < lo ==> lines[j].index + Len(lines[j]) < index
    requires forall j :: hi < j < |lines| ==> index < lines[j].index
    ensures var r := SearchFrom(lines, index, lo, hi);
      && 0 <= r < |lines|
      && (forall k :: 0 <= k < |lines| && Holds(lines, k, index) ==> r == k)
      && ((forall k :: 0 <= k < |lines| ==> !Holds(lines, k, index)) ==> r == |lines| - 1)
    decreases hi - lo + 1
  {
    var r := SearchFrom(lines, index, lo, hi);
    if lo > hi {
      forall k | 0 <= k < |lines| ensures !Holds(lines, k, index) {
      }
    } else {
      var mid := (lo + hi) / 2;
      var m := lines[mid];
      if index < m.index {
        forall j | mid - 1 < j < |lines| ensures index < lines[j].index {
          if j > mid { LinesAscend(lines, mid, j); }
        }
        SearchFindsHolder(lines, index, lo, mid - 1);
      } else if index > m.index && index > m.index + Len(m) {
        forall j | 0 <= j < mid + 1 ensures lines[j].index + Len(lines[j]) < index {
          if j < mid { LinesAscend(lines, j, mid); }
        }
        SearchFindsHolder(lines, index, mid + 1, hi);
      } else {
        assert Holds(lines, mid, index);
        forall k | 0 <= k < |lines| && Holds(lines, k, index) ensures r == k {
          HolderUnique(lines, mid, k, index);
        }
      }
    }
  }

  /**
   * GetLineFromCharIndex answers -1 only for index -1 or no lines. Otherwise it
   * answers the line holding the index (a line's end belongs to it), and every
   * index no line holds, too large or negative other than -1, gets the last line.
   */
  lemma LineLookup(lines: seq<Line>, index: int)
    requires LineStarts(lines)
    ensures var r := LineFromCharIndex(lines, index);
      && (r == -1 <==> index == -1 || |lines| == 0)
      && (r != -1 ==> 0 <= r < |lines|)
      && (forall k :: 0 <= k < |lines| && Holds(lines, k, index) ==> r == k)
      && (0 <= index <= TextLength(lines) && |lines| > 0 ==> Holds(lines, r, index))
      && ((index < -1 || index > TextLength(lines)) && |lines| > 0 ==> r == |lines| - 1)
  {
    if index != -1 && |lines| > 0 {
      SearchFindsHolder(lines, index, 0, |lines| - 1);
      if 0 <= index <= TextLength(lines) {
        var k := HolderExists(lines, index);
      }
      if index < -1 || index > TextLength(lines) {
        forall k | 0 <= k < |lines| ensures !Holds(lines, k, index) {
          LineBounds(lines, k);
        }
      }
    } else if index == -1 {
      if |lines| > 0 {
        LineBounds(lines, |lines| - 1);
      }
      forall k | 0 <= k < |lines| ensures !Holds(lines, k, index) {
        LineBounds(lines, k);
      }
    }
  }

  /**
   * GetLineFromCharIndex as the source runs it: the search narrows lowNum and
   * highNum until a line holds the index, and falls through to the last line.
   */
  method GetLineFromCharIndex(lines: seq<Line>, index: int) returns (r: int)
    ensures r == LineFromCharIndex(lines, index)
  {
    if index == -1 || |lines| == 0 {
      return -1;
    }
    var lowNum, highNum := 0, |lines| - 1;
    while lowNum <= highNum
      invariant 0 <= lowNum <= highNum + 1 <= |lines|
      invariant SearchFrom(lines, index, lowNum, highNum) == LineFromCharIndex(lines, index)
      decreases highNum - lowNum
    {
      var midNum := (lowNum + highNum) / 2;
      var midLine := lines[midNum];
      if index < midLine.index {
        highNum := midNum - 1;
      } else if index > midLine.index {
        if index <= midLine.index + Len(midLine) {
          return midNum;
        }
        lowNum := midNum + 1;
      } else {
        return midNum;
      }
    }
    return |lines| - 1;
  }

  /** GetFirstCharIndexFromLine: -1 past the last line. */
  function FirstCharIndexFromLine(lines: seq<Line>, k: nat): int
  {
    if k >= |lines| then -1 else lines[k].index
  }

  /** GetLineLength on column 0: -1 past the last line. */
  function LineLengthAt(lines: seq<Line>, k: nat): int
  {
    if k >= |lines| then -1 else Len(lines[k])
  }

  /** Line k, read back through the flow: start, length and text. */
  lemma LineInFlow(lines: seq<Line>, k: nat)
    requires LineStarts(lines) && k < |lines|
    ensures FirstCharIndexFromLine(lines, k) >= 0
    ensures LineLengthAt(lines, k) >= 0
    ensures FirstCharIndexFromLine(lines, k) + LineLengthAt(lines, k) < |Flow(lines)|
    ensures Flow(lines)[FirstCharIndexFromLine(lines, k)..FirstCharIndexFromLine(lines, k) + LineLengthAt(lines, k)] == Txt(lines[k])
    ensures Flow(lines)[FirstCharIndexFromLine(lines, k) + LineLengthAt(lines, k)] == '\n'
  {
    FlowAround(lines, k);
    FlowPrefixLength(lines, k);
  }

  // ---------------------------------------------------------------------------
  // GetCharFromIndex
  // ---------------------------------------------------------------------------

  /**
   * GetCharFromIndex on column 0. None stands for the exceptions: no line for
   * the index, or a position outside the line's text.
   */
  function CharFromIndex(lines: seq<Line>, index: int): Option<char>
  {
    var k := LineFromCharIndex(lines, index);
    if k < 0 || k >= |lines| then None
    else
      var t := Txt(lines[k]);
      var actual := index - lines[k].index;
      if |t| == 0 then Some('\0')
      else if |t| == actual then Some('\n')
      else if 0 <= actual < |t| then Some(t[actual])
      else None
  }

  /** The flow character at an index held by line k. */
  lemma FlowAt(lines: seq<Line>, k: int, index: int)
    requires LineStarts(lines) && 0 <= k < |lines| && Holds(lines, k, index)
    ensures 0 <= index < |Flow(lines)|
    ensures Flow(lines)[index] == if index - lines[k].index < Len(lines[k]) then Txt(lines[k])[index - lines[k].index] else '\n'
  {
    FlowAround(lines, k);
    FlowPrefixLength(lines, k);
  }

  /**
   * Every index from 0 to TextLength reads its character of the flow (the
   * line break at a line's end), except that any index on an empty line
   * reads '\0'.
   */
  lemma CharFromIndexReadsFlow(lines: seq<Line>, index: int)
    requires LineStarts(lines) && |lines| > 0 && 0 <= index <= TextLength(lines)
    ensures var k := LineFromCharIndex(lines, index);
      && 0 <= k < |lines| && index < |Flow(lines)|
      && CharFromIndex(lines, index) == Some(if Len(lines[k]) == 0 then '\0' else Flow(lines)[index])
  {
    LineLookup(lines, index);
    TextLengthIsLength(lines);
    var k := LineFromCharIndex(lines, index);
    FlowAt(lines, k, index);
  }

  /** An index before -1 or past TextLength is looked up on the last line. */
  lemma CharFromIndexOutside(lines: seq<Line>, index: int)
    requires LineStarts(lines) && |lines| > 0
    requires index < -1 || index > TextLength(lines)
    ensures CharFromIndex(lines, index) == (
      var t := Txt(lines[|lines| - 1]);
      if |t| == 0 then Some('\0')
      else if index - lines[|lines| - 1].index == |t| then Some('\n')
      else None)
  {
    LineLookup(lines, index);
    LineBounds(lines, |lines| - 1);
  }
}
