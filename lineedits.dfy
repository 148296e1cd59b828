/**
 * The edits TextInsert and TextRemove make to the line list and to the
 * anchor lists beside it: a character put into a line, a line split at a
 * line break, a line merged with the next one, a span cut out of a line, the
 * anchors detached with a removed span, and the shift of a later line's
 * start. Each edit is stated on values, with what it does to the flow, to
 * the line starts and to the anchor identities.
 */
module LineEdits {
  import opened TextStyles
  import opened TextLines
  import opened LineStore
  import opened Segments
  import opened Seqs

  // ---------------------------------------------------------------------------
  // Line starts with one gap
  // ---------------------------------------------------------------------------

  /**
   * The line-start invariant, except that line k + 1 starts d characters past
   * where it should: the state of the later lines while an edit of line k has
   * not yet shifted them.
   */
  predicate Spaced(lines: seq<Line>, k: int, d: int)
  {
    && (|lines| > 0 ==> lines[0].index == 0)
    && forall j :: 0 <= j < |lines| - 1 ==> GapStep(lines, j, k, d)
  }

  /** Line j + 1 starts one past line j's end, plus d when j is k. */
  predicate GapStep(lines: seq<Line>, j: int, k: int, d: int)
    requires 0 <= j < |lines| - 1
  {
    lines[j + 1].index == lines[j].index + Len(lines[j]) + 1 + (if j == k then d else 0)
  }

  lemma StartsAreSpaced(lines: seq<Line>, k: int)
    requires LineStarts(lines)
    ensures Spaced(lines, k, 0)
  {
    forall j | 0 <= j < |lines| - 1 ensures GapStep(lines, j, k, 0) {
      assert StepAt(lines, j);
    }
  }

  /** A gap of zero, or one past the last line, is no gap. */
  lemma SpacedIsStarts(lines: seq<Line>, k: int, d: int)
    requires Spaced(lines, k, d) && (d == 0 || k >= |lines| - 1)
    ensures LineStarts(lines)
  {
    forall j | 0 <= j < |lines| - 1 ensures StepAt(lines, j) {
      assert GapStep(lines, j, k, d);
    }
  }

  /** Up to the gap the lines start where their flow says. */
  lemma SpacedPrefix(lines: seq<Line>, k: int, d: int)
    requires Spaced(lines, k, d) && 0 <= k < |lines|
    ensures LineStarts(lines[..k + 1])
    ensures lines[k].index == |Flow(lines[..k])|
  {
    var p := lines[..k + 1];
    forall j | 0 <= j < |p| - 1 ensures StepAt(p, j) {
      assert GapStep(lines, j, k, d);
    }
    FlowPrefixLength(p, k);
    assert p[..k] == lines[..k];
  }

  /** Lines whose texts agree have the same flow, whatever their starts. */
  lemma {:induction false} FlowReadsTexts(a: seq<Line>, b: seq<Line>)
    requires |a| == |b| && forall j :: 0 <= j < |a| ==> Txt(a[j]) == Txt(b[j])
    ensures Flow(a) == Flow(b)
    decreases |a|
  {
    if |a| > 0 {
      FlowReadsTexts(a[..|a| - 1], b[..|b| - 1]);
    }
  }

  // ---------------------------------------------------------------------------
  // Shifting a later line's start
  // ---------------------------------------------------------------------------

  function ShiftLine(lines: seq<Line>, k: int, s: int): seq<Line>
    requires 0 <= k < |lines|
  {
    lines[k := lines[k].(index := lines[k].index + s)]
  }

  /** Shifting the line after the gap back by the gap moves the gap one line on. */
  lemma ShiftMovesGap(lines: seq<Line>, k: int, d: int)
    requires Spaced(lines, k, d) && 0 <= k < |lines| - 1
    ensures Spaced(ShiftLine(lines, k + 1, -d), k + 1, d)
    ensures Flow(ShiftLine(lines, k + 1, -d)) == Flow(lines)
  {
    var r := ShiftLine(lines, k + 1, -d);
    var k1 := k + 1;
    forall j | 0 <= j < |r| - 1
      ensures GapStep(r, j, k1, d)
    {
      assert GapStep(lines, j, k, d);
    }
    FlowReadsTexts(r, lines);
  }

  // ---------------------------------------------------------------------------
  // A character put into a line
  // ---------------------------------------------------------------------------

  function InsertChar(lines: seq<Line>, k: int, rel: int, c: char): (r: seq<Line>)
    requires 0 <= k < |lines| && 0 <= rel <= Len(lines[k])
    ensures |r| == |lines|
  {
    var t := Txt(lines[k]);
    lines[k := WithText(lines[k], t[..rel] + [c] + t[rel..])]
  }

  /** The gap after line k narrows by one: the character is not yet counted in later starts. */
  lemma InsertCharGap(lines: seq<Line>, k: int, rel: int, c: char, d: int)
    requires Spaced(lines, k, d) && 0 <= k < |lines| && 0 <= rel <= Len(lines[k])
    ensures var r := InsertChar(lines, k, rel, c);
      && Spaced(r, k, d - 1)
      && Len(r[k]) == Len(lines[k]) + 1 && r[k].index == lines[k].index
  {
    var r := InsertChar(lines, k, rel, c);
    var t := Txt(lines[k]);
    WithTextReads(lines[k], t[..rel] + [c] + t[rel..]);
    var d1 := d - 1;
    forall j | 0 <= j < |r| - 1
      ensures GapStep(r, j, k, d1)
    {
      assert GapStep(lines, j, k, d);
    }
  }

  /** The character lands at its place in the flow. */
  lemma InsertCharFlow(lines: seq<Line>, k: int, rel: int, c: char)
    requires 0 <= k < |lines| && 0 <= rel <= Len(lines[k])
    ensures var f, q := Flow(lines), |Flow(lines[..k])| + rel;
      && q <= |f|
      && Flow(InsertChar(lines, k, rel, c)) == f[..q] + [c] + f[q..]
  {
    var r := InsertChar(lines, k, rel, c);
    var t := Txt(lines[k]);
    var t1 := t[..rel] + [c] + t[rel..];
    var a, b := Flow(lines[..k]), Flow(lines[k + 1..]);
    assert Flow(lines) == a + t + "\n" + b by {
      FlowAround(lines, k);
    }
    assert Flow(r) == a + t1 + "\n" + b by {
      WithTextReads(lines[k], t1);
      FlowAround(r, k);
      assert r[..k] == lines[..k] && r[k + 1..] == lines[k + 1..];
    }
    InsertInto(a, t, "\n", b, rel, c);
  }

  // ---------------------------------------------------------------------------
  // A line split at a line break
  // ---------------------------------------------------------------------------

  /** Line k keeps its text before rel; a new line starting at newIndex holds the rest. */
  function SplitLines(lines: seq<Line>, k: int, rel: int, newIndex: int): (r: seq<Line>)
    requires 0 <= k < |lines| && 0 <= rel <= Len(lines[k])
    ensures |r| == |lines| + 1
  {
    var t := Txt(lines[k]);
    lines[..k] + [WithText(lines[k], t[..rel]), NewLine(newIndex, t[rel..])] + lines[k + 1..]
  }

  lemma FlowOfTwo(x: Line, y: Line)
    ensures Flow([x, y]) == Txt(x) + "\n" + Txt(y) + "\n"
  {
    assert [x, y][..1] == [x];
    FlowSingle(x);
  }

  /** When the new line starts one past the break, the gap moves to it and narrows by one. */
  lemma SplitGap(lines: seq<Line>, k: int, rel: int, newIndex: int, d: int)
    requires Spaced(lines, k, d) && 0 <= k < |lines| && 0 <= rel <= Len(lines[k])
    requires newIndex == lines[k].index + rel + 1
    ensures var r := SplitLines(lines, k, rel, newIndex);
      && Spaced(r, k + 1, d - 1)
      && r[k + 1].index == newIndex && Len(r[k + 1]) == Len(lines[k]) - rel
  {
    var r := SplitLines(lines, k, rel, newIndex);
    var t := Txt(lines[k]);
    WithTextReads(lines[k], t[..rel]);
    NewLineShape(newIndex, t[rel..], 0);
    var k1 := k + 1;
    var d1 := d - 1;
    forall j | 0 <= j < |r| - 1
      ensures GapStep(r, j, k1, d1)
    {
      if j < k {
        assert r[j] == lines[j] && r[j + 1].index == lines[j + 1].index;
        assert GapStep(lines, j, k, d);
      } else if j == k + 1 {
        assert r[j + 1] == lines[k + 1];
        assert GapStep(lines, k, k, d);
      } else if j > k + 1 {
        assert r[j] == lines[j - 1] && r[j + 1] == lines[j];
        assert GapStep(lines, j - 1, k, d);
      }
    }
  }

  /** The line break lands at its place in the flow. */
  lemma SplitFlow(lines: seq<Line>, k: int, rel: int, newIndex: int)
    requires 0 <= k < |lines| && 0 <= rel <= Len(lines[k])
    ensures var f, q := Flow(lines), |Flow(lines[..k])| + rel;
      && q <= |f|
      && Flow(SplitLines(lines, k, rel, newIndex)) == f[..q] + ['\n'] + f[q..]
  {
    var t := Txt(lines[k]);
    var a, b := Flow(lines[..k]), Flow(lines[k + 1..]);
    var f := Flow(lines);
    FlowAround(lines, k);
    assert f == a + t + "\n" + b;
    SplitFlowParts(lines, k, rel, newIndex);
    InsertInto(a, t, "\n", b, rel, '\n');
    assert f[..|a| + rel] + ['\n'] + f[|a| + rel..] == a + (t[..rel] + ['\n'] + t[rel..]) + "\n" + b;
  }

  /** The flow of a split, piece by piece: the lines before, the two halves with the break between, the lines after. */
  lemma SplitFlowParts(lines: seq<Line>, k: int, rel: int, newIndex: int)
    requires 0 <= k < |lines| && 0 <= rel <= Len(lines[k])
    ensures var t := Txt(lines[k]);
      Flow(SplitLines(lines, k, rel, newIndex))
        == Flow(lines[..k]) + (t[..rel] + ['\n'] + t[rel..]) + "\n" + Flow(lines[k + 1..])
  {
    var t := Txt(lines[k]);
    var x, y := WithText(lines[k], t[..rel]), NewLine(newIndex, t[rel..]);
    var pre, post := lines[..k], lines[k + 1..];
    WithTextReads(lines[k], t[..rel]);
    NewLineShape(newIndex, t[rel..], 0);
    FlowConcat(pre + [x, y], post);
    FlowConcat(pre, [x, y]);
    FlowOfTwo(x, y);
  }

  // ---------------------------------------------------------------------------
  // Anchors at a split
  // ---------------------------------------------------------------------------

  /** An anchor stays on the split line when it starts at or before a non-zero split offset. */
  predicate StaysAtSplit(a: Anchor, rel: int)
  {
    a.index <= rel && rel != 0
  }

  function Moved(a: Anchor, d: int): Anchor
  {
    a.(index := a.index + d)
  }

  /** The anchors that stay on the split line, in list order. */
  function SplitKept(s: seq<Anchor>, rel: int): seq<Anchor>
    decreases |s|
  {
    if |s| == 0 then []
    else SplitKept(s[..|s| - 1], rel) + (if StaysAtSplit(s[|s| - 1], rel) then [s[|s| - 1]] else [])
  }

  /** The anchors that move to the new line, in list order, made relative to it. */
  function SplitMoved(s: seq<Anchor>, rel: int): seq<Anchor>
    decreases |s|
  {
    if |s| == 0 then []
    else SplitMoved(s[..|s| - 1], rel) + (if StaysAtSplit(s[|s| - 1], rel) then [] else [Moved(s[|s| - 1], -rel)])
  }

  /**
   * The anchor loop of a split in TextInsert: an anchor that moves leaves the
   * list, so the loop index stays where it is.
   */
  method SplitSegments(s: seq<Anchor>, rel: int) returns (kept: seq<Anchor>, moved: seq<Anchor>)
    ensures kept == SplitKept(s, rel) && moved == SplitMoved(s, rel)
  {
    kept, moved := s, [];
    var taIndex := 0;
    ghost var done := 0;
    while taIndex < |kept|
      invariant 0 <= taIndex <= |kept| && 0 <= done <= |s|
      invariant kept[..taIndex] == SplitKept(s[..done], rel)
      invariant kept[taIndex..] == s[done..]
      invariant moved == SplitMoved(s[..done], rel)
      decreases |kept| - taIndex
    {
      assert s[..done + 1][..done] == s[..done];
      if StaysAtSplit(kept[taIndex], rel) {
        taIndex := taIndex + 1;
        done := done + 1;
        continue;
      }
      moved := moved + [Moved(kept[taIndex], -rel)];
      kept := kept[..taIndex] + kept[taIndex + 1..];
      done := done + 1;
    }
    assert s[..done] == s;
  }

  /** A split neither loses nor duplicates an anchor. */
  lemma {:induction false} SplitIds(s: seq<Anchor>, rel: int)
    ensures IdsOf(SplitKept(s, rel)) + IdsOf(SplitMoved(s, rel)) == IdsOf(s)
    decreases |s|
  {
    if |s| > 0 {
      var p, a := s[..|s| - 1], s[|s| - 1];
      SplitIds(p, rel);
      assert s == p + [a];
      SplitIdsStep(p, a, rel);
    }
  }

  /** One more anchor goes to exactly one of the two lists. */
  lemma SplitIdsStep(p: seq<Anchor>, a: Anchor, rel: int)
    requires IdsOf(SplitKept(p, rel)) + IdsOf(SplitMoved(p, rel)) == IdsOf(p)
    ensures IdsOf(SplitKept(p + [a], rel)) + IdsOf(SplitMoved(p + [a], rel)) == IdsOf(p + [a])
  {
    var s, k, m := p + [a], SplitKept(p, rel), SplitMoved(p, rel);
    assert s[..|s| - 1] == p && s[|s| - 1] == a;
    if StaysAtSplit(a, rel) {
      assert SplitKept(s, rel) == k + [a] && SplitMoved(s, rel) == m;
      IdsJoin(k, m, p, a, a);
    } else {
      assert SplitKept(s, rel) == k && SplitMoved(s, rel) == m + [Moved(a, -rel)];
      IdsJoin(m, k, p, a, Moved(a, -rel));
    }
  }

  /** Adding an anchor with a's identity to one of two lists that share out p's identities shares out those of p + [a]. */
  lemma IdsJoin(k: seq<Anchor>, m: seq<Anchor>, p: seq<Anchor>, a: Anchor, b: Anchor)
    requires IdsOf(k) + IdsOf(m) == IdsOf(p) && b.id == a.id
    ensures IdsOf(k + [b]) + IdsOf(m) == IdsOf(p + [a])
    ensures IdsOf(m) + IdsOf(k + [b]) == IdsOf(p + [a])
  {
    assert (k + [b])[..|k|] == k;
    assert (p + [a])[..|p|] == p;
  }

  /** Who stays and who moves, anchor by anchor. */
  lemma {:induction false} SplitMembers(s: seq<Anchor>, rel: int, a: Anchor)
    ensures a in SplitKept(s, rel) <==> a in s && StaysAtSplit(a, rel)
    ensures a in SplitMoved(s, rel) <==> exists b :: b in s && !StaysAtSplit(b, rel) && a == Moved(b, -rel)
    decreases |s|
  {
    if |s| > 0 {
      SplitMembers(s[..|s| - 1], rel, a);
      assert s == s[..|s| - 1] + [s[|s| - 1]];
    }
  }

  function SplitSegs(segs: Segs, k: int, rel: int): (r: Segs)
    requires 0 <= k < |segs|
    ensures |r| == |segs| + 1
  {
    segs[..k] + [SplitKept(segs[k], rel), SplitMoved(segs[k], rel)] + segs[k + 1..]
  }

  /** Two lists put in the place of one hold the identities of both. */
  lemma AnchorIdsOfTwo(segs: Segs, k: int, a: seq<Anchor>, b: seq<Anchor>)
    requires 0 <= k < |segs|
    ensures AnchorIds(segs[..k] + [a, b] + segs[k + 1..]) == AnchorIds(segs[..k]) + (IdsOf(a) + IdsOf(b)) + AnchorIds(segs[k + 1..])
  {
    AnchorIdsAppend(segs[..k] + [a, b], segs[k + 1..]);
    AnchorIdsAppend(segs[..k], [a, b]);
    assert [a, b][..1] == [a];
    SingleIds(a);
  }

  lemma SplitKeepsStore(segs: Segs, next: nat, k: int, rel: int)
    requires Sound(segs, next) && 0 <= k < |segs|
    ensures Sound(SplitSegs(segs, k, rel), next)
    ensures AnchorIds(SplitSegs(segs, k, rel)) == AnchorIds(segs)
  {
    AnchorIdsOfTwo(segs, k, SplitKept(segs[k], rel), SplitMoved(segs[k], rel));
    SplitIds(segs[k], rel);
    AnchorIdsAround(segs, k);
  }

  // ---------------------------------------------------------------------------
  // A line merged with the next one
  // ---------------------------------------------------------------------------

  /** Line k takes the text of line k + 1, which is deleted. */
  function MergeLines(lines: seq<Line>, k: int): (r: seq<Line>)
    requires 0 <= k < |lines| - 1
    ensures |r| == |lines| - 1
  {
    lines[..k] + [WithText(lines[k], Txt(lines[k]) + Txt(lines[k + 1]))] + lines[k + 2..]
  }

  /** The gap after line k widens by one: the removed line break is not yet counted. */
  lemma MergeGap(lines: seq<Line>, k: int, d: int)
    requires Spaced(lines, k, d) && 0 <= k < |lines| - 1
    ensures var r := MergeLines(lines, k);
      && Spaced(r, k, d + 1)
      && r[k].index == lines[k].index && Len(r[k]) == Len(lines[k]) + Len(lines[k + 1])
  {
    var r := MergeLines(lines, k);
    var t, u := Txt(lines[k]), Txt(lines[k + 1]);
    WithTextReads(lines[k], t + u);
    var d1 := d + 1;
    forall j | 0 <= j < |r| - 1
      ensures GapStep(r, j, k, d1)
    {
      if j < k {
        assert r[j] == lines[j] && r[j + 1].index == lines[j + 1].index;
        assert GapStep(lines, j, k, d);
      } else if j == k {
        assert r[k + 1] == lines[k + 2];
        assert GapStep(lines, k + 1, k, d);
        assert GapStep(lines, k, k, d);
      } else {
        assert r[j] == lines[j + 1] && r[j + 1] == lines[j + 2];
        assert GapStep(lines, j + 1, k, d);
      }
    }
  }

  /** The flow around two neighbouring lines. */
  lemma FlowAroundTwo(lines: seq<Line>, k: int)
    requires 0 <= k < |lines| - 1
    ensures Flow(lines) == Flow(lines[..k]) + Txt(lines[k]) + "\n" + Txt(lines[k + 1]) + "\n" + Flow(lines[k + 2..])
  {
    var head := lines[..k + 1];
    assert head[..k] == lines[..k] && head[k] == lines[k];
    assert Flow(head) == Flow(lines[..k]) + Txt(lines[k]) + "\n";
    FlowAround(lines, k + 1);
  }

  /** The line break after line k leaves the flow. */
  lemma MergeFlow(lines: seq<Line>, k: int)
    requires 0 <= k < |lines| - 1
    ensures var f, q := Flow(lines), |Flow(lines[..k])| + Len(lines[k]);
      && q < |f| && f[q] == '\n'
      && Flow(MergeLines(lines, k)) == f[..q] + f[q + 1..]
  {
    var r := MergeLines(lines, k);
    var t, u := Txt(lines[k]), Txt(lines[k + 1]);
    var a, b := Flow(lines[..k]), Flow(lines[k + 2..]);
    FlowAroundTwo(lines, k);
    assert Flow(r) == a + (t + u) + "\n" + b by {
      WithTextReads(lines[k], t + u);
      FlowAround(r, k);
      assert r[..k] == lines[..k] && r[k + 1..] == lines[k + 2..];
    }
    JoinAt(a, t, "\n", u, "\n", b);
  }

  function ShiftAll(s: seq<Anchor>, d: int): (r: seq<Anchor>)
    ensures |r| == |s|
    decreases |s|
  {
    if |s| == 0 then [] else ShiftAll(s[..|s| - 1], d) + [Moved(s[|s| - 1], d)]
  }

  /**
   * The anchor loop of a merge in TextRemove: the next line's first anchor is
   * moved to the end of this line's list and shifted by this line's length,
   * until the next line has none.
   */
  method MergeSegments(target: seq<Anchor>, source: seq<Anchor>, d: int) returns (r: seq<Anchor>, rest: seq<Anchor>)
    ensures r == target + ShiftAll(source, d) && rest == []
  {
    r, rest := target, source;
    while |rest| > 0
      invariant 0 <= |rest| <= |source|
      invariant rest == source[|source| - |rest|..]
      invariant r == target + ShiftAll(source[..|source| - |rest|], d)
      decreases |rest|
    {
      var n := |source| - |rest|;
      var seg := rest[0];
      assert source[..n + 1][..n] == source[..n];
      rest := rest[1..];
      r := r + [Moved(seg, d)];
    }
    assert source[..|source|] == source;
  }

  lemma {:induction false} ShiftAllIds(s: seq<Anchor>, d: int)
    ensures IdsOf(ShiftAll(s, d)) == IdsOf(s)
    decreases |s|
  {
    if |s| > 0 {
      ShiftAllIds(s[..|s| - 1], d);
    }
  }

  /** Every anchor of a shifted list is an anchor of the list, moved by d. */
  lemma {:induction false} ShiftAllAt(s: seq<Anchor>, d: int, i: int)
    requires 0 <= i < |s|
    ensures ShiftAll(s, d)[i] == Moved(s[i], d)
    decreases |s|
  {
    if i < |s| - 1 {
      ShiftAllAt(s[..|s| - 1], d, i);
    }
  }

  function MergeSegs(segs: Segs, k: int, d: int): (r: Segs)
    requires 0 <= k < |segs| - 1
    ensures |r| == |segs| - 1
  {
    segs[..k] + [segs[k] + ShiftAll(segs[k + 1], d)] + segs[k + 2..]
  }

  lemma MergeKeepsStore(segs: Segs, next: nat, k: int, d: int)
    requires Sound(segs, next) && 0 <= k < |segs| - 1
    ensures Sound(MergeSegs(segs, k, d), next)
    ensures AnchorIds(MergeSegs(segs, k, d)) == AnchorIds(segs)
  {
    var m := segs[k] + ShiftAll(segs[k + 1], d);
    var pre, post := segs[..k], segs[k + 2..];
    assert AnchorIds(MergeSegs(segs, k, d)) == AnchorIds(pre) + IdsOf(m) + AnchorIds(post) by {
      AnchorIdsAppend(pre + [m], post);
      AnchorIdsAppend(pre, [m]);
      SingleIds(m);
    }
    assert IdsOf(m) == IdsOf(segs[k]) + IdsOf(segs[k + 1]) by {
      IdsOfAppend(segs[k], ShiftAll(segs[k + 1], d));
      ShiftAllIds(segs[k + 1], d);
    }
    AnchorIdsAroundTwo(segs, k);
  }

  /** The identities before, at lines k and k + 1, and after. */
  lemma AnchorIdsAroundTwo(segs: Segs, k: int)
    requires 0 <= k < |segs| - 1
    ensures AnchorIds(segs) == AnchorIds(segs[..k]) + (IdsOf(segs[k]) + IdsOf(segs[k + 1])) + AnchorIds(segs[k + 2..])
  {
    var tail := segs[k + 1..];
    AnchorIdsAround(segs, k);
    AnchorIdsAround(tail, 0);
    assert tail[..0] == [] && tail[1..] == segs[k + 2..];
  }

  // ---------------------------------------------------------------------------
  // A span cut out of a line
  // ---------------------------------------------------------------------------

  function CutLines(lines: seq<Line>, k: int, cur: int, dec: int): (r: seq<Line>)
    requires 0 <= k < |lines| && 0 <= cur && 0 <= dec && cur + dec <= Len(lines[k])
    ensures |r| == |lines|
  {
    var t := Txt(lines[k]);
    lines[k := WithText(lines[k], t[..cur] + t[cur + dec..])]
  }

  /** The gap after line k widens by the length of the span cut. */
  lemma CutGap(lines: seq<Line>, k: int, cur: int, dec: int, d: int)
    requires Spaced(lines, k, d) && 0 <= k < |lines| && 0 <= cur && 0 <= dec && cur + dec <= Len(lines[k])
    ensures var r := CutLines(lines, k, cur, dec);
      && Spaced(r, k, d + dec)
      && r[k].index == lines[k].index && Len(r[k]) == Len(lines[k]) - dec
  {
    var r := CutLines(lines, k, cur, dec);
    var t := Txt(lines[k]);
    WithTextReads(lines[k], t[..cur] + t[cur + dec..]);
    var d1 := d + dec;
    forall j | 0 <= j < |r| - 1
      ensures GapStep(r, j, k, d1)
    {
      assert GapStep(lines, j, k, d);
    }
  }

  /** The span leaves the flow. */
  lemma CutFlow(lines: seq<Line>, k: int, cur: int, dec: int)
    requires 0 <= k < |lines| && 0 <= cur && 0 <= dec && cur + dec <= Len(lines[k])
    ensures var f, q := Flow(lines), |Flow(lines[..k])| + cur;
      && q + dec <= |f|
      && Flow(CutLines(lines, k, cur, dec)) == f[..q] + f[q + dec..]
  {
    var r := CutLines(lines, k, cur, dec);
    var t := Txt(lines[k]);
    var t1 := t[..cur] + t[cur + dec..];
    var a, b := Flow(lines[..k]), Flow(lines[k + 1..]);
    assert Flow(lines) == a + t + "\n" + b by {
      FlowAround(lines, k);
    }
    assert Flow(r) == a + t1 + "\n" + b by {
      WithTextReads(lines[k], t1);
      FlowAround(r, k);
      assert r[..k] == lines[..k] && r[k + 1..] == lines[k + 1..];
    }
    CutInto(a, t, "\n", b, cur, dec);
  }

  // ---------------------------------------------------------------------------
  // Anchors inside a removed span
  // ---------------------------------------------------------------------------

  /** The anchor lies wholly inside the span [cur, cur + dec]. */
  predicate InsideRemoval(a: Anchor, cur: int, dec: int)
  {
    a.index >= cur && a.index + a.length <= cur + dec
  }

  predicate SurvivesRemoval(a: Anchor, cur: int, dec: int)
  {
    !InsideRemoval(a, cur, dec) || IsPinned(a)
  }

  /** The anchors of a line that survive a removal, in list order. */
  function RemovalSurvivors(s: seq<Anchor>, cur: int, dec: int): seq<Anchor>
    decreases |s|
  {
    if |s| == 0 then []
    else RemovalSurvivors(s[..|s| - 1], cur, dec) + (if SurvivesRemoval(s[|s| - 1], cur, dec) then [s[|s| - 1]] else [])
  }

  /**
   * The anchor loop after a cut in TextRemove: an anchor inside the span is
   * detached unless pinned. Of the two other branches the source writes, the
   * one that would pull an anchor back to the span start cannot be reached.
   */
  method FilterRemoved(s: seq<Anchor>, cur: int, dec: int) returns (r: seq<Anchor>)
    ensures r == RemovalSurvivors(s, cur, dec)
  {
    r := s;
    var segIdx := 0;
    ghost var done := 0;
    while segIdx < |r|
      invariant 0 <= segIdx <= |r| && 0 <= done <= |s|
      invariant r[..segIdx] == RemovalSurvivors(s[..done], cur, dec)
      invariant r[segIdx..] == s[done..]
      decreases |r| - segIdx
    {
      assert s[..done + 1][..done] == s[..done];
      var seg := r[segIdx];
      if seg.index >= cur && seg.index + seg.length <= cur + dec {
        if !IsPinned(seg) {
          r := r[..segIdx] + r[segIdx + 1..];
          done := done + 1;
          assert r[segIdx..] == s[done..];
          continue;
        }
      } else if seg.index + seg.length > cur + dec {
        // After the span: the anchor pass moves it.
      } else if seg.index > cur {
        assert false;
      }
      assert r[segIdx + 1..] == s[done + 1..];
      segIdx := segIdx + 1;
      done := done + 1;
    }
    assert s[..done] == s;
  }

  lemma {:induction false} SurvivorIds(s: seq<Anchor>, cur: int, dec: int)
    ensures IdsOf(RemovalSurvivors(s, cur, dec)) <= IdsOf(s)
    decreases |s|
  {
    if |s| > 0 {
      var p, a := s[..|s| - 1], s[|s| - 1];
      SurvivorIds(p, cur, dec);
      IdsOfAppend(RemovalSurvivors(p, cur, dec), if SurvivesRemoval(a, cur, dec) then [a] else []);
      SingletonIds(a);
      assert IdsOf([]) == multiset{};
    }
  }

  /** Exactly the pinned anchors and those not inside the span survive. */
  lemma {:induction false} SurvivorMembers(s: seq<Anchor>, cur: int, dec: int, a: Anchor)
    ensures a in RemovalSurvivors(s, cur, dec) <==> a in s && SurvivesRemoval(a, cur, dec)
    decreases |s|
  {
    if |s| > 0 {
      SurvivorMembers(s[..|s| - 1], cur, dec, a);
      assert s == s[..|s| - 1] + [s[|s| - 1]];
    }
  }

  // ---------------------------------------------------------------------------
  // TextAppendLine
  // ---------------------------------------------------------------------------

  /** The start TextAppendLine gives: TextLength + 1, or 0 when TextLength is 0. */
  function AppendIndex(lines: seq<Line>): int
  {
    if TextLength(lines) > 0 then TextLength(lines) + 1 else 0
  }

  /**
   * Appending a line keeps the line-start invariant except after a document
   * of one empty line, where the new line also gets start 0.
   */
  lemma AppendLineStarts(lines: seq<Line>, text: string)
    requires LineStarts(lines)
    ensures LineStarts(lines + [NewLine(AppendIndex(lines), text)]) <==> !(|lines| == 1 && Len(lines[0]) == 0)
  {
    var r := lines + [NewLine(AppendIndex(lines), text)];
    var n := |lines|;
    if n > 0 {
      LineBounds(lines, n - 1);
      if n > 1 {
        LinesAscend(lines, 0, n - 1);
      }
      assert StepAt(r, n - 1) <==> !(n == 1 && Len(lines[0]) == 0);
      if !(n == 1 && Len(lines[0]) == 0) {
        forall j | 0 <= j < n - 1 ensures StepAt(r, j) {
          assert StepAt(lines, j);
        }
      }
    }
  }

  /**
   * The start TextAppendLine means to give: TextLength + 1, or 0 for the
   * first line. The source tests TextLength instead of the line count, which
   * differs only after a document of one empty line.
   */
  function AppendIndexCorrected(lines: seq<Line>): int
  {
    if |lines| > 0 then TextLength(lines) + 1 else 0
  }

  /** On well-started lines the two tests agree except after a document of one empty line. */
  lemma AppendIndexAgrees(lines: seq<Line>)
    requires LineStarts(lines)
    ensures AppendIndex(lines) == AppendIndexCorrected(lines) <==> !(|lines| == 1 && Len(lines[0]) == 0)
  {
    var n := |lines|;
    if n > 1 {
      LineBounds(lines, n - 1);
      LinesAscend(lines, 0, n - 1);
      assert StepAt(lines, 0);
    }
  }

  /** With the first-line test, appending a line always keeps the line-start invariant. */
  lemma AppendCorrectedLineStarts(lines: seq<Line>, text: string)
    requires LineStarts(lines)
    ensures LineStarts(lines + [NewLine(AppendIndexCorrected(lines), text)])
  {
    var r := lines + [NewLine(AppendIndexCorrected(lines), text)];
    var n := |lines|;
    if n > 0 {
      assert StepAt(r, n - 1);
      forall j | 0 <= j < n - 1 ensures StepAt(r, j) {
        assert StepAt(lines, j);
      }
    }
  }

  /**
   * The source as written: a file whose first line is blank opens with its
   * second line also at start 0, one short of where the line break puts it.
   */
  lemma BlankFirstLineBreaksStarts()
    ensures LineStarts([NewLine(0, "")])
    ensures !LineStarts([NewLine(0, ""), NewLine(AppendIndex([NewLine(0, "")]), "x")])
  {
    var blank := [NewLine(0, "")];
    NewLineShape(0, "", 0);
    assert Len(blank[0]) == 0;
    AppendLineStarts(blank, "x");
    assert blank + [NewLine(AppendIndex(blank), "x")] == [NewLine(0, ""), NewLine(AppendIndex(blank), "x")];
  }

  // ---------------------------------------------------------------------------
  // The states of TextInsert and TextRemove
  // ---------------------------------------------------------------------------

  /**
   * TextInsert after the first i characters of text went in at start of a
   * document whose flow was f0: the cursor is rel into line li, the lines
   * after li still wait to move by i, and the flow holds text[..i] at start.
   */
  ghost predicate Inserting(lines: seq<Line>, f0: string, start: int, text: string, i: int, li: int, rel: int)
  {
    && 0 <= i <= |text| && 0 <= start < |f0|
    && 0 <= li < |lines| && 0 <= rel <= Len(lines[li])
    && lines[li].index >= 0 && lines[li].index + rel == start + i
    && Spaced(lines, li, -i)
    && Flow(lines) == f0[..start] + text[..i] + f0[start..]
  }

  /** The lookup of TextInsert's start begins the walk at offset start - Index of that line. */
  lemma InsertBegins(lines: seq<Line>, start: int, text: string)
    requires LineStarts(lines) && |lines| > 0 && 0 <= start <= TextLength(lines)
    ensures var li := LineFromCharIndex(lines, start);
      && 0 <= li < |lines| && 0 <= start - lines[li].index <= Len(lines[li])
      && Inserting(lines, Flow(lines), start, text, 0, li, start - lines[li].index)
  {
    var li := LineFromCharIndex(lines, start);
    var f := Flow(lines);
    assert 0 <= li < |lines| && 0 <= lines[li].index <= start <= lines[li].index + Len(lines[li]) by {
      LineLookup(lines, start);
      LineBounds(lines, li);
    }
    assert start < |f| by {
      TextLengthIsLength(lines);
    }
    assert Spaced(lines, li, 0) by {
      StartsAreSpaced(lines, li);
    }
    NothingInserted(lines, start, text, li, start - lines[li].index);
  }

  /** Before the first character goes in, the flow is the old one with nothing at start. */
  lemma NothingInserted(lines: seq<Line>, start: int, text: string, li: int, rel: int)
    requires 0 <= start < |Flow(lines)| && 0 <= li < |lines| && 0 <= rel <= Len(lines[li])
    requires lines[li].index >= 0 && lines[li].index + rel == start && Spaced(lines, li, 0)
    ensures Inserting(lines, Flow(lines), start, text, 0, li, rel)
  {
    var f := Flow(lines);
    assert f == f[..start] + text[..0] + f[start..] by {
      assert text[..0] == [];
    }
  }

  /** A character other than a line break goes in at the cursor, which moves past it. */
  lemma InsertCharStep(lines: seq<Line>, f0: string, start: int, text: string, i: int, li: int, rel: int)
    requires Inserting(lines, f0, start, text, i, li, rel) && i < |text|
    ensures Inserting(InsertChar(lines, li, rel, text[i]), f0, start, text, i + 1, li, rel + 1)
    ensures Len(InsertChar(lines, li, rel, text[i])[li]) == Len(lines[li]) + 1
  {
    var r := InsertChar(lines, li, rel, text[i]);
    assert Spaced(r, li, -(i + 1)) && Len(r[li]) == Len(lines[li]) + 1 && r[li].index == lines[li].index by {
      InsertCharGap(lines, li, rel, text[i], -i);
    }
    assert Flow(r) == f0[..start] + text[..i + 1] + f0[start..] by {
      var q := |Flow(lines[..li])| + rel;
      assert q == start + i by {
        SpacedPrefix(lines, li, -i);
      }
      InsertCharFlow(lines, li, rel, text[i]);
      InsertNextAt(Flow(r), Flow(lines), f0, text, start, i, q, text[i]);
    }
  }

  /** A line break splits the line at the cursor; the new line starts at start + i + 1 and the cursor moves to it. */
  lemma SplitStep(lines: seq<Line>, f0: string, start: int, text: string, i: int, li: int, rel: int)
    requires Inserting(lines, f0, start, text, i, li, rel) && i < |text| && text[i] == '\n'
    ensures Inserting(SplitLines(lines, li, rel, start + i + 1), f0, start, text, i + 1, li + 1, 0)
    ensures var r := SplitLines(lines, li, rel, start + i + 1);
      r[li].index == lines[li].index && Len(r[li + 1]) == Len(lines[li]) - rel
  {
    var r := SplitLines(lines, li, rel, start + i + 1);
    assert Spaced(r, li + 1, -(i + 1)) && r[li + 1].index == start + i + 1 && Len(r[li + 1]) == Len(lines[li]) - rel by {
      SplitGap(lines, li, rel, start + i + 1, -i);
    }
    assert Flow(r) == f0[..start] + text[..i + 1] + f0[start..] by {
      var f := Flow(lines);
      var q := |Flow(lines[..li])| + rel;
      assert q == start + i by {
        SpacedPrefix(lines, li, -i);
      }
      SplitFlow(lines, li, rel, start + i + 1);
      InsertNextAt(Flow(r), f, f0, text, start, i, q, '\n');
    }
    assert r[li].index == lines[li].index by {
      WithTextReads(lines[li], Txt(lines[li])[..rel]);
    }
  }

  /**
   * The walk done, the lines after li move by |text| one at a time (the gap
   * travels with the shift); once past the last line the line starts hold and
   * the text is the old text with `text` at start.
   */
  lemma InsertEnds(lines: seq<Line>, f0: string, start: int, text: string, k: int)
    requires Spaced(lines, k, -|text|) && (k >= |lines| - 1 || |text| == 0)
    requires 0 <= start < |f0| && Flow(lines) == f0[..start] + text + f0[start..]
    ensures LineStarts(lines)
    ensures Text(lines) == Splice(f0[..|f0| - 1], start, text)
  {
    SpacedIsStarts(lines, k, -|text|);
    InsertBeforeLast(Flow(lines), f0, text, start);
  }

  /**
   * TextRemove while mending: removing length characters at start from a
   * document whose flow was f0, dec of them are still to go, the cursor is
   * cur into line li, and the lines after li wait to move back by the
   * length - dec line breaks merged away so far.
   */
  ghost predicate Removing(lines: seq<Line>, f0: string, start: int, length: int, dec: int, li: int, cur: int)
  {
    && 0 <= dec <= length && 0 <= start && start + length < |f0|
    && 0 <= li < |lines| && 0 <= cur <= Len(lines[li])
    && lines[li].index >= 0 && lines[li].index + cur == start
    && Spaced(lines, li, length - dec)
    && start + dec < |Flow(lines)|
    && SameText(Flow(lines)[..start] + Flow(lines)[start + dec..], f0[..start] + f0[start + length..])
  }

  /** The two texts are the same; kept apart so that it is matched as a whole. */
  predicate SameText(a: string, b: string)
  {
    a == b
  }

  /** A span held from line li on and ending inside the text. */
  predicate SpanAt(lines: seq<Line>, li: int, start: int, length: int)
  {
    && 0 <= li < |lines| && 0 <= start && 0 <= length
    && Holds(lines, li, start) && start + length <= |Text(lines)|
  }

  /** A span the lookup admits is held by the line the lookup found. */
  lemma AdmittedSpan(lines: seq<Line>, start: int, length: int)
    requires LineStarts(lines) && |lines| > 0 && 0 <= start && 0 <= length
    requires var li := LineFromCharIndex(lines, start);
      start + length <= TextLength(lines) || (li == |lines| - 1 && start - lines[li].index + length <= Len(lines[li]))
    ensures SpanAt(lines, LineFromCharIndex(lines, start), start, length)
  {
    var li := LineFromCharIndex(lines, start);
    LineLookup(lines, start);
    LineBounds(lines, li);
    TextLengthIsLength(lines);
  }

  /** A removal starts at offset start - Index of its line, all inside the text. */
  lemma RemoveBegins(lines: seq<Line>, li: int, start: int, length: int)
    requires LineStarts(lines) && SpanAt(lines, li, start, length)
    ensures 0 <= start - lines[li].index
    ensures Removing(lines, Flow(lines), start, length, length, li, start - lines[li].index)
  {
    var f := Flow(lines);
    assert |f| == TextLength(lines) + 1 by {
      TextLengthIsLength(lines);
    }
    assert lines[li].index >= 0 by {
      LineBounds(lines, li);
    }
    assert Spaced(lines, li, 0) by {
      StartsAreSpaced(lines, li);
    }
  }

  /** While the span passes the end of line li, the next line exists and is merged in. */
  lemma MergeStep(lines: seq<Line>, f0: string, start: int, length: int, dec: int, li: int, cur: int)
    requires Removing(lines, f0, start, length, dec, li, cur) && cur + dec > Len(lines[li])
    ensures li + 1 < |lines| && dec > 0
    ensures Removing(MergeLines(lines, li), f0, start, length, dec - 1, li, cur)
  {
    var d := length - dec;
    var f := Flow(lines);
    var q := |Flow(lines[..li])| + Len(lines[li]);
    assert q < start + dec && start <= q by {
      SpacedPrefix(lines, li, d);
    }
    assert li + 1 < |lines| by {
      FlowPrefixStep(lines, li);
      if li + 1 == |lines| {
        assert false;
      }
    }
    var r := MergeLines(lines, li);
    assert Spaced(r, li, d + 1) && r[li].index == lines[li].index && Len(r[li]) >= Len(lines[li]) by {
      MergeGap(lines, li, d);
    }
    assert Flow(r) == f[..q] + f[q + 1..] by {
      MergeFlow(lines, li);
    }
    assert Flow(r)[..start] + Flow(r)[start + dec - 1..] == f[..start] + f[start + dec..] by {
      DropInside(f, start, dec, q);
    }
  }

  /** The span ends on line li: what is left of it is cut there, and the gap is the whole length. */
  lemma CutStep(lines: seq<Line>, f0: string, start: int, length: int, dec: int, li: int, cur: int)
    requires Removing(lines, f0, start, length, dec, li, cur) && cur + dec <= Len(lines[li])
    ensures var r := if dec > 0 then CutLines(lines, li, cur, dec) else lines;
      && Spaced(r, li, length) && |r| == |lines| && r[li].index == lines[li].index
      && Flow(r) == f0[..start] + f0[start + length..]
  {
    var f := Flow(lines);
    if dec > 0 {
      var r := CutLines(lines, li, cur, dec);
      assert Spaced(r, li, length) && r[li].index == lines[li].index by {
        CutGap(lines, li, cur, dec, length - dec);
      }
      assert Flow(r) == f[..start] + f[start + dec..] by {
        assert |Flow(lines[..li])| + cur == start by {
          SpacedPrefix(lines, li, length - dec);
        }
        CutFlow(lines, li, cur, dec);
      }
    } else {
      assert f[..start] + f[start..] == f;
    }
  }

  /** With every later line moved back by length, the line starts hold and the span is gone from the text. */
  lemma RemoveEnds(lines: seq<Line>, f0: string, start: int, length: int, k: int)
    requires Spaced(lines, k, length) && k >= |lines| - 1
    requires 0 <= start && 0 <= length && start + length < |f0| && Flow(lines) == Excise(f0, start, length)
    ensures LineStarts(lines)
    ensures Text(lines) == Excise(f0[..|f0| - 1], start, length)
  {
    ExciseIs(f0, start, length);
    ExciseIs(f0[..|f0| - 1], start, length);
    SpacedIsStarts(lines, k, length);
    CutBeforeLast(Flow(lines), f0, start, length);
  }

  /** RemoveEnds read on the text before the removal. */
  lemma RemoveEndsText(ls: seq<Line>, lines: seq<Line>, start: int, length: int)
    requires Spaced(ls, |ls| - 1, length)
    requires 0 <= start && 0 <= length && start + length < |Flow(lines)| && Flow(ls) == Excise(Flow(lines), start, length)
    ensures LineStarts(ls)
    ensures Text(ls) == Excise(Text(lines), start, length)
  {
    RemoveEnds(ls, Flow(lines), start, length, |ls| - 1);
  }
}
