/**
 * The line document (TextDocumentByLines over TextDocumentBase): the lines
 * and their anchor lists, the registered views, the events it raises, the
 * modified flag and the undo/redo manager; with TextAppendLine, TextInsert,
 * TextRemove, the forward text stream and TextGet. The edits are proved
 * against the document text: an insert puts the text in at its start, a
 * removal takes the span out, and both keep the line-start invariant and
 * the anchor store sound.
 */
module Document {
  import opened Chars
  import opened TextStyles
  import opened TextLines
  import opened LineStore
  import opened Segments
  import opened StylePass
  import opened LineEdits
  import opened UndoRedo
  import opened Seqs
  import Utility

  // ---------------------------------------------------------------------------
  // Events
  // ---------------------------------------------------------------------------

  datatype EventKind = AlterKind | AddedKind | RemovedKind | ModifiedKind

  /** TextSegmentAlter/Added/Removed carry a line index and the change in its character count. */
  datatype Event =
    | TextSegmentAlter(line: int, diff: int)
    | TextSegmentAdded(line: int, diff: int)
    | TextSegmentRemoved(line: int, diff: int)
    | Modified

  function KindOf(e: Event): EventKind
  {
    match e
    case TextSegmentAlter(_, _) => AlterKind
    case TextSegmentAdded(_, _) => AddedKind
    case TextSegmentRemoved(_, _) => RemovedKind
    case Modified => ModifiedKind
  }

  /** What the subscribers see of a series of raised events: those of a kind with a subscriber, in order. */
  function Logged(es: seq<Event>, subscribed: set<EventKind>): seq<Event>
    decreases |es|
  {
    if |es| == 0 then []
    else Logged(es[..|es| - 1], subscribed) + (if KindOf(es[|es| - 1]) in subscribed then [es[|es| - 1]] else [])
  }

  lemma {:induction false} LoggedAppend(a: seq<Event>, b: seq<Event>, subscribed: set<EventKind>)
    ensures Logged(a + b, subscribed) == Logged(a, subscribed) + Logged(b, subscribed)
    decreases |b|
  {
    if |b| == 0 {
      assert a + b == a;
    } else {
      assert (a + b)[..|a + b| - 1] == a + b[..|b| - 1];
      LoggedAppend(a, b[..|b| - 1], subscribed);
    }
  }

  /** An event reaches the log exactly when it was raised and its kind has a subscriber. */
  lemma {:induction false} LoggedMembers(es: seq<Event>, subscribed: set<EventKind>, e: Event)
    ensures e in Logged(es, subscribed) <==> e in es && KindOf(e) in subscribed
    decreases |es|
  {
    if |es| > 0 {
      LoggedMembers(es[..|es| - 1], subscribed, e);
      assert es == es[..|es| - 1] + [es[|es| - 1]];
    }
  }

  lemma LoggedSingle(e: Event, subscribed: set<EventKind>)
    ensures Logged([e], subscribed) == if KindOf(e) in subscribed then [e] else []
  {
    assert [e][..0] == [];
  }

  /** A Dispatch: the log grows by the event when its kind has a subscriber. */
  function Raise(log: seq<Event>, subscribed: set<EventKind>, e: Event): seq<Event>
  {
    log + Logged([e], subscribed)
  }

  /**
   * The events of TextInsert's walk over text from line li: a line break
   * raises an Alter of the line by -tail (the part of the line moved away)
   * and the Added of the new line with the characters counted so far plus
   * one; the walk ends with an Alter by the characters since the last break.
   */
  function InsertEvents(text: string, li: int, tail: int, additions: int): seq<Event>
    decreases |text|
  {
    if |text| == 0 then [TextSegmentAlter(li, additions)]
    else if text[0] == '\n' then
      [TextSegmentAlter(li, -tail), TextSegmentAdded(li + 1, additions + 1)] + InsertEvents(text[1..], li + 1, tail, 0)
    else InsertEvents(text[1..], li, tail, additions + 1)
  }

  /** Every line break adds one line: two events per break and the final Alter, on the line after the last break. */
  lemma {:induction false} InsertEventsCount(text: string, li: int, tail: int, additions: int)
    ensures |InsertEvents(text, li, tail, additions)| == 2 * multiset(text)['\n'] + 1
    ensures InsertEvents(text, li, tail, additions)[|InsertEvents(text, li, tail, additions)| - 1].TextSegmentAlter?
    ensures InsertEvents(text, li, tail, additions)[|InsertEvents(text, li, tail, additions)| - 1].line == li + multiset(text)['\n']
    decreases |text|
  {
    if |text| > 0 {
      assert text == [text[0]] + text[1..];
      assert multiset(text) == multiset{text[0]} + multiset(text[1..]);
      if text[0] == '\n' {
        InsertEventsCount(text[1..], li + 1, tail, 0);
      } else {
        InsertEventsCount(text[1..], li, tail, additions + 1);
      }
    }
  }

  lemma InsertEventsBreak(text: string, i: int, li: int, tail: int, additions: int, subscribed: set<EventKind>)
    requires 0 <= i < |text| && text[i] == '\n'
    ensures Logged(InsertEvents(text[i..], li, tail, additions), subscribed)
      == Logged([TextSegmentAlter(li, -tail)], subscribed) + Logged([TextSegmentAdded(li + 1, additions + 1)], subscribed)
         + Logged(InsertEvents(text[i + 1..], li + 1, tail, 0), subscribed)
  {
    assert text[i..][1..] == text[i + 1..];
    var a, b := TextSegmentAlter(li, -tail), TextSegmentAdded(li + 1, additions + 1);
    LoggedAppend([a, b], InsertEvents(text[i + 1..], li + 1, tail, 0), subscribed);
    LoggedAppend([a], [b], subscribed);
    assert [a] + [b] == [a, b];
  }

  /** A line break's two events keep the walk's log on course for the whole text's. */
  lemma WalkBreakLog(raised: seq<Event>, goal: seq<Event>, text: string, i: int, li: int, tail: int, additions: int,
                     subscribed: set<EventKind>)
    requires 0 <= i < |text| && text[i] == '\n'
    requires raised + Logged(InsertEvents(text[i..], li, tail, additions), subscribed) == goal
    ensures Raise(Raise(raised, subscribed, TextSegmentAlter(li, -tail)), subscribed, TextSegmentAdded(li + 1, additions + 1))
      + Logged(InsertEvents(text[i + 1..], li + 1, tail, 0), subscribed) == goal
  {
    InsertEventsBreak(text, i, li, tail, additions, subscribed);
  }

  lemma InsertEventsChar(text: string, i: int, li: int, tail: int, additions: int)
    requires 0 <= i < |text| && text[i] != '\n'
    ensures InsertEvents(text[i..], li, tail, additions) == InsertEvents(text[i + 1..], li, tail, additions + 1)
  {
    assert text[i..][1..] == text[i + 1..];
  }

  /** Everything TextInsert raises: the Alter of the appended first line of an empty document, the walk, then Modified. */
  function InsertLog(lines: seq<Line>, start: int, text: string): seq<Event>
  {
    if |lines| == 0 then [TextSegmentAlter(0, 1)] + InsertEvents(text, 0, -start, 0) + [Modified]
    else
      var li := LineFromCharIndex(lines, start);
      (if 0 <= li < |lines| then InsertEvents(text, li, Len(lines[li]) - (start - lines[li].index), 0) else []) + [Modified]
  }

  /** TextInsert's log on an empty document: the appended first line's Alter, then InsertIntoDocument's events. */
  lemma InsertLogOnEmpty(e0: seq<Event>, e1: seq<Event>, e2: seq<Event>, l0: seq<Line>, l1: seq<Line>, start: int,
                         text: string, subscribed: set<EventKind>)
    requires |l0| == 0 && l1 == [NewLine(0, "")] && 0 <= start
    requires e1 == e0 + Logged([TextSegmentAlter(0, 1)], subscribed)
    requires e2 == e1 + Logged(InsertLog(l1, start, text), subscribed)
    ensures e2 == e0 + Logged(InsertLog(l0, start, text), subscribed)
  {
    var walk := InsertEvents(text, 0, -start, 0);
    assert LineFromCharIndex(l1, start) == 0;
    assert InsertLog(l1, start, text) == walk + [Modified];
    assert InsertLog(l0, start, text) == [TextSegmentAlter(0, 1)] + (walk + [Modified]);
    LoggedAppend([TextSegmentAlter(0, 1)], walk + [Modified], subscribed);
  }

  /** TextInsert's log on a document with lines: InsertIntoDocument's events. */
  lemma InsertLogOnLines(raised: seq<Event>, l0: seq<Line>, start: int, text: string, subscribed: set<EventKind>,
                         li: int, tail: int)
    requires |l0| > 0
    requires li == LineFromCharIndex(l0, start) && 0 <= li < |l0| && tail == Len(l0[li]) - (start - l0[li].index)
    requires raised == Logged(InsertEvents(text, li, tail, 0), subscribed)
    ensures raised + Logged([Modified], subscribed) == Logged(InsertLog(l0, start, text), subscribed)
  {
    LoggedAppend(InsertEvents(text, li, tail, 0), [Modified], subscribed);
  }

  /** m merges of line li with the next one: an Alter by 0 and a Removed by -1 of line li + 1 each. */
  function MergeEvents(li: int, m: nat): (r: seq<Event>)
    ensures |r| == 2 * m
  {
    if m == 0 then [] else MergeEvents(li, m - 1) + [TextSegmentAlter(li + 1, 0), TextSegmentRemoved(li + 1, -1)]
  }

  /** What TextRemove raises on the lines: the merges, then the Alter of the cut when something is left to cut. */
  function CutEvents(li: int, merges: nat, dec: int): seq<Event>
  {
    MergeEvents(li, merges) + (if dec > 0 then [TextSegmentAlter(li, -dec)] else [])
  }

  /** The merges' events, then the Alter of the cut when something is left to cut. */
  lemma CutEventsStep(merged: seq<Event>, raised: seq<Event>, li: int, merges: nat, dec: int, subscribed: set<EventKind>)
    requires merged == Logged(MergeEvents(li, merges), subscribed)
    requires raised == if dec > 0 then Raise(merged, subscribed, TextSegmentAlter(li, -dec)) else merged
    ensures raised == Logged(CutEvents(li, merges, dec), subscribed)
  {
    LoggedAppend(MergeEvents(li, merges), if dec > 0 then [TextSegmentAlter(li, -dec)] else [], subscribed);
  }

  /** Everything TextRemove raises: the line events, then Modified. */
  function RemoveLog(li: int, merges: nat, dec: int): seq<Event>
  {
    CutEvents(li, merges, dec) + [Modified]
  }

  /** The log holds what m merges at line li raise. */
  predicate MergeLog(log: seq<Event>, subscribed: set<EventKind>, li: int, m: nat)
  {
    log == Logged(MergeEvents(li, m), subscribed)
  }

  lemma MergeEventsStep(log: seq<Event>, log': seq<Event>, subscribed: set<EventKind>, li: int, m: nat, m': nat)
    requires MergeLog(log, subscribed, li, m) && m' == m + 1
    requires log' == Raise(Raise(log, subscribed, TextSegmentAlter(li + 1, 0)), subscribed, TextSegmentRemoved(li + 1, -1))
    ensures MergeLog(log', subscribed, li, m')
  {
    var a, b := TextSegmentAlter(li + 1, 0), TextSegmentRemoved(li + 1, -1);
    LoggedAppend(MergeEvents(li, m), [a, b], subscribed);
    LoggedAppend([a], [b], subscribed);
    assert [a] + [b] == [a, b];
  }

  /** TextRemove's log: the line events, then Modified. */
  lemma RemoveLogSteps(e0: seq<Event>, raised: seq<Event>, e2: seq<Event>, li: int, merges: nat, dec: int,
                       subscribed: set<EventKind>)
    requires raised == Logged(CutEvents(li, merges, dec), subscribed)
    requires e2 == e0 + raised + Logged([Modified], subscribed)
    ensures e2 == e0 + Logged(RemoveLog(li, merges, dec), subscribed)
  {
    LoggedAppend(CutEvents(li, merges, dec), [Modified], subscribed);
  }

  // ---------------------------------------------------------------------------
  // Views
  // ---------------------------------------------------------------------------

  /** A registered text view, by identity; the styles it searches with are given by the document's stylesOf. */
  type View = nat

  function ViewStyles(views: seq<View>, stylesOf: View -> seq<Style>): seq<seq<Style>>
  {
    seq(|views|, i requires 0 <= i < |views| => stylesOf(views[i]))
  }

  /** List.Remove: the first occurrence goes, or nothing when there is none. */
  function RemoveFirst(views: seq<View>, v: View): seq<View>
    decreases |views|
  {
    if |views| == 0 then []
    else if views[0] == v then views[1..]
    else [views[0]] + RemoveFirst(views[1..], v)
  }

  lemma {:induction false} RemoveFirstDropsOne(views: seq<View>, v: View)
    ensures v !in views ==> RemoveFirst(views, v) == views
    ensures v in views ==> multiset(RemoveFirst(views, v)) + multiset{v} == multiset(views)
    ensures v in views ==> |RemoveFirst(views, v)| == |views| - 1
    decreases |views|
  {
    if |views| > 0 {
      var rest := views[1..];
      assert views == [views[0]] + rest;
      RemoveFirstDropsOne(rest, v);
      assert multiset(views) == multiset{views[0]} + multiset(rest);
      if views[0] != v {
        assert v in views <==> v in rest;
        var r := RemoveFirst(rest, v);
        assert RemoveFirst(views, v) == [views[0]] + r;
        assert multiset([views[0]] + r) == multiset{views[0]} + multiset(r);
      }
    }
  }

  // ---------------------------------------------------------------------------
  // The text as read back
  // ---------------------------------------------------------------------------

  /** TextGetStream rightward: the text from start on, nothing for -1 or a start past the end. */
  function StreamFrom(lines: seq<Line>, start: int): string
  {
    if 0 <= start <= |Text(lines)| then Text(lines)[start..] else []
  }

  /** One character of the stream: what TextGetStream reads at i on line k, and where i + 1 lies. */
  lemma StreamAt(lines: seq<Line>, k: int, start: int, i: int)
    requires LineStarts(lines) && 0 <= k < |lines| && Holds(lines, k, i) && 0 <= start <= i < TextLength(lines)
    ensures var rel := i - lines[k].index;
      && i < |Text(lines)|
      && Text(lines)[start..i + 1] == Text(lines)[start..i] + [if rel < Len(lines[k]) then Txt(lines[k])[rel] else '\n']
      && (rel == Len(lines[k]) ==> k + 1 < |lines| && Holds(lines, k + 1, i + 1))
  {
    TextLengthIsLength(lines);
    FlowAt(lines, k, i);
    if i - lines[k].index == Len(lines[k]) {
      assert k + 1 < |lines| && StepAt(lines, k);
    }
  }

  /** TextGet's countdown: length characters, or all of them when the count never reaches 0. */
  function Taken(s: string, length: int): string
  {
    if 0 < length <= |s| then s[..length] else s
  }

  /** TextGet(start, length) as a value. */
  function TextGetValue(lines: seq<Line>, start: int, length: int): string
  {
    Taken(StreamFrom(lines, start), length)
  }

  /**
   * Inside the text TextGet reads exactly the span, except that length 0
   * (like any length below 1) reads to the end.
   */
  lemma TextGetReadsSpan(lines: seq<Line>, start: int, length: int)
    requires LineStarts(lines) && 0 <= start <= |Text(lines)| && start + length <= |Text(lines)|
    ensures length > 0 ==> TextGetValue(lines, start, length) == Text(lines)[start..start + length]
    ensures length <= 0 ==> TextGetValue(lines, start, length) == Text(lines)[start..]
  {
    TextLengthIsLength(lines);
  }

  // ---------------------------------------------------------------------------
  // TextRemove's guards
  // ---------------------------------------------------------------------------

  /** TextRemove returns null without a change: no line for the start, or a span past the end of the last line. */
  predicate RemoveRefused(lines: seq<Line>, start: int, length: int)
  {
    var li := LineFromCharIndex(lines, start);
    li == -1 || (0 <= li == |lines| - 1 && Max0(start - lines[li].index) + length > Len(lines[li]))
  }

  function Max0(x: int): int
  {
    if x > 0 then x else 0
  }

  /**
   * The removals TextRemove finishes: a span starting before the last line
   * that runs past the end of the text would merge forever.
   */
  predicate RemoveTerminates(lines: seq<Line>, start: int, length: int)
  {
    var li := LineFromCharIndex(lines, start);
    li == -1 || li == |lines| - 1 || start + length <= TextLength(lines)
  }

  /** A span inside the text is admitted and finishes. */
  lemma RemoveAdmits(lines: seq<Line>, start: int, length: int)
    requires LineStarts(lines) && |lines| > 0 && 0 <= start && 0 <= length && start + length <= TextLength(lines)
    ensures !RemoveRefused(lines, start, length) && RemoveTerminates(lines, start, length)
  {
    LineLookup(lines, start);
  }

  /**
   * For a span inside the text or starting at its end, TextRemove finishes,
   * and it is refused exactly when the span leaves the text (or there is no
   * line at all).
   */
  lemma RemoveRefusedOutside(lines: seq<Line>, start: int, length: int)
    requires LineStarts(lines) && start >= -1 && length >= 0
    requires start + length <= TextLength(lines) || start == TextLength(lines)
    ensures RemoveTerminates(lines, start, length)
    ensures RemoveRefused(lines, start, length) <==> !(|lines| > 0 && 0 <= start && start + length <= TextLength(lines))
  {
    LineLookup(lines, start);
    if |lines| > 0 && 0 <= start && start + length <= TextLength(lines) {
      RemoveAdmits(lines, start, length);
    } else if |lines| > 0 && start == TextLength(lines) {
      LineBounds(lines, |lines| - 1);
      assert Holds(lines, |lines| - 1, start);
    }
  }

  // ---------------------------------------------------------------------------
  // TextAppendLine on the lines and anchor lists
  // ---------------------------------------------------------------------------

  /**
   * The line TextAppendLine adds, with an empty anchor list, and the search
   * of every view over the whole new line.
   */
  method AppendToStore(lines: seq<Line>, segs: Segs, next: nat, chars: CharOracle, views: seq<seq<Style>>, at: int, text: string)
    returns (ls: seq<Line>, ss: Segs, nx: nat)
    requires |segs| == |lines| && Sound(segs, next) && at >= 0
    ensures |ss| == |ls| && Sound(ss, nx) && next <= nx
    ensures ls == lines + [NewLine(at, text)]
    ensures LineStarts(lines) && at == AppendIndexCorrected(lines) ==> LineStarts(ls)
    ensures |views| == 0 ==> ss == segs + [[]]
  {
    var newLine := NewLine(at, text);
    assert Len(newLine) == |text| by {
      NewLineShape(at, text, 0);
    }
    assert LineStarts(lines) && at == AppendIndexCorrected(lines) ==> LineStarts(lines + [newLine]) by {
      if LineStarts(lines) {
        AppendCorrectedLineStarts(lines, text);
      }
    }
    SoundWithEmptyLine(segs, next);
    ls := lines + [newLine];
    ss, nx := SearchForViews(ls, segs + [[]], next, chars, views, |ls| - 1, 0, Len(newLine));
  }

  // ---------------------------------------------------------------------------
  // TextInsert and TextRemove on the lines and anchor lists
  // ---------------------------------------------------------------------------

  /**
   * The closing loop of both edits: every line after line k moves by -d, so
   * the gap of d after line k travels to the last line and the flow stays.
   */
  method ShiftFollowing(lines: seq<Line>, k: int, d: int) returns (r: seq<Line>)
    requires Spaced(lines, k, d) && 0 <= k < |lines|
    ensures |r| == |lines| && Spaced(r, |r| - 1, d) && Flow(r) == Flow(lines)
  {
    r := lines;
    var j := k + 1;
    while j < |r|
      invariant k + 1 <= j <= |r| && |r| == |lines|
      invariant Spaced(r, j - 1, d) && Flow(r) == Flow(lines)
    {
      ShiftMovesGap(r, j - 1, d);
      r := ShiftLine(r, j, -d);
      j := j + 1;
    }
  }

  /**
   * TextInsert's walk over text from line li at offset rel: a line break
   * splits the line (its anchors with it) and raises an Alter and an Added,
   * any other character goes in at the cursor; after each step every view
   * passes over the line once; the walk ends with the Alter of the last line.
   */
  method InsertWalk(lines: seq<Line>, segs: Segs, next: nat, chars: CharOracle, views: seq<seq<Style>>,
                    subscribed: set<EventKind>, start: int, text: string, li: int, rel: int)
    returns (ls: seq<Line>, ss: Segs, nx: nat, raised: seq<Event>, last: int)
    requires Inserting(lines, Flow(lines), start, text, 0, li, rel)
    requires |segs| == |lines| && Sound(segs, next)
    ensures 0 <= last < |ls| && Spaced(ls, last, -|text|)
    ensures Flow(ls) == Flow(lines)[..start] + text + Flow(lines)[start..]
    ensures |ss| == |ls| && Sound(ss, nx) && next <= nx
    ensures raised == Logged(InsertEvents(text, li, Len(lines[li]) - rel, 0), subscribed)
  {
    ghost var f0 := Flow(lines);
    ghost var tail := Len(lines[li]) - rel;
    ghost var goal := Logged(InsertEvents(text, li, tail, 0), subscribed);
    ls, ss, nx, raised := lines, segs, next, [];
    var lineIndex, relativeIndex := li, rel;
    var characterAdditions := 0;
    assert text[0..] == text;
    var i := 0;
    while i < |text|
      invariant Inserting(ls, f0, start, text, i, lineIndex, relativeIndex)
      invariant Len(ls[lineIndex]) - relativeIndex == tail
      invariant |ss| == |ls| && Sound(ss, nx) && next <= nx
      invariant raised + Logged(InsertEvents(text[i..], lineIndex, tail, characterAdditions), subscribed) == goal
    {
      if text[i] == '\n' {
        ls, ss, nx, raised := WalkBreak(ls, ss, nx, chars, views, subscribed, f0, start, text, i, lineIndex, relativeIndex,
                                        raised, characterAdditions, tail, goal);
        characterAdditions := 0;
        relativeIndex := 0;
        lineIndex := lineIndex + 1;
      } else {
        ls, ss, nx := WalkChar(ls, ss, nx, chars, views, f0, start, text, i, lineIndex, relativeIndex);
        InsertEventsChar(text, i, lineIndex, tail, characterAdditions);
        characterAdditions := characterAdditions + 1;
        relativeIndex := relativeIndex + 1;
      }
      i := i + 1;
    }
    assert text[i..] == [] && text[..i] == text;
    raised := Raise(raised, subscribed, TextSegmentAlter(lineIndex, characterAdditions));
    last := lineIndex;
  }

  /** A line break of the walk: line li splits at the cursor, Alter and Added are raised, the views pass over line li. */
  method WalkBreak(ls: seq<Line>, ss: Segs, nx: nat, chars: CharOracle, views: seq<seq<Style>>, subscribed: set<EventKind>,
                   ghost f0: string, start: int, text: string, i: int, li: int, rel: int,
                   raised: seq<Event>, additions: int, ghost tail: int, ghost goal: seq<Event>)
    returns (ls2: seq<Line>, ss2: Segs, nx2: nat, raised2: seq<Event>)
    requires Inserting(ls, f0, start, text, i, li, rel) && i < |text| && text[i] == '\n'
    requires Len(ls[li]) - rel == tail
    requires |ss| == |ls| && Sound(ss, nx)
    requires raised + Logged(InsertEvents(text[i..], li, tail, additions), subscribed) == goal
    ensures Inserting(ls2, f0, start, text, i + 1, li + 1, 0) && Len(ls2[li + 1]) == tail
    ensures |ss2| == |ls2| && Sound(ss2, nx2) && nx <= nx2
    ensures raised2 + Logged(InsertEvents(text[i + 1..], li + 1, tail, 0), subscribed) == goal
  {
    var diff1 := Len(ls[li]) - rel;
    SplitStep(ls, f0, start, text, i, li, rel);
    ls2 := SplitLines(ls, li, rel, start + i + 1);
    raised2 := Raise(raised, subscribed, TextSegmentAlter(li, -diff1));
    var kept, moved := SplitSegments(ss[li], rel);
    SplitKeepsStore(ss, nx, li, rel);
    ss2 := ss[..li] + [kept, moved] + ss[li + 1..];
    raised2 := Raise(raised2, subscribed, TextSegmentAdded(li + 1, additions + 1));
    ss2, nx2 := ModifyForViews(ls2, ss2, nx, chars, views, li, rel, text[i], true, 1);
    assert diff1 == tail;
    WalkBreakLog(raised, goal, text, i, li, diff1, additions, subscribed);
  }

  /** Any other character of the walk goes in at the cursor of line li; the views pass over the line. */
  method WalkChar(ls: seq<Line>, ss: Segs, nx: nat, chars: CharOracle, views: seq<seq<Style>>,
                  ghost f0: string, start: int, text: string, i: int, li: int, rel: int)
    returns (ls2: seq<Line>, ss2: Segs, nx2: nat)
    requires Inserting(ls, f0, start, text, i, li, rel) && i < |text| && text[i] != '\n'
    requires |ss| == |ls| && Sound(ss, nx)
    ensures Inserting(ls2, f0, start, text, i + 1, li, rel + 1) && Len(ls2[li]) == Len(ls[li]) + 1
    ensures |ss2| == |ls2| && Sound(ss2, nx2) && nx <= nx2
  {
    InsertCharStep(ls, f0, start, text, i, li, rel);
    ls2 := InsertChar(ls, li, rel, text[i]);
    ss2, nx2 := ModifyForViews(ls2, ss, nx, chars, views, li, rel, text[i], true, 1);
  }

  /**
   * TextInsert on a document with at least one line: the lookup of start,
   * the walk, and the shift of the later lines by the text's length.
   */
  method InsertIntoStore(lines: seq<Line>, segs: Segs, next: nat, chars: CharOracle, views: seq<seq<Style>>,
                         subscribed: set<EventKind>, start: int, text: string)
    returns (ls: seq<Line>, ss: Segs, nx: nat, raised: seq<Event>, ghost li: int, ghost tail: int)
    requires LineStarts(lines) && |lines| > 0 && 0 <= start <= TextLength(lines)
    requires |segs| == |lines| && Sound(segs, next)
    ensures LineStarts(ls) && |ss| == |ls| && Sound(ss, nx) && next <= nx
    ensures |Text(lines)| == TextLength(lines)
    ensures Text(ls) == Splice(Text(lines), start, text)
    ensures li == LineFromCharIndex(lines, start) && 0 <= li < |lines| && tail == Len(lines[li]) - (start - lines[li].index)
    ensures raised == Logged(InsertEvents(text, li, tail, 0), subscribed)
  {
    var lineIndex := GetLineFromCharIndex(lines, start);
    InsertBegins(lines, start, text);
    var relativeIndex := Utility.Min(Len(lines[lineIndex]), start - lines[lineIndex].index);
    li, tail := lineIndex, Len(lines[lineIndex]) - relativeIndex;
    var last;
    ls, ss, nx, raised, last := InsertWalk(lines, segs, next, chars, views, subscribed, start, text, lineIndex, relativeIndex);
    if |text| != 0 {
      ls := ShiftFollowing(ls, last, -|text|);
      InsertEnds(ls, Flow(lines), start, text, |ls| - 1);
    } else {
      InsertEnds(ls, Flow(lines), start, text, last);
    }
    assert Flow(lines)[..|Flow(lines)| - 1] == Text(lines) && |Text(lines)| == TextLength(lines) by {
      TextLengthIsLength(lines);
    }
  }

  /**
   * TextRemove's mending loop: while the span passes the end of line li the
   * next line is merged in (its anchors moved after the line's), raising an
   * Alter and a Removed each time; one character of the span goes per merge.
   */
  method RemoveMerge(lines: seq<Line>, segs: Segs, next: nat, subscribed: set<EventKind>,
                     start: int, length: int, li: int, cur: int)
    returns (ls: seq<Line>, ss: Segs, nx: nat, raised: seq<Event>, dec: int)
    requires Removing(lines, Flow(lines), start, length, length, li, cur)
    requires |segs| == |lines| && Sound(segs, next)
    ensures Removing(ls, Flow(lines), start, length, dec, li, cur) && cur + dec <= Len(ls[li])
    ensures |ss| == |ls| && Sound(ss, nx) && next <= nx
    ensures |ls| + (length - dec) == |lines|
    ensures raised == Logged(MergeEvents(li, length - dec), subscribed)
  {
    ghost var f0 := Flow(lines);
    ls, ss, nx, raised, dec := lines, segs, next, [], length;
    while cur + dec > Len(ls[li])
      invariant Removing(ls, f0, start, length, dec, li, cur)
      invariant |ss| == |ls| && Sound(ss, nx) && next <= nx
      invariant |ls| + (length - dec) == |lines|
      invariant MergeLog(raised, subscribed, li, length - dec)
      decreases dec
    {
      ls, ss, raised, dec := MergeNext(ls, ss, nx, raised, dec, f0, subscribed, start, length, li, cur);
    }
  }

  /**
   * One round of the mending loop: line li + 1 merged into line li, its
   * anchors moved after the line's, an Alter and a Removed raised and one
   * character of the span gone.
   */
  method MergeNext(ls: seq<Line>, ss: Segs, nx: nat, raised: seq<Event>, dec: int, ghost f0: string,
                   subscribed: set<EventKind>, start: int, length: int, li: int, cur: int)
    returns (ls': seq<Line>, ss': Segs, raised': seq<Event>, dec': int)
    requires Removing(ls, f0, start, length, dec, li, cur) && cur + dec > Len(ls[li])
    requires |ss| == |ls| && Sound(ss, nx)
    requires MergeLog(raised, subscribed, li, length - dec)
    ensures Removing(ls', f0, start, length, dec', li, cur) && dec' == dec - 1
    ensures |ss'| == |ls'| == |ls| - 1 && Sound(ss', nx)
    ensures MergeLog(raised', subscribed, li, length - dec')
  {
    MergeStep(ls, f0, start, length, dec, li, cur);
    var merged, rest := MergeSegments(ss[li], ss[li + 1], Len(ls[li]));
    MergeKeepsStore(ss, nx, li, Len(ls[li]));
    ss' := ss[..li] + [merged] + ss[li + 2..];
    ls' := MergeLines(ls, li);
    raised' := Raise(raised, subscribed, TextSegmentAlter(li + 1, 0));
    raised' := Raise(raised', subscribed, TextSegmentRemoved(li + 1, -1));
    dec' := dec - 1;
    MergeEventsStep(raised, raised', subscribed, li, length - dec, length - dec');
  }

  /**
   * The anchors inside the cut dropped from line li unless pinned, then every
   * view's pass over the line; the other lines keep their lists.
   */
  method DropInsideCut(lines: seq<Line>, segs: Segs, next: nat, chars: CharOracle, views: seq<seq<Style>>,
                       li: int, cur: int, dec: int)
    returns (ss: Segs, nx: nat)
    requires |segs| == |lines| && 0 <= li < |lines| && lines[li].index >= 0 && Sound(segs, next)
    ensures |ss| == |segs| && Sound(ss, nx) && next <= nx
    ensures |views| == 0 ==> ss == segs[li := RemovalSurvivors(segs[li], cur, dec)] && nx == next
    ensures LineStarts(lines) ==> forall j :: 0 <= j < |lines| && j != li ==> ss[j] == segs[j]
  {
    var survivors := FilterRemoved(segs[li], cur, dec);
    SurvivorIds(segs[li], cur, dec);
    RefreshesBySubset(survivors, segs[li], next);
    SoundAfterReplace(segs, next, li, survivors, next);
    ss := segs[li := survivors];
    ss, nx := ModifyForViews(lines, ss, next, chars, views, li, cur, '\0', true, -dec);
  }

  /**
   * TextRemove once the lookup admitted the span: the merges, the cut of
   * what is left of the span, the anchors inside it dropped, every view's
   * pass over the line, and the later lines moved back by the length.
   */
  method RemoveFromStore(lines: seq<Line>, segs: Segs, next: nat, chars: CharOracle, views: seq<seq<Style>>,
                         subscribed: set<EventKind>, start: int, length: int, lineIndex: int)
    returns (ls: seq<Line>, ss: Segs, nx: nat, raised: seq<Event>, ghost merges: nat)
    requires LineStarts(lines) && SpanAt(lines, lineIndex, start, length)
    requires |segs| == |lines| && Sound(segs, next)
    ensures LineStarts(ls) && |ss| == |ls| && Sound(ss, nx) && next <= nx
    ensures Text(ls) == Excise(Text(lines), start, length)
    ensures |lines| == |ls| + merges && merges <= length
    ensures raised == Logged(CutEvents(lineIndex, merges, length - merges), subscribed)
  {
    var cur, dec;
    ls, ss, nx, raised, cur, dec, merges := MergeAndCut(lines, segs, next, subscribed, start, length, lineIndex);
    ss, nx := DropInsideCut(ls, ss, nx, chars, views, lineIndex, cur, dec);
    ls := ShiftFollowing(ls, lineIndex, length);
    RemoveEndsText(ls, lines, start, length);
  }

  /**
   * The first part of TextRemove on the lines: the merges while the span
   * passes the line end, then the cut of the dec characters left, at offset
   * cur of line li; the later lines have not moved yet.
   */
  method MergeAndCut(lines: seq<Line>, segs: Segs, next: nat, subscribed: set<EventKind>,
                     start: int, length: int, li: int)
    returns (ls: seq<Line>, ss: Segs, nx: nat, raised: seq<Event>, cur: int, dec: int, ghost merges: nat)
    requires LineStarts(lines) && SpanAt(lines, li, start, length)
    requires |segs| == |lines| && Sound(segs, next)
    ensures |ss| == |ls| && Sound(ss, nx) && next <= nx
    ensures |lines| == |ls| + merges && merges <= length && dec == length - merges
    ensures 0 <= li < |ls| && ls[li].index >= 0 && Spaced(ls, li, length)
    ensures start + length < |Flow(lines)| && Flow(ls) == Excise(Flow(lines), start, length)
    ensures raised == Logged(CutEvents(li, merges, dec), subscribed)
  {
    RemoveBegins(lines, li, start, length);
    cur := Max0(start - lines[li].index);
    assert cur == start - lines[li].index;
    ls, ss, nx, raised, dec := RemoveMerge(lines, segs, next, subscribed, start, length, li, cur);
    merges := length - dec;
    ls, raised := CutRest(lines, ls, raised, subscribed, start, length, li, cur, dec, merges);
  }

  /** The second part of MergeAndCut: the dec characters left of the span cut at offset cur of line li. */
  method CutRest(lines: seq<Line>, merged: seq<Line>, raised0: seq<Event>, subscribed: set<EventKind>,
                 start: int, length: int, li: int, cur: int, dec: int, ghost merges: nat)
    returns (ls: seq<Line>, raised: seq<Event>)
    requires Removing(merged, Flow(lines), start, length, dec, li, cur) && cur + dec <= Len(merged[li])
    requires merges == length - dec && raised0 == Logged(MergeEvents(li, merges), subscribed)
    ensures |ls| == |merged| && 0 <= li < |ls| && ls[li].index >= 0 && Spaced(ls, li, length)
    ensures start + length < |Flow(lines)| && Flow(ls) == Excise(Flow(lines), start, length)
    ensures raised == Logged(CutEvents(li, merges, dec), subscribed)
  {
    CutStep(merged, Flow(lines), start, length, dec, li, cur);
    ls, raised := merged, raised0;
    if dec > 0 {
      ls := CutLines(ls, li, cur, dec);
      raised := Raise(raised, subscribed, TextSegmentAlter(li, -dec));
    }
    CutEventsStep(raised0, raised, li, merges, dec, subscribed);
    ExciseOf(Flow(ls), Flow(lines), start, length);
  }

  // ---------------------------------------------------------------------------
  // The document
  // ---------------------------------------------------------------------------

  class TextDocument {
    var lines: seq<Line>
    /** The anchor list of each line, beside it. */
    var segs: Segs
    /** The identity the next new anchor gets. */
    var next: nat
    var views: seq<View>
    var isModified: bool
    /** The events the subscribers have seen, and the event kinds that have a subscriber. */
    var events: seq<Event>
    var subscribed: set<EventKind>
    /** Whether the styled-segment manager is still there (it goes with Dispose). */
    var styledManager: bool
    var manager: UndoRedoManager?
    const chars: CharOracle
    /** The style list of each view. */
    const stylesOf: View -> seq<Style>

    /** One anchor list per line, a sound anchor store, and both managers present or both gone. */
    ghost predicate Valid()
      reads this, manager
    {
      && |segs| == |lines| && Sound(segs, next)
      && (styledManager <==> manager != null)
      && (manager != null ==> manager.Valid())
    }

    constructor (chars: CharOracle, stylesOf: View -> seq<Style>)
      ensures Valid() && this.chars == chars && this.stylesOf == stylesOf
      ensures lines == [] && views == [] && !isModified && events == [] && subscribed == {}
      ensures manager != null && fresh(manager) && manager.undoList == [] && manager.redoStack == []
      ensures manager.maxUndoLevel == 10 && manager.acceptsChanges
    {
      lines := [];
      segs := [];
      next := 0;
      views := [];
      isModified := false;
      events := [];
      subscribed := {};
      styledManager := true;
      this.chars := chars;
      this.stylesOf := stylesOf;
      manager := new UndoRedoManager();
    }

    /** CreateStyledTextSegment: a new anchor of the style, in no line yet. */
    method CreateStyledTextSegment(style: Style) returns (a: Anchor)
      modifies this`next
      ensures a == NewAnchor(old(next), style) && next == old(next) + 1
    {
      a := NewAnchor(next, style);
      next := next + 1;
    }

    /** TextSegmentStyledManager.Clear(clearPinned) on every line's list. */
    method ClearSegments(clearPinned: bool)
      requires Valid()
      modifies this`segs
      ensures Valid() && |segs| == |old(segs)|
      ensures forall k :: 0 <= k < |segs| ==> segs[k] == KeptByClear(old(segs)[k], clearPinned)
    {
      var r := Segments.Clear(segs, clearPinned);
      ClearKeepsStore(segs, next, r, clearPinned);
      segs := r;
    }

    /** TextSegmentStyledManager.AddManualTextSegment on the document's lists. */
    method AddManualTextSegment(a: Anchor, index: int)
      requires Valid() && |lines| > 0 && index != -1 && a.id < next
      modifies this`segs
      ensures Valid() && 0 <= LineFromCharIndex(lines, index) < |lines|
      ensures segs == AddManual(lines, old(segs), a, index)
    {
      AddManualPlacesAnchor(lines, segs, next, a, index, 0);
      segs := AddManual(lines, segs, a, index);
    }

    /** A handler attached to one of the events. */
    method Subscribe(kind: EventKind)
      modifies this`subscribed
      ensures subscribed == old(subscribed) + {kind}
    {
      subscribed := subscribed + {kind};
    }

    function ReferenceCount(): nat
      reads this
    {
      |views|
    }

    method RegisterTextView(v: View)
      modifies this`views
      ensures views == old(views) + [v]
      ensures ReferenceCount() == old(ReferenceCount()) + 1
    {
      views := views + [v];
    }

    method Clear()
      modifies this`lines, this`segs
      ensures lines == [] && segs == []
    {
      lines := [];
      segs := [];
    }

    /** Dispose: the document is cleared and both managers are disposed and dropped. */
    method Dispose()
      requires Valid()
      modifies this`lines, this`segs, this`styledManager, this`manager, manager
      ensures Valid() && lines == [] && segs == [] && manager == null && !styledManager
      ensures old(manager) != null ==> old(manager).undoList == [] && old(manager).redoStack == []
    {
      Clear();
      styledManager := false;
      if manager != null {
        manager.Dispose();
        manager := null;
      }
    }

    /** A disposed view is unregistered; the last one to go disposes the document. */
    method ViewDisposed(v: View)
      requires Valid()
      modifies this`views, this`lines, this`segs, this`styledManager, this`manager, manager
      ensures Valid() && views == RemoveFirst(old(views), v)
      ensures |views| == 0 ==> lines == [] && segs == [] && manager == null && !styledManager
      ensures |views| > 0 ==>
        && lines == old(lines) && segs == old(segs) && manager == old(manager)
        && styledManager == old(styledManager) && (manager != null ==> unchanged(manager))
    {
      views := RemoveFirst(views, v);
      if ReferenceCount() == 0 {
        Dispose();
      }
    }

    /**
     * The command for an edit handed to the undo/redo manager: made only when
     * the manager accepts changes and the edit is worth recording.
     */
    method RecordEdit(edit: Edit, worth: bool) returns (cmd: Command?)
      requires manager != null && manager.Valid()
      modifies manager
      ensures manager.Valid() && manager.acceptsChanges == old(manager.acceptsChanges)
      ensures manager.maxUndoLevel == old(manager.maxUndoLevel)
      ensures AfterRecord(manager, old(manager.undoList), old(manager.redoStack), cmd)
      ensures cmd != null <==> old(manager.acceptsChanges) && worth
      ensures cmd != null ==> fresh(cmd) && cmd.edit == edit && !cmd.undoPair && !cmd.redoPair
    {
      cmd := null;
      if manager.acceptsChanges && worth {
        cmd := new Command(edit);
        var _ := manager.AddUndoCommand(cmd);
      }
    }

    /** The tail every edit shares: the record (when worth keeping and accepted), then IsModified set, which raises Modified. */
    method Commit(edit: Edit, worth: bool) returns (cmd: Command?)
      requires Valid() && manager != null
      modifies manager, this`isModified, this`events
      ensures Valid() && manager.acceptsChanges == old(manager.acceptsChanges)
      ensures manager.maxUndoLevel == old(manager.maxUndoLevel)
      ensures AfterRecord(manager, old(manager.undoList), old(manager.redoStack), cmd)
      ensures cmd != null <==> old(manager.acceptsChanges) && worth
      ensures cmd != null ==> fresh(cmd) && cmd.edit == edit && !cmd.undoPair && !cmd.redoPair
      ensures isModified && events == old(events) + Logged([Modified], subscribed)
    {
      cmd := RecordEdit(edit, worth);
      SetIsModified(true);
    }

    /** The IsModified setter raises Modified on every assignment, changed or not. */
    method SetIsModified(value: bool)
      modifies this`isModified, this`events
      ensures isModified == value
      ensures events == old(events) + Logged([Modified], subscribed)
    {
      isModified := value;
      LoggedSingle(Modified, subscribed);
      events := Raise(events, subscribed, Modified);
    }

    /** DispatchTextSegmentAlter/Removed/Added: raised only when there is a subscriber. */
    method Dispatch(e: Event)
      modifies this`events
      ensures events == if KindOf(e) in subscribed then old(events) + [e] else old(events)
    {
      LoggedSingle(e, subscribed);
      events := Raise(events, subscribed, e);
    }

    /**
     * TextAppendLine: a line at TextLength + 1 (at 0 when TextLength is 0)
     * holding text, with an empty anchor list; an Alter by its length plus
     * one; then every view searches the whole new line.
     */
    method TextAppendLine(text: string)
      requires Valid() && (styledManager || |views| == 0)
      modifies this`lines, this`segs, this`next, this`events
      ensures Valid() && old(next) <= next
      ensures lines == old(lines) + [NewLine(AppendIndex(old(lines)), text)]
      ensures LineStarts(old(lines)) && !(|old(lines)| == 1 && Len(old(lines)[0]) == 0) ==> LineStarts(lines)
      ensures events == old(events) + Logged([TextSegmentAlter(|old(lines)|, |text| + 1)], subscribed)
      ensures |views| == 0 ==> segs == old(segs) + [[]]
    {
      if LineStarts(lines) {
        AppendIndexAgrees(lines);
      }
      AppendLineAt(AppendIndex(lines), text);
    }

    /**
     * TextAppendLine as its comment means it: the first line at 0, every
     * later one at TextLength + 1, so the line starts always hold.
     */
    method TextAppendLineCorrected(text: string)
      requires Valid() && LineStarts(lines) && (styledManager || |views| == 0)
      modifies this`lines, this`segs, this`next, this`events
      ensures Valid() && old(next) <= next
      ensures lines == old(lines) + [NewLine(AppendIndexCorrected(old(lines)), text)]
      ensures LineStarts(lines)
      ensures events == old(events) + Logged([TextSegmentAlter(|old(lines)|, |text| + 1)], subscribed)
      ensures |views| == 0 ==> segs == old(segs) + [[]]
    {
      if |lines| > 0 {
        LineBounds(lines, |lines| - 1);
      }
      AppendLineAt(AppendIndexCorrected(lines), text);
    }

    /** The body of TextAppendLine with the new line's start given. */
    method AppendLineAt(at: int, text: string)
      requires Valid() && (styledManager || |views| == 0) && at >= 0
      modifies this`lines, this`segs, this`next, this`events
      ensures Valid() && old(next) <= next
      ensures lines == old(lines) + [NewLine(at, text)]
      ensures LineStarts(old(lines)) && at == AppendIndexCorrected(old(lines)) ==> LineStarts(lines)
      ensures events == old(events) + Logged([TextSegmentAlter(|old(lines)|, |text| + 1)], subscribed)
      ensures |views| == 0 ==> segs == old(segs) + [[]]
    {
      var newLine := NewLine(at, text);
      LoggedSingle(TextSegmentAlter(|lines|, |text| + 1), subscribed);
      NewLineShape(at, text, 0);
      Dispatch(TextSegmentAlter(|lines|, Len(newLine) + 1));
      var ls, ss, nx := AppendToStore(lines, segs, next, chars, ViewStyles(views, stylesOf), at, text);
      lines, segs, next := ls, ss, nx;
    }

    /** TextGetStream rightward, walking the lines from the start's line. */
    method TextGetStream(start: int) returns (r: string)
      requires LineStarts(lines) && start >= -1
      ensures r == StreamFrom(lines, start)
    {
      var lineIndex := GetLineFromCharIndex(lines, start);
      var textLength := TextLength(lines);
      assert textLength == |Text(lines)| by {
        TextLengthIsLength(lines);
      }
      assert (lineIndex == -1 <==> start == -1 || |lines| == 0) && (lineIndex != -1 ==> 0 <= lineIndex < |lines|)
        && (0 <= start <= textLength && |lines| > 0 ==> Holds(lines, lineIndex, start)) by {
        LineLookup(lines, start);
      }
      if lineIndex == -1 {
        return [];
      }
      r := [];
      var i := start;
      ghost var inText := start <= textLength;
      while i < textLength
        invariant start <= i && (inText ==> i <= textLength)
        invariant 0 <= lineIndex < |lines|
        invariant inText ==> Holds(lines, lineIndex, i) && r == Text(lines)[start..i]
        invariant !inText ==> r == []
      {
        var line := lines[lineIndex];
        var relativeIndex := i - line.index;
        StreamAt(lines, lineIndex, start, i);
        if relativeIndex < Len(line) {
          r := r + [if Len(line) == 0 then '\0' else Txt(line)[relativeIndex]];
        } else {
          r := r + ['\n'];
          lineIndex := lineIndex + 1;
        }
        i := i + 1;
      }
    }

    /** TextGet: the stream, stopped when the count, decremented after each character, reaches 0. */
    method TextGet(start: int, length: int) returns (r: string)
      requires LineStarts(lines) && start >= -1
      ensures r == TextGetValue(lines, start, length)
    {
      var stream := TextGetStream(start);
      r := [];
      var count := length;
      var i := 0;
      while i < |stream|
        invariant 0 <= i <= |stream| && r == stream[..i]
        invariant count == length - i
        invariant 0 < length ==> i < length
      {
        r := r + [stream[i]];
        i := i + 1;
        count := count - 1;
        if count == 0 {
          break;
        }
      }
      assert r == Taken(stream, length) by {
        if i == |stream| {
          assert stream[..i] == stream;
        }
      }
    }

    /** FakeFinalizingKey: every view re-searches the index's line at that point as a finalizing change. */
    method FakeFinalizingKey(index: int)
      requires Valid() && LineStarts(lines) && (styledManager || |views| == 0)
      modifies this`segs, this`next
      ensures Valid() && old(next) <= next
      ensures LineFromCharIndex(lines, index) == -1 ==> segs == old(segs) && next == old(next)
      ensures forall j :: 0 <= j < |lines| && j != LineFromCharIndex(lines, index) ==> segs[j] == old(segs)[j]
    {
      segs, next := StylePass.FakeFinalizingKey(lines, segs, next, chars, ViewStyles(views, stylesOf), index);
    }

    /**
     * TextInsert: text goes in at start, a line split at each line break, the
     * anchors of each edited line passed over once per view, and the lines
     * after the last edited one moved by the text's length. A non-empty
     * insert is recorded when the manager accepts changes. An empty document
     * first gets an empty line.
     */
    method TextInsert(start: int, text: string) returns (cmd: Command?)
      requires Valid() && manager != null && LineStarts(lines) && 0 <= start <= TextLength(lines)
      modifies this`lines, this`segs, this`next, this`events, this`isModified, manager
      ensures Valid() && LineStarts(lines) && old(next) <= next && isModified
      ensures |old(Text(lines))| == TextLength(old(lines))
      ensures Text(lines) == Splice(old(Text(lines)), start, text)
      ensures events == old(events) + Logged(InsertLog(old(lines), start, text), subscribed)
      ensures cmd != null <==> old(manager.acceptsChanges) && |text| > 0
      ensures cmd != null ==> fresh(cmd) && cmd.edit == Added(text, start) && !cmd.undoPair && !cmd.redoPair
      ensures manager.acceptsChanges == old(manager.acceptsChanges) && manager.maxUndoLevel == old(manager.maxUndoLevel)
      ensures AfterRecord(manager, old(manager.undoList), old(manager.redoStack), cmd)
    {
      ghost var e0 := events;
      ghost var l0 := lines;
      if |lines| == 0 {
        TextAppendLine("");
        assert Text(lines) == old(Text(lines)) by {
          NewLineShape(0, "", 0);
          FlowSingle(lines[0]);
        }
        assert lines == [NewLine(0, "")];
      }
      ghost var l1 := lines;
      ghost var e1 := events;
      cmd := InsertIntoDocument(start, text);
      if |l0| == 0 {
        InsertLogOnEmpty(e0, e1, events, l0, l1, start, text, subscribed);
      }
    }

    /** TextInsert on a document with lines: the walk, the record and Modified. */
    method InsertIntoDocument(start: int, text: string) returns (cmd: Command?)
      requires Valid() && manager != null && LineStarts(lines) && |lines| > 0 && 0 <= start <= TextLength(lines)
      modifies this`lines, this`segs, this`next, this`events, this`isModified, manager
      ensures Valid() && LineStarts(lines) && old(next) <= next && isModified
      ensures |old(Text(lines))| == TextLength(old(lines))
      ensures Text(lines) == Splice(old(Text(lines)), start, text)
      ensures events == old(events) + Logged(InsertLog(old(lines), start, text), subscribed)
      ensures cmd != null <==> old(manager.acceptsChanges) && |text| > 0
      ensures cmd != null ==> fresh(cmd) && cmd.edit == Added(text, start) && !cmd.undoPair && !cmd.redoPair
      ensures manager.acceptsChanges == old(manager.acceptsChanges) && manager.maxUndoLevel == old(manager.maxUndoLevel)
      ensures AfterRecord(manager, old(manager.undoList), old(manager.redoStack), cmd)
    {
      ghost var e1, l0 := events, lines;
      ghost var raised := InsertInDocument(start, text);
      Assoc2(e1, raised, Logged([Modified], subscribed), Logged(InsertLog(l0, start, text), subscribed));
      cmd := Commit(Added(text, start), |text| > 0);
    }

    /** The store part of TextInsert: the lines, the anchor lists and the events, with the manager untouched. */
    method InsertInDocument(start: int, text: string) returns (ghost raised: seq<Event>)
      requires Valid() && LineStarts(lines) && |lines| > 0 && 0 <= start <= TextLength(lines)
      modifies this`lines, this`segs, this`next, this`events
      ensures Valid() && LineStarts(lines) && old(next) <= next
      ensures |old(Text(lines))| == TextLength(old(lines))
      ensures Text(lines) == Splice(old(Text(lines)), start, text)
      ensures raised + Logged([Modified], subscribed) == Logged(InsertLog(old(lines), start, text), subscribed)
      ensures events == old(events) + raised
    {
      var ls, ss, nx, cut;
      ghost var li, tail;
      ghost var l0 := lines;
      ls, ss, nx, cut, li, tail := InsertIntoStore(lines, segs, next, chars, ViewStyles(views, stylesOf), subscribed, start, text);
      lines, segs, next := ls, ss, nx;
      events := events + cut;
      raised := cut;
      InsertLogOnLines(raised, l0, start, text, subscribed, li, tail);
    }

    /**
     * TextRemove: nothing when the lookup finds no line or the span runs past
     * the last line; otherwise the removed text is read first (when the
     * manager accepts changes), the next line is merged in while the span
     * passes the line end, the rest is cut, the anchors inside the span are
     * detached unless pinned, every view passes over the line once, and the
     * later lines move back by the length.
     */
    method TextRemove(start: int, length: int) returns (cmd: Command?, ghost merges: nat)
      requires Valid() && manager != null && LineStarts(lines) && start >= -1 && length >= 0
      requires RemoveTerminates(lines, start, length)
      modifies this`lines, this`segs, this`next, this`events, this`isModified, manager
      ensures Valid() && LineStarts(lines) && old(next) <= next
      ensures manager.acceptsChanges == old(manager.acceptsChanges) && manager.maxUndoLevel == old(manager.maxUndoLevel)
      ensures AfterRecord(manager, old(manager.undoList), old(manager.redoStack), cmd)
      ensures RemoveRefused(old(lines), start, length) ==>
        && cmd == null && lines == old(lines) && segs == old(segs) && next == old(next)
        && events == old(events) && isModified == old(isModified)
      ensures !RemoveRefused(old(lines), start, length) ==>
        && 0 <= start && start + length <= |old(Text(lines))|
        && isModified && |old(lines)| == |lines| + merges && merges <= length
        && Text(lines) == Excise(old(Text(lines)), start, length)
        && events == old(events) + Logged(RemoveLog(LineFromCharIndex(old(lines), start), merges, length - merges), subscribed)
        && (cmd != null <==> old(manager.acceptsChanges))
      ensures cmd != null ==>
        fresh(cmd) && cmd.edit == Removed(TextGetValue(old(lines), start, length), start) && !cmd.undoPair && !cmd.redoPair
    {
      var lineIndex := GetLineFromCharIndex(lines, start);
      LineLookup(lines, start);
      if lineIndex == -1 {
        return null, 0;
      }
      var relativeStart := Max0(start - lines[lineIndex].index);
      if lineIndex == |lines| - 1 {
        if relativeStart + length > Len(lines[lineIndex]) {
          return null, 0;
        }
      }
      AdmittedSpan(lines, start, length);
      var textUndoRemoved := "";
      if manager.acceptsChanges {
        textUndoRemoved := TextGet(start, length);
      }
      cmd, merges := RemoveFromDocument(start, length, lineIndex, textUndoRemoved);
    }

    /** TextRemove once the guards admitted the span and the removed text was read: the edit, the record and Modified. */
    method RemoveFromDocument(start: int, length: int, lineIndex: int, removed: string) returns (cmd: Command?, ghost merges: nat)
      requires Valid() && manager != null && LineStarts(lines) && SpanAt(lines, lineIndex, start, length)
      modifies this`lines, this`segs, this`next, this`events, this`isModified, manager
      ensures Valid() && LineStarts(lines) && old(next) <= next
      ensures manager.acceptsChanges == old(manager.acceptsChanges) && manager.maxUndoLevel == old(manager.maxUndoLevel)
      ensures AfterRecord(manager, old(manager.undoList), old(manager.redoStack), cmd)
      ensures isModified && |old(lines)| == |lines| + merges && merges <= length
      ensures Text(lines) == Excise(old(Text(lines)), start, length)
      ensures events == old(events) + Logged(RemoveLog(lineIndex, merges, length - merges), subscribed)
      ensures cmd != null <==> old(manager.acceptsChanges)
      ensures cmd != null ==> fresh(cmd) && cmd.edit == Removed(removed, start) && !cmd.undoPair && !cmd.redoPair
    {
      ghost var e0 := events;
      ghost var raised;
      raised, merges := CutInDocument(start, length, lineIndex);
      cmd := Commit(Removed(removed, start), true);
      RemoveLogSteps(e0, raised, events, lineIndex, merges, length - merges, subscribed);
    }

    /** The store part of TextRemove: the lines, the anchor lists and the events, with the manager untouched. */
    method CutInDocument(start: int, length: int, lineIndex: int) returns (ghost raised: seq<Event>, ghost merges: nat)
      requires |segs| == |lines| && Sound(segs, next) && LineStarts(lines) && SpanAt(lines, lineIndex, start, length)
      modifies this`lines, this`segs, this`next, this`events
      ensures |segs| == |lines| && Sound(segs, next) && LineStarts(lines) && old(next) <= next
      ensures |old(lines)| == |lines| + merges && merges <= length
      ensures Text(lines) == Excise(old(Text(lines)), start, length)
      ensures raised == Logged(CutEvents(lineIndex, merges, length - merges), subscribed)
      ensures events == old(events) + raised
    {
      var styles := ViewStyles(views, stylesOf);
      var cut;
      lines, segs, next, cut, merges := RemoveFromStore(lines, segs, next, chars, styles, subscribed, start, length, lineIndex);
      events := events + cut;
      raised := cut;
    }
  }
}
