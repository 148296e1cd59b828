/**
 * The selection model of a text view: one selection start and length per
 * text column, each mirrored by a selection anchor; the selected text read
 * and replaced; where the caret lands after an undo or a redo; the table of
 * lines wider than the client area; and the reading of the anchor sidecar
 * file when a file is opened.
 */
module Views {
  import opened Wrappers
  import opened Strs
  import opened TextStyles
  import opened TextLines
  import opened LineStore
  import opened Segments
  import opened UndoRedo
  import opened Document
  import opened History
  import opened Seqs
  import opened Chars
  import opened Keyboard
  import opened Utility
  import Editor

  /** How a selection move came about (the flags of ByInterface that the view tells apart). */
  datatype ByInterface = Unknown | ByKeyboard | ByMouse | ByMouseDouble | ByMouseRight | Manually

  /** Math.Max(0, Math.Min(hi, value)): the value brought into [0, hi], or 0 when hi is negative. */
  function Clamp(value: int, hi: int): (r: int)
    ensures r >= 0
    ensures hi >= 0 ==> r <= hi
    ensures 0 <= value <= hi ==> r == value
    ensures value < 0 || hi < 0 ==> r == 0
  {
    if hi < value then (if hi < 0 then 0 else hi) else (if value < 0 then 0 else value)
  }

  /** n zeros, the value a new selection start or length gets. */
  function Zeros(n: nat): (r: seq<int>)
    ensures |r| == n && forall k :: 0 <= k < n ==> r[k] == 0
  {
    seq(n, _ => 0)
  }

  /** The starts after EnsureSelectionArrays(c): zeros added up to column c. */
  function GrownStarts(starts: seq<int>, c: nat): (r: seq<int>)
  {
    if c < |starts| then starts else starts + Zeros(c + 1 - |starts|)
  }

  /**
   * The lengths after EnsureSelectionArrays(c): untouched when the column is
   * covered; otherwise the starts copied over the lengths, then zeros.
   */
  function GrownLengths(starts: seq<int>, lengths: seq<int>, c: nat): (r: seq<int>)
  {
    if c < |starts| then lengths else starts + Zeros(c + 1 - |starts|)
  }

  /** The n selection anchors EnsureSelectionArrays creates, numbered from first. */
  function NewSelections(first: nat, n: nat, style: Style): (r: seq<Anchor>)
    ensures |r| == n
    decreases n
  {
    if n == 0 then [] else NewSelections(first, n - 1, style) + [NewAnchor(first + n - 1, style)]
  }

  /**
   * Growing the arrays covers the column and keeps every existing start;
   * every existing length is replaced by the start of the same column, and a
   * second call for the same column changes nothing.
   */
  lemma GrowingKeepsStartsNotLengths(starts: seq<int>, lengths: seq<int>, c: nat)
    requires |lengths| == |starts|
    ensures var s, l := GrownStarts(starts, c), GrownLengths(starts, lengths, c);
      && |s| == |l| && c < |s| && s[..|starts|] == starts
      && (c >= |starts| ==> l[..|starts|] == starts && s[c] == 0 && l[c] == 0)
      && GrownStarts(s, c) == s && GrownLengths(s, l, c) == l
  {
  }

  /** The caret after undoing e: where added text was, or after the text put back. */
  function CaretAfterUndo(e: Edit): int
  {
    match e
    case Added(_, s) => s
    case Removed(r, s) => s + |r|
    case NoteEdit(_, _, _) => 0
  }

  /** The caret after redoing e: after the text put in, or where text was taken out. */
  function CaretAfterRedo(e: Edit): int
  {
    match e
    case Added(t, s) => s + |t|
    case Removed(_, s) => s
    case NoteEdit(_, _, _) => 0
  }

  /**
   * Undoing a text edit the text shows leaves the caret inside the text:
   * at the place the added text was taken from, or right after the removed
   * text put back, so clamping it changes nothing.
   */
  lemma UndoCaretInText(text: string, e: Edit)
    requires Done(text, e) && !e.NoteEdit?
    ensures UndoAdmits(text, e)
    ensures var t := UndoText(text, e);
      && 0 <= CaretAfterUndo(e) <= |t| && Clamp(CaretAfterUndo(e), |t|) == CaretAfterUndo(e)
      && (e.Removed? ==> Shows(t, e.startIndex, e.previousText))
  {
    UndoThenRedo(text, e);
  }

  /**
   * Redoing a text edit on the text before it leaves the caret inside the
   * text: right after the text put back in, or at the place text was taken
   * from.
   */
  lemma RedoCaretInText(text: string, e: Edit)
    requires Before(text, e) && !e.NoteEdit?
    ensures RedoAdmits(text, e)
    ensures var t := RedoText(text, e);
      && 0 <= CaretAfterRedo(e) <= |t| && Clamp(CaretAfterRedo(e), |t|) == CaretAfterRedo(e)
      && (e.Added? ==> Shows(t, e.startIndex, e.inputtedText))
  {
    RedoThenUndo(text, e);
  }

  // ---------------------------------------------------------------------------
  // The anchor sidecar read back
  // ---------------------------------------------------------------------------

  /** One sidecar record: style key, global index, length and object. */
  datatype Record = Record(key: string, index: int, length: int, content: string)

  predicate IsDigits(s: string)
  {
    |s| > 0 && forall i :: 0 <= i < |s| ==> '0' <= s[i] <= '9'
  }

  predicate InInt32(n: int)
  {
    -0x8000_0000 <= n < 0x8000_0000
  }

  /** The white space NumberStyles.Integer allows around a number: U+0009 to U+000D and the space. */
  predicate IsWhite(c: char)
  {
    c == ' ' || '\t' <= c <= '\r'
  }

  /** The text with its leading white space removed. */
  function TrimStartWhite(s: string): string
    decreases |s|
  {
    if |s| > 0 && IsWhite(s[0]) then TrimStartWhite(s[1..]) else s
  }

  /** The text with its trailing white space removed. */
  function TrimEndWhite(s: string): string
    decreases |s|
  {
    if |s| > 0 && IsWhite(s[|s| - 1]) then TrimEndWhite(s[..|s| - 1]) else s
  }

  /** The text with its trailing NUL characters removed. */
  function TrimEndNuls(s: string): string
    decreases |s|
  {
    if |s| > 0 && s[|s| - 1] == '\0' then TrimEndNuls(s[..|s| - 1]) else s
  }

  /**
   * int.Parse with NumberStyles.Integer; None where it throws. White space
   * may lead and trail, a '+' or '-' may lead the ASCII digits, and NUL
   * characters may close the text; the value must fit in 32 bits.
   */
  function ParseInt(s: string): (r: Option<int>)
    ensures r.Some? ==> InInt32(r.value)
  {
    ParseSigned(TrimEndWhite(TrimEndNuls(TrimStartWhite(s))))
  }

  /** An optional '+' or '-' and ASCII digits, as a 32-bit value; None otherwise. */
  function ParseSigned(body: string): (r: Option<int>)
    ensures r.Some? ==> InInt32(r.value)
  {
    var signed := |body| > 0 && (body[0] == '-' || body[0] == '+');
    var digits := if signed then body[1..] else body;
    if !IsDigits(digits) then None
    else
      var v := if signed && body[0] == '-' then -DigitsValue(digits) else DigitsValue(digits);
      if InInt32(v) then Some(v) else None
  }

  /** Leading white space is dropped up to the first other character. */
  lemma {:induction false} TrimStartWhiteOf(ws: string, rest: string)
    requires forall i :: 0 <= i < |ws| ==> IsWhite(ws[i])
    requires |rest| > 0 && !IsWhite(rest[0])
    ensures TrimStartWhite(ws + rest) == rest
    decreases |ws|
  {
    if |ws| > 0 {
      assert (ws + rest)[1..] == ws[1..] + rest;
      TrimStartWhiteOf(ws[1..], rest);
    } else {
      assert ws + rest == rest;
    }
  }

  /** Trailing white space is dropped back to the last other character. */
  lemma {:induction false} TrimEndWhiteOf(rest: string, ws: string)
    requires forall i :: 0 <= i < |ws| ==> IsWhite(ws[i])
    requires |rest| > 0 && !IsWhite(rest[|rest| - 1])
    ensures TrimEndWhite(rest + ws) == rest
    decreases |ws|
  {
    if |ws| > 0 {
      assert (rest + ws)[..|rest + ws| - 1] == rest + ws[..|ws| - 1];
      TrimEndWhiteOf(rest, ws[..|ws| - 1]);
    } else {
      assert rest + ws == rest;
    }
  }

  /** Trailing NULs are dropped back to the last other character. */
  lemma {:induction false} TrimEndNulsOf(rest: string, nuls: string)
    requires forall i :: 0 <= i < |nuls| ==> nuls[i] == '\0'
    requires |rest| > 0 && rest[|rest| - 1] != '\0'
    ensures TrimEndNuls(rest + nuls) == rest
    decreases |nuls|
  {
    if |nuls| > 0 {
      assert (rest + nuls)[..|rest + nuls| - 1] == rest + nuls[..|nuls| - 1];
      TrimEndNulsOf(rest, nuls[..|nuls| - 1]);
    } else {
      assert rest + nuls == rest;
    }
  }

  /**
   * Every form NumberStyles.Integer reads: white space, an optional sign,
   * ASCII digits, white space and NULs, read as the signed value of the
   * digits when it fits in 32 bits.
   */
  lemma ParseIntAccepts(lead: string, sign: string, digits: string, trail: string, nuls: string)
    requires forall i :: 0 <= i < |lead| ==> IsWhite(lead[i])
    requires sign == "" || sign == "+" || sign == "-"
    requires IsDigits(digits)
    requires forall i :: 0 <= i < |trail| ==> IsWhite(trail[i])
    requires forall i :: 0 <= i < |nuls| ==> nuls[i] == '\0'
    ensures var v := if sign == "-" then -DigitsValue(digits) else DigitsValue(digits);
      ParseInt(lead + sign + digits + trail + nuls) == if InInt32(v) then Some(v) else None
  {
    var number := sign + digits;
    assert lead + sign + digits + trail + nuls == lead + number + trail + nuls;
    assert number[0] == (if sign == "" then digits[0] else sign[0]);
    assert number[|number| - 1] == digits[|digits| - 1];
    TrimsToNumber(lead, number, trail, nuls);
    SignedValue(sign, digits);
  }

  /** The three trims leave exactly the number between the white space and NULs. */
  lemma TrimsToNumber(lead: string, number: string, trail: string, nuls: string)
    requires forall i :: 0 <= i < |lead| ==> IsWhite(lead[i])
    requires |number| > 0 && !IsWhite(number[0]) && !IsWhite(number[|number| - 1])
    requires number[|number| - 1] != '\0'
    requires forall i :: 0 <= i < |trail| ==> IsWhite(trail[i])
    requires forall i :: 0 <= i < |nuls| ==> nuls[i] == '\0'
    ensures TrimEndWhite(TrimEndNuls(TrimStartWhite(lead + number + trail + nuls))) == number
  {
    var kept := number + trail;
    var rest := kept + nuls;
    assert lead + number + trail + nuls == lead + rest;
    assert TrimStartWhite(lead + rest) == rest by {
      assert rest[0] == number[0];
      TrimStartWhiteOf(lead, rest);
    }
    assert TrimEndNuls(rest) == kept by {
      if |trail| > 0 {
        assert kept[|kept| - 1] == trail[|trail| - 1];
      } else {
        assert kept == number;
      }
      TrimEndNulsOf(kept, nuls);
    }
    TrimEndWhiteOf(number, trail);
  }

  /** A sign and digits read as their signed value. */
  lemma SignedValue(sign: string, digits: string)
    requires sign == "" || sign == "+" || sign == "-"
    requires IsDigits(digits)
    ensures var v := if sign == "-" then -DigitsValue(digits) else DigitsValue(digits);
      ParseSigned(sign + digits) == if InInt32(v) then Some(v) else None
  {
    var number := sign + digits;
    if sign != "" {
      assert number[0] == sign[0] && number[1..] == digits;
    } else {
      assert number == digits;
      assert number[0] == digits[0];
    }
  }

  /** A sign and digits with nothing around them are read as their signed value. */
  lemma SignedDigitsParse(sign: string, digits: string)
    requires sign == "" || sign == "-"
    requires IsDigits(digits)
    ensures var v := if sign == "-" then -DigitsValue(digits) else DigitsValue(digits);
      ParseInt(sign + digits) == if InInt32(v) then Some(v) else None
    ensures '|' !in sign + digits
  {
    assert "" + sign + digits + "" + "" == sign + digits;
    ParseIntAccepts("", sign, digits, "", "");
  }

  /** Int32.ToString is read back by int.Parse. */
  lemma IntTextReadsBack(n: int)
    requires InInt32(n)
    ensures ParseInt(IntText(n)) == Some(n)
    ensures '|' !in IntText(n)
  {
    var m: nat := if n < 0 then -n else n;
    var d := NaturalText(m);
    NaturalTextReadsBack(m);
    assert IntText(n) == (if n < 0 then "-" else "") + d;
    SignedDigitsParse(if n < 0 then "-" else "", d);
  }

  /**
   * One sidecar line split on '|': a line with fewer than four parts or an
   * index or length int.Parse refuses is None (the reading throws there);
   * parts after the fourth are ignored.
   */
  function ParseRecord(line: string): (r: Option<Record>)
    ensures r.Some? ==> '|' !in r.value.key && '|' !in r.value.content
    ensures r.Some? ==> InInt32(r.value.index) && InInt32(r.value.length)
  {
    var parts := Split(line, '|');
    if |parts| < 4 then None
    else
      match (ParseInt(parts[1]), ParseInt(parts[2]))
      case (Some(index), Some(length)) => Some(Record(parts[0], index, length, parts[3]))
      case _ => None
  }

  /**
   * A record SaveToFile writes for an anchor reads back as the anchor's key,
   * global index, length and object, when the key and the object hold no
   * '|' and the numbers fit in 32 bits.
   */
  lemma RecordRoundTrip(p: Placed)
    requires '|' !in Key(p.anchor) && '|' !in Editor.ObjectText(p.anchor.obj)
    requires InInt32(IndexGlobalOf(p)) && InInt32(AnchorGetLength(p.anchor, 0))
    ensures ParseRecord(Editor.AnchorRecord(p))
      == Some(Record(Key(p.anchor), IndexGlobalOf(p), AnchorGetLength(p.anchor, 0), Editor.ObjectText(p.anchor.obj)))
  {
    RecordLineRoundTrip(Key(p.anchor), IndexGlobalOf(p), AnchorGetLength(p.anchor, 0), Editor.ObjectText(p.anchor.obj));
  }

  /** The four fields joined with '|' parse back, when the key and the object hold no '|'. */
  lemma RecordLineRoundTrip(key: string, index: int, length: int, content: string)
    requires '|' !in key && '|' !in content && InInt32(index) && InInt32(length)
    ensures ParseRecord(Join([key, IntText(index), IntText(length), content], "|")) == Some(Record(key, index, length, content))
  {
    var parts := [key, IntText(index), IntText(length), content];
    IntTextReadsBack(index);
    IntTextReadsBack(length);
    JoinSplitFour(key, IntText(index), IntText(length), content, '|');
    ParsedParts(Join(parts, "|"), parts, Record(key, index, length, content));
  }

  /** Four fields without the separator, joined with it, split back into themselves. */
  lemma JoinSplitFour(a: string, b: string, c: string, d: string, sep: char)
    requires sep !in a && sep !in b && sep !in c && sep !in d
    ensures Split(Join([a, b, c, d], [sep]), sep) == [a, b, c, d]
  {
    var parts := [a, b, c, d];
    forall i | 0 <= i < |parts|
      ensures sep !in parts[i]
    {
    }
    JoinSplit(parts, sep);
  }

  /** A line that splits into the four fields of rec, with its numbers as int.Parse reads them, parses as rec. */
  lemma ParsedParts(line: string, parts: seq<string>, rec: Record)
    requires Split(line, '|') == parts && |parts| == 4
    requires parts[0] == rec.key && parts[3] == rec.content
    requires ParseInt(parts[1]) == Some(rec.index) && ParseInt(parts[2]) == Some(rec.length)
    ensures ParseRecord(line) == Some(rec)
  {
  }

  /** A sidecar line whose numbers carry white space and a '+' sign is read as int.Parse reads it. */
  lemma PaddedRecordParses(key: string, content: string)
    requires '|' !in key && '|' !in content
    ensures ParseRecord(key + "| 5|+3|" + content) == Some(Record(key, 5, 3, content))
  {
    var parts := [key, " 5", "+3", content];
    assert Split(key + "| 5|+3|" + content, '|') == parts by {
      assert Join(parts[2..], "|") == "+3|" + content;
      assert Join(parts[1..], "|") == " 5|+3|" + content;
      assert Join(parts, "|") == key + "| 5|+3|" + content;
      JoinSplitFour(key, " 5", "+3", content, '|');
    }
    PaddedNumbersParse();
    ParsedParts(key + "| 5|+3|" + content, parts, Record(key, 5, 3, content));
  }

  /** White space before a number and a '+' sign are accepted. */
  lemma PaddedNumbersParse()
    ensures ParseInt(" 5") == Some(5) && ParseInt("+3") == Some(3)
  {
    assert DigitsValue("5") == 5 && DigitsValue("3") == 3;
    assert " " + "" + "5" + "" + "" == " 5" by {
    }
    ParseIntAccepts(" ", "", "5", "", "");
    assert "" + "+" + "3" + "" + "" == "+3" by {
    }
    ParseIntAccepts("", "+", "3", "", "");
  }

  /** The anchor a record becomes: the style's new anchor at the index relative to lineStart, the length and the object. */
  function RecordAnchor(rec: Record, id: AnchorId, style: Style, lineStart: int): (a: Anchor)
    ensures IndexGlobalOf(Placed(a, lineStart)) == rec.index
    ensures a.id == id && Key(a) == style.nameKey && AnchorGetLength(a, 0) == rec.length && a.obj == Some(rec.content)
  {
    SetObject(AnchorSetLength(NewAnchor(id, style).(index := rec.index - lineStart), 0, rec.length), Some(rec.content))
  }

  /** A record the reading gets through: it parses, and its index finds a line. */
  predicate Loadable(line: string, lineCount: nat)
  {
    ParseRecord(line).Some? && ParseRecord(line).value.index != -1 && lineCount > 0
  }

  /**
   * The anchor lists after the loadable ones among the first n records were
   * placed in order, the i-th record under the identity next + i.
   */
  function PlacedSegs(lines: seq<Line>, segs: Segs, next: nat, records: seq<string>, n: nat, styleOf: string -> Style): (r: Segs)
    requires |segs| == |lines| && n <= |records|
    ensures |r| == |segs|
    decreases n
  {
    if n == 0 then segs
    else
      var prev := PlacedSegs(lines, segs, next, records, n - 1, styleOf);
      var parsed := ParseRecord(records[n - 1]);
      if parsed.None? || parsed.value.index == -1 || |lines| == 0 then prev
      else
        var rec := parsed.value;
        LookupInRange(lines, rec.index);
        var k := LineFromCharIndex(lines, rec.index);
        AddManual(lines, prev, RecordAnchor(rec, next + n - 1, styleOf(rec.key), lines[k].index), rec.index)
  }

  lemma LoadableExtends(records: seq<string>, n: nat, lineCount: nat)
    requires n < |records| && Loadable(records[n], lineCount)
    requires forall k :: 0 <= k < n ==> Loadable(records[k], lineCount)
    ensures forall k :: 0 <= k < n + 1 ==> Loadable(records[k], lineCount)
  {
  }

  /** One more loadable record placed under the identity next + n extends the fold. */
  lemma LoadedStep(lines: seq<Line>, segs: Segs, next: nat, records: seq<string>, n: nat, styleOf: string -> Style,
                   before: Segs, a: Anchor, after: Segs)
    requires |segs| == |lines| && n < |records|
    requires Loadable(records[n], |lines|)
    requires before == PlacedSegs(lines, segs, next, records, n, styleOf)
    requires var rec := ParseRecord(records[n]).value;
      var k := LineFromCharIndex(lines, rec.index);
      && 0 <= k < |lines|
      && a == RecordAnchor(rec, next + n, styleOf(rec.key), lines[k].index)
      && after == AddManual(lines, before, a, rec.index)
    ensures after == PlacedSegs(lines, segs, next, records, n + 1, styleOf)
  {
  }

  // ---------------------------------------------------------------------------
  // Edits that undo and redo as one
  // ---------------------------------------------------------------------------

  /** A command that is not paired replays alone. */
  lemma WalkOfOne(w: Walk, text: string, a: Edit, below: seq<Step>)
    requires Admits(w, text, a)
    ensures var steps := below + [Step(a, false)];
      && Chain(w, text, steps) && Run(steps) == 1 && Walked(w, text, steps, 1) == Replayed(w, text, a)
  {
  }

  /** Two commands, the top one paired, replay together and stop there. */
  lemma WalkOfTwo(w: Walk, text: string, a: Edit, b: Edit, below: seq<Step>)
    requires Admits(w, text, b) && Admits(w, Replayed(w, text, b), a)
    ensures var steps := below + [Step(a, false), Step(b, true)];
      && Chain(w, text, steps) && Run(steps) == 2
      && Walked(w, text, steps, 2) == Replayed(w, Replayed(w, text, b), a)
  {
    var steps := below + [Step(a, false), Step(b, true)];
    assert steps[..|steps| - 1] == below + [Step(a, false)];
  }

  /** Three commands, the top two paired, replay together and stop there. */
  lemma WalkOfThree(w: Walk, text: string, a: Edit, b: Edit, c: Edit, below: seq<Step>)
    requires Admits(w, text, c) && Admits(w, Replayed(w, text, c), b)
    requires Admits(w, Replayed(w, Replayed(w, text, c), b), a)
    ensures var steps := below + [Step(a, false), Step(b, true), Step(c, true)];
      && Chain(w, text, steps) && Run(steps) == 3
      && Walked(w, text, steps, 3) == Replayed(w, Replayed(w, Replayed(w, text, c), b), a)
  {
    var steps := below + [Step(a, false), Step(b, true), Step(c, true)];
    assert steps[..|steps| - 1] == below + [Step(a, false), Step(b, true)];
    WalkOfTwo(w, Replayed(w, text, c), a, b, below);
  }

  /**
   * The two commands of a replaced selection walk as one: from the replaced
   * text, undoing the insert (undo-paired) and then the removal gives the
   * text before; after that, redoing the removal (redo-paired) and then the
   * insert gives the replaced text back. Nothing below them is reached.
   */
  lemma ReplacementWalksAsOne(t: string, s: int, l: int, value: string, belowUndo: seq<Step>, belowRedo: seq<Step>)
    requires 0 <= s && 0 <= l && s + l <= |t|
    ensures var after := Splice(Excise(t, s, l), s, value);
      var removed, inserted := Removed(t[s..s + l], s), Added(value, s);
      var undo := belowUndo + [Step(removed, false), Step(inserted, true)];
      var redo := belowRedo + [Step(inserted, false), Step(removed, true)];
      && Chain(Undoing, after, undo) && Run(undo) == 2 && Walked(Undoing, after, undo, 2) == t
      && Chain(Redoing, t, redo) && Run(redo) == 2 && Walked(Redoing, t, redo, 2) == after
  {
    ReplacementUndoWalk(t, s, l, value, belowUndo);
    ReplacementRedoWalk(t, s, l, value, belowRedo);
  }

  /** The undo half of ReplacementWalksAsOne. */
  lemma ReplacementUndoWalk(t: string, s: int, l: int, value: string, below: seq<Step>)
    requires 0 <= s && 0 <= l && s + l <= |t|
    ensures var after := Splice(Excise(t, s, l), s, value);
      var undo := below + [Step(Removed(t[s..s + l], s), false), Step(Added(value, s), true)];
      Chain(Undoing, after, undo) && Run(undo) == 2 && Walked(Undoing, after, undo, 2) == t
  {
    var cut := Excise(t, s, l);
    ExciseSplice(cut, s, value);
    SpliceExcise(t, s, l);
    WalkOfTwo(Undoing, Splice(cut, s, value), Removed(t[s..s + l], s), Added(value, s), below);
  }

  /** The redo half of ReplacementWalksAsOne. */
  lemma ReplacementRedoWalk(t: string, s: int, l: int, value: string, below: seq<Step>)
    requires 0 <= s && 0 <= l && s + l <= |t|
    ensures var after := Splice(Excise(t, s, l), s, value);
      var redo := below + [Step(Added(value, s), false), Step(Removed(t[s..s + l], s), true)];
      Chain(Redoing, t, redo) && Run(redo) == 2 && Walked(Redoing, t, redo, 2) == after
  {
    WalkOfTwo(Redoing, t, Added(value, s), Removed(t[s..s + l], s), below);
  }

  /** ReplacementUndoesAsOne, for a history and a text already known to be the replacement's. */
  lemma ReplacementUndoesAt(undoList: seq<Command>, after: string, u0: seq<Command>, removed: Command, inserted: Command,
                            max: int, t: string, s: int, l: int, value: string)
    requires 2 <= max && 0 <= s && 0 <= l && s + l <= |t|
    requires removed.edit == Removed(t[s..s + l], s) && !removed.undoPair
    requires inserted.edit == Added(value, s) && inserted.undoPair
    requires undoList == Recorded(Recorded(u0, removed, max), inserted, max)
    requires after == Splice(Excise(t, s, l), s, value)
    ensures var steps := UndoSteps(undoList);
      Chain(Undoing, after, steps) && Run(steps) == 2 && Walked(Undoing, after, steps, 2) == t
  {
    ReplacementUndoesAsOne(u0, removed, inserted, max, t, s, l, value);
  }

  /**
   * Once a replaced selection recorded both of its commands in a history with
   * room for two, one undo walk from the new text takes back exactly those
   * two and gives the text before.
   */
  lemma ReplacementUndoesAsOne(u0: seq<Command>, removed: Command, inserted: Command, max: int, t: string, s: int, l: int, value: string)
    requires 2 <= max && 0 <= s && 0 <= l && s + l <= |t|
    requires removed.edit == Removed(t[s..s + l], s) && !removed.undoPair
    requires inserted.edit == Added(value, s) && inserted.undoPair
    ensures var steps := UndoSteps(Recorded(Recorded(u0, removed, max), inserted, max));
      var after := Splice(Excise(t, s, l), s, value);
      Chain(Undoing, after, steps) && Run(steps) == 2 && Walked(Undoing, after, steps, 2) == t
  {
    var r1 := Recorded(u0, removed, max);
    var r2 := Recorded(r1, inserted, max);
    var n := |r2|;
    assert n >= 2 && r2[n - 1] == inserted && r2[n - 2] == removed;
    var below := r2[..n - 2];
    assert r2[..n - 1] == below + [removed];
    assert r2[..n - 1][..n - 2] == below;
    assert UndoSteps(r2) == UndoSteps(below) + [Step(removed.edit, false), Step(inserted.edit, true)];
    ReplacementWalksAsOne(t, s, l, value, UndoSteps(below), []);
  }

  /**
   * A typed character over a selection is taken back in two undo walks, as
   * neither of its commands is paired: the first takes out the character,
   * the second (when the selection was not empty) puts the selection back.
   */
  lemma TypedUndoesInTwo(u0: seq<Command>, removed: Command?, inserted: Command, max: int, t: string, s: int, l: int, c: char)
    requires 1 <= max && 0 <= s && 0 <= l && s + l <= |t|
    requires removed != null ==> 2 <= max && removed.edit == Removed(t[s..s + l], s) && !removed.undoPair
    requires inserted.edit == Added([c], s) && !inserted.undoPair
    ensures var u1 := if removed == null then u0 else Recorded(u0, removed, max);
      var steps := UndoSteps(Recorded(u1, inserted, max));
      var cut := Excise(t, s, l);
      var after := Splice(cut, s, [c]);
      && Chain(Undoing, after, steps) && Run(steps) == 1 && Walked(Undoing, after, steps, 1) == cut
      && (removed != null ==>
            var below := steps[..|steps| - 1];
            Chain(Undoing, cut, below) && Run(below) == 1 && Walked(Undoing, cut, below, 1) == t)
  {
    var u1 := if removed == null then u0 else Recorded(u0, removed, max);
    var r2 := Recorded(u1, inserted, max);
    var cut := Excise(t, s, l);
    var steps := UndoSteps(r2);
    var n := |r2|;
    assert r2[n - 1] == inserted;
    var below := steps[..n - 1];
    assert steps == below + [Step(Added([c], s), false)];
    ExciseSplice(cut, s, [c]);
    WalkOfOne(Undoing, Splice(cut, s, [c]), Added([c], s), below);
    if removed != null {
      SpliceExcise(t, s, l);
      assert r2[n - 2] == removed;
      assert r2[..n - 1][n - 2] == removed;
      assert below == UndoSteps(r2[..n - 1]);
      assert below == below[..n - 2] + [Step(Removed(t[s..s + l], s), false)];
      WalkOfOne(Undoing, cut, Removed(t[s..s + l], s), below[..n - 2]);
    }
  }

  /**
   * The three commands of an Enter whose line filter changed the line undo
   * as one: from the filtered text, undoing the insert and the line's
   * removal (both undo-paired) and then the line break gives the text
   * before the key. Nothing below them is reached.
   */
  lemma EnterUndoesAsOne(t: string, s: int, lineStart: int, original: string, filtered: string, below: seq<Step>)
    requires 0 <= s <= |t| && Shows(Splice(t, s, "\n"), lineStart, original)
    ensures var broken := Splice(t, s, "\n");
      var after := Splice(Excise(broken, lineStart, |original|), lineStart, filtered);
      var undo := below + [Step(Added("\n", s), false), Step(Removed(original, lineStart), true), Step(Added(filtered, lineStart), true)];
      Chain(Undoing, after, undo) && Run(undo) == 3 && Walked(Undoing, after, undo, 3) == t
  {
    var broken := Splice(t, s, "\n");
    var cut := Excise(broken, lineStart, |original|);
    var after := Splice(cut, lineStart, filtered);
    assert UndoAdmits(broken, Added("\n", s)) && UndoText(broken, Added("\n", s)) == t by {
      ExciseSplice(t, s, "\n");
    }
    assert UndoAdmits(after, Added(filtered, lineStart)) && UndoText(after, Added(filtered, lineStart)) == cut by {
      ExciseSplice(cut, lineStart, filtered);
    }
    assert UndoAdmits(cut, Removed(original, lineStart)) && UndoText(cut, Removed(original, lineStart)) == broken by {
      PutBack(broken, lineStart, original);
    }
    ThreeUndone(t, broken, cut, after, Added("\n", s), Removed(original, lineStart), Added(filtered, lineStart), below);
  }

  /**
   * After that undo, redoing the line break and the removal (both
   * redo-paired) and then the insert gives the filtered text back.
   */
  lemma EnterRedoesAsOne(t: string, s: int, lineStart: int, original: string, filtered: string, below: seq<Step>)
    requires 0 <= s <= |t| && Shows(Splice(t, s, "\n"), lineStart, original)
    ensures var broken := Splice(t, s, "\n");
      var after := Splice(Excise(broken, lineStart, |original|), lineStart, filtered);
      var redo := below + [Step(Added(filtered, lineStart), false), Step(Removed(original, lineStart), true), Step(Added("\n", s), true)];
      Chain(Redoing, t, redo) && Run(redo) == 3 && Walked(Redoing, t, redo, 3) == after
  {
    TypedRedoesAsOne(t, s, "\n", lineStart, original, filtered, below);
  }

  /**
   * Once the newest three commands of the undo list are an Enter's, paired
   * as OnKeyDownEnter pairs them, one undo walk from the filtered text takes
   * back exactly those three and gives the text before the key.
   */
  lemma EnterRecordUndoesAsOne(r: seq<Command>, t: string, s: int, lineStart: int, original: string, filtered: string)
    requires 0 <= s <= |t| && Shows(Splice(t, s, "\n"), lineStart, original)
    requires |r| >= 3
    requires var n := |r|;
      && r[n - 3].edit == Added("\n", s) && !r[n - 3].undoPair
      && r[n - 2].edit == Removed(original, lineStart) && r[n - 2].undoPair
      && r[n - 1].edit == Added(filtered, lineStart) && r[n - 1].undoPair
    ensures var after := Splice(Excise(Splice(t, s, "\n"), lineStart, |original|), lineStart, filtered);
      Chain(Undoing, after, UndoSteps(r)) && Run(UndoSteps(r)) == 3 && Walked(Undoing, after, UndoSteps(r), 3) == t
  {
    UndoStepsOfLastThree(r);
    EnterUndoesAsOne(t, s, lineStart, original, filtered, UndoSteps(r[..|r| - 3]));
  }

  /** Three commands recorded in a history with room for three are its newest three. */
  lemma LastThreeRecorded(u0: seq<Command>, a: Command, b: Command, c: Command, max: int)
    requires 3 <= max
    ensures var r := Recorded(Recorded(Recorded(u0, a, max), b, max), c, max);
      |r| >= 3 && r[|r| - 1] == c && r[|r| - 2] == b && r[|r| - 3] == a
  {
  }

  /** The undo steps of a list, its newest three taken apart. */
  lemma UndoStepsOfLastThree(r: seq<Command>)
    requires |r| >= 3
    ensures var n := |r|;
      UndoSteps(r) == UndoSteps(r[..n - 3]) + [Step(r[n - 3].edit, r[n - 3].undoPair), Step(r[n - 2].edit, r[n - 2].undoPair), Step(r[n - 1].edit, r[n - 1].undoPair)]
  {
    var n := |r|;
    assert r[..n - 1][..n - 2] == r[..n - 2] && r[..n - 2][..n - 3] == r[..n - 3];
  }

  /** EnterRedoesAsOne for any typed text in place of the line break. */
  lemma TypedRedoesAsOne(t: string, s: int, typed: string, lineStart: int, original: string, filtered: string, below: seq<Step>)
    requires 0 <= s <= |t| && 0 <= lineStart && lineStart + |original| <= |t| + |typed|
    ensures var broken := Splice(t, s, typed);
      var after := Splice(Excise(broken, lineStart, |original|), lineStart, filtered);
      var redo := below + [Step(Added(filtered, lineStart), false), Step(Removed(original, lineStart), true), Step(Added(typed, s), true)];
      Chain(Redoing, t, redo) && Run(redo) == 3 && Walked(Redoing, t, redo, 3) == after
  {
    var broken := Splice(t, s, typed);
    var cut := Excise(broken, lineStart, |original|);
    var after := Splice(cut, lineStart, filtered);
    ThreeRedone(t, broken, cut, after, Added(typed, s), Removed(original, lineStart), Added(filtered, lineStart), below);
  }

  /** Three commands undone in one walk, over the texts each replay passes. */
  lemma ThreeUndone(t: string, broken: string, cut: string, after: string, first: Edit, removed: Edit, inserted: Edit, below: seq<Step>)
    requires UndoAdmits(after, inserted) && UndoText(after, inserted) == cut
    requires UndoAdmits(cut, removed) && UndoText(cut, removed) == broken
    requires UndoAdmits(broken, first) && UndoText(broken, first) == t
    ensures var undo := below + [Step(first, false), Step(removed, true), Step(inserted, true)];
      Chain(Undoing, after, undo) && Run(undo) == 3 && Walked(Undoing, after, undo, 3) == t
  {
    WalkOfThree(Undoing, after, first, removed, inserted, below);
  }

  /** Three commands redone in one walk, over the texts each replay passes. */
  lemma ThreeRedone(t: string, broken: string, cut: string, after: string, first: Edit, removed: Edit, inserted: Edit, below: seq<Step>)
    requires RedoAdmits(t, first) && RedoText(t, first) == broken
    requires RedoAdmits(broken, removed) && RedoText(broken, removed) == cut
    requires RedoAdmits(cut, inserted) && RedoText(cut, inserted) == after
    ensures var redo := below + [Step(inserted, false), Step(removed, true), Step(first, true)];
      Chain(Redoing, t, redo) && Run(redo) == 3 && Walked(Redoing, t, redo, 3) == after
  {
    WalkOfThree(Redoing, t, inserted, removed, first, below);
  }

  /**
   * The characters before start, nearest first, each line break as '\n': what
   * the word step reads leftward. TextGetStream(start - 1, leftward) yields
   * '\0' instead for a break it reaches while still on the empty line after
   * it; Keyboard.LeftStepSeesBreaksAlike shows the word step is the same
   * either way.
   */
  function LeftStream(lines: seq<Line>, start: int): (r: string)
    ensures 0 <= start <= |Text(lines)| ==> |r| == start
  {
    var t := Text(lines);
    if 0 <= start <= |t| then Reversed(t[..start]) else []
  }

  /**
   * after is before with the entry at c set to v: the same update as
   * before[c := v], stated entry by entry.
   */
  predicate SetAt(after: seq<int>, before: seq<int>, c: int, v: int)
  {
    && |after| == |before| && 0 <= c < |before| && after[c] == v
    && forall k :: 0 <= k < |before| && k != c ==> after[k] == before[k]
  }

  /** The undo list after an edit that recorded cmd, or nothing for null. */
  function RecordedIf(undo: seq<Command>, cmd: Command?, max: int): seq<Command>
  {
    if cmd == null then undo else Recorded(undo, cmd, max)
  }

  /**
   * What OnKeyDownEnter leaves, over the text t before it and the caret s:
   * the line it ends (lineStart, original) as the text with the break shows
   * it; the text, with that line replaced by its filtered form when the
   * filter changed it; which commands were recorded, with their edits; and
   * whether setting the pair flags threw.
   */
  ghost predicate EnterDone(t: string, s: int, filter: string -> string, accepts: bool, text: string,
                            linebreak: Command?, removed: Command?, inserted: Command?, thrown: bool, lineStart: int, original: string)
    requires 0 <= s <= |t|
  {
    var broken := Splice(t, s, "\n");
    var filtered := filter(original);
    var changed := filtered != original;
    && Shows(broken, lineStart, original) && lineStart <= s <= lineStart + |original|
    && text == (if changed then Splice(Excise(broken, lineStart, |original|), lineStart, filtered) else broken)
    && (linebreak != null <==> accepts)
    && (removed != null <==> changed && accepts)
    && (inserted != null <==> changed && accepts && |filtered| > 0)
    && thrown == (changed && (!accepts || |filtered| == 0))
    && (linebreak != null ==> linebreak.edit == Added("\n", s))
    && (removed != null ==> removed.edit == Removed(if |original| > 0 then original else broken[lineStart..], lineStart))
    && (inserted != null ==> inserted.edit == Added(filtered, lineStart))
  }

  /**
   * The selection starts after OnKeyDownEnter: unchanged when it threw;
   * after the break when the line was kept; otherwise shifted by the change
   * in the line's length (clamped to the text of length n), unless that
   * lands on the old caret.
   */
  function EnterCaret(starts: seq<int>, column: int, s: int, filtered: string, original: string, changed: bool, thrown: bool, n: int): seq<int>
    requires 0 <= column < |starts|
  {
    if thrown then starts
    else if !changed then starts[column := s + 1]
    else if |filtered| - |original| + 1 == 0 then starts
    else starts[column := Clamp(s + |filtered| - |original| + 1, n)]
  }

  /** A stretch of the text a key takes out: where it starts and how many characters it holds. */
  datatype KeyCut = KeyCut(at: int, length: int)

  /**
   * The span Backspace (right false) or Delete (right true) takes out at
   * start s with selection length l: the selection when there is one, else
   * one character, or with Control a word step, after the caret for Delete
   * and before it for Backspace.
   */
  function KeySpan(o: CharOracle, lines: seq<Line>, s: int, l: int, right: bool, control: bool): (r: KeyCut)
    requires 0 <= s && 0 <= l && s + l <= |Text(lines)|
    ensures 0 <= r.length && -1 <= r.at
    ensures r.at + r.length <= |Text(lines)| || r.at == |Text(lines)|
    ensures l > 0 || right ==> r.at == s
    ensures l == 0 && !right ==> r.at + r.length == s
  {
    if l > 0 then KeyCut(s, l)
    else
      var n := if !control then 1 else LargeStep(o, if right then StreamFrom(lines, s) else LeftStream(lines, s), right);
      if right then KeyCut(s, n) else KeyCut(s - n, n)
  }

  /** Undoing the removal of a non-empty stretch puts the text back as it was. */
  lemma RemovalUndoes(t: string, at: int, n: int)
    requires 0 <= at && 0 < n && at + n <= |t|
    ensures var e := Removed(t[at..at + n], at);
      UndoAdmits(Excise(t, at, n), e) && UndoText(Excise(t, at, n), e) == t
  {
    SpliceExcise(t, at, n);
  }

  /**
   * Control with Backspace at the very start of a non-empty text: the
   * leftward stream is empty, so the span is empty and starts at 0; the
   * removal the document records for an empty span holds the whole text, and
   * undoing it puts in a second copy of the text.
   */
  lemma WordBackspaceAtStartCopiesText(o: CharOracle, lines: seq<Line>)
    requires |Text(lines)| > 0
    ensures var t := Text(lines);
      && KeySpan(o, lines, 0, 0, false, true) == KeyCut(0, 0)
      && Excise(t, 0, 0) == t
      && UndoAdmits(t, Removed(t[0..], 0))
      && UndoText(t, Removed(t[0..], 0)) == t + t != t
  {
    var t := Text(lines);
    assert LeftStream(lines, 0) == [];
    assert t[0..] == t;
    assert |t + t| != |t|;
  }

  // ---------------------------------------------------------------------------
  // The view
  // ---------------------------------------------------------------------------

  /** A line of the document, as the overflow table keys it. */
  type LineRef = nat

  class TextView {
    const doc: TextDocument
    /** The identity under which the document knows this view. */
    const id: View
    /** CurrentTextColumnIndex. */
    const column: nat
    /** The style of the selection anchors. */
    const selectionStyle: Style
    /** GetTextStyle: the style of a name key. */
    const styleOf: string -> Style
    var starts: seq<int>
    var lengths: seq<int>
    /** The selection anchor of each column. */
    var selection: seq<Anchor>
    /** The lines wider than the client area, with their widths. */
    var overflow: map<LineRef, int>
    var isReadOnly: bool

    ghost predicate Valid()
      reads this, doc, doc.manager
    {
      && doc.Valid() && doc.manager != null && LineStarts(doc.lines)
      && column < |starts| && |lengths| == |starts| && |selection| == |starts|
      && (forall k :: 0 <= k < |starts| ==> starts[k] >= 0)
      && (forall k :: 0 <= k < |lengths| ==> lengths[k] >= 0)
    }

    /**
     * A view over a document: registered with the document and subscribed
     * to its four events, then in column 0 with the selection arrays set up
     * for that column.
     */
    constructor (doc: TextDocument, id: View, selectionStyle: Style, styleOf: string -> Style)
      requires doc.Valid() && doc.manager != null && LineStarts(doc.lines)
      modifies doc`next, doc`views, doc`subscribed
      ensures Valid() && this.doc == doc && this.id == id && column == 0
      ensures this.selectionStyle == selectionStyle && this.styleOf == styleOf
      ensures doc.views == old(doc.views) + [id]
      ensures doc.subscribed == old(doc.subscribed) + {AlterKind, RemovedKind, AddedKind, ModifiedKind}
      ensures starts == [0] && lengths == [0] && selection == [NewAnchor(old(doc.next), selectionStyle)]
      ensures doc.next == old(doc.next) + 1 && overflow == map[] && !isReadOnly
    {
      this.doc := doc;
      this.id := id;
      column := 0;
      this.selectionStyle := selectionStyle;
      this.styleOf := styleOf;
      starts, lengths, selection := [], [], [];
      overflow := map[];
      isReadOnly := false;
      new;
      SetTextBufferStrategy();
      var a := doc.CreateStyledTextSegment(selectionStyle);
      starts, lengths, selection := [0], [0], [a];
    }

    /** SetTextBufferStrategy: the view registered with its document and subscribed to its four events. */
    method SetTextBufferStrategy()
      modifies doc`views, doc`subscribed
      ensures doc.views == old(doc.views) + [id]
      ensures doc.subscribed == old(doc.subscribed) + {AlterKind, RemovedKind, AddedKind, ModifiedKind}
    {
      doc.RegisterTextView(id);
      doc.Subscribe(AlterKind);
      doc.Subscribe(RemovedKind);
      doc.Subscribe(AddedKind);
      doc.Subscribe(ModifiedKind);
    }

    /** EnsureSelectionArrays: the arrays grown to cover column c, never shrunk. */
    method EnsureSelectionArrays(c: nat)
      requires Valid()
      modifies this`starts, this`lengths, this`selection, doc`next
      ensures Valid() && c < |starts|
      ensures starts == GrownStarts(old(starts), c) && lengths == GrownLengths(old(starts), old(lengths), c)
      ensures c < |old(starts)| ==> selection == old(selection) && doc.next == old(doc.next)
      ensures c >= |old(starts)| ==>
        && selection == old(selection) + NewSelections(old(doc.next), c + 1 - |old(starts)|, selectionStyle)
        && doc.next == old(doc.next) + (c + 1 - |old(starts)|)
    {
      if c < |starts| {
        return;
      }
      var grownStarts, grownLengths, grownSelection := starts, starts, selection;
      var i := |starts|;
      while i <= c
        invariant starts == old(starts) && lengths == old(lengths) && selection == old(selection)
        invariant |starts| <= i <= c + 1
        invariant grownStarts == starts + Zeros(i - |starts|) && grownLengths == grownStarts
        invariant grownSelection == selection + NewSelections(old(doc.next), i - |starts|, selectionStyle)
        invariant doc.next == old(doc.next) + (i - |starts|) && doc.Valid()
      {
        assert Zeros(i - |starts|) + [0] == Zeros(i + 1 - |starts|);
        grownStarts := grownStarts + [0];
        grownLengths := grownLengths + [0];
        var a := doc.CreateStyledTextSegment(selectionStyle);
        grownSelection := grownSelection + [a];
        i := i + 1;
      }
      starts, lengths, selection := grownStarts, grownLengths, grownSelection;
    }

    /**
     * SetSelectionStart(index, by, c): nothing when index equals the current
     * column's start; otherwise a move by hand or by mouse first fakes a
     * finalizing key at c's old start, then c's start becomes index clamped
     * to the text, and c's selection anchor moves there.
     */
    method SetSelectionStart(index: int, how: ByInterface, c: nat)
      requires Valid()
      modifies this`starts, this`lengths, this`selection, doc`next, doc`segs
      ensures Valid() && |selection| == |starts|
      ensures var grown := GrownStarts(old(starts), c);
        && lengths == GrownLengths(old(starts), old(lengths), c)
        && starts == (if index == old(starts)[column] then grown else grown[c := Clamp(index, TextLength(doc.lines))])
        && (index != old(starts)[column] ==> selection[c].index == starts[c])
        && (index != old(starts)[column] && (how == Manually || how == ByMouse) ==>
              forall j :: 0 <= j < |doc.lines| && j != LineFromCharIndex(doc.lines, grown[c]) ==> doc.segs[j] == old(doc.segs)[j])
        && (index == old(starts)[column] || (how != Manually && how != ByMouse) ==> doc.segs == old(doc.segs))
      ensures forall k :: 0 <= k < |old(selection)| && k != c ==> selection[k] == old(selection)[k]
    {
      EnsureSelectionArrays(c);
      GrowingKeepsStartsNotLengths(old(starts), old(lengths), c);
      MoveStart(index, how, c);
    }

    /** SetSelectionStart once the arrays cover column c. */
    method MoveStart(index: int, how: ByInterface, c: nat)
      requires Valid() && c < |starts|
      modifies this`starts, this`selection, doc`next, doc`segs
      ensures Valid() && lengths == old(lengths) && |selection| == |starts|
      ensures index == old(starts)[column] ==> starts == old(starts) && selection == old(selection)
      ensures index != old(starts)[column] ==>
        && starts == old(starts)[c := Clamp(index, TextLength(doc.lines))]
        && selection == old(selection)[c := old(selection)[c].(index := starts[c])]
      ensures index != old(starts)[column] && (how == Manually || how == ByMouse) ==>
        forall j :: 0 <= j < |doc.lines| && j != LineFromCharIndex(doc.lines, old(starts)[c]) ==> doc.segs[j] == old(doc.segs)[j]
      ensures index == old(starts)[column] || (how != Manually && how != ByMouse) ==> doc.segs == old(doc.segs)
    {
      if index == starts[column] {
        return;
      }
      if how == Manually || how == ByMouse {
        doc.FakeFinalizingKey(starts[c]);
      }
      var clamped := Clamp(index, TextLength(doc.lines));
      starts := starts[c := clamped];
      selection := selection[c := selection[c].(index := clamped)];
    }

    /**
     * The SelectionLength setter: nothing when the value is the current
     * length; otherwise the length becomes the value clamped to what is left
     * of the text after the start, and the selection anchor takes it.
     */
    method SetSelectionLength(value: int)
      requires Valid()
      modifies this`lengths, this`selection
      ensures Valid() && starts == old(starts)
      ensures value == old(lengths)[column] ==> lengths == old(lengths) && selection == old(selection)
      ensures value != old(lengths)[column] ==>
        && lengths == old(lengths)[column := Clamp(value, TextLength(doc.lines) - starts[column])]
        && selection == old(selection)[column := AnchorSetLength(old(selection)[column], column, lengths[column])]
    {
      if value == lengths[column] {
        return;
      }
      var newLength := Clamp(value, TextLength(doc.lines) - starts[column]);
      lengths := lengths[column := newLength];
      selection := selection[column := AnchorSetLength(selection[column], column, newLength)];
    }

    /**
     * The SelectedText getter: the characters from the start, as many as the
     * selection length, fewer at the end of the text.
     */
    method GetSelectedText() returns (r: string)
      requires Valid()
      ensures var stream := StreamFrom(doc.lines, starts[column]);
        r == if lengths[column] <= |stream| then stream[..lengths[column]] else stream
      ensures starts[column] + lengths[column] <= |Text(doc.lines)| ==>
        r == Text(doc.lines)[starts[column]..starts[column] + lengths[column]]
    {
      var stream := doc.TextGetStream(starts[column]);
      var count := lengths[column] + 1;
      r := "";
      var i := 0;
      while i < |stream|
        invariant 0 <= i <= |stream| && i <= lengths[column]
        invariant count == lengths[column] + 1 - i
        invariant r == stream[..i]
      {
        count := count - 1;
        if count == 0 {
          break;
        }
        r := r + [stream[i]];
        i := i + 1;
      }
      LengthOfText(doc.lines);
    }

    /**
     * TextInsert, as the view forwards it to the document: the text goes in
     * at start, and the document records an insert command when it accepts
     * changes and the text is not empty.
     */
    method TextInsert(start: int, text: string) returns (cmd: Command?)
      requires Valid() && 0 <= start <= |Text(doc.lines)|
      modifies doc`lines, doc`segs, doc`next, doc`events, doc`isModified, doc.manager
      ensures Valid()
      ensures doc.manager.acceptsChanges == old(doc.manager.acceptsChanges) && doc.manager.maxUndoLevel == old(doc.manager.maxUndoLevel)
      ensures AfterRecord(doc.manager, old(doc.manager.undoList), old(doc.manager.redoStack), cmd)
      ensures Text(doc.lines) == Splice(old(Text(doc.lines)), start, text)
      ensures cmd != null <==> old(doc.manager.acceptsChanges) && |text| > 0
      ensures cmd != null ==> fresh(cmd) && cmd.edit == Added(text, start) && !cmd.undoPair && !cmd.redoPair
    {
      LengthOfText(doc.lines);
      cmd := doc.TextInsert(start, text);
    }

    /**
     * TextRemove, as the view forwards it to the document, for a span inside
     * the text or starting at its end: a span leaving the text (or a
     * document without lines) is refused and nothing changes; otherwise the
     * span is taken out, and the document records a removal command of the
     * span (of the rest of the text, for length 0) when it accepts changes.
     */
    method TextRemove(start: int, length: int) returns (cmd: Command?)
      requires Valid() && start >= -1 && length >= 0
      requires start + length <= |Text(doc.lines)| || start == |Text(doc.lines)|
      modifies doc`lines, doc`segs, doc`next, doc`events, doc`isModified, doc.manager
      ensures Valid()
      ensures doc.manager.acceptsChanges == old(doc.manager.acceptsChanges) && doc.manager.maxUndoLevel == old(doc.manager.maxUndoLevel)
      ensures AfterRecord(doc.manager, old(doc.manager.undoList), old(doc.manager.redoStack), cmd)
      ensures var t := old(Text(doc.lines));
        var inside := old(|doc.lines|) > 0 && 0 <= start && start + length <= |t|;
        && Text(doc.lines) == (if inside then Excise(t, start, length) else t)
        && (cmd != null <==> inside && old(doc.manager.acceptsChanges))
      ensures cmd != null ==> fresh(cmd) && !cmd.undoPair && !cmd.redoPair
      ensures cmd != null ==> cmd.edit == old(Removed(if length > 0 then Text(doc.lines)[start..start + length] else Text(doc.lines)[start..], start))
      ensures cmd != null && length > 0 ==> UndoAdmits(Text(doc.lines), cmd.edit) && UndoText(Text(doc.lines), cmd.edit) == old(Text(doc.lines))
    {
      ghost var t := Text(doc.lines);
      LengthOfText(doc.lines);
      RemoveRefusedOutside(doc.lines, start, length);
      ghost var taken := TextGetValue(doc.lines, start, length);
      if !RemoveRefused(doc.lines, start, length) {
        TextGetReadsSpan(doc.lines, start, length);
      }
      ghost var merges;
      cmd, merges := doc.TextRemove(start, length);
      if cmd != null && length > 0 {
        RemovalUndoes(t, start, length);
      }
    }

    /**
     * The selection taken out of the text, as the setter of SelectedText and
     * the keyboard handlers do it: a non-empty selection is removed, and the
     * selection length becomes 0.
     */
    method TakeOutSelection() returns (removed: Command?)
      requires Valid() && starts[column] + lengths[column] <= |Text(doc.lines)|
      modifies this`lengths, this`selection, doc`lines, doc`segs, doc`next, doc`events, doc`isModified, doc.manager
      ensures Valid() && starts == old(starts) && SetAt(lengths, old(lengths), column, 0) && |selection| == |old(selection)|
      ensures forall k :: 0 <= k < |selection| && k != column ==> selection[k] == old(selection)[k]
      ensures doc.manager.acceptsChanges == old(doc.manager.acceptsChanges) && doc.manager.maxUndoLevel == old(doc.manager.maxUndoLevel)
      ensures AfterRecord(doc.manager, old(doc.manager.undoList), old(doc.manager.redoStack), removed)
      ensures var t, s, l := old(Text(doc.lines)), old(starts[column]), old(lengths[column]);
        && Text(doc.lines) == Excise(t, s, l)
        && (removed != null <==> l > 0 && old(doc.manager.acceptsChanges))
      ensures removed != null ==> fresh(removed) && !removed.undoPair && !removed.redoPair
      ensures removed != null ==> removed.edit == old(Removed(Text(doc.lines)[starts[column]..starts[column] + lengths[column]], starts[column]))
    {
      if lengths[column] > 0 {
        removed := RemoveSelectedSpan();
      } else {
        removed := null;
        assert Excise(Text(doc.lines), starts[column], 0) == Text(doc.lines) by {
          ExciseIs(Text(doc.lines), starts[column], 0);
        }
        assert lengths[column := 0] == lengths;
      }
    }

    /** TakeOutSelection for a non-empty selection. */
    method RemoveSelectedSpan() returns (removed: Command?)
      requires Valid() && lengths[column] > 0 && starts[column] + lengths[column] <= |Text(doc.lines)|
      modifies this`lengths, this`selection, doc`lines, doc`segs, doc`next, doc`events, doc`isModified, doc.manager
      ensures Valid() && starts == old(starts) && SetAt(lengths, old(lengths), column, 0) && |selection| == |old(selection)|
      ensures forall k :: 0 <= k < |selection| && k != column ==> selection[k] == old(selection)[k]
      ensures doc.manager.acceptsChanges == old(doc.manager.acceptsChanges) && doc.manager.maxUndoLevel == old(doc.manager.maxUndoLevel)
      ensures AfterRecord(doc.manager, old(doc.manager.undoList), old(doc.manager.redoStack), removed)
      ensures Text(doc.lines) == Excise(old(Text(doc.lines)), old(starts[column]), old(lengths[column]))
      ensures removed != null <==> old(doc.manager.acceptsChanges)
      ensures removed != null ==> fresh(removed) && !removed.undoPair && !removed.redoPair
      ensures removed != null ==> removed.edit == old(Removed(Text(doc.lines)[starts[column]..starts[column] + lengths[column]], starts[column]))
    {
      ghost var t, lengths0, u0, r0, accepts := Text(doc.lines), lengths, doc.manager.undoList, doc.manager.redoStack, doc.manager.acceptsChanges;
      var s, l := starts[column], lengths[column];
      removed := TextRemove(s, l);
      ghost var t1, u1, r1 := Text(doc.lines), doc.manager.undoList, doc.manager.redoStack;
      assert t1 == Excise(t, s, l) && (removed != null <==> accepts);
      assert removed != null ==> removed.edit == Removed(t[s..s + l], s) && u1 == Recorded(u0, removed, doc.manager.maxUndoLevel);
      assert removed == null ==> u1 == u0 && r1 == r0;
      SetSelectionLength(0);
      assert Text(doc.lines) == t1 && doc.manager.undoList == u1 && doc.manager.redoStack == r1;
      assert SetAt(lengths, lengths0, column, 0);
    }

    /**
     * The value inserted at the caret, and the caret moved after it (when
     * the value is not empty), as the SelectedText setter and a key press
     * do it.
     */
    method InsertAtCaret(value: string, how: ByInterface) returns (inserted: Command?)
      requires Valid() && starts[column] <= |Text(doc.lines)|
      modifies this`starts, this`lengths, this`selection, doc`lines, doc`segs, doc`next, doc`events, doc`isModified, doc.manager
      ensures Valid() && lengths == old(lengths) && |selection| == |old(selection)|
      ensures forall k :: 0 <= k < |selection| && k != column ==> selection[k] == old(selection)[k]
      ensures doc.manager.acceptsChanges == old(doc.manager.acceptsChanges) && doc.manager.maxUndoLevel == old(doc.manager.maxUndoLevel)
      ensures AfterRecord(doc.manager, old(doc.manager.undoList), old(doc.manager.redoStack), inserted)
      ensures Text(doc.lines) == Splice(old(Text(doc.lines)), old(starts[column]), value)
      ensures SetAt(starts, old(starts), column, old(starts[column]) + |value|)
      ensures inserted != null <==> old(doc.manager.acceptsChanges) && |value| > 0
      ensures inserted != null ==> fresh(inserted) && inserted.edit == Added(value, old(starts[column])) && !inserted.undoPair && !inserted.redoPair
    {
      var s := starts[column];
      inserted := TextInsert(s, value);
      if |value| > 0 {
        MoveCaretTo(s + |value|, how);
      }
    }

    /** The caret moved to a new place inside the text, as SetSelectionStart does it on the current column. */
    method MoveCaretTo(index: int, how: ByInterface)
      requires Valid() && 0 <= index <= |Text(doc.lines)| && index != starts[column]
      modifies this`starts, this`selection, doc`next, doc`segs
      ensures Valid() && lengths == old(lengths) && |selection| == |old(selection)|
      ensures forall k :: 0 <= k < |selection| && k != column ==> selection[k] == old(selection)[k]
      ensures SetAt(starts, old(starts), column, index)
    {
      LengthOfText(doc.lines);
      MoveStart(index, how, column);
    }

    /**
     * The SelectedText setter: a selection is taken out first, and when the
     * document records no command for that removal the setter stops there;
     * otherwise the value goes in at the old start, the start moves (by hand)
     * after it, and when both commands were recorded the insert is
     * undo-paired and the removal redo-paired, so that they undo and redo as
     * one.
     */
    method SetSelectedText(value: string) returns (removed: Command?, inserted: Command?)
      requires Valid() && starts[column] + lengths[column] <= |Text(doc.lines)|
      modifies this`starts, this`lengths, this`selection, doc`lines, doc`segs, doc`next, doc`events, doc`isModified, doc.manager
      ensures Valid() && |selection| == |old(selection)|
      ensures forall k :: 0 <= k < |selection| && k != column ==> selection[k] == old(selection)[k]
      ensures doc.manager.acceptsChanges == old(doc.manager.acceptsChanges) && doc.manager.maxUndoLevel == old(doc.manager.maxUndoLevel)
      ensures var t, s, l, accepts := old(Text(doc.lines)), old(starts[column]), old(lengths[column]), old(doc.manager.acceptsChanges);
        var aborted := l > 0 && !accepts;
        && (removed != null <==> l > 0 && accepts)
        && (inserted != null <==> accepts && |value| > 0)
        && SetAt(lengths, old(lengths), column, 0)
        && Text(doc.lines) == (if aborted then Excise(t, s, l) else Splice(Excise(t, s, l), s, value))
        && SetAt(starts, old(starts), column, if aborted then s else s + |value|)
        && (removed != null ==> removed.edit == Removed(t[s..s + l], s) && !removed.undoPair && removed.redoPair == (inserted != null))
        && (inserted != null ==> inserted.edit == Added(value, s) && !inserted.redoPair && inserted.undoPair == (removed != null))
      ensures var u0, r0, max := old(doc.manager.undoList), old(doc.manager.redoStack), doc.manager.maxUndoLevel;
        var u1 := if removed == null then u0 else Recorded(u0, removed, max);
        && doc.manager.undoList == (if inserted == null then u1 else Recorded(u1, inserted, max))
        && doc.manager.redoStack == (if (removed == null && inserted == null) || max == 0 then r0 else [])
      ensures removed != null && inserted != null && doc.manager.maxUndoLevel >= 2 ==>
        var steps := UndoSteps(doc.manager.undoList);
        Chain(Undoing, Text(doc.lines), steps) && Run(steps) == 2 && Walked(Undoing, Text(doc.lines), steps, 2) == old(Text(doc.lines))
    {
      removed, inserted := ReplaceSelection(value);
      if removed != null && inserted != null && doc.manager.maxUndoLevel >= 2 {
        ReplacementUndoesAt(doc.manager.undoList, Text(doc.lines), old(doc.manager.undoList), removed, inserted,
                            doc.manager.maxUndoLevel, old(Text(doc.lines)), old(starts[column]), old(lengths[column]), value);
      }
    }

    /** The removal and the insertion of the SelectedText setter, before their pairing is shown to undo as one. */
    method ReplaceSelection(value: string) returns (removed: Command?, inserted: Command?)
      requires Valid() && starts[column] + lengths[column] <= |Text(doc.lines)|
      modifies this`starts, this`lengths, this`selection, doc`lines, doc`segs, doc`next, doc`events, doc`isModified, doc.manager
      ensures Valid() && |selection| == |old(selection)|
      ensures forall k :: 0 <= k < |selection| && k != column ==> selection[k] == old(selection)[k]
      ensures doc.manager.acceptsChanges == old(doc.manager.acceptsChanges) && doc.manager.maxUndoLevel == old(doc.manager.maxUndoLevel)
      ensures var t, s, l, accepts := old(Text(doc.lines)), old(starts[column]), old(lengths[column]), old(doc.manager.acceptsChanges);
        var aborted := l > 0 && !accepts;
        && (removed != null <==> l > 0 && accepts)
        && (inserted != null <==> accepts && |value| > 0)
        && SetAt(lengths, old(lengths), column, 0)
        && Text(doc.lines) == (if aborted then Excise(t, s, l) else Splice(Excise(t, s, l), s, value))
        && SetAt(starts, old(starts), column, if aborted then s else s + |value|)
        && (removed != null ==> removed.edit == Removed(t[s..s + l], s) && !removed.undoPair && removed.redoPair == (inserted != null))
        && (inserted != null ==> inserted.edit == Added(value, s) && !inserted.redoPair && inserted.undoPair == (removed != null))
      ensures var u0, r0, max := old(doc.manager.undoList), old(doc.manager.redoStack), doc.manager.maxUndoLevel;
        var u1 := if removed == null then u0 else Recorded(u0, removed, max);
        && doc.manager.undoList == (if inserted == null then u1 else Recorded(u1, inserted, max))
        && doc.manager.redoStack == (if (removed == null && inserted == null) || max == 0 then r0 else [])
    {
      var l := lengths[column];
      removed := TakeOutSelection();
      if l > 0 && removed == null {
        inserted := null;
        return;
      }
      inserted := InsertReplacement(value, removed);
    }

    /** The rest of the SelectedText setter, once the selection is taken out and its removal (if any) recorded. */
    method InsertReplacement(value: string, removed: Command?) returns (inserted: Command?)
      requires Valid() && starts[column] <= |Text(doc.lines)|
      requires removed != null ==> !removed.undoPair && !removed.redoPair
      modifies this`starts, this`lengths, this`selection, doc`lines, doc`segs, doc`next, doc`events, doc`isModified, doc.manager, removed
      ensures Valid() && lengths == old(lengths) && |selection| == |old(selection)|
      ensures forall k :: 0 <= k < |selection| && k != column ==> selection[k] == old(selection)[k]
      ensures doc.manager.acceptsChanges == old(doc.manager.acceptsChanges) && doc.manager.maxUndoLevel == old(doc.manager.maxUndoLevel)
      ensures AfterRecord(doc.manager, old(doc.manager.undoList), old(doc.manager.redoStack), inserted)
      ensures Text(doc.lines) == Splice(old(Text(doc.lines)), old(starts[column]), value)
      ensures SetAt(starts, old(starts), column, old(starts[column]) + |value|)
      ensures inserted != null <==> old(doc.manager.acceptsChanges) && |value| > 0
      ensures inserted != null ==> fresh(inserted) && inserted.edit == Added(value, old(starts[column]))
      ensures inserted != null ==> !inserted.redoPair && inserted.undoPair == (removed != null)
      ensures removed != null ==> !removed.undoPair && removed.redoPair == (inserted != null)
    {
      inserted := InsertAtCaret(value, Manually);
      if inserted != null && removed != null {
        inserted.undoPair := true;
        removed.redoPair := true;
      }
    }

    /**
     * The caret placed after a replay, as Undo and Redo do it: the length set
     * to 0, the start set (as the SelectionStart setter does, so without a
     * faked key), then a finalizing key faked at the new start.
     */
    method PlaceCaret(caret: int)
      requires Valid()
      modifies this`starts, this`lengths, this`selection, doc`segs, doc`next
      ensures Valid() && |selection| == |old(selection)|
      ensures forall k :: 0 <= k < |selection| && k != column ==> selection[k] == old(selection)[k]
      ensures lengths == old(lengths)[column := 0]
      ensures starts == if caret == old(starts[column]) then old(starts) else old(starts)[column := Clamp(caret, TextLength(doc.lines))]
    {
      SetSelectionLength(0);
      if lengths[column] == 0 {
        assert old(lengths)[column := 0] == lengths;
      }
      MoveStart(caret, Unknown, column);
      doc.FakeFinalizingKey(starts[column]);
    }

    /**
     * Undo: nothing when the undo list is empty; otherwise the manager's undo
     * walk runs, and unless it threw or the newest command was a note edit,
     * the selection collapses to where that command's text was (after the
     * text put back, for a removal), clamped to the text.
     */
    method Undo() returns (ghost popped: nat, thrown: bool)
      requires Valid() && Chain(Undoing, Text(doc.lines), UndoSteps(doc.manager.undoList))
      modifies this`starts, this`lengths, this`selection, doc`lines, doc`segs, doc`next, doc`events, doc`isModified, doc.manager
      ensures Valid() && |selection| == |old(selection)|
      ensures Outcome(Undoing, old(doc.manager.undoList), old(UndoSteps(doc.manager.undoList)), old(doc.manager.redoStack),
                      old(Text(doc.lines)), popped, thrown, doc.manager.undoList, doc.manager.redoStack, Text(doc.lines))
      ensures var u := old(doc.manager.undoList);
        var moved := |u| > 0 && !thrown && !u[|u| - 1].edit.NoteEdit?;
        var caret := if |u| > 0 then CaretAfterUndo(u[|u| - 1].edit) else 0;
        && lengths == (if moved then old(lengths)[column := 0] else old(lengths))
        && starts == (if !moved || caret == old(starts[column]) then old(starts) else old(starts)[column := Clamp(caret, |Text(doc.lines)|)])
      ensures var u := old(doc.manager.undoList);
        |u| > 0 && !thrown && popped == 1 && !u[|u| - 1].edit.NoteEdit? && Done(old(Text(doc.lines)), u[|u| - 1].edit) ==>
          starts[column] == CaretAfterUndo(u[|u| - 1].edit)
    {
      ghost var t0, u, r0, steps := Text(doc.lines), doc.manager.undoList, doc.manager.redoStack, UndoSteps(doc.manager.undoList);
      var cmd := doc.manager.PeekUndoCommand();
      if cmd == null {
        OutcomeOfNothing(Undoing, doc.manager.redoStack, t0);
        return 0, false;
      }
      popped, thrown := History.Undo(doc);
      ghost var u1, r1, t1 := doc.manager.undoList, doc.manager.redoStack, Text(doc.lines);
      assert Outcome(Undoing, u, steps, r0, t0, popped, thrown, u1, r1, t1);
      if thrown || cmd.edit.NoteEdit? {
        return;
      }
      LengthOfText(doc.lines);
      if popped == 1 && Done(t0, cmd.edit) {
        UndoCaretInText(t0, cmd.edit);
      }
      PlaceCaret(CaretAfterUndo(cmd.edit));
      assert doc.manager.undoList == u1 && doc.manager.redoStack == r1 && Text(doc.lines) == t1;
    }

    /**
     * Redo: nothing when the redo stack is empty; otherwise the manager's redo
     * walk runs, and unless it threw or the top command was a note edit, the
     * selection collapses after the text put back in (or where text was
     * taken out again), clamped to the text.
     */
    method Redo() returns (ghost popped: nat, thrown: bool)
      requires Valid() && Chain(Redoing, Text(doc.lines), RedoSteps(doc.manager.redoStack))
      modifies this`starts, this`lengths, this`selection, doc`lines, doc`segs, doc`next, doc`events, doc`isModified, doc.manager
      ensures Valid() && |selection| == |old(selection)|
      ensures Outcome(Redoing, old(doc.manager.redoStack), old(RedoSteps(doc.manager.redoStack)), old(doc.manager.undoList),
                      old(Text(doc.lines)), popped, thrown, doc.manager.redoStack, doc.manager.undoList, Text(doc.lines))
      ensures var r := old(doc.manager.redoStack);
        var moved := |r| > 0 && !thrown && !r[|r| - 1].edit.NoteEdit?;
        var caret := if |r| > 0 then CaretAfterRedo(r[|r| - 1].edit) else 0;
        && lengths == (if moved then old(lengths)[column := 0] else old(lengths))
        && starts == (if !moved || caret == old(starts[column]) then old(starts) else old(starts)[column := Clamp(caret, |Text(doc.lines)|)])
      ensures var r := old(doc.manager.redoStack);
        |r| > 0 && !thrown && popped == 1 && !r[|r| - 1].edit.NoteEdit? && Before(old(Text(doc.lines)), r[|r| - 1].edit) ==>
          starts[column] == CaretAfterRedo(r[|r| - 1].edit)
    {
      ghost var t0, r, u0, steps := Text(doc.lines), doc.manager.redoStack, doc.manager.undoList, RedoSteps(doc.manager.redoStack);
      var cmd := doc.manager.PeekRedoCommand();
      if cmd == null {
        OutcomeOfNothing(Redoing, doc.manager.undoList, t0);
        return 0, false;
      }
      popped, thrown := History.Redo(doc);
      ghost var r1, u1, t1 := doc.manager.redoStack, doc.manager.undoList, Text(doc.lines);
      assert Outcome(Redoing, r, steps, u0, t0, popped, thrown, r1, u1, t1);
      if thrown || cmd.edit.NoteEdit? {
        return;
      }
      LengthOfText(doc.lines);
      if popped == 1 && Before(t0, cmd.edit) {
        RedoCaretInText(t0, cmd.edit);
      }
      PlaceCaret(CaretAfterRedo(cmd.edit));
      assert doc.manager.redoStack == r1 && doc.manager.undoList == u1 && Text(doc.lines) == t1;
    }

    /**
     * GetLengthByLargeStep(start, right): how many characters a word step
     * from start covers, read off the stream from start rightward, or from
     * start - 1 leftward.
     */
    method GetLengthByLargeStep(start: int, right: bool) returns (r: int)
      requires Valid() && start >= 0
      ensures var stream := if right then StreamFrom(doc.lines, start) else LeftStream(doc.lines, start);
        && r == LargeStep(doc.chars, stream, right)
        && 0 <= r <= |stream|
    {
      var stream;
      if right {
        stream := doc.TextGetStream(start);
      } else {
        stream := LeftStream(doc.lines, start);
      }
      r := ScanLargeStep(doc.chars, stream, right);
    }

    /**
     * GetIndexOfNextVisualLinebreak over the visual line breaks of the line
     * (offsets from its start): forward, the first break at or after the
     * start's offset, else the line's length; backward, the last break at or
     * before it as a global index, else the line's first index.
     */
    method GetIndexOfNextVisualLinebreak(lineIndex: nat, globalStart: int, forward: bool, breaks: seq<int>) returns (r: int)
      ensures var lineStart := FirstCharIndexFromLine(doc.lines, lineIndex);
        var rel := globalStart - lineStart;
        r == if forward then
          (var i := FirstBreakFrom(breaks, rel); if i < |breaks| then breaks[i] else LineLengthAt(doc.lines, lineIndex))
        else
          (var i := LastBreakUpTo(breaks, rel); if i >= 0 then lineStart + breaks[i] else lineStart)
    {
      var lineStart := FirstCharIndexFromLine(doc.lines, lineIndex);
      var rel := globalStart - lineStart;
      if |breaks| == 0 {
        return if forward then LineLengthAt(doc.lines, lineIndex) else lineStart;
      }
      if forward {
        var i := 0;
        while i < |breaks|
          invariant 0 <= i <= |breaks|
          invariant forall j :: 0 <= j < i ==> breaks[j] < rel
        {
          if rel <= breaks[i] {
            return breaks[i];
          }
          i := i + 1;
        }
        return LineLengthAt(doc.lines, lineIndex);
      }
      var i := |breaks| - 1;
      while i >= 0
        invariant -1 <= i < |breaks|
        invariant forall j :: i < j < |breaks| ==> breaks[j] > rel
      {
        if rel >= breaks[i] {
          return lineStart + breaks[i];
        }
        i := i - 1;
      }
      return lineStart;
    }

    /**
     * OnKeyPress: ignored when already handled, read-only, with Control held
     * without Alt, for a carriage return (which it marks handled) or while an
     * IME composition runs; otherwise a selection is taken out, the character
     * goes in at the start, and the caret moves after it.
     */
    method OnKeyPress(c: char, handled: bool, controlWithoutAlt: bool, compositioning: bool) returns (nowHandled: bool, removed: Command?, inserted: Command?)
      requires Valid() && starts[column] + lengths[column] <= |Text(doc.lines)|
      modifies this`starts, this`lengths, this`selection, doc`lines, doc`segs, doc`next, doc`events, doc`isModified, doc.manager
      ensures Valid() && |selection| == |old(selection)|
      ensures forall k :: 0 <= k < |selection| && k != column ==> selection[k] == old(selection)[k]
      ensures doc.manager.acceptsChanges == old(doc.manager.acceptsChanges) && doc.manager.maxUndoLevel == old(doc.manager.maxUndoLevel)
      ensures nowHandled == (handled || (!isReadOnly && !controlWithoutAlt && c == '\r'))
      ensures var typed := !handled && !isReadOnly && !controlWithoutAlt && c != '\r' && !compositioning;
        var t, s, l, accepts := old(Text(doc.lines)), old(starts[column]), old(lengths[column]), old(doc.manager.acceptsChanges);
        && (!typed ==>
              && removed == null && inserted == null && Text(doc.lines) == t
              && starts == old(starts) && lengths == old(lengths) && selection == old(selection)
              && doc.manager.undoList == old(doc.manager.undoList) && doc.manager.redoStack == old(doc.manager.redoStack))
        && (typed ==>
              && Text(doc.lines) == Splice(Excise(t, s, l), s, [c])
              && SetAt(starts, old(starts), column, s + 1) && SetAt(lengths, old(lengths), column, 0)
              && (removed != null <==> l > 0 && accepts) && (inserted != null <==> accepts))
        && (removed != null ==> removed.edit == Removed(t[s..s + l], s) && !removed.undoPair)
        && (inserted != null ==> inserted.edit == Added([c], s) && !inserted.undoPair)
      ensures var u0, max := old(doc.manager.undoList), doc.manager.maxUndoLevel;
        var u1 := if removed == null then u0 else Recorded(u0, removed, max);
        doc.manager.undoList == (if inserted == null then u1 else Recorded(u1, inserted, max))
      ensures var t, s, l := old(Text(doc.lines)), old(starts[column]), old(lengths[column]);
        var steps := UndoSteps(doc.manager.undoList);
        inserted != null && doc.manager.maxUndoLevel >= 2 ==>
          && Chain(Undoing, Text(doc.lines), steps) && Run(steps) == 1 && Walked(Undoing, Text(doc.lines), steps, 1) == Excise(t, s, l)
          && (removed != null ==>
                var below := steps[..|steps| - 1];
                Chain(Undoing, Excise(t, s, l), below) && Run(below) == 1 && Walked(Undoing, Excise(t, s, l), below, 1) == t)
    {
      nowHandled := handled;
      if handled || isReadOnly || controlWithoutAlt {
        return nowHandled, null, null;
      }
      if c == '\r' {
        return true, null, null;
      }
      if compositioning {
        return nowHandled, null, null;
      }
      removed, inserted := TypeChar(c);
    }

    /** OnKeyPress once the character is to be typed. */
    method TypeChar(c: char) returns (removed: Command?, inserted: Command?)
      requires Valid() && starts[column] + lengths[column] <= |Text(doc.lines)|
      modifies this`starts, this`lengths, this`selection, doc`lines, doc`segs, doc`next, doc`events, doc`isModified, doc.manager
      ensures Valid() && |selection| == |old(selection)|
      ensures forall k :: 0 <= k < |selection| && k != column ==> selection[k] == old(selection)[k]
      ensures doc.manager.acceptsChanges == old(doc.manager.acceptsChanges) && doc.manager.maxUndoLevel == old(doc.manager.maxUndoLevel)
      ensures var t, s, l, accepts := old(Text(doc.lines)), old(starts[column]), old(lengths[column]), old(doc.manager.acceptsChanges);
        && Text(doc.lines) == Splice(Excise(t, s, l), s, [c])
        && SetAt(starts, old(starts), column, s + 1) && SetAt(lengths, old(lengths), column, 0)
        && (removed != null <==> l > 0 && accepts) && (inserted != null <==> accepts)
        && (removed != null ==> removed.edit == Removed(t[s..s + l], s) && !removed.undoPair)
        && (inserted != null ==> inserted.edit == Added([c], s) && !inserted.undoPair)
      ensures var u0, max := old(doc.manager.undoList), doc.manager.maxUndoLevel;
        var u1 := if removed == null then u0 else Recorded(u0, removed, max);
        doc.manager.undoList == (if inserted == null then u1 else Recorded(u1, inserted, max))
      ensures var t, s, l := old(Text(doc.lines)), old(starts[column]), old(lengths[column]);
        var steps := UndoSteps(doc.manager.undoList);
        inserted != null && doc.manager.maxUndoLevel >= 2 ==>
          && Chain(Undoing, Text(doc.lines), steps) && Run(steps) == 1 && Walked(Undoing, Text(doc.lines), steps, 1) == Excise(t, s, l)
          && (removed != null ==>
                var below := steps[..|steps| - 1];
                Chain(Undoing, Excise(t, s, l), below) && Run(below) == 1 && Walked(Undoing, Excise(t, s, l), below, 1) == t)
    {
      ghost var t, s, l, u0 := Text(doc.lines), starts[column], lengths[column], doc.manager.undoList;
      removed := TakeOutSelection();
      ghost var cut := Text(doc.lines);
      assert cut == Excise(t, s, l) && starts[column] == s;
      inserted := InsertAtCaret([c], ByKeyboard);
      assert Text(doc.lines) == Splice(cut, s, [c]);
      if inserted != null && doc.manager.maxUndoLevel >= 2 {
        TypedUndoesInTwo(u0, removed, inserted, doc.manager.maxUndoLevel, t, s, l, c);
      }
    }

    /**
     * OnKeyDownRemove: Backspace (right false) or Delete (right true) takes
     * out the selection, or else one character or (with Control) a word
     * step, before the caret for Backspace and after it for Delete; a
     * Backspace moves the caret to where the removal starts (0 at the start of
     * the text), and the selection length becomes 0. A span the document
     * refuses changes nothing.
     */
    method OnKeyDownRemove(right: bool, control: bool) returns (removed: Command?, ghost cut: KeyCut)
      requires Valid() && starts[column] + lengths[column] <= |Text(doc.lines)|
      modifies this`starts, this`lengths, this`selection, doc`lines, doc`segs, doc`next, doc`events, doc`isModified, doc.manager
      ensures Valid() && |selection| == |old(selection)|
      ensures forall k :: 0 <= k < |selection| && k != column ==> selection[k] == old(selection)[k]
      ensures doc.manager.acceptsChanges == old(doc.manager.acceptsChanges) && doc.manager.maxUndoLevel == old(doc.manager.maxUndoLevel)
      ensures AfterRecord(doc.manager, old(doc.manager.undoList), old(doc.manager.redoStack), removed)
      ensures cut == old(KeySpan(doc.chars, doc.lines, starts[column], lengths[column], right, control))
      ensures var t := old(Text(doc.lines));
        var inside := old(|doc.lines|) > 0 && 0 <= cut.at && cut.at + cut.length <= |t|;
        && Text(doc.lines) == (if inside then Excise(t, cut.at, cut.length) else t)
        && (removed != null <==> inside && old(doc.manager.acceptsChanges))
        && (removed != null ==> removed.edit == Removed(if cut.length > 0 then t[cut.at..cut.at + cut.length] else t[cut.at..], cut.at))
        && lengths == old(lengths)[column := 0]
        && starts == old(starts)[column := if cut.at < 0 then 0 else cut.at]
      ensures removed != null && cut.length > 0 ==>
        UndoAdmits(Text(doc.lines), removed.edit) && UndoText(Text(doc.lines), removed.edit) == old(Text(doc.lines))
    {
      var l := lengths[column];
      var c := KeyCutAt(right, control);
      cut := c;
      removed := RemoveByKey(c, l == 0 && !right);
    }

    /** The stretch OnKeyDownRemove takes out, as it reads it off the selection and the text. */
    method KeyCutAt(right: bool, control: bool) returns (cut: KeyCut)
      requires Valid() && starts[column] + lengths[column] <= |Text(doc.lines)|
      ensures cut == KeySpan(doc.chars, doc.lines, starts[column], lengths[column], right, control)
    {
      var s, l := starts[column], lengths[column];
      if l > 0 {
        return KeyCut(s, l);
      }
      var n := 1;
      if control {
        n := GetLengthByLargeStep(s, right);
      }
      cut := if right then KeyCut(s, n) else KeyCut(s - n, n);
    }

    /**
     * The removal of a key's stretch, then (for Backspace) the caret moved to
     * where it starts, and the selection length set to 0.
     */
    method RemoveByKey(cut: KeyCut, moveCaret: bool) returns (removed: Command?)
      requires Valid() && cut.at >= -1 && cut.length >= 0
      requires cut.at + cut.length <= |Text(doc.lines)| || cut.at == |Text(doc.lines)|
      requires moveCaret ==> cut.at + cut.length <= |Text(doc.lines)|
      requires !moveCaret ==> cut.at == starts[column]
      modifies this`starts, this`lengths, this`selection, doc`lines, doc`segs, doc`next, doc`events, doc`isModified, doc.manager
      ensures Valid() && |selection| == |old(selection)|
      ensures forall k :: 0 <= k < |selection| && k != column ==> selection[k] == old(selection)[k]
      ensures doc.manager.acceptsChanges == old(doc.manager.acceptsChanges) && doc.manager.maxUndoLevel == old(doc.manager.maxUndoLevel)
      ensures AfterRecord(doc.manager, old(doc.manager.undoList), old(doc.manager.redoStack), removed)
      ensures var t := old(Text(doc.lines));
        var inside := old(|doc.lines|) > 0 && 0 <= cut.at && cut.at + cut.length <= |t|;
        && Text(doc.lines) == (if inside then Excise(t, cut.at, cut.length) else t)
        && (removed != null <==> inside && old(doc.manager.acceptsChanges))
        && (removed != null ==> removed.edit == Removed(if cut.length > 0 then t[cut.at..cut.at + cut.length] else t[cut.at..], cut.at))
        && lengths == old(lengths)[column := 0]
        && starts == old(starts)[column := if cut.at < 0 then 0 else cut.at]
      ensures removed != null && cut.length > 0 ==>
        UndoAdmits(Text(doc.lines), removed.edit) && UndoText(Text(doc.lines), removed.edit) == old(Text(doc.lines))
    {
      removed := TextRemove(cut.at, cut.length);
      CollapseAfterRemoval(cut.at, moveCaret);
    }

    /** After a key's removal: for Backspace the caret moved to at (clamped to the text), then the selection length set to 0. */
    method CollapseAfterRemoval(at: int, moveCaret: bool)
      requires Valid() && at >= -1
      requires moveCaret ==> at <= |Text(doc.lines)|
      requires !moveCaret ==> at == starts[column]
      modifies this`starts, this`lengths, this`selection, doc`segs, doc`next
      ensures Valid() && |selection| == |old(selection)|
      ensures forall k :: 0 <= k < |selection| && k != column ==> selection[k] == old(selection)[k]
      ensures lengths == old(lengths)[column := 0]
      ensures starts == old(starts)[column := if at < 0 then 0 else at]
    {
      if moveCaret {
        LengthOfText(doc.lines);
        MoveStart(at, ByKeyboard, column);
      } else {
        assert starts[column := at] == starts;
      }
      SetSelectionLength(0);
    }

    /**
     * OnKeyDownRemove with an empty span skipped: Control with Backspace at
     * the start of the text (or Delete at its end) takes out nothing and
     * records nothing, so that every removal it records is undone into the
     * text before the key.
     */
    method OnKeyDownRemoveCorrected(right: bool, control: bool) returns (removed: Command?, ghost cut: KeyCut)
      requires Valid() && starts[column] + lengths[column] <= |Text(doc.lines)|
      modifies this`starts, this`lengths, this`selection, doc`lines, doc`segs, doc`next, doc`events, doc`isModified, doc.manager
      ensures Valid() && |selection| == |old(selection)|
      ensures forall k :: 0 <= k < |selection| && k != column ==> selection[k] == old(selection)[k]
      ensures doc.manager.acceptsChanges == old(doc.manager.acceptsChanges) && doc.manager.maxUndoLevel == old(doc.manager.maxUndoLevel)
      ensures AfterRecord(doc.manager, old(doc.manager.undoList), old(doc.manager.redoStack), removed)
      ensures cut == old(KeySpan(doc.chars, doc.lines, starts[column], lengths[column], right, control))
      ensures var t := old(Text(doc.lines));
        var inside := old(|doc.lines|) > 0 && 0 <= cut.at && cut.at + cut.length <= |t| && cut.length > 0;
        && Text(doc.lines) == (if inside then Excise(t, cut.at, cut.length) else t)
        && (removed != null <==> inside && old(doc.manager.acceptsChanges))
        && lengths == old(lengths)[column := 0]
        && starts == old(starts)[column := if cut.at < 0 then 0 else cut.at]
      ensures removed != null ==> UndoAdmits(Text(doc.lines), removed.edit) && UndoText(Text(doc.lines), removed.edit) == old(Text(doc.lines))
    {
      var c := KeyCutAt(right, control);
      if c.length == 0 {
        assert lengths[column := 0] == lengths && starts[column := c.at] == starts;
        return null, c;
      }
      removed, cut := OnKeyDownRemove(right, control);
    }

    /**
     * OnKeyDownEnter: a line break goes in at the start, and the line it
     * ends is run through the line filter. When the filter keeps the line,
     * the caret moves after the break. When it changes the line, the line is
     * taken out and the filtered text put in its place; the line break is
     * redo-paired, the removal undo- and redo-paired and the insert
     * undo-paired, so that the three undo and redo as one; and the caret
     * moves after the break, shifted by the change in the line's length,
     * unless that lands on the old start. Setting the pair flags throws when
     * the document recorded no line break (it does not accept changes) or no
     * insert (the filtered line is empty); the caret then stays.
     */
    method OnKeyDownEnter(filter: string -> string)
      returns (linebreak: Command?, removed: Command?, inserted: Command?, thrown: bool, ghost lineStart: int, ghost original: string)
      requires Valid() && starts[column] <= |Text(doc.lines)|
      modifies this`starts, this`selection, doc`lines, doc`segs, doc`next, doc`events, doc`isModified, doc.manager
      ensures Valid() && lengths == old(lengths) && |selection| == |old(selection)|
      ensures forall k :: 0 <= k < |selection| && k != column ==> selection[k] == old(selection)[k]
      ensures doc.manager.acceptsChanges == old(doc.manager.acceptsChanges) && doc.manager.maxUndoLevel == old(doc.manager.maxUndoLevel)
      ensures EnterDone(old(Text(doc.lines)), old(starts[column]), filter, old(doc.manager.acceptsChanges), Text(doc.lines),
        linebreak, removed, inserted, thrown, lineStart, original)
      ensures linebreak != null ==> !linebreak.undoPair && linebreak.redoPair == (filter(original) != original)
      ensures removed != null ==> removed.undoPair && removed.redoPair
      ensures inserted != null ==> inserted.undoPair && !inserted.redoPair
      ensures starts == EnterCaret(old(starts), column, old(starts[column]), filter(original), original, filter(original) != original, thrown, |Text(doc.lines)|)
      ensures var u0, r0, max := old(doc.manager.undoList), old(doc.manager.redoStack), doc.manager.maxUndoLevel;
        && doc.manager.undoList == RecordedIf(RecordedIf(RecordedIf(u0, linebreak, max), removed, max), inserted, max)
        && doc.manager.redoStack == (if linebreak == null || max == 0 then r0 else [])
      ensures linebreak != null && inserted != null && |original| > 0 && doc.manager.maxUndoLevel >= 3 ==>
        var steps := UndoSteps(doc.manager.undoList);
        Chain(Undoing, Text(doc.lines), steps) && Run(steps) == 3 && Walked(Undoing, Text(doc.lines), steps, 3) == old(Text(doc.lines))
    {
      var s := starts[column];
      ghost var t, u0, r0 := Text(doc.lines), doc.manager.undoList, doc.manager.redoStack;
      linebreak := TextInsert(s, "\n");
      removed, inserted, thrown, lineStart, original := AfterBreak(filter, linebreak, s, t, u0, r0);
    }

    /** OnKeyDownEnter once the line break is in: the rest of the handler, stated against the text and lists before the break. */
    method AfterBreak(filter: string -> string, linebreak: Command?, s: int, ghost t: string, ghost u0: seq<Command>, ghost r0: seq<Command>)
      returns (removed: Command?, inserted: Command?, thrown: bool, ghost lineStart: int, ghost original: string)
      requires Valid() && 0 <= s <= |t| && starts[column] == s && Text(doc.lines) == Splice(t, s, "\n")
      requires linebreak != null <==> doc.manager.acceptsChanges
      requires linebreak != null ==> linebreak.edit == Added("\n", s) && !linebreak.undoPair && !linebreak.redoPair
      requires doc.manager.undoList == RecordedIf(u0, linebreak, doc.manager.maxUndoLevel)
      requires doc.manager.redoStack == (if linebreak == null || doc.manager.maxUndoLevel == 0 then r0 else [])
      modifies this`starts, this`selection, doc`lines, doc`segs, doc`next, doc`events, doc`isModified, doc.manager, linebreak
      ensures Valid() && lengths == old(lengths) && |selection| == |old(selection)|
      ensures forall k :: 0 <= k < |selection| && k != column ==> selection[k] == old(selection)[k]
      ensures doc.manager.acceptsChanges == old(doc.manager.acceptsChanges) && doc.manager.maxUndoLevel == old(doc.manager.maxUndoLevel)
      ensures EnterDone(t, s, filter, doc.manager.acceptsChanges, Text(doc.lines), linebreak, removed, inserted, thrown, lineStart, original)
      ensures linebreak != null ==> !linebreak.undoPair && linebreak.redoPair == (filter(original) != original)
      ensures removed != null ==> removed.undoPair && removed.redoPair
      ensures inserted != null ==> inserted.undoPair && !inserted.redoPair
      ensures starts == EnterCaret(old(starts), column, s, filter(original), original, filter(original) != original, thrown, |Text(doc.lines)|)
      ensures var max := doc.manager.maxUndoLevel;
        && doc.manager.undoList == RecordedIf(RecordedIf(RecordedIf(u0, linebreak, max), removed, max), inserted, max)
        && doc.manager.redoStack == (if linebreak == null || max == 0 then r0 else [])
      ensures linebreak != null && inserted != null && |original| > 0 && doc.manager.maxUndoLevel >= 3 ==>
        var steps := UndoSteps(doc.manager.undoList);
        Chain(Undoing, Text(doc.lines), steps) && Run(steps) == 3 && Walked(Undoing, Text(doc.lines), steps, 3) == t
    {
      var ls, text := AcceptedLine(s);
      lineStart, original := ls, text;
      if filter(text) == text {
        removed, inserted, thrown := KeptLine(filter, linebreak, s, ls, text, t, u0, r0);
      } else {
        removed, inserted, thrown := ChangedLine(filter, linebreak, s, ls, text, t, u0, r0);
      }
    }

    /** AfterBreak when the filter kept the line: only the caret moves past the break. */
    method KeptLine(filter: string -> string, linebreak: Command?, s: int, lineStart: int, original: string,
                    ghost t: string, ghost u0: seq<Command>, ghost r0: seq<Command>)
      returns (removed: Command?, inserted: Command?, thrown: bool)
      requires Valid() && 0 <= s <= |t| && starts[column] == s && Text(doc.lines) == Splice(t, s, "\n")
      requires Shows(Text(doc.lines), lineStart, original) && lineStart <= s <= lineStart + |original|
      requires filter(original) == original
      requires linebreak != null <==> doc.manager.acceptsChanges
      requires linebreak != null ==> linebreak.edit == Added("\n", s) && !linebreak.undoPair && !linebreak.redoPair
      requires doc.manager.undoList == RecordedIf(u0, linebreak, doc.manager.maxUndoLevel)
      requires doc.manager.redoStack == (if linebreak == null || doc.manager.maxUndoLevel == 0 then r0 else [])
      modifies this`starts, this`selection, doc`segs, doc`next
      ensures Valid() && lengths == old(lengths) && |selection| == |old(selection)|
      ensures forall k :: 0 <= k < |selection| && k != column ==> selection[k] == old(selection)[k]
      ensures removed == null && inserted == null && !thrown
      ensures EnterDone(t, s, filter, doc.manager.acceptsChanges, Text(doc.lines), linebreak, removed, inserted, thrown, lineStart, original)
      ensures starts == old(starts)[column := s + 1]
      ensures doc.manager.undoList == old(doc.manager.undoList) && doc.manager.redoStack == old(doc.manager.redoStack)
    {
      LengthOfText(doc.lines);
      assert Clamp(s + 1, TextLength(doc.lines)) == s + 1;
      MoveStart(s + 1, ByKeyboard, column);
      removed, inserted, thrown := null, null, false;
    }

    /** AfterBreak when the filter changed the line. */
    method ChangedLine(filter: string -> string, linebreak: Command?, s: int, lineStart: int, original: string,
                       ghost t: string, ghost u0: seq<Command>, ghost r0: seq<Command>)
      returns (removed: Command?, inserted: Command?, thrown: bool)
      requires Valid() && 0 <= s <= |t| && starts[column] == s && Text(doc.lines) == Splice(t, s, "\n")
      requires Shows(Text(doc.lines), lineStart, original) && lineStart <= s <= lineStart + |original|
      requires filter(original) != original
      requires linebreak != null <==> doc.manager.acceptsChanges
      requires linebreak != null ==> linebreak.edit == Added("\n", s) && !linebreak.undoPair && !linebreak.redoPair
      requires doc.manager.undoList == RecordedIf(u0, linebreak, doc.manager.maxUndoLevel)
      requires doc.manager.redoStack == (if linebreak == null || doc.manager.maxUndoLevel == 0 then r0 else [])
      modifies this`starts, this`selection, doc`lines, doc`segs, doc`next, doc`events, doc`isModified, doc.manager, linebreak
      ensures Valid() && lengths == old(lengths) && |selection| == |old(selection)|
      ensures forall k :: 0 <= k < |selection| && k != column ==> selection[k] == old(selection)[k]
      ensures doc.manager.acceptsChanges == old(doc.manager.acceptsChanges) && doc.manager.maxUndoLevel == old(doc.manager.maxUndoLevel)
      ensures EnterDone(t, s, filter, doc.manager.acceptsChanges, Text(doc.lines), linebreak, removed, inserted, thrown, lineStart, original)
      ensures linebreak != null ==> !linebreak.undoPair && linebreak.redoPair == (filter(original) != original)
      ensures removed != null ==> removed.undoPair && removed.redoPair
      ensures inserted != null ==> inserted.undoPair && !inserted.redoPair
      ensures starts == EnterCaret(old(starts), column, s, filter(original), original, true, thrown, |Text(doc.lines)|)
      ensures var max := doc.manager.maxUndoLevel;
        && doc.manager.undoList == RecordedIf(RecordedIf(RecordedIf(u0, linebreak, max), removed, max), inserted, max)
        && doc.manager.redoStack == (if linebreak == null || max == 0 then r0 else [])
      ensures linebreak != null && inserted != null && |original| > 0 && doc.manager.maxUndoLevel >= 3 ==>
        var steps := UndoSteps(doc.manager.undoList);
        Chain(Undoing, Text(doc.lines), steps) && Run(steps) == 3 && Walked(Undoing, Text(doc.lines), steps, 3) == t
    {
      var filtered := filter(original);
      removed, inserted, thrown := FilterLine(linebreak, s, lineStart, original, filtered);
      if linebreak != null && inserted != null && |original| > 0 && doc.manager.maxUndoLevel >= 3 {
        ghost var r := doc.manager.undoList;
        ghost var steps := UndoSteps(r);
        assert Chain(Undoing, Text(doc.lines), steps) && Run(steps) == 3 && Walked(Undoing, Text(doc.lines), steps, 3) == t by {
          LastThreeRecorded(u0, linebreak, removed, inserted, doc.manager.maxUndoLevel);
          assert r[|r| - 3] == linebreak && r[|r| - 2] == removed && r[|r| - 1] == inserted;
          EnterRecordUndoesAsOne(r, t, s, lineStart, original, filtered);
        }
      }
    }

    /**
     * The line holding s, as GetLineFromCharIndex finds it: where it starts
     * and its text (GetLineText), which the text shows there around s.
     */
    method AcceptedLine(s: int) returns (lineStart: int, original: string)
      requires Valid() && 0 <= s < |Text(doc.lines)|
      ensures Shows(Text(doc.lines), lineStart, original) && lineStart <= s <= lineStart + |original|
    {
      LengthOfText(doc.lines);
      var lineIndex := GetLineFromCharIndex(doc.lines, s);
      LineLookup(doc.lines, s);
      LineInFlow(doc.lines, lineIndex);
      TextLengthIsLength(doc.lines);
      original := Txt(doc.lines[lineIndex]);
      lineStart := FirstCharIndexFromLine(doc.lines, lineIndex);
    }

    /**
     * The rest of OnKeyDownEnter once the filter changed the line: the line
     * taken out and the filtered text put in, the pair flags set (throwing
     * at a missing command), and the caret moved.
     */
    method FilterLine(linebreak: Command?, s: int, lineStart: int, original: string, filtered: string)
      returns (removed: Command?, inserted: Command?, thrown: bool)
      requires Valid() && |Text(doc.lines)| > 0 && Shows(Text(doc.lines), lineStart, original) && starts[column] == s
      requires linebreak != null <==> doc.manager.acceptsChanges
      requires linebreak != null ==> !linebreak.undoPair && !linebreak.redoPair
      modifies this`starts, this`selection, doc`lines, doc`segs, doc`next, doc`events, doc`isModified, doc.manager, linebreak
      ensures Valid() && lengths == old(lengths) && |selection| == |old(selection)|
      ensures forall k :: 0 <= k < |selection| && k != column ==> selection[k] == old(selection)[k]
      ensures doc.manager.acceptsChanges == old(doc.manager.acceptsChanges) && doc.manager.maxUndoLevel == old(doc.manager.maxUndoLevel)
      ensures var t, accepts := old(Text(doc.lines)), old(doc.manager.acceptsChanges);
        && Text(doc.lines) == Splice(Excise(t, lineStart, |original|), lineStart, filtered)
        && (removed != null <==> accepts)
        && (inserted != null <==> accepts && |filtered| > 0)
        && thrown == (!accepts || |filtered| == 0)
        && (linebreak != null ==> !linebreak.undoPair && linebreak.redoPair)
        && (removed != null ==>
              && removed.edit == Removed(if |original| > 0 then original else t[lineStart..], lineStart)
              && removed.undoPair && removed.redoPair && removed != linebreak)
        && (inserted != null ==> inserted.edit == Added(filtered, lineStart) && inserted.undoPair && !inserted.redoPair && inserted != linebreak)
        && starts == EnterCaret(old(starts), column, s, filtered, original, true, thrown, |Text(doc.lines)|)
      ensures var u0, r0, max := old(doc.manager.undoList), old(doc.manager.redoStack), doc.manager.maxUndoLevel;
        && doc.manager.undoList == RecordedIf(RecordedIf(u0, removed, max), inserted, max)
        && doc.manager.redoStack == (if removed == null || max == 0 then r0 else [])
    {
      removed, inserted := ReplaceLine(lineStart, original, filtered);
      thrown := PairEnter(linebreak, removed, inserted);
      MoveAfterEnter(s, filtered, original, thrown);
    }

    /**
     * The pair flags OnKeyDownEnter sets, in its order: the line break's redo
     * flag, the removal's redo and undo flags, the insert's undo flag; a
     * missing command throws at its first flag.
     */
    static method PairEnter(linebreak: Command?, removed: Command?, inserted: Command?) returns (thrown: bool)
      requires linebreak != null ==> removed != null && removed != linebreak && (inserted != null ==> inserted != linebreak && inserted != removed)
      modifies linebreak, removed, inserted
      ensures thrown == (linebreak == null || inserted == null)
      ensures linebreak != null ==>
        && linebreak.undoPair == old(linebreak.undoPair) && linebreak.redoPair
        && removed.undoPair && removed.redoPair
      ensures linebreak != null && inserted != null ==> inserted.undoPair && inserted.redoPair == old(inserted.redoPair)
    {
      if linebreak == null {
        return true;
      }
      linebreak.redoPair := true;
      removed.redoPair := true;
      removed.undoPair := true;
      if inserted == null {
        return true;
      }
      inserted.undoPair := true;
      thrown := false;
    }

    /** The caret after a changed line, unless setting the pair flags threw: shifted by the change in the line's length, after the break. */
    method MoveAfterEnter(s: int, filtered: string, original: string, thrown: bool)
      requires Valid() && starts[column] == s
      modifies this`starts, this`selection, doc`next, doc`segs
      ensures Valid() && lengths == old(lengths) && |selection| == |old(selection)|
      ensures forall k :: 0 <= k < |selection| && k != column ==> selection[k] == old(selection)[k]
      ensures starts == EnterCaret(old(starts), column, s, filtered, original, true, thrown, |Text(doc.lines)|)
    {
      var caret := s + |filtered| - |original| + 1;
      if !thrown && caret != s {
        LengthOfText(doc.lines);
        MoveStart(caret, ByKeyboard, column);
      }
    }

    /** The filtered line put in place of the original one: a removal of the line, then an insert of the filtered text. */
    method ReplaceLine(lineStart: int, original: string, filtered: string) returns (removed: Command?, inserted: Command?)
      requires Valid() && |Text(doc.lines)| > 0 && Shows(Text(doc.lines), lineStart, original)
      modifies doc`lines, doc`segs, doc`next, doc`events, doc`isModified, doc.manager
      ensures Valid()
      ensures doc.manager.acceptsChanges == old(doc.manager.acceptsChanges) && doc.manager.maxUndoLevel == old(doc.manager.maxUndoLevel)
      ensures var t, accepts := old(Text(doc.lines)), old(doc.manager.acceptsChanges);
        && Text(doc.lines) == Splice(Excise(t, lineStart, |original|), lineStart, filtered)
        && (removed != null <==> accepts)
        && (inserted != null <==> accepts && |filtered| > 0)
        && (removed != null ==> fresh(removed) && removed.edit == Removed(if |original| > 0 then original else t[lineStart..], lineStart))
        && (removed != null ==> !removed.undoPair && !removed.redoPair)
        && (inserted != null ==> fresh(inserted) && inserted.edit == Added(filtered, lineStart) && !inserted.undoPair && !inserted.redoPair)
        && (removed != null && inserted != null ==> removed != inserted)
      ensures var u0, r0, max := old(doc.manager.undoList), old(doc.manager.redoStack), doc.manager.maxUndoLevel;
        && doc.manager.undoList == RecordedIf(RecordedIf(u0, removed, max), inserted, max)
        && doc.manager.redoStack == (if removed == null || max == 0 then r0 else [])
    {
      ghost var t, u0, max := Text(doc.lines), doc.manager.undoList, doc.manager.maxUndoLevel;
      assert |doc.lines| > 0;
      removed := TextRemove(lineStart, |original|);
      assert Text(doc.lines) == Excise(t, lineStart, |original|);
      assert doc.manager.undoList == RecordedIf(u0, removed, max);
      inserted := TextInsert(lineStart, filtered);
    }

    /**
     * UpdateLineOverflow: a line in the table leaves it when narrower than
     * the client area and otherwise takes the width; a line not in it enters
     * only when wider.
     */
    method UpdateLineOverflow(line: LineRef, width: int, clientWidth: int)
      modifies this`overflow
      ensures line in old(overflow) && width < clientWidth ==> overflow == old(overflow) - {line}
      ensures line in old(overflow) && width >= clientWidth ==> overflow == old(overflow)[line := width]
      ensures line !in old(overflow) && width > clientWidth ==> overflow == old(overflow)[line := width]
      ensures line !in old(overflow) && width <= clientWidth ==> overflow == old(overflow)
      ensures (forall l :: l in old(overflow) ==> old(overflow)[l] >= clientWidth) ==>
        forall l :: l in overflow ==> overflow[l] >= clientWidth
    {
      if line in overflow {
        if width < clientWidth {
          overflow := overflow - {line};
        } else {
          overflow := overflow[line := width];
        }
      } else if width > clientWidth {
        overflow := overflow[line := width];
      }
    }

    /** LongestLineWidth: the widest entry of the table, or 0 when there is none or none is positive. */
    method LongestLineWidth() returns (r: int)
      ensures r >= 0
      ensures forall l :: l in overflow ==> overflow[l] <= r
      ensures r == 0 || exists l :: l in overflow && overflow[l] == r
    {
      r := 0;
      var rest := overflow.Keys;
      while rest != {}
        invariant rest <= overflow.Keys && r >= 0
        invariant forall l :: l in overflow && l !in rest ==> overflow[l] <= r
        invariant r == 0 || exists l :: l in overflow && overflow[l] == r
        decreases |rest|
      {
        var l :| l in rest;
        if overflow[l] > r {
          r := overflow[l];
        }
        rest := rest - {l};
      }
    }

    /**
     * One sidecar record placed: a new anchor of the record's style, its
     * index made relative to the start of the line holding the record's
     * global index, its length and object set, attached to that line. The
     * lookup fails (the reading throws) for the index -1 or an empty
     * document, after the anchor was created.
     */
    method PlaceRecord(rec: Record) returns (ok: bool, a: Anchor)
      requires Valid()
      modifies doc`next, doc`segs
      ensures Valid() && doc.next == old(doc.next) + 1
      ensures ok <==> rec.index != -1 && |doc.lines| > 0
      ensures !ok ==> doc.segs == old(doc.segs)
      ensures ok ==>
        var k := LineFromCharIndex(doc.lines, rec.index);
        && 0 <= k < |doc.lines|
        && a == RecordAnchor(rec, old(doc.next), styleOf(rec.key), doc.lines[k].index)
        && doc.segs == AddManual(doc.lines, old(doc.segs), a, rec.index)
        && a in doc.segs[k] && IndexGlobalOf(Placed(a, doc.lines[k].index)) == rec.index
    {
      a := doc.CreateStyledTextSegment(styleOf(rec.key));
      var lineIndex := LineFromCharIndex(doc.lines, rec.index);
      if lineIndex == -1 {
        if rec.index != -1 && |doc.lines| > 0 {
          LookupInRange(doc.lines, rec.index);
        }
        return false, a;
      }
      LookupInRange(doc.lines, rec.index);
      var lineStart := FirstCharIndexFromLine(doc.lines, lineIndex);
      a := RecordAnchor(rec, a.id, styleOf(rec.key), lineStart);
      AddManualPlacesAnchor(doc.lines, doc.segs, doc.next, a, rec.index, 0);
      doc.AddManualTextSegment(a, rec.index);
      ok := true;
    }

    /**
     * The sidecar reading of Open(path): each line parsed and placed in turn;
     * the first line that does not parse or whose index finds no line stops
     * the reading. placed records how many were placed before that.
     */
    method LoadSidecar(records: seq<string>) returns (placed: nat, failed: bool)
      requires Valid()
      modifies doc`next, doc`segs
      ensures Valid() && placed <= |records|
      ensures forall k :: 0 <= k < placed ==> Loadable(records[k], |doc.lines|)
      ensures failed <==> placed < |records|
      ensures failed ==> !Loadable(records[placed], |doc.lines|)
      ensures doc.segs == PlacedSegs(doc.lines, old(doc.segs), old(doc.next), records, placed, styleOf)
      ensures doc.next == old(doc.next) + placed + (if failed && ParseRecord(records[placed]).Some? then 1 else 0)
    {
      ghost var lines0, segs0, next0 := doc.lines, doc.segs, doc.next;
      placed, failed := 0, false;
      while placed < |records|
        invariant Loaded(records, placed, lines0, segs0, next0)
      {
        var ok := LoadRecord(records, placed, lines0, segs0, next0);
        if !ok {
          return placed, true;
        }
        placed := placed + 1;
      }
    }

    /**
     * The reading state after the first n records: all of them loadable and
     * placed in order, one identity used by each.
     */
    ghost predicate Loaded(records: seq<string>, n: nat, lines0: seq<Line>, segs0: Segs, next0: nat)
      reads this, doc, doc.manager
    {
      && Valid() && n <= |records| && doc.lines == lines0 && |segs0| == |lines0|
      && (forall k :: 0 <= k < n ==> Loadable(records[k], |lines0|))
      && doc.segs == PlacedSegs(lines0, segs0, next0, records, n, styleOf)
      && doc.next == next0 + n
    }

    /** One turn of the sidecar reading: record n parsed and placed, or the reading stopped. */
    method LoadRecord(records: seq<string>, n: nat, ghost lines0: seq<Line>, ghost segs0: Segs, ghost next0: nat) returns (ok: bool)
      requires Loaded(records, n, lines0, segs0, next0) && n < |records|
      modifies doc`next, doc`segs
      ensures ok ==> Loaded(records, n + 1, lines0, segs0, next0)
      ensures !ok ==>
        && Valid() && doc.lines == lines0 && !Loadable(records[n], |lines0|)
        && doc.segs == old(doc.segs) && doc.next == old(doc.next) + (if ParseRecord(records[n]).Some? then 1 else 0)
    {
      var rec := ParseRecord(records[n]);
      if rec.None? {
        return false;
      }
      ghost var before := doc.segs;
      var a;
      ok, a := PlaceRecord(rec.value);
      if ok {
        assert Loadable(records[n], |lines0|);
        LoadedStep(lines0, segs0, next0, records, n, styleOf, before, a, doc.segs);
        LoadableExtends(records, n, |lines0|);
      }
    }
  }
}
