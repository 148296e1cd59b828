/**
 * Undo and Redo (UndoRedoManager.Undo and Redo) with the replay of each
 * command on its document: an added text is taken out again and put back,
 * a removed text put back and taken out again, a line note set back and
 * forth. A replay runs with AcceptsChanges off, so the document records
 * nothing, and turns it on afterwards without restoring the value it had.
 * The manager here is the document's own, and every command replays on
 * that document.
 */
module History {
  import opened TextLines
  import opened LineStore
  import opened LineEdits
  import opened UndoRedo
  import opened Document
  import opened Seqs
  import opened Wrappers

  // ---------------------------------------------------------------------------
  // What a replay does to the text
  // ---------------------------------------------------------------------------

  /** The undo of e can run on text: an added span lies in it, a removed text's start lies in it; a note always can. */
  predicate UndoAdmits(text: string, e: Edit)
  {
    match e
    case Added(t, s) => 0 <= s && s + |t| <= |text|
    case Removed(_, s) => 0 <= s <= |text|
    case NoteEdit(_, _, _) => true
  }

  /** The text after the undo of e: the added span taken out, the removed text put back, a note edit leaving it. */
  function UndoText(text: string, e: Edit): string
    requires UndoAdmits(text, e)
  {
    match e
    case Added(t, s) => Excise(text, s, |t|)
    case Removed(r, s) => Splice(text, s, r)
    case NoteEdit(_, _, _) => text
  }

  /** The redo of e can run on text: an added text's start lies in it, a removed span lies in it. */
  predicate RedoAdmits(text: string, e: Edit)
  {
    match e
    case Added(_, s) => 0 <= s <= |text|
    case Removed(r, s) => 0 <= s && s + |r| <= |text|
    case NoteEdit(_, _, _) => true
  }

  /** The text after the redo of e: the added text put in again, the removed span taken out again. */
  function RedoText(text: string, e: Edit): string
    requires RedoAdmits(text, e)
  {
    match e
    case Added(t, s) => Splice(text, s, t)
    case Removed(r, s) => Excise(text, s, |r|)
    case NoteEdit(_, _, _) => text
  }

  /** The span at s holds exactly t. */
  predicate Shows(text: string, s: int, t: string)
  {
    0 <= s && s + |t| <= |text| && text[s..s + |t|] == t
  }

  /** text is as e left it: the added text is in place; a removal's start lies in the text. */
  predicate Done(text: string, e: Edit)
  {
    match e
    case Added(t, s) => Shows(text, s, t)
    case Removed(_, s) => 0 <= s <= |text|
    case NoteEdit(_, _, _) => true
  }

  /** text is as it was before e: an add's start lies in the text; the removed text is still in place. */
  predicate Before(text: string, e: Edit)
  {
    match e
    case Added(_, s) => 0 <= s <= |text|
    case Removed(r, s) => Shows(text, s, r)
    case NoteEdit(_, _, _) => true
  }

  /** Undoing an edit the text shows returns the text to before it, and redoing it then gives the text back. */
  lemma UndoThenRedo(text: string, e: Edit)
    requires Done(text, e)
    ensures UndoAdmits(text, e) && Before(UndoText(text, e), e)
    ensures RedoAdmits(UndoText(text, e), e) && RedoText(UndoText(text, e), e) == text
  {
    match e
    case Added(t, s) =>
      SpliceExcise(text, s, |t|);
    case Removed(r, s) =>
      ExciseSplice(text, s, r);
    case NoteEdit(_, _, _) =>
  }

  /** Redoing an edit on the text before it leaves the text as the edit did, and undoing it then gives the text back. */
  lemma RedoThenUndo(text: string, e: Edit)
    requires Before(text, e)
    ensures RedoAdmits(text, e) && Done(RedoText(text, e), e)
    ensures UndoAdmits(RedoText(text, e), e) && UndoText(RedoText(text, e), e) == text
  {
    match e
    case Added(t, s) =>
      ExciseSplice(text, s, t);
    case Removed(r, s) =>
      SpliceExcise(text, s, |r|);
    case NoteEdit(_, _, _) =>
  }

  /** What TextInsert records can be undone, and the undo gives the text before the insert. */
  lemma InsertRecordsItsUndo(text: string, start: int, t: string)
    requires 0 <= start <= |text|
    ensures Done(Splice(text, start, t), Added(t, start))
    ensures UndoText(Splice(text, start, t), Added(t, start)) == text
  {
    ExciseSplice(text, start, t);
  }

  /**
   * What TextRemove records for a span of positive length inside the text
   * can be undone, and the undo gives the text before the removal.
   */
  lemma RemoveRecordsItsUndo(lines: seq<Line>, start: int, length: int)
    requires LineStarts(lines) && 0 <= start && 0 < length && start + length <= |Text(lines)|
    ensures var e := Removed(TextGetValue(lines, start, length), start);
      && Done(Excise(Text(lines), start, length), e)
      && UndoText(Excise(Text(lines), start, length), e) == Text(lines)
  {
    TextGetReadsSpan(lines, start, length);
    SpliceExcise(Text(lines), start, length);
  }

  /**
   * TextRemove with length 0 records the rest of the text from start
   * (TextGet reads to the end for a count of 0), so undoing it puts a second
   * copy of that rest in.
   */
  lemma RemoveOfNothingUndoesIntoCopy(lines: seq<Line>, start: int)
    requires LineStarts(lines) && 0 <= start <= |Text(lines)|
    ensures var text := Text(lines);
      var e := Removed(TextGetValue(lines, start, 0), start);
      && Excise(text, start, 0) == text
      && UndoText(Excise(text, start, 0), e) == text + text[start..]
  {
    var text := Text(lines);
    TextGetReadsSpan(lines, start, 0);
    ExciseIs(text, start, 0);
    SpliceIs(text, start, text[start..]);
    assert text[..start] + text[start..] == text;
  }

  // ---------------------------------------------------------------------------
  // Line notes (UndoRedoColumnNoteEdit)
  // ---------------------------------------------------------------------------

  const NoteKey := "Note"

  /** Do on a line's metadata: an empty text removes the note, any other text sets it. */
  function WithNote(md: map<string, string>, text: string): (r: map<string, string>)
    ensures text == "" ==> NoteKey !in r
    ensures text != "" ==> NoteKey in r && r[NoteKey] == text
    ensures forall k :: k != NoteKey ==> (k in r <==> k in md) && (k in r ==> r[k] == md[k])
  {
    if text == "" then md - {NoteKey} else md[NoteKey := text]
  }

  /** The note a click offers to edit: the stored one, or "" when there is none. */
  function NoteOf(md: map<string, string>): string
  {
    if NoteKey in md then md[NoteKey] else ""
  }

  /** A stored note is never empty. */
  predicate NoteStored(md: map<string, string>)
  {
    NoteKey in md ==> md[NoteKey] != ""
  }

  /** After Do the note reads as the text, and setting the note read before gives the metadata back. */
  lemma NoteRedoThenUndo(md: map<string, string>, text: string)
    requires NoteStored(md)
    ensures NoteOf(WithNote(md, text)) == text && NoteStored(WithNote(md, text))
    ensures WithNote(WithNote(md, text), NoteOf(md)) == md
  {
    var back := WithNote(WithNote(md, text), NoteOf(md));
    assert forall k :: k in back <==> k in md;
  }

  /** A line's metadata is not part of the text or the line starts. */
  lemma MetadataIsInvisible(lines: seq<Line>, li: int, md: map<string, string>)
    requires 0 <= li < |lines|
    ensures var after := lines[li := lines[li].(metadata := md)];
      && Text(after) == Text(lines)
      && (LineStarts(lines) ==> LineStarts(after))
  {
    var after := lines[li := lines[li].(metadata := md)];
    FlowReadsTexts(after, lines);
    assert forall k :: 0 <= k < |lines| - 1 && StepAt(lines, k) ==> StepAt(after, k);
  }

  /**
   * UndoRedoColumnNoteEdit.Do: with AcceptsChanges off, the line's note is
   * set to the text, or removed for an empty text; AcceptsChanges goes back
   * on. A line index past the lines throws on the lookup and leaves
   * AcceptsChanges off.
   */
  method NoteDo(doc: TextDocument, lineIndex: nat, text: string) returns (thrown: bool)
    requires doc.Valid() && doc.manager != null
    modifies doc`lines, doc.manager
    ensures doc.Valid()
    ensures Unrecorded(doc.manager, old(doc.manager.undoList), old(doc.manager.redoStack), old(doc.manager.maxUndoLevel))
    ensures thrown <==> lineIndex >= |old(doc.lines)|
    ensures doc.manager.acceptsChanges == !thrown
    ensures thrown ==> doc.lines == old(doc.lines)
    ensures !thrown ==>
      var l := old(doc.lines)[lineIndex];
      doc.lines == old(doc.lines)[lineIndex := l.(metadata := WithNote(l.metadata, text))]
  {
    doc.manager.acceptsChanges := false;
    if lineIndex >= |doc.lines| {
      return true;
    }
    var line := doc.lines[lineIndex];
    doc.lines := doc.lines[lineIndex := line.(metadata := WithNote(line.metadata, text))];
    doc.manager.acceptsChanges := true;
    thrown := false;
  }

  /**
   * The recording part of TextColumnNotes.PerformMouseDown: a click on a line
   * with no text in the column records nothing; otherwise, unless the input
   * was cancelled (None), a note command from the stored note to the input
   * is added to the history, whatever AcceptsChanges says, and redone.
   */
  method NoteMouseDown(doc: TextDocument, lineIndex: nat, column: nat, input: Option<string>) returns (cmd: Command?)
    requires doc.Valid() && doc.manager != null && lineIndex < |doc.lines|
    modifies doc`lines, doc.manager
    ensures doc.Valid()
    ensures (LineText(old(doc.lines)[lineIndex], column) == "" || input.None?) <==> cmd == null
    ensures cmd == null ==>
      && doc.lines == old(doc.lines)
      && doc.manager.undoList == old(doc.manager.undoList)
      && doc.manager.redoStack == old(doc.manager.redoStack)
      && doc.manager.acceptsChanges == old(doc.manager.acceptsChanges)
    ensures cmd != null ==>
      var l := old(doc.lines)[lineIndex];
      && fresh(cmd) && cmd.edit == NoteEdit(lineIndex, NoteOf(l.metadata), input.value)
      && doc.lines == old(doc.lines)[lineIndex := l.(metadata := WithNote(l.metadata, input.value))]
      && AfterRecord(doc.manager, old(doc.manager.undoList), old(doc.manager.redoStack), cmd)
      && doc.manager.acceptsChanges
  {
    var line := doc.lines[lineIndex];
    if LineText(line, column) == "" || input.None? {
      return null;
    }
    cmd := new Command(NoteEdit(lineIndex, NoteOf(line.metadata), input.value));
    var _ := doc.manager.AddUndoCommand(cmd);
    var _ := NoteDo(doc, lineIndex, input.value);
  }

  // ---------------------------------------------------------------------------
  // Replaying one command
  // ---------------------------------------------------------------------------

  /** The manager's history and level as they were: a replay records nothing. */
  ghost predicate Unrecorded(m: UndoRedoManager, undo0: seq<Command>, redo0: seq<Command>, max0: int)
    reads m
  {
    m.undoList == undo0 && m.redoStack == redo0 && m.maxUndoLevel == max0
  }

  /** TextRemove of a span inside the text: nothing recorded while AcceptsChanges is off, the span taken out. */
  method RemoveSpan(doc: TextDocument, s: int, length: int)
    requires doc.Valid() && doc.manager != null && LineStarts(doc.lines) && !doc.manager.acceptsChanges
    requires 0 <= s && 0 <= length && s + length <= |Text(doc.lines)|
    modifies doc`lines, doc`segs, doc`next, doc`events, doc`isModified, doc.manager
    ensures doc.Valid() && LineStarts(doc.lines)
    ensures Unrecorded(doc.manager, old(doc.manager.undoList), old(doc.manager.redoStack), old(doc.manager.maxUndoLevel))
    ensures Text(doc.lines) == Excise(old(Text(doc.lines)), s, length)
  {
    LineLookup(doc.lines, s);
    TextLengthIsLength(doc.lines);
    if |doc.lines| > 0 {
      RemoveAdmits(doc.lines, s, length);
    }
    var _, _ := doc.TextRemove(s, length);
  }

  /** TextInsert at a start inside the text: nothing recorded while AcceptsChanges is off, the text put in. */
  method InsertAt(doc: TextDocument, s: int, t: string)
    requires doc.Valid() && doc.manager != null && LineStarts(doc.lines) && !doc.manager.acceptsChanges
    requires 0 <= s <= |Text(doc.lines)|
    modifies doc`lines, doc`segs, doc`next, doc`events, doc`isModified, doc.manager
    ensures doc.Valid() && LineStarts(doc.lines)
    ensures Unrecorded(doc.manager, old(doc.manager.undoList), old(doc.manager.redoStack), old(doc.manager.maxUndoLevel))
    ensures Text(doc.lines) == Splice(old(Text(doc.lines)), s, t)
  {
    TextLengthIsLength(doc.lines);
    var _ := doc.TextInsert(s, t);
  }

  /**
   * The Undo of one command (TextAddedUndoRedoCommand.Undo,
   * TextRemovedUndoRedoCommand.Undo, UndoRedoColumnNoteEdit.Undo): the
   * text goes as UndoText says, and only a note on a missing line throws.
   */
  method ReplayUndo(doc: TextDocument, e: Edit) returns (thrown: bool)
    requires doc.Valid() && doc.manager != null && LineStarts(doc.lines) && UndoAdmits(Text(doc.lines), e)
    modifies doc`lines, doc`segs, doc`next, doc`events, doc`isModified, doc.manager
    ensures doc.Valid() && LineStarts(doc.lines)
    ensures Unrecorded(doc.manager, old(doc.manager.undoList), old(doc.manager.redoStack), old(doc.manager.maxUndoLevel))
    ensures thrown <==> e.NoteEdit? && e.lineIndex >= |old(doc.lines)|
    ensures doc.manager.acceptsChanges == !thrown
    ensures Text(doc.lines) == UndoText(old(Text(doc.lines)), e)
    ensures e.NoteEdit? && !thrown ==>
      var l := old(doc.lines)[e.lineIndex];
      doc.lines == old(doc.lines)[e.lineIndex := l.(metadata := WithNote(l.metadata, e.previousText))]
  {
    match e
    case Added(t, s) =>
      doc.manager.acceptsChanges := false;
      RemoveSpan(doc, s, |t|);
      doc.manager.acceptsChanges := true;
      thrown := false;
    case Removed(r, s) =>
      doc.manager.acceptsChanges := false;
      InsertAt(doc, s, r);
      doc.manager.acceptsChanges := true;
      thrown := false;
    case NoteEdit(li, previous, _) =>
      if li < |doc.lines| {
        MetadataIsInvisible(doc.lines, li, WithNote(doc.lines[li].metadata, previous));
      }
      thrown := NoteDo(doc, li, previous);
  }

  /** The Redo of one command: the text goes as RedoText says, and only a note on a missing line throws. */
  method ReplayRedo(doc: TextDocument, e: Edit) returns (thrown: bool)
    requires doc.Valid() && doc.manager != null && LineStarts(doc.lines) && RedoAdmits(Text(doc.lines), e)
    modifies doc`lines, doc`segs, doc`next, doc`events, doc`isModified, doc.manager
    ensures doc.Valid() && LineStarts(doc.lines)
    ensures Unrecorded(doc.manager, old(doc.manager.undoList), old(doc.manager.redoStack), old(doc.manager.maxUndoLevel))
    ensures thrown <==> e.NoteEdit? && e.lineIndex >= |old(doc.lines)|
    ensures doc.manager.acceptsChanges == !thrown
    ensures Text(doc.lines) == RedoText(old(Text(doc.lines)), e)
    ensures e.NoteEdit? && !thrown ==>
      var l := old(doc.lines)[e.lineIndex];
      doc.lines == old(doc.lines)[e.lineIndex := l.(metadata := WithNote(l.metadata, e.newText))]
  {
    match e
    case Added(t, s) =>
      doc.manager.acceptsChanges := false;
      InsertAt(doc, s, t);
      doc.manager.acceptsChanges := true;
      thrown := false;
    case Removed(r, s) =>
      doc.manager.acceptsChanges := false;
      RemoveSpan(doc, s, |r|);
      doc.manager.acceptsChanges := true;
      thrown := false;
    case NoteEdit(li, _, newText) =>
      if li < |doc.lines| {
        MetadataIsInvisible(doc.lines, li, WithNote(doc.lines[li].metadata, newText));
      }
      thrown := NoteDo(doc, li, newText);
  }



  // ---------------------------------------------------------------------------
  // Undo and Redo with their pairs
  // ---------------------------------------------------------------------------

  /** Which way a walk through the history replays its commands. */
  datatype Walk = Undoing | Redoing

  /** A command of the history as a value: its edit and the pair flag the walk follows. */
  datatype Step = Step(edit: Edit, paired: bool)

  /** The undo list as values: each command's edit and its UndoPair. */
  ghost function UndoSteps(cmds: seq<Command>): (r: seq<Step>)
    reads cmds
    ensures |r| == |cmds|
    ensures |cmds| > 0 ==> r[|cmds| - 1] == Step(cmds[|cmds| - 1].edit, cmds[|cmds| - 1].undoPair)
    decreases |cmds|
  {
    if |cmds| == 0 then []
    else UndoSteps(cmds[..|cmds| - 1]) + [Step(cmds[|cmds| - 1].edit, cmds[|cmds| - 1].undoPair)]
  }

  /** The redo stack as values: each command's edit and its RedoPair. */
  ghost function RedoSteps(cmds: seq<Command>): (r: seq<Step>)
    reads cmds
    ensures |r| == |cmds|
    ensures |cmds| > 0 ==> r[|cmds| - 1] == Step(cmds[|cmds| - 1].edit, cmds[|cmds| - 1].redoPair)
    decreases |cmds|
  {
    if |cmds| == 0 then []
    else RedoSteps(cmds[..|cmds| - 1]) + [Step(cmds[|cmds| - 1].edit, cmds[|cmds| - 1].redoPair)]
  }

  /** Commands whose fields are as they were give the same steps. */
  twostate lemma StepsKept(cmds: seq<Command>)
    requires unchanged(cmds)
    ensures UndoSteps(cmds) == old(UndoSteps(cmds)) && RedoSteps(cmds) == old(RedoSteps(cmds))
  {
  }

  /** The replay of e can run on text in the walk's direction. */
  predicate Admits(w: Walk, text: string, e: Edit)
  {
    if w == Undoing then UndoAdmits(text, e) else RedoAdmits(text, e)
  }

  /** The text after the replay of e in the walk's direction. */
  function Replayed(w: Walk, text: string, e: Edit): string
    requires Admits(w, text, e)
  {
    if w == Undoing then UndoText(text, e) else RedoText(text, e)
  }

  /** How many commands one walk replays: the top one, and the next one down after each replayed one that is paired. */
  function Run(steps: seq<Step>): (n: nat)
    ensures n <= |steps| && (n == 0 <==> |steps| == 0)
    decreases |steps|
  {
    if |steps| == 0 then 0
    else if steps[|steps| - 1].paired then 1 + Run(steps[..|steps| - 1])
    else 1
  }

  /** Every command one walk replays can run on the text the replays before it leave. */
  predicate Chain(w: Walk, text: string, steps: seq<Step>)
    decreases |steps|
  {
    |steps| == 0 ||
    var e := steps[|steps| - 1].edit;
    Admits(w, text, e) && (steps[|steps| - 1].paired ==> Chain(w, Replayed(w, text, e), steps[..|steps| - 1]))
  }

  /** The text after the first k replays of one walk. */
  function Walked(w: Walk, text: string, steps: seq<Step>, k: nat): string
    requires Chain(w, text, steps) && k <= Run(steps)
    decreases k
  {
    if k == 0 then text
    else if k == 1 then Replayed(w, text, steps[|steps| - 1].edit)
    else Walked(w, Replayed(w, text, steps[|steps| - 1].edit), steps[..|steps| - 1], k - 1)
  }

  /**
   * What one walk did, as values: of the walked list src (its commands
   * cmds), popped commands left it; all of them reached dst, top first,
   * unless the last one threw; the text went from t0 through the first
   * popped replays to t1. A walk stops only at the end of its run or at a
   * throw.
   */
  predicate Outcome(w: Walk, src: seq<Command>, cmds: seq<Step>, dst: seq<Command>, t0: string,
                    popped: nat, thrown: bool, src1: seq<Command>, dst1: seq<Command>, t1: string)
  {
    && |cmds| == |src| && Chain(w, t0, cmds)
    && popped <= Run(cmds) && (thrown || popped == Run(cmds)) && (thrown ==> popped > 0)
    && src1 == src[..|src| - popped]
    && dst1 == dst + Reversed(src[|src| - popped + (if thrown then 1 else 0)..])
    && t1 == Walked(w, t0, cmds, popped)
  }

  /** A walk on an empty list does nothing. */
  lemma OutcomeOfNothing(w: Walk, dst: seq<Command>, t0: string)
    ensures Outcome(w, [], [], dst, t0, 0, false, [], dst, t0)
  {
    assert Reversed<Command>([]) == [];
  }

  /** A walk whose top command throws stops there; the command has left the list and reached nothing. */
  lemma OutcomeOfThrow(w: Walk, src: seq<Command>, cmds: seq<Step>, dst: seq<Command>, t0: string)
    requires |src| > 0 && |cmds| == |src| && Chain(w, t0, cmds)
    ensures Outcome(w, src, cmds, dst, t0, 1, true, src[..|src| - 1], dst, Replayed(w, t0, cmds[|cmds| - 1].edit))
  {
    assert src[|src| - 1 + 1..] == [];
    assert Reversed<Command>([]) == [];
  }

  /** A walk whose top command is not paired stops after it; the command has moved to dst. */
  lemma OutcomeOfOne(w: Walk, src: seq<Command>, cmds: seq<Step>, dst: seq<Command>, t0: string)
    requires |src| > 0 && |cmds| == |src| && Chain(w, t0, cmds) && !cmds[|cmds| - 1].paired
    ensures Outcome(w, src, cmds, dst, t0, 1, false, src[..|src| - 1], dst + [src[|src| - 1]],
                    Replayed(w, t0, cmds[|cmds| - 1].edit))
  {
    var last := src[|src| - 1..];
    assert last == [src[|src| - 1]];
    assert Reversed(last) == [src[|src| - 1]] + Reversed(last[..0]);
    assert last[..0] == [];
  }

  /**
   * A walk whose top command is paired goes on: the top command's move and
   * replay, then the walk of the rest, make up the walk of the whole list.
   */
  lemma {:induction false} OutcomeGoesOn(w: Walk, src: seq<Command>, cmds: seq<Step>, dst: seq<Command>, t0: string,
                                          more: nat, thrown: bool, src1: seq<Command>, dst1: seq<Command>, t1: string)
    requires |src| > 0 && |cmds| == |src| && Chain(w, t0, cmds) && cmds[|cmds| - 1].paired
    requires Outcome(w, src[..|src| - 1], cmds[..|cmds| - 1], dst + [src[|src| - 1]],
                     Replayed(w, t0, cmds[|cmds| - 1].edit), more, thrown, src1, dst1, t1)
    ensures Outcome(w, src, cmds, dst, t0, 1 + more, thrown, src1, dst1, t1)
  {
    var rest := src[..|src| - 1];
    var lo := |src| - (1 + more) + (if thrown then 1 else 0);
    var tail := src[lo..];
    assert tail[|tail| - 1] == src[|src| - 1];
    assert tail[..|tail| - 1] == rest[|rest| - more + (if thrown then 1 else 0)..];
    assert rest[..|rest| - more] == src[..|src| - (1 + more)];
  }

  /**
   * One step of Undo: the newest command is taken off the list and undone;
   * unless the replay threw, it is pushed on the redo stack.
   */
  method UndoStep(doc: TextDocument) returns (info: Command, thrown: bool)
    requires doc.Valid() && doc.manager != null && LineStarts(doc.lines) && |doc.manager.undoList| > 0
    requires UndoAdmits(Text(doc.lines), doc.manager.undoList[|doc.manager.undoList| - 1].edit)
    modifies doc`lines, doc`segs, doc`next, doc`events, doc`isModified, doc.manager
    ensures doc.Valid() && LineStarts(doc.lines)
    ensures var u := old(doc.manager.undoList);
      && info == u[|u| - 1]
      && doc.manager.undoList == u[..|u| - 1]
      && UndoSteps(doc.manager.undoList) == old(UndoSteps(doc.manager.undoList))[..|u| - 1]
      && doc.manager.redoStack == old(doc.manager.redoStack) + (if thrown then [] else [info])
      && Text(doc.lines) == UndoText(old(Text(doc.lines)), info.edit)
    ensures doc.manager.maxUndoLevel == old(doc.manager.maxUndoLevel)
    ensures doc.manager.acceptsChanges == !thrown
  {
    var m := doc.manager;
    ghost var u, t := m.undoList, Text(doc.lines);
    info := m.undoList[|m.undoList| - 1];
    var rest := m.undoList[..|m.undoList| - 1];
    assert UndoSteps(u)[..|u| - 1] == UndoSteps(rest);
    m.undoList := rest;
    thrown := ReplayUndo(doc, info.edit);
    assert m.undoList == rest && Text(doc.lines) == UndoText(t, info.edit);
    if !thrown {
      m.redoStack := m.redoStack + [info];
    }
    StepsKept(rest);
  }

  /**
   * UndoRedoManager.Undo: nothing on an empty list; otherwise the newest
   * command is taken off the list, undone and pushed on the redo stack, and
   * Undo runs again when it has UndoPair (Outcome says what that adds up
   * to). The history never outgrows the undo level.
   */
  method Undo(doc: TextDocument) returns (ghost popped: nat, thrown: bool)
    requires doc.Valid() && doc.manager != null && LineStarts(doc.lines)
    requires Chain(Undoing, Text(doc.lines), UndoSteps(doc.manager.undoList))
    modifies doc`lines, doc`segs, doc`next, doc`events, doc`isModified, doc.manager
    decreases |doc.manager.undoList|
    ensures doc.Valid() && LineStarts(doc.lines)
    ensures doc.manager.maxUndoLevel == old(doc.manager.maxUndoLevel)
    ensures Outcome(Undoing, old(doc.manager.undoList), old(UndoSteps(doc.manager.undoList)), old(doc.manager.redoStack),
                    old(Text(doc.lines)), popped, thrown, doc.manager.undoList, doc.manager.redoStack, Text(doc.lines))
    ensures popped == 0 ==> doc.manager.acceptsChanges == old(doc.manager.acceptsChanges)
    ensures popped > 0 ==> doc.manager.acceptsChanges == !thrown
  {
    ghost var u, r, t0 := doc.manager.undoList, doc.manager.redoStack, Text(doc.lines);
    ghost var steps := UndoSteps(u);
    if |doc.manager.undoList| == 0 {
      OutcomeOfNothing(Undoing, r, t0);
      return 0, false;
    }
    var info;
    info, thrown := UndoStep(doc);
    if thrown {
      OutcomeOfThrow(Undoing, u, steps, r, t0);
      return 1, true;
    }
    if info.undoPair {
      ghost var more;
      more, thrown := Undo(doc);
      popped := 1 + more;
      OutcomeGoesOn(Undoing, u, steps, r, t0, more, thrown, doc.manager.undoList, doc.manager.redoStack, Text(doc.lines));
    } else {
      popped := 1;
      OutcomeOfOne(Undoing, u, steps, r, t0);
    }
  }

  /**
   * One step of Redo: the top command is popped and redone; unless the
   * replay threw, it is appended to the undo list, without the level check
   * AddUndoCommand makes.
   */
  method RedoStep(doc: TextDocument) returns (info: Command, thrown: bool)
    requires doc.Valid() && doc.manager != null && LineStarts(doc.lines) && |doc.manager.redoStack| > 0
    requires RedoAdmits(Text(doc.lines), doc.manager.redoStack[|doc.manager.redoStack| - 1].edit)
    modifies doc`lines, doc`segs, doc`next, doc`events, doc`isModified, doc.manager
    ensures doc.Valid() && LineStarts(doc.lines)
    ensures var r := old(doc.manager.redoStack);
      && info == r[|r| - 1]
      && doc.manager.redoStack == r[..|r| - 1]
      && RedoSteps(doc.manager.redoStack) == old(RedoSteps(doc.manager.redoStack))[..|r| - 1]
      && doc.manager.undoList == old(doc.manager.undoList) + (if thrown then [] else [info])
      && Text(doc.lines) == RedoText(old(Text(doc.lines)), info.edit)
    ensures doc.manager.maxUndoLevel == old(doc.manager.maxUndoLevel)
    ensures doc.manager.acceptsChanges == !thrown
  {
    var m := doc.manager;
    info := m.redoStack[|m.redoStack| - 1];
    assert RedoSteps(m.redoStack)[..|m.redoStack| - 1] == RedoSteps(m.redoStack[..|m.redoStack| - 1]);
    m.redoStack := m.redoStack[..|m.redoStack| - 1];
    thrown := ReplayRedo(doc, info.edit);
    if !thrown {
      m.undoList := m.undoList + [info];
    }
    StepsKept(m.redoStack);
  }

  /**
   * UndoRedoManager.Redo: nothing on an empty stack; otherwise the top
   * command is popped, redone and appended to the undo list, and Redo runs
   * again when it has RedoPair. The history never outgrows the undo level.
   */
  method Redo(doc: TextDocument) returns (ghost popped: nat, thrown: bool)
    requires doc.Valid() && doc.manager != null && LineStarts(doc.lines)
    requires Chain(Redoing, Text(doc.lines), RedoSteps(doc.manager.redoStack))
    modifies doc`lines, doc`segs, doc`next, doc`events, doc`isModified, doc.manager
    decreases |doc.manager.redoStack|
    ensures doc.Valid() && LineStarts(doc.lines)
    ensures doc.manager.maxUndoLevel == old(doc.manager.maxUndoLevel)
    ensures Outcome(Redoing, old(doc.manager.redoStack), old(RedoSteps(doc.manager.redoStack)), old(doc.manager.undoList),
                    old(Text(doc.lines)), popped, thrown, doc.manager.redoStack, doc.manager.undoList, Text(doc.lines))
    ensures popped == 0 ==> doc.manager.acceptsChanges == old(doc.manager.acceptsChanges)
    ensures popped > 0 ==> doc.manager.acceptsChanges == !thrown
  {
    ghost var u, r, t0 := doc.manager.undoList, doc.manager.redoStack, Text(doc.lines);
    ghost var steps := RedoSteps(r);
    if |doc.manager.redoStack| == 0 {
      OutcomeOfNothing(Redoing, u, t0);
      return 0, false;
    }
    var info;
    info, thrown := RedoStep(doc);
    if thrown {
      OutcomeOfThrow(Redoing, r, steps, u, t0);
      return 1, true;
    }
    if info.redoPair {
      ghost var more;
      more, thrown := Redo(doc);
      popped := 1 + more;
      OutcomeGoesOn(Redoing, r, steps, u, t0, more, thrown, doc.manager.redoStack, doc.manager.undoList, Text(doc.lines));
    } else {
      popped := 1;
      OutcomeOfOne(Redoing, r, steps, u, t0);
    }
  }
}
