/**
 * The undo/redo history: the commands a document records and the manager
 * that keeps a bounded undo list and an unbounded redo stack. Replaying a
 * command against the document, and with it Undo and Redo, is in module
 * History.
 */
module UndoRedo {
  import opened Strs

  // ---------------------------------------------------------------------------
  // Commands
  // ---------------------------------------------------------------------------

  /** What a command undoes and redoes; the document it belongs to is passed to the replay. */
  datatype Edit =
    | Added(inputtedText: string, startIndex: int)                       // TextAddedUndoRedoCommand
    | Removed(previousText: string, startIndex: int)                     // TextRemovedUndoRedoCommand
    | NoteEdit(lineIndex: nat, previousText: string, newText: string)    // UndoRedoColumnNoteEdit

  /** String.Replace("\n", "\\n"): every line break written as a backslash and an n. */
  function EscapeBreaks(s: string): string
    decreases |s|
  {
    if |s| == 0 then "" else (if s[0] == '\n' then "\\n" else [s[0]]) + EscapeBreaks(s[1..])
  }

  /** Reads the escapes back: a backslash followed by n is a line break. */
  function UnescapeBreaks(s: string): string
    decreases |s|
  {
    if |s| == 0 then ""
    else if |s| >= 2 && s[0] == '\\' && s[1] == 'n' then "\n" + UnescapeBreaks(s[2..])
    else [s[0]] + UnescapeBreaks(s[1..])
  }

  /** Escaping leaves no line break, adds one character per line break, and reads back when there was no backslash. */
  lemma {:induction false} EscapeBreaksProperties(s: string)
    ensures '\n' !in EscapeBreaks(s)
    ensures |EscapeBreaks(s)| == |s| + multiset(s)['\n']
    ensures '\\' !in s ==> UnescapeBreaks(EscapeBreaks(s)) == s
    decreases |s|
  {
    if |s| > 0 {
      EscapeBreaksProperties(s[1..]);
      var e := EscapeBreaks(s[1..]);
      assert s == [s[0]] + s[1..];
      assert multiset(s) == multiset{s[0]} + multiset(s[1..]);
      if s[0] == '\n' {
        assert EscapeBreaks(s) == "\\n" + e;
        assert ("\\n" + e)[2..] == e;
      } else {
        assert EscapeBreaks(s) == [s[0]] + e;
        assert ([s[0]] + e)[1..] == e;
      }
    }
  }

  /** The text of an add or remove command: at most 15 characters of it, then "..." when longer. */
  function Snippet(t: string): string
  {
    if |t| > 15 then EscapeBreaks(t[..15]) + "..." else EscapeBreaks(t)
  }

  /** The Text property of each command kind. */
  function CommandText(e: Edit): string
  {
    match e
    case Added(t, _) => "add '" + Snippet(t) + "'"
    case Removed(t, _) => "remove '" + Snippet(t) + "'"
    case NoteEdit(line, _, _) => "note @" + NaturalText(line + 1)
  }

  /** The quoted part of an add or remove text shows no line break and reads back when short. */
  lemma QuotedSnippet(prefix: string, t: string)
    requires '\n' !in prefix
    ensures var r := prefix + Snippet(t) + "'";
      && '\n' !in r
      && |r| > |prefix| && r[..|prefix|] == prefix
      && (|t| <= 15 && '\\' !in t ==> UnescapeBreaks(r[|prefix|..|r| - 1]) == t)
  {
    SnippetShape(t);
    Quoted(prefix, Snippet(t));
  }

  /** The snippet shows no line break, and reads back when short and free of backslashes. */
  lemma SnippetShape(t: string)
    ensures '\n' !in Snippet(t)
    ensures |t| <= 15 && '\\' !in t ==> UnescapeBreaks(Snippet(t)) == t
  {
    if |t| > 15 {
      EscapeBreaksProperties(t[..15]);
    } else {
      EscapeBreaksProperties(t);
    }
  }

  /** A text between a prefix and a closing quote. */
  lemma Quoted(prefix: string, s: string)
    ensures var r := prefix + s + "'";
      && ('\n' !in prefix && '\n' !in s ==> '\n' !in r)
      && |r| > |prefix| && r[..|prefix|] == prefix && r[|prefix|..|r| - 1] == s
  {
    var r := prefix + s + "'";
    assert r[..|prefix|] == prefix;
    assert r[|prefix|..|r| - 1] == s;
  }

  /**
   * A command's text names its kind and shows no line break; for a short
   * text without backslashes it gives the text back between the quotes; a
   * note shows its 1-based line number.
   */
  lemma CommandTextShape(e: Edit)
    ensures '\n' !in CommandText(e)
    ensures e.Added? && |e.inputtedText| <= 15 && '\\' !in e.inputtedText ==>
      var r := CommandText(e);
      r[..5] == "add '" && UnescapeBreaks(r[5..|r| - 1]) == e.inputtedText
    ensures e.Removed? && |e.previousText| <= 15 && '\\' !in e.previousText ==>
      var r := CommandText(e);
      r[..8] == "remove '" && UnescapeBreaks(r[8..|r| - 1]) == e.previousText
    ensures e.NoteEdit? ==> var r := CommandText(e); r[..6] == "note @" && DigitsValue(r[6..]) == e.lineIndex + 1
  {
    match e
    case Added(t, _) =>
      QuotedSnippet("add '", t);
    case Removed(t, _) =>
      QuotedSnippet("remove '", t);
    case NoteEdit(line, _, _) =>
      NotedNumber(line + 1);
  }

  /** The note text shows no line break and reads back as its number. */
  lemma NotedNumber(n: nat)
    ensures var r := "note @" + NaturalText(n);
      '\n' !in r && r[..6] == "note @" && DigitsValue(r[6..]) == n
  {
    var d := NaturalText(n);
    NaturalTextReadsBack(n);
    var r := "note @" + d;
    assert r[6..] == d;
    assert r[..6] == "note @";
    forall i | 0 <= i < |r| ensures r[i] != '\n' {
      if i >= 6 {
        assert r[i] == d[i - 6];
      }
    }
  }

  /** An undoable command; the pair flags are set after it is recorded. */
  class Command {
    const edit: Edit
    var undoPair: bool
    var redoPair: bool

    constructor (edit: Edit)
      ensures this.edit == edit && !undoPair && !redoPair
    {
      this.edit := edit;
      undoPair := false;
      redoPair := false;
    }
  }

  // ---------------------------------------------------------------------------
  // The manager
  // ---------------------------------------------------------------------------

  /** The undo list after AddUndoCommand with level max: full lists lose their oldest entry first. */
  function Recorded(undo: seq<Command>, cmd: Command, max: int): seq<Command>
  {
    if max == 0 then undo
    else (if |undo| == max then undo[1..] else undo) + [cmd]
  }

  /** The newest n entries of s. */
  function Newest<T>(s: seq<T>, n: nat): (r: seq<T>)
  {
    if |s| <= n then s else s[|s| - n..]
  }

  /** Recording keeps exactly the newest max commands, the new one last. */
  lemma RecordedKeepsNewest(undo: seq<Command>, cmd: Command, max: nat)
    requires |undo| <= max
    ensures Recorded(undo, cmd, max) == Newest(undo + [cmd], max)
    ensures |Recorded(undo, cmd, max)| <= max
    ensures max > 0 ==> Recorded(undo, cmd, max)[|Recorded(undo, cmd, max)| - 1] == cmd
  {
    if max > 0 && |undo| == max {
      assert (undo + [cmd])[|undo| + 1 - max..] == undo[1..] + [cmd];
    }
  }

  /**
   * The history of m after an edit that recorded cmd (or nothing, for null),
   * starting from undo0 and redo0.
   */
  ghost predicate AfterRecord(m: UndoRedoManager, undo0: seq<Command>, redo0: seq<Command>, cmd: Command?)
    reads m
  {
    if cmd == null then m.undoList == undo0 && m.redoStack == redo0
    else m.undoList == Recorded(undo0, cmd, m.maxUndoLevel) && m.redoStack == (if m.maxUndoLevel == 0 then redo0 else [])
  }

  class UndoRedoManager {
    var undoList: seq<Command>
    /** The redo stack, its top last. */
    var redoStack: seq<Command>
    var maxUndoLevel: int
    var acceptsChanges: bool

    /** The history never holds more commands than the undo level. */
    ghost predicate Valid()
      reads this
    {
      0 <= maxUndoLevel && |undoList| + |redoStack| <= maxUndoLevel
    }

    constructor ()
      ensures Valid() && undoList == [] && redoStack == [] && maxUndoLevel == 10 && acceptsChanges
    {
      undoList := [];
      redoStack := [];
      maxUndoLevel := 10;
      acceptsChanges := true;
    }

    /**
     * AddUndoCommand: a null command throws; at level 0 the command is
     * dropped; otherwise it is appended, the oldest entry evicted from a full
     * list, and the redo stack cleared.
     */
    method AddUndoCommand(cmd: Command?) returns (thrown: bool)
      requires Valid()
      modifies this
      ensures Valid() && acceptsChanges == old(acceptsChanges) && maxUndoLevel == old(maxUndoLevel)
      ensures thrown <==> cmd == null
      ensures cmd == null ==> undoList == old(undoList) && redoStack == old(redoStack)
      ensures cmd != null ==> undoList == Recorded(old(undoList), cmd, maxUndoLevel)
      ensures cmd != null ==> redoStack == if maxUndoLevel == 0 then old(redoStack) else []
    {
      if cmd == null {
        return true;
      }
      thrown := false;
      if maxUndoLevel == 0 {
        return;
      }
      if |undoList| == maxUndoLevel {
        undoList := undoList[1..];
      }
      undoList := undoList + [cmd];
      redoStack := [];
    }

    method ClearUndoRedo()
      modifies this
      ensures undoList == [] && redoStack == []
      ensures maxUndoLevel == old(maxUndoLevel) && acceptsChanges == old(acceptsChanges)
    {
      undoList := [];
      redoStack := [];
    }

    /** The MaxUndoLevel setter: a negative value throws; a new value clears the history first. */
    method SetMaxUndoLevel(value: int) returns (thrown: bool)
      requires Valid()
      modifies this
      ensures Valid() && acceptsChanges == old(acceptsChanges)
      ensures thrown <==> value < 0
      ensures thrown || value == old(maxUndoLevel) ==>
        maxUndoLevel == old(maxUndoLevel) && undoList == old(undoList) && redoStack == old(redoStack)
      ensures !thrown && value != old(maxUndoLevel) ==> maxUndoLevel == value && undoList == [] && redoStack == []
    {
      if value < 0 {
        return true;
      }
      thrown := false;
      if value != maxUndoLevel {
        ClearUndoRedo();
        maxUndoLevel := value;
      }
    }

    method Dispose()
      modifies this
      ensures undoList == [] && redoStack == []
      ensures maxUndoLevel == old(maxUndoLevel) && acceptsChanges == old(acceptsChanges)
    {
      ClearUndoRedo();
    }

    /** PeekUndoCommand: the newest undo entry, or null. */
    function PeekUndoCommand(): (r: Command?)
      reads this
      ensures r == null <==> |undoList| == 0
      ensures r != null ==> r == undoList[|undoList| - 1]
    {
      if |undoList| == 0 then null else undoList[|undoList| - 1]
    }

    /** PeekRedoCommand: the top of the redo stack, or null. */
    function PeekRedoCommand(): (r: Command?)
      reads this
      ensures r == null <==> |redoStack| == 0
      ensures r != null ==> r == redoStack[|redoStack| - 1]
    {
      if |redoStack| == 0 then null else redoStack[|redoStack| - 1]
    }

    function GetUndoText(): (r: string)
      reads this
      ensures |undoList| == 0 ==> r == ""
      ensures |undoList| > 0 ==> r == CommandText(undoList[|undoList| - 1].edit)
    {
      var cmd := PeekUndoCommand();
      if cmd == null then "" else CommandText(cmd.edit)
    }

    function GetRedoText(): (r: string)
      reads this
      ensures |redoStack| == 0 ==> r == ""
      ensures |redoStack| > 0 ==> r == CommandText(redoStack[|redoStack| - 1].edit)
    {
      var cmd := PeekRedoCommand();
      if cmd == null then "" else CommandText(cmd.edit)
    }
  }
}
