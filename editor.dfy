/**
 * The text editor control over a line-based document: clearing, the per-line
 * clean-up applied while a file is read, the ASCII probe that picks the
 * reading encoding, saving (manual and automatic) and the sidecar file that
 * keeps the pinned anchors.
 */
module Editor {
  import opened Wrappers
  import opened Strs
  import opened TextStyles
  import opened TextLines
  import opened LineStore
  import opened Segments
  import opened LineEdits
  import opened UndoRedo
  import opened Document

  newtype byte = b: int | 0 <= b < 256

  // ---------------------------------------------------------------------------
  // Line clean-up while reading
  // ---------------------------------------------------------------------------

  /**
   * The NUL characters are dropped only when more than a third of the line
   * (integer division) would go: a sign of a two-byte text read one byte at
   * a time.
   */
  function NulFixed(line: string): string
  {
    var fixedText := Replace(line, "\0", "");
    var difference := (if |line| >= |fixedText| then |line| else |fixedText|) - (if |line| <= |fixedText| then |line| else |fixedText|);
    if difference > |line| / 3 then fixedText else line
  }

  /** A line as Open keeps it: NUL clean-up, then "\r\r\n" to "\r\n" to "\n", then every '\r' removed. */
  function NormalizeLine(line: string): string
  {
    Replace(Replace(Replace(NulFixed(line), "\r\r\n", "\r\n"), "\r\n", "\n"), "\r", "")
  }

  /** The NULs go exactly when they are more than a third of the line, and then all of them go. */
  lemma NulsDroppedWhenMany(line: string)
    ensures multiset(line)['\0'] > |line| / 3 ==> NulFixed(line) == Replace(line, "\0", "") && '\0' !in NulFixed(line)
    ensures multiset(line)['\0'] <= |line| / 3 ==> NulFixed(line) == line
  {
    RemoveCharLength(line, '\0');
    RemoveChar(line, '\0');
  }

  /** No carriage return is left in a loaded line. */
  lemma NormalizedHasNoCarriageReturn(line: string)
    ensures '\r' !in NormalizeLine(line)
  {
    RemoveChar(Replace(Replace(NulFixed(line), "\r\r\n", "\r\n"), "\r\n", "\n"), '\r');
  }

  /** A line without NUL and carriage return is loaded as it is. */
  lemma PlainLineKept(line: string)
    requires '\0' !in line && '\r' !in line
    ensures NormalizeLine(line) == line
  {
    ReplaceAbsentChar(line, '\0', "");
    ReplaceAbsent(line, "\r\r\n", "\r\n");
    ReplaceAbsent(line, "\r\n", "\n");
    ReplaceAbsentChar(line, '\r', "");
  }

  // ---------------------------------------------------------------------------
  // The ASCII probe
  // ---------------------------------------------------------------------------

  /** A readable, seekable stream of bytes. */
  class Stream {
    const data: seq<byte>
    var position: int

    constructor (data: seq<byte>)
      ensures this.data == data && position == 0
    {
      this.data := data;
      position := 0;
    }
  }

  /**
   * GetCheckIfAscii: true exactly when no byte from the current position on
   * is above 127; the position is put back.
   */
  method GetCheckIfAscii(s: Stream) returns (ascii: bool)
    requires s.position >= 0
    modifies s`position
    ensures s.position == old(s.position)
    ensures ascii <==> forall i :: s.position <= i < |s.data| ==> s.data[i] <= 127
  {
    var position := s.position;
    ascii := true;
    while s.position < |s.data|
      invariant position <= s.position
      invariant forall i :: position <= i < s.position && i < |s.data| ==> s.data[i] <= 127
      decreases |s.data| - s.position
    {
      var b := s.data[s.position];
      s.position := s.position + 1;
      if b > 127 {
        ascii := false;
        break;
      }
    }
    s.position := position;
  }

  // ---------------------------------------------------------------------------
  // The sidecar records
  // ---------------------------------------------------------------------------

  /** An anchor object as String.Format writes it: null as nothing. */
  function ObjectText(obj: Option<string>): string
  {
    if obj.None? then "" else obj.value
  }

  /** One sidecar line: style key, global index, length and object, separated by '|'. */
  function AnchorRecord(p: Placed): string
  {
    Join([Key(p.anchor), IntText(IndexGlobalOf(p)), IntText(AnchorGetLength(p.anchor, 0)), ObjectText(p.anchor.obj)], "|")
  }

  /** The pinned anchors, in enumeration order. */
  function PinnedOf(ps: seq<Placed>): (r: seq<Placed>)
    decreases |ps|
  {
    if |ps| == 0 then []
    else PinnedOf(ps[..|ps| - 1]) + (if IsPinned(ps[|ps| - 1].anchor) then [ps[|ps| - 1]] else [])
  }

  /** Exactly the pinned anchors are kept, in their order. */
  lemma {:induction false} PinnedOfKeepsPinned(ps: seq<Placed>)
    ensures forall p :: p in PinnedOf(ps) <==> p in ps && IsPinned(p.anchor)
    ensures |PinnedOf(ps)| <= |ps|
    decreases |ps|
  {
    if |ps| > 0 {
      PinnedOfKeepsPinned(ps[..|ps| - 1]);
      assert ps == ps[..|ps| - 1] + [ps[|ps| - 1]];
    }
  }

  /** The sidecar lines of the pinned anchors. */
  function Records(ps: seq<Placed>): (r: seq<string>)
    ensures |r| == |ps|
  {
    seq(|ps|, k requires 0 <= k < |ps| => AnchorRecord(ps[k]))
  }

  /** What SaveToFile does to the file system, in order. */
  datatype FileOp = Write(path: string, content: string) | WriteLines(path: string, lines: seq<string>) | DeleteIfExists(path: string)

  /** The sidecar operation: the records when there are pinned anchors, else the old sidecar deleted. */
  function SidecarOp(sidecar: string, ps: seq<Placed>): FileOp
  {
    var pinned := PinnedOf(ps);
    if |pinned| > 0 then WriteLines(sidecar, Records(pinned)) else DeleteIfExists(sidecar)
  }

  /** The pinned-anchor loop of SaveToFile. */
  method CollectPinned(ps: seq<Placed>) returns (pinned: seq<Placed>)
    ensures pinned == PinnedOf(ps)
  {
    pinned := [];
    var i := 0;
    while i < |ps|
      invariant 0 <= i <= |ps|
      invariant pinned == PinnedOf(ps[..i])
    {
      assert ps[..i + 1][..i] == ps[..i];
      if ps[i].anchor.style.kind == Pinned {
        pinned := pinned + [ps[i]];
      }
      i := i + 1;
    }
    assert ps[..i] == ps;
  }

  // ---------------------------------------------------------------------------
  // The editor
  // ---------------------------------------------------------------------------

  class TextEditor {
    const doc: TextDocument
    /** The current file path; "" stands for no path (null or empty). */
    var currentFilePath: string
    var description: string
    var isDisposed: bool
    /** The file-system operations made so far. */
    var files: seq<FileOp>
    /** GetAnchorFileName: the sidecar path beside a text file. */
    const sidecarOf: string -> string

    ghost predicate Valid()
      reads this, doc, doc.manager
    {
      doc.Valid() && doc.manager != null
    }

    constructor (doc: TextDocument, sidecarOf: string -> string)
      requires doc.Valid() && doc.manager != null
      ensures Valid() && this.doc == doc && this.sidecarOf == sidecarOf
      ensures currentFilePath == "" && description == "" && !isDisposed && files == []
    {
      this.doc := doc;
      this.sidecarOf := sidecarOf;
      currentFilePath := "";
      description := "";
      isDisposed := false;
      files := [];
    }

    /**
     * Clear: no lines, no undo or redo, no anchor left (pinned ones too), no
     * path, not modified (which raises Modified) and no description.
     */
    method Clear()
      requires Valid()
      modifies doc`lines, doc`segs, doc`isModified, doc`events, doc.manager, this`currentFilePath, this`description
      ensures Valid() && doc.lines == [] && doc.segs == []
      ensures doc.manager.undoList == [] && doc.manager.redoStack == []
      ensures doc.manager.maxUndoLevel == old(doc.manager.maxUndoLevel) && doc.manager.acceptsChanges == old(doc.manager.acceptsChanges)
      ensures !doc.isModified && doc.events == old(doc.events) + Logged([Modified], doc.subscribed)
      ensures currentFilePath == "" && description == ""
    {
      doc.Clear();
      doc.manager.ClearUndoRedo();
      doc.ClearSegments(true);
      currentFilePath := "";
      doc.SetIsModified(false);
      description := "";
    }

    /**
     * The reading part of Open once the stream is open: the editor cleared,
     * the path set, each line cleaned up and appended, and one empty line
     * when the file had none. Lines are appended with the first-line test
     * TextAppendLine means, so the line starts hold whatever the file.
     */
    method LoadLines(path: string, raw: seq<string>)
      requires Valid()
      modifies doc`lines, doc`segs, doc`next, doc`isModified, doc`events, doc.manager, this`currentFilePath, this`description
      ensures Valid() && currentFilePath == path && description == ""
      ensures doc.manager.undoList == [] && doc.manager.redoStack == []
      ensures |doc.lines| == if |raw| == 0 then 1 else |raw|
      ensures forall k :: 0 <= k < |raw| ==> Txt(doc.lines[k]) == NormalizeLine(raw[k])
      ensures |raw| == 0 ==> Txt(doc.lines[0]) == ""
      ensures LineStarts(doc.lines)
    {
      Clear();
      currentFilePath := path;
      AppendLines(seq(|raw|, k requires 0 <= k < |raw| => NormalizeLine(raw[k])));
      if |doc.lines| == 0 {
        NewLineShape(0, "", 0);
        doc.TextAppendLineCorrected("");
      }
    }

    /** The reading loop of Open: each cleaned-up line appended in turn. */
    method AppendLines(texts: seq<string>)
      requires Valid() && doc.lines == []
      modifies doc`lines, doc`segs, doc`next, doc`events
      ensures Valid() && |doc.lines| == |texts| && LineStarts(doc.lines)
      ensures forall k :: 0 <= k < |texts| ==> Txt(doc.lines[k]) == texts[k]
    {
      var i := 0;
      while i < |texts|
        invariant 0 <= i <= |texts|
        invariant doc.Valid() && doc.manager != null
        invariant |doc.lines| == i && LineStarts(doc.lines)
        invariant forall k :: 0 <= k < i ==> Txt(doc.lines[k]) == texts[k]
      {
        NewLineShape(AppendIndexCorrected(doc.lines), texts[i], 0);
        doc.TextAppendLineCorrected(texts[i]);
        i := i + 1;
      }
    }

    /**
     * SaveToFile: the whole text written, then the sidecar: one record per
     * pinned anchor, or the old sidecar deleted when there is none.
     */
    method SaveToFile(path: string)
      requires Valid() && LineStarts(doc.lines)
      modifies this`files
      ensures files == old(files) + [Write(path, Text(doc.lines)), SidecarOp(sidecarOf(path), StyledTextSegments(doc.lines, doc.segs))]
    {
      var text := doc.TextGet(0, -1);
      TextGetReadsSpan(doc.lines, 0, -1);
      files := files + [Write(path, text)];
      var pinned := CollectPinned(StyledTextSegments(doc.lines, doc.segs));
      var sidecar := sidecarOf(path);
      if |pinned| > 0 {
        files := files + [WriteLines(sidecar, Records(pinned))];
      } else {
        files := files + [DeleteIfExists(sidecar)];
      }
    }

    /**
     * SaveAs(path, isAutoSave): false when the target is refused. An
     * auto-save only writes. A manual save takes the path, writes, clears
     * IsModified (raising Modified), deletes the auto-save file and clears
     * undo and redo.
     */
    method SaveAs(path: string, isAutoSave: bool, canSaveTo: bool) returns (ok: bool)
      requires Valid() && LineStarts(doc.lines)
      modifies this`files, this`currentFilePath, doc`isModified, doc`events, doc.manager
      ensures Valid() && ok == canSaveTo
      ensures var saved := [Write(path, Text(doc.lines)), SidecarOp(sidecarOf(path), StyledTextSegments(doc.lines, doc.segs))];
        && (!canSaveTo ==> files == old(files))
        && (canSaveTo && isAutoSave ==> files == old(files) + saved)
        && (canSaveTo && !isAutoSave ==> files == old(files) + saved + [DeleteIfExists(path + ".tmp")])
      ensures !canSaveTo || isAutoSave ==>
        && currentFilePath == old(currentFilePath) && doc.isModified == old(doc.isModified) && doc.events == old(doc.events)
        && doc.manager.undoList == old(doc.manager.undoList) && doc.manager.redoStack == old(doc.manager.redoStack)
      ensures canSaveTo && !isAutoSave ==>
        && currentFilePath == path && !doc.isModified && doc.events == old(doc.events) + Logged([Modified], doc.subscribed)
        && doc.manager.undoList == [] && doc.manager.redoStack == []
      ensures doc.manager.maxUndoLevel == old(doc.manager.maxUndoLevel) && doc.manager.acceptsChanges == old(doc.manager.acceptsChanges)
    {
      if !canSaveTo {
        return false;
      }
      if isAutoSave {
        SaveToFile(path);
        return true;
      }
      currentFilePath := path;
      SaveToFile(path);
      doc.SetIsModified(false);
      files := files + [DeleteIfExists(path + ".tmp")];
      doc.manager.ClearUndoRedo();
      return true;
    }

    /**
     * SaveAuto: nothing for an unmodified document, a document without a
     * path or a disposed editor; otherwise an auto-save beside the file,
     * which changes neither the path, nor IsModified, nor the history.
     */
    method SaveAuto(canSaveTo: bool)
      requires Valid() && LineStarts(doc.lines)
      modifies this`files, this`currentFilePath, doc`isModified, doc`events, doc.manager
      ensures Valid() && currentFilePath == old(currentFilePath) && doc.isModified == old(doc.isModified)
      ensures doc.events == old(doc.events)
      ensures doc.manager.undoList == old(doc.manager.undoList) && doc.manager.redoStack == old(doc.manager.redoStack)
      ensures !doc.isModified || currentFilePath == "" || isDisposed || !canSaveTo ==> files == old(files)
      ensures doc.isModified && currentFilePath != "" && !isDisposed && canSaveTo ==>
        var tmp := currentFilePath + ".tmp";
        files == old(files) + [Write(tmp, Text(doc.lines)), SidecarOp(sidecarOf(tmp), StyledTextSegments(doc.lines, doc.segs))]
    {
      if !doc.isModified {
        return;
      }
      if currentFilePath == "" {
        return;
      }
      if isDisposed {
        return;
      }
      var _ := SaveAs(currentFilePath + ".tmp", true, canSaveTo);
    }
  }
}
