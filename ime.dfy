/**
 * The input-method composition of a text view: which attribute bytes mark
 * the target clause, the scan that finds the target range of a
 * composition, and the composition state a view keeps between the start
 * and the end of a composition.
 */
module Ime {
  import opened Wrappers
  import opened LineStore
  import opened UndoRedo
  import opened Seqs
  import opened Views
  import Editor

  type byte = Editor.byte

  /** ATTR_TARGET_CONVERTED and ATTR_TARGET_NOTCONVERTED. */
  const AttrTargetConverted: byte := 1
  const AttrTargetNotConverted: byte := 3

  /** IsTargetAttribute: the attribute of a character in the target clause. */
  predicate IsTargetAttribute(attribute: byte)
  {
    attribute == AttrTargetConverted || attribute == AttrTargetNotConverted
  }

  /** The position of the first target attribute from i on, or |data| when there is none. */
  function FirstTarget(data: seq<byte>, i: nat): (r: nat)
    requires i <= |data|
    ensures i <= r <= |data|
    ensures forall j :: i <= j < r ==> !IsTargetAttribute(data[j])
    ensures r < |data| ==> IsTargetAttribute(data[r])
    decreases |data| - i
  {
    if i == |data| || IsTargetAttribute(data[i]) then i else FirstTarget(data, i + 1)
  }

  /** The position of the first attribute from i on that is not a target, or |data|. */
  function FirstNonTarget(data: seq<byte>, i: nat): (r: nat)
    requires i <= |data|
    ensures i <= r <= |data|
    ensures forall j :: i <= j < r ==> IsTargetAttribute(data[j])
    ensures r < |data| ==> !IsTargetAttribute(data[r])
    decreases |data| - i
  {
    if i == |data| || !IsTargetAttribute(data[i]) then i else FirstNonTarget(data, i + 1)
  }

  /**
   * The target range GetSelection finds in the attributes of a composition:
   * the first run of target attributes, or the whole composition when it
   * holds no target attribute.
   */
  function TargetRange(data: seq<byte>): (int, int)
  {
    var start := FirstTarget(data, 0);
    if start == |data| then (0, |data|) else (start, FirstNonTarget(data, start))
  }

  /**
   * The target range lies in the composition; when the composition holds a
   * target attribute, the range is non-empty, every attribute in it is a
   * target, none before it is, and it stops at the end or at a non-target;
   * otherwise the range is the whole composition.
   */
  lemma TargetRangeIsFirstRun(data: seq<byte>)
    ensures var (start, end) := TargetRange(data);
      && 0 <= start <= end <= |data|
      && ((exists j :: 0 <= j < |data| && IsTargetAttribute(data[j])) ==>
            && start < end
            && (forall j :: 0 <= j < start ==> !IsTargetAttribute(data[j]))
            && (forall j :: start <= j < end ==> IsTargetAttribute(data[j]))
            && (end < |data| ==> !IsTargetAttribute(data[end])))
      && ((forall j :: 0 <= j < |data| ==> !IsTargetAttribute(data[j])) ==> start == 0 && end == |data|)
  {
    var start := FirstTarget(data, 0);
    if exists j :: 0 <= j < |data| && IsTargetAttribute(data[j]) {
      var j :| 0 <= j < |data| && IsTargetAttribute(data[j]);
      assert start <= j;
    }
  }

  /**
   * GetSelection: with size the attribute count the system reports (zero
   * or less when there is none) and data the attributes it then copies,
   * the two scans over data; when size is not positive, the incoming target
   * start and end are returned as they came.
   */
  method GetSelection(size: int, data: seq<byte>, targetStart0: int, targetEnd0: int) returns (targetStart: int, targetEnd: int)
    requires size > 0 ==> |data| == size
    ensures size <= 0 ==> targetStart == targetStart0 && targetEnd == targetEnd0
    ensures size > 0 ==> (targetStart, targetEnd) == TargetRange(data)
  {
    targetStart, targetEnd := targetStart0, targetEnd0;
    if size > 0 {
      targetStart := 0;
      while targetStart < size
        invariant 0 <= targetStart <= size
        invariant FirstTarget(data, 0) == FirstTarget(data, targetStart)
      {
        if IsTargetAttribute(data[targetStart]) {
          break;
        }
        targetStart := targetStart + 1;
      }
      targetEnd := targetStart;
      while targetEnd < size
        invariant targetStart <= targetEnd <= size
        invariant FirstNonTarget(data, targetStart) == FirstNonTarget(data, targetEnd)
      {
        if !IsTargetAttribute(data[targetEnd]) {
          break;
        }
        targetEnd := targetEnd + 1;
      }
      if targetStart == size {
        targetStart := 0;
        targetEnd := size;
      }
    }
  }

  /** What the view keeps of the system's composition. */
  datatype CompositionInfo = CompositionInfo(text: string, selectionStart: int, selectionEnd: int, caretStart: int)

  class ImeComposition {
    const view: TextView
    /** The composition read from the system, if any. */
    var composition: Option<CompositionInfo>
    var isCompositioning: bool

    constructor (view: TextView)
      ensures this.view == view && composition == None && !isCompositioning
    {
      this.view := view;
      composition := None;
      isCompositioning := false;
    }

    /** StartComposition: the stored composition is dropped and a composition is under way. */
    method StartComposition()
      modifies this`composition, this`isCompositioning
      ensures composition == None && isCompositioning
    {
      composition := None;
      isCompositioning := true;
    }

    /**
     * EndComposition: the composed text replaces the view's selection when a
     * composition was stored and the view is not read-only; the composition
     * is then dropped and no composition is under way.
     */
    method EndComposition() returns (removed: Command?, inserted: Command?)
      requires view.Valid() && view.starts[view.column] + view.lengths[view.column] <= |Text(view.doc.lines)|
      modifies this`composition, this`isCompositioning
      modifies view`starts, view`lengths, view`selection, view.doc`lines, view.doc`segs, view.doc`next, view.doc`events
      modifies view.doc`isModified, view.doc.manager
      ensures composition == None && !isCompositioning
      ensures view.Valid()
      ensures old(composition) == None || old(view.isReadOnly) ==>
        && removed == null && inserted == null
        && unchanged(view) && unchanged(view.doc) && unchanged(view.doc.manager)
      ensures old(composition) != None && !old(view.isReadOnly) ==>
        var t, s, l := old(Text(view.doc.lines)), old(view.starts[view.column]), old(view.lengths[view.column]);
        var value, accepts := old(composition).value.text, old(view.doc.manager.acceptsChanges);
        var aborted := l > 0 && !accepts;
        && SetAt(view.lengths, old(view.lengths), view.column, 0)
        && Text(view.doc.lines) == (if aborted then Excise(t, s, l) else Splice(Excise(t, s, l), s, value))
        && SetAt(view.starts, old(view.starts), view.column, if aborted then s else s + |value|)
    {
      removed, inserted := null, null;
      if composition != None {
        if !view.isReadOnly {
          removed, inserted := view.SetSelectedText(composition.value.text);
        }
      }
      composition := None;
      isCompositioning := false;
    }
  }
}
