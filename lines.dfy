/**
 * The records of the line-based document: a text anchor (a styled segment
 * owned by a line) and a text line (a start index, one text per column and a
 * metadata dictionary). A line's list of anchors is kept by the document
 * beside the line, so that edits to anchors and edits to text touch
 * different fields.
 */
module TextLines {
  import opened Wrappers
  import opened TextStyles

  type AnchorId = nat

  /** The resource text shown for an anchor without an object. */
  const NotAvailable: string := "N/A"

  /**
   * TextAnchor. `obj` is the anchored object (None for null) and `texts` the
   * cached textual representation (None when not yet computed).
   */
  datatype Anchor = Anchor(
    id: AnchorId,
    style: Style,
    index: int,
    length: int,
    obj: Option<string>,
    texts: Option<seq<string>>)

  /** The TextAnchor(style) constructor: everything else is zero or null. */
  function NewAnchor(id: AnchorId, style: Style): Anchor
  {
    Anchor(id, style, 0, 0, None, None)
  }

  function Key(a: Anchor): string { a.style.nameKey }

  function Kind(a: Anchor): StyleKind { a.style.kind }

  /** TextAnchor.Contains. */
  predicate AnchorContains(a: Anchor, index: int, length: int, matchFirst: bool, matchLast: bool)
  {
    if matchLast && a.index + a.length < index then false
    else if !matchLast && a.index + a.length <= index then false
    else if matchFirst && a.index > index + length then false
    else if !matchFirst && a.index >= index + length then false
    else true
  }

  /** Position p lies on the anchor, its end included. */
  predicate InSpan(a: Anchor, p: int)
  {
    a.index <= p <= a.index + a.length
  }

  /**
   * Contains is an interval intersection: the anchor and the range
   * [index, index + length] share a position. matchLast lets that position
   * be the anchor's end and matchFirst lets it be the range's end; an end
   * that is excluded needs a span of at least one position.
   */
  lemma ContainsIsIntersection(a: Anchor, index: int, length: int, matchFirst: bool, matchLast: bool)
    requires a.length >= 0 && length >= 0
    requires !matchLast ==> a.length > 0
    requires !matchFirst ==> length > 0
    ensures AnchorContains(a, index, length, matchFirst, matchLast) <==>
      exists p :: InSpan(a, p) && index <= p <= index + length
        && (matchLast || p < a.index + a.length) && (matchFirst || p < index + length)
  {
    if AnchorContains(a, index, length, matchFirst, matchLast) {
      var p := if a.index < index then index else a.index;
      assert InSpan(a, p);
    }
  }

  function Sign(x: int): int
  {
    if x < 0 then -1 else if x > 0 then 1 else 0
  }

  /** TextAnchor.CompareTo: by Index, then by Length. */
  function CompareAnchors(a: Anchor, b: Anchor): int
  {
    var r := Sign(a.index - b.index);
    if r == 0 then Sign(a.length - b.length) else r
  }

  predicate LexLess(a: Anchor, b: Anchor)
  {
    a.index < b.index || (a.index == b.index && a.length < b.length)
  }

  /** CompareTo is the lexicographic order on (Index, Length): antisymmetric and transitive. */
  lemma CompareIsLexicographic(a: Anchor, b: Anchor, c: Anchor)
    ensures CompareAnchors(a, b) < 0 <==> LexLess(a, b)
    ensures CompareAnchors(a, b) == 0 <==> (a.index == b.index && a.length == b.length)
    ensures CompareAnchors(a, b) > 0 <==> LexLess(b, a)
    ensures CompareAnchors(a, b) == -CompareAnchors(b, a)
    ensures CompareAnchors(a, b) < 0 && CompareAnchors(b, c) < 0 ==> CompareAnchors(a, c) < 0
  {
  }

  /** TextAnchor.GetLength: one length for every column. */
  function AnchorGetLength(a: Anchor, column: int): int
  {
    a.length
  }

  /** TextAnchor.SetLength: overwrites the one length whatever the column. */
  function AnchorSetLength(a: Anchor, column: int, value: int): Anchor
  {
    a.(length := value)
  }

  lemma LengthIsSharedByColumns(a: Anchor, c: int, d: int, value: int)
    ensures AnchorGetLength(AnchorSetLength(a, c, value), d) == value
    ensures AnchorSetLength(a, c, value).(length := a.length) == a
  {
  }

  /** The Object setter: stores the object and drops the cached texts. */
  function SetObject(a: Anchor, obj: Option<string>): Anchor
  {
    a.(obj := obj, texts := None)
  }

  datatype TextsRead = TextsRead(texts: seq<string>, anchor: Anchor)

  /** The Texts getter, which fills the cache on first use. */
  function Texts(a: Anchor): TextsRead
  {
    if a.obj.None? then TextsRead([NotAvailable], a)
    else if a.texts.Some? then TextsRead(a.texts.value, a)
    else
      var t := [StringRepresentation(a.obj.value)];
      TextsRead(t, a.(texts := Some(t)))
  }

  /** TextAnchor.GetText. */
  function AnchorGetText(a: Anchor, column: int): string
    requires column >= 0
  {
    var t := Texts(a).texts;
    if |t| <= column then "" else t[column]
  }

  /** The cache, when present, holds the representation of the current object. */
  predicate CacheCoherent(a: Anchor)
  {
    a.texts.Some? ==> a.obj.Some? && a.texts.value == [StringRepresentation(a.obj.value)]
  }

  function Representation(obj: Option<string>): string
  {
    if obj.None? then NotAvailable else StringRepresentation(obj.value)
  }

  /**
   * Setting the object makes the cache coherent again; reading the texts keeps
   * it coherent and yields one text, the representation of the current object
   * (or the not-available text), so every column past the first reads "".
   */
  lemma TextsFollowObject(a: Anchor, obj: Option<string>, column: int)
    requires column >= 0
    ensures CacheCoherent(SetObject(a, obj))
    ensures Texts(SetObject(a, obj)).texts == [Representation(obj)]
    ensures CacheCoherent(a) ==> CacheCoherent(Texts(a).anchor) && Texts(a).texts == [Representation(a.obj)]
    ensures CacheCoherent(a) ==> AnchorGetText(a, column) == if column == 0 then Representation(a.obj) else ""
    ensures Texts(Texts(a).anchor).texts == Texts(a).texts
  {
  }

  /** TextAnchor.IndexGlobal for an anchor held by `line`. */
  function IndexGlobal(a: Anchor, line: Line): int
  {
    a.index + line.index
  }

  // ---------------------------------------------------------------------------
  // TextLine
  // ---------------------------------------------------------------------------

  /** TextLine: start index, one text per column and the metadata dictionary. */
  datatype Line = Line(index: int, texts: seq<string>, metadata: map<string, string>)

  /** The TextLine(index, text) constructor. */
  function NewLine(index: int, text: string): Line
  {
    Line(index, [text], map[])
  }

  /** TextLine.GetText: "" for a column the line does not have. */
  function LineText(l: Line, column: nat): string
  {
    if |l.texts| <= column then "" else l.texts[column]
  }

  /** TextLine.GetLength. */
  function LineLength(l: Line, column: nat): nat
  {
    |LineText(l, column)|
  }

  lemma NewLineShape(index: int, text: string, column: nat)
    ensures NewLine(index, text).index == index
    ensures |NewLine(index, text).texts| == 1
    ensures LineText(NewLine(index, text), column) == if column == 0 then text else ""
    ensures LineLength(NewLine(index, text), 0) == |text|
  {
  }

  datatype SetTextResult = SetTextResult(line: Line, ok: bool)

  /**
   * TextLine.SetText. A column at or past the end first grows the column array
   * by one slot holding the text; the write then fails (ok = false) for a
   * column past the new end or a negative column.
   */
  function SetText(l: Line, column: int, text: string): SetTextResult
  {
    if column < 0 then SetTextResult(l, false)
    else
      var grown := if column >= |l.texts| then l.(texts := l.texts + [text]) else l;
      if column < |grown.texts| then SetTextResult(grown.(texts := grown.texts[column := text]), true)
      else SetTextResult(grown, false)
  }

  lemma SetTextColumns(l: Line, column: int, text: string)
    ensures var r := SetText(l, column, text);
      && r.ok == (0 <= column <= |l.texts|)
      && r.line.index == l.index && r.line.metadata == l.metadata
      && (r.ok ==> LineText(r.line, column) == text)
      && (r.ok ==> forall c: nat :: c != column ==> LineText(r.line, c) == LineText(l, c))
      && (r.ok ==> |r.line.texts| == if column == |l.texts| then |l.texts| + 1 else |l.texts|)
      && (column > |l.texts| ==> r.line.texts == l.texts + [text])
      && (column < 0 ==> r.line == l)
  {
  }

  /** Writes column 0, which always succeeds. */
  function WithText(l: Line, text: string): Line
  {
    SetText(l, 0, text).line
  }

  lemma WithTextReads(l: Line, text: string)
    ensures WithText(l, text).index == l.index
    ensures LineText(WithText(l, text), 0) == text
    ensures SetText(l, 0, text).ok
  {
  }

  // ---------------------------------------------------------------------------
  // ClearStyles
  // ---------------------------------------------------------------------------

  predicate IsPinned(a: Anchor) { a.style.kind == Pinned }

  /** The anchors a line keeps after ClearStyles. */
  function KeptByClear(segs: seq<Anchor>, clearPinned: bool): (r: seq<Anchor>)
  {
    if clearPinned || |segs| == 0 then []
    else KeptByClear(segs[..|segs| - 1], false) + (if IsPinned(segs[|segs| - 1]) then [segs[|segs| - 1]] else [])
  }

  /** TextLine.ClearStyles: detaches every anchor but, unless clearPinned, the pinned ones. */
  method ClearStyles(segs: seq<Anchor>, clearPinned: bool) returns (r: seq<Anchor>)
    ensures r == KeptByClear(segs, clearPinned)
  {
    r := segs;
    var offset := 0;
    ghost var done := 0;
    while |r| > offset
      invariant 0 <= offset <= |r| && 0 <= done <= |segs|
      invariant r[..offset] == KeptByClear(segs[..done], clearPinned)
      invariant r[offset..] == segs[done..]
      decreases |r| - offset
    {
      assert segs[..done + 1][..done] == segs[..done];
      if !clearPinned && IsPinned(r[offset]) {
        offset := offset + 1;
        done := done + 1;
        continue;
      }
      // Setting the anchor's line to null removes it from this list.
      r := r[..offset] + r[offset + 1..];
      done := done + 1;
    }
    assert segs[..done] == segs;
  }

  lemma {:induction false} KeptByClearAppend(s: seq<Anchor>, t: seq<Anchor>, clearPinned: bool)
    ensures KeptByClear(s + t, clearPinned) == KeptByClear(s, clearPinned) + KeptByClear(t, clearPinned)
    decreases |t|
  {
    if !clearPinned && |t| > 0 {
      assert (s + t)[..|s + t| - 1] == s + t[..|t| - 1];
      KeptByClearAppend(s, t[..|t| - 1], false);
    } else if |t| == 0 {
      assert s + t == s;
    }
  }

  lemma {:induction false} KeptByClearMembers(segs: seq<Anchor>, a: Anchor)
    ensures a in KeptByClear(segs, false) <==> a in segs && IsPinned(a)
    decreases |segs|
  {
    if |segs| > 0 {
      KeptByClearMembers(segs[..|segs| - 1], a);
      assert segs == segs[..|segs| - 1] + [segs[|segs| - 1]];
    }
  }

  /**
   * ClearStyles(true) empties the list. ClearStyles(false) keeps exactly the
   * pinned anchors, and keeps them in their order: clearing a concatenation is
   * the concatenation of the cleared parts.
   */
  lemma ClearKeepsPinnedInOrder(segs: seq<Anchor>, s: seq<Anchor>, t: seq<Anchor>, a: Anchor)
    ensures KeptByClear(segs, true) == []
    ensures a in KeptByClear(segs, false) <==> a in segs && IsPinned(a)
    ensures KeptByClear(s + t, false) == KeptByClear(s, false) + KeptByClear(t, false)
  {
    KeptByClearMembers(segs, a);
    KeptByClearAppend(s, t, false);
  }

  /** Anchors without a pinned one are all detached. */
  lemma {:induction false} ClearWithoutPinned(segs: seq<Anchor>)
    requires forall k :: 0 <= k < |segs| ==> !IsPinned(segs[k])
    ensures KeptByClear(segs, false) == []
    decreases |segs|
  {
    if |segs| > 0 {
      ClearWithoutPinned(segs[..|segs| - 1]);
    }
  }
}
