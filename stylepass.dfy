/**
 * The per-edit anchor pass of the line document (ModifyStyledTextSegments):
 * after a character is typed or a range erased on one line, every anchor of
 * that line is dropped, shifted or re-matched, and then the styles search the
 * position again.
 */
module StylePass {
  import opened Wrappers
  import opened Chars
  import opened TextStyles
  import opened TextLines
  import opened LineStore
  import opened Segments
  import opened Seqs

  /** FindStyles: the segment of every style of the view, in order, that finds one at idx. */
  function FindStyles(styles: seq<Style>, text: string, lineIndex: int, idx: int): seq<Cand>
    requires idx >= 0
    decreases |styles|
  {
    if |styles| == 0 then []
    else
      var f := Find(styles[0], text, lineIndex, idx);
      (if f.Some? then [Cand(styles[0], f.value)] else []) + FindStyles(styles[1..], text, lineIndex, idx)
  }

  /** FindStyles yields exactly the styles that find something, with what they find. */
  lemma {:induction false} FindStylesMembers(styles: seq<Style>, text: string, lineIndex: int, idx: int, c: Cand)
    requires idx >= 0
    ensures c in FindStyles(styles, text, lineIndex, idx) <==>
      c.style in styles && Find(c.style, text, lineIndex, idx) == Some(c.found)
    decreases |styles|
  {
    if |styles| > 0 {
      FindStylesMembers(styles[1..], text, lineIndex, idx, c);
      assert styles == [styles[0]] + styles[1..];
    }
  }

  /** The first candidate of a style with the given key. */
  function FirstWithKey(cs: seq<Cand>, key: string): Option<Cand>
    decreases |cs|
  {
    if |cs| == 0 then None
    else if cs[0].style.nameKey == key then Some(cs[0])
    else FirstWithKey(cs[1..], key)
  }

  /** The foreach loop with a break over befores or afters. */
  method FirstOfKey(cs: seq<Cand>, key: string) returns (r: Option<Cand>)
    ensures r == FirstWithKey(cs, key)
  {
    var i := 0;
    while i < |cs|
      invariant 0 <= i <= |cs|
      invariant FirstWithKey(cs[i..], key) == FirstWithKey(cs, key)
    {
      assert cs[i..][1..] == cs[i + 1..];
      if cs[i].style.nameKey == key {
        return Some(cs[i]);
      }
      i := i + 1;
    }
    return None;
  }

  /** The answer has the key and comes first among those with it; None means none has it. */
  lemma {:induction false} FirstWithKeyIsFirst(cs: seq<Cand>, key: string)
    ensures var r := FirstWithKey(cs, key);
      && (r.Some? ==> (exists i :: (0 <= i < |cs| && cs[i] == r.value
            && r.value.style.nameKey == key && forall h :: 0 <= h < i ==> cs[h].style.nameKey != key)))
      && (r.None? <==> forall c :: c in cs ==> c.style.nameKey != key)
    decreases |cs|
  {
    if |cs| > 0 {
      FirstWithKeyIsFirst(cs[1..], key);
      assert cs == [cs[0]] + cs[1..];
      var r := FirstWithKey(cs[1..], key);
      if cs[0].style.nameKey != key && r.Some? {
        var i :| 0 <= i < |cs[1..]| && cs[1..][i] == r.value
          && r.value.style.nameKey == key && forall h :: 0 <= h < i ==> cs[1..][h].style.nameKey != key;
        assert cs[i + 1] == r.value;
        assert forall h :: 0 <= h < i + 1 ==> cs[h].style.nameKey != key by {
          forall h | 0 <= h < i + 1 ensures cs[h].style.nameKey != key {
            if h > 0 { assert cs[h] == cs[1..][h - 1]; }
          }
        }
      }
    }
  }

  // ---------------------------------------------------------------------------
  // One anchor
  // ---------------------------------------------------------------------------

  /**
   * The change the pass reacts to: the point `rel` on a line of length
   * `lineLen`, the (non-negative) length typed or erased, and what the view's
   * styles find before and after the point.
   */
  datatype Change = Change(rel: int, length: int, isErase: bool, lineLen: int, befores: seq<Cand>, afters: seq<Cand>)

  /** ModifyStyledTextSegments' set-up: erase detection, sign, and the two search positions. */
  function MakeChange(styles: seq<Style>, l: Line, rel: int, c: char, length: int): Change
  {
    var isErase := c == '\0' && length <= 0;
    var startSearch := if rel - 1 > 0 then rel - 1 else 0;
    var afterIdx := if isErase then startSearch + 1 else if Len(l) < startSearch + 2 then Len(l) else startSearch + 2;
    Change(rel, if isErase then -length else length, isErase, Len(l),
      FindStyles(styles, Txt(l), l.index, startSearch), FindStyles(styles, Txt(l), l.index, afterIdx))
  }

  /** An anchor moved by the edit: forward by an insert, back by an erase. */
  function Shifted(a: Anchor, ch: Change): Anchor
  {
    if ch.isErase then a.(index := a.index - ch.length) else a.(index := a.index + ch.length)
  }

  /** An Automatic anchor lying wholly inside an erased range. */
  predicate ErasedInside(a: Anchor, ch: Change)
  {
    ch.isErase && Kind(a) == Automatic && a.index >= ch.rel && a.index + a.length <= ch.rel + ch.length
  }

  /** An Automatic anchor touching the point of the change. */
  predicate Touches(a: Anchor, ch: Change)
  {
    Kind(a) == Automatic && AnchorContains(a, ch.rel, ch.length, ch.isErase, true)
  }

  datatype Choice = Choice(before: Option<Cand>, after: Option<Cand>)

  /**
   * The segments that replace a touched anchor: the first of its key before
   * the point, else the first after it; the after one is dropped when there is
   * no before one or when both hold the same object.
   */
  function Chosen(a: Anchor, ch: Change): Choice
  {
    var b := FirstWithKey(ch.befores, Key(a));
    var f := FirstWithKey(ch.afters, Key(a));
    if b.None? then Choice(f, None)
    else if f.Some? && b.value.found.payload == f.value.found.payload then Choice(b, None)
    else Choice(b, f)
  }

  /** The found segment is the anchor itself: same start, length and object. */
  predicate Unchanged(a: Anchor, c: Cand)
  {
    c.found.index == a.index && c.found.length == a.length && Some(c.found.payload) == a.obj
  }

  /** What one anchor becomes (none or itself, perhaps shifted) and which anchors are appended. */
  datatype Outcome = Outcome(kept: seq<Anchor>, added: seq<Anchor>, next: nat)

  function Step(a: Anchor, ch: Change, next: nat): Outcome
  {
    if a.index > ch.lineLen then Outcome([], [], next)
    else if ErasedInside(a, ch) then Outcome([], [], next)
    else if Touches(a, ch) then
      var m := Chosen(a, ch);
      if m.before.None? then Outcome([], [], next)
      else if Unchanged(a, m.before.value) then Outcome([a], [], next)
      else
        var b := NewSegment(next, m.before.value);
        var kept := if AnchorContains(b, a.index, a.length, true, true) then [] else [a];
        if m.after.Some? then Outcome(kept, [b, NewSegment(next + 1, m.after.value)], next + 2)
        else Outcome(kept, [b], next + 1)
    else if a.index > ch.rel then Outcome([Shifted(a, ch)], [], next)
    else Outcome([a], [], next)
  }

  /** The appended anchors carry the identities next, next + 1, ... in order. */
  predicate FreshRun(added: seq<Anchor>, next: nat, next2: nat)
  {
    next2 == next + |added| && forall i :: 0 <= i < |added| ==> added[i].id == next + i
  }

  /**
   * The rules of the pass for one anchor:
   * one starting beyond the line is detached; an Automatic one wholly inside an
   * erased range is detached; a touched Automatic one is kept unmoved or
   * replaced by segments its styles find right now; any other one starting
   * after the point is shifted by the length (so a kept Pinned anchor can go
   * before the erased range or below zero), and one at or before the point
   * stays where it is.
   */
  lemma StepRules(a: Anchor, ch: Change, next: nat)
    ensures var o := Step(a, ch, next);
      && |o.kept| <= 1 && FreshRun(o.added, next, o.next)
      && (forall x :: x in o.kept ==> x.id == a.id)
      && (a.index > ch.lineLen ==> o.kept == [] && o.added == [])
      && (ErasedInside(a, ch) ==> o.kept == [] && o.added == [])
      && (Touches(a, ch) ==> (forall x :: x in o.kept ==> x == a))
      && (Touches(a, ch) ==> forall x :: x in o.added ==>
            exists c :: (c in ch.befores || c in ch.afters) && c.style.nameKey == Key(a) && x == NewSegment(x.id, c))
      && (Kind(a) != Automatic && a.index <= ch.lineLen ==>
            o.added == [] && o.kept == [if a.index > ch.rel then Shifted(a, ch) else a])
      && (a.index <= ch.rel ==> forall x :: x in o.kept ==> x == a)
  {
    if a.index <= ch.lineLen && !ErasedInside(a, ch) && Touches(a, ch) {
      var m := Chosen(a, ch);
      FirstWithKeyIsFirst(ch.befores, Key(a));
      FirstWithKeyIsFirst(ch.afters, Key(a));
      assert m.before.Some? ==> (m.before.value in ch.befores || m.before.value in ch.afters) && m.before.value.style.nameKey == Key(a);
      assert m.after.Some? ==> m.after.value in ch.afters && m.after.value.style.nameKey == Key(a);
    }
  }

  /** A Pinned anchor after the point of an erase moves back by the erased length, even below zero. */
  lemma PinnedShiftsBelowZero(style: Style)
    requires style.kind == Pinned
    ensures var a := Anchor(1, style, 3, 2, None, None);
      var ch := Change(1, 5, true, 10, [], []);
      Step(a, ch, 7) == Outcome([a.(index := -2)], [], 7)
  {
  }

  // ---------------------------------------------------------------------------
  // The whole line
  // ---------------------------------------------------------------------------

  datatype Pass = Pass(kept: seq<Anchor>, added: seq<Anchor>, next: nat)

  /**
   * The pass over a line's list u: each anchor's outcome, in list order, then
   * every appended anchor after the original ones, in the order appended.
   */
  function AlterSpec(u: seq<Anchor>, ch: Change, next: nat): Pass
    decreases |u|
  {
    if |u| == 0 then Pass([], [], next)
    else
      var o := Step(u[0], ch, next);
      var rest := AlterSpec(u[1..], ch, o.next);
      Pass(o.kept + rest.kept, o.added + rest.added, rest.next)
  }

  function Combine(kept: seq<Anchor>, added: seq<Anchor>, p: Pass): Pass
  {
    Pass(kept + p.kept, added + p.added, p.next)
  }

  lemma AlterSpecUnfold(u: seq<Anchor>, j: int, ch: Change, next: nat)
    requires 0 <= j < |u|
    ensures var o := Step(u[j], ch, next);
      AlterSpec(u[j..], ch, next) == Combine(o.kept, o.added, AlterSpec(u[j + 1..], ch, o.next))
  {
    assert u[j..][0] == u[j];
    assert u[j..][1..] == u[j + 1..];
  }

  lemma CombineAssoc(k1: seq<Anchor>, a1: seq<Anchor>, k2: seq<Anchor>, a2: seq<Anchor>, p: Pass)
    ensures Combine(k1, a1, Combine(k2, a2, p)) == Combine(k1 + k2, a1 + a2, p)
  {
    assert k1 + (k2 + p.kept) == k1 + k2 + p.kept;
    assert a1 + (a2 + p.added) == a1 + a2 + p.added;
  }

  lemma ListAfterDrop(kept: seq<Anchor>, mid: seq<Anchor>, added: seq<Anchor>)
    requires |mid| > 0
    ensures var l := kept + mid + added;
      l[|kept|] == mid[0] && l[..|kept|] + l[|kept| + 1..] == kept + mid[1..] + added
  {
    var l := kept + mid + added;
    assert l[..|kept|] == kept;
    assert l[|kept| + 1..] == mid[1..] + added;
  }

  lemma ListAfterKeep(kept: seq<Anchor>, mid: seq<Anchor>, added: seq<Anchor>, x: Anchor)
    requires |mid| > 0
    ensures (kept + mid + added)[|kept| := x] == (kept + [x]) + mid[1..] + added
  {
    var l := kept + mid + added;
    var r := (kept + [x]) + mid[1..] + added;
    assert |l[|kept| := x]| == |r|;
    forall i | 0 <= i < |r| ensures l[|kept| := x][i] == r[i] {
      if i < |kept| {
      } else if i == |kept| {
      } else if i < |kept| + |mid| {
        assert r[i] == mid[1..][i - |kept| - 1];
      } else {
        assert r[i] == added[i - |kept| - |mid|];
      }
    }
  }

  lemma ListAfterAppend(kept: seq<Anchor>, mid: seq<Anchor>, added: seq<Anchor>, xs: seq<Anchor>)
    ensures kept + mid + added + xs == kept + mid + (added + xs)
  {
  }

  /**
   * The re-match of a touched Automatic anchor: whether it stays and which
   * found segments are attached after the list.
   */
  method RematchAnchor(current: Anchor, ch: Change, next: nat) returns (keep: bool, appended: seq<Anchor>, next2: nat)
    requires current.index <= ch.lineLen && !ErasedInside(current, ch) && Touches(current, ch)
    ensures Step(current, ch, next) == Outcome(if keep then [current] else [], appended, next2)
  {
    var before := FirstOfKey(ch.befores, Key(current));
    var after := FirstOfKey(ch.afters, Key(current));
    if before.None? {
      before, after := after, None;
    } else if after.Some? && before.value.found.payload == after.value.found.payload {
      after := None;
    }
    if before.None? {
      // the segment is no longer found
      return false, [], next;
    }
    if Unchanged(current, before.value) {
      return true, [], next;
    }
    var b := NewSegment(next, before.value);
    keep := !AnchorContains(b, current.index, current.length, true, true);
    appended, next2 := [b], next + 1;
    if after.Some? {
      appended, next2 := appended + [NewSegment(next2, after.value)], next2 + 1;
    }
  }

  /**
   * The branches of the loop body for one anchor: whether it is detached,
   * what it becomes otherwise, and the anchors attached after the list.
   */
  method AnchorOutcome(current: Anchor, ch: Change, next: nat) returns (detach: bool, replacement: Anchor, appended: seq<Anchor>, next2: nat)
    ensures Step(current, ch, next) == Outcome(if detach then [] else [replacement], appended, next2)
  {
    replacement, appended, next2 := current, [], next;
    if current.index > ch.lineLen {
      // the anchor starts after the end of the line
      detach := true;
    } else if ErasedInside(current, ch) {
      // wholly inside the erased range
      detach := true;
    } else if Touches(current, ch) {
      var keep;
      keep, appended, next2 := RematchAnchor(current, ch, next);
      detach := !keep;
    } else if current.index > ch.rel {
      detach, replacement := false, Shifted(current, ch);
    } else {
      detach := false;
    }
  }

  /** The pass of one view over one line's list, in place, as the source's loop does it. */
  method AlterLine(u: seq<Anchor>, ch: Change, next: nat) returns (r: seq<Anchor>, next2: nat)
    ensures var p := AlterSpec(u, ch, next); r == p.kept + p.added && next2 == p.next
  {
    var list := u;
    var n, offsetCount := 0, 0;
    next2 := next;
    ghost var j := 0;
    ghost var kept: seq<Anchor> := [];
    ghost var added: seq<Anchor> := [];
    while n < |list| - offsetCount
      invariant 0 <= j <= |u| && n == |kept| && offsetCount == |added|
      invariant list == kept + u[j..] + added
      invariant Combine(kept, added, AlterSpec(u[j..], ch, next2)) == AlterSpec(u, ch, next)
      decreases |list| - offsetCount - n
    {
      ghost var mid := u[j..];
      ListAfterDrop(kept, mid, added);
      var current := list[n];
      ghost var o := Step(current, ch, next2);
      AlterSpecUnfold(u, j, ch, next2);
      CombineAssoc(kept, added, o.kept, o.added, AlterSpec(u[j + 1..], ch, o.next));
      assert mid[1..] == u[j + 1..];
      var detach, replacement, appended;
      detach, replacement, appended, next2 := AnchorOutcome(current, ch, next2);
      if detach {
        list := list[..n] + list[n + 1..];
        n := n - 1;
        assert kept + o.kept == kept;
      } else {
        ListAfterKeep(kept, mid, added, replacement);
        list := list[n := replacement];
      }
      assert list == (kept + o.kept) + u[j + 1..] + added;
      ListAfterAppend(kept + o.kept, u[j + 1..], added, appended);
      list := list + appended;
      offsetCount := offsetCount + |appended|;
      n := n + 1;
      kept, added, j := kept + o.kept, added + o.added, j + 1;
    }
    assert u[j..] == [];
    r := list;
  }

  /** One anchor's outcome keeps at most its identity and hands out a fresh run. */
  lemma StepIds(a: Anchor, ch: Change, next: nat)
    ensures var o := Step(a, ch, next);
      IdsOf(o.kept) <= multiset{a.id} && FreshRun(o.added, next, o.next)
  {
    var o := Step(a, ch, next);
    StepRules(a, ch, next);
    if |o.kept| == 1 {
      SingletonIds(o.kept[0]);
    } else {
      assert o.kept == [];
    }
  }

  lemma FreshRunAppend(a1: seq<Anchor>, a2: seq<Anchor>, n0: nat, n1: nat, n2: nat)
    requires FreshRun(a1, n0, n1) && FreshRun(a2, n1, n2)
    ensures FreshRun(a1 + a2, n0, n2)
  {
    var all := a1 + a2;
    forall i | 0 <= i < |all| ensures all[i].id == n0 + i {
      if i >= |a1| {
        assert all[i] == a2[i - |a1|];
      }
    }
  }

  /**
   * The pass keeps identities of the line's list, drops some, and hands out
   * a fresh run from next.
   */
  lemma {:induction false} AlterSpecIds(u: seq<Anchor>, ch: Change, next: nat)
    ensures var p := AlterSpec(u, ch, next);
      IdsOf(p.kept) <= IdsOf(u) && FreshRun(p.added, next, p.next)
    decreases |u|
  {
    if |u| > 0 {
      var o := Step(u[0], ch, next);
      StepIds(u[0], ch, next);
      AlterSpecIds(u[1..], ch, o.next);
      var rest := AlterSpec(u[1..], ch, o.next);
      IdsOfAppend(o.kept, rest.kept);
      IdsOfAppend([u[0]], u[1..]);
      SingletonIds(u[0]);
      assert [u[0]] + u[1..] == u;
      FreshRunAppend(o.added, rest.added, next, o.next, rest.next);
    }
  }

  /** A fresh run holds each identity of [next, next2) once and nothing else. */
  lemma {:induction false} FreshRunIds(added: seq<Anchor>, next: nat, next2: nat, id: AnchorId)
    requires FreshRun(added, next, next2)
    ensures IdsOf(added)[id] == if next <= id < next2 then 1 else 0
    decreases |added|
  {
    if |added| > 0 {
      var init := added[..|added| - 1];
      assert FreshRun(init, next, next2 - 1) by {
        forall i | 0 <= i < |init| ensures init[i].id == next + i {
          assert init[i] == added[i];
        }
      }
      FreshRunIds(init, next, next2 - 1, id);
      assert added == init + [added[|added| - 1]];
      IdsOfAppend(init, [added[|added| - 1]]);
      SingletonIds(added[|added| - 1]);
    }
  }

  /** The line's new list, kept anchors then appended ones, refreshes the old list. */
  lemma AlterLineRefreshes(u: seq<Anchor>, ch: Change, next: nat)
    requires forall id :: id in IdsOf(u) ==> id < next
    ensures var p := AlterSpec(u, ch, next);
      next <= p.next && Refreshes(p.kept + p.added, u, next, p.next)
  {
    var p := AlterSpec(u, ch, next);
    AlterSpecIds(u, ch, next);
    IdsOfAppend(p.kept, p.added);
    forall id: AnchorId ensures IdsOf(p.kept + p.added)[id] <= (if next <= id < p.next then 1 else IdsOf(u)[id]) {
      FreshRunIds(p.added, next, p.next, id);
      if next <= id {
        assert id !in IdsOf(u);
      }
    }
  }

  // ---------------------------------------------------------------------------
  // ModifyStyledTextSegments and FakeFinalizingKey
  // ---------------------------------------------------------------------------

  /** CharacterIsFinalizer: the characters that finish a word. */
  predicate CharacterIsFinalizer(o: CharOracle, c: char)
  {
    c == '\0' || IsWhiteSpace(o, c) || IsPunctuation(o, c) || IsSeparator(o, c) || IsControl(o, c) || IsSymbol(o, c) || c == '\n'
  }

  /** With the .NET table for ASCII: space, '.', '+' and NUL finalize; letters and digits do not. */
  lemma FinalizerExamples(o: CharOracle)
    requires Conforms(o)
    ensures CharacterIsFinalizer(o, ' ') && CharacterIsFinalizer(o, '.') && CharacterIsFinalizer(o, '+')
    ensures CharacterIsFinalizer(o, '\0') && CharacterIsFinalizer(o, '\n')
    ensures !CharacterIsFinalizer(o, 'a') && !CharacterIsFinalizer(o, 'Z') && !CharacterIsFinalizer(o, '7')
  {
    assert o.category('a') == AsciiCategory('a');
    assert o.category('Z') == AsciiCategory('Z');
    assert o.category('7') == AsciiCategory('7');
    assert o.category(' ') == AsciiCategory(' ');
    assert o.category('.') == AsciiCategory('.');
    assert o.category('+') == AsciiCategory('+');
  }

  /** Every identity on line k is below next. */
  lemma LineBelow(segs: Segs, next: nat, k: int)
    requires Below(segs, next) && 0 <= k < |segs|
    ensures forall id :: id in IdsOf(segs[k]) ==> id < next
  {
    AnchorIdsAround(segs, k);
    forall id | id in IdsOf(segs[k]) ensures id < next {
      CountOfPart(AnchorIds(segs[..k]), IdsOf(segs[k]), AnchorIds(segs[k + 1..]), AnchorIds(segs), id);
    }
  }

  /**
   * ModifyStyledTextSegments for one view on line k: when `alter` is set, the
   * pass over the line's anchors, then the search at the point for one
   * position. The store stays sound and, under the line-start invariant, no
   * other line changes.
   */
  method ModifyStyledTextSegments(lines: seq<Line>, segs: Segs, next: nat, chars: CharOracle, styles: seq<Style>,
                                  k: int, rel: int, c: char, alter: bool, length: int)
    returns (r: Segs, next2: nat)
    requires |segs| == |lines| && 0 <= k < |lines| && lines[k].index >= 0 && Sound(segs, next)
    ensures |r| == |segs| && Sound(r, next2) && next <= next2
    ensures LineStarts(lines) ==> forall j :: 0 <= j < |lines| && j != k ==> r[j] == segs[j]
  {
    var startSearch := if rel - 1 > 0 then rel - 1 else 0;
    r, next2 := segs, next;
    if alter {
      var ch := MakeChange(styles, lines[k], rel, c, length);
      var t;
      LineBelow(segs, next, k);
      AlterLineRefreshes(segs[k], ch, next);
      t, next2 := AlterLine(segs[k], ch, next);
      SoundAfterReplace(segs, next, k, t, next2);
      r := segs[k := t];
    }
    var found;
    r, next2, found := SearchAndApplyTo(lines, r, next2, chars, styles, k, startSearch, 1, CharacterIsFinalizer(chars, c));
  }

  /**
   * The `foreach (var textView in GetTextViews())` loop around
   * ModifyStyledTextSegments in TextInsert and TextRemove: one pass per
   * registered view, in registration order.
   */
  method ModifyForViews(lines: seq<Line>, segs: Segs, next: nat, chars: CharOracle, views: seq<seq<Style>>,
                        k: int, rel: int, c: char, alter: bool, length: int)
    returns (r: Segs, next2: nat)
    requires |segs| == |lines| && 0 <= k < |lines| && lines[k].index >= 0 && Sound(segs, next)
    ensures |r| == |segs| && Sound(r, next2) && next <= next2
    ensures |views| == 0 ==> r == segs && next2 == next
    ensures LineStarts(lines) ==> forall j :: 0 <= j < |lines| && j != k ==> r[j] == segs[j]
  {
    r, next2 := segs, next;
    var v := 0;
    while v < |views|
      invariant 0 <= v <= |views|
      invariant |r| == |segs| && Sound(r, next2) && next <= next2
      invariant v == 0 ==> r == segs && next2 == next
      invariant LineStarts(lines) ==> forall j :: 0 <= j < |lines| && j != k ==> r[j] == segs[j]
    {
      r, next2 := ModifyStyledTextSegments(lines, r, next2, chars, views[v], k, rel, c, alter, length);
      v := v + 1;
    }
  }

  /**
   * The `foreach` loop of TextAppendLine: every registered view searches
   * line k from index over length positions, as a finalizing change.
   */
  method SearchForViews(lines: seq<Line>, segs: Segs, next: nat, chars: CharOracle, views: seq<seq<Style>>,
                        k: int, index: int, length: int)
    returns (r: Segs, next2: nat)
    requires |segs| == |lines| && 0 <= k < |lines| && index >= 0 && lines[k].index >= 0 && Sound(segs, next)
    ensures |r| == |segs| && Sound(r, next2) && next <= next2
    ensures |views| == 0 ==> r == segs && next2 == next
    ensures LineStarts(lines) ==> forall j :: 0 <= j < |lines| && j != k ==> r[j] == segs[j]
  {
    r, next2 := segs, next;
    var v := 0;
    while v < |views|
      invariant 0 <= v <= |views|
      invariant |r| == |segs| && Sound(r, next2) && next <= next2
      invariant v == 0 ==> r == segs && next2 == next
      invariant LineStarts(lines) ==> forall j :: 0 <= j < |lines| && j != k ==> r[j] == segs[j]
    {
      var found;
      r, next2, found := SearchAndApplyTo(lines, r, next2, chars, views[v], k, index, length, true);
      v := v + 1;
    }
  }

  /**
   * FakeFinalizingKey: nothing for an index the lookup gives -1, otherwise
   * every view searches the index's line at that point as a finalizing change,
   * without altering the anchors.
   */
  method FakeFinalizingKey(lines: seq<Line>, segs: Segs, next: nat, chars: CharOracle, views: seq<seq<Style>>, index: int)
    returns (r: Segs, next2: nat)
    requires |segs| == |lines| && LineStarts(lines) && Sound(segs, next)
    ensures |r| == |segs| && Sound(r, next2) && next <= next2
    ensures LineFromCharIndex(lines, index) == -1 ==> r == segs && next2 == next
    ensures forall j :: 0 <= j < |lines| && j != LineFromCharIndex(lines, index) ==> r[j] == segs[j]
  {
    var lineIndex := LineFromCharIndex(lines, index);
    if lineIndex == -1 {
      return segs, next;
    }
    LookupInRange(lines, index);
    LineBounds(lines, lineIndex);
    r, next2 := segs, next;
    var v := 0;
    while v < |views|
      invariant |r| == |segs| && Sound(r, next2) && next <= next2
      invariant forall j :: 0 <= j < |lines| && j != lineIndex ==> r[j] == segs[j]
    {
      r, next2 := ModifyStyledTextSegments(lines, r, next2, chars, views[v], lineIndex, index - lines[lineIndex].index, '\0', false, 0);
      v := v + 1;
    }
  }
}
