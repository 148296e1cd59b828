/**
 * The styled-segment manager of the line-based document. The anchors are kept
 * per line, `segs[k]` being line k's StyledTextSegments list in list order;
 * the list an anchor is in is its TextLine. Every operation takes the lines
 * and the lists and answers the new lists.
 */
module Segments {
  import opened Wrappers
  import opened Chars
  import opened TextStyles
  import opened TextLines
  import opened LineStore
  import opened Seqs

  type Segs = seq<seq<Anchor>>

  // ---------------------------------------------------------------------------
  // Anchor identities
  // ---------------------------------------------------------------------------

  function IdsOf(s: seq<Anchor>): multiset<AnchorId>
    decreases |s|
  {
    if |s| == 0 then multiset{} else IdsOf(s[..|s| - 1]) + multiset{s[|s| - 1].id}
  }

  function AnchorIds(segs: Segs): multiset<AnchorId>
    decreases |segs|
  {
    if |segs| == 0 then multiset{} else AnchorIds(segs[..|segs| - 1]) + IdsOf(segs[|segs| - 1])
  }

  /** No anchor is in two lists, nor twice in one: each is in exactly its own line's list. */
  ghost predicate Unique(segs: Segs)
  {
    forall id :: AnchorIds(segs)[id] <= 1
  }

  /** Every anchor identity is below the next one to hand out. */
  predicate Below(segs: Segs, next: nat)
  {
    forall id :: id in AnchorIds(segs) ==> id < next
  }

  ghost predicate Sound(segs: Segs, next: nat)
  {
    Unique(segs) && Below(segs, next)
  }

  /** A new line with no anchors keeps the store sound. */
  lemma SoundWithEmptyLine(segs: Segs, next: nat)
    requires Sound(segs, next)
    ensures Sound(segs + [[]], next)
  {
    assert (segs + [[]])[..|segs|] == segs;
    assert AnchorIds(segs + [[]]) == AnchorIds(segs);
  }

  lemma {:induction false} IdsOfAppend(s: seq<Anchor>, t: seq<Anchor>)
    ensures IdsOf(s + t) == IdsOf(s) + IdsOf(t)
    decreases |t|
  {
    if |t| == 0 {
      assert s + t == s;
    } else {
      DropLast(s, t);
      IdsOfAppend(s, t[..|t| - 1]);
    }
  }

  lemma {:induction false} AnchorIdsAppend(a: Segs, b: Segs)
    ensures AnchorIds(a + b) == AnchorIds(a) + AnchorIds(b)
    decreases |b|
  {
    if |b| == 0 {
      assert a + b == a;
    } else {
      DropLast(a, b);
      AnchorIdsAppend(a, b[..|b| - 1]);
    }
  }

  lemma SingleIds(s: seq<Anchor>)
    ensures AnchorIds([s]) == IdsOf(s)
  {
    assert [s][..0] == [];
  }

  /** The identities before, at and after line k. */
  lemma AnchorIdsAround(segs: Segs, k: int)
    requires 0 <= k < |segs|
    ensures AnchorIds(segs) == AnchorIds(segs[..k]) + IdsOf(segs[k]) + AnchorIds(segs[k + 1..])
  {
    SplitAt(segs, k);
    AnchorIdsAppend(segs[..k] + [segs[k]], segs[k + 1..]);
    AnchorIdsAppend(segs[..k], [segs[k]]);
    SingleIds(segs[k]);
  }

  /** Replacing line k's list exchanges its identities. */
  lemma AnchorIdsReplace(segs: Segs, k: int, t: seq<Anchor>)
    requires 0 <= k < |segs|
    ensures AnchorIds(segs[k := t]) + IdsOf(segs[k]) == AnchorIds(segs) + IdsOf(t)
  {
    AnchorIdsAround(segs, k);
    ReplaceAt(segs, k, t);
    AnchorIdsAppend(segs[..k] + [t], segs[k + 1..]);
    AnchorIdsAppend(segs[..k], [t]);
    SingleIds(t);
  }

  /**
   * The new list t of a line that held s keeps at most the old identities,
   * plus at most one of each fresh identity in [next, next2).
   */
  ghost predicate Refreshes(t: seq<Anchor>, s: seq<Anchor>, next: nat, next2: nat)
  {
    forall id :: IdsOf(t)[id] <= (if next <= id < next2 then 1 else IdsOf(s)[id])
  }

  lemma SoundAfterReplace(segs: Segs, next: nat, k: int, t: seq<Anchor>, next2: nat)
    requires Sound(segs, next) && 0 <= k < |segs| && next <= next2
    requires Refreshes(t, segs[k], next, next2)
    ensures Sound(segs[k := t], next2)
  {
    var r := segs[k := t];
    AnchorIdsReplace(segs, k, t);
    AnchorIdsAround(segs, k);
    forall id: AnchorId
      ensures AnchorIds(r)[id] <= 1 && (id in AnchorIds(r) ==> id < next2)
    {
      CountOfSum(AnchorIds(r), IdsOf(segs[k]), AnchorIds(segs), IdsOf(t), id);
      CountOfPart(AnchorIds(segs[..k]), IdsOf(segs[k]), AnchorIds(segs[k + 1..]), AnchorIds(segs), id);
      assert IdsOf(t)[id] <= (if next <= id < next2 then 1 else IdsOf(segs[k])[id]);
      if id >= next {
        assert AnchorIds(segs)[id] == 0;
      }
    }
  }

  /** A list may always be replaced by one of its sub-multisets. */
  lemma RefreshesBySubset(t: seq<Anchor>, s: seq<Anchor>, next: nat)
    requires IdsOf(t) <= IdsOf(s)
    ensures Refreshes(t, s, next, next)
  {
  }

  // ---------------------------------------------------------------------------
  // Attaching and detaching: the TextAnchor.TextLine setter
  // ---------------------------------------------------------------------------

  /** Line list s without the anchor of identity id. */
  function Without(s: seq<Anchor>, id: AnchorId): seq<Anchor>
    decreases |s|
  {
    if |s| == 0 then []
    else Without(s[..|s| - 1], id) + (if s[|s| - 1].id == id then [] else [s[|s| - 1]])
  }

  lemma {:induction false} IdsOfWithout(s: seq<Anchor>, id: AnchorId)
    ensures IdsOf(Without(s, id)) == IdsOf(s)[id := 0]
    decreases |s|
  {
    if |s| > 0 {
      var last := s[|s| - 1];
      IdsOfWithout(s[..|s| - 1], id);
      IdsOfAppend(Without(s[..|s| - 1], id), if last.id == id then [] else [last]);
      if last.id != id {
        assert [last][..0] == [];
      }
    }
  }

  lemma {:induction false} WithoutMembers(s: seq<Anchor>, id: AnchorId, a: Anchor)
    ensures a in Without(s, id) <==> a in s && a.id != id
    decreases |s|
  {
    if |s| > 0 {
      WithoutMembers(s[..|s| - 1], id, a);
      assert s == s[..|s| - 1] + [s[|s| - 1]];
    }
  }

  /** Setting TextLine to null: the anchor leaves the list it is in. */
  function Detach(segs: Segs, id: AnchorId): Segs
  {
    seq(|segs|, j requires 0 <= j < |segs| => Without(segs[j], id))
  }

  lemma {:induction false} DetachIds(segs: Segs, id: AnchorId)
    ensures AnchorIds(Detach(segs, id)) == AnchorIds(segs)[id := 0]
    decreases |segs|
  {
    if |segs| > 0 {
      var n := |segs| - 1;
      assert Detach(segs, id)[..n] == Detach(segs[..n], id);
      DetachIds(segs[..n], id);
      IdsOfWithout(segs[n], id);
    }
  }

  /** Setting TextLine to line k: the anchor is appended to line k's list. */
  function Attach(segs: Segs, k: int, a: Anchor): Segs
    requires 0 <= k < |segs|
  {
    segs[k := segs[k] + [a]]
  }

  lemma AttachIds(segs: Segs, k: int, a: Anchor)
    requires 0 <= k < |segs|
    ensures AnchorIds(Attach(segs, k, a)) == AnchorIds(segs) + multiset{a.id}
  {
    var t := segs[k] + [a];
    var r := Attach(segs, k, a);
    AnchorIdsReplace(segs, k, t);
    IdsOfAppend(segs[k], [a]);
    SingletonIds(a);
    forall id: AnchorId ensures AnchorIds(r)[id] == (AnchorIds(segs) + multiset{a.id})[id] {
      CountOfSum(AnchorIds(r), IdsOf(segs[k]), AnchorIds(segs), IdsOf(t), id);
      CountOfSum(IdsOf(segs[k]), multiset{a.id}, IdsOf(t), multiset{}, id);
    }
  }

  lemma SingletonIds(a: Anchor)
    ensures IdsOf([a]) == multiset{a.id}
  {
    assert [a][..0] == [];
  }

  /**
   * Detaching removes the anchor from every list and keeps everything else;
   * attaching a fresh anchor keeps the store sound with the next identity
   * advanced. Moving an anchor between lines therefore keeps each anchor in
   * exactly one list.
   */
  lemma AttachDetachKeepStore(segs: Segs, next: nat, id: AnchorId, k: int, a: Anchor)
    requires Sound(segs, next)
    ensures Sound(Detach(segs, id), next)
    ensures |Detach(segs, id)| == |segs|
    ensures forall j, b :: 0 <= j < |segs| ==> (b in Detach(segs, id)[j] <==> b in segs[j] && b.id != id)
    ensures 0 <= k < |segs| && a.id == next ==> Sound(Attach(segs, k, a), next + 1)
    ensures 0 <= k < |segs| ==> a in Attach(segs, k, a)[k]
  {
    DetachKeepsStore(segs, next, id);
    DetachMembers(segs, id);
    if 0 <= k < |segs| && a.id == next {
      AttachFreshKeepsStore(segs, next, k, a);
    }
  }

  lemma DetachKeepsStore(segs: Segs, next: nat, id: AnchorId)
    requires Sound(segs, next)
    ensures Sound(Detach(segs, id), next) && AnchorIds(Detach(segs, id))[id] == 0
  {
    DetachIds(segs, id);
  }

  lemma DetachMembers(segs: Segs, id: AnchorId)
    ensures forall j, b :: 0 <= j < |segs| ==> (b in Detach(segs, id)[j] <==> b in segs[j] && b.id != id)
  {
    forall j, b | 0 <= j < |segs|
      ensures b in Detach(segs, id)[j] <==> b in segs[j] && b.id != id
    {
      WithoutMembers(segs[j], id, b);
    }
  }

  /** Attaching an anchor whose identity is absent keeps the store unique, with next covering it. */
  lemma AttachFreshKeepsStore(segs: Segs, next: nat, k: int, a: Anchor)
    requires Unique(segs) && Below(segs, next) && a.id <= next && AnchorIds(segs)[a.id] == 0 && 0 <= k < |segs|
    ensures Sound(Attach(segs, k, a), next + 1)
  {
    AttachIds(segs, k, a);
  }

  /** AddManualTextSegment: detach, then attach to the line holding the global index. */
  function AddManual(lines: seq<Line>, segs: Segs, a: Anchor, index: int): Segs
    requires |segs| == |lines| && 0 <= LineFromCharIndex(lines, index) < |lines|
  {
    Attach(Detach(segs, a.id), LineFromCharIndex(lines, index), a)
  }

  lemma {:induction false} SearchInRange(lines: seq<Line>, index: int, lo: int, hi: int)
    requires |lines| > 0 && 0 <= lo <= hi + 1 <= |lines|
    ensures 0 <= SearchFrom(lines, index, lo, hi) < |lines|
    decreases hi - lo + 1
  {
    if lo <= hi {
      var mid := (lo + hi) / 2;
      if index < lines[mid].index {
        SearchInRange(lines, index, lo, mid - 1);
      } else if index > lines[mid].index && index > lines[mid].index + Len(lines[mid]) {
        SearchInRange(lines, index, mid + 1, hi);
      }
    }
  }

  /** The lookup finds a line for every index but -1, whatever the line starts are. */
  lemma LookupInRange(lines: seq<Line>, index: int)
    requires |lines| > 0 && index != -1
    ensures 0 <= LineFromCharIndex(lines, index) < |lines|
  {
    SearchInRange(lines, index, 0, |lines| - 1);
  }

  /**
   * AddManualTextSegment leaves the anchor, unchanged, in exactly the list of
   * the line the lookup gives; under the line-start invariant that is the line
   * holding the global index.
   */
  lemma AddManualPlacesAnchor(lines: seq<Line>, segs: Segs, next: nat, a: Anchor, index: int, j: int)
    requires |segs| == |lines| && |lines| > 0 && index != -1
    requires Sound(segs, next) && a.id < next
    ensures 0 <= LineFromCharIndex(lines, index) < |lines|
    ensures var r := AddManual(lines, segs, a, index);
      && Sound(r, next)
      && a in r[LineFromCharIndex(lines, index)]
      && (0 <= j < |lines| && j != LineFromCharIndex(lines, index) ==> forall b :: b in r[j] ==> b.id != a.id)
    ensures LineStarts(lines) && 0 <= j < |lines| && Holds(lines, j, index) ==> LineFromCharIndex(lines, index) == j
  {
    LookupInRange(lines, index);
    var k := LineFromCharIndex(lines, index);
    AddManualKeepsStore(segs, next, a, k);
    if 0 <= j < |lines| && j != k {
      forall b | b in Detach(segs, a.id)[j] ensures b.id != a.id {
        WithoutMembers(segs[j], a.id, b);
      }
    }
    if LineStarts(lines) {
      LineLookup(lines, index);
    }
  }

  lemma AddManualKeepsStore(segs: Segs, next: nat, a: Anchor, k: int)
    requires Sound(segs, next) && a.id < next && 0 <= k < |segs|
    ensures Sound(Attach(Detach(segs, a.id), k, a), next)
  {
    var d := Detach(segs, a.id);
    DetachKeepsStore(segs, next, a.id);
    AttachIds(d, k, a);
  }

  // ---------------------------------------------------------------------------
  // Get and GetAll
  // ---------------------------------------------------------------------------

  predicate KeyMatches(a: Anchor, ofType: Option<string>)
  {
    ofType.None? || Key(a) == ofType.value
  }

  /** GetAll: the anchors of a line list with the key that touch `rel`, in list order. */
  function GetAll(s: seq<Anchor>, rel: int, ofType: Option<string>): seq<Anchor>
    decreases |s|
  {
    if |s| == 0 then []
    else
      var a := s[|s| - 1];
      GetAll(s[..|s| - 1], rel, ofType) + (if KeyMatches(a, ofType) && AnchorContains(a, rel, 1, true, true) then [a] else [])
  }

  /** Get: GetAll on the line holding the index, at the index relative to that line. */
  function Get(lines: seq<Line>, segs: Segs, index: int, ofType: Option<string>): seq<Anchor>
    requires |segs| == |lines|
  {
    var k := LineFromCharIndex(lines, index);
    if k < 0 || k >= |lines| then []
    else GetAll(segs[k], index - FirstCharIndexFromLine(lines, k), ofType)
  }

  lemma {:induction false} GetAllMembers(s: seq<Anchor>, rel: int, ofType: Option<string>, a: Anchor)
    ensures a in GetAll(s, rel, ofType) <==> a in s && KeyMatches(a, ofType) && AnchorContains(a, rel, 1, true, true)
    decreases |s|
  {
    if |s| > 0 {
      GetAllMembers(s[..|s| - 1], rel, ofType, a);
      assert s == s[..|s| - 1] + [s[|s| - 1]];
    }
  }

  /** GetAll keeps list order: it distributes over concatenation. */
  lemma {:induction false} GetAllAppend(s: seq<Anchor>, t: seq<Anchor>, rel: int, ofType: Option<string>)
    ensures GetAll(s + t, rel, ofType) == GetAll(s, rel, ofType) + GetAll(t, rel, ofType)
    decreases |t|
  {
    if |t| == 0 {
      assert s + t == s;
    } else {
      DropLast(s, t);
      GetAllAppend(s, t[..|t| - 1], rel, ofType);
    }
  }

  /**
   * Get yields nothing when the lookup answers -1, and otherwise exactly the
   * anchors of the owning line whose key matches and which contain the
   * relative index.
   */
  lemma GetYieldsOwningLine(lines: seq<Line>, segs: Segs, index: int, ofType: Option<string>, a: Anchor)
    requires |segs| == |lines|
    ensures index == -1 || |lines| == 0 ==> Get(lines, segs, index, ofType) == []
    ensures var k := LineFromCharIndex(lines, index);
      0 <= k < |lines| ==>
        (a in Get(lines, segs, index, ofType) <==>
          a in segs[k] && KeyMatches(a, ofType) && AnchorContains(a, index - lines[k].index, 1, true, true))
  {
    var k := LineFromCharIndex(lines, index);
    if 0 <= k < |lines| {
      GetAllMembers(segs[k], index - lines[k].index, ofType, a);
    }
  }

  // ---------------------------------------------------------------------------
  // GetStyledTextSegments
  // ---------------------------------------------------------------------------

  /** An enumerated anchor with the start index of its line. */
  datatype Placed = Placed(anchor: Anchor, lineStart: int)

  function IndexGlobalOf(p: Placed): int { p.anchor.index + p.lineStart }

  function PlaceLine(s: seq<Anchor>, lineStart: int): seq<Placed>
    decreases |s|
  {
    if |s| == 0 then [] else PlaceLine(s[..|s| - 1], lineStart) + [Placed(s[|s| - 1], lineStart)]
  }

  /** GetStyledTextSegments: the lines in order, each line's list in list order. */
  function StyledTextSegments(lines: seq<Line>, segs: Segs): seq<Placed>
    requires |segs| == |lines|
    decreases |lines|
  {
    if |lines| == 0 then []
    else StyledTextSegments(lines[..|lines| - 1], segs[..|segs| - 1]) + PlaceLine(segs[|segs| - 1], lines[|lines| - 1].index)
  }

  /** GetStyledTextSegments(typeKey). */
  function StyledTextSegmentsOfType(ps: seq<Placed>, key: string): seq<Placed>
    decreases |ps|
  {
    if |ps| == 0 then []
    else StyledTextSegmentsOfType(ps[..|ps| - 1], key) + (if Key(ps[|ps| - 1].anchor) == key then [ps[|ps| - 1]] else [])
  }

  lemma {:induction false} PlaceLineMembers(s: seq<Anchor>, lineStart: int, p: Placed)
    ensures p in PlaceLine(s, lineStart) <==> p.anchor in s && p.lineStart == lineStart
    ensures |PlaceLine(s, lineStart)| == |s|
    decreases |s|
  {
    if |s| > 0 {
      PlaceLineMembers(s[..|s| - 1], lineStart, p);
      assert s == s[..|s| - 1] + [s[|s| - 1]];
    }
  }

  lemma {:induction false} PlaceLineAt(s: seq<Anchor>, lineStart: int, i: int)
    requires 0 <= i < |s|
    ensures |PlaceLine(s, lineStart)| == |s| && PlaceLine(s, lineStart)[i] == Placed(s[i], lineStart)
    decreases |s|
  {
    var dummy := Placed(s[0], lineStart);
    PlaceLineMembers(s, lineStart, dummy);
    if i < |s| - 1 {
      PlaceLineAt(s[..|s| - 1], lineStart, i);
      PlaceLineMembers(s[..|s| - 1], lineStart, dummy);
    }
  }

  /**
   * The enumeration lists an anchor exactly when it is in some line's list,
   * paired with that line's start; line k's list comes, in order, right after
   * the lists of the lines before it.
   */
  lemma {:induction false} StyledSegmentsEnumerateLines(lines: seq<Line>, segs: Segs, p: Placed)
    requires |segs| == |lines|
    ensures p in StyledTextSegments(lines, segs) <==>
      exists k :: 0 <= k < |lines| && p.anchor in segs[k] && p.lineStart == lines[k].index
    ensures |lines| > 0 ==> (StyledTextSegments(lines, segs) ==
      StyledTextSegments(lines[..|lines| - 1], segs[..|segs| - 1]) + PlaceLine(segs[|segs| - 1], lines[|lines| - 1].index))
    decreases |lines|
  {
    if |lines| > 0 {
      var n := |lines| - 1;
      StyledSegmentsEnumerateLines(lines[..n], segs[..n], p);
      PlaceLineMembers(segs[n], lines[n].index, p);
      if p in StyledTextSegments(lines, segs) {
        if p in StyledTextSegments(lines[..n], segs[..n]) {
          var k :| 0 <= k < n && p.anchor in segs[..n][k] && p.lineStart == lines[..n][k].index;
          assert p.anchor in segs[k] && p.lineStart == lines[k].index;
        }
      }
      if exists k :: 0 <= k < |lines| && p.anchor in segs[k] && p.lineStart == lines[k].index {
        var k :| 0 <= k < |lines| && p.anchor in segs[k] && p.lineStart == lines[k].index;
        if k < n {
          assert p.anchor in segs[..n][k] && p.lineStart == lines[..n][k].index;
        }
      }
    }
  }

  lemma {:induction false} OfTypeMembers(ps: seq<Placed>, key: string, p: Placed)
    ensures p in StyledTextSegmentsOfType(ps, key) <==> p in ps && Key(p.anchor) == key
    decreases |ps|
  {
    if |ps| > 0 {
      OfTypeMembers(ps[..|ps| - 1], key, p);
      assert ps == ps[..|ps| - 1] + [ps[|ps| - 1]];
    }
  }

  // ---------------------------------------------------------------------------
  // GetClosest
  // ---------------------------------------------------------------------------

  predicate Candidate(p: Placed, index: int, ofType: Option<string>)
  {
    KeyMatches(p.anchor, ofType) && IndexGlobalOf(p) <= index
  }

  /** The GetClosest scan from position j, with its two accumulators. */
  function ClosestFrom(ps: seq<Placed>, index: int, ofType: Option<string>, j: nat, closest: Option<Placed>, foundLineStart: int): Option<Placed>
    requires j <= |ps|
    decreases |ps| - j
  {
    if j == |ps| then closest
    else
      var p := ps[j];
      if !KeyMatches(p.anchor, ofType) then ClosestFrom(ps, index, ofType, j + 1, closest, foundLineStart)
      else if IndexGlobalOf(p) > index then
        if foundLineStart != -1 && foundLineStart != p.lineStart then closest
        else ClosestFrom(ps, index, ofType, j + 1, closest, foundLineStart)
      else if closest.None? || IndexGlobalOf(p) > IndexGlobalOf(closest.value) then
        ClosestFrom(ps, index, ofType, j + 1, Some(p), p.lineStart)
      else ClosestFrom(ps, index, ofType, j + 1, closest, foundLineStart)
  }

  /** LineTextSegmentStyledManager.GetClosest over the enumeration ps. */
  method GetClosest(ps: seq<Placed>, index: int, ofType: Option<string>) returns (r: Option<Placed>)
    ensures r == ClosestFrom(ps, index, ofType, 0, None, -1)
  {
    r := None;
    var foundLineStart := -1;
    var j := 0;
    while j < |ps|
      invariant 0 <= j <= |ps|
      invariant ClosestFrom(ps, index, ofType, j, r, foundLineStart) == ClosestFrom(ps, index, ofType, 0, None, -1)
    {
      var p := ps[j];
      if !KeyMatches(p.anchor, ofType) {
        j := j + 1;
        continue;
      }
      if IndexGlobalOf(p) > index {
        if foundLineStart != -1 && foundLineStart != p.lineStart {
          break;
        }
        j := j + 1;
        continue;
      }
      if r.None? || IndexGlobalOf(p) > IndexGlobalOf(r.value) {
        foundLineStart := p.lineStart;
        r := Some(p);
      }
      j := j + 1;
    }
  }

  /** The first candidate of greatest global index among ps (the reference). */
  function FirstNearest(ps: seq<Placed>, index: int, ofType: Option<string>): Option<Placed>
    decreases |ps|
  {
    if |ps| == 0 then None
    else
      var b := FirstNearest(ps[..|ps| - 1], index, ofType);
      var p := ps[|ps| - 1];
      if Candidate(p, index, ofType) && (b.None? || IndexGlobalOf(p) > IndexGlobalOf(b.value)) then Some(p) else b
  }

  lemma {:induction false} FirstNearestIsNearest(ps: seq<Placed>, index: int, ofType: Option<string>)
    ensures var b := FirstNearest(ps, index, ofType);
      && (b.None? <==> forall q :: q in ps ==> !Candidate(q, index, ofType))
      && (b.Some? ==> b.value in ps && Candidate(b.value, index, ofType))
      && (b.Some? ==> forall q :: q in ps && Candidate(q, index, ofType) ==> IndexGlobalOf(q) <= IndexGlobalOf(b.value))
    decreases |ps|
  {
    if |ps| > 0 {
      FirstNearestIsNearest(ps[..|ps| - 1], index, ofType);
      assert ps == ps[..|ps| - 1] + [ps[|ps| - 1]];
    }
  }

  lemma {:induction false} ClosestFromTracksReference(ps: seq<Placed>, index: int, ofType: Option<string>, j: nat, closest: Option<Placed>, foundLineStart: int)
    requires j <= |ps|
    requires closest == FirstNearest(ps[..j], index, ofType)
    requires closest.None? ==> foundLineStart == -1
    requires forall q :: q in ps && KeyMatches(q.anchor, ofType) ==> IndexGlobalOf(q) <= index
    ensures ClosestFrom(ps, index, ofType, j, closest, foundLineStart) == FirstNearest(ps, index, ofType)
    decreases |ps| - j
  {
    if j == |ps| {
      assert ps[..j] == ps;
    } else {
      assert ps[..j + 1][..j] == ps[..j];
      var p := ps[j];
      assert p in ps;
      if Candidate(p, index, ofType) && (closest.None? || IndexGlobalOf(p) > IndexGlobalOf(closest.value)) {
        ClosestFromTracksReference(ps, index, ofType, j + 1, Some(p), p.lineStart);
      } else {
        ClosestFromTracksReference(ps, index, ofType, j + 1, closest, foundLineStart);
      }
    }
  }

  lemma {:induction false} ClosestFromIsCandidate(ps: seq<Placed>, index: int, ofType: Option<string>, j: nat, closest: Option<Placed>, foundLineStart: int)
    requires j <= |ps|
    requires closest.Some? ==> closest.value in ps && Candidate(closest.value, index, ofType)
    ensures var r := ClosestFrom(ps, index, ofType, j, closest, foundLineStart);
      r.Some? ==> r.value in ps && Candidate(r.value, index, ofType)
    decreases |ps| - j
  {
    if j < |ps| {
      var p := ps[j];
      if KeyMatches(p.anchor, ofType) && IndexGlobalOf(p) <= index && (closest.None? || IndexGlobalOf(p) > IndexGlobalOf(closest.value)) {
        ClosestFromIsCandidate(ps, index, ofType, j + 1, Some(p), p.lineStart);
      } else {
        ClosestFromIsCandidate(ps, index, ofType, j + 1, closest, foundLineStart);
      }
    }
  }

  /**
   * GetClosest answers null or an enumerated anchor of the key at or before
   * the index. When no anchor of the key lies past the index, the scan never
   * breaks and the answer is the first anchor of greatest global index, null
   * when there is none.
   */
  lemma GetClosestFindsCandidate(ps: seq<Placed>, index: int, ofType: Option<string>)
    ensures var r := ClosestFrom(ps, index, ofType, 0, None, -1);
      r.Some? ==> r.value in ps && KeyMatches(r.value.anchor, ofType) && IndexGlobalOf(r.value) <= index
    ensures (forall q :: q in ps && KeyMatches(q.anchor, ofType) ==> IndexGlobalOf(q) <= index) ==>
      ClosestFrom(ps, index, ofType, 0, None, -1) == FirstNearest(ps, index, ofType)
  {
    ClosestFromIsCandidate(ps, index, ofType, 0, None, -1);
    if forall q :: q in ps && KeyMatches(q.anchor, ofType) ==> IndexGlobalOf(q) <= index {
      assert ps[..0] == [];
      ClosestFromTracksReference(ps, index, ofType, 0, None, -1);
    }
  }

  function TestAnchor(id: AnchorId, index: int): Anchor
  {
    Anchor(id, BaseStyle("Note", Custom).(kind := Pinned), index, 1, None, None)
  }

  /**
   * Lists are in insertion order, so the scan can stop early: with a line at
   * 0 holding an anchor at 2 and a line at 10 holding anchors at 15 and then
   * 11, the scan for 12 breaks at 15 and answers 2, not the nearer 11.
   */
  lemma GetClosestCanMissNearer()
    ensures var ps := [Placed(TestAnchor(0, 2), 0), Placed(TestAnchor(1, 5), 10), Placed(TestAnchor(2, 1), 10)];
      && ClosestFrom(ps, 12, Some("Note"), 0, None, -1) == Some(ps[0])
      && FirstNearest(ps, 12, Some("Note")) == Some(ps[2])
  {
    var ps := [Placed(TestAnchor(0, 2), 0), Placed(TestAnchor(1, 5), 10), Placed(TestAnchor(2, 1), 10)];
    assert ps[..1][..0] == [];
    assert ps[..2][..1] == ps[..1];
    assert FirstNearest(ps[..1], 12, Some("Note")) == Some(ps[0]);
    assert FirstNearest(ps[..2], 12, Some("Note")) == Some(ps[0]);
  }

  // ---------------------------------------------------------------------------
  // Clear
  // ---------------------------------------------------------------------------

  /** LineTextSegmentStyledManager.Clear: ClearStyles on every line. */
  method Clear(segs: Segs, clearPinned: bool) returns (r: Segs)
    ensures |r| == |segs|
    ensures forall k :: 0 <= k < |r| ==> r[k] == KeptByClear(segs[k], clearPinned)
  {
    r := segs;
    var k := 0;
    while k < |r|
      invariant 0 <= k <= |r| == |segs|
      invariant forall j :: 0 <= j < k ==> r[j] == KeptByClear(segs[j], clearPinned)
      invariant forall j :: k <= j < |r| ==> r[j] == segs[j]
    {
      var kept := ClearStyles(r[k], clearPinned);
      r := r[k := kept];
      k := k + 1;
    }
  }

  lemma {:induction false} KeptIdsSubset(s: seq<Anchor>, clearPinned: bool)
    ensures IdsOf(KeptByClear(s, clearPinned)) <= IdsOf(s)
    decreases |s|
  {
    if !clearPinned && |s| > 0 {
      var last := s[|s| - 1];
      KeptIdsSubset(s[..|s| - 1], false);
      IdsOfAppend(KeptByClear(s[..|s| - 1], false), if IsPinned(last) then [last] else []);
      if IsPinned(last) {
        assert [last][..0] == [];
      }
    }
  }

  lemma {:induction false} AnchorIdsMonotone(t: Segs, s: Segs)
    requires |t| == |s|
    requires forall k :: 0 <= k < |s| ==> IdsOf(t[k]) <= IdsOf(s[k])
    ensures AnchorIds(t) <= AnchorIds(s)
    decreases |s|
  {
    if |s| > 0 {
      AnchorIdsMonotone(t[..|t| - 1], s[..|s| - 1]);
    }
  }

  /** Clearing keeps the store sound; clearing pinned anchors too leaves no anchor. */
  lemma ClearKeepsStore(segs: Segs, next: nat, r: Segs, clearPinned: bool)
    requires Sound(segs, next) && |r| == |segs|
    requires forall k :: 0 <= k < |r| ==> r[k] == KeptByClear(segs[k], clearPinned)
    ensures Sound(r, next)
    ensures clearPinned ==> AnchorIds(r) == multiset{}
  {
    forall k | 0 <= k < |segs| ensures IdsOf(r[k]) <= IdsOf(segs[k]) {
      KeptIdsSubset(segs[k], clearPinned);
    }
    AnchorIdsMonotone(r, segs);
    if clearPinned {
      forall k | 0 <= k < |r| ensures IdsOf(r[k]) <= multiset{} {
      }
      AnchorIdsMonotone(r, seq(|r|, k => []));
      EmptyListsNoIds(seq(|r|, k => []));
    }
  }

  lemma {:induction false} EmptyListsNoIds(s: Segs)
    requires forall k :: 0 <= k < |s| ==> s[k] == []
    ensures AnchorIds(s) == multiset{}
    decreases |s|
  {
    if |s| > 0 {
      EmptyListsNoIds(s[..|s| - 1]);
    }
  }

  // ---------------------------------------------------------------------------
  // Membership facts
  // ---------------------------------------------------------------------------

  lemma {:induction false} MemberId(s: seq<Anchor>, a: Anchor)
    requires a in s
    ensures a.id in IdsOf(s)
    decreases |s|
  {
    if s[|s| - 1] != a {
      assert s == s[..|s| - 1] + [s[|s| - 1]];
      MemberId(s[..|s| - 1], a);
    }
  }

  lemma {:induction false} WithoutAbsent(s: seq<Anchor>, id: AnchorId)
    requires id !in IdsOf(s)
    ensures Without(s, id) == s
    decreases |s|
  {
    if |s| > 0 {
      WithoutAbsent(s[..|s| - 1], id);
      assert s == s[..|s| - 1] + [s[|s| - 1]];
    }
  }

  /** Under uniqueness, an identity in line k's list is in no other line's list. */
  lemma OtherLinesLackId(segs: Segs, j: int, k: int, id: AnchorId)
    requires Unique(segs) && 0 <= j < |segs| && 0 <= k < |segs| && j != k
    requires id in IdsOf(segs[k])
    ensures id !in IdsOf(segs[j])
  {
    AnchorIdsAround(segs, k);
    if j < k {
      AnchorIdsAround(segs[..k], j);
      assert segs[..k][j] == segs[j];
      CountOfPart(AnchorIds(segs[..k][..j]), IdsOf(segs[j]), AnchorIds(segs[..k][j + 1..]), AnchorIds(segs[..k]), id);
    } else {
      AnchorIdsAround(segs[k + 1..], j - k - 1);
      assert segs[k + 1..][j - k - 1] == segs[j];
      CountOfPart(AnchorIds(segs[k + 1..][..j - k - 1]), IdsOf(segs[j]), AnchorIds(segs[k + 1..][j - k..]), AnchorIds(segs[k + 1..]), id);
    }
    assert AnchorIds(segs)[id] == AnchorIds(segs[..k])[id] + IdsOf(segs[k])[id] + AnchorIds(segs[k + 1..])[id];
  }

  /** Detaching an anchor of line k leaves every other line's list as it was. */
  lemma DetachFromOwnLine(segs: Segs, k: int, a: Anchor)
    requires Unique(segs) && 0 <= k < |segs| && a in segs[k]
    ensures forall j :: 0 <= j < |segs| && j != k ==> Detach(segs, a.id)[j] == segs[j]
  {
    MemberId(segs[k], a);
    forall j | 0 <= j < |segs| && j != k ensures Detach(segs, a.id)[j] == segs[j] {
      OtherLinesLackId(segs, j, k, a.id);
      WithoutAbsent(segs[j], a.id);
    }
  }

  // ---------------------------------------------------------------------------
  // SearchAndApplyTo
  // ---------------------------------------------------------------------------

  /** A style and the segment it found. */
  datatype Cand = Cand(style: Style, found: Found)

  predicate MayRun(style: Style, finalizer: bool)
  {
    !(style.updateOnlyOnFinalizingChange && !finalizer)
  }

  /** The first style, in view order, allowed to run that finds a segment at i. */
  function FirstStyleFind(styles: seq<Style>, finalizer: bool, text: string, lineIndex: int, i: int): Option<Cand>
    requires i >= 0
    decreases |styles|
  {
    if |styles| == 0 then None
    else if !MayRun(styles[0], finalizer) then FirstStyleFind(styles[1..], finalizer, text, lineIndex, i)
    else
      var f := Find(styles[0], text, lineIndex, i);
      if f.Some? then Some(Cand(styles[0], f.value)) else FirstStyleFind(styles[1..], finalizer, text, lineIndex, i)
  }

  /** The inner loop over the view's styles. */
  method FindFirstStyle(styles: seq<Style>, finalizer: bool, text: string, lineIndex: int, i: int) returns (r: Option<Cand>)
    requires i >= 0
    ensures r == FirstStyleFind(styles, finalizer, text, lineIndex, i)
  {
    var s := 0;
    while s < |styles|
      invariant 0 <= s <= |styles|
      invariant FirstStyleFind(styles[s..], finalizer, text, lineIndex, i) == FirstStyleFind(styles, finalizer, text, lineIndex, i)
    {
      assert styles[s..][1..] == styles[s + 1..];
      if !MayRun(styles[s], finalizer) {
        s := s + 1;
        continue;
      }
      var f := Find(styles[s], text, lineIndex, i);
      if f.Some? {
        return Some(Cand(styles[s], f.value));
      }
      s := s + 1;
    }
    return None;
  }

  /**
   * The answer is the segment of an allowed style, found within the line,
   * and no allowed style before it finds anything; None means no allowed
   * style finds anything.
   */
  lemma {:induction false} FirstStyleFindIsFirst(styles: seq<Style>, finalizer: bool, text: string, lineIndex: int, i: int)
    requires i >= 0
    ensures var r := FirstStyleFind(styles, finalizer, text, lineIndex, i);
      && (r.Some? ==> (r.value.style in styles && MayRun(r.value.style, finalizer)
            && Find(r.value.style, text, lineIndex, i) == Some(r.value.found)
            && 0 <= r.value.found.index && 0 < r.value.found.length
            && r.value.found.index + r.value.found.length <= |text|))
      && (r.None? <==> forall s :: s in styles && MayRun(s, finalizer) ==> Find(s, text, lineIndex, i).None?)
    decreases |styles|
  {
    if |styles| > 0 {
      FirstStyleFindIsFirst(styles[1..], finalizer, text, lineIndex, i);
      FindIsInsideLine(styles[0], text, lineIndex, i);
      assert styles == [styles[0]] + styles[1..];
    }
  }

  /** The anchor made from a found segment. */
  function NewSegment(id: AnchorId, c: Cand): Anchor
  {
    Anchor(id, c.style, c.found.index, c.found.length, Some(c.found.payload), None)
  }

  datatype Applied = Applied(segs: Segs, next: nat, attached: bool)

  /** An existing anchor with the found segment's start and length. */
  predicate SameSpan(a: Anchor, c: Cand)
  {
    a.index == c.found.index && a.length == c.found.length
  }

  /** The first same-key anchor of the list touching i already spans the found segment. */
  predicate AlreadyThere(s: seq<Anchor>, i: int, c: Cand)
  {
    var existing := GetAll(s, i, Some(c.style.nameKey));
    |existing| > 0 && SameSpan(existing[0], c)
  }

  /**
   * One found segment at position i of line k: nothing happens when the
   * first same-key anchor touching i has the same start and length;
   * otherwise that anchor, if any, is detached and the new one is attached
   * to the line the lookup gives for its global index.
   */
  function ApplyFound(lines: seq<Line>, segs: Segs, k: int, i: int, c: Cand, next: nat): Applied
    requires |segs| == |lines| && 0 <= k < |lines|
    requires lines[k].index + c.found.index != -1
  {
    if AlreadyThere(segs[k], i, c) then Applied(segs, next, false)
    else
      var global := lines[k].index + c.found.index;
      LookupInRange(lines, global);
      Applied(Attach(Cleared(segs, k, i, c), LineFromCharIndex(lines, global), NewSegment(next, c)), next + 1, true)
  }

  /** The lists once the first same-key anchor of line k touching i, if any, is detached. */
  function Cleared(segs: Segs, k: int, i: int, c: Cand): (r: Segs)
    requires 0 <= k < |segs|
    ensures |r| == |segs|
  {
    var existing := GetAll(segs[k], i, Some(c.style.nameKey));
    if |existing| > 0 then Detach(segs, existing[0].id) else segs
  }

  /**
   * ApplyFound keeps the store sound. It attaches exactly when no identical
   * same-key anchor is there, and then hands out one identity.
   */
  lemma ApplyFoundKeepsStore(lines: seq<Line>, segs: Segs, k: int, i: int, c: Cand, next: nat)
    requires |segs| == |lines| && 0 <= k < |lines| && Sound(segs, next)
    requires lines[k].index >= 0 && c.found.index >= 0
    ensures var r := ApplyFound(lines, segs, k, i, c, next);
      && Sound(r.segs, r.next) && |r.segs| == |segs|
      && (r.attached <==> r.next == next + 1)
      && (!r.attached ==> r.segs == segs && r.next == next)
      && (r.attached <==> !AlreadyThere(segs[k], i, c))
  {
    if !AlreadyThere(segs[k], i, c) {
      var global := lines[k].index + c.found.index;
      LookupInRange(lines, global);
      var target := LineFromCharIndex(lines, global);
      ClearThenAttach(segs, k, i, c, next, target);
      var r := ApplyFound(lines, segs, k, i, c, next);
      assert r.segs == Attach(Cleared(segs, k, i, c), target, NewSegment(next, c));
    }
  }

  lemma ClearThenAttach(segs: Segs, k: int, i: int, c: Cand, next: nat, target: int)
    requires 0 <= k < |segs| && 0 <= target < |segs| && Sound(segs, next)
    ensures Sound(Attach(Cleared(segs, k, i, c), target, NewSegment(next, c)), next + 1)
  {
    var existing := GetAll(segs[k], i, Some(c.style.nameKey));
    if |existing| > 0 {
      AttachDetachKeepStore(segs, next, existing[0].id, target, NewSegment(next, c));
    }
    AttachDetachKeepStore(Cleared(segs, k, i, c), next, 0, target, NewSegment(next, c));
  }

  /**
   * Under the line-start invariant, with the segment inside line k, the new
   * anchor lands on line k and no other line changes.
   */
  lemma ApplyFoundStaysOnLine(lines: seq<Line>, segs: Segs, k: int, i: int, c: Cand, next: nat)
    requires |segs| == |lines| && 0 <= k < |lines| && Sound(segs, next)
    requires lines[k].index >= 0 && 0 <= c.found.index <= Len(lines[k]) && LineStarts(lines)
    ensures var r := ApplyFound(lines, segs, k, i, c, next);
      && |r.segs| == |segs|
      && (r.attached ==> NewSegment(next, c) in r.segs[k] && forall j :: 0 <= j < |lines| && j != k ==> r.segs[j] == segs[j])
  {
    if !AlreadyThere(segs[k], i, c) {
      var existing := GetAll(segs[k], i, Some(c.style.nameKey));
      var global := lines[k].index + c.found.index;
      LineLookup(lines, global);
      assert Holds(lines, k, global);
      assert LineFromCharIndex(lines, global) == k;
      var cleared, a := Cleared(segs, k, i, c), NewSegment(next, c);
      assert ApplyFound(lines, segs, k, i, c, next).segs == Attach(cleared, k, a);
      assert Attach(cleared, k, a)[k] == cleared[k] + [a] && (cleared[k] + [a])[|cleared[k]|] == a;
      if |existing| > 0 {
        GetAllMembers(segs[k], i, Some(c.style.nameKey), existing[0]);
        DetachFromOwnLine(segs, k, existing[0]);
      }
    }
  }

  /** The position to visit again: a style hit whose key differs from the previous one. */
  ghost predicate RevisitReady(styles: seq<Style>, finalizer: bool, text: string, lineIndex: int, i: int, prevKey: Option<string>)
    requires i >= 0
  {
    var f := FirstStyleFind(styles, finalizer, text, lineIndex, i);
    f.Some? && prevKey == Some(f.value.style.nameKey)
  }

  /**
   * LineTextSegmentStyledManager.SearchAndApplyTo over positions index to
   * index + length of line k. After the first whitespace only the first
   * position after a run of whitespace is searched; styles that update only on
   * finalizing changes are skipped unless the change was one; a hit whose key
   * and start both differ from the previous hit is searched again at the same
   * position. The answer says whether an anchor was attached.
   */
  method SearchAndApplyTo(lines: seq<Line>, segs: Segs, next: nat, chars: CharOracle, styles: seq<Style>,
                          k: int, index: int, length: int, finalizer: bool)
    returns (r: Segs, next2: nat, foundOne: bool)
    requires |segs| == |lines| && 0 <= k < |lines| && index >= 0 && lines[k].index >= 0
    requires Sound(segs, next)
    ensures |r| == |segs| && Sound(r, next2) && next <= next2
    ensures foundOne <==> next2 > next
    ensures LineStarts(lines) ==> forall j :: 0 <= j < |lines| && j != k ==> r[j] == segs[j]
  {
    var text := Txt(lines[k]);
    var lineIndex := lines[k].index;
    r, next2, foundOne := segs, next, false;
    var canSkip, previousWasWhitespace := false, false;
    var previousStyleType: Option<string> := None;
    var previousStyleIndex := -1;
    var i := index;
    ghost var revisit := false;
    ghost var bound := if index + length + 1 < |text| then index + length + 1 else |text|;
    while i <= index + length && i < |text|
      invariant index <= i
      invariant |r| == |segs| && Sound(r, next2) && next <= next2
      invariant foundOne <==> next2 > next
      invariant LineStarts(lines) ==> forall j :: 0 <= j < |lines| && j != k ==> r[j] == segs[j]
      invariant revisit ==> RevisitReady(styles, finalizer, text, lineIndex, i, previousStyleType)
      decreases bound - i, if revisit then 0 else 1
    {
      var isWhitespace := i < index + length && IsWhiteSpace(chars, text[i]);
      var search := false;
      if canSkip {
        if !isWhitespace {
          search := previousWasWhitespace;
        } else {
          previousWasWhitespace := true;
        }
      } else if isWhitespace {
        canSkip := true;
        previousWasWhitespace := true;
      } else {
        search := true;
      }
      var stay := false;
      if search {
        previousWasWhitespace := false;
        var c := FindFirstStyle(styles, finalizer, text, lineIndex, i);
        if c.Some? {
          FirstStyleFindIsFirst(styles, finalizer, text, lineIndex, i);
          ApplyFoundKeepsStore(lines, r, k, i, c.value, next2);
          if LineStarts(lines) {
            assert Len(lines[k]) == |text|;
            ApplyFoundStaysOnLine(lines, r, k, i, c.value, next2);
          }
          var applied := ApplyFound(lines, r, k, i, c.value, next2);
          r, next2 := applied.segs, applied.next;
          if applied.attached {
            foundOne := true;
          }
          var key := c.value.style.nameKey;
          if previousStyleType != Some(key) && previousStyleIndex != c.value.found.index {
            stay := true;
          }
          previousStyleType := Some(key);
          previousStyleIndex := c.value.found.index;
        }
      }
      if stay {
        revisit := true;
      } else {
        i := i + 1;
        revisit := false;
      }
    }
  }

  /** SearchAndApplyTo(lineIndex): false out of range, otherwise the whole line as a finalizing change. */
  method SearchAndApplyToLine(lines: seq<Line>, segs: Segs, next: nat, chars: CharOracle, styles: seq<Style>, lineIndex: int)
    returns (r: Segs, next2: nat, foundOne: bool)
    requires |segs| == |lines| && Sound(segs, next)
    requires 0 <= lineIndex < |lines| ==> lines[lineIndex].index >= 0
    ensures |r| == |segs| && Sound(r, next2) && next <= next2
    ensures foundOne <==> next2 > next
    ensures !(0 <= lineIndex < |lines|) ==> r == segs && !foundOne
    ensures LineStarts(lines) ==> forall j :: 0 <= j < |lines| && j != lineIndex ==> r[j] == segs[j]
  {
    if lineIndex < 0 || lineIndex >= |lines| {
      return segs, next, false;
    }
    r, next2, foundOne := SearchAndApplyTo(lines, segs, next, chars, styles, lineIndex, 0, Len(lines[lineIndex]), true);
  }
}
