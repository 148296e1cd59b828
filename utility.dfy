/**
 * Word extraction over one line of text (Utility.cs): the simplified character category, the
 * two boundary scans and GetWord, which combines them.
 */
module Utility {
  import opened Wrappers
  import opened Chars

  /**
   * GetSimplifiedUnicodeCategory: the apostrophe, connector and dash punctuation, every letter
   * category and the decimal and other numbers all count as lower-case letters, so that they
   * join words; every other category is kept.
   */
  function SimplifiedCategory(o: CharOracle, c: char): UnicodeCategory
  {
    var cat := Category(o, c);
    if c == '\'' || cat == ConnectorPunctuation || cat == DashPunctuation
      || cat == ModifierLetter || cat == TitlecaseLetter || cat == UppercaseLetter || cat == OtherLetter
      || cat == OtherNumber || cat == DecimalDigitNumber
    then LowercaseLetter
    else cat
  }

  /** Every letter joins words; the merged categories never come out; any other category is kept. */
  lemma SimplifiedCategoryMerges(o: CharOracle, c: char)
    ensures IsLetter(o, c) ==> SimplifiedCategory(o, c) == LowercaseLetter
    ensures c == '\'' ==> SimplifiedCategory(o, c) == LowercaseLetter
    ensures var k := SimplifiedCategory(o, c);
      k != UppercaseLetter && k != TitlecaseLetter && k != ModifierLetter && k != OtherLetter
      && k != ConnectorPunctuation && k != DashPunctuation && k != DecimalDigitNumber && k != OtherNumber
    ensures SimplifiedCategory(o, c) != LowercaseLetter ==> SimplifiedCategory(o, c) == Category(o, c)
  {
  }

  /** The character at which a word boundary scan stops. */
  predicate IsChange(o: CharOracle, c: char, strict: bool, origin: UnicodeCategory)
  {
    var cat := SimplifiedCategory(o, c);
    if strict then cat != origin
    else IsWhiteSpace(o, c) || cat == ClosePunctuation || cat == OpenPunctuation
  }

  /** Where GetWordIndexOfChange stops scanning to the left from idx: the nearest change, or -1. */
  function ChangeLeft(o: CharOracle, text: string, idx: int, strict: bool, origin: UnicodeCategory): (r: int)
    requires -1 <= idx < |text|
    ensures -1 <= r <= idx
    ensures r >= 0 ==> IsChange(o, text[r], strict, origin)
    decreases idx + 1
  {
    if idx == -1 then -1
    else if IsChange(o, text[idx], strict, origin) then idx
    else ChangeLeft(o, text, idx - 1, strict, origin)
  }

  /**
   * Where GetWordIndexOfChange stops scanning to the right from idx: the nearest change, or the
   * last position of the line, which the scan never examines.
   */
  function ChangeRight(o: CharOracle, text: string, idx: int, strict: bool, origin: UnicodeCategory): (r: int)
    requires 0 <= idx < |text|
    ensures idx <= r <= |text| - 1
    ensures r < |text| - 1 ==> IsChange(o, text[r], strict, origin)
    decreases |text| - idx
  {
    if idx == |text| - 1 then idx
    else if IsChange(o, text[idx], strict, origin) then idx
    else ChangeRight(o, text, idx + 1, strict, origin)
  }

  /** Nothing between the left scan's stop and its start is a change. */
  lemma {:induction false} ChangeLeftSkipsNoChange(o: CharOracle, text: string, idx: int, strict: bool, origin: UnicodeCategory, p: int)
    requires -1 <= idx < |text|
    requires ChangeLeft(o, text, idx, strict, origin) < p <= idx
    ensures !IsChange(o, text[p], strict, origin)
    decreases idx + 1
  {
    if p < idx {
      ChangeLeftSkipsNoChange(o, text, idx - 1, strict, origin, p);
    }
  }

  /** Nothing between the right scan's start and its stop is a change. */
  lemma {:induction false} ChangeRightSkipsNoChange(o: CharOracle, text: string, idx: int, strict: bool, origin: UnicodeCategory, p: int)
    requires 0 <= idx < |text|
    requires idx <= p < ChangeRight(o, text, idx, strict, origin)
    ensures !IsChange(o, text[p], strict, origin)
    decreases |text| - idx
  {
    if idx < p {
      ChangeRightSkipsNoChange(o, text, idx + 1, strict, origin, p);
    }
  }

  /** Where GetWordStripNonCharacter stops scanning to the right: the nearest letter, or the last position. */
  function StripRight(o: CharOracle, text: string, idx: int): (r: int)
    requires 0 <= idx < |text|
    ensures idx <= r < |text|
    ensures IsLetter(o, text[r]) || r == |text| - 1
    decreases |text| - idx
  {
    if IsLetter(o, text[idx]) || idx == |text| - 1 then idx
    else StripRight(o, text, idx + 1)
  }

  /** Where GetWordStripNonCharacter stops scanning to the left: the nearest letter, or position 0. */
  function StripLeft(o: CharOracle, text: string, idx: int): (r: int)
    requires 0 <= idx < |text|
    ensures 0 <= r <= idx
    ensures IsLetter(o, text[r]) || r == 0
    decreases idx
  {
    if IsLetter(o, text[idx]) || idx == 0 then idx
    else StripLeft(o, text, idx - 1)
  }

  method GetWordIndexOfChange(o: CharOracle, text: string, idx: int, strict: bool, origin: UnicodeCategory, left: bool)
    returns (r: int)
    requires 0 <= idx < |text|
    ensures r == if left then ChangeLeft(o, text, idx, strict, origin) else ChangeRight(o, text, idx, strict, origin)
  {
    var end := if left then -1 else |text| - 1;
    var inc := if left then -1 else 1;
    r := idx;
    while r != end
      invariant -1 <= r < |text|
      invariant left ==> ChangeLeft(o, text, r, strict, origin) == ChangeLeft(o, text, idx, strict, origin)
      invariant !left ==> r >= idx && ChangeRight(o, text, r, strict, origin) == ChangeRight(o, text, idx, strict, origin)
      decreases if left then r + 1 else |text| - r
    {
      if IsChange(o, text[r], strict, origin) {
        break;
      }
      r := r + inc;
    }
  }

  method GetWordStripNonCharacter(o: CharOracle, text: string, idx: int, left: bool) returns (r: int)
    requires 0 <= idx < |text|
    ensures r == if left then StripLeft(o, text, idx) else StripRight(o, text, idx)
  {
    var end := if left then 0 else |text| - 1;
    var inc := if left then -1 else 1;
    r := idx;
    while true
      invariant 0 <= r < |text|
      invariant left ==> StripLeft(o, text, r) == StripLeft(o, text, idx)
      invariant !left ==> StripRight(o, text, r) == StripRight(o, text, idx)
      decreases if left then r else |text| - r
    {
      if IsLetter(o, text[r]) {
        break;
      }
      if r == end {
        break;
      }
      r := r + inc;
    }
  }

  /** GetWord's result: global start, global end (exclusive) and the text between them. */
  datatype WordSegment = WordSegment(start: int, end: int, word: string)

  /** A half-open range of line positions. */
  datatype Span = Span(lo: int, hi: int)

  function Min(a: int, b: int): int { if a < b then a else b }
  function Max(a: int, b: int): int { if a < b then b else a }

  /** The two trailing characters "'s", compared ignoring case. */
  predicate IsPossessiveSuffix(s: string)
  {
    |s| == 2 && s[0] == '\'' && (s[1] == 's' || s[1] == 'S')
  }

  /** The position GetWord scans from: a space after a non-space moves the origin one step left. */
  function OriginAt(o: CharOracle, text: string, rel: int): (p: int)
    requires |text| > 0 && rel >= 0
    ensures 0 <= p < |text|
  {
    var p0 := Min(|text| - 1, rel);
    if p0 > 0 && SimplifiedCategory(o, text[p0]) == SpaceSeparator && SimplifiedCategory(o, text[p0 - 1]) != SpaceSeparator then
      p0 - 1
    else p0
  }

  /** The simplified category of the origin character, which the strict scans compare against. */
  function OriginCategory(o: CharOracle, text: string, rel: int): UnicodeCategory
    requires |text| > 0 && rel >= 0
  {
    SimplifiedCategory(o, text[OriginAt(o, text, rel)])
  }

  /** The line position where GetWord's word starts, before any apostrophe handling. */
  function WordStart(o: CharOracle, text: string, rel: int, strict: bool): (pre: int)
    requires |text| > 0 && rel >= 0
    ensures 0 <= pre <= |text|
  {
    var p := OriginAt(o, text, rel);
    var k := OriginCategory(o, text, rel);
    var pre1 := ChangeLeft(o, text, p, strict, k) + 1;
    if strict then
      assert !IsChange(o, text[p], strict, k);
      StripRight(o, text, pre1)
    else pre1
  }

  /** The line position (exclusive) where GetWord's word ends, before any apostrophe handling. */
  function WordEnd(o: CharOracle, text: string, rel: int, strict: bool): (post: int)
    requires |text| > 0 && rel >= 0
    ensures 0 <= post <= |text|
  {
    var p := OriginAt(o, text, rel);
    var post1 := ChangeRight(o, text, p, strict, OriginCategory(o, text, rel));
    if strict then StripLeft(o, text, post1) + 1 else post1
  }

  /**
   * The apostrophe handling of strict mode on the line range [pre, post): a word wrapped in
   * apostrophes loses both, and a word longer than two characters loses a trailing "'s".
   */
  function TrimApostrophes(text: string, pre: int, post: int, strict: bool): (b: Span)
    requires 0 <= pre < post <= |text|
    ensures pre <= b.lo <= b.hi <= post
    ensures !strict ==> b == Span(pre, post)
  {
    if !strict then Span(pre, post)
    else if post - pre > 1 && text[pre] == '\'' then
      if text[post - 1] == '\'' then Span(pre + 1, post - 1) else Span(pre, post)
    else if post - pre > 2 && IsPossessiveSuffix(text[post - 2 .. post]) then Span(pre, post - 2)
    else Span(pre, post)
  }

  /** The word over the line range [pre, post) of a line starting at listStartIndex, or None when the range is empty. */
  function WordIn(text: string, listStartIndex: int, pre: int, post: int, strict: bool): (r: Option<WordSegment>)
    requires 0 <= pre <= |text| && 0 <= post <= |text|
  {
    if pre >= post then None
    else
      var t := TrimApostrophes(text, pre, post, strict);
      Some(WordSegment(listStartIndex + t.lo, listStartIndex + t.hi, text[t.lo .. t.hi]))
  }

  /**
   * GetWord: the word around globalIndex on a line that starts at listStartIndex, in global
   * coordinates, or None when the boundaries cross.
   */
  function Word(o: CharOracle, text: string, globalIndex: int, listStartIndex: int, strict: bool): (r: Option<WordSegment>)
    requires |text| > 0 && globalIndex >= listStartIndex
  {
    var rel := globalIndex - listStartIndex;
    WordIn(text, listStartIndex, WordStart(o, text, rel, strict), WordEnd(o, text, rel, strict), strict)
  }

  /** The first half of GetWord: the two boundary scans from the origin. */
  method WordBounds(o: CharOracle, text: string, relativeIndex: int, strict: bool) returns (pre: int, post: int)
    requires |text| > 0 && relativeIndex >= 0
    ensures pre == WordStart(o, text, relativeIndex, strict)
    ensures post == WordEnd(o, text, relativeIndex, strict)
  {
    pre := Min(|text| - 1, relativeIndex);
    post := Min(relativeIndex, |text| - 1);
    var originCategory := SimplifiedCategory(o, text[pre]);
    if pre > 0 && post > 0 && originCategory == SpaceSeparator {
      var previousCharCategory := SimplifiedCategory(o, text[pre - 1]);
      if previousCharCategory != SpaceSeparator {
        originCategory := previousCharCategory;
        pre := pre - 1;
        post := post - 1;
      }
    }
    assert pre == post == OriginAt(o, text, relativeIndex);
    assert originCategory == OriginCategory(o, text, relativeIndex);
    var left := GetWordIndexOfChange(o, text, pre, strict, originCategory, true);
    pre := left + 1;
    post := GetWordIndexOfChange(o, text, post, strict, originCategory, false);
    if strict {
      pre := GetWordStripNonCharacter(o, text, pre, false);
      var last := GetWordStripNonCharacter(o, text, post, true);
      post := last + 1;
    }
  }

  /** The strict-mode apostrophe handling of GetWord, on global positions. */
  method TrimWordEnds(text: string, listStartIndex: int, start0: int, end0: int) returns (start: int, end: int)
    requires listStartIndex <= start0 < end0 <= listStartIndex + |text|
    ensures Span(start - listStartIndex, end - listStartIndex) == TrimApostrophes(text, start0 - listStartIndex, end0 - listStartIndex, true)
  {
    start, end := start0, end0;
    if end - start > 1 && text[start - listStartIndex] == '\'' {
      if text[end - listStartIndex - 1] == '\'' {
        start := start + 1;
        end := end - 1;
      }
    } else {
      if end - start > 2 {
        var last2Chars := text[end - listStartIndex - 2 .. end - listStartIndex];
        if IsPossessiveSuffix(last2Chars) {
          end := end - 2;
        }
      }
    }
  }

  method GetWord(o: CharOracle, text: string, globalIndex: int, listStartIndex: int, strict: bool)
    returns (r: Option<WordSegment>)
    requires |text| > 0 && globalIndex >= listStartIndex
    ensures r == Word(o, text, globalIndex, listStartIndex, strict)
  {
    var relativeIndex := globalIndex - listStartIndex;
    var pre, post := WordBounds(o, text, relativeIndex, strict);
    r := WordFromBounds(text, globalIndex, listStartIndex, pre, post, strict);
  }

  /** The second half of GetWord: the word between the boundaries, in global coordinates, apostrophes handled. */
  method WordFromBounds(text: string, globalIndex: int, listStartIndex: int, pre: int, post: int, strict: bool)
    returns (r: Option<WordSegment>)
    requires 0 <= pre <= |text| && 0 <= post <= |text| && globalIndex >= listStartIndex
    ensures r == WordIn(text, listStartIndex, pre, post, strict)
  {
    var relativeIndex := globalIndex - listStartIndex;
    if pre >= post {
      return None;
    }
    var start := globalIndex - (relativeIndex - pre);
    var end := start + (post - pre);
    if strict {
      start, end := TrimWordEnds(text, listStartIndex, start, end);
    }
    r := Some(WordSegment(start, end, text[start - listStartIndex .. end - listStartIndex]));
    WordInIsTrimmed(text, listStartIndex, pre, post, strict, start, end);
  }

  lemma WordInIsTrimmed(text: string, listStartIndex: int, pre: int, post: int, strict: bool, start: int, end: int)
    requires 0 <= pre < post <= |text|
    requires Span(start - listStartIndex, end - listStartIndex) == TrimApostrophes(text, pre, post, strict)
    ensures WordIn(text, listStartIndex, pre, post, strict) == Some(WordSegment(start, end, text[start - listStartIndex .. end - listStartIndex]))
  {
  }

  /** A word lies within its line, and its text is the line's text between its ends. */
  lemma WordIsSubstring(o: CharOracle, text: string, globalIndex: int, listStartIndex: int, strict: bool)
    requires |text| > 0 && globalIndex >= listStartIndex
    ensures var r := Word(o, text, globalIndex, listStartIndex, strict);
      r.Some? ==>
        && listStartIndex <= r.value.start <= r.value.end <= listStartIndex + |text|
        && r.value.word == text[r.value.start - listStartIndex .. r.value.end - listStartIndex]
  {
  }

  /** GetWord answers None exactly when the two boundaries cross. */
  lemma WordNoneIffBoundsCross(o: CharOracle, text: string, globalIndex: int, listStartIndex: int, strict: bool)
    requires |text| > 0 && globalIndex >= listStartIndex
    ensures Word(o, text, globalIndex, listStartIndex, strict).None?
      <==> WordStart(o, text, globalIndex - listStartIndex, strict) >= WordEnd(o, text, globalIndex - listStartIndex, strict)
  {
  }

  /**
   * In strict mode a word on a line of two or more characters starts with a letter, so the
   * branch that strips a surrounding pair of apostrophes can never fire.
   */
  lemma StrictWordStartsWithLetter(o: CharOracle, text: string, globalIndex: int, listStartIndex: int)
    requires Conforms(o)
    requires |text| > 1 && globalIndex >= listStartIndex
    requires Word(o, text, globalIndex, listStartIndex, true).Some?
    ensures |Word(o, text, globalIndex, listStartIndex, true).value.word| > 0
    ensures IsLetter(o, Word(o, text, globalIndex, listStartIndex, true).value.word[0])
    ensures Word(o, text, globalIndex, listStartIndex, true).value.word[0] != '\''
  {
    var rel := globalIndex - listStartIndex;
    var pre := WordStart(o, text, rel, true);
    var post := WordEnd(o, text, rel, true);
    assert Word(o, text, globalIndex, listStartIndex, true) == WordIn(text, listStartIndex, pre, post, true);
    StrictStartIsLetter(o, text, rel);
    ApostropheIsNotLetter(o);
    WordInStartsAtPre(text, listStartIndex, pre, post);
  }

  /** When the first character is no apostrophe, the strict word starts there. */
  lemma WordInStartsAtPre(text: string, listStartIndex: int, pre: int, post: int)
    requires 0 <= pre < post <= |text| && text[pre] != '\''
    ensures WordIn(text, listStartIndex, pre, post, true).Some?
    ensures |WordIn(text, listStartIndex, pre, post, true).value.word| > 0
    ensures WordIn(text, listStartIndex, pre, post, true).value.word[0] == text[pre]
  {
    var t := TrimApostrophes(text, pre, post, true);
    assert t.lo == pre && t.lo < t.hi;
  }

  /** The strict start stops at a letter whenever it lies before the strict end. */
  lemma StrictStartIsLetter(o: CharOracle, text: string, rel: int)
    requires |text| > 1 && rel >= 0
    requires WordStart(o, text, rel, true) < WordEnd(o, text, rel, true)
    ensures IsLetter(o, text[WordStart(o, text, rel, true)])
  {
    var p := OriginAt(o, text, rel);
    var k := OriginCategory(o, text, rel);
    var post1 := ChangeRight(o, text, p, true, k);
    assert WordEnd(o, text, rel, true) == StripLeft(o, text, post1) + 1;
  }

  lemma ApostropheIsNotLetter(o: CharOracle)
    requires Conforms(o)
    ensures !IsLetter(o, '\'')
  {
    assert Category(o, '\'') == OtherPunctuation;
  }

  /**
   * In non-strict mode the word holds no whitespace or bracket; it is preceded by the line start
   * or by such a character, and followed by one or by the line's last character, which the right
   * scan never examines.
   */
  lemma NonStrictWordIsMaximalRun(o: CharOracle, text: string, globalIndex: int, listStartIndex: int)
    requires |text| > 0 && globalIndex >= listStartIndex
    requires Word(o, text, globalIndex, listStartIndex, false).Some?
    ensures var w := Word(o, text, globalIndex, listStartIndex, false).value;
      var k := OriginCategory(o, text, globalIndex - listStartIndex);
      && (forall p :: w.start - listStartIndex <= p < w.end - listStartIndex ==> !IsChange(o, text[p], false, k))
      && (w.start == listStartIndex || IsChange(o, text[w.start - listStartIndex - 1], false, k))
      && (w.end - listStartIndex == |text| - 1 || IsChange(o, text[w.end - listStartIndex], false, k))
  {
    var rel := globalIndex - listStartIndex;
    var pre := WordStart(o, text, rel, false);
    var post := WordEnd(o, text, rel, false);
    assert Word(o, text, globalIndex, listStartIndex, false) == WordIn(text, listStartIndex, pre, post, false);
    LooseBoundsAreMaximal(o, text, rel);
  }

  lemma LooseBoundsAreMaximal(o: CharOracle, text: string, rel: int)
    requires |text| > 0 && rel >= 0
    ensures var pre := WordStart(o, text, rel, false);
      var post := WordEnd(o, text, rel, false);
      var k := OriginCategory(o, text, rel);
      && (forall p :: pre <= p < post ==> !IsChange(o, text[p], false, k))
      && (pre == 0 || IsChange(o, text[pre - 1], false, k))
      && (post == |text| - 1 || IsChange(o, text[post], false, k))
  {
    var p0 := OriginAt(o, text, rel);
    var k := OriginCategory(o, text, rel);
    var pre := WordStart(o, text, rel, false);
    var post := WordEnd(o, text, rel, false);
    assert pre == ChangeLeft(o, text, p0, false, k) + 1;
    assert post == ChangeRight(o, text, p0, false, k);
    forall p | pre <= p < post
      ensures !IsChange(o, text[p], false, k)
    {
      if p <= p0 {
        ChangeLeftSkipsNoChange(o, text, p0, false, k, p);
      } else {
        ChangeRightSkipsNoChange(o, text, p0, false, k, p);
      }
    }
  }

  /** "dog's" gives "dog": the possessive suffix is dropped. */
  lemma PossessiveDropped(o: CharOracle)
    requires Conforms(o)
    ensures Word(o, "dog's", 1, 0, true) == Some(WordSegment(0, 3, "dog"))
  {
    var text := "dog's";
    assert OriginAt(o, text, 1) == 1 && OriginCategory(o, text, 1) == LowercaseLetter;
    assert ChangeLeft(o, text, 1, true, LowercaseLetter) == -1;
    assert ChangeRight(o, text, 1, true, LowercaseLetter) == 4;
    assert StripRight(o, text, 0) == 0;
    assert StripLeft(o, text, 4) == 4;
    assert IsPossessiveSuffix(text[3..5]);
    assert TrimApostrophes(text, 0, 5, true) == Span(0, 3);
    assert text[0..3] == "dog";
  }

  /** "it's" gives "it" as well, since any word longer than two characters loses a trailing "'s". */
  lemma ContractionDropped(o: CharOracle)
    requires Conforms(o)
    ensures Word(o, "it's", 0, 0, true) == Some(WordSegment(0, 2, "it"))
  {
    var text := "it's";
    assert OriginAt(o, text, 0) == 0 && OriginCategory(o, text, 0) == LowercaseLetter;
    assert ChangeLeft(o, text, 0, true, LowercaseLetter) == -1;
    assert ChangeRight(o, text, 0, true, LowercaseLetter) == 3;
    assert StripRight(o, text, 0) == 0;
    assert StripLeft(o, text, 3) == 3;
    assert IsPossessiveSuffix(text[2..4]);
    assert TrimApostrophes(text, 0, 4, true) == Span(0, 2);
    assert text[0..2] == "it";
  }

  /** In non-strict mode the last word of a line loses its last character: "abc" gives "ab". */
  lemma NonStrictDropsLastCharacter(o: CharOracle)
    requires Conforms(o)
    ensures Word(o, "abc", 0, 0, false) == Some(WordSegment(0, 2, "ab"))
  {
    var text := "abc";
    assert OriginAt(o, text, 0) == 0 && OriginCategory(o, text, 0) == LowercaseLetter;
    assert !IsChange(o, text[0], false, LowercaseLetter);
    assert !IsChange(o, text[1], false, LowercaseLetter);
    assert ChangeLeft(o, text, 0, false, LowercaseLetter) == -1;
    assert ChangeRight(o, text, 0, false, LowercaseLetter) == 2;
    assert text[0..2] == "ab";
  }
}
