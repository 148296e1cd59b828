/**
 * Text styles: the capability record every style carries (TextStyleBase and
 * its overrides) and the two concrete matchers that find styled segments in a
 * line of text, the highlight word-list matcher and the spell-check guard chain.
 * The spell-check settings and dictionary are oracles supplied by the caller.
 */
module TextStyles {
  import opened Wrappers
  import Chars
  import Utility

  /** How a styled segment reacts to edits (TextStyleType). */
  datatype StyleKind = Automatic | Manual | Pinned

  datatype PaintMode = Inline | Custom

  /**
   * The settings the spell checker consults. `isSpelledCorrectly` yields None
   * where the dictionary throws.
   */
  datatype SpellSettings = SpellSettings(
    spellcheckEnabled: bool,
    inlineEnabled: bool,
    isValidWord: (string, string) -> bool,
    isSpelledCorrectly: string -> Option<bool>)

  datatype Matcher =
    | NeverMatches
    | WordList(words: seq<string>)
    | Spelling(chars: Chars.CharOracle, settings: SpellSettings)

  datatype Style = Style(
    nameKey: string,
    kind: StyleKind,
    updateOnlyOnFinalizingChange: bool,
    canExecute: bool,
    paintMode: PaintMode,
    matcher: Matcher)

  /** A segment a matcher proposes: line-relative index, length and payload. */
  datatype Found = Found(index: int, length: int, payload: string)

  /** A style that overrides nothing but its key and paint mode. */
  function BaseStyle(nameKey: string, paintMode: PaintMode): Style
  {
    Style(nameKey, Automatic, false, false, paintMode, NeverMatches)
  }

  function HighlightStyle(words: seq<string>): Style
  {
    Style("Highlight", Automatic, false, false, Inline, WordList(words))
  }

  function SpellcheckStyle(chars: Chars.CharOracle, settings: SpellSettings): Style
  {
    Style("Spellcheck", Automatic, true, false, Custom, Spelling(chars, settings))
  }

  /** TextStyleBase.GetStringRepresentation: the payload's own text. */
  function StringRepresentation(payload: string): string
  {
    payload
  }

  /** TextStyleBase.Execute: the base style never executes anything. */
  function Execute(style: Style): bool
  {
    false
  }

  // ---------------------------------------------------------------------------
  // Highlight word-list matcher
  // ---------------------------------------------------------------------------

  /** The characters left of position i of `word` agree with the text when i is aligned with `start`. */
  predicate LeftAligned(word: string, text: string, start: int, i: int)
    requires 0 <= start < |text| && 0 <= i < |word|
  {
    i <= start && forall j :: 0 <= j < i ==> word[j] == text[start - i + j]
  }

  /** The characters right of position i of `word` agree with the text when i is aligned with `start`. */
  predicate RightAligned(word: string, text: string, start: int, i: int)
    requires 0 <= start < |text| && 0 <= i < |word|
  {
    start + (|word| - i) <= |text| && forall j :: i < j < |word| ==> word[j] == text[start - i + j]
  }

  datatype Attempt = Matched(found: Found) | Abandoned | Exhausted

  /**
   * Tries the positions i, i+1, ... of `word` against text[start]. A position
   * whose left side disagrees abandons the whole word; a position whose right
   * side disagrees moves on to the next position.
   */
  function TryPositions(word: string, text: string, start: int, i: int): Attempt
    requires 0 <= start < |text| && 0 <= i <= |word|
    decreases |word| - i
  {
    if i == |word| then Exhausted
    else if word[i] != text[start] then TryPositions(word, text, start, i + 1)
    else if !LeftAligned(word, text, start, i) then Abandoned
    else if RightAligned(word, text, start, i) then Matched(Found(start - i, |word|, word))
    else TryPositions(word, text, start, i + 1)
  }

  function FirstWordMatch(words: seq<string>, text: string, start: int, k: int): Option<Found>
    requires 0 <= start < |text| && 0 <= k <= |words|
    decreases |words| - k
  {
    if k == |words| then None
    else match TryPositions(words[k], text, start, 0)
      case Matched(f) => Some(f)
      case _ => FirstWordMatch(words, text, start, k + 1)
  }

  /** TextStyleHighlightBase.FindStyledTextSegment as a function of the line text. */
  function HighlightFind(words: seq<string>, text: string, start: int): Option<Found>
    requires start >= 0
  {
    if start >= |text| then None else FirstWordMatch(words, text, start, 0)
  }

  method MatchLeft(word: string, text: string, start: int, i: int) returns (found: bool)
    requires 0 <= start < |text| && 0 <= i < |word|
    ensures found == LeftAligned(word, text, start, i)
  {
    found := true;
    var left := i - 1;
    while left >= 0
      invariant -1 <= left < i
      invariant i - 1 - left <= start
      invariant forall j :: left < j < i ==> start - (i - j) >= 0 && word[j] == text[start - (i - j)]
    {
      var relativeIndex := start - (i - left);
      if relativeIndex < 0 {
        found := false;
        return;
      }
      if word[left] != text[relativeIndex] {
        assert i <= start ==> word[left] != text[start - i + left];
        found := false;
        return;
      }
      left := left - 1;
    }
  }

  method MatchRight(word: string, text: string, start: int, i: int) returns (found: bool)
    requires 0 <= start < |text| && 0 <= i < |word|
    ensures found == RightAligned(word, text, start, i)
  {
    found := true;
    var right := i + 1;
    while right < |word|
      invariant i < right <= |word|
      invariant start + (right - 1 - i) < |text|
      invariant forall j :: i < j < right ==> word[j] == text[start - i + j]
    {
      var relativeIndex := start + (right - i);
      if relativeIndex >= |text| {
        found := false;
        return;
      }
      if word[right] != text[relativeIndex] {
        found := false;
        return;
      }
      right := right + 1;
    }
  }

  method TryWord(word: string, text: string, start: int) returns (r: Attempt)
    requires 0 <= start < |text|
    ensures r == TryPositions(word, text, start, 0)
  {
    var i := 0;
    while i < |word|
      invariant 0 <= i <= |word|
      invariant TryPositions(word, text, start, i) == TryPositions(word, text, start, 0)
    {
      if word[i] != text[start] {
        i := i + 1;
        continue;
      }
      var found := MatchLeft(word, text, start, i);
      if !found {
        return Abandoned;
      }
      found := MatchRight(word, text, start, i);
      if found {
        return Matched(Found(start - i, |word|, word));
      }
      i := i + 1;
    }
    return Exhausted;
  }

  /** The loop of TextStyleHighlightBase.FindStyledTextSegment. */
  method FindHighlight(words: seq<string>, text: string, startIndex: int) returns (r: Option<Found>)
    requires startIndex >= 0
    ensures r == HighlightFind(words, text, startIndex)
  {
    if startIndex >= |text| {
      return None;
    }
    var k := 0;
    while k < |words|
      invariant 0 <= k <= |words|
      invariant FirstWordMatch(words, text, startIndex, k) == FirstWordMatch(words, text, startIndex, 0)
    {
      var attempt := TryWord(words[k], text, startIndex);
      if attempt.Matched? {
        return Some(attempt.found);
      }
      k := k + 1;
    }
    return None;
  }

  lemma {:induction false} TryPositionsIsOccurrence(word: string, text: string, start: int, i: int)
    requires 0 <= start < |text| && 0 <= i <= |word|
    ensures var a := TryPositions(word, text, start, i);
      a.Matched? ==>
        && a.found.payload == word && a.found.length == |word|
        && 0 <= a.found.index <= start < a.found.index + a.found.length <= |text|
        && text[a.found.index .. a.found.index + a.found.length] == word
    decreases |word| - i
  {
    if i < |word| {
      if word[i] != text[start] {
        TryPositionsIsOccurrence(word, text, start, i + 1);
      } else if !LeftAligned(word, text, start, i) {
      } else if RightAligned(word, text, start, i) {
        var lo := start - i;
        forall j | 0 <= j < |word| ensures text[lo .. lo + |word|][j] == word[j] {
          if j < i {
          } else if j == i {
          } else {
          }
        }
      } else {
        TryPositionsIsOccurrence(word, text, start, i + 1);
      }
    }
  }

  lemma {:induction false} FirstWordMatchIsFirst(words: seq<string>, text: string, start: int, k: int)
    requires 0 <= start < |text| && 0 <= k <= |words|
    ensures var r := FirstWordMatch(words, text, start, k);
      r.Some? ==> exists w :: (k <= w < |words| && TryPositions(words[w], text, start, 0) == Matched(r.value)
        && forall v :: k <= v < w ==> !TryPositions(words[v], text, start, 0).Matched?)
    ensures FirstWordMatch(words, text, start, k).None? ==>
      forall v :: k <= v < |words| ==> !TryPositions(words[v], text, start, 0).Matched?
    decreases |words| - k
  {
    if k < |words| && !TryPositions(words[k], text, start, 0).Matched? {
      FirstWordMatchIsFirst(words, text, start, k + 1);
      var r := FirstWordMatch(words, text, start, k);
      if r.Some? {
        var w :| k + 1 <= w < |words| && TryPositions(words[w], text, start, 0) == Matched(r.value)
          && forall v :: k + 1 <= v < w ==> !TryPositions(words[v], text, start, 0).Matched?;
        assert forall v :: k <= v < w ==> !TryPositions(words[v], text, start, 0).Matched?;
      }
    }
  }

  /**
   * A highlight match is an occurrence of one of the listed words that covers
   * the start position; it comes from the first word in list order that
   * matches at all, and no match comes back past the end of the text.
   */
  lemma HighlightMatchIsFirstOccurrence(words: seq<string>, text: string, start: int)
    requires start >= 0
    ensures start >= |text| ==> HighlightFind(words, text, start).None?
    ensures var r := HighlightFind(words, text, start);
      r.Some? ==> exists w :: (0 <= w < |words|
        && r.value.payload == words[w] && r.value.length == |words[w]|
        && 0 <= r.value.index <= start < r.value.index + r.value.length <= |text|
        && text[r.value.index .. r.value.index + r.value.length] == words[w]
        && forall v :: 0 <= v < w ==> !TryPositions(words[v], text, start, 0).Matched?)
  {
    if start < |text| {
      FirstWordMatchIsFirst(words, text, start, 0);
      var r := HighlightFind(words, text, start);
      if r.Some? {
        var w :| 0 <= w < |words| && TryPositions(words[w], text, start, 0) == Matched(r.value)
          && forall v :: 0 <= v < w ==> !TryPositions(words[v], text, start, 0).Matched?;
        TryPositionsIsOccurrence(words[w], text, start, 0);
      }
    }
  }

  /** A left-side mismatch abandons the word: "yaxa" is not found at position 3 of "yaxa". */
  lemma HighlightAbandonsOnLeftMismatch()
    ensures "yaxa"[0..4] == "yaxa"
    ensures HighlightFind(["yaxa"], "yaxa", 3) == None
  {
    assert "yaxa"[1] == "yaxa"[3];
    assert "yaxa"[0] != "yaxa"[2];
    assert !LeftAligned("yaxa", "yaxa", 3, 1);
    assert TryPositions("yaxa", "yaxa", 3, 0) == Abandoned;
  }

  /** A right-side mismatch tries the next position: "aab" is found at position 1 of "aab". */
  lemma HighlightRetriesOnRightMismatch()
    ensures HighlightFind(["aab"], "aab", 1) == Some(Found(0, 3, "aab"))
  {
    assert !RightAligned("aab", "aab", 1, 0);
    assert LeftAligned("aab", "aab", 1, 1);
    assert RightAligned("aab", "aab", 1, 1);
    assert TryPositions("aab", "aab", 1, 1) == Matched(Found(0, 3, "aab"));
  }

  // ---------------------------------------------------------------------------
  // Spell-check guard chain
  // ---------------------------------------------------------------------------

  /**
   * TextStyleSpellcheck.FindStyledTextSegment for the line with the given text
   * that starts at global index `lineIndex`.
   */
  function SpellFind(o: Chars.CharOracle, s: SpellSettings, text: string, lineIndex: int, index: int): Option<Found>
    requires index >= 0
  {
    if !s.spellcheckEnabled || !s.inlineEnabled || |text| == 0 then None
    else
      var w := Utility.Word(o, text, lineIndex + index, lineIndex, true);
      if w.None? then None
      else if w.value.end - w.value.start < 3 then None
      else if !s.isValidWord(w.value.word, text) then None
      else if s.isSpelledCorrectly(w.value.word) == Some(true) then None
      else Some(Found(w.value.start - lineIndex, w.value.end - w.value.start, w.value.word))
  }

  /**
   * The spell checker marks exactly the strict word under the index when the
   * checks are enabled, the word has at least three characters, the filter
   * accepts it and the dictionary does not confirm it (a dictionary that
   * throws counts as not confirming); the mark covers that word in the line.
   */
  lemma SpellFindMarksMisspelledWord(o: Chars.CharOracle, s: SpellSettings, text: string, lineIndex: int, index: int)
    requires index >= 0
    ensures var r := SpellFind(o, s, text, lineIndex, index);
      r.Some? <==>
        && s.spellcheckEnabled && s.inlineEnabled && |text| > 0
        && var w := Utility.Word(o, text, lineIndex + index, lineIndex, true);
           && w.Some? && w.value.end - w.value.start >= 3
           && s.isValidWord(w.value.word, text)
           && s.isSpelledCorrectly(w.value.word) != Some(true)
    ensures var r := SpellFind(o, s, text, lineIndex, index);
      r.Some? ==>
        && r.value.length >= 3
        && 0 <= r.value.index && r.value.index + r.value.length <= |text|
        && r.value.payload == text[r.value.index .. r.value.index + r.value.length]
  {
    if s.spellcheckEnabled && s.inlineEnabled && |text| > 0 {
      Utility.WordIsSubstring(o, text, lineIndex + index, lineIndex, true);
    }
  }

  // ---------------------------------------------------------------------------
  // Dispatch
  // ---------------------------------------------------------------------------

  /** FindStyledTextSegment of any style, at a line-relative index. */
  function Find(style: Style, text: string, lineIndex: int, index: int): Option<Found>
    requires index >= 0
  {
    match style.matcher
      case NeverMatches => None
      case WordList(words) => HighlightFind(words, text, index)
      case Spelling(o, s) => SpellFind(o, s, text, lineIndex, index)
  }

  /** What a style overrides and what it inherits from TextStyleBase. */
  lemma StyleCapabilities(nameKey: string, paintMode: PaintMode, words: seq<string>, o: Chars.CharOracle, s: SpellSettings, text: string, lineIndex: int, index: int)
    requires index >= 0
    ensures var b := BaseStyle(nameKey, paintMode);
      b.kind == Automatic && !b.updateOnlyOnFinalizingChange && !b.canExecute && !Execute(b)
      && Find(b, text, lineIndex, index).None?
    ensures var h := HighlightStyle(words);
      h.nameKey == "Highlight" && h.paintMode == Inline && h.kind == Automatic && !h.updateOnlyOnFinalizingChange
      && Find(h, text, lineIndex, index) == HighlightFind(words, text, index)
    ensures var c := SpellcheckStyle(o, s);
      c.nameKey == "Spellcheck" && c.paintMode == Custom && c.kind == Automatic && c.updateOnlyOnFinalizingChange
      && Find(c, text, lineIndex, index) == SpellFind(o, s, text, lineIndex, index)
  {
  }

  /** Every match lies inside the line and has a non-negative start. */
  lemma {:induction false} FindIsInsideLine(style: Style, text: string, lineIndex: int, index: int)
    requires index >= 0
    ensures var r := Find(style, text, lineIndex, index);
      r.Some? ==> 0 <= r.value.index && 0 < r.value.length && r.value.index + r.value.length <= |text|
  {
    match style.matcher
      case NeverMatches =>
      case WordList(words) => HighlightMatchIsFirstOccurrence(words, text, index);
      case Spelling(o, s) => SpellFindMarksMisspelledWord(o, s, text, lineIndex, index);
  }
}
