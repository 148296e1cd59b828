/**
 * The pure part of the keyboard handling of a text view: how many
 * characters a word step (Ctrl with Backspace or Delete) reaches over the
 * characters read from the caret in the direction of the step.
 */
module Keyboard {
  import opened Chars
  import opened Utility

  /**
   * The scan of GetLengthByLargeStep from position i of the stream, as the
   * number of characters it still steps over. cat is the category of the
   * run (Format until a character sets it; leftward, space separators met
   * before that are stepped over); found says a category change was met,
   * after which a rightward step takes only whitespace.
   */
  function StepFrom(o: CharOracle, s: string, right: bool, i: nat, cat: UnicodeCategory, found: bool): (n: nat)
    requires i <= |s|
    ensures n <= |s| - i
    decreases |s| - i
  {
    if i == |s| then 0
    else
      var c := s[i];
      var k := SimplifiedCategory(o, c);
      if found && !IsWhiteSpace(o, c) then 0
      else if cat == Format && !right && k == SpaceSeparator then 1 + StepFrom(o, s, right, i + 1, cat, found)
      else
        var run := if cat == Format then k else cat;
        if k != run then
          (if !right || !IsWhiteSpace(o, c) then 0 else 1 + StepFrom(o, s, right, i + 1, run, true))
        else 1 + StepFrom(o, s, right, i + 1, run, found)
  }

  /** The length of a word step over the stream s. */
  function LargeStep(o: CharOracle, s: string, right: bool): nat
  {
    StepFrom(o, s, right, 0, Format, false)
  }

  /**
   * The scan of GetLengthByLargeStep over the stream read from the caret:
   * the characters it steps over before it stops.
   */
  method ScanLargeStep(o: CharOracle, stream: string, right: bool) returns (count: nat)
    ensures count == LargeStep(o, stream, right) && count <= |stream|
  {
    count := 0;
    var found := false;
    var category := Format;
    while count < |stream|
      invariant count <= |stream|
      invariant LargeStep(o, stream, right) == count + StepFrom(o, stream, right, count, category, found)
    {
      var c := stream[count];
      if found && !IsWhiteSpace(o, c) {
        break;
      }
      if category == Format {
        var newCategory := SimplifiedCategory(o, c);
        if !right && newCategory == SpaceSeparator {
          count := count + 1;
          continue;
        }
        category := newCategory;
      }
      if SimplifiedCategory(o, c) != category {
        found := true;
        if !right || !IsWhiteSpace(o, c) {
          break;
        }
      }
      count := count + 1;
    }
  }

  /** The longest run from i of characters of category cat. */
  function RunFrom(o: CharOracle, s: string, i: nat, cat: UnicodeCategory): (n: nat)
    requires i <= |s|
    ensures i + n <= |s|
    ensures forall j :: i <= j < i + n ==> SimplifiedCategory(o, s[j]) == cat
    ensures i + n < |s| ==> SimplifiedCategory(o, s[i + n]) != cat
    decreases |s| - i
  {
    if i == |s| || SimplifiedCategory(o, s[i]) != cat then 0 else 1 + RunFrom(o, s, i + 1, cat)
  }

  /** The longest run from i of whitespace. */
  function WhiteFrom(o: CharOracle, s: string, i: nat): (n: nat)
    requires i <= |s|
    ensures i + n <= |s|
    ensures forall j :: i <= j < i + n ==> IsWhiteSpace(o, s[j])
    ensures i + n < |s| ==> !IsWhiteSpace(o, s[i + n])
    decreases |s| - i
  {
    if i == |s| || !IsWhiteSpace(o, s[i]) then 0 else 1 + WhiteFrom(o, s, i + 1)
  }

  /** Once a change was met, a rightward step takes the whitespace that follows and stops before anything else. */
  lemma {:induction false} RightwardWhitespace(o: CharOracle, s: string, i: nat, cat: UnicodeCategory)
    requires i <= |s| && cat != Format
    ensures StepFrom(o, s, true, i, cat, true) == WhiteFrom(o, s, i)
    decreases |s| - i
  {
    if i < |s| && IsWhiteSpace(o, s[i]) {
      RightwardWhitespace(o, s, i + 1, cat);
    }
  }

  /** A rightward step inside a run takes the rest of the run, then the whitespace after it. */
  lemma {:induction false} RightwardRun(o: CharOracle, s: string, i: nat, cat: UnicodeCategory)
    requires i <= |s| && cat != Format
    ensures var run := RunFrom(o, s, i, cat);
      StepFrom(o, s, true, i, cat, false) == run + WhiteFrom(o, s, i + run)
    decreases |s| - i
  {
    if i < |s| {
      if SimplifiedCategory(o, s[i]) == cat {
        RightwardRun(o, s, i + 1, cat);
      } else if IsWhiteSpace(o, s[i]) {
        RightwardWhitespace(o, s, i + 1, cat);
      }
    }
  }

  /**
   * Rightward, a word step takes the run of the first character's category
   * and then the whitespace after it.
   */
  lemma RightwardStepIsRunThenWhitespace(o: CharOracle, s: string)
    requires |s| > 0 && SimplifiedCategory(o, s[0]) != Format
    ensures var run := RunFrom(o, s, 0, SimplifiedCategory(o, s[0]));
      && run > 0
      && LargeStep(o, s, true) == run + WhiteFrom(o, s, run)
  {
    RightwardRun(o, s, 1, SimplifiedCategory(o, s[0]));
  }

  /** The longest run from i of space separators. */
  function SpacesFrom(o: CharOracle, s: string, i: nat): (n: nat)
    requires i <= |s|
    ensures i + n <= |s|
    ensures forall j :: i <= j < i + n ==> SimplifiedCategory(o, s[j]) == SpaceSeparator
    ensures i + n < |s| ==> SimplifiedCategory(o, s[i + n]) != SpaceSeparator
    decreases |s| - i
  {
    if i == |s| || SimplifiedCategory(o, s[i]) != SpaceSeparator then 0 else 1 + SpacesFrom(o, s, i + 1)
  }

  /** A leftward step inside a run takes the rest of the run and stops at the first change. */
  lemma {:induction false} LeftwardRun(o: CharOracle, s: string, i: nat, cat: UnicodeCategory)
    requires i <= |s| && cat != Format
    ensures StepFrom(o, s, false, i, cat, false) == RunFrom(o, s, i, cat)
    decreases |s| - i
  {
    if i < |s| && SimplifiedCategory(o, s[i]) == cat {
      LeftwardRun(o, s, i + 1, cat);
    }
  }

  /** Before its run starts, a leftward step takes the space separators, then the run of the next character. */
  lemma {:induction false} LeftwardSpaces(o: CharOracle, s: string, i: nat)
    requires i <= |s|
    requires var sp := SpacesFrom(o, s, i); i + sp < |s| ==> SimplifiedCategory(o, s[i + sp]) != Format
    ensures var sp := SpacesFrom(o, s, i);
      StepFrom(o, s, false, i, Format, false) == sp + (if i + sp < |s| then RunFrom(o, s, i + sp, SimplifiedCategory(o, s[i + sp])) else 0)
    decreases |s| - i
  {
    if i < |s| {
      var k := SimplifiedCategory(o, s[i]);
      if k == SpaceSeparator {
        LeftwardSpaces(o, s, i + 1);
      } else {
        LeftwardRun(o, s, i + 1, k);
      }
    }
  }

  /**
   * Leftward (over the characters before the caret, nearest first), a word
   * step takes the space separators and then the run of the category of the
   * first other character, stopping at the first category change.
   */
  lemma LeftwardStepIsSpacesThenRun(o: CharOracle, s: string)
    requires var sp := SpacesFrom(o, s, 0); sp < |s| ==> SimplifiedCategory(o, s[sp]) != Format
    ensures var sp := SpacesFrom(o, s, 0);
      LargeStep(o, s, false) == sp + (if sp < |s| then RunFrom(o, s, sp, SimplifiedCategory(o, s[sp])) else 0)
  {
    LeftwardSpaces(o, s, 0);
  }

  /** A word step never reaches past the stream, and over a non-empty stream it takes at least one character. */
  lemma LargeStepBounds(o: CharOracle, s: string, right: bool)
    ensures LargeStep(o, s, right) <= |s|
    ensures |s| > 0 ==> LargeStep(o, s, right) > 0
  {
  }

  /**
   * The position in breaks of the first visual line break at or after rel
   * (searching forward), or |breaks| when every break lies before rel.
   */
  function FirstBreakFrom(breaks: seq<int>, rel: int): (i: nat)
    ensures i <= |breaks|
    ensures i < |breaks| ==> rel <= breaks[i]
    ensures forall j :: 0 <= j < i ==> breaks[j] < rel
  {
    if |breaks| == 0 then 0
    else if rel <= breaks[0] then 0
    else 1 + FirstBreakFrom(breaks[1..], rel)
  }

  /**
   * The position in breaks of the last visual line break at or before rel
   * (searching backward), or -1 when every break lies after rel.
   */
  function LastBreakUpTo(breaks: seq<int>, rel: int): (i: int)
    ensures -1 <= i < |breaks|
    ensures 0 <= i ==> breaks[i] <= rel
    ensures forall j :: i < j < |breaks| ==> breaks[j] > rel
  {
    if |breaks| == 0 then -1
    else if breaks[|breaks| - 1] <= rel then |breaks| - 1
    else LastBreakUpTo(breaks[..|breaks| - 1], rel)
  }

  /** A leftward scan reads only the simplified categories of the characters. */
  lemma {:induction false} LeftScanReadsCategories(o: CharOracle, s: string, t: string, i: nat, cat: UnicodeCategory)
    requires |s| == |t| && i <= |s|
    requires forall j :: i <= j < |s| ==> SimplifiedCategory(o, s[j]) == SimplifiedCategory(o, t[j])
    ensures StepFrom(o, s, false, i, cat, false) == StepFrom(o, t, false, i, cat, false)
    decreases |s| - i
  {
    if i < |s| {
      LeftScanReadsCategories(o, s, t, i + 1, cat);
      LeftScanReadsCategories(o, s, t, i + 1, SimplifiedCategory(o, s[i]));
    }
  }

  /**
   * A leftward word step cannot tell a line break read as '\n' from one read
   * as '\0': both are control characters, and a leftward step stops at the
   * first change of category without asking whether it is whitespace.
   */
  lemma LeftStepSeesBreaksAlike(o: CharOracle, s: string, t: string)
    requires Conforms(o) && |s| == |t|
    requires forall j :: 0 <= j < |s| ==> s[j] == t[j] || (s[j] == '\n' && t[j] == '\0')
    ensures LargeStep(o, s, false) == LargeStep(o, t, false)
  {
    assert SimplifiedCategory(o, '\n') == SimplifiedCategory(o, '\0');
    LeftScanReadsCategories(o, s, t, 0, Format);
  }
}
