/**
 * The search-and-replace form: the regular expression it builds from the
 * search text and its options, the line of text it shows for a match, and
 * the replacement of one listed match, after which the later matches are
 * moved by the change in the text's length.
 */
module SearchReplace {
  import opened Wrappers
  import Strs
  import opened Seqs
  import opened LineStore
  import opened UndoRedo
  import opened Document
  import opened Views

  // ---------------------------------------------------------------------------
  // GetRegexSearchText and GetRegexOptions
  // ---------------------------------------------------------------------------

  /** The search methods of the form's method box. */
  const Cleartext := 0
  const Wildcard := 1
  const RegularExpression := 2

  /** The wildcard pattern: each escaped '*' back to '*', then every '*' to a lazy ".*?". */
  function WildcardPattern(escaped: string): string
  {
    Strs.Replace(Strs.Replace(escaped, "\\*", "*"), "*", ".*?")
  }

  /**
   * GetRegexSearchText: the escaped search text, the wildcard pattern, the
   * search text itself, or null for any other method; with whole words the
   * result is put between two `\b` (a null result then gives `\b\b`).
   * escape is Regex.Escape.
   */
  function RegexSearchText(searchMethod: int, wholeWord: bool, search: string, escape: string -> string): (r: Option<string>)
    ensures r.None? <==> !wholeWord && !(Cleartext <= searchMethod <= RegularExpression)
  {
    var core :=
      if searchMethod == Cleartext then Some(escape(search))
      else if searchMethod == Wildcard then Some(WildcardPattern(escape(search)))
      else if searchMethod == RegularExpression then Some(search)
      else None;
    if wholeWord then Some("\\b" + (if core.Some? then core.value else "") + "\\b") else core
  }

  /** With whole words the pattern is the one without, between two `\b`; an unknown method leaves `\b\b`. */
  lemma WholeWordWraps(searchMethod: int, search: string, escape: string -> string)
    ensures var core := RegexSearchText(searchMethod, false, search, escape);
      && (core.Some? ==> RegexSearchText(searchMethod, true, search, escape) == Some("\\b" + core.value + "\\b"))
      && (core.None? ==> RegexSearchText(searchMethod, true, search, escape) == Some("\\b\\b"))
  {
    assert "\\b" + "" + "\\b" == "\\b\\b";
  }

  /** Every '*' of w stands between a '.' and a '?'. */
  predicate StarsAreLazy(w: string)
  {
    forall i :: 0 <= i < |w| && w[i] == '*' ==> 0 < i < |w| - 1 && w[i - 1] == '.' && w[i + 1] == '?'
  }

  /** After the second replacement every '*' is the middle of a ".*?". */
  lemma {:induction false} StarsBecomeLazy(s: string)
    ensures StarsAreLazy(Strs.Replace(s, "*", ".*?"))
    decreases |s|
  {
    if |s| >= 1 {
      var rest := Strs.Replace(s[1..], "*", ".*?");
      StarsBecomeLazy(s[1..]);
      if s[..1] == "*" {
        var w := ".*?" + rest;
        assert Strs.Replace(s, "*", ".*?") == w;
        forall i | 0 <= i < |w| && w[i] == '*'
          ensures 0 < i < |w| - 1 && w[i - 1] == '.' && w[i + 1] == '?'
        {
          if i >= 3 {
            assert w[i] == rest[i - 3];
          }
        }
      } else {
        var w := [s[0]] + rest;
        assert s[0] != '*' by {
          assert s[..1] == [s[0]];
        }
        assert Strs.Replace(s, "*", ".*?") == w;
        forall i | 0 <= i < |w| && w[i] == '*'
          ensures 0 < i < |w| - 1 && w[i - 1] == '.' && w[i + 1] == '?'
        {
          assert w[i] == rest[i - 1];
        }
      }
    }
  }

  /** A replacement with as many c as the pattern keeps the number of c. */
  lemma {:induction false} ReplaceKeepsCount(s: string, pat: string, rep: string, c: char)
    requires |pat| > 0 && multiset(pat)[c] == multiset(rep)[c]
    ensures multiset(Strs.Replace(s, pat, rep))[c] == multiset(s)[c]
    decreases |s|
  {
    if |s| >= |pat| {
      if s[..|pat|] == pat {
        ReplaceKeepsCount(s[|pat|..], pat, rep, c);
        assert s == s[..|pat|] + s[|pat|..];
      } else {
        ReplaceKeepsCount(s[1..], pat, rep, c);
        assert s == [s[0]] + s[1..];
      }
    }
  }

  /** A pattern with a character that is not there is not replaced. */
  lemma {:induction false} ReplaceMissing(s: string, pat: string, rep: string, k: nat)
    requires k < |pat| && pat[k] !in s
    ensures Strs.Replace(s, pat, rep) == s
    decreases |s|
  {
    if |s| >= |pat| {
      assert s[..|pat|] != pat by {
        assert s[..|pat|][k] == s[k];
      }
      ReplaceMissing(s[1..], pat, rep, k);
      assert s == [s[0]] + s[1..];
    }
  }

  /**
   * The wildcard pattern has as many '*' as the escaped text, each of them in
   * a ".*?"; without any '*' it is the escaped text, so that the wildcard
   * method then searches like the clear-text one.
   */
  lemma WildcardStars(escaped: string)
    ensures multiset(WildcardPattern(escaped))['*'] == multiset(escaped)['*']
    ensures StarsAreLazy(WildcardPattern(escaped))
    ensures '*' !in escaped ==> WildcardPattern(escaped) == escaped
  {
    var once := Strs.Replace(escaped, "\\*", "*");
    assert multiset("\\*")['*'] == 1 == multiset("*")['*'] by {
      assert "\\*" == ['\\'] + ['*'];
    }
    assert multiset(".*?")['*'] == 1 by {
      assert ".*?" == ['.'] + ['*'] + ['?'];
    }
    ReplaceKeepsCount(escaped, "\\*", "*", '*');
    ReplaceKeepsCount(once, "*", ".*?", '*');
    StarsBecomeLazy(once);
    if '*' !in escaped {
      ReplaceMissing(escaped, "\\*", "*", 1);
      ReplaceMissing(once, "*", ".*?", 0);
    }
  }

  /** The RegexOptions flags the form uses, with their .NET values. */
  const IgnoreCase: bv32 := 1
  const Singleline: bv32 := 16

  /** GetRegexOptions: always single-line, and case-insensitive unless the case must match. */
  function RegexOptions(matchCase: bool): (r: bv32)
    ensures r & Singleline == Singleline
    ensures r & IgnoreCase == IgnoreCase <==> !matchCase
    ensures r & !(Singleline | IgnoreCase) == 0
  {
    if matchCase then Singleline else Singleline | IgnoreCase
  }

  // ---------------------------------------------------------------------------
  // GetLineOfText
  // ---------------------------------------------------------------------------

  /**
   * Where the line of position j starts as GetLineOfText finds it: one past
   * the nearest line break at a position in 1..j, or 0 when there is none
   * (position 0 is never looked at).
   */
  function StartOf(text: string, j: nat): (s: nat)
    requires j == 0 || j < |text|
    ensures s <= j + 1
    decreases j
  {
    if j == 0 then 0 else if text[j] == '\n' then j + 1 else StartOf(text, j - 1)
  }

  /** StartOf is one past a line break in 1..j, with none after it up to j, or 0 with none in 1..j. */
  lemma {:induction false} StartOfIsNearestBreak(text: string, j: nat)
    requires j == 0 || j < |text|
    ensures var s := StartOf(text, j);
      && (s > 0 ==> 1 <= s - 1 <= j && text[s - 1] == '\n')
      && (forall k :: 0 < k && s <= k <= j ==> text[k] != '\n')
    decreases j
  {
    if j > 0 && text[j] != '\n' {
      StartOfIsNearestBreak(text, j - 1);
    }
  }

  /** Where the line of position j ends: the first line break at j or after it, or the text's end. */
  function EndOf(text: string, j: nat): (e: nat)
    requires j <= |text|
    ensures j <= e <= |text|
    decreases |text| - j
  {
    if j == |text| || text[j] == '\n' then j else EndOf(text, j + 1)
  }

  /** EndOf is the first line break at j or after it, or the end of the text. */
  lemma {:induction false} EndOfIsNextBreak(text: string, j: nat)
    requires j <= |text|
    ensures var e := EndOf(text, j);
      && (forall k :: j <= k < e ==> text[k] != '\n')
      && (e < |text| ==> text[e] == '\n')
    decreases |text| - j
  {
    if j < |text| && text[j] != '\n' {
      EndOfIsNextBreak(text, j + 1);
    }
  }

  /**
   * GetLineOfText(text, index): None where the source throws (a negative
   * index, or an index past the end other than 0); otherwise the text from
   * StartOf to EndOf without its '\r', or "" when that span is empty.
   */
  function LineOfText(text: string, index: int): Option<string>
  {
    if index < 0 || (index > 0 && index >= |text|) then None
    else
      var s, e := StartOf(text, index), EndOf(text, index);
      if e - s <= 0 then Some("") else Some(Strs.Replace(text[s..e], "\r", ""))
  }

  /** The two scans of GetLineOfText, and the carriage returns taken out. */
  method GetLineOfText(text: string, index: int) returns (r: Option<string>)
    ensures r == LineOfText(text, index)
  {
    var startIndex := index;
    var endIndex := index;
    while startIndex > 0
      invariant startIndex <= index && (startIndex >= 0 || startIndex == index)
      invariant startIndex < index ==> startIndex < |text| && index < |text|
      invariant index < |text| && startIndex >= 0 ==> StartOf(text, startIndex) == StartOf(text, index)
    {
      if startIndex >= |text| {
        return None;
      }
      if text[startIndex] == '\n' {
        startIndex := startIndex + 1;
        break;
      }
      startIndex := startIndex - 1;
    }
    while endIndex < |text|
      invariant index < 0 ==> endIndex == index
      invariant 0 <= index ==> index <= endIndex <= |text| && EndOf(text, index) == EndOf(text, endIndex)
    {
      if endIndex < 0 {
        return None;
      }
      if text[endIndex] == '\n' {
        break;
      }
      endIndex := endIndex + 1;
    }
    if startIndex < 0 {
      assert false;
    }
    if endIndex - startIndex <= 0 {
      return Some("");
    }
    r := Some(Strs.Replace(text[startIndex..endIndex], "\r", ""));
  }

  /**
   * GetLineOfText answers exactly for the positions of the text (and for 0);
   * its line holds no '\r', and a line break only as its first character,
   * when the text starts with a line break that was not looked at.
   */
  lemma LineOfTextIsALine(text: string, index: int)
    ensures LineOfText(text, index).Some? <==> 0 <= index < |text| || index == 0
    ensures LineOfText(text, index).Some? ==>
      var line := LineOfText(text, index).value;
      && '\r' !in line
      && ('\n' in line ==> text[0] == '\n' && line[0] == '\n' && '\n' !in line[1..])
  {
    if LineOfText(text, index).Some? {
      var s, e := StartOf(text, index), EndOf(text, index);
      StartOfIsNearestBreak(text, index);
      EndOfIsNextBreak(text, index);
      if e - s > 0 {
        var span := text[s..e];
        Strs.RemoveChar(span, '\r');
        if '\n' in Strs.Replace(span, "\r", "") {
          assert '\n' in span;
          var k :| 0 <= k < |span| && span[k] == '\n';
          assert text[s + k] == '\n';
          assert s == 0 && k == 0;
          assert span[..1] != "\r" by {
            assert span[..1][0] == '\n';
          }
          assert Strs.Replace(span, "\r", "") == [span[0]] + Strs.Replace(span[1..], "\r", "");
          assert '\n' !in span[1..] by {
            forall j | 1 <= j < |span| ensures span[j] != '\n' {
              assert span[j] == text[j];
            }
          }
          Strs.RemoveChar(span[1..], '\r');
        }
      }
    }
  }

  /** A position on a line break (other than 0) gives the empty line. */
  lemma LineOfBreakIsEmpty(text: string, index: int)
    requires 0 < index < |text| && text[index] == '\n'
    ensures LineOfText(text, index) == Some("")
  {
  }

  /** An empty first line is not skipped: the line after it comes back with the line break in front. */
  lemma LeadingBreakIsKept()
    ensures LineOfText("\nab", 1) == Some("\nab")
  {
    var text := "\nab";
    assert StartOf(text, 1) == 0;
    assert EndOf(text, 1) == 3;
    assert text[0..3] == text;
    assert Strs.Replace(text, "\r", "") == text by {
      Strs.ReplaceAbsentChar(text, '\r', "");
    }
  }

  // ---------------------------------------------------------------------------
  // The result list and Replace
  // ---------------------------------------------------------------------------

  /** One match in the result list. */
  datatype ListResult = ListResult(lineText: string, matchStart: int, matchLength: int, matchString: string, beenReplaced: bool)

  /** The results after the loop of Replace, and whether GetLineOfText threw in it. */
  datatype Shift = Shift(results: seq<ListResult>, thrown: bool)

  /** A result moved by delta, with the line of its new start. */
  predicate MovedBy(after: ListResult, before: ListResult, delta: int, text: string)
  {
    && LineOfText(text, before.matchStart - delta).Some?
    && after == before.(matchStart := before.matchStart - delta, lineText := LineOfText(text, before.matchStart - delta).value)
  }

  /** The loop of Replace from result n on: each start moves by -delta, then its line is read again. */
  function ShiftFrom(results: seq<ListResult>, n: nat, delta: int, text: string): (r: Shift)
    requires n <= |results|
    decreases |results| - n
  {
    if n == |results| then Shift(results, false)
    else
      var moved := results[n].matchStart - delta;
      match LineOfText(text, moved)
      case None => Shift(results[n := results[n].(matchStart := moved)], true)
      case Some(line) => ShiftFrom(results[n := results[n].(matchStart := moved, lineText := line)], n + 1, delta, text)
  }

  /** The loop threw at k: the results before it moved, k's start moved but not its line, the rest untouched. */
  predicate ThrewAt(after: seq<ListResult>, before: seq<ListResult>, n: nat, k: nat, delta: int, text: string)
    requires |after| == |before| && n <= k < |before|
  {
    && LineOfText(text, before[k].matchStart - delta).None?
    && after[k] == before[k].(matchStart := before[k].matchStart - delta)
    && (forall i :: n <= i < k ==> MovedBy(after[i], before[i], delta, text))
    && (forall i :: k < i < |before| ==> after[i] == before[i])
  }

  /** What the loop of Replace makes of results from n on, as ShiftMovesLater states it. */
  predicate Shifted(r: Shift, results: seq<ListResult>, n: nat, delta: int, text: string)
    requires n <= |results|
  {
    && |r.results| == |results|
    && (forall i :: 0 <= i < n ==> r.results[i] == results[i])
    && (!r.thrown <==> forall i :: n <= i < |results| ==> LineOfText(text, results[i].matchStart - delta).Some?)
    && (!r.thrown ==> forall i :: n <= i < |results| ==> MovedBy(r.results[i], results[i], delta, text))
    && (r.thrown ==> exists k :: n <= k < |results| && ThrewAt(r.results, results, n, k, delta, text))
  }

  /** The results after turn n of the loop, its line read. */
  predicate MovedAt(next: seq<ListResult>, results: seq<ListResult>, n: nat, delta: int, text: string)
  {
    && n < |results| == |next|
    && MovedBy(next[n], results[n], delta, text)
    && forall i :: 0 <= i < |results| && i != n ==> next[i] == results[i]
  }

  /** The results before n and the number of results carry over from one turn to the next. */
  lemma StepKeepsBefore(r: Shift, next: seq<ListResult>, results: seq<ListResult>, n: nat, delta: int, text: string)
    requires MovedAt(next, results, n, delta, text) && Shifted(r, next, n + 1, delta, text)
    ensures |r.results| == |results| && MovedBy(r.results[n], results[n], delta, text)
    ensures forall i :: 0 <= i < n ==> r.results[i] == results[i]
  {
    assert r.results[n] == next[n];
  }

  /** Whether the loop throws, and where it does not, how it moves the results, carry over too. */
  lemma StepKeepsMoves(r: Shift, next: seq<ListResult>, results: seq<ListResult>, n: nat, delta: int, text: string)
    requires MovedAt(next, results, n, delta, text) && Shifted(r, next, n + 1, delta, text)
    ensures !r.thrown <==> forall i :: n <= i < |results| ==> LineOfText(text, results[i].matchStart - delta).Some?
    ensures !r.thrown ==> forall i :: n <= i < |results| ==> MovedBy(r.results[i], results[i], delta, text)
  {
    StepKeepsBefore(r, next, results, n, delta, text);
  }

  /** Where the loop throws carries over as well. */
  lemma StepKeepsThrow(r: Shift, next: seq<ListResult>, results: seq<ListResult>, n: nat, delta: int, text: string)
    requires MovedAt(next, results, n, delta, text) && Shifted(r, next, n + 1, delta, text)
    ensures r.thrown ==> exists k :: n <= k < |results| && ThrewAt(r.results, results, n, k, delta, text)
  {
    if r.thrown {
      var k :| n + 1 <= k < |results| && ThrewAt(r.results, next, n + 1, k, delta, text);
      StepKeepsBefore(r, next, results, n, delta, text);
      assert ThrewAt(r.results, results, n, k, delta, text);
    }
  }

  /** One turn of the loop, the three together. */
  lemma StepKeepsShifted(r: Shift, next: seq<ListResult>, results: seq<ListResult>, n: nat, delta: int, text: string)
    requires MovedAt(next, results, n, delta, text) && Shifted(r, next, n + 1, delta, text)
    ensures Shifted(r, results, n, delta, text)
  {
    StepKeepsBefore(r, next, results, n, delta, text);
    StepKeepsMoves(r, next, results, n, delta, text);
    StepKeepsThrow(r, next, results, n, delta, text);
  }

  /** What the loop makes of the results from n on, by induction on the results left. */
  lemma {:induction false} ShiftIsShifted(results: seq<ListResult>, n: nat, delta: int, text: string)
    requires n <= |results|
    ensures Shifted(ShiftFrom(results, n, delta, text), results, n, delta, text)
    decreases |results| - n
  {
    if n < |results| {
      var moved := results[n].matchStart - delta;
      if LineOfText(text, moved).Some? {
        var next := results[n := results[n].(matchStart := moved, lineText := LineOfText(text, moved).value)];
        ShiftIsShifted(next, n + 1, delta, text);
        var r := ShiftFrom(next, n + 1, delta, text);
        assert r == ShiftFrom(results, n, delta, text);
        assert MovedAt(next, results, n, delta, text);
        StepKeepsShifted(r, next, results, n, delta, text);
      } else {
        var r := ShiftFrom(results, n, delta, text);
        assert Shifted(r, results, n, delta, text) by {
          assert ThrewAt(r.results, results, n, n, delta, text);
        }
      }
    }
  }

  /**
   * The loop keeps the results before n and the number of results; when no
   * line is out of the new text every later result is moved by delta with
   * its new line, and otherwise it stops at the first result whose line
   * cannot be read.
   */
  lemma ShiftMovesLater(results: seq<ListResult>, n: nat, delta: int, text: string)
    requires n <= |results|
    ensures var r := ShiftFrom(results, n, delta, text);
      && |r.results| == |results|
      && (forall i :: 0 <= i < n ==> r.results[i] == results[i])
      && (!r.thrown <==> forall i :: n <= i < |results| ==> LineOfText(text, results[i].matchStart - delta).Some?)
      && (!r.thrown ==> forall i :: n <= i < |results| ==> MovedBy(r.results[i], results[i], delta, text))
      && (r.thrown ==> exists k :: n <= k < |results| && ThrewAt(r.results, results, n, k, delta, text))
  {
    ShiftIsShifted(results, n, delta, text);
  }

  /** The tab page of one search: the view it searched and its list of results. */
  class ResultPage {
    const view: TextView
    /** The items of the list box. */
    var results: seq<ListResult>
    /** The selected item of the list box. */
    var selectedIndex: int

    constructor (view: TextView, results: seq<ListResult>)
      ensures this.view == view && this.results == results && selectedIndex == -1
    {
      this.view := view;
      this.results := results;
      selectedIndex := -1;
    }

    /**
     * The loop at the end of Replace: when the text changed length, each
     * result from index on moves by the difference and gets its line again,
     * until GetLineOfText throws.
     */
    method ShiftLater(index: int, textLength: int, newText: string) returns (thrown: bool)
      requires 0 <= index <= |results|
      modifies this`results
      ensures textLength == |newText| ==> results == old(results) && !thrown
      ensures textLength != |newText| ==> Shift(results, thrown) == ShiftFrom(old(results), index, textLength - |newText|, newText)
    {
      thrown := false;
      var newTextLength := |newText|;
      if textLength != newTextLength {
        var n := index;
        while n < |results|
          invariant index <= n <= |results|
          invariant ShiftFrom(old(results), index, textLength - newTextLength, newText) == ShiftFrom(results, n, textLength - newTextLength, newText)
        {
          var moved := results[n].matchStart - (textLength - newTextLength);
          var line := GetLineOfText(newText, moved);
          if line.None? {
            results := results[n := results[n].(matchStart := moved)];
            thrown := true;
            return;
          }
          results := results[n := results[n].(matchStart := moved, lineText := line.value)];
          n := n + 1;
        }
      }
    }
  }

  /**
   * The list part of Replace: the result at index is taken out, and the
   * later ones move when the text's length changed.
   */
  method RemoveAndShift(page: ResultPage, index: int, textLength: int, newText: string) returns (thrown: bool)
    requires 0 <= index < |page.results|
    modifies page
    ensures page.selectedIndex == old(page.selectedIndex)
    ensures var rest := old(page.results[..index] + page.results[index + 1..]);
      && (textLength == |newText| ==> page.results == rest && !thrown)
      && (textLength != |newText| ==> Shift(page.results, thrown) == ShiftFrom(rest, index, textLength - |newText|, newText))
  {
    page.results := page.results[..index] + page.results[index + 1..];
    if |page.results| < index {
      // Where the source selects index again: one result fewer still leaves index items.
      assert false;
    }
    thrown := page.ShiftLater(index, textLength, newText);
  }

  /**
   * The view part of Replace: the match is selected (SelectionStart, then
   * SelectionLength) and the SelectedText setter puts value in its place.
   */
  method ReplaceMatch(view: TextView, start: int, length: int, value: string) returns (removed: Command?, inserted: Command?)
    requires view.Valid() && 0 <= start && 0 <= length && start + length <= |Text(view.doc.lines)|
    modifies view`starts, view`lengths, view`selection, view.doc`lines, view.doc`segs, view.doc`next, view.doc`events
    modifies view.doc`isModified, view.doc.manager
    ensures view.Valid()
    ensures var t, accepts := old(Text(view.doc.lines)), old(view.doc.manager.acceptsChanges);
      var aborted := length > 0 && !accepts;
      && (removed != null <==> length > 0 && accepts)
      && (inserted != null <==> accepts && |value| > 0)
      && Text(view.doc.lines) == (if aborted then Excise(t, start, length) else Splice(Excise(t, start, length), start, value))
      && view.starts[view.column] == (if aborted then start else start + |value|)
      && view.lengths[view.column] == 0
  {
    LengthOfText(view.doc.lines);
    view.SetSelectionStart(start, Unknown, view.column);
    view.SetSelectionLength(length);
    removed, inserted := view.SetSelectedText(value);
  }

  /**
   * Replace(page, index): a result already replaced is left alone;
   * otherwise its match is replaced in the view by what the regular
   * expression makes of it (regexReplace), the result is taken out of the
   * list, and when the text's length changed the later results move by the
   * difference. The selected index is left as it was: the list is never
   * shorter than index after the removal.
   */
  method Replace(page: ResultPage, index: int, regexReplace: string -> string) returns (removed: Command?, inserted: Command?, thrown: bool)
    requires 0 <= index < |page.results| && page.view.Valid()
    requires 0 <= page.results[index].matchStart && 0 <= page.results[index].matchLength
    requires page.results[index].matchStart + page.results[index].matchLength <= |Text(page.view.doc.lines)|
    modifies page, page.view`starts, page.view`lengths, page.view`selection, page.view.doc`lines, page.view.doc`segs
    modifies page.view.doc`next, page.view.doc`events, page.view.doc`isModified, page.view.doc.manager
    ensures page.view.Valid() && page.selectedIndex == old(page.selectedIndex)
    ensures old(page.results[index].beenReplaced) ==>
      && removed == null && inserted == null && !thrown && page.results == old(page.results)
      && unchanged(page.view) && unchanged(page.view.doc) && unchanged(page.view.doc.manager)
    ensures !old(page.results[index].beenReplaced) ==>
      var m, t := old(page.results[index]), old(Text(page.view.doc.lines));
      var value := regexReplace(m.matchString);
      var aborted := m.matchLength > 0 && !old(page.view.doc.manager.acceptsChanges);
      var after := Text(page.view.doc.lines);
      var rest := old(page.results[..index] + page.results[index + 1..]);
      && after == (if aborted then Excise(t, m.matchStart, m.matchLength) else Splice(Excise(t, m.matchStart, m.matchLength), m.matchStart, value))
      && |t| - |after| == (if aborted then m.matchLength else m.matchLength - |value|)
      && (|t| == |after| ==> page.results == rest && !thrown)
      && (|t| != |after| ==> Shift(page.results, thrown) == ShiftFrom(rest, index, |t| - |after|, after))
  {
    removed, inserted, thrown := null, null, false;
    var result := page.results[index];
    if result.beenReplaced {
      return;
    }
    var view := page.view;
    LengthOfText(view.doc.lines);
    var textLength := TextLength(view.doc.lines);
    removed, inserted := ReplaceMatch(view, result.matchStart, result.matchLength, regexReplace(result.matchString));
    var newText := view.doc.TextGet(0, TextLength(view.doc.lines));
    LengthOfText(view.doc.lines);
    assert newText == Text(view.doc.lines) by {
      TextGetReadsSpan(view.doc.lines, 0, TextLength(view.doc.lines));
    }
    thrown := RemoveAndShift(page, index, textLength, newText);
  }
}
