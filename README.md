# Eliason.TextEditor, modelled in Dafny

This project models the core of Eliason.TextEditor, a WinForms text editor
written in C#, and proves properties of that model. The core is the
line-based text document with its styled anchors, the undo/redo history,
and the small sequential pieces around them: word finding, the selection
and keyboard editing of a text view, input-method composition, the
search-and-replace helpers, templates and their tokens.

All `.dfy` files are given to Dafny together. The modules follow the
source's structure:

- **Wrappers, Seqs, Strs, Chars**: `Option`, and generic facts about
  sequences. `Splice` and `Excise` stand for inserting and cutting text.
  Also the .NET string operations the source uses (`Split`, `Replace`,
  `Join`, ordinal comparison ignoring case, Int32 text) and the Unicode
  category table. `Char.GetUnicodeCategory` and `Char.IsWhiteSpace` are a
  `CharOracle` that agrees with .NET on ASCII.
- **Utility**: `GetSimplifiedUnicodeCategory` and `GetWord` with its
  boundary and strip scans, proved against specification functions.
- **Extensions**: `Prefix` and `StringToKeys`.
- **TextStyles**: the style kinds and their defaults, the highlight
  word-list matcher and the spell-check guard chain. The dictionary and
  the settings are oracles.
- **TextLines, LineStore**: anchors (`TextAnchor`) and lines (`TextLine`)
  as values. Also the line-start invariant `Index[k+1] = Index[k] +
  len(k) + 1`, the text the lines show, `TextLength`, `GetCharFromIndex`
  and the binary search `GetLineFromCharIndex`.
- **Segments, StylePass**: the styled-segment manager (attach, detach,
  `Get`, `GetClosest`, `SearchAndApplyTo`) and the per-edit anchor pass
  `ModifyStyledTextSegments`. Both work over the lines and their anchor
  lists. The store is *sound* when every anchor identity sits in at most
  one line's list, and every identity is below the next one to hand out.
- **LineEdits**: the line steps of `TextInsert` and `TextRemove`: split,
  character insert, merge, cut and the shift of later lines. Each step is
  stated against the text the lines show.
- **UndoRedo, History**: the commands (text added, text removed, column
  note edit) with their `UndoPair`/`RedoPair` flags, and the bounded
  `UndoRedoManager`. Also the `Undo`/`Redo` walks, which replay every
  paired command on the document.
- **Document**: class `TextDocument`, covering `TextDocumentByLines` over
  `TextDocumentBase`. It holds the lines, the anchor lists, the
  registered views, the modified flag, the event log and the manager.
  `TextInsert` and `TextRemove` are proved to put the text in at its
  start and take the span out. They keep the line-start invariant and
  the store sound, and they record exactly the commands whose undo gives
  the old text back.
- **Views, Keyboard, Ime**: class `TextView`, covering the per-column
  selection arrays, the `SelectedText` getter and setter, caret placement
  after undo and redo, the line overflow table and the sidecar reading of
  `Open`. It also covers the key handlers for typing, Backspace/Delete and
  Enter (with the pairing that makes one undo take back a whole
  keystroke), the word step `GetLengthByLargeStep`, and
  `IMEComposition`'s target-clause scan and composition state.
- **Rendering**: class `RenderState`: its items and the colour choice of
  `Apply`. Device calls go to an output log.
- **SearchReplace**: `GetRegexSearchText`, `GetRegexOptions`,
  `GetLineOfText`, and `Replace` with the shift of the later results.
- **Editor**: class `TextEditor`, covering `Clear`, the line clean-up and
  reading loop of `Open`, `GetCheckIfAscii`, `SaveToFile`'s sidecar
  records, `SaveAs` and `SaveAuto`. File operations go to a log.
- **Templates, Tokens, TokenAttributes**: the `Template` constructor,
  `GetTokens`, `Token.Process` and `CompareTo`, the freetext token type,
  and the attribute transforms `Default`, `Quantity`, `Order`,
  `MathMinus`, `Length` and `Separator`.

Where the source works by changing state in place, the model does too.
The document, the views, the managers, the render state and the
composition are classes, and their methods are proved against
specification functions on the old state. Pure logic is modelled as
functions with lemmas.

## Model

| member | source | states |
|---|---|---|
| Utility.SimplifiedCategoryMerges | Eliason.TextEditor/Utility.cs:8-43 | every letter category becomes one word category, the categories merged away never come out, every other category is kept |
| Utility.ChangeLeft | Eliason.TextEditor/Utility.cs:127-153 | the left scan stops at the nearest category change before idx, or answers -1 |
| Utility.ChangeRight | Eliason.TextEditor/Utility.cs:127-153 | the right scan stops at the nearest category change after idx, or at the last position of the line, which is never examined |
| Utility.ChangeLeftSkipsNoChange | Eliason.TextEditor/Utility.cs:127-153 | no position between the left scan's stop and idx is a category change |
| Utility.ChangeRightSkipsNoChange | Eliason.TextEditor/Utility.cs:127-153 | no position between idx and the right scan's stop is a category change |
| Utility.GetWordIndexOfChange | Eliason.TextEditor/Utility.cs:127-153 | the loop answers ChangeLeft leftward and ChangeRight rightward |
| Utility.StripRight | Eliason.TextEditor/Utility.cs:155-174 | the right scan stops at the nearest letter or at the last position |
| Utility.StripLeft | Eliason.TextEditor/Utility.cs:155-174 | the left scan stops at the nearest letter or at position 0 |
| Utility.GetWordStripNonCharacter | Eliason.TextEditor/Utility.cs:155-174 | the loop answers StripLeft or StripRight by direction |
| Utility.OriginAt | Eliason.TextEditor/Utility.cs:53-125 | a space after a non-space moves the scan origin one step left, otherwise the origin is the index |
| Utility.WordBounds | Eliason.TextEditor/Utility.cs:53-125 | the two boundary loops of GetWord answer WordStart and WordEnd |
| Utility.TrimWordEnds | Eliason.TextEditor/Utility.cs:53-125 | the strict-mode apostrophe handling answers TrimApostrophes: a wrapped word loses both apostrophes, a word longer than two characters loses a trailing "'s" |
| Utility.GetWord | Eliason.TextEditor/Utility.cs:53-125 | GetWord answers None exactly when the boundaries cross, otherwise the word between the trimmed bounds |
| Utility.WordIsSubstring | Eliason.TextEditor/Utility.cs:53-125 | a word lies within its line and is the line's text between its ends |
| Utility.WordNoneIffBoundsCross | Eliason.TextEditor/Utility.cs:53-125 | GetWord is None if and only if the two boundaries cross |
| Utility.StrictWordStartsWithLetter | Eliason.TextEditor/Utility.cs:53-125 | in strict mode a word on a line of two or more characters starts with a letter, so the branch stripping a surrounding pair of apostrophes never fires |
| Utility.NonStrictWordIsMaximalRun | Eliason.TextEditor/Utility.cs:53-125 | in non-strict mode a word holds no whitespace or bracket and is bounded by the line start or such a character on the left, and by such a character or the line's last character on the right |
| Utility.PossessiveDropped | Eliason.TextEditor/Utility.cs:53-125 | "dog's" gives "dog" |
| Utility.ContractionDropped | Eliason.TextEditor/Utility.cs:53-125 | "it's" gives "it" too: any word longer than two characters loses a trailing "'s" |
| Utility.NonStrictDropsLastCharacter | Eliason.TextEditor/Utility.cs:53-125 | in non-strict mode the last word of a line loses its last character: "abc" gives "ab" |
| Strs.Split | Eliason.TextEditor/Extensions/ExtensionMethods.cs:17-17 | String.Split: never an empty list, and no part holds the separator |
| Strs.SplitJoin | Eliason.TextEditor/TextView/TextView.cs:465-470 | joining the parts of a split with the separator gives the string back |
| Strs.JoinSplit | Eliason.TextEditor/TextView/TextView.cs:465-470 | splitting parts joined with a separator none of them holds gives the parts back |
| Strs.SplitAround | Eliason.TextEditor/TextTemplates/Template.cs:220-220 | a separator cuts a split in two: the parts of the text before it followed by the parts of the text after it |
| Strs.NonEmpty | Eliason.TextEditor/TextTemplates/Template.cs:218-218 | the parts StringSplitOptions.RemoveEmptyEntries keeps: the non-empty ones in order |
| Strs.RemoveChar | Eliason.TextEditor.UI/SearchReplace/SearchReplaceForm.cs:281-281 | replacing a character by nothing removes every occurrence and keeps the rest |
| Strs.ReplaceIsOnePass | Eliason.TextEditor/TextEditor/TextEditor.cs:318-318 | one pass of Replace does not catch occurrences its own replacement creates: "\r\r\n" becomes "\r\n" |
| Strs.CompareIgnoreCase | Eliason.TextEditor/TextTemplates/TokenAttributes/AttribTypeOrder.cs:22-22 | a comparison ignoring the case of ASCII letters, as a sign in -1..1 |
| Strs.CompareIgnoreCaseFlips | Eliason.TextEditor/TextTemplates/TokenAttributes/AttribTypeOrder.cs:22-22 | swapping the operands flips the sign, and 0 means equal ignoring case |
| Strs.CompareIgnoreCaseTransitive | Eliason.TextEditor/TextTemplates/TokenAttributes/AttribTypeOrder.cs:22-22 | the order ignoring case is transitive |
| Strs.Wrap32 | Eliason.TextEditor/TextTemplates/TokenAttributes/AttribTypeMathMinus.cs:12-33 | unchecked Int32 arithmetic: the value wrapped into the Int32 range, unchanged when already in it |
| Strs.NaturalTextReadsBack | Eliason.TextEditor/TextEditor/TextEditor.cs:685-723 | the decimal text of a number is non-empty, all digits, and reads back as the number |
| Extensions.Prefix | Eliason.TextEditor/Extensions/ExtensionMethods.cs:52-60 | the text padded on the left with c to length characters, or returned as it is when already that long |
| Extensions.PrefixIdempotent | Eliason.TextEditor/Extensions/ExtensionMethods.cs:52-60 | padding twice pads no more than once |
| Extensions.OrKeysLaws | Eliason.TextEditor/Extensions/ExtensionMethods.cs:14-43 | or'ing flag sets (failures included) is associative and commutative |
| Extensions.KeysOfAppend | Eliason.TextEditor/Extensions/ExtensionMethods.cs:14-43 | the flags of two runs of parts are those of each run, or'ed |
| Extensions.KeysOfCommutes | Eliason.TextEditor/Extensions/ExtensionMethods.cs:14-43 | the order of the parts does not change the flags or the failure |
| Extensions.KeysOfStaysFailed | Eliason.TextEditor/Extensions/ExtensionMethods.cs:14-43 | once a part fails to parse, the whole string fails |
| Extensions.StringToKeys | Eliason.TextEditor/Extensions/ExtensionMethods.cs:14-43 | the '+'-separated parts read one by one and or'ed into the result; equals KeysOf over the split |
| TextStyles.FindHighlight | Eliason.TextEditor/TextStyles/TextStyleHighlightBase.cs:41-121 | the loop of the highlight search answers the first word of the list that matches around the start position, or nothing |
| TextStyles.HighlightMatchIsFirstOccurrence | Eliason.TextEditor/TextStyles/TextStyleHighlightBase.cs:41-121 | a highlight match is an occurrence of a listed word covering the start position, from the first word in list order that matches at all |
| TextStyles.HighlightAbandonsOnLeftMismatch | Eliason.TextEditor/TextStyles/TextStyleHighlightBase.cs:41-121 | a left-side mismatch abandons the word: "yaxa" is not found at position 3 of "yaxa" |
| TextStyles.HighlightRetriesOnRightMismatch | Eliason.TextEditor/TextStyles/TextStyleHighlightBase.cs:41-121 | a right-side mismatch tries the next position: "aab" is found at position 1 of "aab" |
| TextStyles.SpellFindMarksMisspelledWord | Eliason.TextEditor/TextStyles/TextStyleSpellcheck.cs:54-123 | the spell checker marks exactly the strict word under the index when checking is on, the word has at least three characters, the filter accepts it and the dictionary rejects it |
| TextStyles.StyleCapabilities | Eliason.TextEditor/TextStyles/TextStyleBase.cs:9-89 | what each style kind overrides and what it inherits from the base style (finalizing-only updates, paint mode, execute) |
| TextStyles.FindIsInsideLine | Eliason.TextEditor/TextStyles/TextStyleHighlightBase.cs:41-121 | every match lies inside the line and starts at a non-negative index |
| TextLines.ContainsIsIntersection | Eliason.TextEditor/TextDocument/ByLines/TextDocumentByLines.TextAnchor.cs:157-194 | Contains holds exactly when the anchor and the range [index, index + length] share a position, the anchor's end counting only with matchLast and the range's end only with matchFirst |
| TextLines.CompareIsLexicographic | Eliason.TextEditor/TextDocument/ByLines/TextDocumentByLines.TextAnchor.cs:50-60 | CompareTo is the lexicographic order on (Index, Length): antisymmetric and transitive |
| TextLines.LengthIsSharedByColumns | Eliason.TextEditor/TextDocument/ByLines/TextDocumentByLines.TextAnchor.cs:105-113 | the length set on one column reads back on any column, and setting it changes nothing but the length |
| TextLines.TextsFollowObject | Eliason.TextEditor/TextDocument/ByLines/TextDocumentByLines.TextAnchor.cs:69-127 | setting Object makes the text cache coherent, and reading Texts keeps it coherent and yields the representation of the object |
| TextLines.NewLineShape | Eliason.TextEditor/TextDocument/ByLines/TextDocumentByLines.TextLine.cs:31-35 | a new line has the given index and the text in column 0 only |
| TextLines.SetTextColumns | Eliason.TextEditor/TextDocument/ByLines/TextDocumentByLines.TextLine.cs:64-76 | SetText succeeds for a column up to one past the end (growing the array by one), writes only that column, and keeps index and metadata |
| TextLines.WithTextReads | Eliason.TextEditor/TextDocument/ByLines/TextDocumentByLines.TextLine.cs:64-76 | writing column 0 always succeeds and reads back |
| TextLines.ClearStyles | Eliason.TextEditor/TextDocument/ByLines/TextDocumentByLines.TextLine.cs:114-130 | the loop over the anchor list answers KeptByClear: every anchor detached except, unless clearPinned, the pinned ones |
| TextLines.ClearKeepsPinnedInOrder | Eliason.TextEditor/TextDocument/ByLines/TextDocumentByLines.TextLine.cs:114-130 | ClearStyles(true) empties the list; ClearStyles(false) keeps exactly the pinned anchors in their order, and distributes over concatenation |
| TextLines.ClearWithoutPinned | Eliason.TextEditor/TextDocument/ByLines/TextDocumentByLines.TextLine.cs:114-130 | a list without pinned anchors is emptied |
| LineStore.TextLengthIsLength | Eliason.TextEditor/TextDocument/ByLines/TextDocumentByLines.cs:679-690 | under the line-start invariant TextLength is the length of the text the lines show |
| LineStore.LengthOfText | Eliason.TextEditor/TextDocument/ByLines/TextDocumentByLines.cs:679-690 | TextLength equals the text's length |
| LineStore.LineStartsIsFlowStarts | Eliason.TextEditor/TextDocument/ByLines/TextDocumentByLines.cs:655-664 | the line-start invariant holds exactly when every line starts where the flow of the lines before it ends |
| LineStore.FlowPrefixLength | Eliason.TextEditor/TextDocument/ByLines/TextDocumentByLines.cs:721-729 | under the invariant the flow before line k is exactly its Index long |
| LineStore.LinesAscend | Eliason.TextEditor/TextDocument/ByLines/TextDocumentByLines.cs:741-785 | under the invariant a line ends strictly before any later line starts |
| LineStore.HolderUnique | Eliason.TextEditor/TextDocument/ByLines/TextDocumentByLines.cs:741-785 | at most one line holds an index |
| LineStore.HolderExists | Eliason.TextEditor/TextDocument/ByLines/TextDocumentByLines.cs:741-785 | every index from 0 to TextLength is held by some line |
| LineStore.LineLookup | Eliason.TextEditor/TextDocument/ByLines/TextDocumentByLines.cs:741-785 | GetLineFromCharIndex answers -1 only for index -1 or no lines; otherwise the line holding the index, and the last line for an index no line holds |
| LineStore.GetLineFromCharIndex | Eliason.TextEditor/TextDocument/ByLines/TextDocumentByLines.cs:741-785 | the binary search loop answers the lookup function |
| LineStore.LineInFlow | Eliason.TextEditor/TextDocument/ByLines/TextDocumentByLines.cs:708-739 | line k read back through the flow: its start, length and text |
| LineStore.CharFromIndexReadsFlow | Eliason.TextEditor/TextDocument/ByLines/TextDocumentByLines.cs:37-60 | every index from 0 to TextLength reads its character of the flow (a line break at a line's end), except an index on an empty line, which reads '\0' |
| LineStore.CharFromIndexOutside | Eliason.TextEditor/TextDocument/ByLines/TextDocumentByLines.cs:37-60 | an index before -1 or past TextLength is looked up on the last line |
| Segments.AttachDetachKeepStore | Eliason.TextEditor/TextDocument/ByLines/TextDocumentByLines.TextAnchor.cs:29-46 | detaching (setting TextLine to null) takes the anchor out of every list and keeps the store sound; attaching a fresh anchor keeps it sound and puts the anchor in the target list |
| Segments.LookupInRange | Eliason.TextEditor/TextDocument/ByLines/TextDocumentByLines.TextSegment.cs:60-71 | the lookup of AddManualTextSegment finds a line for every index but -1, whatever the line starts are |
| Segments.AddManualPlacesAnchor | Eliason.TextEditor/TextDocument/ByLines/TextDocumentByLines.TextSegment.cs:60-71 | AddManualTextSegment leaves the anchor in exactly the list of the line the lookup gives, the store sound; under the line-start invariant that is the line holding the index |
| Segments.GetAllAppend | Eliason.TextEditor/TextDocument/ByLines/TextDocumentByLines.TextSegment.cs:98-114 | GetAll keeps list order: it distributes over concatenation |
| Segments.GetYieldsOwningLine | Eliason.TextEditor/TextDocument/ByLines/TextDocumentByLines.TextSegment.cs:84-96 | Get yields nothing for index -1 or no lines, and otherwise exactly the anchors of the owning line whose key matches and which contain the relative index |
| Segments.StyledSegmentsEnumerateLines | Eliason.TextEditor/TextDocument/ByLines/TextDocumentByLines.TextSegment.cs:155-163 | the enumeration lists an anchor exactly when some line holds it, paired with that line's start, line by line in order |
| Segments.GetClosest | Eliason.TextEditor/TextDocument/ByLines/TextDocumentByLines.TextSegment.cs:116-153 | the loop answers ClosestFrom over the enumeration |
| Segments.GetClosestFindsCandidate | Eliason.TextEditor/TextDocument/ByLines/TextDocumentByLines.TextSegment.cs:116-153 | GetClosest answers nothing or an enumerated anchor of the key at or before the index; when no anchor of the key lies past the index it is the first nearest one |
| Segments.GetClosestCanMissNearer | Eliason.TextEditor/TextDocument/ByLines/TextDocumentByLines.TextSegment.cs:116-153 | the scan stops at the first anchor past the index, so it can miss a nearer anchor listed later: a concrete enumeration where it answers the anchor at 2 while the one at 11 is nearer to 12 |
| Segments.Clear | Eliason.TextEditor/TextDocument/ByLines/TextDocumentByLines.TextSegment.cs:52-58 | Clear runs ClearStyles on every line's list and keeps the number of lines |
| Segments.ClearKeepsStore | Eliason.TextEditor/TextDocument/ByLines/TextDocumentByLines.TextSegment.cs:52-58 | clearing keeps the store sound; clearing pinned anchors too leaves no anchor at all |
| Segments.DetachFromOwnLine | Eliason.TextEditor/TextDocument/ByLines/TextDocumentByLines.TextSegment.cs:73-77 | RemoveTextSegment of an anchor of line k leaves every other line's list as it was |
| Segments.OtherLinesLackId | Eliason.TextEditor/TextDocument/ByLines/TextDocumentByLines.TextAnchor.cs:29-46 | an anchor is in at most one line's list |
| Segments.FindFirstStyle | Eliason.TextEditor/TextDocument/ByLines/TextDocumentByLines.TextSegment.cs:236-250 | the inner loop over the view's styles answers FirstStyleFind |
| Segments.FirstStyleFindIsFirst | Eliason.TextEditor/TextDocument/ByLines/TextDocumentByLines.TextSegment.cs:236-250 | the answer is a found segment of an allowed style, inside the line, and no allowed style before it finds anything; None exactly when no allowed style finds anything |
| Segments.ApplyFoundKeepsStore | Eliason.TextEditor/TextDocument/ByLines/TextDocumentByLines.TextSegment.cs:257-279 | applying a found segment keeps the store sound; it attaches exactly when no identical anchor of the key is there, and then hands out one identity |
| Segments.ApplyFoundStaysOnLine | Eliason.TextEditor/TextDocument/ByLines/TextDocumentByLines.TextSegment.cs:257-279 | under the line-start invariant the new anchor lands on the scanned line and no other line changes |
| Segments.SearchAndApplyTo | Eliason.TextEditor/TextDocument/ByLines/TextDocumentByLines.TextSegment.cs:185-292 | the store stays sound, identities only grow, foundOne exactly when something was attached, and under the line-start invariant only the scanned line changes |
| Segments.SearchAndApplyToLine | Eliason.TextEditor/TextDocument/ByLines/TextDocumentByLines.TextSegment.cs:167-175 | false and nothing changed for a line index out of range; otherwise the store stays sound, identities only grow, the result says whether an anchor was attached, and the other lines are kept |
| StylePass.FindStylesMembers | Eliason.TextEditor/TextDocument/ByLines/TextDocumentByLines.cs:552-563 | FindStyles yields exactly the styles that find something at the index, with what they find |
| StylePass.FirstOfKey | Eliason.TextEditor/TextDocument/ByLines/TextDocumentByLines.cs:360-509 | the foreach-with-break over the found segments answers FirstWithKey |
| StylePass.FirstWithKeyIsFirst | Eliason.TextEditor/TextDocument/ByLines/TextDocumentByLines.cs:360-509 | the answer has the key and no earlier candidate has it; None exactly when none has it |
| StylePass.StepRules | Eliason.TextEditor/TextDocument/ByLines/TextDocumentByLines.cs:360-509 | for one anchor: one starting beyond the line is detached; an Automatic one wholly inside an erased range is detached; a touched Automatic one is kept as it is or replaced by re-found segments of its key; a Manual or Pinned one is kept, shifted when after the change point |
| StylePass.PinnedShiftsBelowZero | Eliason.TextEditor/TextDocument/ByLines/TextDocumentByLines.cs:360-509 | a Pinned anchor at 3 after an erase of 5 at 1 moves to -2: the shift is not clamped |
| StylePass.RematchAnchor | Eliason.TextEditor/TextDocument/ByLines/TextDocumentByLines.cs:360-509 | the re-match branch of the loop body gives the outcome Step states |
| StylePass.AnchorOutcome | Eliason.TextEditor/TextDocument/ByLines/TextDocumentByLines.cs:360-509 | the loop body for one anchor gives the outcome Step states |
| StylePass.AlterLine | Eliason.TextEditor/TextDocument/ByLines/TextDocumentByLines.cs:360-509 | the in-place pass over one line's list answers AlterSpec: the kept anchors then the appended ones |
| StylePass.AlterSpecIds | Eliason.TextEditor/TextDocument/ByLines/TextDocumentByLines.cs:360-509 | the pass keeps only identities of the list and hands out a fresh run of identities |
| StylePass.AlterLineRefreshes | Eliason.TextEditor/TextDocument/ByLines/TextDocumentByLines.cs:360-509 | the new list is a refresh of the old one: kept identities plus fresh ones |
| StylePass.FinalizerExamples | Eliason.TextEditor/TextDocument/ByLines/TextDocumentByLines.cs:511-550 | with the .NET table for ASCII, space, '.', '+', NUL and line break finalize; letters and digits do not |
| StylePass.ModifyStyledTextSegments | Eliason.TextEditor/TextDocument/ByLines/TextDocumentByLines.cs:360-509 | the store stays sound, identities only grow, and under the line-start invariant only line k changes |
| StylePass.ModifyForViews | Eliason.TextEditor/TextDocument/ByLines/TextDocumentByLines.cs:629-650 | one pass per registered view; no view changes nothing; only line k changes |
| StylePass.SearchForViews | Eliason.TextEditor/TextDocument/ByLines/TextDocumentByLines.cs:303-306 | every registered view searches the new line; no view changes nothing; only line k changes |
| StylePass.FakeFinalizingKey | Eliason.TextEditor/TextDocument/ByLines/TextDocumentByLines.cs:309-324 | nothing for an index the lookup gives -1; otherwise only the index's line changes and the store stays sound |
| UndoRedo.EscapeBreaksProperties | Eliason.TextEditor/UndoRedo/TextAddedUndoRedoCommand.cs:19-32 | escaping line breaks leaves none, adds one character per break, and reads back when there was no backslash |
| UndoRedo.QuotedSnippet | Eliason.TextEditor/UndoRedo/TextAddedUndoRedoCommand.cs:19-32 | the quoted part of a command text shows no line break and reads back for a text of at most 15 characters |
| UndoRedo.CommandTextShape | Eliason.TextEditor/UndoRedo/TextRemovedUndoRedoCommand.cs:19-32 | a command's text names its kind ("add '", "remove '", "note @" with the 1-based line) and shows no line break; short texts read back |
| UndoRedo.Command.constructor | Eliason.TextEditor/UndoRedo/TextAddedUndoRedoCommand.cs:11-15 | a new command holds its edit and is paired neither for undo nor for redo |
| UndoRedo.UndoRedoManager.constructor | Eliason.TextEditor/UndoRedo/UndoRedoManager.cs:19-29 | a new manager has empty undo and redo lists, level 10, and accepts changes |
| UndoRedo.RecordedKeepsNewest | Eliason.TextEditor/UndoRedo/UndoRedoManager.cs:101-123 | recording keeps exactly the newest max commands, the new one last |
| UndoRedo.UndoRedoManager.AddUndoCommand | Eliason.TextEditor/UndoRedo/UndoRedoManager.cs:101-123 | a null command throws and changes nothing; otherwise the undo list becomes Recorded (oldest evicted when full, nothing kept at level 0) and the redo stack is cleared unless the level is 0 |
| UndoRedo.UndoRedoManager.ClearUndoRedo | Eliason.TextEditor/UndoRedo/UndoRedoManager.cs:130-134 | both lists emptied, the level and AcceptsChanges kept |
| UndoRedo.UndoRedoManager.SetMaxUndoLevel | Eliason.TextEditor/UndoRedo/UndoRedoManager.cs:37-54 | a negative value throws and changes nothing; the same value changes nothing; a new value clears the history and is stored |
| UndoRedo.UndoRedoManager.Dispose | Eliason.TextEditor/UndoRedo/UndoRedoManager.cs:78-81 | both lists emptied |
| UndoRedo.UndoRedoManager.PeekUndoCommand | Eliason.TextEditor/UndoRedo/UndoRedoManager.cs:233-241 | the newest undo entry, null exactly when the list is empty |
| UndoRedo.UndoRedoManager.PeekRedoCommand | Eliason.TextEditor/UndoRedo/UndoRedoManager.cs:247-255 | the top of the redo stack, null exactly when it is empty |
| UndoRedo.UndoRedoManager.GetUndoText | Eliason.TextEditor/UndoRedo/UndoRedoManager.cs:198-208 | the text of the newest undo entry, or empty |
| UndoRedo.UndoRedoManager.GetRedoText | Eliason.TextEditor/UndoRedo/UndoRedoManager.cs:217-227 | the text of the top redo entry, or empty |
| History.UndoThenRedo | Eliason.TextEditor/UndoRedo/TextAddedUndoRedoCommand.cs:34-46 | undoing an edit the text shows gives the text before it, and redoing it then gives the text back |
| History.RedoThenUndo | Eliason.TextEditor/UndoRedo/TextRemovedUndoRedoCommand.cs:34-46 | redoing an edit on the text before it gives the text after, and undoing it then gives the text back |
| History.InsertRecordsItsUndo | Eliason.TextEditor/TextDocument/ByLines/TextDocumentByLines.cs:565-677 | what TextInsert records can be undone, and the undo gives the text before the insert |
| History.RemoveRecordsItsUndo | Eliason.TextEditor/TextDocument/ByLines/TextDocumentByLines.cs:131-292 | what TextRemove records for a span of positive length inside the text can be undone into the text before the removal |
| History.RemoveOfNothingUndoesIntoCopy | Eliason.TextEditor/TextDocument/ByLines/TextDocumentByLines.cs:157-163 | TextRemove with length 0 records the rest of the text from start (TextGet reads to the end for a count of 0), so undoing it puts a second copy of that rest in |
| History.WithNote | Eliason.TextEditor/TextView/TextColumnNotes.cs:149-170 | Do on a line's metadata: an empty text removes the note, any other text sets it |
| History.NoteRedoThenUndo | Eliason.TextEditor/TextView/TextColumnNotes.cs:139-147 | after Do the note reads as the text, and setting back the note read before gives the metadata back |
| History.MetadataIsInvisible | Eliason.TextEditor/TextDocument/ByLines/TextDocumentByLines.TextLine.cs:47-50 | a line's metadata is not part of the text or of the line starts |
| History.NoteDo | Eliason.TextEditor/TextView/TextColumnNotes.cs:149-170 | with AcceptsChanges off the line's note is set (or removed for an empty text), then AcceptsChanges goes back on; a line index past the lines throws and changes nothing |
| History.NoteMouseDown | Eliason.TextEditor/TextView/TextColumnNotes.cs:173-213 | a click on a line without text in the column records nothing; a cancelled input records nothing; otherwise a note command with the old and new text is recorded and applied |
| History.RemoveSpan | Eliason.TextEditor/TextDocument/ByLines/TextDocumentByLines.cs:131-292 | TextRemove of a span inside the text with AcceptsChanges off: the span taken out, nothing recorded |
| History.InsertAt | Eliason.TextEditor/TextDocument/ByLines/TextDocumentByLines.cs:565-677 | TextInsert with AcceptsChanges off: the text put in, nothing recorded |
| History.ReplayUndo | Eliason.TextEditor/UndoRedo/TextAddedUndoRedoCommand.cs:34-39 | the Undo of one command: the text goes as UndoText says, AcceptsChanges is back on, and only a note on a missing line throws |
| History.ReplayRedo | Eliason.TextEditor/UndoRedo/TextRemovedUndoRedoCommand.cs:41-46 | the Redo of one command: the text goes as RedoText says, and only a note on a missing line throws |
| History.Run | Eliason.TextEditor/UndoRedo/UndoRedoManager.cs:140-161 | one walk replays the top command and the next one down after each replayed one that is paired |
| History.OutcomeOfNothing | Eliason.TextEditor/UndoRedo/UndoRedoManager.cs:140-161 | a walk on an empty list does nothing |
| History.OutcomeOfThrow | Eliason.TextEditor/UndoRedo/UndoRedoManager.cs:140-161 | a walk whose top command throws stops there, and the command has left the list |
| History.OutcomeOfOne | Eliason.TextEditor/UndoRedo/UndoRedoManager.cs:140-161 | a walk whose top command is not paired stops after it; the command moved to the other list |
| History.OutcomeGoesOn | Eliason.TextEditor/UndoRedo/UndoRedoManager.cs:140-161 | a paired top command's move and replay, then the walk of the rest, make up the walk of the whole list |
| History.UndoStep | Eliason.TextEditor/UndoRedo/UndoRedoManager.cs:140-161 | the newest command taken off the undo list and undone; unless its replay threw, pushed on the redo stack |
| History.Undo | Eliason.TextEditor/UndoRedo/UndoRedoManager.cs:140-161 | the walk pops the paired run of undo commands (or up to the one that throws), moves them top first to the redo stack and replays each on the text; the undo level is kept, and changes are accepted again unless the walk threw |
| History.RedoStep | Eliason.TextEditor/UndoRedo/UndoRedoManager.cs:167-188 | the top command popped and redone; unless its replay threw, appended to the undo list without the level check AddUndoCommand makes |
| History.Redo | Eliason.TextEditor/UndoRedo/UndoRedoManager.cs:167-188 | the walk pops the paired run of redo commands (or up to the one that throws), moves them top first to the undo list and replays each on the text; the undo level is kept, and changes are accepted again unless the walk threw |
| Document.LoggedMembers | Eliason.TextEditor/TextDocumentBase.cs:94-116 | an event reaches the log exactly when it was raised and its kind has a subscriber |
| Document.InsertEventsCount | Eliason.TextEditor/TextDocument/ByLines/TextDocumentByLines.cs:579-656 | an insert raises two events per line break and a final Alter, on the line after the last break |
| Document.InsertLogOnEmpty | Eliason.TextEditor/TextDocument/ByLines/TextDocumentByLines.cs:567-570 | on an empty document the log is the appended first line's Alter, then the insert's events |
| Document.RemoveLogSteps | Eliason.TextEditor/TextDocument/ByLines/TextDocumentByLines.cs:170-289 | TextRemove's log: an Alter by 0 and a Removed by -1 per merge, the Alter of the cut when something is left, then Modified |
| Document.RemoveFirstDropsOne | Eliason.TextEditor/TextDocumentBase.cs:58-66 | removing a disposed view drops one occurrence of it and keeps the others; a view not registered changes nothing |
| Document.StreamAt | Eliason.TextEditor/TextDocument/ByLines/TextDocumentByLines.cs:69-129 | one character of the forward stream is the character of the text at that position |
| Document.TextGetReadsSpan | Eliason.TextEditor/TextDocumentBase.cs:125-141 | inside the text TextGet reads exactly the span, except that a length below 1 reads to the end of the text |
| Document.RemoveAdmits | Eliason.TextEditor/TextDocument/ByLines/TextDocumentByLines.cs:131-155 | a span inside a non-empty text is admitted by the guards and the removal finishes |
| Document.RemoveRefusedOutside | Eliason.TextEditor/TextDocument/ByLines/TextDocumentByLines.cs:131-155 | for a span inside the text or starting at its end, TextRemove is refused exactly when the span leaves the text or there is no line |
| Document.AppendToStore | Eliason.TextEditor/TextDocument/ByLines/TextDocumentByLines.cs:294-307 | TextAppendLine on the store at a given start: one new line with an empty anchor list, the store sound, and the line-start invariant kept when the start is one past the text |
| Document.ShiftFollowing | Eliason.TextEditor/TextDocument/ByLines/TextDocumentByLines.cs:655-664 | the closing loop moves every later line by the inserted or removed length: the text stays and the gap left by the edit is closed |
| Document.InsertWalk | Eliason.TextEditor/TextDocument/ByLines/TextDocumentByLines.cs:579-653 | the walk over the inserted text: a line break splits the line and its anchors, any other character goes in at the cursor; the flow is the old one with the walked prefix put in at start |
| Document.WalkBreak | Eliason.TextEditor/TextDocument/ByLines/TextDocumentByLines.cs:581-640 | a line break splits line li at the cursor, raises an Alter and an Added, and every view passes over line li |
| Document.WalkChar | Eliason.TextEditor/TextDocument/ByLines/TextDocumentByLines.cs:642-652 | another character goes in at the cursor of line li and every view passes over the line |
| Document.InsertIntoStore | Eliason.TextEditor/TextDocument/ByLines/TextDocumentByLines.cs:572-664 | the text after the insert is the old text with text put in at start, the line starts hold, the store stays sound, and the events are InsertEvents |
| Document.RemoveMerge | Eliason.TextEditor/TextDocument/ByLines/TextDocumentByLines.cs:174-216 | while the span passes the end of line li the next line is merged in (its anchors moved after the line's and shifted by its length), raising an Alter and a Removed, one character of the span per merge |
| Document.MergeNext | Eliason.TextEditor/TextDocument/ByLines/TextDocumentByLines.cs:179-205 | one merge of the mending loop: line li + 1 joined onto line li with its anchors moved, the store still sound, two events more in the log and one character fewer of the span left to cut |
| Document.DropInsideCut | Eliason.TextEditor/TextDocument/ByLines/TextDocumentByLines.cs:235-267 | the anchors inside the cut are dropped from line li unless pinned, then every view passes over the line; other lines keep their lists |
| Document.RemoveFromStore | Eliason.TextEditor/TextDocument/ByLines/TextDocumentByLines.cs:165-279 | the text after the removal is the old text with the span taken out, the line starts hold, the store stays sound, and the events are the merges' and the cut's |
| Document.MergeAndCut | Eliason.TextEditor/TextDocument/ByLines/TextDocumentByLines.cs:170-233 | the merges while the span passes the line end, then the cut of what is left of the span at the cursor |
| Document.CutRest | Eliason.TextEditor/TextDocument/ByLines/TextDocumentByLines.cs:221-233 | what is left of the span is cut at the cursor of line li |
| Document.TextDocument.constructor | Eliason.TextEditor/TextDocument/ByLines/TextDocumentByLines.cs:12-15 | a new document has no lines, no views, no events or subscribers, is not modified, and has a fresh undo/redo manager with empty lists, level 10, accepting changes |
| Document.TextDocument.CreateStyledTextSegment | Eliason.TextEditor/TextDocument/ByLines/TextDocumentByLines.cs:32-35 | a new anchor of the style with the next identity, and the identity counter advances |
| Document.TextDocument.ClearSegments | Eliason.TextEditor/TextDocument/ByLines/TextDocumentByLines.TextSegment.cs:52-58 | Clear(clearPinned) on every line's list, the store kept sound |
| Document.TextDocument.AddManualTextSegment | Eliason.TextEditor/TextDocument/ByLines/TextDocumentByLines.TextSegment.cs:60-71 | the anchor placed on the line the lookup gives, the store kept sound |
| Document.TextDocument.Subscribe | Eliason.TextEditor/TextDocumentBase.cs:10-19 | a handler attached to one of the events |
| Document.TextDocument.RegisterTextView | Eliason.TextEditor/TextDocumentBase.cs:52-56 | the view appended to the registered views |
| Document.TextDocument.Clear | Eliason.TextEditor/TextDocument/ByLines/TextDocumentByLines.cs:27-30 | no line left |
| Document.TextDocument.Dispose | Eliason.TextEditor/TextDocumentBase.cs:30-45 | the document cleared, both managers disposed and dropped |
| Document.TextDocument.ViewDisposed | Eliason.TextEditor/TextDocumentBase.cs:58-66 | a disposed view is unregistered (its first occurrence); the last one to go disposes the document |
| Document.TextDocument.RecordEdit | Eliason.TextEditor/TextDocument/ByLines/TextDocumentByLines.cs:666-672 | a command is made and recorded exactly when the manager accepts changes and the edit is worth recording |
| Document.TextDocument.Commit | Eliason.TextEditor/TextDocument/ByLines/TextDocumentByLines.cs:666-676 | the record, then IsModified set, which raises Modified |
| Document.TextDocument.SetIsModified | Eliason.TextEditor/TextDocumentBase.cs:77-90 | the flag takes the value and Modified is raised on every assignment, changed or not |
| Document.TextDocument.Dispatch | Eliason.TextEditor/TextDocumentBase.cs:94-116 | an event is logged exactly when its kind has a subscriber |
| Document.TextDocument.TextAppendLine | Eliason.TextEditor/TextDocument/ByLines/TextDocumentByLines.cs:294-307 | a line at TextLength + 1 (at 0 when TextLength is 0) with the text and an empty anchor list, an Alter by its length plus one, then every view searches the new line; the line-start invariant is kept except after a document of one empty line |
| Document.TextDocument.TextAppendLineCorrected | Eliason.TextEditor/TextDocument/ByLines/TextDocumentByLines.cs:294-307 | the append with the first-line test its comment describes: the same line, event and search, and the line-start invariant always kept |
| Document.TextDocument.AppendLineAt | Eliason.TextEditor/TextDocument/ByLines/TextDocumentByLines.cs:294-307 | the line appended at the given start with an Alter raised and the store kept sound; the line-start invariant is kept when the start is one past the text |
| Document.TextDocument.TextGetStream | Eliason.TextEditor/TextDocument/ByLines/TextDocumentByLines.cs:69-129 | the forward stream from start: the text from start on, a line break after every line |
| Document.TextDocument.TextGet | Eliason.TextEditor/TextDocumentBase.cs:125-141 | the stream, stopped when the count, decremented after each character, reaches 0 |
| Document.TextDocument.FakeFinalizingKey | Eliason.TextEditor/TextDocument/ByLines/TextDocumentByLines.cs:309-324 | nothing changes for an index outside every line; otherwise the store stays sound, identities only grow and only the index's line changes |
| Document.TextDocument.TextInsert | Eliason.TextEditor/TextDocument/ByLines/TextDocumentByLines.cs:565-677 | the new text is the old text with text put in at start; the line starts hold and the store stays sound; the events are InsertLog; a command Added(text, start) is recorded exactly when the manager accepts changes and the text is not empty; IsModified is set |
| Document.TextDocument.InsertIntoDocument | Eliason.TextEditor/TextDocument/ByLines/TextDocumentByLines.cs:572-676 | the walk, the record and Modified on a document with lines |
| Document.TextDocument.InsertInDocument | Eliason.TextEditor/TextDocument/ByLines/TextDocumentByLines.cs:572-664 | the lines, the anchor lists and the events of an insert, the manager untouched |
| Document.TextDocument.TextRemove | Eliason.TextEditor/TextDocument/ByLines/TextDocumentByLines.cs:131-292 | nothing when the lookup finds no line or the span runs past the last line; otherwise the new text is the old text with the span taken out, the line starts hold, the events are RemoveLog, and Removed(TextGet(start, length), start) is recorded exactly when the manager accepts changes |
| Document.TextDocument.RemoveFromDocument | Eliason.TextEditor/TextDocument/ByLines/TextDocumentByLines.cs:165-291 | the edit, the record and Modified once the guards admitted the span |
| Document.TextDocument.CutInDocument | Eliason.TextEditor/TextDocument/ByLines/TextDocumentByLines.cs:165-279 | the lines, the anchor lists and the events of a removal, the manager untouched |
| LineEdits.InsertCharFlow | Eliason.TextEditor/TextDocument/ByLines/TextDocumentByLines.cs:642-642 | a character inserted into a line lands at its place in the flow |
| LineEdits.SplitFlow | Eliason.TextEditor/TextDocument/ByLines/TextDocumentByLines.cs:586-596 | the line break of a split lands at its place in the flow |
| LineEdits.SplitSegments | Eliason.TextEditor/TextDocument/ByLines/TextDocumentByLines.cs:600-613 | the anchor loop of a split: anchors after the break (all of them when it is at the line start) move to the new line, shifted back by the break's offset |
| LineEdits.SplitMembers | Eliason.TextEditor/TextDocument/ByLines/TextDocumentByLines.cs:600-613 | anchor by anchor, who stays on the line and who moves to the new one |
| LineEdits.SplitKeepsStore | Eliason.TextEditor/TextDocument/ByLines/TextDocumentByLines.cs:600-613 | a split neither loses nor duplicates an anchor: the store stays sound |
| LineEdits.MergeFlow | Eliason.TextEditor/TextDocument/ByLines/TextDocumentByLines.cs:193-201 | the line break after line k leaves the flow when the next line is merged in |
| LineEdits.MergeSegments | Eliason.TextEditor/TextDocument/ByLines/TextDocumentByLines.cs:184-191 | the next line's anchors move, in order, to the end of this line's list, shifted by this line's length |
| LineEdits.MergeKeepsStore | Eliason.TextEditor/TextDocument/ByLines/TextDocumentByLines.cs:184-201 | a merge keeps the store sound |
| LineEdits.CutFlow | Eliason.TextEditor/TextDocument/ByLines/TextDocumentByLines.cs:227-229 | the span cut from a line leaves the flow |
| LineEdits.FilterRemoved | Eliason.TextEditor/TextDocument/ByLines/TextDocumentByLines.cs:236-261 | the anchor loop after a cut detaches an anchor inside the span unless pinned; the branch that would pull an anchor back to the span start cannot be reached |
| LineEdits.SurvivorMembers | Eliason.TextEditor/TextDocument/ByLines/TextDocumentByLines.cs:236-261 | exactly the pinned anchors and those not inside the span survive |
| LineEdits.AppendLineStarts | Eliason.TextEditor/TextDocument/ByLines/TextDocumentByLines.cs:297-297 | appending a line keeps the line-start invariant except after a document of one empty line, where the new line also gets start 0 |
| LineEdits.AppendIndexAgrees | Eliason.TextEditor/TextDocument/ByLines/TextDocumentByLines.cs:296-297 | on well-started lines the TextLength test and the line-count test agree except after a document of one empty line |
| LineEdits.AppendCorrectedLineStarts | Eliason.TextEditor/TextDocument/ByLines/TextDocumentByLines.cs:295-297 | with the line-count test, appending a line always keeps the line-start invariant |
| LineEdits.BlankFirstLineBreaksStarts | Eliason.TextEditor/TextDocument/ByLines/TextDocumentByLines.cs:296-297 | appending to a document of one empty line puts the new line at 0, breaking the line-start invariant |
| LineEdits.InsertBegins | Eliason.TextEditor/TextDocument/ByLines/TextDocumentByLines.cs:572-574 | the lookup of the start begins the walk at offset start - Index of the line found |
| LineEdits.InsertCharStep | Eliason.TextEditor/TextDocument/ByLines/TextDocumentByLines.cs:642-652 | a character other than a line break goes in at the cursor, which moves past it |
| LineEdits.SplitStep | Eliason.TextEditor/TextDocument/ByLines/TextDocumentByLines.cs:581-640 | a line break splits the line at the cursor; the new line starts at start + i + 1 and the cursor moves to it |
| LineEdits.InsertEnds | Eliason.TextEditor/TextDocument/ByLines/TextDocumentByLines.cs:655-664 | after the walk the later lines move by the text's length; the line starts hold and the text is the old one with the text put in at start |
| LineEdits.AdmittedSpan | Eliason.TextEditor/TextDocument/ByLines/TextDocumentByLines.cs:133-155 | a span the lookup and the last-line guard admit lies within the line found and the text |
| LineEdits.RemoveBegins | Eliason.TextEditor/TextDocument/ByLines/TextDocumentByLines.cs:133-145 | a removal starts at offset start - Index of its line, inside the text |
| LineEdits.MergeStep | Eliason.TextEditor/TextDocument/ByLines/TextDocumentByLines.cs:174-204 | while the span passes the end of line li the next line exists and is merged in |
| LineEdits.CutStep | Eliason.TextEditor/TextDocument/ByLines/TextDocumentByLines.cs:221-233 | the span ends on line li: what is left of it is cut there |
| LineEdits.RemoveEnds | Eliason.TextEditor/TextDocument/ByLines/TextDocumentByLines.cs:274-278 | with every later line moved back by the length, the line starts hold and the span is gone from the text |
| Views.Clamp | Eliason.TextEditor/TextView/TextView.cs:265-290 | the value brought into [0, hi]: never negative, at most hi when hi is not negative, unchanged inside the range, 0 below it or when hi is negative |
| Views.GrowingKeepsStartsNotLengths | Eliason.TextEditor/TextView/TextView.cs:692-716 | growing the selection arrays covers the column and keeps every existing start, but a growth past the old size copies the starts over the old lengths; growing again for the same column changes nothing |
| Views.UndoCaretInText | Eliason.TextEditor/TextView/TextView.cs:589-617 | after undoing an edit the text shows, the caret place Undo computes lies inside the new text (so the clamp leaves it alone), and an undone removal shows its text back at that place |
| Views.RedoCaretInText | Eliason.TextEditor/TextView/TextView.cs:619-647 | after redoing an edit on the text before it, the caret place Redo computes lies inside the new text, and a redone insert shows its text at its index |
| Views.ParseInt | Eliason.TextEditor/TextView/TextView.cs:468-469 | a sidecar number that parses is an Int32; text out of that range is None, where int.Parse throws an overflow |
| Views.ParseIntAccepts | Eliason.TextEditor/TextView/TextView.cs:468-469 | every text of the form NumberStyles.Integer allows (white space, an optional '+' or '-', ASCII digits, white space, trailing NULs) reads as the signed value of its digits when that fits in 32 bits, and as None otherwise |
| Views.PaddedNumbersParse | Eliason.TextEditor/TextView/TextView.cs:468-469 | ' 5' reads as 5 and '+3' as 3 |
| Views.IntTextReadsBack | Eliason.TextEditor/TextView/TextView.cs:468-469 | every Int32 written as SaveToFile writes it parses back to itself and contains no vertical bar |
| Views.ParseRecord | Eliason.TextEditor/TextView/TextView.cs:464-470 | a parsed sidecar line has key and content free of vertical bars, and Int32 index and length |
| Views.PaddedRecordParses | Eliason.TextEditor/TextView/TextView.cs:464-470 | a sidecar line whose numbers carry leading white space and a '+' sign reads as its key, 5, 3 and its content |
| Views.RecordRoundTrip | Eliason.TextEditor/TextEditor/TextEditor.cs:685-723 | a record written for an anchor whose key and object contain no vertical bar reads back as that anchor's key, global index, length and object |
| Views.RecordAnchor | Eliason.TextEditor/TextView/TextView.cs:471-478 | the anchor built from a record has the style's key, the next identity, the record's length and object, and its index relative to the line start gives back the record's global index |
| Views.ReplacementWalksAsOne | Eliason.TextEditor/TextView/TextView.cs:362-414 | the removal and the insert of a replaced selection, paired as the setter pairs them, undo together in one walk back to the old text and redo together in one walk to the new text |
| Views.ReplacementUndoesAsOne | Eliason.TextEditor/TextView/TextView.cs:362-414 | once both commands of a replaced selection are recorded with room for two, one undo walk from the new text stops after exactly those two and gives back the old text |
| Views.TypedUndoesInTwo | Eliason.TextEditor/TextView/TextView.Keyboard.cs:28-75 | a typed character over a selection is undone in two walks: the first takes out the character, the second puts back the selection |
| Views.EnterUndoesAsOne | Eliason.TextEditor/TextView/TextView.Keyboard.cs:435-482 | the line break, the removal of the line and the insert of the filtered line, paired as OnKeyDownEnter pairs them, undo in one walk of three steps back to the text before Enter |
| Views.EnterRedoesAsOne | Eliason.TextEditor/TextView/TextView.Keyboard.cs:435-482 | after that undo, one redo walk of three steps gives the filtered text back |
| Views.EnterRecordUndoesAsOne | Eliason.TextEditor/TextView/TextView.Keyboard.cs:435-482 | when the three newest commands of the undo list are an Enter's, one undo walk from the filtered text takes exactly them back to the text before Enter |
| Views.TypedRedoesAsOne | Eliason.TextEditor/TextView/TextView.Keyboard.cs:435-482 | the three-step redo walk of an Enter holds for any typed text in place of the line break |
| Views.LeftStream | Eliason.TextEditor/TextDocument/ByLines/TextDocumentByLines.cs:107-126 | the characters before a position inside the text, nearest first, are exactly as many as the characters before it |
| Views.KeySpan | Eliason.TextEditor/TextView/TextView.Keyboard.cs:484-510 | the stretch Backspace or Delete takes out: the selection when there is one, else it starts at the caret for Delete and ends at the caret for Backspace, and it never reaches past the text |
| Views.RemovalUndoes | Eliason.TextEditor/UndoRedo/TextRemovedUndoRedoCommand.cs:34-46 | undoing the removal of a non-empty stretch puts the text back as it was |
| Views.WordBackspaceAtStartCopiesText | Eliason.TextEditor/TextView/TextView.Keyboard.cs:484-510 | Control with Backspace at the start of a non-empty text takes out an empty stretch, and the removal command it records holds the whole text, so its undo doubles the text |
| Views.TextView.constructor | Eliason.TextEditor/TextView/TextView.cs:74-125 | a new view is registered with its document and subscribed to its Alter, Removed, Added and Modified events, then sits in column 0 with one selection anchor of the selection style, start and length 0, no overflow entries and not read-only |
| Views.TextView.SetTextBufferStrategy | Eliason.TextEditor/TextView/TextView.cs:898-921 | the view's identity appended to the document's registered views, and the Alter, Removed, Added and Modified events added to its subscriptions; the rest of the document untouched |
| Views.TextView.EnsureSelectionArrays | Eliason.TextEditor/TextView/TextView.cs:692-716 | the arrays grow to cover the column and never shrink; each new column gets a new selection anchor with the next identity |
| Views.TextView.SetSelectionStart | Eliason.TextEditor/TextView/TextView.cs:718-746 | nothing changes when the index equals the current start; otherwise the column's start becomes the index clamped to the text and its anchor follows, and a move by hand or by mouse leaves the styles of every other line alone |
| Views.TextView.MoveStart | Eliason.TextEditor/TextView/TextView.cs:718-746 | the start move once the arrays cover the column: only that column's start and anchor change, lengths stay |
| Views.TextView.SetSelectionLength | Eliason.TextEditor/TextView/TextView.cs:265-290 | nothing changes for the current length; otherwise the length becomes the value clamped to what is left of the text after the start, and the anchor's length follows |
| Views.TextView.GetSelectedText | Eliason.TextEditor/TextView/TextView.cs:362-414 | the selected text is exactly the text from the start over the selection length when the selection is inside the text, and the rest of the text otherwise |
| Views.TextView.TextInsert | Eliason.TextEditor/TextView/TextView.cs:568-573 | the text goes in at the start, and a command Added(text, start) is recorded exactly when changes are accepted and the text is not empty |
| Views.TextView.TextRemove | Eliason.TextEditor/TextView/TextView.cs:575-580 | a span inside the text is cut out and a removal command recorded exactly when changes are accepted; undoing a non-empty removal gives back the old text |
| Views.TextView.TakeOutSelection | Eliason.TextEditor/TextView/TextView.cs:362-414 | the selection is cut out, its length becomes 0, the start stays, and a removal command of the selected text is recorded exactly when the selection was non-empty and changes are accepted |
| Views.TextView.RemoveSelectedSpan | Eliason.TextEditor/TextView/TextView.cs:362-414 | a non-empty selection is cut out and its removal recorded exactly when changes are accepted |
| Views.TextView.InsertAtCaret | Eliason.TextEditor/TextView/TextView.cs:362-414 | the value goes in at the caret, the caret moves past it, and an insert command is recorded exactly when changes are accepted and the value is not empty |
| Views.TextView.MoveCaretTo | Eliason.TextEditor/TextView/TextView.cs:718-746 | only the current column's start changes, to the given place |
| Views.TextView.SetSelectedText | Eliason.TextEditor/TextView/TextView.cs:362-414 | the selection is replaced by the value and the caret put after it (only cut out when the removal is refused); the removal and the insert are paired so that one undo walk from the new text gives the old text back |
| Views.TextView.ReplaceSelection | Eliason.TextEditor/TextView/TextView.cs:362-414 | the setter's two edits: the selection cut out, then (unless the document refused to record the removal) the value put in at the old start with the start moved past it; the commands recorded in that order, paired when both exist, and the other columns' selections kept |
| Views.TextView.InsertReplacement | Eliason.TextEditor/TextView/TextView.cs:362-414 | the value goes in at the caret, the caret moves past it, and the insert and the removal before it are paired exactly when both were recorded |
| Views.TextView.PlaceCaret | Eliason.TextEditor/TextView/TextView.cs:589-617 | the selection length becomes 0 and the start the caret clamped to the text, unless it is already there |
| Views.TextView.Undo | Eliason.TextEditor/TextView/TextView.cs:589-617 | the manager's undo walk runs on the document (as History.Undo states it); unless it threw or the newest command was a note, the length becomes 0 and the caret goes where the undone edit left off |
| Views.TextView.Redo | Eliason.TextEditor/TextView/TextView.cs:619-647 | the manager's redo walk runs on the document (as History.Redo states it); unless it threw or the top command was a note, the length becomes 0 and the caret goes after the redone edit |
| Views.TextView.GetLengthByLargeStep | Eliason.TextEditor/TextView/TextView.Keyboard.cs:519-564 | the length of a word step from start is the step over the stream read from start in its direction, and it never reaches past that stream |
| Views.TextView.GetIndexOfNextVisualLinebreak | Eliason.TextEditor/TextView/TextView.Keyboard.cs:573-607 | forward, the first visual line break at or after the caret (or the line length); backward, the line start plus the last break at or before the caret (or the line start) |
| Views.TextView.OnKeyPress | Eliason.TextEditor/TextView/TextView.Keyboard.cs:28-75 | an ignored key (handled, read-only, Control without Alt, carriage return, composing) changes nothing; otherwise the character replaces the selection, the caret moves after it, and undoing takes the character out first and the selection back in a second walk |
| Views.TextView.TypeChar | Eliason.TextEditor/TextView/TextView.Keyboard.cs:28-75 | the typed character replaces the selection with its two commands unpaired; the caret moves after it |
| Views.TextView.OnKeyDownRemove | Eliason.TextEditor/TextView/TextView.Keyboard.cs:484-510 | Backspace or Delete cuts out the stretch KeySpan finds, records it when changes are accepted, collapses the selection and puts the caret at the stretch's start; a non-empty removal undoes to the old text |
| Views.TextView.KeyCutAt | Eliason.TextEditor/TextView/TextView.Keyboard.cs:484-510 | the stretch read off the selection and the text is KeySpan's |
| Views.TextView.RemoveByKey | Eliason.TextEditor/TextView/TextView.Keyboard.cs:484-510 | the key's stretch cut out and recorded when accepted, then the caret at its start and the length 0 |
| Views.TextView.CollapseAfterRemoval | Eliason.TextEditor/TextView/TextView.Keyboard.cs:484-510 | the caret at the stretch's start (0 for -1) and the selection length 0 |
| Views.TextView.OnKeyDownRemoveCorrected | Eliason.TextEditor/TextView/TextView.Keyboard.cs:484-510 | as OnKeyDownRemove, but an empty stretch removes and records nothing, so every recorded removal undoes to the old text |
| Views.TextView.OnKeyDownEnter | Eliason.TextEditor/TextView/TextView.Keyboard.cs:435-482 | a line break goes in at the caret and the line it ends runs through the filter; a changed line is replaced by its filtered text, the three commands are paired, and one undo walk from the result gives back the text before Enter |
| Views.TextView.AfterBreak | Eliason.TextEditor/TextView/TextView.Keyboard.cs:439-481 | the rest of OnKeyDownEnter once the line break is in, against the text and lists before the break |
| Views.TextView.ChangedLine | Eliason.TextEditor/TextView/TextView.Keyboard.cs:445-473 | the rest of OnKeyDownEnter when the filter changed the line |
| Views.TextView.KeptLine | Eliason.TextEditor/TextView/TextView.Keyboard.cs:474-478 | the rest of OnKeyDownEnter when the filter kept the line: nothing is recorded or thrown, the text stays as broken and the caret moves to just after the break |
| Views.TextView.AcceptedLine | Eliason.TextEditor/TextView/TextView.Keyboard.cs:439-442 | the line holding the caret, as the text shows it at its start, with the caret inside it |
| Views.TextView.FilterLine | Eliason.TextEditor/TextView/TextView.Keyboard.cs:447-472 | the line replaced by the filtered text, the pair flags set, and the caret shifted by the change of the line's length unless setting the flags threw |
| Views.TextView.MoveAfterEnter | Eliason.TextEditor/TextView/TextView.Keyboard.cs:458-472 | the caret after a changed line, as EnterCaret computes it |
| Views.TextView.ReplaceLine | Eliason.TextEditor/TextView/TextView.Keyboard.cs:447-451 | the line is cut out and the filtered text put in its place, each recorded when changes are accepted (the insert only when the filtered text is not empty) |
| Views.TextView.UpdateLineOverflow | Eliason.TextEditor/TextView/TextView.cs:1010-1030 | a line narrower than the client area leaves the table, a wider one takes its width; when every entry was at least the client width, every entry still is |
| Views.TextView.LongestLineWidth | Eliason.TextEditor/TextView/TextView.cs:176-192 | the widest entry of the table, at least 0, and an entry of the table unless 0 |
| Views.TextView.PlaceRecord | Eliason.TextEditor/TextView/TextView.cs:471-481 | a record with index -1 or a document without lines places nothing; otherwise a new anchor of the record's style is placed on the line holding the index, at that global index |
| Views.TextView.LoadSidecar | Eliason.TextEditor/TextView/TextView.cs:444-495 | records are placed in order until the first that does not parse or does not fit; every record before it is loadable and that one is not; the anchor lists are those records added in order, and one identity is used per record that parses |
| Views.TextView.LoadRecord | Eliason.TextEditor/TextView/TextView.cs:464-480 | one record: when it parses and its index finds a line it is placed under the next identity and the reading goes on; otherwise the reading stops, having used one identity when the record parsed |
| Ime.FirstTarget | Eliason.TextEditor/TextView/IMEComposition.cs:240-277 | the first target attribute at or after i, with none between i and it |
| Ime.FirstNonTarget | Eliason.TextEditor/TextView/IMEComposition.cs:240-277 | the first non-target attribute at or after i, with only targets between i and it |
| Ime.TargetRangeIsFirstRun | Eliason.TextEditor/TextView/IMEComposition.cs:240-277 | the target range is the first maximal run of target attributes, non-empty when there is a target, and the whole composition when there is none |
| Ime.GetSelection | Eliason.TextEditor/TextView/IMEComposition.cs:240-277 | the two scans give the target range of the attributes; without attributes the incoming range is kept |
| Ime.ImeComposition.constructor | Eliason.TextEditor/TextView/IMEComposition.cs:26-29 | no stored composition and none under way |
| Ime.ImeComposition.StartComposition | Eliason.TextEditor/TextView/IMEComposition.cs:33-49 | the stored composition is dropped and a composition is under way |
| Ime.ImeComposition.EndComposition | Eliason.TextEditor/TextView/IMEComposition.cs:51-63 | a stored composition replaces the view's selection unless the view is read-only (exactly as the SelectedText setter does it); the composition is then dropped and none is under way |
| Keyboard.ScanLargeStep | Eliason.TextEditor/TextView/TextView.Keyboard.cs:519-564 | the scan loop steps over exactly LargeStep characters, never more than the stream holds |
| Keyboard.RunFrom | Eliason.TextEditor/TextView/TextView.Keyboard.cs:519-564 | the longest run of one category from i: all of its characters have the category, and the next one does not |
| Keyboard.WhiteFrom | Eliason.TextEditor/TextView/TextView.Keyboard.cs:519-564 | the longest run of whitespace from i |
| Keyboard.SpacesFrom | Eliason.TextEditor/TextView/TextView.Keyboard.cs:519-564 | the longest run of space separators from i |
| Keyboard.RightwardStepIsRunThenWhitespace | Eliason.TextEditor/TextView/TextView.Keyboard.cs:519-564 | rightward, a word step takes the run of the first character's category and then the whitespace after it |
| Keyboard.LeftwardStepIsSpacesThenRun | Eliason.TextEditor/TextView/TextView.Keyboard.cs:519-564 | leftward, a word step takes the space separators and then the run of the next character's category, stopping at the first change |
| Keyboard.LargeStepBounds | Eliason.TextEditor/TextView/TextView.Keyboard.cs:519-564 | a word step stays inside the stream and takes at least one character of a non-empty stream |
| Keyboard.LeftStepSeesBreaksAlike | Eliason.TextEditor/TextDocument/ByLines/TextDocumentByLines.cs:107-126 | a leftward word step over a stream is the same whether a line break reads as a line feed or as the null character |
| Keyboard.FirstBreakFrom | Eliason.TextEditor/TextView/TextView.Keyboard.cs:573-607 | the first break at or after the position, with every break before it earlier than the position |
| Keyboard.LastBreakUpTo | Eliason.TextEditor/TextView/TextView.Keyboard.cs:573-607 | the last break at or before the position, with every break after it later than the position |
| Rendering.ChosenIsFirstHighest | Eliason.TextEditor/TextStyles/RenderState.cs:53-78 | the chosen colour is -1 exactly when no item sets one; otherwise it is the colour of the first item with the greatest z-order |
| Rendering.BackSettles | Eliason.TextEditor/TextStyles/RenderState.cs:80-93 | a second Apply with the same background colour makes no background call |
| Rendering.ForeFallbackRepeats | Eliason.TextEditor/TextStyles/RenderState.cs:95-104 | without a chosen fore colour the default one is stored and sent again on every Apply |
| Rendering.ForeSettles | Eliason.TextEditor/TextStyles/RenderState.cs:95-104 | a chosen fore colour, once stored, is not sent again |
| Rendering.WithoutFirstRemovesOne | Eliason.TextEditor/TextStyles/RenderState.cs:34-44 | removal takes out exactly the first item of the segment and keeps the others in order |
| Rendering.RenderState.constructor | Eliason.TextEditor/TextStyles/RenderState.cs:16-22 | no items, the default fore colour, no previous colours and no calls |
| Rendering.RenderState.Add | Eliason.TextEditor/TextStyles/RenderState.cs:24-32 | the item goes last and the answer is true |
| Rendering.RenderState.Remove | Eliason.TextEditor/TextStyles/RenderState.cs:34-44 | only the first item of the segment is taken out |
| Rendering.RenderState.Apply | Eliason.TextEditor/TextStyles/RenderState.cs:51-105 | the chosen back and fore colours are stored and sent only when they differ from the previous ones |
| SearchReplace.RegexSearchText | Eliason.TextEditor.UI/SearchReplace/SearchReplaceForm.cs:200-235 | a pattern for the three known search methods or with whole words, None for any other method without them |
| SearchReplace.WholeWordWraps | Eliason.TextEditor.UI/SearchReplace/SearchReplaceForm.cs:200-235 | with whole words the pattern is the one without them between two word boundaries |
| SearchReplace.StarsBecomeLazy | Eliason.TextEditor.UI/SearchReplace/SearchReplaceForm.cs:200-235 | after replacing '*' by ".*?" every star is a lazy wildcard |
| SearchReplace.ReplaceKeepsCount | Eliason.TextEditor.UI/SearchReplace/SearchReplaceForm.cs:200-235 | a replacement holding as many of a character as its pattern keeps that character's count |
| SearchReplace.ReplaceMissing | Eliason.TextEditor.UI/SearchReplace/SearchReplaceForm.cs:200-235 | a pattern with a character absent from the text leaves the text alone |
| SearchReplace.WildcardStars | Eliason.TextEditor.UI/SearchReplace/SearchReplaceForm.cs:200-235 | the wildcard pattern keeps the number of stars, each lazy, and is the escaped text when it has none |
| SearchReplace.RegexOptions | Eliason.TextEditor.UI/SearchReplace/SearchReplaceForm.cs:237-247 | always single-line, case-insensitive exactly when the case need not match, and nothing else |
| SearchReplace.StartOf | Eliason.TextEditor.UI/SearchReplace/SearchReplaceForm.cs:249-282 | the start of the line of a position, at most one past it |
| SearchReplace.StartOfIsNearestBreak | Eliason.TextEditor.UI/SearchReplace/SearchReplaceForm.cs:249-282 | the line start is one past the nearest line break up to the position, or 0 when there is none |
| SearchReplace.EndOf | Eliason.TextEditor.UI/SearchReplace/SearchReplaceForm.cs:249-282 | the end of the line of a position lies between the position and the end of the text |
| SearchReplace.EndOfIsNextBreak | Eliason.TextEditor.UI/SearchReplace/SearchReplaceForm.cs:249-282 | the line end is the first line break at or after the position, or the end of the text |
| SearchReplace.GetLineOfText | Eliason.TextEditor.UI/SearchReplace/SearchReplaceForm.cs:249-282 | the two scan loops find the line LineOfText defines, carriage returns taken out |
| SearchReplace.LineOfTextIsALine | Eliason.TextEditor.UI/SearchReplace/SearchReplaceForm.cs:249-282 | a line comes back exactly for the positions of the text (and 0); it holds no carriage return and a line break only in front when the text starts with one |
| SearchReplace.LineOfBreakIsEmpty | Eliason.TextEditor.UI/SearchReplace/SearchReplaceForm.cs:249-282 | a position on a line break (other than 0) gives the empty line |
| SearchReplace.LeadingBreakIsKept | Eliason.TextEditor.UI/SearchReplace/SearchReplaceForm.cs:249-282 | an empty first line is not skipped: the line after it comes back with the line break in front |
| SearchReplace.ShiftMovesLater | Eliason.TextEditor.UI/SearchReplace/SearchReplaceForm.cs:313-363 | the shift keeps the results before n and the count; it throws exactly when some later result's moved position has no line, and otherwise moves every later result by the difference with its line read again |
| SearchReplace.ResultPage.ShiftLater | Eliason.TextEditor.UI/SearchReplace/SearchReplaceForm.cs:349-360 | nothing moves when the length is kept; otherwise the results from the index on are shifted as ShiftMovesLater states |
| SearchReplace.RemoveAndShift | Eliason.TextEditor.UI/SearchReplace/SearchReplaceForm.cs:342-360 | the result at the index is taken out and the later ones shifted when the text's length changed |
| SearchReplace.ReplaceMatch | Eliason.TextEditor.UI/SearchReplace/SearchReplaceForm.cs:327-337 | the match is selected and replaced through the SelectedText setter, leaving the caret after the value and the length 0 |
| SearchReplace.Replace | Eliason.TextEditor.UI/SearchReplace/SearchReplaceForm.cs:313-363 | a result already replaced changes nothing; otherwise its match is replaced by the regular expression's value, the result leaves the list and the later results shift by the change of the text's length |
| Editor.NulsDroppedWhenMany | Eliason.TextEditor/TextEditor/TextEditor.cs:301-318 | the NULs of a loaded line go exactly when they are more than a third of it, and then all of them |
| Editor.NormalizedHasNoCarriageReturn | Eliason.TextEditor/TextEditor/TextEditor.cs:301-318 | no carriage return is left in a loaded line |
| Editor.PlainLineKept | Eliason.TextEditor/TextEditor/TextEditor.cs:301-318 | a line without NUL and carriage return is loaded as it is |
| Editor.GetCheckIfAscii | Eliason.TextEditor/TextEditor/TextEditor.cs:582-603 | true exactly when no byte from the position on is above 127; the position is put back |
| Editor.PinnedOfKeepsPinned | Eliason.TextEditor/TextEditor/TextEditor.cs:685-723 | exactly the pinned anchors are kept, in order |
| Editor.Records | Eliason.TextEditor/TextEditor/TextEditor.cs:685-723 | one sidecar line per pinned anchor |
| Editor.CollectPinned | Eliason.TextEditor/TextEditor/TextEditor.cs:685-723 | the collecting loop keeps exactly the pinned anchors, in order |
| Editor.TextEditor.constructor | Eliason.TextEditor/TextEditor/TextEditor.cs:95-99 | no path, no description, not disposed and no file operations |
| Editor.TextEditor.Clear | Eliason.TextEditor/TextEditor/TextEditor.cs:113-123 | no lines, no anchors, no undo or redo, no path, no description and not modified (raising Modified once) |
| Editor.TextEditor.LoadLines | Eliason.TextEditor/TextEditor/TextEditor.cs:274-328 | with the corrected append: the editor cleared, the path set, one line per raw line cleaned up (or one empty line for an empty file), no undo history, and the line starts in place |
| Editor.TextEditor.AppendLines | Eliason.TextEditor/TextEditor/TextEditor.cs:278-322 | with the corrected append: one line per text, in order, each reading back as its text, with the line starts in place |
| Editor.TextEditor.SaveToFile | Eliason.TextEditor/TextEditor/TextEditor.cs:685-723 | the whole text written to the path, then the sidecar of the pinned anchors |
| Editor.TextEditor.SaveAs | Eliason.TextEditor/TextEditor/TextEditor.cs:610-678 | false and nothing written when the target is refused; an auto-save only writes; a manual save also deletes the temporary file, takes the path, clears the history and marks the document unmodified |
| Editor.TextEditor.SaveAuto | Eliason.TextEditor/TextEditor/TextEditor.cs:375-432 | nothing for an unmodified document, one without a path, a disposed editor or a refused target; otherwise the text and sidecar go to the path with ".tmp", with path, history and modified flag kept |
| Templates.IndexOf | Eliason.TextEditor/TextTemplates/Template.cs:19-33 | the first occurrence at or after from, or -1 when there is none |
| Templates.NewTemplate | Eliason.TextEditor/TextTemplates/Template.cs:19-33 | the name is kept; content not starting with "$$" is kept whole with no hotkey |
| Templates.HotkeyStripped | Eliason.TextEditor/TextTemplates/Template.cs:19-33 | a hotkey between "$$" markers is parsed, both markers and the hotkey are stripped, and the body is kept; an unparsable hotkey throws |
| Templates.UnclosedHotkeyThrows | Eliason.TextEditor/TextTemplates/Template.cs:19-33 | content starting with "$$" without a closing marker throws |
| Templates.LastStatic | Eliason.TextEditor/TextTemplates/Template.cs:185-214 | the last non-dynamic type with the key, or none |
| Templates.FirstDynamic | Eliason.TextEditor/TextTemplates/Template.cs:185-214 | the first dynamic type, or none |
| Templates.KindFor | Eliason.TextEditor/TextTemplates/Template.cs:238-252 | a registered attribute kind with the key, or none when no kind has it |
| Templates.FindTokenType | Eliason.TextEditor/TextTemplates/Template.cs:185-214 | the type loop finds the last matching non-dynamic type, and otherwise the first dynamic one |
| Templates.FindAttribute | Eliason.TextEditor/TextTemplates/Template.cs:238-252 | the attribute of the kind registered for the key, or the format error when none is |
| Templates.ReadAttribute | Eliason.TextEditor/TextTemplates/Template.cs:220-236 | reads one part exactly as the key=value rules of AttributeOfPair, AttributeOfBare and AttributeOfTwoEquals say |
| Templates.AttributeOfPair | Eliason.TextEditor/TextTemplates/Template.cs:220-228 | a key=value part with one '=' gives that value under a kind whose key it is, and throws exactly when no registered kind has the key |
| Templates.AttributeOfBare | Eliason.TextEditor/TextTemplates/Template.cs:229-232 | a part with no '=' gives its first character as the key and the rest as the value, and throws exactly when no kind has that key |
| Templates.AttributeOfTwoEquals | Eliason.TextEditor/TextTemplates/Template.cs:233-235 | a part with two or more '=' is a format error |
| Templates.ReadAttributes | Eliason.TextEditor/TextTemplates/Template.cs:218-253 | computes the attributes of the text's non-empty parts in order, stopping at the first error |
| Templates.ParseAttributesOfJoin | Eliason.TextEditor/TextTemplates/Template.cs:218 | parts joined with bars read back as the attributes of the non-empty parts in order, empty parts skipped |
| Templates.AttributesOfPairs | Eliason.TextEditor/TextTemplates/Template.cs:218-253 | registered key=value parts give one attribute each, in order, with each part's key and value |
| Templates.ReadPlaceholder | Eliason.TextEditor/TextTemplates/Template.cs:182-256 | a match becomes its token type and attributes, or an error |
| Templates.SpacedAllEmitted | Eliason.TextEditor/TextTemplates/Template.cs:152-262 | with spaced matches that all read, every match yields the freetext since the previous match followed by its placeholder |
| Templates.NoPlaceholders | Eliason.TextEditor/TextTemplates/Template.cs:152-262 | without placeholders the whole content is one freetext token, none for empty content |
| Templates.AdjacentPlaceholderLost | Eliason.TextEditor/TextTemplates/Template.cs:152-262 | a placeholder right after the previous one is never reached, and nothing after the first placeholder is yielded |
| Templates.PiecesSkip | Eliason.TextEditor/TextTemplates/Template.cs:152-262 | a position that is not the next match's start adds nothing |
| Templates.PiecesTake | Eliason.TextEditor/TextTemplates/Template.cs:152-262 | a match at the position yields the pending freetext and its placeholder, and the scan resumes one past its end |
| Templates.PiecesDone | Eliason.TextEditor/TextTemplates/Template.cs:152-262 | past the end of the content nothing more is yielded |
| Templates.GetTokens | Eliason.TextEditor/TextTemplates/Template.cs:152-262 | the scan loop yields exactly the pieces Pieces defines over the placeholder matches |
| Tokens.FreetextValues | Eliason.TextEditor/TextTemplates/TokenTypes/TokenTypeFreetext.cs:17-23 | one value per attribute, each the attribute's value, in order |
| Tokens.AddNewOfFresh | Eliason.TextEditor/TextTemplates/Token.cs:30-38 | values already distinct and new to the list are all added, in order |
| Tokens.DistinctProps | Eliason.TextEditor/TextTemplates/Token.cs:30-38 | the collected values hold every value once and nothing else, and a list without repeats comes back whole |
| Tokens.LastSeparatorWins | Eliason.TextEditor/TextTemplates/TokenAttributes/AttribTypeSeparator.cs:12-18 | the value of the last Separator attribute becomes the item separator |
| Tokens.NoSeparatorKeeps | Eliason.TextEditor/TextTemplates/TokenAttributes/AttribTypeSeparator.cs:12-18 | without a Separator attribute the separator is kept |
| Tokens.AlterAllAppend | Eliason.TextEditor/TextTemplates/Token.cs:23-46 | running two attribute lists one after the other is running them joined |
| Tokens.PlainAttributesKeep | Eliason.TextEditor/TextTemplates/Token.cs:23-46 | Content and Separator attributes leave the values alone |
| Tokens.NoCarriageReturnKept | Eliason.TextEditor/TextTemplates/Token.cs:45-45 | a text without carriage return is left alone by the "\r\n" replacement |
| Tokens.FreetextJoinsValues | Eliason.TextEditor/TextTemplates/Token.cs:23-46 | a freetext token with only Content and Separator attributes produces its distinct values joined by the separator |
| Tokens.CompareInt | Eliason.TextEditor/TextTemplates/Token.cs:48-70 | zero exactly for equal values, negative exactly when the first is smaller |
| Tokens.Dedupe | Eliason.TextEditor/TextTemplates/Token.cs:30-38 | the collecting loop adds a value only when it is not in the list yet, as Distinct does |
| Tokens.AlterEach | Eliason.TextEditor/TextTemplates/Token.cs:40-43 | the altering loop runs every attribute in turn, stopping where one throws, as AlterAll does |
| Tokens.Token.constructor | Eliason.TextEditor/TextTemplates/Token.cs:15-21 | the given type and found-as text, no attributes and the default separator |
| Tokens.Token.Process | Eliason.TextEditor/TextTemplates/Token.cs:23-46 | the separator is set by the non-altering pass, and the result is the values collected, altered, deduplicated and joined, with "\r\n" made "\n" |
| Tokens.CompareToFlips | Eliason.TextEditor/TextTemplates/Token.cs:48-70 | for complete tokens and an antisymmetric comparison, swapping the tokens flips the sign |
| Tokens.CompareToItself | Eliason.TextEditor/TextTemplates/Token.cs:48-70 | a complete token compares equal to itself when the comparison does |
| TokenAttributes.KeysDiffer | Eliason.TextEditor/TextTemplates/Template.cs:238-252 | no two attribute kinds share a key |
| TokenAttributes.Prepare | Eliason.TextEditor/TextTemplates/TokenAttributes/AttribTypeSeparator.cs:12-18 | only a Separator attribute changes the item separator |
| TokenAttributes.SortedIsSorting | Eliason.TextEditor/TextTemplates/TokenAttributes/AttribTypeOrder.cs:13-30 | sorting gives a non-decreasing permutation of the values |
| TokenAttributes.OrderPermutes | Eliason.TextEditor/TextTemplates/TokenAttributes/AttribTypeOrder.cs:13-30 | the result is a permutation: 'A' (and the empty value) gives a non-increasing list, 'D' a non-decreasing one, any other option the list as it was |
| TokenAttributes.DefaultFills | Eliason.TextEditor/TextTemplates/TokenAttributes/AttribTypeDefault.cs:13-29 | on a non-empty list the count is kept, filled entries stay, and a non-empty value leaves no empty entry |
| TokenAttributes.QuantityKeepsPrefix | Eliason.TextEditor/TextTemplates/TokenAttributes/AttribTypeQuantity.cs:13-23 | at most max entries are kept, as a prefix in order, and a short list is kept whole |
| TokenAttributes.MinusKeepsOthers | Eliason.TextEditor/TextTemplates/TokenAttributes/AttribTypeMathMinus.cs:12-33 | the count is kept, and an entry changes only when both it and the value read as Int32 |
| TokenAttributes.MinusReadsBack | Eliason.TextEditor/TextTemplates/TokenAttributes/AttribTypeMathMinus.cs:12-33 | a difference that fits an Int32 is written as its decimal digits, with '-' exactly when negative |
| TokenAttributes.LengthPads | Eliason.TextEditor/TextTemplates/TokenAttributes/AttribTypeLength.cs:14-26 | the count is kept, each short entry is padded on the left to the length, and each entry ends with its old text |
| TokenAttributes.DefaultProcess | Eliason.TextEditor/TextTemplates/TokenAttributes/AttribTypeDefault.cs:13-29 | the loop computes Defaulted |
| TokenAttributes.QuantityProcess | Eliason.TextEditor/TextTemplates/TokenAttributes/AttribTypeQuantity.cs:13-23 | the RemoveAt loop computes Quantified |
| TokenAttributes.OrderProcess | Eliason.TextEditor/TextTemplates/TokenAttributes/AttribTypeOrder.cs:13-30 | the insertion loop and reversal compute OrderedBy |
| TokenAttributes.MathMinusProcess | Eliason.TextEditor/TextTemplates/TokenAttributes/AttribTypeMathMinus.cs:12-33 | the loop computes Subtracted |
| TokenAttributes.LengthProcess | Eliason.TextEditor/TextTemplates/TokenAttributes/AttribTypeLength.cs:14-26 | the loop computes Lengthened |
| TokenAttributes.Process | Eliason.TextEditor/TextTemplates/Token.cs:23-46 | one attribute's altering pass, dispatched on its kind; Content and Separator leave the list alone |

## Left out

- Only text column 0 is edited. `TextInsert`, `TextRemove` and the command replays take no column, and the other columns appear only in `TextLine.SetText`/`GetText` and in anchor lengths.
- Painting, measuring and the renderer are left out: GDI calls, `CalculateVisuals`, caret blinking, `UpdateCaretLocation`, `ScrollToCaret`, `Invalidate` and `PerformLayout`. Visual line breaks are given to `GetIndexOfNextVisualLinebreak` as an input list.
- The Win32 side of the input method is left out: `MoveImeWindow`, the `Imm*` calls, `UpdateCurrentComposition`, `GetCurrentComposition` and `Paint`. The attribute bytes and their count are inputs to `GetSelection`, and the stored composition is a field that `EndComposition` reads.
- `Char.GetUnicodeCategory` and `Char.IsWhiteSpace` are an oracle (`CharOracle`) that is fixed to the .NET table only for ASCII.
- The spell dictionary and the editor settings are oracles inside the style. A checker exception counts as a misspelling.
- The regular-expression engine is left out: `Regex.Escape`, `Regex.Replace` and the placeholder matches of a template are parameters.
- `int.Parse`, `Convert.ToInt32`, `double.TryParse` and `Enum.Parse` of `Keys` are parameters (`Parsers` and the key parser), except for the sidecar numbers: `Views.ParseInt` reads those as `int.Parse` does with `NumberStyles.Integer`. The exception of a failed parse becomes `None`.
- The line filter of Enter (`FilterStringLine`) is a function parameter.
- File and stream I/O are left out. `Open` is modelled from the lines it has read. The sidecar is given as its lines. `SaveToFile`, `SaveAs` and `SaveAuto` append `Write`/`DeleteIfExists` operations to a log, and `GetCanSaveTo` is a parameter. Encodings, the auto-save timer and `GetAnchorFileName` (a parameter `sidecarOf`) are left out.
- Event handlers are not run. A raised event is appended to the document's event log when its kind has a subscriber.
- Concurrency is left out: the caret timer and the auto-save timer.
- The search form's UI is left out: its tab pages, list boxes, the Replace All loop and `controlledAltering`. A result page is a class holding the view and a sequence of results, and `Replace` works on it. Aliasing between list items is not modelled.
- `Template.ProcessInline`, the clock- and file-dependent token types and `AttribTypeContent` (the identity) are left out.
- `TextGetStream` is modelled rightward. Leftward, only the characters the word step reads before a position are modelled (`Views.LeftStream`).
- Views.LeftStream: gives '\n' for every line break. The source's leftward stream gives '\0' instead for a break reached while still on the empty line after it. Both are Control characters and neither is a space separator, so the word step sees them alike (`Keyboard.LeftStepSeesBreaksAlike`).
- `TextLine.SetLength` throws and `TextLine.Contains` always answers false. Neither has a property to state, so neither is modelled.
- The attribute transforms change `currentValues` in place in the source. Here each one is a method that returns the new list, and the token collects that result.
- Document.TextDocument.TextInsert: requires `0 <= start <= TextLength`. The source throws for a negative start and writes a bad `Index` for a start past the end; neither case is modelled. It also requires the line-start invariant, which the model's `Open` always gives (it appends with the corrected first-line test, see Findings). A document opened by the source's own append with a blank first line of several is not modelled.
- Document.TextDocument.TextRemove: requires `start >= -1`, `length >= 0` and `RemoveTerminates`. A span that starts on an earlier line and runs past the last line makes the source loop forever. It also requires the line-start invariant, as TextInsert does.
- Document.TextDocument.TextAppendLine: requires a styled-segment manager or no registered view. After `Dispose` the source's manager is null and its search would throw. With views registered, it states of the anchors only what Valid keeps (a sound store); the search of the new line is stated for each anchor by the lemmas named in the Segments.SearchAndApplyTo line. The same holds for Document.TextDocument.TextAppendLineCorrected.
- Document.TextDocument.FakeFinalizingKey: requires the same as TextAppendLine, for the same reason, and the line-start invariant, as TextInsert does. It states only soundness, growing identities and that other lines are kept. The effect of the re-search is stated for each anchor by the lemmas named in the Segments.SearchAndApplyTo line.
- Document.TextDocument.TextGet: requires `start >= -1` and the line-start invariant. The stream is not modelled for other starts.
- Document.TextDocument.TextGetStream: requires `start >= -1` and the line-start invariant, as TextGet does.
- History.Undo: requires a history whose undo steps replay in a chain from the current text. A command that no longer fits the text is outside the model. In the source such a replay goes wrong in several ways: a removal outside the text is refused silently (`Document.RemoveRefusedOutside`), one that runs past the last line loops forever, an insert past the end writes a bad `Index`, and only an insert at a negative start throws.
- History.Redo: requires the same of the redo steps.
- Views.TextView.Undo: requires the same as History.Undo.
- Views.TextView.Redo: requires the same as History.Redo.
- Segments.SearchAndApplyToLine: states only soundness, growing identities, `foundOne` and that other lines are kept, as SearchAndApplyTo does for the whole line. The effect for each anchor is stated by the lemmas named in the next line.
- Segments.SearchAndApplyTo: states only that the store stays sound, that identities only grow, that `foundOne` means something was attached, and that other lines are kept. The effect for each anchor is stated by FirstStyleFindIsFirst, ApplyFoundKeepsStore and ApplyFoundStaysOnLine.
- StylePass.ModifyStyledTextSegments: states only soundness, growing identities and that other lines are kept. The effect for each anchor is stated by StepRules, AlterLine and AlterLineRefreshes.
- StylePass.ModifyForViews: states the same as ModifyStyledTextSegments, over every registered view.
- StylePass.SearchForViews: states the same as SearchAndApplyTo, over every registered view.
- StylePass.FakeFinalizingKey: states the same as SearchAndApplyTo, for the line of the index.
- Editor.TextEditor.SaveToFile: requires the line-start invariant, as TextInsert does, for the same reason.
- Editor.TextEditor.SaveAs: requires the line-start invariant, as SaveToFile does.
- Editor.TextEditor.SaveAuto: requires the line-start invariant, as SaveToFile does.
- Editor.TextEditor.LoadLines: appends with the corrected first-line test (the second Findings row), not the source's `TextAppendLine`. So for a file of several lines whose first line is blank it differs from the source: raw lines "" and "x" give line starts 0 and 1 here, and 0 and 0 in the source.
- Editor.TextEditor.AppendLines: appends with the corrected first-line test, as LoadLines does, and differs from the source in the same case.
- Views.TextView.constructor: requires the line-start invariant of its document, as TextInsert does. So does `Views.TextView.Valid`, and with it every view method.
- Strs.CompareIgnoreCase: folds the case of ASCII letters only. .NET `OrdinalIgnoreCase` also equates non-ASCII case pairs such as 'é' and 'É', which compare unequal here. The same holds for `Strs.EqualsIgnoreCase` and `Strs.Upper`.
- Utility.GetWord: requires a non-empty line text and `globalIndex >= listStartIndex`, as the source's direct indexing does.
- Views.TextView.SetSelectedText: requires the selection to lie inside the text. The view's own setters keep it there.
- Views.TextView.OnKeyPress: requires the selection inside the text, as SetSelectedText does.
- Views.TextView.OnKeyDownRemove: requires the selection inside the text, as SetSelectedText does.
- Ime.ImeComposition.EndComposition: requires the view's selection inside the text, as SetSelectedText does.
- SearchReplace.Replace: requires the match inside the current text. A result made stale by edits outside the form is not modelled.
- Int32 overflow is modelled only where the source can reach it: `MathMinus` and the sidecar numbers (`Strs.Wrap32`, `Views.ParseInt`). Elsewhere, indexes and lengths are unbounded integers.
- Views.ParseInt: takes the sign characters to be '+' and '-', as in the invariant culture. The source reads them from the current culture's number format.

## Findings

| source | as written | input that shows it | evidently intended | confidence | as-written member | corrected member |
|---|---|---|---|---|---|---|
| Eliason.TextEditor/TextView/TextView.Keyboard.cs:484-510 | Control with Backspace computes a word step of 0 at the start of the text and still calls `TextRemove(start - 0, 0)`. `TextGet` reads a count of 0 as "to the end", so the recorded removal holds the whole text while nothing is removed. | A non-empty text with the caret at 0 and no selection, then Control+Backspace, then Undo: the text appears twice. | A word step of length 0 removes and records nothing, so Undo changes nothing. | not executed | Views.WordBackspaceAtStartCopiesText | Views.TextView.OnKeyDownRemoveCorrected |
| Eliason.TextEditor/TextDocument/ByLines/TextDocumentByLines.cs:293-306 | `TextAppendLine` places a new line at `TextLength + 1` when `TextLength > 0`, and at 0 otherwise. The test is meant to mean "first line", but an empty first line also has length 0. | `Open` of a file whose first of several lines is blank: the second line also starts at 0, so the line starts no longer follow the text. | The test is on the line count: a line appended to a non-empty document starts one past the text's end. | not executed | Document.TextDocument.TextAppendLine, LineEdits.BlankFirstLineBreaksStarts | Document.TextDocument.TextAppendLineCorrected, LineEdits.AppendCorrectedLineStarts |
