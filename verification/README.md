# Models of GitHub Desktop's text and state machines

A Dafny model of the parts of GitHub Desktop whose behaviour is hardest to see from reading one function:

- **Unified diffs** (`UnifiedDiff`, `PatchFormatter`, `PartialPatch`, `PostimageStart`, `DiffParsing`, `ParsedDiff`,
  `DiffContents`, `DiffGrammar`, `DiffRoundTrip`). A diff takes an old file to a new one when its hunks are in order and disjoint and
  show what stands at their two ranges. A patch means what `Apply` does with it: each hunk is placed by its preimage
  range, and a hunk that is mistallied, out of order or does not match makes the patch fail. Over that meaning the two
  formatters are proved to commit and to discard exactly the selected changes and to meet in the same file; the
  cursor parser is proved against a specification over physical lines, accepts just the texts of a grammar that is
  stated on its own, and reads back every patch the formatters print.
- **Paged requests** (`Pagination`, `UpdatedPullRequests`): a fixed list served in slices, and a run that follows the
  links while the page size grows.
- **The application menu** (`AppMenus`, `AppMenuState`, `AppMenuRuns`): a menu tree, its id map, and the chain of open
  menus with their selections, over every run of the transformers.
- **Commit messages** (`TextTokenParser`, `TokenLayout`, `WrapCommitMessage`): the look-ahead tokenizer, what stands
  where in a text, and the width-bounded splitter.
- **Smaller machines**: the ordered web request filters (`OrderedWebRequest`, `RequestFilters`), the porcelain status
  parser (`StatusParser`, `StatusRoundTrip`), carriage returns (`CarriageReturn`) and the popup stack (`PopupManager`).

`Strings` and `Decimal` hold what they share. A method is proved against a function of its inputs or of the state
before it; what that function means is proved in lemmas. Strings are `seq<char>`, numbers are unbounded.

Given from outside, as parameters: url parsing, `toLowerCase`, the emoji map, how each request ends, the ids that
`uuid()` draws, the endpoints of github.com, and the selection, which is a predicate on absolute line indices. A server
is a fixed list. One event of the web request filters is one atomic step.

Where the code and its documentation disagree, the model follows the code:

- `fetchUpdatedPullRequests` is documented to return what was updated *on or after* `since`. It can lose pull requests
  updated at `since` sharp: it returns all of them exactly if no page ends between two that were updated at that time
  (`OnOrAfterIffNoTieIsCut`), and `TieIsCut` is an instance where one does. It is documented to throw when more than
  `maxResults` were updated: `ThrowsAsDocumentedIff` says for which lists that holds, and in `ThrowsTooEarly` it throws
  although 240 were.
- `currentPopup` is documented to return, when there is no error, the first popup that is none. It returns the last one:
  `CurrentIsFirstIff` says when that is the same, in `SecondPopupIsCurrent` it is not.
- `addPopup` is documented to add the popup it returns, unless there is one of its type. It may have dropped that
  popup at once: `ReturnedPopupIsOnStackIff` says exactly when it is on the stack, in `FullOfErrorsDropsNewPopup` it is
  not. A comment says that a stack that is too long loses its oldest popup. It loses the lowest one:
  `DroppedIsOldestIff` says when that is the same, in `OlderErrorStays` it is not.

Things that callers may not expect:

- Both copy the postimage start of a hunk from the diff. `PostimageStartIsRightIff` and
  `DiscardPostimageStartIsRightIff` say exactly when that is where the hunk's lines end up, `EmptiedRangeIsOff` and
  `SkewedStartIsOff` are instances where it is not; `Apply` therefore places hunks by their preimage range only.
- For a new file `formatPatch` drops unselected deletions. A diff from a file without lines has none
  (`NewFileHasNoDeletions`), so the commit theorems hold of new files too.
- When a wide summary is cut within a link, both parts lead to the text of the link. That is its url unless it is a
  mention (`CutLinkLeadsOnIff`): the parts of a mention lead to `@` and a name, not to the profile.

## Model

| member | source | states |
|---|---|---|
| UnifiedDiff.ApplyFollowsDiff | app/src/lib/patch-formatter.ts:113-128 | a diff from one file to another, applied as a patch to the first, gives the second |
| PatchFormatter.FormatPatch | app/src/lib/patch-formatter.ts:129-232 | the text is the file header and, in order, the emitted hunks with a selected change; without any it is the "no changes" error. The header names `/dev/null` as the old file if the file is new or untracked, and else the path, behind `a/`; the path behind `b/` is the new file |
| PatchFormatter.FormatPatchToDiscardChanges | app/src/lib/patch-formatter.ts:251-335 | the same for the discard patch, with the path on both sides, and nothing instead of an error |
| PatchFormatter.FormatCommitLine | app/src/lib/patch-formatter.ts:143-206 | one loop step adds the line in its role, its no-newline marker, both tallies and the change flag |
| PatchFormatter.FormatDiscardLine | app/src/lib/patch-formatter.ts:266-313 | the same with additions and deletions swapped and unselected additions as context |
| PatchFormatter.FormatHunkBody | app/src/lib/patch-formatter.ts:143-206 | the loop over a hunk's lines gathers every line once, in order |
| PatchFormatter.GatherHunk | app/src/lib/patch-formatter.ts:136-211 | what a hunk's loop gathers is its emitted body printed, the lengths of that body's two sides, and whether any of its changes is selected |
| PatchFormatter.PatchIsEmptyIff | app/src/lib/patch-formatter.ts:218-228 | there is nothing to print exactly if no addition and no deletion of any hunk is selected |
| PatchFormatter.EveryHunkChanges | app/src/lib/patch-formatter.ts:208-211 | no hunk is printed that has context lines only |
| PartialPatch.CommitSides | app/src/lib/patch-formatter.ts:153-206 | for every hunk, selection and status the emitted hunk shows the whole preimage and keeps just the selected additions and unselected deletions, unless the file is new and a deletion is unselected; exactly then it shows less |
| PartialPatch.DiscardSides | app/src/lib/patch-formatter.ts:276-313 | for every hunk and selection: the emitted hunk shows the whole postimage and keeps just what any opposite selection would commit |
| PartialPatch.CommitPatchCommits | app/src/lib/patch-formatter.ts:129-232 | for every diff, selection and status: the patch, applied to the old file, which has no lines if the file is new, gives the file in which exactly the selected changes happened |
| PartialPatch.DiscardPatchDiscards | app/src/lib/patch-formatter.ts:251-335 | for every diff and every discarded selection: the patch, applied to the new file, gives the file in which exactly the changes that are not discarded happened |
| PartialPatch.CommitDiscardDuality | app/src/lib/patch-formatter.ts:234-243 | for every status and any two opposite selections: committing one to the old file and discarding the other from the new one both succeed and give the same file, skipped hunks and empty patches included |
| PartialPatch.ChosenAll | app/src/lib/patch-formatter.ts:129-232 | with everything selected the committed file is the new file |
| PartialPatch.ChosenNone | app/src/lib/patch-formatter.ts:251-335 | with nothing selected, that is with everything discarded, the file is the old one |
| PartialPatch.NewFilePreimageCount | app/src/lib/patch-formatter.ts:172-182 | in a new file the emitted preimage count is the hunk's exactly if no deletion of the hunk is left unselected |
| PartialPatch.NewFileHasNoDeletions | app/src/lib/patch-formatter.ts:172-182 | a diff from a file without lines has no deletion, so in a new file none is ever dropped |
| PostimageStart.PostimageStartIsRightIff | app/src/lib/patch-formatter.ts:213-218 | for every status: the copied postimage start names the place of the hunk's lines in the resulting file exactly if the additions less the deletions left unselected in the hunks before make up for the shift of its own range: 1 if only the printed range is empty, -1 if only the diff's is, else 0 |
| PostimageStart.DiscardPostimageStartIsRightIff | app/src/lib/patch-formatter.ts:320-325 | the same of the discard patch, for every discarded selection: exactly if the additions less the deletions that stay in the hunks before are the shift of the hunk's own range |
| PostimageStart.EmptiedRangeIsOff | app/src/lib/patch-formatter.ts:213-218 | one line replaced and only its deletion selected: the single hunk of either patch names a place one line off |
| PostimageStart.SkewedStartIsOff | app/src/lib/patch-formatter.ts:320-325 | two lines added and the second committed, or discarded, alone: the start is one line off in both patches |
| DiffParsing.DiffParser.NextLine | app/src/lib/diff-parser.ts:107-126 | the cursor moves over exactly one physical line, answers whether it is non-empty, and stays put at the end |
| DiffParsing.DiffParser.ReadLine | app/src/lib/diff-parser.ts:133-135 | the next physical line is returned, or nothing for an empty line or the end |
| DiffParsing.DiffParser.Peek | app/src/lib/diff-parser.ts:152-155 | the first character of the next physical line, a newline if it is empty, nothing at the end, and the cursor stays |
| DiffParsing.DiffParser.ParseDiffHeader | app/src/lib/diff-parser.ts:174-190 | reads to the first `+++` line or binary marker, stops at an empty line or the end, and the text before the cursor is the lines read |
| DiffParsing.DiffParser.ParseHunk | app/src/lib/diff-parser.ts:292-385 | reads the hunk at the cursor, with every error case, and moves the cursor forward to the line behind it |
| DiffParsing.DiffParser.ParseBodyLines | app/src/lib/diff-parser.ts:312-370 | the loop reads all lines with a diff prefix, marks the line before a marker line, and each step advances the cursor |
| DiffParsing.DiffParser.AddBodyLine | app/src/lib/diff-parser.ts:314-369 | one line is pushed with its kind and the numbers of its sides, or, as a marker, marks the last line; a short marker is an error |
| DiffParsing.DiffParser.ParseHunks | app/src/lib/diff-parser.ts:426-435 | the loop reads hunks until the end of the diff and leaves the cursor at the end of the last line |
| DiffParsing.DiffParser.Parse | app/src/lib/diff-parser.ts:394-453 | header, contents, hunks and the binary flag are those of the text's physical lines, and the parser is reset on success and on error |
| DiffParsing.StartsWithinLine | app/src/lib/diff-parser.ts:138-140 | whether the text from the start of a line on begins with a prefix is decided by the line alone |
| DiffParsing.EndsWithinLine | app/src/lib/diff-parser.ts:143-145 | whether the text up to the end of a line ends with a suffix is decided by the line alone |
| DiffGrammar.BinaryDiffIff | app/src/lib/diff-parser.ts:174-190 | a diff is binary exactly if a line begins with "Binary files " and ends with "differ" and no line before it is empty or begins with `+++`; such a diff, and one without a `+++` line, is accepted, without hunks and contents |
| DiffGrammar.HeaderTextIs | app/src/lib/diff-parser.ts:398-410 | the header is the lines up to the one that ends the search, or all of them |
| DiffGrammar.HunkHeaderIff | app/src/lib/diff-parser.ts:217-258 | a line is read as a hunk header exactly if it is `@@ -a,b +c,d @@` with digits, a count being left out if it is 1, and anything behind; its numbers are those |
| DiffGrammar.AcceptedIff | app/src/lib/diff-parser.ts:292-435 | a diff is accepted exactly if it has no `+++` line or, behind it, every line is a hunk header with a line of its hunk behind it or a line of a hunk, markers being at least 12 characters long, and the first is a header |
| DiffGrammar.FlaggedIffMarkerBehind | app/src/lib/diff-parser.ts:321-338 | a line is flagged to end its file without a newline exactly if the physical line behind it begins with a backslash, whatever its text |
| DiffGrammar.HeaderLineIsFirst | app/src/lib/diff-parser.ts:298-304 | a hunk begins with its header line, numbered 1, and has the numbers of that line |
| ParsedDiff.ParsedDiffIsGood | app/src/lib/diff-parser.ts:306-384 | in every accepted diff the hunks' index ranges follow one another from 0, every line's old and new number is the header's start plus the lines before it on that side, and texts are prefixed and newline-free |
| ParsedDiff.OriginalNumbersFindLines | app/src/lib/diff-parser.ts:311-369 | a line's original number counts the physical lines of its hunk, markers included, so it finds the line's text in the diff |
| DiffContents.ContentsAreTexts | app/src/lib/diff-parser.ts:437-443 | the contents split at newlines are the texts of the lines in index order exactly if every marker line behind the header is git's standard one |
| DiffContents.RemoveMarkers | app/src/lib/diff-parser.ts:437-443 | removing the marker wherever it follows a newline leaves the other lines exactly if every line that begins with a backslash is the marker |
| DiffRoundTrip.HunkHeaderRoundTrip | app/src/lib/patch-formatter.ts:86-111 | every printed hunk header, with any heading and with omitted counts of 1, is parsed as itself |
| DiffRoundTrip.HunkHeaderIsShort | app/src/lib/patch-formatter.ts:86-111 | a count is printed exactly if it is not 1, and a heading comes last, behind a space |
| DiffRoundTrip.PrintedPatchParses | app/src/lib/diff-parser.ts:394-453 | every printed patch is parsed back: same hunk headers, same lines and flags, a file header that names the two files or `/dev/null`, numbers restarted from the headers, indices from 0 |
| DiffRoundTrip.EmitPatchIsWellFormed | app/src/lib/patch-formatter.ts:143-206 | what either formatter emits from printable hunks has no empty hunk, and each of its lines is newline-free and begins with the prefix of its role |
| DiffRoundTrip.PrintedCommitPatchCommits | app/src/lib/patch-formatter.ts:129-232 | from text to file: the printed commit patch is parsed back as emitted, with a header that names no old file exactly if the file is new or untracked, and makes exactly the selected changes happen |
| DiffRoundTrip.PrintedDiscardPatchDiscards | app/src/lib/patch-formatter.ts:251-335 | the same of the printed discard patch of any selection, applied to the new file: exactly the changes that are not discarded have happened |
| DiffRoundTrip.ParsedDiffIsCommitted | app/src/lib/diff-parser.ts:394-453 | from text to text to file: parse any accepted diff, print its commit patch, parse that and apply it to the old file, and exactly the selected changes have happened |
| DiffRoundTrip.ParsedDiffIsDiscarded | app/src/lib/diff-parser.ts:394-453 | the same of its discard patch, of any selection, and the new file |
| Decimal.ValueOfNumeral | app/src/lib/diff-parser.ts:217-225 | a printed number is read back wherever it stands |
| Decimal.NumeralIsCanonical | app/src/lib/patch-formatter.ts:86-111 | no printed number but 0 begins with a 0 |
| Decimal.DigitsAreNumeral | app/src/lib/diff-parser.ts:217-225 | any digits are read as the number whose numeral they are, but for zeros before it |
| Pagination.RewriteKeepsPlace | app/src/lib/api.ts:648-672 | a rewritten (page, size) starts at exactly the item the link it replaces starts at |
| Pagination.RewriteIff | app/src/lib/api.ts:636-672 | the page after is one of twice the size, at most 100, exactly if that is another size and what was received is a multiple of it; otherwise, and when a number is missing or 0, the link is followed as it is |
| Pagination.FixedPages | app/src/lib/api.ts:1585-1587 | without growth the requests are for pages 1, 2, 3 and so on of one size |
| Pagination.RequestsAreSeamless | app/src/lib/api.ts:1572-1588 | each request of a run starts where the one before ended, so nothing is skipped and nothing repeated |
| Pagination.FetchAll | app/src/lib/api.ts:1565-1591 | concatenating the served pages gives a prefix of the list at every step, and the run ends as specified at the last page, a failure, a stop or a throw; the unread rest shrinks |
| Pagination.ResultIsPrefix | app/src/lib/api.ts:1565-1591 | whatever fails or stops the run, what it returns is a prefix of the list |
| Pagination.RunIsCompleteIff | app/src/lib/api.ts:1565-1591 | a run returns the whole list exactly if each request the list is long enough for is answered with its page and the callback goes on at each buffer before the last; for an empty list exactly if its one request is, or if its response is not ok and that is suppressed |
| Pagination.RunEndsAt | app/src/lib/api.ts:1565-1591 | how a run ends at any request when all before it went well: a suppressed response that is not ok leaves the items of the pages before, a last page or a stop those of this page too, and anything else is its error |
| Pagination.SizesOfRun | app/src/lib/api.ts:658-666 | from a size of 1 to 100 the page size never shrinks and never passes 100 |
| Pagination.RampUp | app/src/lib/api.ts:602-624 | request r >= 2 is page 2 of size p*2^(r-2) and leaves p*2^(r-1) items retrieved, while that size is at most 100 |
| Pagination.DocumentedRamp | app/src/lib/api.ts:608-620 | the documented table for an initial size of 10, all nine rows |
| UpdatedPullRequests.FetchUpdatedPullRequests | app/src/lib/api.ts:1074-1128 | the run with page size 10, growing pages and the callback, then the filter on `since`; errors pass through |
| UpdatedPullRequests.UpdatedAfterSinceAreReturned | app/src/lib/api.ts:1093-1123 | on a list sorted newest first a run that returns gives everything updated strictly after `since`, nothing before it, in order and once |
| UpdatedPullRequests.OnOrAfterIffNoTieIsCut | app/src/lib/api.ts:1054-1064 | it gives everything updated on or after `since`, as documented, exactly if no page of any request ends between two items updated at `since` sharp |
| UpdatedPullRequests.TieIsCut | app/src/lib/api.ts:1054-1064 | of eleven pull requests updated at `since` sharp ten are returned |
| UpdatedPullRequests.ThrowsIffAtLimit | app/src/lib/api.ts:1066-1110 | for every limit there is a first page that reaches it, and it throws the limit error exactly if no request up to that page goes wrong, the list goes on behind the page and the item before it is newer than `since` |
| UpdatedPullRequests.ThrowsIff | app/src/lib/api.ts:1066-1083 | with the default limit it throws the limit error exactly if the list is longer than 320, its 240th item is newer than `since` and none of the first seven requests goes wrong |
| UpdatedPullRequests.ThrowsAsDocumentedIff | app/src/lib/api.ts:1066-1083 | while the first seven requests go well it throws exactly if more than 320 were updated on or after `since`, as documented, unless `since` lies between the 240th and the 321st item or both were updated at `since` sharp |
| UpdatedPullRequests.ThrowsTooEarly | app/src/lib/api.ts:1066-1083 | it throws for a list of 321 of which 240 were updated |
| AppMenus.BuildIdMap | app/src/models/app-menu.ts:295-307 | the map filled by loop and recursion is the fold over items and submenus |
| AppMenus.AddItemsIsPreOrder | app/src/models/app-menu.ts:295-307 | that fold is a pre-order walk in which the last item with an id wins |
| AppMenus.IdMapIsTree | app/src/models/app-menu.ts:291-307 | with unique ids the map holds just the items of the tree, each under its id |
| AppMenus.PathHasDistinctIds | app/src/models/app-menu.ts:378-405 | no two menus on a path from the root have the same id, and there are at most as many as the tree is high |
| AppMenus.HighestPath | app/src/models/app-menu.ts:378-405 | in every tree as many menus can be open as it is high, so that bound is reached |
| AppMenuState.AppMenu.WithMenu | app/src/models/app-menu.ts:416-457 | the loop reopens the counterparts of the open menus up to the first that has none |
| AppMenuState.AppMenu.WithSelectedItem | app/src/models/app-menu.ts:570-615 | the two loops give the whole new chain: path above, selection, cleared below |
| AppMenuState.AppMenu.WithDeselectedMenu | app/src/models/app-menu.ts:630-659 | the loop gives the whole new chain: path above, cleared menu, rest unchanged |
| AppMenuState.FromMenu | app/src/models/app-menu.ts:378-383 | only the root menu is open and the map is the tree's |
| AppMenuRuns.EveryRunKeepsPath | app/src/models/app-menu.ts:472-668 | after every run the open menus are a path from the root through owning submenu items, with distinct ids and no more of them than the tree is high |
| AppMenuRuns.OpeningOpensBelowOwner | app/src/models/app-menu.ts:472-509 | opening closes everything below the item's menu and puts the item's menu there, with the first selectable item selected if asked |
| AppMenuRuns.FindSelectableIs | app/src/models/app-menu.ts:326-328 | the item selected first is the first one that is no separator, enabled and visible, if there is one |
| AppMenuRuns.ClosedMenuIsNotOpen | app/src/models/app-menu.ts:518-533 | a closed menu is nowhere open, what was above it still is, and nothing else changes |
| AppMenuRuns.LastMenuIsLast | app/src/models/app-menu.ts:543-553 | the menu becomes the last one if it was open, and otherwise nothing changes |
| AppMenuRuns.ResetLeavesRoot | app/src/models/app-menu.ts:661-668 | after a reset only the root menu is open, nothing is selected, and tree and map are the same |
| AppMenuRuns.UnknownItemIsIgnored | app/src/models/app-menu.ts:476-480 | opening or selecting an item that the tree does not have changes nothing |
| AppMenuRuns.WrongItemIsAnError | app/src/models/app-menu.ts:482-486 | opening an item is an error exactly if the tree's item with its id has no menu |
| AppMenuRuns.ItemOfClosedMenuIsIgnored | app/src/models/app-menu.ts:488-496 | opening or selecting an item that is in no open menu changes nothing |
| AppMenuRuns.MenuNotOpenIsIgnored | app/src/models/app-menu.ts:524-528 | closing, trimming to or clearing a menu that is not open changes nothing |
| AppMenuRuns.RootIsNotClosed | app/src/models/app-menu.ts:519-522 | closing the root menu changes nothing |
| AppMenuRuns.TreeIsKept | app/src/models/app-menu.ts:472-668 | only merging changes the tree, and the map is always the tree's |
| AppMenuRuns.SelectedItemHasPath | app/src/models/app-menu.ts:570-615 | the item's menu selects it, each menu above selects the owner of the next, never nothing, and each menu below selects nothing |
| AppMenuRuns.DeselectedMenuHasPath | app/src/models/app-menu.ts:630-659 | the same path leads to the cleared menu, and menus below stay as they are |
| AppMenuRuns.MergeKeepsPrefix | app/src/models/app-menu.ts:416-457 | merging keeps a prefix of the open menus by their ids |
| AppMenuRuns.SurvivorIs | app/src/models/app-menu.ts:416-457 | just the open menus that the new tree has, together with all above them, are reopened, with the items the new tree has there |
| AppMenuRuns.MergeKeepsSelection | app/src/models/app-menu.ts:441-453 | a merged menu selects the new tree's item with the id that was selected, and nothing exactly if there is none |
| AppMenuRuns.MergeIsIdempotent | app/src/models/app-menu.ts:416-457 | merging the same menu twice is merging it once |
| AppMenuRuns.MergeIsValidIff | app/src/models/app-menu.ts:416-457 | merging keeps the path invariant exactly if, for every open menu that has a counterpart in the new tree together with all above it, its item is among the items of the counterpart of the menu before |
| AppMenuRuns.MovedMenuLeavesPath | app/src/models/app-menu.ts:416-457 | a menu that the new tree has moved up to the root stays open below one that no longer owns it |
| AppMenuRuns.EveryRunSelectsOwnItems | app/src/models/app-menu.ts:472-668 | after every run each open menu selects nothing or one of its own items |
| AppMenuRuns.MergeSelectsOwnIff | app/src/models/app-menu.ts:441-453 | merging leaves each open menu with nothing or one of its own items selected exactly if, for each menu that survives, the new item with the selected id, if there is one, is among the menu's new items |
| AppMenuRuns.MovedItemLeavesMenu | app/src/models/app-menu.ts:441-453 | a menu keeps an item selected that the new tree has moved up to the root |
| TextTokenParser.EndOfWordIsWordEnd | app/src/lib/text-token-parser.ts:89-109 | the end of a word is the first space or newline behind its first character, or the end of the text |
| TextTokenParser.Tokenizer.Flush | app/src/lib/text-token-parser.ts:80-85 | pending text becomes one text token, none if there is no pending text |
| TextTokenParser.Tokenizer.ScanForEmoji | app/src/lib/text-token-parser.ts:111-126 | matches just a known emoji word, flushes before it, and changes nothing otherwise |
| TextTokenParser.Tokenizer.ScanForIssue | app/src/lib/text-token-parser.ts:128-168 | the same for an issue, without a closing parenthesis, full stop and comma behind it |
| TextTokenParser.Tokenizer.ScanForMention | app/src/lib/text-token-parser.ts:170-200 | the same for a mention that does not continue a word |
| TextTokenParser.Tokenizer.ScanForHyperlink | app/src/lib/text-token-parser.ts:202-245 | the same for a hyperlink, shortened if it leads to an issue of the repository |
| TextTokenParser.Tokenizer.TokenizeText | app/src/lib/text-token-parser.ts:336-344 | the loop yields the specified tokens, whatever the tokenizer was used for before, and every step moves forward |
| TextTokenParser.MatchAdvances | app/src/lib/text-token-parser.ts:247-259 | every successful scan moves forward and stays within the text |
| TextTokenParser.TokenizingIsLossless | app/src/lib/text-token-parser.ts:261-328 | the pieces of text the tokens were made of, in order, are the text |
| TextTokenParser.TokensAreWellFormed | app/src/lib/text-token-parser.ts:80-328 | each token shows its piece, or as a scanned hyperlink has it as url; no token is empty and no two text tokens are adjacent |
| TextTokenParser.LinksAreNoPartOfWords | app/src/lib/text-token-parser.ts:175-180 | every mention and every hyperlink found starts the text or follows whitespace, also behind other tokens |
| TokenLayout.MatchIff | app/src/lib/text-token-parser.ts:111-245 | at each index a token is found exactly if a known emoji, an issue, a mention or a hyperlink stands there, up to the end of its word without what is stripped, and it has the path or url of that |
| TokenLayout.TokensAreAllThatStand | app/src/lib/text-token-parser.ts:261-344 | the tokens of a text are those of its only layout: every token but a text is one that stands at its index, no text holds an index at which one stands, and no two texts are adjacent |
| WrapCommitMessage.WrapRichTextCommitMessage | app/src/lib/wrap-rich-text-commit-message.ts:34-107 | summary and body are those of the two trimmed, tokenized texts |
| WrapCommitMessage.SplitTokens | app/src/lib/wrap-rich-text-commit-message.ts:47-92 | the loop gives the specified summary and overflow tokens |
| WrapCommitMessage.TrimRightIff | app/src/lib/wrap-rich-text-commit-message.ts:42 | a trimmed text is the text without the whitespace at its end |
| WrapCommitMessage.SplitIsExact | app/src/lib/wrap-rich-text-commit-message.ts:45-92 | summary text followed by overflow text is the text of the tokens, the summary is no wider than the non-negative maximum, and something overflows exactly if the tokens are wider |
| WrapCommitMessage.SplitFillsRoom | app/src/lib/wrap-rich-text-commit-message.ts:53-91 | when something overflows, the summary fills the room or the first thing to overflow is an emoji or link that is never cut and does not fit |
| WrapCommitMessage.SplitCutsAt | app/src/lib/wrap-rich-text-commit-message.ts:45-92 | the summary is the tokens that fit and, if it is a text or a link that is none to an issue with more than 5 characters of room, the front of the next one; the overflow is the rest of it and all behind |
| WrapCommitMessage.CutLinkLeadsOnIff | app/src/lib/wrap-rich-text-commit-message.ts:75-86 | the parts of a link that is cut lead where the link leads exactly if it is no mention |
| WrapCommitMessage.NarrowSummaryIsKept | app/src/lib/wrap-rich-text-commit-message.ts:96-106 | a summary that is not too wide is kept, with its body and without an ellipsis |
| WrapCommitMessage.WideSummaryIsWrapped | app/src/lib/wrap-rich-text-commit-message.ts:96-106 | a summary that is too wide ends with an ellipsis; ellipses removed, summary and overflow show its text; the body follows behind a blank line |
| WrapCommitMessage.CommitMessageIsWrapped | app/src/lib/wrap-rich-text-commit-message.ts:34-107 | for all texts and widths: of the texts without whitespace at their ends summary and body are kept if the tokenized summary is not too wide, and otherwise wrapped with its text conserved, cut at the token where the room ends, both ellipses and the body behind a blank line |
| OrderedWebRequest.CallInOrder | app/src/main-process/ordered-webrequest.ts:160-186 | each filter sees the details the one before left, a cancelled request stops them |
| OrderedWebRequest.CancelKeepsDetails | app/src/main-process/ordered-webrequest.ts:165-186 | a listener that cancels ends the run with the details it was called with: its own response is lost and later listeners are not called |
| OrderedWebRequest.LastListenerDecides | app/src/main-process/ordered-webrequest.ts:165-186 | of any listeners none of which cancels the last is called with what those before it left, and its headers replace theirs unless it cancels |
| OrderedWebRequest.SeveralValuesAreJoined | app/src/main-process/ordered-webrequest.ts:237-241 | every header is passed on, one with several values as one text from which they can be read |
| OrderedWebRequest.ListenerSet.AddEventListener | app/src/main-process/ordered-webrequest.ts:73-82 | a listener is added once, at the end, and the set is subscribed while it is not empty |
| OrderedWebRequest.ListenerSet.RemoveEventListener | app/src/main-process/ordered-webrequest.ts:84-89 | just that listener goes, the others keep their order, and an empty set is unsubscribed |
| OrderedWebRequest.WithoutIs | app/src/main-process/ordered-webrequest.ts:84-89 | of distinct listeners just the one goes, and those before and behind it keep their order |
| RequestFilters.SanitizeHeaders | app/src/main-process/same-origin-filter.ts:60-66 | the loop keeps exactly the headers whose lower-cased name is not unsafe |
| RequestFilters.PipelineIs | app/src/main-process/main.ts:309-322 | the three filters in order sanitize, then override the origin, then add the token |
| RequestFilters.InstalledFilters.OnBeforeSendHeaders | app/src/main-process/ordered-webrequest.ts:160-186 | a request is sent with those headers and no state changes |
| RequestFilters.InstalledFilters.OnBeforeRequest | app/src/main-process/same-origin-filter.ts:40-52 | records the origin of an id not recorded yet, unless the protocol is safe |
| RequestFilters.InstalledFilters.OnCompleted | app/src/main-process/same-origin-filter.ts:74-76 | forgets the id |
| RequestFilters.InstalledFilters.UpdateAccounts | app/src/main-process/authenticated-image-filter.ts:46-59 | replaces the token table |
| RequestFilters.RecordedOriginIsInitial | app/src/main-process/same-origin-filter.ts:36-76 | in every run what is recorded for an id is the origin of its first recorded request since its last completion |
| RequestFilters.CrossOriginHeaders | app/src/main-process/same-origin-filter.ts:54-72 | in every run, on a request to another origin than the initial one: no authentication or cookie header, no authorization header but the token that the last update has for the current origin, and that just on the path of an avatar or asset; the origin override just on a secure socket of github.com or a host below it; all other headers as they are |
| RequestFilters.SameOriginHeaders | app/src/main-process/same-origin-filter.ts:54-60 | on any other request every header is passed on but for those two overrides |
| RequestFilters.TokenTableServes | app/src/main-process/authenticated-image-filter.ts:46-59 | each origin has the token of its last account, and github.com that of its api if there is one |
| RequestFilters.TokensAreLatest | app/src/main-process/authenticated-image-filter.ts:46-59 | in every run the token table serves the accounts of the last update, and none before the first |
| RequestFilters.AssetPathIff | app/src/main-process/authenticated-image-filter.ts:9-12 | a path is that of an asset exactly if it is `/a/b/assets/c/d`, with non-empty pieces and a slash behind it or not |
| RequestFilters.SocketIff | app/src/main-process/alive-origin-filter.ts:8-21 | the origin is overridden exactly for `wss:` and github.com or a host that ends with `.github.com` |
| StatusParser.ParsePorcelainStatus | app/src/lib/status-parser.ts:51-96 | the index loop reads the tokens in order, each once but for old paths, and fails at the first bad one |
| StatusParser.ParseToken | app/src/lib/status-parser.ts:71-92 | one token is a header, an entry, an error or passed over, and a rename takes the next token as its old path |
| StatusRoundTrip.EntryIsRead | app/src/lib/status-parser.ts:98-163 | every entry field git can print is read with its codes and its path, whatever the path holds |
| StatusRoundTrip.AcceptsJustWhatIsPrinted | app/src/lib/status-parser.ts:97-163 | an entry field is read as an item exactly if git can print it with those codes and that path: codes, modes, hashes, score and path of the right form and number, each character class spelled out |
| StatusRoundTrip.TokenIff | app/src/lib/status-parser.ts:71-92 | any token is read exactly as what it means: a header, an entry of its kind, a rename with the non-empty token behind it, an untracked path, or nothing; any other token is an error |
| StatusRoundTrip.StatusRoundTrips | app/src/lib/status-parser.ts:51-177 | serializing any list of headers and entries with NUL-free paths and parsing it gives the list back; an old path is never read as an entry |
| CarriageReturn.ParsedIsShown | app/src/lib/parse-carriage-return.ts:20-38 | for every text the result is what a terminal shows that is fed character by character |
| CarriageReturn.FastPathAgrees | app/src/lib/parse-carriage-return.ts:21-25 | without carriage returns the fold gives the text itself |
| PopupManager.PopupManager.AddPopup | app/src/lib/popup-manager.ts:91-112 | the new stack and the popup returned, for errors, existing kinds and new ones |
| PopupManager.PopupManager.InsertBeforeErrorPopups | app/src/lib/popup-manager.ts:115-126 | a non-error popup goes above the other non-errors and below all errors |
| PopupManager.PopupManager.AddErrorPopup | app/src/lib/popup-manager.ts:131-136 | an error goes on top, and the lowest popup goes if there are too many |
| PopupManager.PopupManager.UpdatePopup | app/src/lib/popup-manager.ts:164-181 | the first popup with that id is replaced in place, otherwise nothing changes |
| PopupManager.PopupManager.RemovePopup | app/src/lib/popup-manager.ts:186-192 | all popups with that id go, the others stay in order |
| PopupManager.EveryRunIsOrdered | app/src/lib/popup-manager.ts:91-206 | in every reachable state non-errors come before errors, no two non-errors have the same kind, each group is in the order of addition, and the limit is kept |
| PopupManager.AddingIs | app/src/lib/popup-manager.ts:91-158 | what an addition leaves: an error on top, another popup above the other non-errors and below the errors if there is none of its kind, and all others as they were, but for the lowest if there are too many |
| PopupManager.UpdatingIs | app/src/lib/popup-manager.ts:164-181 | an update replaces the first popup with that id where it stands, and does nothing without one |
| PopupManager.RemovingIs | app/src/lib/popup-manager.ts:186-206 | each removal takes just the popups with that id or type, and all others keep their order |
| PopupManager.CurrentPopupIsNewest | app/src/lib/popup-manager.ts:43-52 | while an error remains the current popup is the remaining error added last, otherwise the remaining popup added last; there is one while the stack is not empty |
| PopupManager.CurrentIsFirstIff | app/src/lib/popup-manager.ts:43-52 | without errors the current popup is the first one, as documented, exactly if there is at most one |
| PopupManager.SecondPopupIsCurrent | app/src/lib/popup-manager.ts:43-52 | of two popups added the second is the current one |
| PopupManager.ReturnedPopupIsOnStackIff | app/src/lib/popup-manager.ts:85-158 | in every reachable state the popup that an addition returns is on the stack exactly if it is an error and the limit is not 0, or it is the first of its kind and the stack is not full of errors |
| PopupManager.DroppedIsOldestIff | app/src/lib/popup-manager.ts:138-158 | what an addition to a reachable stack drops is no error while another popup stays and was added before all that stay in its group; it is the oldest of all exactly if no error stays or it was added before the lowest of them |
| PopupManager.OlderErrorStays | app/src/lib/popup-manager.ts:138-158 | with room for two, of an error and two later popups the second one is dropped and the older error stays |
| PopupManager.FullOfErrorsDropsNewPopup | app/src/lib/popup-manager.ts:115-158 | a new non-error popup is dropped at once when the stack is full of errors |

## Left out

- PartialPatch.CommitPatchCommits: a file with status New or Untracked is taken to have no lines before, as the diff that git prints for it says.
- DiffRoundTrip.PrintedPatchParses: for paths and lines without a newline, which is what git prints; a path with a newline would end the header line.
- AppMenuRuns.EveryRunKeepsPath: ids are assumed unique and not empty, and nothing selected in a new tree, as the conversion from Electron menus makes them; a run may merge new menus only if they keep the owners of the open ones.
- AppMenuRuns.EveryRunSelectsOwnItems: a run may merge new menus only if, besides, they keep selected items within the open menus.
- PopupManager.EveryRunIsOrdered: additions carry no id of their own, drawn ids differ, and updates keep the kind of the popup they replace.
- Numbers beyond 2^53, at which `parseInt` and counters lose precision: numbers are exact here.
- UTF-16: a string is a list of characters here, so an offset inside a surrogate pair does not occur.
- Bytes at the end of a file: whether a newline ends a line is part of the line, and files are compared as lists of lines.
- Git's fuzzy placement of hunks: a hunk stands where its preimage range says, or the patch fails.
- `models/diff` is not part of this model: lines, hunks and headers are taken from their uses.
- The hunk expansion type, the largest line number and the bidirectional character check of a parsed diff.
- The order of keys in a header object, and header names that are special to JavaScript objects.
- `fetchAll`: the `onPage` callback, a page whose body is null, and reading Link headers.
- The menu items' labels, access keys, accelerators and check marks, and the conversion from Electron menus.
- The `onBeforeRequest` and `onHeadersReceived` folds of `OrderedWebRequest`: they add the same pattern again.
- A malformed url or endpoint, at which the filters throw.
- `mapStatus` and the error texts of the status parser.
- The warning and the report that the popup manager logs.
- React components, dialogs, IPC, storage, git itself and the build scripts.
