# LinkedIn Finder keyword highlighter, modelled in Dafny

The browser extension lets a user keep groups of keywords. It highlights
every occurrence of those keywords on the LinkedIn pages the user visits.
This project models the two parts that hold the logic:

- **`HighlightService`**: the content-script service.
  - It escapes each keyword and joins them into one case-insensitive,
    word-bounded alternation.
  - It walks the page's text nodes, skipping those under `script`, `style`
    and `noscript` and those inside an existing highlight.
  - It replaces each text node that matches with plain-text pieces and
    `<span class="linkedin-finder-highlight">` elements.
  - It can clear all highlights again.
  - It reacts to the initial storage load, to keyword changes in
    `chrome.storage`, and to mutation batches. Mutation batches are
    debounced with a 500 ms timer.
- **The keyword-group store**: the zustand store behind the popup. Its
  four actions add or remove a group, and add or remove a keyword in a
  group.

How the model is built:

- The page is a value tree (`Dom.Node`: element with tag, class set and
  children, or text).
- A node is addressed by its path of child indices.
- The regular expression is an explicit scanner (`KeywordMatch.Scan`) that
  returns a list of pieces: unmatched text, or matched text.
- Timers, the observer and storage are explicit events on the
  `Service.HighlightService` class.

Modules:

| file | module | what |
|---|---|---|
| wrappers.dfy | Wrappers | `Option` |
| ascii.dfy | Ascii | `\w` characters, `trim`, ASCII `toLowerCase` |
| regex_escape.dfy | RegexEscape | `escapeRegex`, the joined pattern and its inverse |
| keyword_match.dfy | KeywordMatch | `\b(k1\|…\|kn)\b` with flags `gi`, as a scanner |
| dom.dfy | Dom | nodes, `textContent`, `normalize()` |
| walker.dfy | Walker | `getTextNodes` and its filter |
| highlight.dfy | Highlight | `highlightInTextNode` and one whole scan |
| clear.dfy | Clear | `clearHighlights` |
| service.dfy | Service | the `HighlightService` class and its events |
| keyword_store.dfy | KeywordStore | the group store |

## Model

| member | source | states |
|---|---|---|
| Ascii.IsWordChar | src/services/highlightService.ts:167 | `\w` without the `u` flag: ASCII letters, digits and `_`; a `\b` lies where this differs on its two sides |
| Ascii.IsTrimSpace | src/store/keywords.store.ts:55 | the ECMAScript white-space and line-terminator characters that `trim` removes |
| Ascii.LowerChar | src/services/highlightService.ts:167 | lower-casing maps each of `A`–`Z` to the letter at the same place in `a`–`z`, leaves every other character alone, and never turns a word character into a non-word one or back |
| Ascii.Lower | src/store/keywords.store.ts:30 | `toLowerCase` keeps the length and lower-cases character by character |
| Ascii.SkipSpace | src/store/keywords.store.ts:55 | scanning forward from an index stops at the first character that is not white space, having passed only white space |
| Ascii.SkipSpaceBack | src/store/keywords.store.ts:55 | scanning back from an index stops just after the last character that is not white space, having passed only white space |
| Ascii.Trim | src/store/keywords.store.ts:55 | `trim` returns a slice of its input; only white space is cut on either side; the result neither starts nor ends with white space |
| Ascii.TrimIdempotent | src/store/keywords.store.ts:66 | trimming an already trimmed keyword (the second `trim()` in `addKeywordToGroup`) changes nothing |
| Ascii.EqualsIgnoreCaseKeepsWordChars | src/services/highlightService.ts:167 | two strings equal ignoring case have word characters at the same positions, so the `i` flag never moves a `\b` |
| RegexEscape.IsSpecial | src/services/highlightService.ts:195 | the fourteen characters of the class that `escapeRegex` puts a backslash in front of |
| RegexEscape.Escape | src/services/highlightService.ts:194-196 | escaping never shortens its input |
| RegexEscape.UnescapeEscape | src/services/highlightService.ts:194-196 | removing the inserted backslashes gives back the keyword |
| RegexEscape.EscapeInjective | src/services/highlightService.ts:194-196 | two different keywords never escape to the same text |
| RegexEscape.EscapeLength | src/services/highlightService.ts:194-196 | the output is as long as the input plus the number of special characters in it |
| RegexEscape.EscapeIsLiteral | src/services/highlightService.ts:194-196 | in an escaped keyword every special character is preceded by a backslash, so each alternative matches only its own text |
| RegexEscape.EscapeAll | src/services/highlightService.ts:161-162 | the `map` escapes each keyword in place |
| RegexEscape.Join | src/services/highlightService.ts:161-163 | `join('|')`: the strings in order, with one bar between neighbours |
| RegexEscape.Pattern | src/services/highlightService.ts:161-163 | the escaped keywords joined by bars: the alternation placed inside `\b(...)\b` |
| RegexEscape.PatternEmptyIff | src/services/highlightService.ts:161-165 | the joined pattern is empty exactly when the keyword list is empty or is one empty keyword; that is the `if (!keywordPattern) return` case |
| RegexEscape.SplitPattern | src/services/highlightService.ts:161-163 | splitting the joined pattern at its unescaped bars gives back the escaped keywords |
| RegexEscape.PatternRoundTrip | src/services/highlightService.ts:161-163 | the joined pattern determines the keyword list: splitting and unescaping it gives the list back |
| KeywordMatch.FirstMatchFrom | src/services/highlightService.ts:167 | the alternative tried from keyword `j` on is one of the keywords from `j` on, and fits in the rest of the text |
| KeywordMatch.FirstMatchFromIs | src/services/highlightService.ts:167 | tried from keyword `j` on, the result is the first keyword that matches here, none before it does, and none is found only when none matches |
| KeywordMatch.FirstMatch | src/services/highlightService.ts:167 | the alternative taken is one of the keywords and fits in the rest of the text |
| KeywordMatch.FirstMatchIs | src/services/highlightService.ts:167 | at a position, the engine takes the first keyword in list order that matches with a word boundary on both sides; if none does, no keyword matches there |
| KeywordMatch.SoundCons | src/services/highlightService.ts:169-172 | a correct piece followed by a correct rest is a correct scan |
| KeywordMatch.SoundMark | src/services/highlightService.ts:169-172 | the text of the chosen keyword, followed by a correct rest, is a correct scan |
| KeywordMatch.SoundPlainBefore | src/services/highlightService.ts:169-172 | text in which no keyword matches, followed by a correct rest that starts with a match, is a correct scan |
| KeywordMatch.ScanFrom | src/services/highlightService.ts:169-172 | the global replace from position `i`, with `t[start..i]` unmatched text not yet emitted: where a keyword matches, the text so far and the match are emitted and the scan resumes after the match; elsewhere it moves one character on |
| KeywordMatch.Scan | src/services/highlightService.ts:169-172 | the replace over a whole text node, as plain and matched pieces; `ScanSound` and `SoundUnique` pin its result |
| KeywordMatch.ScanFromSound | src/services/highlightService.ts:169-172 | the global replace meets the reference definition `Sound`: leftmost, non-overlapping, resuming after each match, ordered alternation |
| KeywordMatch.ScanSound | src/services/highlightService.ts:169-172 | the same, for a whole text |
| KeywordMatch.SoundUnique | src/services/highlightService.ts:169-172 | only one piece list meets the reference definition, so the scan is the only possible result |
| KeywordMatch.SoundHead | src/services/highlightService.ts:169-172 | a piece is unmatched text exactly when no keyword matches where it starts; such text runs up to the next match |
| KeywordMatch.ScanText | src/services/highlightService.ts:169-172 | the pieces put back together give the original text content |
| KeywordMatch.ScanPiecesNonEmpty | src/services/highlightService.ts:169-172 | no piece is empty |
| KeywordMatch.ScanHasMarkIff | src/services/highlightService.ts:169-174 | `hasMatch` is set exactly when some keyword matches somewhere in the text |
| KeywordMatch.ScanNoKeywords | src/services/highlightService.ts:101 | with no keywords nothing is ever marked |
| KeywordMatch.MatchInSlice | src/services/highlightService.ts:167 | a match inside a stretch of text whose ends are word boundaries is a match of the whole text |
| KeywordMatch.MarkBoundaries | src/services/highlightService.ts:167 | a highlight starts and ends at a word boundary |
| KeywordMatch.PlainSliceNoMatch | src/services/highlightService.ts:169-184 | text between two word boundaries in which no keyword matches still has no match once cut out as a text node of its own |
| KeywordMatch.ScanPlainNoMatch | src/services/highlightService.ts:169-184 | every unmatched piece, scanned again as a text node of its own, holds no match |
| KeywordMatch.WordBoundaryExamples | src/services/highlightService.ts:167 | "cat" does not match inside "category", but does match in "Cat," and "CAT" |
| KeywordMatch.EngineerMatches | src/services/highlightService.ts:167 | in "Senior Engineer at Acme", keyword "Engineer" matches at position 7 and nowhere else |
| KeywordMatch.EngineerScenario | src/services/highlightService.ts:169-172 | keyword "Engineer" in "Senior Engineer at Acme" gives exactly one highlight, around "Engineer" |
| Dom.ExcludedTag | src/services/highlightService.ts:127-128 | the parent's tag, lower-cased, is `script`, `style` or `noscript` |
| Dom.Content | src/services/highlightService.ts:207 | `textContent`: a text node's data, or the text of an element's subtree in document order |
| Dom.Span | src/services/highlightService.ts:171 | the inserted element carries the highlight class and holds the matched text only |
| Dom.ContentListReplace | src/services/highlightService.ts:181-184 | replacing a child by nodes with the same text keeps the parent's text content |
| Dom.Merge | src/services/highlightService.ts:208 | one child list with adjacent text nodes merged and empty text nodes dropped |
| Dom.Normalize | src/services/highlightService.ts:208 | `normalize()`: every child list of the subtree merged, bottom up |
| Dom.MergeNormal | src/services/highlightService.ts:208 | after merging, a child list has no empty text node and no two adjacent text nodes, and it adds no element |
| Dom.MergeContent | src/services/highlightService.ts:208 | merging keeps the text content |
| Dom.NormalizeContent | src/services/highlightService.ts:208 | `normalize()` keeps the text content |
| Dom.NormalizeIsNormal | src/services/highlightService.ts:208 | after `normalize()` the whole subtree is normal |
| Dom.NormalFixed | src/services/highlightService.ts:208 | `normalize()` leaves a normal subtree as it is |
| Walker.Occurrences | src/services/highlightService.ts:116-121 | the text nodes below the root in document order (`SHOW_TEXT`), each with its path, its parent's tag, and whether a highlight element is at or above its parent |
| Walker.Accept | src/services/highlightService.ts:122-137 | `acceptNode` accepts a text node exactly when its parent's tag is not excluded and `closest` finds no highlight |
| Walker.Accepted | src/services/highlightService.ts:141-143 | the paths of the accepted text nodes, in walk order |
| Walker.GetTextNodes | src/services/highlightService.ts:116-147 | the walk loop returns, in document order, the paths of the text nodes the filter accepts |
| Walker.OccurrencesSound | src/services/highlightService.ts:116-147 | every node the walk meets is a text node of the tree; the filter accepts it exactly when its path is eligible |
| Walker.OccurrencesComplete | src/services/highlightService.ts:116-147 | the walk meets every text node below the root |
| Walker.TextNodesExactlyEligible | src/services/highlightService.ts:116-147 | a path is returned exactly when it leads to a text node whose parent is not `script`, `style` or `noscript` and is not inside a highlight |
| Highlight.PieceNodes | src/services/highlightService.ts:174-176 | the wrapper's children: one text node per unmatched piece and one highlight span per match, in order |
| Highlight.Expand | src/services/highlightService.ts:154-187 | what one text node becomes: the nodes of its pieces when some keyword matches, otherwise the node itself |
| Highlight.SpliceOne | src/services/highlightService.ts:154-187 | `highlightInTextNode` on the node at a path: a text node with a match is replaced in its parent by its pieces' nodes; anything else is left as it is |
| Highlight.ApplyAll | src/services/highlightService.ts:100-108 | `highlightInTextNode` on each of the walker's paths, from the last to the first |
| Highlight.Highlighted | src/services/highlightService.ts:100-108 | the reference result of a scan: every eligible text node replaced by its expansion, and everything else kept |
| Highlight.HighlightedFrom | src/services/highlightService.ts:100-108 | the same, for the children of one element from an index on |
| Highlight.HighlightedChild | src/services/highlightService.ts:100-108 | the same, for one child: an eligible text node is expanded and an element is scanned |
| Highlight.PieceNodesContent | src/services/highlightService.ts:169-176 | the nodes built from the pieces hold the original text content |
| Highlight.ExpandContent | src/services/highlightService.ts:169-185 | whatever replaces a text node holds that node's text |
| Highlight.InsertBeforeAndRemove | src/services/highlightService.ts:181-184 | the new nodes end up, in order, exactly where the text node was; every other child keeps its place and order |
| Highlight.Splice | src/services/highlightService.ts:179-185 | a splice keeps the node's kind, tag and classes |
| Highlight.SpliceIsSetChildren | src/services/highlightService.ts:179-185 | splicing at a path rewrites only the child list of its parent, with the new nodes in place of the old one |
| Highlight.SpliceContent | src/services/highlightService.ts:179-185 | a splice of nodes holding the old node's text keeps the whole document's text content |
| Highlight.SpliceOneContent | src/services/highlightService.ts:154-187 | `highlightInTextNode` keeps the document's text content |
| Highlight.ApplyAllAppend | src/services/highlightService.ts:105-107 | splicing a list of nodes is splicing its tail, then its head |
| Highlight.ApplyAllInChild | src/services/highlightService.ts:105-107 | splices below one child touch only that child |
| Highlight.ApplyAllIsHighlighted | src/services/highlightService.ts:100-108 | splicing all the walker's nodes gives the node-by-node reference result `Highlighted`: every eligible text node is expanded and nothing else changes |
| Highlight.HighlightedContent | src/services/highlightService.ts:100-108 | a whole scan keeps the body's text content |
| Highlight.HighlightedNoNesting | src/services/highlightService.ts:132-134 | a scan never creates a highlight inside another one |
| Highlight.HighlightedFromAppend | src/services/highlightService.ts:100-108 | a scan of a child list is the scan of its parts, concatenated |
| Highlight.PieceNodesFixed | src/services/highlightService.ts:116-147 | the nodes a splice inserted are left alone by the next scan |
| Highlight.HighlightedIdempotent | src/services/highlightService.ts:56-94 | a second scan over a scanned page changes nothing; the scan the observer triggers on the highlighter's own insertions is a no-op |
| Clear.Cleared | src/services/highlightService.ts:202-211 | `clearHighlights`: each highlight child becomes a text node holding its `textContent`, and its parent is normalized |
| Clear.ClearedList | src/services/highlightService.ts:202-211 | one child list after clearing: highlights replaced by their text, other children cleared, length kept |
| Clear.ClearedParentNormal | src/services/highlightService.ts:207-208 | a parent that held a highlight ends with no empty and no adjacent text nodes anywhere in its subtree |
| Clear.ClearedContent | src/services/highlightService.ts:202-211 | clearing keeps the body's text content |
| Clear.ClearedNoHighlight | src/services/highlightService.ts:202-211 | afterwards no highlight element is left below the root |
| Clear.NormalizeNoHighlight | src/services/highlightService.ts:208 | `normalize()` adds no highlight |
| Clear.ClearedNothing | src/services/highlightService.ts:202-211 | with no highlight on the page, clearing changes nothing |
| Clear.ClearedPieceNodes | src/services/highlightService.ts:207 | turning the inserted spans back into text gives one text node per piece |
| Clear.MergePieceTexts | src/services/highlightService.ts:208 | those text nodes merge into one holding the original text |
| Clear.RoundTripFrom | src/services/highlightService.ts:198-211 | per child list: clearing a scan's output gives back the original children once normalized, and exactly them when nothing was highlighted |
| Clear.RoundTrip | src/services/highlightService.ts:198-211 | on a normal page with no highlight, clearing after a scan restores the page exactly |
| Service.AddsElement | src/services/highlightService.ts:59-67 | some `childList` record of the batch added an element node |
| Service.Scanned | src/services/highlightService.ts:100-108 | the body after one scan: unchanged with no keywords, otherwise `Highlighted` |
| Service.ShouldUpdate | src/services/highlightService.ts:57-67 | the observer's loops set `shouldUpdate` exactly when some `childList` record added an element node |
| Service.HighlightService.constructor | src/services/highlightService.ts:13-17 | the service starts with no keywords, no timer and the observer connected |
| Service.HighlightService.HighlightInTextNode | src/services/highlightService.ts:154-187 | the body becomes `SpliceOne` of the old body: unchanged for an empty text, an empty pattern, no match or no parent, otherwise the node is replaced by its pieces; nothing else changes |
| Service.HighlightService.HighlightAllKeywords | src/services/highlightService.ts:100-108 | with no keywords nothing happens; otherwise the body becomes `Highlighted` of the old body and one scan is counted |
| Service.HighlightService.ClearHighlights | src/services/highlightService.ts:202-211 | the body becomes `Cleared` of the old body |
| Service.HighlightService.OnLoaded | src/services/highlightService.ts:23-35 | a failed first read changes nothing; a failed second read sets the keywords and does not scan; otherwise keywords and count are set (missing means `[]` and `0`), and one scan runs when the keyword list is non-empty |
| Service.HighlightService.OnStorageChanged | src/services/highlightService.ts:41-49 | a `sync` change of the keywords key clears, sets `newValue or []`, and scans when that list is non-empty; any other change does nothing |
| Service.HighlightService.DebounceHighlight | src/services/highlightService.ts:86-94 | the pending callback, if any, is replaced by one new callback due 500 ms later |
| Service.HighlightService.OnMutations | src/services/highlightService.ts:56-73 | while observing, a batch that adds an element (re)arms the single timer; any other batch, or any batch once disconnected, leaves it alone; no scan runs |
| Service.HighlightService.OnClock | src/services/highlightService.ts:91-93 | a due callback runs one scan and is gone; before its time nothing happens |
| Service.HighlightService.Destroy | src/services/highlightService.ts:217-225 | highlights cleared, observer disconnected, timer cancelled; the keywords are kept |
| Service.Burst | src/services/highlightService.ts:86-94 | a burst of element-adding batches, each less than 500 ms after the previous one, produces exactly one scan, after the last one, when no callback was already due at the first batch; the clock ticks before every batch |
| KeywordStore.GroupAdded | src/store/keywords.store.ts:24-43 | the list grows by one exactly when the trimmed name is not blank and no group has the given name ignoring case; the new group is appended with the trimmed name, the colour and no keywords; earlier groups are unchanged |
| KeywordStore.GroupAddedTrimmed | src/store/keywords.store.ts:24-43 | the same, with the duplicate check on the trimmed name (see Findings) |
| KeywordStore.GroupAddedDuplicate | src/store/keywords.store.ts:30 | as written, adding " Sales" next to "Sales" gives two groups named "Sales" |
| KeywordStore.GroupAddedTrimmedKeepsUniqueNames | src/store/keywords.store.ts:27-41 | with the check on the trimmed name, group names stay distinct ignoring case |
| KeywordStore.GroupRemoved | src/store/keywords.store.ts:46-50 | removal never adds a group |
| KeywordStore.GroupRemovedMembers | src/store/keywords.store.ts:48 | the result holds exactly the groups whose name differs from `groupName` (case-sensitive) |
| KeywordStore.GroupRemovedAppend | src/store/keywords.store.ts:48 | removal distributes over concatenation, so the kept groups stay in their order |
| KeywordStore.GroupRemovedAbsent | src/store/keywords.store.ts:48 | removing a name no group has changes nothing |
| KeywordStore.GroupRemovedIdempotent | src/store/keywords.store.ts:48 | removing twice is removing once |
| KeywordStore.GroupWithKeyword | src/store/keywords.store.ts:59-69 | the `map` callback: a group named `groupName` that lacks the keyword ignoring case gets it appended, and any other group is returned as it is |
| KeywordStore.KeywordAdded | src/store/keywords.store.ts:53-73 | the keyword is trimmed, and a blank one changes nothing; groups named `groupName` that lack it (ignoring case) get it at the end; every other group, and the count, order, names and colours, are untouched |
| KeywordStore.Without | src/store/keywords.store.ts:81 | the kept keywords are exactly those different from the argument |
| KeywordStore.KeywordRemoved | src/store/keywords.store.ts:76-87 | groups named `groupName` lose exactly the keywords equal to the argument; every other group is untouched |
| KeywordStore.WithoutAppend | src/store/keywords.store.ts:81 | the filter distributes over concatenation, so the remaining keywords keep their order |
| KeywordStore.WithoutAbsent | src/store/keywords.store.ts:81 | removing a keyword that is not there changes nothing |
| KeywordStore.AddThenRemove | src/store/keywords.store.ts:66-81 | adding a trimmed keyword absent from the group (ignoring case) and then removing it restores the groups |
| KeywordStore.KeywordAddedWellFormed | src/store/keywords.store.ts:59-69 | adding keeps each group's keywords distinct ignoring case, trimmed and non-empty |
| KeywordStore.KeywordRemovedWellFormed | src/store/keywords.store.ts:79-83 | removing keeps every group well formed |
| KeywordStore.GroupAddedWellFormed | src/store/keywords.store.ts:24-43 | adding a group keeps every group's keywords trimmed, non-empty and distinct ignoring case |
| KeywordStore.KeptGroupsValid | src/store/keywords.store.ts:48 | removing groups keeps the rest well formed, and uniquely named when the names were unique before |
| KeywordStore.KeywordsStore.AddGroup | src/store/keywords.store.ts:24-43 | `groups` becomes `GroupAdded` of the old list, duplicate check as written; the store's keywords stay well formed |
| KeywordStore.KeywordsStore.RemoveGroup | src/store/keywords.store.ts:46-50 | `groups` becomes `GroupRemoved` of the old list |
| KeywordStore.KeywordsStore.AddKeywordToGroup | src/store/keywords.store.ts:53-73 | `groups` becomes `KeywordAdded` of the old list |
| KeywordStore.KeywordsStore.RemoveKeywordFromGroup | src/store/keywords.store.ts:76-87 | `groups` becomes `KeywordRemoved` of the old list |

## Left out

- Case folding and word characters are ASCII only. `toLowerCase` in the source is full Unicode. `\w` and `\b` without the `u` flag are ASCII in JavaScript too, so the boundaries are faithful.
- Empty keywords are not modelled. An empty string in a non-empty list is an empty alternative, and it produces empty highlight spans at word boundaries. The scanner requires every keyword to be non-empty, which is what the store's actions guarantee.
- Service.HighlightService.OnStorageChanged: requires the new keyword list to contain no empty string, for the reason above.
- Service.HighlightService.OnLoaded: requires the stored keyword list to contain no empty string, for the same reason.
- The HTML parse of `wrapper.innerHTML` is not modelled. The replace result is a list of pieces turned directly into text nodes and spans. Matched or unmatched text containing `<` or `&` would be re-parsed as markup by the browser. The model treats it as text. The same parse also turns CR and CRLF into LF and drops NUL characters, which the model does not do either. The text-preservation lemmas therefore hold in the source only for matched text nodes free of `<`, `&`, CR and NUL:
- Highlight.PieceNodesContent: the inserted nodes hold the original text only when it has none of `<`, `&`, CR or NUL.
- Highlight.SpliceOneContent: the same restriction, for one highlighted text node.
- Highlight.HighlightedContent: the same restriction, for every highlighted text node of the page.
- Clear.RoundTrip: the same restriction, for every highlighted text node of the page.
- Highlight.ExpandContent: the same restriction, for the nodes one text node turns into.
- Highlight.HighlightedNoNesting: holds in the source only for text free of `<`. Literal markup such as `<b class="linkedin-finder-highlight">Engineer</b>` in a text node is parsed into a highlight element, and a match inside it is then a highlight within a highlight.
- Highlight.PieceNodesFixed: holds in the source only for text free of `<`, `&`, CR and NUL. An unmatched piece holding an entity such as `a&#98;c` is decoded to `abc`, which the next scan can match. Dropping the NUL in `Engi\u0000neer` gives `Engineer` in the same way, and turning CR into LF can complete a keyword that contains LF.
- Highlight.HighlightedIdempotent: the rescan is a no-op in the source only for text free of `<`, `&`, CR and NUL, for the reasons given for `Highlight.PieceNodesFixed`.
- Node identity is replaced by paths.
- Changes the page's own scripts make to the DOM are the environment assigning `body` directly. `OnMutations` only receives the batch that describes such a change. Service.Burst assumes the page does not change during the burst.
- The page is the body. Highlights, and elements with the highlight class, outside the body are not modelled. In the source, the walker's `closest` check also looks at the body's ancestors, and `clearHighlights` queries the whole document.
- Service.HighlightService.HighlightAllKeywords: splices the walker's nodes from the last to the first, where the source goes from the first to the last. Paths of later nodes would shift after an earlier splice, while node references in the source do not. Each splice changes only its own node's place in its parent, so both orders give the same tree. The one-pass `Highlight.Highlighted` states that tree.
- Service.HighlightService.ClearHighlights: modelled by its overall effect (`Clear.Cleared`), not as the `querySelectorAll` loop. Each `normalize()` merges text nodes and renumbers siblings, so paths taken before the loop would not stay valid. The model assumes the scan root itself does not carry the highlight class.
- The `textContent` of a text node is never null in the model. The `!textNode.textContent` check is the empty-string case.
- The mutation records that the highlighter's own insertions produce are not generated by the model. The environment delivers batches through `OnMutations`. `Highlight.HighlightedIdempotent` shows that the scan they trigger changes nothing.
- Timers:
  - the clock is an explicit `now` argument;
  - `setTimeout` ids are a counter;
  - the source keeps a fired timer's id in `debounceTimer`, while the model drops the timer once it has run. Calling `clearTimeout` on a fired timer does nothing, so the behaviour is the same.
- `commonContactsCount` is loaded and stored but never used by the highlighter, and the model uses it no further. No threshold matching or coloured variants exist in the source.
- Console logging (`console.warn`, `console.error`) is left out.
- The store writes `KeywordGroup[]` under the keywords key, while the highlighter reads that key as a list of strings. The two sides are typed separately here and are not reconciled.
- `saveToStorage` and `loadFromStorage` are asynchronous storage I/O and are left out. The store's `Valid` invariant holds for lists built by the four actions. A list loaded from storage may not satisfy it.
- src/services/storage.ts, the React popup (src/pages/App.tsx and the components under src/components/ui/), src/content-script.ts and the build configuration are not part of this model.

## Findings

| source | as written | input that shows it | evidently intended | confidence | as-written member | corrected member |
|---|---|---|---|---|---|---|
| src/store/keywords.store.ts:30 | the duplicate check compares the untrimmed `name`, lower-cased, with existing names, but the group is stored under `name.trim()` | groups `[{name: "Sales"}]`, then `addGroup(" Sales", "red")`: the check passes and a second group named "Sales" is appended | reject a name whose trimmed form equals an existing name ignoring case, so group names stay unique; the store class keeps the check as written | medium, not executed | KeywordStore.GroupAddedDuplicate | KeywordStore.GroupAddedTrimmedKeepsUniqueNames |
