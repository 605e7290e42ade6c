# FilterThreads: a verified model of the thread filter

This project models the thread-filtering engine of the forum userscript's
`FilterThreads` module: what happens to each row of a thread list when the page loads,
and what the thread menu and the show-thread star do afterwards. The model has eight
modules.

- `Patterns`: how `getRegex` turns the user's comma-separated keyword list into a pattern.
  In literal mode it escapes metacharacters, strips one trailing separator, folds the
  vowels into accent-insensitive bracket classes, turns every separator into `|` and adds
  the word-break guards. In regex mode the input is passed through.
- `Matcher`: the `matchKeywords` loop. It runs an expression over a title or a user name.
  Each time the expression matches, it wraps the first occurrence of the trimmed match, in
  the text marked so far, in a `<span class='…'>`.
- `Classification`: the decision `processThread` takes for one thread. On a search page
  only favorites count. Elsewhere an else-if chain runs (manual hide, favorite, hidden
  user, hidden keyword), then a separate highlight check. It also builds the three rules
  from the preferences.
- `Placement`: the favorites-on-top and highlighted-on-top moves. Rows are found by
  page-wide class selectors and moved with jQuery's `after`/`before`.
- `FilterThreads`: the per-page state as classes:
  - `Thread`, the `hilo` object, whose flags and title are updated in place;
  - `Star`, the show-thread star;
  - `FilterState`, which holds the `favorites` and `hiddenThreads` arrays, the hidden-row
    counter, the rows of the thread list and the hidden list, the row classes and the
    key-value store.

  Its methods are the module's operations: processing one thread and the row loop,
  the favorite and hidden toggles and their helpers, the two save functions, and the star.
- `Js`: the JavaScript built-ins the module relies on, stated over sequences:
  - `Array.prototype.indexOf` and the module's own `removeElementFromArray`;
  - `String.prototype.indexOf` and `trim`;
  - `String.prototype.replace` with a string pattern: first occurrence only, with
    ECMAScript's `$` substitution patterns.
- `Base`: `Option` and duplicate-freedom.
- `PatternsExamples`: `getRegex` worked out on two concrete lists.

The model has these inputs instead of the browser:
- The regular-expression engine is a parameter. An `Exec` is any function that returns
  the index and length of a match lying inside the text it searched. Compiling a pattern
  (`new RegExp`) is a function `RegexSpec -> Option<Exec>`, where `None` means the
  constructor threw.
- The store holds the arrays themselves where the source keeps their JSON text.
- Rows are thread ids. The page is `Layout(hidden, main)`: the hidden-threads list and
  then the thread list, in document order.

Four behaviours of the code are easy to misread, and the model keeps them as written:
- The highlight check tests `hilo.title`. For a thread hidden by keywords, that title
  already holds the hidden-keyword mark-up, not the title read from the row
  (`ClassifySpec`).
- When there is no highlighted row yet, the highlighted-on-top move puts the row after
  the last favorite.
- When there is no slot and no pinned-threads separator, `pinnedThreadsSeparator.after`
  acts on an empty selection, so the row does not move.
- A keyword that occurs twice is wrapped twice at its first occurrence. Each pass of
  `matchKeywords` replaces the first occurrence of the trimmed match in the text marked so
  far, not the occurrence the expression found. So `foo` over `foo foo`, with `<b>` as the
  mark-up, gives `<b><b>foo</b></b> foo` (`RepeatedKeywordWrapsFirstTwice`).

## Model

| member | source | states |
|---|---|---|
| Js.IndexOf | modules/FilterThreads.js:515 | indexOf gives -1 exactly when the element is absent; otherwise it gives an index holding the element with no copy before it |
| Js.RemoveFirst | modules/FilterThreads.js:514-519 | removeElementFromArray: indexOf, then a one-element splice when the element was found; what that means is stated by `RemoveFirstSpec`, `RemoveFirstOccurrence` and `RemoveFirstNoDup` |
| Js.RemoveFirstSpec | modules/FilterThreads.js:514-519 | removeElementFromArray leaves an array without the element unchanged; otherwise the result is one shorter and, as a multiset, is the array less one copy of the element |
| Js.RemoveFirstOccurrence | modules/FilterThreads.js:514-519 | what is spliced out is the first occurrence; the elements before and after it stay in order |
| Js.RemoveFirstAfterPush | modules/FilterThreads.js:444-457 | pushing an absent id and then removing it restores the exact array (toggling a favorite twice from not-favorite) |
| Js.RemoveFirstThenPushSameMembers | modules/FilterThreads.js:444-457 | removing a present id and pushing it back keeps the same members (toggling twice from favorite restores membership only) |
| Js.RemoveFirstNoDup | modules/FilterThreads.js:514-519 | in a duplicate-free array, removal leaves no copy of the element and no duplicates |
| Js.Trim | modules/FilterThreads.js:278 | `trim`: leading, then trailing, white space removed; what that means is stated by `TrimSpec` |
| Js.IndexOfString | modules/FilterThreads.js:278 | string `indexOf` from offset 0, as the first matching offset scanning left to right; what that means is stated by `IndexOfStringSpec` |
| Js.ReplaceFirst | modules/FilterThreads.js:278 | `replace` with a string pattern: the first occurrence, if any, replaced by the substituted replacement; what that means is stated by `ReplaceFirstSpec` and `ReplaceFirstLiteralPrefix` |
| Js.TrimSpec | modules/FilterThreads.js:278 | trim removes exactly the white space at both ends: the result is a slice of the input, surrounded only by white space, and neither starts nor ends with white space |
| Js.IndexOfStringSpec | modules/FilterThreads.js:278 | string indexOf gives an offset where the pattern occurs with no earlier occurrence, or -1 when it occurs nowhere |
| Js.SubstituteLiteral | modules/FilterThreads.js:278 | a replacement without `$` is inserted literally |
| Js.ReplaceFirstSpec | modules/FilterThreads.js:278 | replace with a string pattern returns the text unchanged when the pattern is absent; otherwise, with a `$`-free replacement, it replaces the first occurrence and nothing else |
| Js.ReplaceFirstLiteralPrefix | modules/FilterThreads.js:278 | a `$`-free prefix of the replacement is copied as it is, whatever `$` patterns follow it |
| Patterns.GetRegex | modules/FilterThreads.js:180-200 | regex mode passes the input through; literal mode gives `(\b\|\ )(` + body + `)(\b\|\ )`, where the body is: escape, strip one trailing separator, fold each character, replace separators; both are case-insensitive |
| Patterns.Escape | modules/FilterThreads.js:185 | the escaping replace: every character of `[-[\]/{}()*+?.\\^$\|]` gets a backslash; stated by `EscapeRoundTrip` and `EscapeIsWellEscaped` |
| Patterns.EscapeRoundTrip | modules/FilterThreads.js:185 | escaping loses nothing: unescaping gives the literal back |
| Patterns.EscapeIsWellEscaped | modules/FilterThreads.js:185 | after escaping, every metacharacter is preceded by an escaping backslash |
| Patterns.FirstRunFrom | modules/FilterThreads.js:186 | the leftmost offset from which the rest is a `[ ]*[,]+[ ]*` run, with no such offset before it, or -1 |
| Patterns.StripTrailingCommas | modules/FilterThreads.js:186 | the result is a prefix of the input; what was removed is a comma run; no suffix starting before the cut is one; an unchanged result means there was no run at the end |
| Patterns.RunLengthLongest | modules/FilterThreads.js:194 | the greedy match of `[ ]*[,]+[ ]*` at the start is a comma run and no longer prefix is one |
| Patterns.ReplaceCommaRuns | modules/FilterThreads.js:194 | the global replacement leaves no comma |
| Patterns.ReplaceCommaRunsNoComma | modules/FilterThreads.js:194 | text without commas is unchanged by the replacement |
| Patterns.SeparatorMatch | modules/FilterThreads.js:194 | a whole separator becomes one `\|` and the scan resumes after it |
| Patterns.ReplaceCommaRunsSplit | modules/FilterThreads.js:194 | an item, one separator and the rest become the item, `\|` and the replaced rest |
| Patterns.FoldChar | modules/FilterThreads.js:189-193 | each vowel of a group (any case, with its accents) becomes that group's bracket class; any other character stays |
| Patterns.FoldVowels | modules/FilterThreads.js:189-193 | the five chained case-insensitive replaces, in the source order; `FoldVowelsIsOnePass` proves them equal to the one-pass fold |
| Patterns.ClassesAreInert | modules/FilterThreads.js:189-193 | each inserted class holds no character of a later group |
| Patterns.FoldVowelsIsOnePass | modules/FilterThreads.js:189-193 | the five chained replacements equal a single pass that folds every character on its own |
| PatternsExamples.CafeSol | modules/FilterThreads.js:180-200 | `café, sol` gives `(\b\|\ )(c[aáà]f[eéè]\|s[oóò]l)(\b\|\ )` |
| PatternsExamples.StripKeepsEarlierComma | modules/FilterThreads.js:186 | stripping `a, ,` leaves `a,`: the anchored pattern first matches from the space |
| PatternsExamples.EmptyAlternative | modules/FilterThreads.js:185-196 | `a, ,` gives the body `[aáà]\|`, whose last alternative is empty |
| Matcher.SpanTagOpens | modules/FilterThreads.js:278 | the span mark-up starts with `<`, a character replace copies as it is |
| Matcher.MarkStep | modules/FilterThreads.js:278 | one replace step: the first occurrence of the trimmed match wrapped in the span; stated by `MarkStepNonEmpty` and `StepPosition` |
| Matcher.Mark | modules/FilterThreads.js:271-285 | the loop of matchKeywords as a recursive function; `MarkKeywords` is proved equal to it, and `MarkSpec` and `MarkSingle` state what it returns |
| Matcher.MarkMatch | modules/FilterThreads.js:277-280 | one loop iteration wraps the first occurrence of the trimmed match and cuts the text after the match; the remaining text is strictly shorter, which is why the loop ends |
| Matcher.MarkKeywords | modules/FilterThreads.js:271-285 | the loop computes `Mark`; it returns false (None) exactly when the first exec finds nothing or only the empty string; otherwise the marked text is never empty |
| Matcher.MarkSpec | modules/FilterThreads.js:271-285 | the same two facts about `Mark`, the function the loop is proved against |
| Matcher.MarkRestNonEmpty | modules/FilterThreads.js:276-285 | the iterations never empty a non-empty text, so the callers' truth test sees every match |
| Matcher.MarkStepNonEmpty | modules/FilterThreads.js:278 | one replace step never empties a non-empty text |
| Matcher.StepPosition | modules/FilterThreads.js:278 | the occurrence a step wraps is never after the match exec found |
| Matcher.MarkSingle | modules/FilterThreads.js:271-285 | with one non-empty match and no `$` in the mark-up or the match, the result is the text with the first occurrence of the trimmed match wrapped in the span |
| Matcher.MarkStepTrimmed | modules/FilterThreads.js:278 | for a match with no white space around it, the step wraps the first occurrence of the match itself |
| Matcher.MarkRestAt | modules/FilterThreads.js:277-280 | an iteration on a search known to find a non-empty match goes on from the step's result and the text after the match |
| Matcher.MarkTwice | modules/FilterThreads.js:271-285 | two non-empty matches and then none: the result is what the two replace steps leave |
| Matcher.RepeatedKeywordWrapsFirstTwice | modules/FilterThreads.js:277-280 | `foo` over `foo foo` with `<b>` mark-up gives `<b><b>foo</b></b> foo`: the second pass wraps the first, already wrapped, occurrence again and leaves the second bare |
| Classification.ClassifySpec | modules/FilterThreads.js:203-268 | search pages set only isFavorite; elsewhere hide > favorite > user list > keywords, with at most one branch firing; the marked creator or title is shown; the highlight check tests the title the chain left; the moves and the header tint follow their conditions |
| Classification.ChainShape | modules/FilterThreads.js:211-241 | the else-if chain never highlights, and only a favorite that is not hidden is moved |
| Classification.HighlightIgnoresStatus | modules/FilterThreads.js:244 | for threads not hidden by keywords, the highlight outcome does not depend on id, creator, favorites or the hidden list |
| Classification.Classify | modules/FilterThreads.js:203-268 | the verdict of processThread for one thread; `ClassifySpec` states it branch by branch |
| Classification.Chain | modules/FilterThreads.js:211-241 | the else-if chain before the highlight check; stated by `ChainShape` and `ClassifySpec` |
| Classification.Highlight | modules/FilterThreads.js:244-265 | the highlight check on the title the chain left; stated by `ClassifySpec` and `HighlightIgnoresStatus` |
| Classification.Alerts | modules/FilterThreads.js:91-124 | each rule's alert is raised exactly when its compile failed, and none is raised twice |
| Classification.BuildRules | modules/FilterThreads.js:89-125 | for each of the three preferences (hidden keywords with their regex switch, hidden users always literal, highlight keywords with their regex switch): unset or empty gives no rule and no alert; otherwise the rule is the compiled getRegex pattern and its alert is raised exactly when the compile failed; no alert is raised twice |
| Placement.LastWithSpec | modules/FilterThreads.js:220-221 | `.last()` finds nothing exactly when no row has the class (the `length > 0` test), and otherwise a row with it |
| Placement.FirstWithSpec | modules/FilterThreads.js:222-223 | `.first()` finds nothing exactly when no row has the class, and otherwise a row with it |
| Placement.LastWithAfterLast | modules/FilterThreads.js:221 | `.last()` picks the row just before the `AfterLast` slot: a row with the class and no row with it after |
| Placement.FirstWithAtFirst | modules/FilterThreads.js:223 | `.first()` picks the row at the `AtFirst` slot: a row with the class and no row with it before |
| Placement.LastWithConcat | modules/FilterThreads.js:220 | across the hidden list followed by the thread list, `.last()` prefers the thread list |
| Placement.LastWithRemove | modules/FilterThreads.js:220 | detaching a row without the class does not change which row `.last()` picks |
| Placement.MoveNextTo | modules/FilterThreads.js:221-225 | jQuery `after`/`before`: the row is detached and put next to the target in the target's list; a target not on the page moves nothing; stated through `PlaceFavoriteSpec` and `PlaceHighlightedSpec` |
| Placement.PlaceFavorite | modules/FilterThreads.js:219-226 | the favorites-on-top move as written, with page-wide selectors; stated by `PlaceFavoriteSpec`, `PlaceFavoriteKeepsPage` and `FavoriteJoinsHiddenRow` |
| Placement.PlaceHighlighted | modules/FilterThreads.js:248-256 | the highlighted-on-top move as written, with page-wide selectors; stated by `PlaceHighlightedSpec`, `PlaceHighlightedKeepsPage` and `HighlightJoinsHiddenRow` |
| Placement.PlaceFavoriteSpec | modules/FilterThreads.js:219-226 | when only thread-list rows carry the classes, the hidden list is unchanged and the row goes just after the last favorite, else just before the first highlighted row, else just after the separator; with no slot nothing moves |
| Placement.PlaceHighlightedSpec | modules/FilterThreads.js:248-256 | under the same condition the row goes just after the last highlighted row, else after the last favorite, else after the separator; with no slot nothing moves |
| Placement.InsertAtThenRemove | modules/FilterThreads.js:219-226 | only the moved row changes place: taking it out again gives the other rows in their old order |
| Placement.HighlightJoinsHiddenRow | modules/FilterThreads.js:249-250 | the selectors also see the hidden list: a new highlight is moved after a hidden highlighted row, into the hidden list |
| Placement.InsertInMainNoDup | modules/FilterThreads.js:219-256 | putting the detached row back into the thread list at any offset keeps every row on the page once |
| Placement.PlaceFavoriteKeepsPage | modules/FilterThreads.js:219-226 | on a placeable page the favorite move leaves the hidden list as it was and every row on the page once |
| Placement.PlaceHighlightedKeepsPage | modules/FilterThreads.js:248-256 | on a placeable page the highlight move leaves the hidden list as it was and every row on the page once |
| Placement.FavoriteJoinsHiddenRow | modules/FilterThreads.js:219-223 | the `.highlighted` selector also sees the hidden list: with a hidden highlighted row and no favorite, a new favorite is put before it, into the hidden list, which grows by one row |
| FilterThreads.Stored | modules/FilterThreads.js:37 | `JSON.parse(getValue(key, '[]'))` over a store of arrays; its save-and-read-back behaviour is stated by `StoredAfterSave` |
| FilterThreads.StoredAfterSave | modules/FilterThreads.js:506-512 | reading a key right after saving an array under it gives that array, saving under one key leaves what the other key reads, and an unsaved key reads as `[]`: so a reload after saveFavorites sees the saved favorites and the same hidden threads |
| FilterThreads.HideRow | modules/FilterThreads.js:389 | `hiddenThreadsList.append(row)`: the row leaves its place and goes last in the hidden list; stated by `HideRowValid` |
| FilterThreads.ShowRow | modules/FilterThreads.js:422 | the thread list's `append(row)`: the row leaves the hidden list and goes last in the thread list; stated by `ShowRowValid` |
| FilterThreads.HideRowValid | modules/FilterThreads.js:389-395 | appending a row not yet hidden to the hidden list adds one hidden row and keeps every row on the page once |
| FilterThreads.ShowRowValid | modules/FilterThreads.js:415-429 | moving a hidden row back removes one hidden row and keeps every row on the page once |
| FilterThreads.FilterState.Load | modules/FilterThreads.js:27-125 | favorites are the stored array; list pages read the hidden threads and build the rules; nothing is hidden or classed yet; with duplicate-free rows the bookkeeping holds |
| FilterThreads.FilterState.SaveFavorites | modules/FilterThreads.js:506-508 | the store holds the current favorites under `FAVORITES` |
| FilterThreads.FilterState.SaveHiddenThreads | modules/FilterThreads.js:510-512 | the store holds the current hidden threads under `HIDDEN_THREADS` |
| FilterThreads.FilterState.MarkAsFavorite | modules/FilterThreads.js:444-450 | the id is pushed, the row gets the class, the flag is set, the array is saved |
| FilterThreads.FilterState.UnmarkAsFavorite | modules/FilterThreads.js:452-457 | one occurrence of the id is removed, the row loses the class, the flag is cleared, the array is saved |
| FilterThreads.FilterState.ToggleFavorite | modules/FilterThreads.js:434-442 | the flag flips; the array gains the id at the end or loses one occurrence; the store holds the new array |
| FilterThreads.FilterState.AddToHiddenThreads | modules/FilterThreads.js:362-400 | the row goes last in the hidden list, the counter goes up, the block shows at one, and the bookkeeping is kept |
| FilterThreads.FilterState.RemoveFromHiddenThreads | modules/FilterThreads.js:415-432 | the row goes last in the thread list, the counter goes down, the block hides at zero, and the bookkeeping is kept |
| FilterThreads.FilterState.MarkAsHiddenThread | modules/FilterThreads.js:347-360 | the id is pushed onto the hidden threads; a favorite loses one occurrence, its class and its flag; the row is hidden; both arrays are saved as changed |
| FilterThreads.FilterState.UnmarkAsHiddenThread | modules/FilterThreads.js:402-413 | one occurrence leaves the hidden threads; the row goes to the end of the thread list; favorite status is not given back; the array is saved |
| FilterThreads.FilterState.ToggleHidden | modules/FilterThreads.js:329-345 | after the fade, the flag flips. Hiding pushes the id, drops a favorite (array, class, flag), moves the row to the hidden list and saves both arrays as changed. Showing removes one occurrence, moves the row back last and saves only the hidden threads, leaving favorites alone. The counter and block follow, and the bookkeeping is kept |
| FilterThreads.FilterState.HideThenUnhide | modules/FilterThreads.js:329-413 | toggling a visible thread twice: it ends visible and not a favorite; a favorite is removed from the favorites for good (no copy left when they were duplicate-free); hidden threads that did not hold the id are back as they were; the row ends last in the thread list and the counter is unchanged |
| FilterThreads.FilterState.ShowStar | modules/FilterThreads.js:459-483 | the star starts as a favorite exactly when the id is in the favorites |
| FilterThreads.FilterState.ClickStar | modules/FilterThreads.js:485-503 | a click makes the same flip as toggleFavorite over the thread id, and saves |
| FilterThreads.FilterState.ProcessThread | modules/FilterThreads.js:203-268 | the thread ends with exactly the verdict `Classify` gives; its row is hidden, moved to the favorite slot or moved to the highlighted slot as that verdict says; the classes, counter, block and tint follow; on a placeable page the counter still counts the hidden list and no row is on the page twice |
| FilterThreads.FilterState.ProcessSearch | modules/FilterThreads.js:205-209 | on a search page only the favorite flag and class are set |
| FilterThreads.FilterState.ProcessListed | modules/FilterThreads.js:210-266 | on a forum page the thread shows the highlight check applied to the chain's verdict |
| FilterThreads.FilterState.ApplyChain | modules/FilterThreads.js:213-241 | the else-if chain: the thread shows the `Chain` verdict and the row is hidden or moved as it says |
| FilterThreads.FilterState.ShowFavorite | modules/FilterThreads.js:216-229 | the flag is set, the row moves to the favorite slot when favorites go on top, and it gets the class |
| FilterThreads.FilterState.ApplyRules | modules/FilterThreads.js:230-241 | the hidden-users branch, or else the keywords branch, as `ByRules` says |
| FilterThreads.FilterState.ApplyKeywords | modules/FilterThreads.js:236-241 | a title matching the hidden keywords hides the row and shows the marked title |
| FilterThreads.FilterState.HideThread | modules/FilterThreads.js:214-215 | the row goes to the hidden list and the thread is flagged hidden |
| FilterThreads.FilterState.ApplyHighlight | modules/FilterThreads.js:244-264 | a matching title is flagged and shown marked; the row moves to the highlighted slot unless it is hidden or a favorite; a keyword-hidden row tints the header |
| FilterThreads.FilterState.ProcessRows | modules/FilterThreads.js:130-174 | the row loop gives every thread the verdict its own id, title and creator decide |

## Left out

- Styles, popovers, the body click handler, hover and the thread menu with its buttons
  (modules/FilterThreads.js:51-85, 151-167, 289-326) are DOM work with no state of the
  model. The menu's tests of the never-set `isHiddenByKeyword` go with them.
- The fade animations of toggleHidden are not modelled. `ToggleHidden` is the state
  change of its completion callbacks.
- The regular-expression engine is a parameter: `exec` is an `Exec`, and `new RegExp` is
  the `compile` function given to `Load`.
- Scraping the rows (ids, titles, creators, icon cells) and the show-thread URL parsing
  are left out. A `Thread` is built from its id, title and creator; `ShowStar` takes the
  id.
- The migration of the legacy favorites key, the preference declarations and the
  remaining preference reads (colours, borders, bold) are left out. The two on-top
  switches are parameters of `Load`.
- `JSON.stringify` and `JSON.parse` are left out: the store holds the arrays themselves.
- The per-row `try`/`catch` with its `alert` is left out: the model has no exceptions.
- The creation of the hidden-threads table, its header and the slide toggle are left
  out. The hidden list is `rows.hidden`, and the block's visibility and header tint are
  booleans. The `#numhiddenthreads` text is left out; it shows `hiddenCount`.
- The `originalPosition` of a row is left out: it is only read by code that is commented
  out.
- components/sync.js is not part of this model.
- Matcher.MarkKeywords: the class name is given as the mark-up it stands for,
  `SpanTag(className)`. The non-empty result is stated for any mark-up whose first
  character is not `$`, which `SpanTagOpens` proves of every span.
- Matcher.MarkSingle: a match holding a `$` is not covered. Replace would read it as a
  substitution pattern; the general case is `Js.ReplaceFirstLiteralPrefix`.
- Placement.PlaceFavoriteSpec and Placement.PlaceHighlightedSpec: the slot is stated only
  when no hidden row carries a class. The general case, where the page-wide selectors
  reach into the hidden list, is the function itself (see `HighlightJoinsHiddenRow`).
- FilterThreads.FilterState.ProcessThread: the counter bookkeeping (`Valid`) is promised
  only on a placeable page, where no row of the hidden list has a class. Otherwise the
  code itself breaks it: a favorite or a highlight can be moved into the hidden list
  without being counted (`FavoriteJoinsHiddenRow`, `HighlightJoinsHiddenRow`).
- FilterThreads.FilterState.ProcessRows: only the per-thread verdicts are stated. The
  final order of the rows and the counter bookkeeping are not. A keyword-hidden row that
  is also highlighted gives the hidden list a `.highlighted` row. After that, a later
  thread's move can land in the hidden list, as in `FavoriteJoinsHiddenRow`, and the
  counter no longer counts it.
- Strings are sequences of Unicode characters, while JavaScript's `exec` offsets and
  `trim` work on UTF-16 code units. Since `Exec` is a parameter, its offsets are simply
  taken in the model's units.
