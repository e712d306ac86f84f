# Vocabulary View: a Dafny model

This project models the core of the Obsidian plugin *Vocabulary View*. The
plugin turns fenced `vocaview-…` code blocks in a note into three kinds of
vocabulary drill: a list, a multiple-choice quiz and a flash card. It also
keeps a registry of *vocabulary books*. A book is a note whose first
`vocaview` block holds one `term: explanation` pair per line, and which the
plugin can load into a cache and write back.

The model covers four parts of the plugin:

- **Word parsing** (`words.ts`), in `words.dfy`, module `WordPairs`.
  - The `Words` collection is built line by line: the first `:` splits a line and both sides are trimmed.
  - Its random draws are modelled through the Fisher–Yates-like `shuffle` over an index array, and the iterator `for … of` uses.
  - `js_strings.dfy` (modules `Options`, `JsStrings`) models the string operations the source relies on: ECMAScript `trim`, `split`, `join`, `indexOf` and the first-match `replace`.
- **The vocabulary book** (`vocabularybook.ts`), in `vocabulary_book.dfy`, module `VocabularyBooks`. It is a class whose cache is updated in place.
  - The `Map<string, Word>` cache is a sequence of entries with distinct terms, in insertion order (`cache_map.dfy`, module `CacheMaps`).
  - The regular expression that finds the first block is modelled by a search, proved to return the first and shortest match (`vocaview_blocks.dfy`, module `VocaviewBlocks`).
  - Load and save are specified by functions from the note's text (`book_files.dfy`, module `BookFiles`). The main property is that saving then loading gives back the cache.
- **The settings' path rules** (`settings.ts`), in `path_settings.dfy`, module `PathSettings`:
  - `isRelativePath`, `isObsidianLink`, `convertObsidianLinkToRelativePath`, `formatPath` and `checkPath`;
  - what a path edit stores in `vocabularyBookPaths`.
- **The plugin's drills and its registry sync** (`main.ts`):
  - `drills.dfy` (module `Drills`) models:
    - the question, answer and option draws;
    - the list's hidden counter and its "show/hide all" rule;
    - the choice quiz's selection gate and accuracy counters;
    - the card's spelling check.
  - `book_registry.dfy` (module `BookRegistry`) models `syncVocabularyBooksWithSettings`. Its two loops are proved against a specification function, `SyncedPaths`. The lemmas prove about that function that the registry lists only configured books, loads every existing one and is idempotent.

`Math.random()` becomes parameters:

- a draw `rs` (one index per array cell) for `shuffle`;
- an index `pick` for `getRandomWord`;
- a `coin` for `Math.random() > 0.5`.

The file system becomes parameters too. File contents are passed in as
strings and the text a save writes is returned. `fs.exists` becomes a
predicate `fileExists`, `fs.read` a function `read`, and
`decodeURIComponent` a function `decode`.

In these points the code behaves as follows, and so does the model:

- **Book names.** `extractNameFromPath` keeps the last path segment up to its *first* dot (`a/b.c.md` gives `b`). It does not just strip the extension.
- **Name collisions.** The sync adds a book only when no book of that name is registered yet. So when two configured paths share a name, a book already registered under that name stays; otherwise the first *existing* path in `allPaths` wins, not the last.
- **Block tags.** The block pattern accepts any `vocaview-` tag made of word characters, not only the nine drill tags the plugin registers.
- **Path characters.** The path pattern forbids only `: * ? " < > |`, carriage return and newline. Backslashes are allowed.

## Model

| member | source | states |
|---|---|---|
| WordPairs.ParseLineAccepts | words.ts:25-27 | a line yields a pair exactly when a separator occurs before its last character |
| WordPairs.ParseLineSplitsAtFirstSeparator | words.ts:25-32 | the pair is the trimmed text before the first separator and the trimmed text after it, even when the explanation holds further separators |
| WordPairs.ParseLineRejectsTrailingSeparator | words.ts:26-27 | a line whose first separator is its last character yields nothing |
| WordPairs.FilterMapMembers | words.ts:24-34 | a pair is collected exactly when some line produces it |
| WordPairs.FilterMapAllPresent | words.ts:24-34 | when every line is accepted, the pairs are the lines' pairs one for one, in line order |
| WordPairs.ParseLinesStep | words.ts:24-34 | processing one more line appends its pair, or nothing when the line is rejected |
| WordPairs.Words.constructor | words.ts:22-34 | the collection holds exactly `Parse(src, separator)`, in line order, and `length` is its size |
| WordPairs.Words.PushLine | words.ts:24-33 | the `forEach` callback appends the line's pair or leaves the words alone, keeping `length` in step |
| WordPairs.Swap | words.ts:69-71 | one exchange of `shuffle` keeps the length |
| WordPairs.ShufflePermutes | words.ts:66-73 | `shuffle` permutes its array: the multiset of values is unchanged |
| WordPairs.Shuffle | words.ts:66-73 | the in-place loop leaves the array equal to the specification `Shuffled` of its old contents, and a permutation of them |
| WordPairs.SwapKeepsDistinct | words.ts:69-71 | an exchange keeps distinct values distinct |
| WordPairs.ShuffleKeepsIndices | words.ts:66-73 | shuffling keeps an index array free of repeats and within bounds |
| WordPairs.DrawIndices | words.ts:37-38 | the shuffled index array holds every index once, all in range |
| WordPairs.PickShuffleFrom | words.ts:37-41 | reading through a shuffled index array is the same as shuffling the words |
| WordPairs.PickRange | words.ts:37-41 | reading through the unshuffled index array gives the words themselves |
| WordPairs.DrawWordsFromDistinctPositions | words.ts:35-43 | `getRandomWords(num)` for `num <= length` returns `num` words from distinct positions, a sub-multiset of the collection |
| WordPairs.Words.GetRandomWords | words.ts:35-43 | the method returns `num` entries; the `i`-th is the word at the `i`-th shuffled index, or undefined past `length` |
| WordPairs.Words.GetRandomWord | words.ts:44-46 | a word of the collection, or undefined exactly when it is empty |
| WordPairs.WordsIterator.constructor | words.ts:55-57 | the iterator starts at index 0 over the collection's array |
| WordPairs.WordsIterator.Next | words.ts:58-62 | yields the next word and advances, or reports `done` with an empty word once past the end and stays put |
| JsStrings.LeadingSpaceIsMaximal | words.ts:29-30 | `trim` removes the whole white-space prefix and stops at the first other character |
| JsStrings.TrailingSpaceIsMaximal | words.ts:29-30 | `trim` removes the whole white-space suffix and stops at the last other character |
| JsStrings.TrimIsTrimmed | words.ts:29-30 | `trim`'s result neither starts nor ends with white space, and exactly such strings are left unchanged |
| JsStrings.TrimIsInfix | words.ts:29-30 | the result of `trim` is the input's infix that starts after the leading white space |
| JsStrings.TrimRemovesOnlyWhitespace | words.ts:29-30 | what `trim` drops on either side is white space only |
| JsStrings.TrimAfterWhitespace | words.ts:29-30 | one leading white-space character is dropped from a trimmed string |
| JsStrings.TrimBeforeWhitespace | words.ts:29-30 | one trailing white-space character is dropped from a trimmed string |
| JsStrings.TrimPadded | main.ts:485-487 | white-space padding around a non-empty trimmed string is removed exactly |
| JsStrings.TrimEmpty | main.ts:485 | `s.trim() === ""` exactly when `s` is all white space |
| JsStrings.TrimIsPadded | main.ts:487 | `s.trim() === t` exactly when `t` neither starts nor ends with white space and `s` is `t` with white space around it |
| JsStrings.IndexOf | words.ts:25 | `indexOf` of a character gives its first position, or -1 exactly when it is absent |
| JsStrings.Split | words.ts:23 | `split` yields at least one piece |
| JsStrings.SplitPiecesAreSeparatorFree | words.ts:23 | no piece of `split` contains the separator |
| JsStrings.JoinSplit | vocabularybook.ts:49-53 | joining the pieces of `split` with the same separator gives back the string |
| JsStrings.SplitJoin | vocabularybook.ts:49-53 | splitting a join of separator-free pieces gives back the pieces |
| JsStrings.SplitAround | vocabularybook.ts:49 | splitting at a separator splits each side independently |
| JsStrings.IndexOfSubstringFrom | vocabularybook.ts:79-80 | the search from a position finds the first occurrence at or after it, or none when none follows |
| JsStrings.IndexOfSubstring | vocabularybook.ts:79-80 | the first occurrence of a pattern, or none when it occurs nowhere |
| JsStrings.ReplaceFirst | vocabularybook.ts:79-82 | `replace` with a string pattern leaves the text unchanged when the pattern occurs nowhere; otherwise it splices the replacement over the occurrence at the least position |
| CacheMaps.AsMapKeys | vocabularybook.ts:37-39 | the map's keys are exactly the terms of its entries |
| CacheMaps.AsMapValues | vocabularybook.ts:9 | with distinct terms, each entry is the value of its own term |
| CacheMaps.MapSetKeepsOrder | vocabularybook.ts:28 | `Map.set` on an existing key keeps the insertion order of the keys |
| CacheMaps.MapSetAppends | vocabularybook.ts:28 | `Map.set` on a new key appends the entry |
| CacheMaps.MapSetTerms | vocabularybook.ts:28 | after `set`, the keys are the old keys plus the new one |
| CacheMaps.MapSetUpdates | vocabularybook.ts:28 | `set` keeps the keys distinct and updates the map view at that key only |
| CacheMaps.MapDeleteTerms | vocabularybook.ts:33 | after `delete`, the keys are the old keys other than the deleted one |
| CacheMaps.MapDeleteRemoves | vocabularybook.ts:33 | `delete` keeps the keys distinct and removes exactly that key from the map view |
| CacheMaps.MapDeleteAbsent | vocabularybook.ts:33 | deleting an absent key changes nothing |
| CacheMaps.SetAllIsLastWins | vocabularybook.ts:57-60 | clearing and setting every parsed word in order gives distinct keys and the map where the last duplicate wins |
| CacheMaps.LastWinsPicksLast | vocabularybook.ts:57-60 | a term's value is its last occurrence among the parsed words |
| CacheMaps.LastWinsKeys | vocabularybook.ts:57-60 | the loaded keys are exactly the parsed terms |
| CacheMaps.SetAllDistinct | vocabularybook.ts:57-60 | words whose terms are already distinct are loaded unchanged and in order |
| VocaviewBlocks.WordRunEndIs | vocabularybook.ts:45 | the end of a `[\w]+` run is the first non-word character |
| VocaviewBlocks.WordRunEndIsMaximal | vocabularybook.ts:45 | the run found consists of word characters and cannot be extended |
| VocaviewBlocks.HeaderAtIsHeader | vocabularybook.ts:45 | the header search finds exactly the header lines of the pattern |
| VocaviewBlocks.NoMatchWithoutHeader | vocabularybook.ts:45-46 | no match starts where no header line starts |
| VocaviewBlocks.NoMatchWithoutClosing | vocabularybook.ts:45-46 | no match starts at a header with no closing fence after it |
| VocaviewBlocks.ClosingFoundAt | vocabularybook.ts:45-46 | the lazy `[\s\S]*?` stops at the first closing fence after the header |
| VocaviewBlocks.FirstClosingIsShortest | vocabularybook.ts:45-46 | a header followed by its first closing fence is the shortest match |
| VocaviewBlocks.FindBlockFromIsFirstMatch | vocabularybook.ts:45-46 | the search from a position returns the first match after it, in its shortest form, or none when there is none |
| VocaviewBlocks.FindBlockIsFirstMatch | vocabularybook.ts:45-46 | `regex.exec` returns the leftmost match, shortest body, or `null` exactly when nothing matches |
| VocaviewBlocks.ShortestMatchUnique | vocabularybook.ts:45-46 | a starting position has one shortest match |
| VocaviewBlocks.OpeningsDoNotOverlap | vocabularybook.ts:45 | two block openings cannot overlap |
| VocaviewBlocks.NoHeaderBeforeFirstBlock | vocabularybook.ts:45-46 | no header line starts before the first block |
| VocaviewBlocks.FindBlockFromReaches | vocabularybook.ts:45-46 | a shortest match with no header before it is what the search finds |
| VocaviewBlocks.MatchTextParts | vocabularybook.ts:46-49 | `match[0]` is the header line, a newline, the body and the closing fence |
| VocaviewBlocks.HeaderLineOfMatch | vocabularybook.ts:81 | `match[0].slice(0, match[0].indexOf('\n'))` is the header line |
| VocaviewBlocks.BodyOfMatch | vocabularybook.ts:49-53 | dropping the first and last line of `match[0]` and joining the rest gives the block's body |
| VocaviewBlocks.CopyMatches | vocabularybook.ts:79-80 | every copy of `match[0]` in the note is itself a match |
| VocaviewBlocks.NoEarlierCopy | vocabularybook.ts:79-80 | no copy of `match[0]` occurs before the first block |
| VocaviewBlocks.FirstOccurrenceIsBlock | vocabularybook.ts:79-80 | `replace(match[0], …)` rewrites the first block itself, not an earlier copy of its text |
| BookFiles.SerialiseSnoc | vocabularybook.ts:75-77 | each entry adds its line `word: explanation` and a newline, in insertion order |
| BookFiles.SerialiseIsJoin | vocabularybook.ts:74-77 | the accumulated body is the entries' lines joined by newlines, plus a final newline |
| BookFiles.LoadLastDuplicateWins | vocabularybook.ts:47-60 | loading gives distinct keys, each mapped to its last definition in the block |
| BookFiles.HeaderLineShape | vocabularybook.ts:45 | a block's header line is an opening followed by word characters |
| BookFiles.NewBlockHeaderShape | vocabularybook.ts:89 | the header of an appended block, `vocaview-list1`, has that shape |
| BookFiles.LayoutFound | vocabularybook.ts:45-46 | a note laid out as text, header, body and closing fence, with no header before and no fence in the body, reads back that header and body |
| BookFiles.LayoutKeepsOutside | vocabularybook.ts:79-89 | the text before and after the block is kept byte for byte |
| BookFiles.NoHeaderBeforeBlock | vocabularybook.ts:70 | the text before the first block holds no header line |
| BookFiles.NoHeaderWithoutOpening | vocabularybook.ts:89 | a note with no opening holds no header line, even after a newline is appended |
| BookFiles.ParseLineOfEntry | vocabularybook.ts:76 | the line written for a storable entry parses back to that entry |
| BookFiles.SerialisedBodyHasNoClosing | vocabularybook.ts:81 | the written body of storable entries contains no closing fence |
| BookFiles.SerialisedBody | vocabularybook.ts:81 | trimming the accumulated body removes exactly its final newline |
| BookFiles.ParseSerialised | vocabularybook.ts:55 | parsing the written body gives back the entries |
| BookFiles.StorableBody | vocabularybook.ts:55-60 | loading the written body of distinct storable entries gives back the same entries in the same order |
| BookFiles.SaveRewritesBlock | vocabularybook.ts:72-82 | with a block, the saved note's first block starts where the old one did, keeps its header and holds the new body; the text outside is kept |
| BookFiles.SaveAppendsBlock | vocabularybook.ts:83-90 | for a note with no `vocaview-` opening anywhere (so no block), the save appends a `vocaview-list1` block holding the body and keeps the note as its prefix |
| BookFiles.SaveThenLoad | vocabularybook.ts:41-94 | saving a cache of storable entries (defined under "## Left out") into a note that has a block or no opening at all, and loading the result, gives back the cache |
| VocabularyBooks.ExtractNameFromPath | vocabularybook.ts:111-119 | the name contains no slash and no dot; an undefined path gives the empty name |
| VocabularyBooks.ExtractNameNoDot | vocabularybook.ts:111-119 | a file name without slash or dot is its own name |
| VocabularyBooks.ExtractNameOfFile | vocabularybook.ts:115-118 | the name of `stem.ext` is `stem`; the cut is at the first dot |
| VocabularyBooks.ExtractNameInDir | vocabularybook.ts:115-116 | directories do not change the name |
| VocabularyBooks.BlockText | vocabularybook.ts:45-53 | the text the load parses is the first block's body, or nothing without a block |
| VocabularyBooks.VocabularyBook.constructor | vocabularybook.ts:12-16 | a new book has its path, the name derived from it and an empty cache |
| VocabularyBooks.VocabularyBook.VocabularyBookName | vocabularybook.ts:101-103 | the name is the path's derived name |
| VocabularyBooks.VocabularyBook.HasWord | vocabularybook.ts:37-39 | true exactly when the term is a key of the cache |
| VocabularyBooks.VocabularyBook.AddWord | vocabularybook.ts:27-30 | the cache maps the word's term to the word and is otherwise unchanged; the text written is the save of the new cache |
| VocabularyBooks.VocabularyBook.RemoveWord | vocabularybook.ts:32-35 | the cache loses exactly that term; the text written is the save of the new cache |
| VocabularyBooks.VocabularyBook.LoadWordsFromDiskToCache | vocabularybook.ts:41-62 | the cache becomes `Loaded(content, old cache)`: kept without a block, otherwise the block's words with the last duplicate winning |
| VocabularyBooks.VocabularyBook.SerialiseCache | vocabularybook.ts:74-77 | the loop builds one line per entry in insertion order |
| VocabularyBooks.VocabularyBook.SaveWordsFromCacheToDisk | vocabularybook.ts:64-94 | the text written is `SaveText(content, cache)` |
| VocabularyBooks.AppendIsLayout | vocabularybook.ts:89 | the appended block is the note, a newline, a `vocaview-list1` header, the body and a closing fence |
| VocabularyBooks.SpliceIsLayout | vocabularybook.ts:79-82 | the replacement keeps the text around the block and its header line |
| PathSettings.IsRelativePath | settings.ts:129-133 | an accepted path ends with `.md` |
| PathSettings.DotSegmentsAllowed | settings.ts:131 | the pattern's dot segments contain no forbidden character |
| PathSettings.IsRelativePathMatchesPattern | settings.ts:129-133 | `isRelativePath` holds exactly when the pattern `^[^:*?"<>\|\r\n]+(\.[^…]+)*\.md$` matches |
| PathSettings.ObsidianLinkParts | settings.ts:135-139 | a link is `obsidian://open?vault=V&file=F` with non-empty `V` and `F` free of `&` |
| PathSettings.ObsidianLinkOf | settings.ts:137 | every such assembled link is recognised, with its own vault and file |
| PathSettings.NoEncodedSlashLeft | settings.ts:149 | after the global `%2F` replacement, no `%2F` is left |
| PathSettings.ReplaceWithoutEncodedSlash | settings.ts:149 | text without `%2F` is left unchanged |
| PathSettings.ConvertObsidianLinkToRelativePath | settings.ts:141-155 | a non-link gives the empty string, and no result contains `%2F` |
| PathSettings.ConvertLink | settings.ts:146-150 | a link converts to its decoded file component with `%2F` replaced by `/` |
| PathSettings.FormatPath | settings.ts:161-178 | the result is empty or a relative `.md` path; the empty input gives the empty string |
| PathSettings.RelativePathIsNoLink | settings.ts:129-139 | a relative path is never a link |
| PathSettings.FormatRelativePath | settings.ts:161-178 | a relative path is left as it is |
| PathSettings.FormatPathIdempotent | settings.ts:161-178 | formatting twice is formatting once |
| PathSettings.FormatAppendsExtension | settings.ts:171-173 | an allowed path without `.md` gets the extension appended |
| PathSettings.FormatRejectsForbidden | settings.ts:174-176 | a non-link containing a forbidden character is rejected |
| PathSettings.CheckPath | settings.ts:185-197 | `INVALID` exactly when the pattern does not match; otherwise `EXISTS` exactly when the file exists |
| PathSettings.CheckFormattedPath | settings.ts:161-197 | a formatted path is `INVALID` exactly when formatting rejected it |
| PathSettings.StoredPathAfterEdit | settings.ts:92-117 | an empty edit stores the empty string; a non-empty edit stores its formatted path exactly when `checkPath` reports `EXISTS` for that path, and the empty string otherwise |
| PathSettings.AssignPath | settings.ts:96 | assigning slot `i` changes only that slot; slots past the end become undefined |
| PathSettings.EditPath | settings.ts:92-117 | after an edit, slot `i` holds the stored path and every other slot is unchanged |
| Drills.Sides | main.ts:235-272 | the shown and concealed texts are the term and the explanation, in one order or the other |
| Drills.SidesBySubtype | main.ts:239-269 | subtype 2 shows the explanation, 3 flips the coin, any other subtype shows the term |
| Drills.GetRandomQuestionAndOptions | main.ts:331-357 | a question exactly when there is a word and an option to draw, with `min(length, numOfOptions)` options |
| Drills.QuestionMatchesFirstOption | main.ts:331-357 | the question and `options[0]` are the two sides of the first drawn word; each option is the concealed side of a distinct drawn word |
| Drills.GetRandomQuestionAndAnswer | main.ts:426-446 | a question and answer exactly when there are words; they are the two sides of the drawn word, oriented by subtype |
| Drills.CountHiddenUpdate | main.ts:210-222 | changing one flag moves the hidden counter by exactly that change |
| Drills.CountHiddenExtremes | main.ts:306-328 | the counter is 0 exactly when nothing is hidden, and the length exactly when everything is |
| Drills.ShowHideAllResult | main.ts:306-328 | "show/hide all" gives a flag for every item |
| Drills.ShowHideAllUnifies | main.ts:306-328 | afterwards all items agree; a mixed list follows its majority, a tie hiding; a unified list is toggled |
| Drills.ShowHideAllTwice | main.ts:323-327 | on a unified list, pressing twice restores it |
| Drills.FillItems | main.ts:284-296 | the loop creates one item per word, oriented by its coin, each hidden, and counts them |
| Drills.ListView.constructor | main.ts:275-296 | the list shows one item per parsed word, every explanation hidden, with the counter equal to the item count |
| Drills.ListView.SetHidden | main.ts:210-215 | hides one item; the counter rises only if it was shown |
| Drills.ListView.ClearHidden | main.ts:217-222 | shows one item; the counter falls only if it was hidden |
| Drills.ListView.ToggleHidden | main.ts:224-229 | flips one item and moves the counter by one accordingly |
| Drills.ListView.ShowHideAll | main.ts:306-328 | the flags become `ShowHideAllResult` of the old flags and the counter stays exact |
| Drills.PermutationOfRange | main.ts:379-381 | a shuffled `0 … n-1` holds each index exactly once |
| Drills.ChoiceDrill.Displayed | main.ts:384-391 | the text of each option element is one of the options |
| Drills.ChoiceDrill.constructor | main.ts:359-393 | the quiz draws up to 4 options, displays them through a shuffled index array, allows selection and starts both counters at 0 |
| Drills.ChoiceDrill.Select | main.ts:395-409 | a click is accepted only while selection is allowed; it then closes selection, counts the answer and counts it right exactly when the element shows `options[0]` |
| Drills.ChoiceDrill.NextQuestion | main.ts:411-421 | the next question draws as many options as before, reshuffles the display and reopens selection; the counters are kept |
| Drills.RightOptionDisplayed | main.ts:384-391 | some option element always displays the right answer |
| Drills.SpellCheck | main.ts:481-495 | no verdict exactly when the input is blank; the verdict is right exactly when the answer is non-empty, has no outer white space, and the input is the answer with white space around it |
| Drills.SpellCheckIgnoresPadding | main.ts:485-487 | the answer surrounded by white space is accepted |
| Drills.SpellCheckNeedsTrimmedAnswer | main.ts:487 | an empty answer or one with outer white space is never accepted |
| Drills.CardDrill.constructor | main.ts:448-464 | the card shows the drawn question, with the answer hidden and no spelling mark |
| Drills.CardDrill.ToggleAnswer | main.ts:465-467 | a click on the card flips the answer's visibility and nothing else |
| Drills.CardDrill.CheckSpelling | main.ts:481-495 | blank input leaves the mark; otherwise it marks right or wrong by `SpellCheck` |
| Drills.CardDrill.Next | main.ts:501-510 | "next" draws a new question, hides the answer and clears the mark |
| BookRegistry.UndefinedPathInvalid | main.ts:102-103 | an undefined path (a slot past the array) is matched as the text "undefined" and is `INVALID` |
| BookRegistry.AllPathsAreConfigured | main.ts:98-104 | `allPaths` holds each of the first `numOfVocabularyBooks` configured paths exactly once |
| BookRegistry.CollectAllPaths | main.ts:101-104 | the loop collects `AllPaths` of the first `numOfVocabularyBooks` slots; none for a negative count |
| BookRegistry.KeptIsFilter | main.ts:106-113 | the removal pass keeps a book exactly when its path is in `allPaths` |
| BookRegistry.KeptKeepsNamesDistinct | main.ts:106-113 | the removal pass keeps keys distinct |
| BookRegistry.KeptAllListed | main.ts:106-113 | when every book's path is configured, nothing is removed |
| BookRegistry.RemovalDone | main.ts:107-113 | when the removal loop ends, the books left are those `Kept` keeps |
| BookRegistry.RemoveUnlisted | main.ts:107-113 | the removal loop leaves the books whose paths are configured, in order |
| BookRegistry.AddOneCovers | main.ts:116-128 | after one candidate its name is registered or it is no existing book; a book is added only at an existing path under a new name |
| BookRegistry.AddOneKeepsNamesDistinct | main.ts:116-128 | adding a book for one candidate keeps keys distinct |
| BookRegistry.AddAllAppends | main.ts:115-129 | the addition pass only appends, each time at an existing configured path under a name not yet taken |
| BookRegistry.AddAllCovers | main.ts:115-129 | after the addition pass every candidate is registered by name or is no existing book |
| BookRegistry.AddAllNothingNew | main.ts:115-129 | when every candidate is already accounted for, the addition pass adds nothing |
| BookRegistry.AddAllKeepsNamesDistinct | main.ts:115-129 | the addition pass keeps keys distinct |
| BookRegistry.AddListedBook | main.ts:117-127 | one candidate adds a new loaded book at its path exactly as `AddOne` says, or nothing |
| BookRegistry.NewLoadedBook | main.ts:122-126 | the book created for a path is new, well formed and holds the words loaded from its file |
| BookRegistry.AddListed | main.ts:116-129 | the addition loop appends exactly what `AddAll` appends; each added book is new and loaded |
| BookRegistry.SyncListsOnlyConfiguredBooks | main.ts:97-130 | after a sync the kept books come first in their old order and are the configured ones, each added book is at an existing configured path under a new name, and keys stay distinct |
| BookRegistry.SyncLoadsEveryExistingBook | main.ts:115-129 | after a sync every configured path that exists has a book of its name |
| BookRegistry.SyncIdempotent | main.ts:97-130 | a second sync with the same settings and files adds and removes nothing |
| BookRegistry.VocabularyView.RemoveUnlistedBooks | main.ts:106-113 | the registry keeps exactly the books `Kept` keeps; settings unchanged; keys distinct |
| BookRegistry.VocabularyView.AddListedBooks | main.ts:115-129 | the registry's paths become `AddAll` of the old ones; each new book is fresh and loaded from its file |
| BookRegistry.VocabularyView.SyncVocabularyBooksWithSettings | main.ts:97-130 | the registry's paths become `SyncedPaths` of the old ones and the settings; each book is an old one or a new one loaded from its file; keys stay distinct |


The functions and predicates that the lemmas above are about each model one source function or expression:

- `WordPairs.ParseLine` (words.ts:25-32): one line of the `Words` constructor. See `ParseLineAccepts`, `ParseLineSplitsAtFirstSeparator` and `ParseLineRejectsTrailingSeparator`.
- `WordPairs.ParseLines`, `WordPairs.Parse` (words.ts:22-34): the whole constructor. See `FilterMapMembers`, `FilterMapAllPresent`, `ParseLinesStep` and `Words.constructor`.
- `WordPairs.ShuffleFrom`, `WordPairs.Shuffled` (words.ts:66-73): `shuffle`. See `ShufflePermutes`, `ShuffleKeepsIndices` and `Shuffle`.
- `WordPairs.DrawWords` (words.ts:35-43): `getRandomWords`. See `DrawWordsFromDistinctPositions` and `PickShuffleFrom`.
- `JsStrings.Trim` (words.ts:29-30, main.ts:485-487): `String.prototype.trim`. See the `Trim…` and `…SpaceIsMaximal` lemmas.
- `CacheMaps.MapSet`, `CacheMaps.MapDelete`, `CacheMaps.SetAll` (vocabularybook.ts:28, 33, 57-60): `Map.set`, `Map.delete`, and `clear` followed by `set` in order. See the `MapSet…` and `MapDelete…` lemmas and `SetAllIsLastWins`.
- `VocaviewBlocks.FindBlock` (vocabularybook.ts:45-46, 69-70): `regex.exec` of the block pattern. See `FindBlockIsFirstMatch`.
- `BookFiles.Serialise` (vocabularybook.ts:74-77): the accumulated body. See `SerialiseSnoc` and `SerialiseIsJoin`.
- `BookFiles.SaveText` (vocabularybook.ts:64-94): `saveWordsFromCacheToDisk`. See `SaveRewritesBlock`, `SaveAppendsBlock` and `SaveThenLoad`.
- `BookFiles.Loaded` (vocabularybook.ts:41-62): `loadWordsFromDiskToCache`. See `LoadLastDuplicateWins` and `SaveThenLoad`.
- `PathSettings.IsObsidianLink` (settings.ts:135-139): `isObsidianLink`. See `ObsidianLinkParts`, `ObsidianLinkOf` and `RelativePathIsNoLink`.
- `PathSettings.ReplaceEncodedSlashes` (settings.ts:149): the global `%2F` replacement. See `NoEncodedSlashLeft` and `ReplaceWithoutEncodedSlash`.
- `Drills.OrientationOf` (main.ts:239-269): the subtype switch. See `SidesBySubtype`.
- `Drills.CountHidden` (main.ts:162-184, 206-229): the value `hiddenCounter` tracks. See `CountHiddenUpdate`, `CountHiddenExtremes` and the `ListView` methods.
- `BookRegistry.AllPaths` (main.ts:101-104): the set `allPaths`. See `AllPathsAreConfigured`.
- `BookRegistry.Kept` (main.ts:106-113): the removal pass. See `KeptIsFilter`, `KeptKeepsNamesDistinct` and `KeptAllListed`.
- `BookRegistry.AddOne`, `BookRegistry.AddAll` (main.ts:115-129): the addition pass. See the `AddOne…` and `AddAll…` lemmas.
- `BookRegistry.SyncedPaths` (main.ts:97-130): `syncVocabularyBooksWithSettings`. See the `Sync…` lemmas.

## Left out

- The DOM, CSS classes, event listeners, the 800 ms and 200 ms timers and localised button texts are not modelled. Each drill is a class whose methods are the click, key and timer handlers, acting on the state those handlers change.
- The accuracy text (`toFixed(1)` of a percentage) is floating-point formatting. Only the two counters it is computed from are modelled.
- `onload` (main.ts:29-95) is not modelled: the processor registration, the padding of `vocabularyBookPaths` with empty strings and the initial load of every configured book. `loadSettings`, `saveSettings` and the `settingsChangedCallback` wiring are not modelled either.
- File I/O is not modelled. `fs.read` is the `content` parameter or the `read` function; `fs.write` is the returned text; `fs.exists` is the `fileExists` predicate. Reads are assumed to see the content the caller passes.
- Interleaved saves are not modelled. Two saves each read, change and write the file, so one save can lose the other's update.
- `decodeURIComponent` is the `decode` parameter. Its exception on malformed escapes is not modelled.
- The regular expressions are modelled as the searches and predicates they denote. The regex engine itself is not modelled.
- `trim` uses the ECMAScript white-space and line-terminator characters. Unicode category `Zs` is represented by the characters of that category the model lists.
- SaveText: `String.prototype.replace` expands `$&`, `$'`, `` $` `` and `$$` in its replacement string. The model splices the replacement text literally, so a body containing those sequences is written differently by the plugin.
- SaveThenLoad: the round trip is proved for a note that already has a block or has no opening at all, and for storable entries. An entry is storable when its term is non-empty, has no outer white space, contains no `:` and no newline and does not start with three backticks, and its explanation is non-empty, has no outer white space and contains no newline. The plugin does not check these conditions:
  - A note with an unclosed `vocaview-` header gets a block appended, and the next load pairs that block with the old header.
  - A term containing `:` is split at the wrong place on reload.
  - Padding around a term or an explanation is trimmed away on reload. An empty explanation on the last line makes that line end in the separator, so the line is dropped.
  - A newline inside a term or an explanation splits its line in two.
  - A term starting with three backticks is written as a line that the reload reads as the block's closing fence, so the later entries are lost.
- `printCache` (console output) and `parseInt` in the settings' number field are not modelled. The settings UI is modelled only for the path it stores.
- The `temporarilyDisableOnChange` re-entrancy guard is not modelled, because nothing in the modelled code sets a text field's value.
- Drills.ChoiceDrill.constructor, Drills.CardDrill.constructor: on a block with no words, `getRandomQuestionAndOptions` and `getRandomQuestionAndAnswer` read `wordArr[0]` or `word` of undefined and throw. The constructors require at least one word; the pure functions return `None` for that case.
- The distribution of `Math.random()` is not modelled. Every draw is a parameter, constrained only to be in range.
- BookRegistry.VocabularyView.AddListedBooks: the plugin files a new book in the registry before awaiting its load, and the model loads it first. The load changes only the new book, so the registry ends the same.
- BookRegistry.VocabularyView.RemoveUnlistedBooks: the plugin deletes from the `Map` while iterating over it. The model walks a copy of the registry and stores the result once at the end. Deleting the current entry does not disturb a `Map` iteration, so the books left are the same.
