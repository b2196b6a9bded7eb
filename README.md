# ArchiveLeaf transcription editor and wiki hooks, in Dafny

ArchiveLeaf lets a user transcribe a scanned page (a *leaf*) of an archive item
in a wiki. This project models two parts of it and proves properties about them.

- **The editor component** `App` (`src/App.js`). It has one text buffer and a caret
  offset. It loads the buffer from the wiki edit form's text box, decoding `<br>`
  line breaks, and writes it back encoded when the editor closes. Every edit is
  autosaved in the browser's `localStorage` under the page's identity, and a
  recovery check offers to restore a record left by an interrupted session. The
  component also keeps the on-screen keyboard and font preferences, recovers the
  caret from a tap on the emulated text view, and in view mode steps between
  leaves through a per-leaf content cache.
  - `App` becomes the class `Editor.App`. Its React state is the field `state`,
    and `localStorage`, the text box and the scheduled recovery checks are fields
    too.
  - Every `setState` is an in-place update of the fields it names. Each handler
    is a method whose postcondition gives the whole new state, and each keeps
    the invariant `Valid()`.
  - The decode/encode pair (module `Markup`), the caret walk (module `Caret`) and
    the font choice (module `Fonts`) are modelled as pure functions and lemmas.
- **The MediaWiki hooks** (`ArchiveLeaf.hooks.php`). Before a page is parsed,
  they remove the blank lines before an opening tag and after a closing tag of
  `<transcription>`, `<transliteration>` and `<translation>`. They then render
  each of those tags as a `div`, under a heading for the last two.
  - The two `preg_replace` calls are modelled as leftmost-first scanners in
    `Collapse`, over the matchers in `TagPatterns`.
  - The rest is pure functions in `ArchiveLeafHooks`.

Regular-expression replacements, in JavaScript and in PHP, are modelled as
scanners. At each position a scanner either takes the match that starts there,
emits the replacement and resumes after the match, or copies one character.
Each pattern's repetitions are greedy and are followed by a character they
cannot consume, so a match never backtracks. The match at a position is
therefore the one the scanner computes.

Some behaviour of `src/App.js` that the model keeps as written:
- `finalizeState` puts the caret at the end of the decoded text (line 199), so
  `"Foo<br>\nBar"` opens as `"Foo\nBar"` with the caret at 7.
- `saveTranscription` appends a newline before replacing ` *\n` (lines 234-237),
  so `"Line1\nLine2"` is saved as `"Line1<br>\nLine2<br>\n"`.
- The caret is never clamped (lines 268, 273, 332). The offsets the editor receives
  lie within the buffer, because they are the text area's selection or a tap in
  the emulated view. The model requires exactly that of its callers.
- `handleKeyPress` does not autosave (line 279). Only `handleTextChange` writes
  the autosave record (line 270).
- In view mode, `setLeaf` neither moves the caret nor schedules a recovery check.
  `finalizeState` does both only in edit mode (lines 195-200).
- The leaf cache stores the page body as fetched (lines 418-420). View mode never
  decodes it.

## Model

| member | source | states |
|---|---|---|
| Editor.App.constructor | src/App.js:95-139 | the initial state of either mode: the font saved for the script (or the default), the keyboard open when a layout exists and it was not saved as closed, and emulation exactly on mobile with the keyboard open; in edit mode the decoded text box with the caret at its end and one recovery check scheduled against it |
| Editor.App.FinalizeState | src/App.js:181-203 | switches to the new item when one is given and derives its autosave key; in edit mode it also loads the decoded text box, puts the caret at its end and schedules a recovery check against that text; nothing else changes |
| Editor.App.HandleOpen | src/App.js:162-168 | opens the editor; in edit mode the text box is loaded again; in view mode the first opening shows the current leaf's contents, through the cache, and fills that cache slot; a failed fetch leaves the state unchanged; in view mode no recovery check is scheduled; no other slot changes; keeps Valid |
| Editor.App.HandleClose | src/App.js:205-214 | closes the editor; in edit mode the text box then holds the encoded buffer and the autosave record is gone; in view mode the text box and storage are untouched |
| Editor.App.SaveTranscription | src/App.js:232-245 | the text box holds `Encode` of the buffer, and the autosave record of the item is removed when there is a key; the state does not change |
| Editor.App.CheckStoredText | src/App.js:216-230 | asks exactly when a non-empty record exists whose trimmed text differs from the loaded text; when the user accepts, restores the trimmed record with the caret at its end; removes a non-empty record whatever the answer; keeps Valid |
| Editor.App.FireTimer | src/App.js:197 | the oldest scheduled recovery check runs against the text it was scheduled with and leaves the queue |
| Editor.App.HandleTextChange | src/App.js:266-275 | a new text sets text and caret together and is autosaved under the item's key; a selection change moves only the caret and writes nothing; the caret stays within the buffer |
| Editor.App.HandleKeyPress | src/App.js:277-280 | the buffer becomes the keyboard's text followed by what lay after the selection end (nothing when that end is past the buffer), and the caret sits right after the keyboard's text, which the new buffer begins with |
| Editor.App.HandleCaretMove | src/App.js:282-298 | a tap in the emulated view moves the caret to the anchor offset plus the lengths of the preceding text nodes, which lies within the buffer; without a selection nothing changes |
| Editor.App.ToggleKeyboard | src/App.js:323-337 | flips the keyboard, emulates the text area exactly when it is open on mobile, takes the text area's caret only when the keyboard opens over the native text area, and stores the new preference |
| Editor.App.SetFont | src/App.js:339-344 | the font becomes the chosen one; storage is written only when it differs from the current font |
| Editor.App.SetTransliterationOpen | src/App.js:346-358 | closing always succeeds; opening succeeds exactly when the buffer is not blank and the request answers, and it then shows the answer; asking for the current state changes nothing |
| Editor.App.GetLeafContents | src/App.js:406-423 | a cached slot is returned without fetching; otherwise the fetch result (`""` without `parse`) is cached and returned, and a failed fetch caches nothing; no other slot changes |
| Editor.App.SetLeaf | src/App.js:425-434 | when the leaf's contents are cached or can be fetched, shows the leaf with them, closes the transliteration and derives the new autosave key; otherwise the state is unchanged; the leaf's cache slot then holds the contents shown and no other slot changes; keeps Valid |
| Editor.App.ClickPrev | src/App.js:488-495 | the previous-leaf button, shown only past the first leaf, does exactly what `SetLeaf` does for the leaf before the current one, and leaves storage, the text box and the scheduled checks alone |
| Editor.App.ClickNext | src/App.js:496-503 | the next-leaf button, shown only before the last leaf, does exactly what `SetLeaf` does for the leaf after the current one, and leaves storage, the text box and the scheduled checks alone |
| Editor.App.HandleKeyDown | src/App.js:247-264 | Escape without modifiers does what `HandleClose` does: it closes, and in edit mode it also saves the encoded buffer and drops the autosave record; in view mode an unmodified ArrowLeft past the first leaf does what `SetLeaf` does for the previous leaf, and an unmodified ArrowRight before the last leaf does it for the next leaf; any other key changes nothing, and only the cache slot of the leaf moved to can change |
| Editor.CloseThenReopen | src/App.js:232-245 | closing an edit session and opening it again restores the buffer, for trimmed text without `<br` and without a space before a newline |
| Editor.RevisitShowsCachedLeaf | src/App.js:406-434 | in view mode a leaf is fetched once: a second visit shows what the first showed, whatever a second fetch would return |
| Editor.RecoverAfterReload | src/App.js:216-230 | text typed and autosaved before a reload is offered by the next session's recovery check; accepting restores it trimmed, and the record is then gone |
| Editor.ItemKeyDistinguishesLeaves | src/App.js:190 | two leaves of one item get different autosave keys |
| Editor.KeyboardPreferencePersists | src/App.js:126 | the preference `toggleKeyboard` stores is the one the next session starts with |
| Strings.DecimalStringInjective | src/App.js:190 | the decimal rendering of a leaf index identifies the index |
| Strings.JsTrim | src/App.js:196 | the result has no JavaScript whitespace at either end, is no longer than the input, and is the input itself when the input is already trimmed |
| Strings.PhpTrim | ArchiveLeaf.hooks.php:50 | the same for PHP's `trim` character set |
| Strings.TrimIdempotent | src/App.js:196 | trimming twice is trimming once |
| Strings.TrimDropsAppended | src/App.js:233-235 | trimming a trimmed text with one whitespace character appended gives the text back |
| Markup.Decode | src/App.js:196 | the decoded text is trimmed and no longer than the text box |
| Markup.ReplaceBreaksLeavesNoTag | src/App.js:196 | after the global replacement, no `<br>`, `<br/>` or `<br />` form remains anywhere |
| Markup.DecodeLeavesNoTag | src/App.js:196 | the decoded text contains no break tag |
| Markup.DecodeFixesTagFree | src/App.js:196 | decoding leaves trimmed text without a break tag unchanged |
| Markup.DecodeIdempotent | src/App.js:196 | decoding already decoded text changes nothing |
| Markup.ReplaceBreaksFixpoint | src/App.js:196 | text without a break tag passes the replacement unchanged |
| Markup.BrTagExamples | src/App.js:196 | `<br />` and `<br/>` are break tags of length 6 and 5; `<br >` is not one |
| Markup.DecodeExample | src/App.js:196-199 | `"Foo<br>\nBar"` decodes to `"Foo\nBar"`, so the caret is placed at 7 |
| Markup.Encode | src/App.js:233-237 | the encoded text is empty exactly when the buffer is blank |
| Markup.EncodeEndsWithBreak | src/App.js:233-237 | a non-blank buffer encodes to text that ends with `<br>\n` |
| Markup.ReplaceNewlinesBreaksLines | src/App.js:237 | after the replacement, every newline is preceded by `<br>`, which is not preceded by a space |
| Markup.EncodeBreaksEveryLine | src/App.js:233-237 | every line of the encoded text ends with `<br>` |
| Markup.ReplaceNewlinesIsExpand | src/App.js:237 | on text without a space before a newline, the replacement equals the reference expansion, which puts `<br>` before each newline |
| Markup.ExpandDecodes | src/App.js:196 | the break replacement undoes the reference expansion on text without `<br` and without a space before a newline |
| Markup.DecodeEncodeRoundTrip | src/App.js:233-237 | decoding an encoded buffer gives it back, for trimmed text without `<br` and without a space before a newline |
| Markup.ReplaceNewlinesKeepsText | src/App.js:237 | for every text, the ` *\n` replacement equals `<br>` inserted before each newline of the text with the spaces directly before a newline dropped (`DropSpacesBeforeNewlines`), so every other character is kept, in order |
| Markup.EncodeKeepsText | src/App.js:233-237 | for every buffer, the encoded text is empty when the buffer is blank, and otherwise it is the trimmed buffer with a newline appended, its spaces before a newline dropped and `<br>` before each newline |
| Markup.DecodeEncodeKeepsText | src/App.js:233-237 | for every buffer without `<br`, decoding the encoded buffer gives the trimmed buffer without the spaces that stood directly before a newline; nothing else is lost |
| Markup.DecodeFixesPlainText | src/App.js:196 | trimmed text without `<br` is already decoded |
| Markup.EncodeTrimmed | src/App.js:233-237 | Proof helper: encoding a trimmed non-empty buffer is the replacement on the buffer with a newline appended |
| Markup.RoundTripDropsSpaceBeforeNewline | src/App.js:237 | a space before a newline does not survive the round trip: `"a \nb"` comes back as `"a\nb"`, though decoding alone keeps it |
| Markup.EncodeExample | src/App.js:233-237 | `"Line1\nLine2"` encodes to `"Line1<br>\nLine2<br>\n"` |
| Markup.EncodeBlankExample | src/App.js:233-236 | a blank buffer encodes to the empty string |
| Caret.CaretOffset | src/App.js:287-293 | the walk back over the preceding siblings returns the anchor offset plus the total length of the preceding text nodes |
| Caret.TextLengthIsFlattenLength | src/App.js:287-293 | the summed node lengths are the length of the text those nodes display |
| Caret.EmulatedView | src/App.js:466-472 | the emulated view (text before the caret, caret marker, text after it) displays exactly the buffer |
| Caret.TapOffsetIndexesText | src/App.js:287-293 | the recovered offset of a tap in a text node is within the displayed text, and what precedes it is what the view displays before the tapped character |
| Caret.EmulatedTapLandsInText | src/App.js:466-472 | a tap in the emulated view gives a caret inside the buffer: the offset itself before the marker, or the caret plus the offset after it |
| Caret.TapInViewLandsInText | src/App.js:466-472 | a tap on either text node of the emulated view gives a caret within the buffer |
| Fonts.InitialFont | src/App.js:104-113 | the saved font when the script's table lists it, otherwise the table's default, and `defaultFont` for a script without a table |
| Fonts.ScriptFontsListDefaults | src/App.js:12-17 | the Balinese table offers its own default |
| Fonts.InitialFontIsOffered | src/App.js:104-113 | for a script with a table, the starting font is always one the menu offers |
| Fonts.SavedFontPersists | src/App.js:104-107 | a font saved by `setFont` is the next session's font when the table lists it, and the default otherwise |
| TagPatterns.ParserTagsAreWords | ArchiveLeaf.hooks.php:20 | the three tag names are non-empty lower-case words |
| TagPatterns.OpenTagMatchesAlternation | ArchiveLeaf.hooks.php:20 | the opening-tag matcher accepts exactly `<` plus one of the tag names plus `>` or a space |
| TagPatterns.CloseTagMatchesAlternation | ArchiveLeaf.hooks.php:21 | the closing-tag matcher accepts exactly `</` plus one of the tag names plus `>` |
| TagPatterns.BlankBeforeOpenParts | ArchiveLeaf.hooks.php:20 | Proof helper: a match of the first pattern is a run of two or more newlines ending at an opening tag, and ends after that tag |
| TagPatterns.BlankAfterCloseParts | ArchiveLeaf.hooks.php:21 | Proof helper: a match of the second pattern is a closing tag followed by its whole run of two or more newlines |
| Collapse.CollapseBeforeOpenMatch | ArchiveLeaf.hooks.php:20 | Proof helper: at a match, the first replacement emits one newline and the tag and resumes after the match |
| Collapse.CollapseBeforeOpenCopy | ArchiveLeaf.hooks.php:20 | Proof helper: where nothing matches, the first replacement copies one character |
| Collapse.CollapseBeforeOpenFromBounds | ArchiveLeaf.hooks.php:20 | the first replacement never lengthens the text |
| Collapse.CollapseBeforeOpenFromFixpoint | ArchiveLeaf.hooks.php:20 | text without a blank line before an opening tag passes the first replacement unchanged |
| Collapse.CollapseBeforeOpenMatchShortens | ArchiveLeaf.hooks.php:20 | a match makes the first replacement's output strictly shorter |
| Collapse.CollapseBeforeOpenFromLeavesNoMatch | ArchiveLeaf.hooks.php:20 | after the first replacement, no blank line remains before an opening tag |
| Collapse.CollapseBeforeOpenFromKeepsText | ArchiveLeaf.hooks.php:20 | the first replacement removes newlines and nothing else |
| Collapse.CollapseAfterCloseMatch | ArchiveLeaf.hooks.php:21 | Proof helper: at a match, the second replacement emits the tag and one newline and resumes after the newline run |
| Collapse.CollapseAfterCloseCopy | ArchiveLeaf.hooks.php:21 | Proof helper: where nothing matches, the second replacement copies one character |
| Collapse.CollapseAfterCloseFromBounds | ArchiveLeaf.hooks.php:21 | the second replacement never lengthens the text |
| Collapse.CollapseAfterCloseFromFixpoint | ArchiveLeaf.hooks.php:21 | text without a blank line after a closing tag passes the second replacement unchanged |
| Collapse.CollapseAfterCloseMatchShortens | ArchiveLeaf.hooks.php:21 | a match makes the second replacement's output strictly shorter |
| Collapse.CollapseAfterCloseFromLeavesNoMatch | ArchiveLeaf.hooks.php:21 | after the second replacement, no blank line remains after a closing tag |
| Collapse.CollapseAfterCloseFromKeepsText | ArchiveLeaf.hooks.php:21 | the second replacement removes newlines and nothing else |
| Collapse.CollapseAfterCloseFromKeepsNoBlankBeforeOpen | ArchiveLeaf.hooks.php:20-21 | the second replacement does not create a blank line before an opening tag |
| ArchiveLeafHooks.OnParserBeforeInternalParse | ArchiveLeaf.hooks.php:19-23 | the hook always lets the other handlers run |
| ArchiveLeafHooks.HookKeepsText | ArchiveLeaf.hooks.php:19-23 | the hook never lengthens the page text and removes nothing but newlines |
| ArchiveLeafHooks.HookLeavesNoBlankLines | ArchiveLeaf.hooks.php:19-23 | after the hook, no blank line is left before an opening or after a closing parser tag |
| ArchiveLeafHooks.HookIdempotent | ArchiveLeaf.hooks.php:19-23 | running the hook again on its output changes nothing |
| ArchiveLeafHooks.HookUnchangedIff | ArchiveLeaf.hooks.php:19-23 | the hook leaves the text unchanged exactly when it has no such blank line |
| ArchiveLeafHooks.HeadingTitle | ArchiveLeaf.hooks.php:42-45 | a title is shown exactly when a heading was registered; a callable heading is applied to the tag's attributes |
| ArchiveLeafHooks.RenderTag | ArchiveLeaf.hooks.php:38-54 | the rendered output is protected from further parsing (`nowiki`) |
| ArchiveLeafHooks.RenderedBody | ArchiveLeaf.hooks.php:40-50 | what it reads back is exactly what lies between the opening div with its heading div and the closing div: the html is that prefix, the body and `</div>` |
| ArchiveLeafHooks.RenderTagBodyRoundTrip | ArchiveLeaf.hooks.php:40-50 | between the opening div with its heading and the closing div, the html holds exactly the trimmed contents |
| ArchiveLeafHooks.RenderTagIgnoresOuterWhitespace | ArchiveLeaf.hooks.php:50 | whitespace around a tag's contents does not change the html |
| ArchiveLeafHooks.GetTranslationHeading | ArchiveLeaf.hooks.php:56-66 | the heading is exactly `Translation` when the tag has no `language` attribute or the table lacks its code, and is never shorter than that |
| ArchiveLeafHooks.LanguageOfHeading | ArchiveLeaf.hooks.php:61 | a heading that names a language is that name followed by ` translation` |
| ArchiveLeafHooks.TranslationHeadingNamesLanguage | ArchiveLeaf.hooks.php:56-66 | the heading names a language exactly when the tag has a `language` attribute whose code is in the ISO 639-3 table, and then it names that code's language |
| ArchiveLeafHooks.RegisteredTags | ArchiveLeaf.hooks.php:14-16 | three tag hooks are registered |
| ArchiveLeafHooks.RegisteredTagsAreParserTags | ArchiveLeaf.hooks.php:14-16 | the registered tags are exactly the tags whose surrounding blank lines the parser hook removes |
| ArchiveLeafHooks.RegisteredHeadings | ArchiveLeaf.hooks.php:14-16 | only the transcription renders without a heading, and a translation is headed by `getTranslationHeading` of its attributes |

## Left out

- Rendering, styling, images, IIIF zoom and the image spinner are not modelled. The keyboard component and its key composition (`Keyboard`, `layouts.js`) are not part of this model. A key press enters only as the text the keyboard hands to `handleKeyPress`.
- `getTransliteration` and the network are not modelled. The transliteration answer and a leaf fetch's outcome are parameters: `Option<string>` and a function from leaf to `FetchResult`. The asynchronous ordering of `setLeaf` and `handleOpen` is collapsed into one atomic step.
- `window.confirm` is a boolean parameter. The one-second `setTimeout` is the queue `pendingChecks`, which `FireTimer` runs in scheduling order. Interleavings of timers with other events are not explored.
- Event listeners, `focusTextArea`, `updateCaret`, platform and selection-API detection, `viewportFix` and pinch-zoom blocking are not modelled. `mobile` is a constructor parameter.
- Strings are sequences of Dafny `char`, each one Unicode scalar value. JavaScript's UTF-16 code units and PHP's byte strings are not modelled. A character outside the Basic Multilingual Plane counts 1 here and 2 in the editor's lengths and caret offsets.
- Editor.App.HandleCaretMove: the model admits only a tap whose selection anchors in one of the two text nodes of the emulated view (`TapInView`). A selection anchored on the caret `span` or on the enclosing `div` itself is excluded, so what the previousSibling walk computes for those anchors is not modelled.
- `server.js` and `src/zwnj.js` are not part of this model.
- The MediaWiki glue is not part of this model: `onParserFirstCallInit`'s `sanitize_leaf_title` function hook, `renderFunctionSanitize`, `onBeforePageDisplay` and the other hooks after line 66.
- ArchiveLeafHooks.GetTranslationHeading: the ISO 639-3 table is the parameter `iso639`. Reading and decoding the JSON file, and a missing or malformed file, are not modelled.
- ArchiveLeafHooks.HeadingTitle: a string heading is always shown as text. PHP's `is_callable` would call a string heading that names a global function. `Auto-transliteration` names none.
- ArchiveLeafHooks.RenderTag: the heading and the tag name are concatenated into the html unescaped, as in the source. The model proves nothing about HTML well-formedness.
- TagPatterns.OpenTagMatchesAlternation, TagPatterns.CloseTagMatchesAlternation: the tag matchers are proved equal to the regular expressions' alternation only for tag sets of lower-case words (`AreWords`). The three registered names are such words.
