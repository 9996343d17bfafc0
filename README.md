# A verified model of the rich-text editor's own logic

The editor is a React and Lexical application. Most of it is framework glue,
but a number of small pieces of its own logic have behaviour that can be stated
and proved. This project models those pieces in Dafny, one module per source file:

- **ColorValues** (`color-picker.tsx`):
  - the colour picker's value layer: the six-digit hex codec `hexToRgb` / `rgbToHex`;
  - the hex and `rgb()`/`rgba()` branches of `parseColorString`;
  - the hex and rgb forms of `colorToString`;
  - the initial colour of the picker root.
- **ColorStore** (`color-picker.tsx`): the observable store `createColorPickerStore`.
  - It is a class whose state record, listener set and call log the setters update in place.
  - Colour and HSV values are boxed in classes, so `Object.is` is reference equality.
- **ImageResizer** (`image.tsx`):
  - `clamp`, the `Direction` bit flags, and the cursor classification;
  - a `Resizer` class whose pointer-down/move/up methods update the `positioning` record;
  - the click rule for the image.
- **Layout** (`layout.tsx`):
  - column counting from a grid template;
  - the insert and update commands of layout containers;
  - the two unwrap transforms;
  - the arrow-key escape out of a layout.
  - The document is a tree of `Node(kind, children)`, and a node's key is its path of child indices.
- **ComponentPicker** (`component-picker-menu.tsx`):
  - wrap-around arrow-key arithmetic with JavaScript's truncating `%`;
  - query filtering of the options;
  - the order of effects on selection.
- **EmojiPicker** (`picker/emoji.tsx`):
  - option construction from the emoji list;
  - the capped filter, including the `lastIndex` state that a `g` regular expression keeps between calls;
  - selection.
- **CountCharacter** (`count-character.tsx`):
  - UTF-16 and UTF-8 lengths over UTF-16 code units, and the word count;
  - the lazily created shared `TextEncoder`, as a class.
- **Table** (`table.tsx`): the insert dialog's Confirm rule, the command it dispatches, and the file's own insert command, which that dispatch does not reach.
- **FontSize** (`toolbar/font-size.tsx`): the read-back of the `font-size` style with its fallback, the clamp to 1..72, and the buttons.
- **BlockFormat** (`toolbar/block-format.tsx`):
  - the drop-down's dispatch, including the list toggle rule;
  - the effect of each action;
  - the toolbar's sync of the active block type.
- **SpeechToText** (`actions/speech-to-text.tsx`): the transcript dispatch of the result listener and the toggle command.
- **FontFormat** (`toolbar/font-format.tsx`): the active-format set and its change-only update.

Shared modules:

- **Wrappers**: `Option` and `Result`.
- **JsText**: ECMAScript whitespace, `trim`, `split(/\s+/)`, run counting, and decimal printing and parsing.
- **Sequences**: filtering and subsequences.

Regular-expression matching, selection-dependent facts (`hasFormat`, "the selection is a range") and floating-point colour maths are parameters of the model.

## Model

| member | source | states |
|---|---|---|
| ColorValues.HexToRgb | src/components/ui/color-picker.tsx:55-65 | components are bytes and alpha is the given one or 1. Anything other than six hex digits after an optional `#` gives black. Six digits give the value of each digit pair |
| ColorValues.RgbToHex | src/components/ui/color-picker.tsx:67-73 | the text starts with `#` and has at least seven characters |
| ColorValues.RgbToHexShape | src/components/ui/color-picker.tsx:67-73 | for byte components the text is 7 characters: `#` and three lower-case hex digit pairs |
| ColorValues.ToHexOfByte | src/components/ui/color-picker.tsx:68-71 | a byte prints as its two lower-case hex digits, zero-padded |
| ColorValues.HexRoundTrip | src/components/ui/color-picker.tsx:55-73 | `hexToRgb(rgbToHex(c), c.a) == c` for byte components |
| ColorValues.ColorToStringForms | src/components/ui/color-picker.tsx:179-186 | the format defaults to hex. The hex form ignores alpha. The rgb form starts with `rgba(` exactly when a < 1 |
| ColorValues.ParseIgnoresSurroundingSpace | src/components/ui/color-picker.tsx:282-283 | parsing a value equals parsing its trim |
| ColorValues.ParseRejectsOtherPrefixes | src/components/ui/color-picker.tsx:282-366 | a trimmed value starting with none of `#`, `rgb`, `hsl`, `hsb` parses to null |
| ColorValues.RgbAndRgbaAgree | src/components/ui/color-picker.tsx:294 | `rgb(` and `rgba(` read the same arguments identically |
| ColorValues.RgbRoundTrip | src/components/ui/color-picker.tsx:179-186 | parsing the rgb form of a colour with non-negative components gives back the components. Alpha comes back when printed and is 1 otherwise |
| ColorValues.HexFormRoundTrip | src/components/ui/color-picker.tsx:282-291 | parsing the hex form of byte components gives the colour with alpha 1 |
| ColorValues.ParseOfOpaque | src/components/ui/color-picker.tsx:294-301 | `rgb(r, g, b)` parses to those components and alpha 1 |
| ColorValues.ParseOfTranslucent | src/components/ui/color-picker.tsx:294-301 | `rgba(r, g, b, x)` parses to the components and `parseFloat(x)` |
| ColorValues.ShortHexIsBlack | src/components/ui/color-picker.tsx:286-289 | every three-digit `#xyz` passes the hex check but parses to black |
| ColorValues.CorrectedReadsShortHex | src/components/ui/color-picker.tsx:286-289 | with shorthand expanded, `#xyz` reads as `#xxyyzz` |
| ColorValues.CorrectedAgreesElsewhere | src/components/ui/color-picker.tsx:282-366 | the correction changes only trimmed values of length 4 |
| ColorValues.InitialColor | src/components/ui/color-picker.tsx:586-588 | the initial colour has byte components and alpha 1 |
| ColorValues.InitialColorDefaultIsBlack | src/components/ui/color-picker.tsx:571-588 | with no value the default `#000000` gives black |
| ColorStore.Added | src/components/ui/color-picker.tsx:419 | `Set.add` keeps the set duplicate-free, and its members are the old ones plus the new one |
| ColorStore.Without | src/components/ui/color-picker.tsx:420 | `Set.delete` keeps exactly the other members |
| ColorStore.UnsubscribeUndoesSubscribe | src/components/ui/color-picker.tsx:417-421 | unsubscribing a newly subscribed listener restores the listener set exactly |
| ColorStore.WithoutAbsent | src/components/ui/color-picker.tsx:420 | deleting a listener that is not subscribed changes nothing |
| ColorStore.Store.constructor | src/components/ui/color-picker.tsx:411-416 | the store starts with the given state, no listeners and no calls made |
| ColorStore.Store.Subscribe | src/components/ui/color-picker.tsx:417-419 | adds the listener and changes nothing else |
| ColorStore.Store.Unsubscribe | src/components/ui/color-picker.tsx:420 | removes only that listener and changes nothing else |
| ColorStore.Store.Notify | src/components/ui/color-picker.tsx:484-490 | calls every listener once, in subscription order, and changes no state |
| ColorStore.Store.SetColor | src/components/ui/color-picker.tsx:431-444 | without state, or with the same object, nothing happens. Otherwise only the colour changes; `onColorChange` gets `colorToString(value, format)` if supplied; then every listener is called |
| ColorStore.Store.SetHsv | src/components/ui/color-picker.tsx:445-459 | as SetColor for the HSV field, reporting the colour of `hsvToRgb(value)` |
| ColorStore.Store.SetOpen | src/components/ui/color-picker.tsx:460-471 | an unchanged value or no state does nothing. Otherwise only `open` changes, `onOpenChange` gets the value once, and listeners are notified |
| ColorStore.Store.SetFormat | src/components/ui/color-picker.tsx:472-483 | the same as SetOpen, for the format |
| ColorStore.Store.SyncValue | src/components/ui/color-picker.tsx:652-659 | a controlled value sets the colour from `hexToRgb` with the current alpha, then its HSV. Open and format are untouched |
| ColorStore.InitialStateDefaults | src/components/ui/color-picker.tsx:586-596 | without props the picker starts black, closed and in hex. Controlled props win over defaults |
| ImageResizer.Clamp | src/components/editor/ui/image.tsx:402-404 | the result is in [min, max] when min ≤ max. It equals the value when that is in range, and is max when min > max |
| ImageResizer.ClampMonotone | src/components/editor/ui/image.tsx:402-404 | clamp is monotone in the value |
| ImageResizer.DirectionFlags | src/components/editor/ui/image.tsx:406-411 | the four directions are distinct single bits |
| ImageResizer.HandleShapes | src/components/editor/ui/image.tsx:616-660 | the eight handles are the four single flags and the four north/south × east/west pairs |
| ImageResizer.CursorsMatchHandles | src/components/editor/ui/image.tsx:472-479 | E/W give `ew`, N/S give `ns`, NW/SE give `nwse`, NE/SW give `nesw` |
| ImageResizer.DraggedWidthMonotone | src/components/editor/ui/image.tsx:565-573 | the width stays in [100, max] and grows as an east handle moves right or a west handle moves left |
| ImageResizer.DraggedHeightMonotone | src/components/editor/ui/image.tsx:557-564 | the height stays in [100, max] and grows as a south handle moves down or a north handle moves up |
| ImageResizer.NoDragKeepsSize | src/components/editor/ui/image.tsx:565-573 | a pointer that has not moved keeps an in-range start width |
| ImageResizer.Resizer.constructor | src/components/editor/ui/image.tsx:437-470 | not resizing, and the width and height limits come from `maxWidth` and the root element |
| ImageResizer.Resizer.PointerDown | src/components/editor/ui/image.tsx:502-534 | nothing when the editor is not editable. Otherwise it records the start and current sizes and the pointer, sets resizing, and stores the direction |
| ImageResizer.Resizer.PointerMove | src/components/editor/ui/image.tsx:536-574 | nothing unless resizing. Horizontal moves set the dragged width and vertical moves the dragged height. Start values are kept |
| ImageResizer.Resizer.PointerUp | src/components/editor/ui/image.tsx:576-599 | when resizing it reports the current size, stops resizing and zeroes every size and position field, keeping the direction. Otherwise it reports nothing and changes nothing |
| ImageResizer.EastDrag | src/components/editor/ui/image.tsx:502-599 | a full east drag reports the dragged width and the original height, and ends not resizing |
| ImageResizer.OnClick | src/components/editor/ui/image.tsx:213-233 | a click is handled exactly when resizing or on the image. While resizing, or off the image, it has no effect |
| ImageResizer.ClickSelection | src/components/editor/ui/image.tsx:213-233 | a shift-click on the image flips its selection, so two restore it. A plain click selects |
| Layout.ItemsCount | src/components/editor/plugins/layout.tsx:206-208 | the column count is at least 1 |
| Layout.ItemsCountIsTrackCount | src/components/editor/plugins/layout.tsx:206-208 | the count is the number of whitespace-separated tokens, and 1 for a blank template |
| Layout.PresetCounts | src/components/editor/plugins/layout.tsx:26-32 | the five preset templates give 2, 2, 3, 3 and 4 columns |
| Layout.NewContainer | src/components/editor/plugins/layout.tsx:130-141 | a container with the template and exactly `ItemsCount(template)` new items, each holding one paragraph |
| Layout.ResizeItems | src/components/editor/plugins/layout.tsx:157-174 | the two loops compute `ResizedChildren`. Growth appends new items. Shrinking removes the layout items at positions from the new count up to the old one, keeps other children there, and keeps all else in order |
| Layout.ResizeWellFormed | src/components/editor/plugins/layout.tsx:157-174 | from exactly `prev` items the result is exactly `count` items: the first `min(prev, count)` are kept and the rest are new |
| Layout.ReplaceAtFinds | src/components/editor/plugins/layout.tsx:151-155 | after a replacement the key leads to the new node |
| Layout.ReplaceAtElsewhere | src/components/editor/plugins/layout.tsx:151-155 | a replacement leaves every node off the replaced path where it was |
| Layout.UpdateLayout | src/components/editor/plugins/layout.tsx:147-179 | always handled. A key that is not a container changes nothing. Otherwise the document is the old one with that container replaced by one holding the new template and the resized children |
| Layout.Unwrap | src/components/editor/plugins/layout.tsx:183-187 | a node is replaced by its children, in order, among its siblings |
| Layout.TransformItem | src/components/editor/plugins/layout.tsx:181-190 | an item whose parent is not a container is unwrapped; otherwise nothing changes |
| Layout.TransformContainer | src/components/editor/plugins/layout.tsx:191-199 | a container with any non-item child is unwrapped; one with only items is left unchanged |
| Layout.UnwrapKeepsText | src/components/editor/plugins/layout.tsx:181-199 | unwrapping keeps the document text and its order |
| Layout.NearestContainer | src/components/editor/plugins/layout.tsx:101 | the node found is a container and is the node or one of its ancestors, with no container between it and the node. None exactly when no node on the path is a container |
| Layout.EscapeTarget | src/components/editor/plugins/layout.tsx:98-121 | an insertion point is always an existing node and a valid child index |
| Layout.OnEscapeExactly | src/components/editor/plugins/layout.tsx:98-121 | the document changes exactly when the selection is a collapsed range at offset 0 whose nearest container has a parent, is that parent's first (last) child, and has the anchor as its first (last) descendant. Then an empty paragraph is inserted right before (after) the container |
| Layout.OnEscapeEffect | src/components/editor/plugins/layout.tsx:98-121 | always returns false, and changes nothing unless the selection is collapsed at offset 0. Any change adds one empty paragraph next to the container |
| ComponentPicker.JsRem | src/components/editor/plugins/component-picker-menu.tsx:42-46 | JavaScript `%`: the remainder has the sign of the dividend |
| ComponentPicker.ArrowUp | src/components/editor/plugins/component-picker-menu.tsx:39-43 | from no highlight or an index in [0, n) the highlight lands in [0, n) |
| ComponentPicker.ArrowDown | src/components/editor/plugins/component-picker-menu.tsx:44-46 | from no highlight or an index in [0, n) the highlight lands in [0, n) |
| ComponentPicker.ArrowsStayInRange | src/components/editor/plugins/component-picker-menu.tsx:39-46 | up from 0 wraps to n−1, down from n−1 wraps to 0; otherwise each key steps by one |
| ComponentPicker.ArrowsInverse | src/components/editor/plugins/component-picker-menu.tsx:39-46 | down then up, and up then down, return to the highlighted index |
| ComponentPicker.ArrowUpFromBelow | src/components/editor/plugins/component-picker-menu.tsx:42 | from a stale negative index ArrowUp stays ≤ 0, because `%` truncates |
| ComponentPicker.NoQueryShowsBase | src/components/editor/plugins/component-picker-menu.tsx:91-93 | a null or empty query shows exactly the base options |
| ComponentPicker.QueryFiltersBase | src/components/editor/plugins/component-picker-menu.tsx:95-102 | a query shows the dynamic options, then the matching base options. The latter are a subsequence of the base with every matching one kept |
| ComponentPicker.SelectRunsOnceThenCloses | src/components/editor/plugins/component-picker-menu.tsx:112-116 | the trigger text is removed if present, then the option runs exactly once, then the menu closes |
| EmojiPicker.EmojiOptions | src/components/editor/plugins/picker/emoji.tsx:47-56 | one option per emoji |
| EmojiPicker.OptionsFromEmojis | src/components/editor/plugins/picker/emoji.tsx:49-54 | the title is the first alias, and the keywords are the aliases then the tags |
| EmojiPicker.FilterFrom | src/components/editor/plugins/picker/emoji.tsx:66-67 | the stateful filter returns options from the list, in order |
| EmojiPicker.FilteredOptions | src/components/editor/plugins/picker/emoji.tsx:36-69 | there are at most 15 suggestions |
| EmojiPicker.KeepSound | src/components/editor/plugins/picker/emoji.tsx:65-67 | an option kept from any `lastIndex` has its title or a keyword matching the query from the start |
| EmojiPicker.FilterFromSound | src/components/editor/plugins/picker/emoji.tsx:65-67 | every option the stateful filter keeps matches the query, for any option list |
| EmojiPicker.SuggestionsBounded | src/components/editor/plugins/picker/emoji.tsx:36-69 | the suggestions are options of the list, in list order, and each matches the query. A null query gives the first min(15, n) |
| EmojiPicker.KeepIsMatch | src/components/editor/plugins/picker/emoji.tsx:65-67 | for an option whose title is its first keyword, the `g` state left by the previous option does not change whether it is kept |
| EmojiPicker.FilterIsStateless | src/components/editor/plugins/picker/emoji.tsx:65-67 | for such options the stateful filter equals the plain filter on matching |
| EmojiPicker.QuerySuggestions | src/components/editor/plugins/picker/emoji.tsx:47-69 | when every emoji has an alias, a query's suggestions are the first 15 matching options, in order |
| EmojiPicker.SelectInsertsEmoji | src/components/editor/plugins/picker/emoji.tsx:71-80 | outside a range selection nothing happens. Otherwise the trigger text is removed, the emoji inserted once, and the menu closed |
| CountCharacter.Decode | src/components/editor/plugins/actions/count-character.tsx:23-32 | reading code points consumes every code unit |
| CountCharacter.Utf8Bytes | src/components/editor/plugins/actions/count-character.tsx:31 | the UTF-8 form has 1, 2, 3 or 4 bytes by code point range (section 3 of RFC 3629) |
| CountCharacter.AsWrittenExactOnBasicPlane | src/components/editor/plugins/actions/count-character.tsx:26-29 | without surrogates the fallback is the UTF-8 byte length |
| CountCharacter.AsWrittenMiscountsSurrogatePair | src/components/editor/plugins/actions/count-character.tsx:27-28 | one supplementary character counts 5, where UTF-8 has 4 bytes |
| CountCharacter.Utf8Length | src/components/editor/plugins/actions/count-character.tsx:23-32 | with a `TextEncoder`, the UTF-8 byte length. Without one, the fallback as written: it throws exactly on a lone surrogate, and gives the UTF-8 byte length on text without surrogates |
| CountCharacter.Utf8LengthIndependentOfPlatform | src/components/editor/plugins/actions/count-character.tsx:23-32 | with or without a `TextEncoder`, `utf8Length` agrees on text without surrogates |
| CountCharacter.PlatformsDisagreeOnSupplementary | src/components/editor/plugins/actions/count-character.tsx:23-32 | on U+1F600 the fallback as written gives 5 and the encoder 4 |
| CountCharacter.FallbackIsUtf8Length | src/components/editor/plugins/actions/count-character.tsx:23-32 | the corrected fallback throws exactly on a lone surrogate and otherwise is the UTF-8 byte length |
| CountCharacter.Utf8LengthCorrectedIndependentOfPlatform | src/components/editor/plugins/actions/count-character.tsx:23-32 | with the corrected fallback, `utf8Length` agrees with and without a `TextEncoder` on all text without lone surrogates |
| CountCharacter.Strlen | src/components/editor/plugins/actions/count-character.tsx:38-43 | UTF-16 length is the number of code units. UTF-8 length is `utf8Length`: the byte length with an encoder or on text without surrogates, and a throw without an encoder exactly on a lone surrogate |
| CountCharacter.CountWordsIsRunCount | src/components/editor/plugins/actions/count-character.tsx:45-47 | the word count is the number of maximal non-whitespace runs, and at most the UTF-16 length |
| CountCharacter.CountWordsOfBlank | src/components/editor/plugins/actions/count-character.tsx:45-47 | empty or all-whitespace text has 0 words |
| CountCharacter.EncoderSlot.Get | src/components/editor/plugins/actions/count-character.tsx:11-21 | null without a platform encoder. Otherwise one instance is created on first use and the same one is returned afterwards |
| CountCharacter.GetTwiceSameInstance | src/components/editor/plugins/actions/count-character.tsx:11-21 | two calls return the same encoder |
| Table.ConfirmRule | src/components/editor/plugins/table.tsx:90-97 | for whole numbers Confirm is enabled exactly when 1 ≤ rows ≤ 500 and 1 ≤ columns ≤ 50. NaN disables it |
| Table.NumberOfDigits | src/components/editor/plugins/table.tsx:93 | `Number` of a digit string is a non-negative number |
| Table.DialogCases | src/components/editor/plugins/table.tsx:86-98 | the 5 × 5 defaults enable Confirm, and an empty input disables it. 500 × 50 is enabled; 501 rows or 51 columns is disabled |
| Table.OnConfirm | src/components/editor/plugins/table.tsx:100-106 | Confirm sends the typed row and column text unchanged, with no header flag |
| Table.Dispatch | src/components/editor/plugins/table.tsx:158-164 | the file's handler receives exactly `INSERT_NEW_TABLE_COMMAND` |
| Table.DialogBypassesHandler | src/components/editor/plugins/table.tsx:100-164 | a confirmed dialog's command never reaches the file's handler. Sent to it, the payload would be claimed and give a whole-numbered table of 1..500 rows by 1..50 columns |
| FontSize.ParseInt | src/components/editor/plugins/toolbar/font-size.tsx:25 | `parseInt` is NaN exactly when no digit follows the leading whitespace and optional sign |
| FontSize.ReadsBackPx | src/components/editor/plugins/toolbar/font-size.tsx:24-38 | a positive size written as `${n}px` is read back as n |
| FontSize.SizeFromStyle | src/components/editor/plugins/toolbar/font-size.tsx:24-25 | the shown size is never 0: it is 16 or the parsed integer |
| FontSize.SizeFromStyleFallback | src/components/editor/plugins/toolbar/font-size.tsx:24-25 | NaN and 0 fall back to 16; any other parsed integer is shown |
| FontSize.ClampSize | src/components/editor/plugins/toolbar/font-size.tsx:33 | the size is in [1, 72], unchanged when already in range, and the nearer bound otherwise |
| FontSize.UpdateFontSize | src/components/editor/plugins/toolbar/font-size.tsx:31-45 | the applied size is in [1, 72] and equals an in-range request. The selection is patched exactly when there is one |
| FontSize.UpdateThenToolbarAgree | src/components/editor/plugins/toolbar/font-size.tsx:22-45 | an integer size is applied as an integer in [1, 72] that the toolbar reads back unchanged |
| FontSize.ButtonSteps | src/components/editor/plugins/toolbar/font-size.tsx:52-89 | decrease is disabled exactly at ≤ 1 and increase at ≥ 72. Inside the range they step by one, and a size above 73 steps down to 72 |
| BlockFormat.HandleSelectionChange | src/components/editor/plugins/toolbar/block-format.tsx:113-170 | no key does nothing; exactly the nine offered keys act. `paragraph` converts to a paragraph, `h1`–`h3` to that heading and `quote` to a quote |
| BlockFormat.ListToggle | src/components/editor/plugins/toolbar/block-format.tsx:118-169 | re-selecting the active list type gives a paragraph. Re-selecting an active heading, quote or code re-applies it |
| BlockFormat.ListKeyInsertsList | src/components/editor/plugins/toolbar/block-format.tsx:137-145 | a list key other than the active type dispatches its list command |
| BlockFormat.Perform | src/components/editor/plugins/toolbar/block-format.tsx:118-169 | only list actions dispatch a list command. Outside a range selection nothing else changes. No action changes nothing |
| BlockFormat.CodeOnSelection | src/components/editor/plugins/toolbar/block-format.tsx:154-169 | code converts a collapsed selection's block, and wraps a non-collapsed selection's text in a new code node. Outside a range selection it does nothing |
| BlockFormat.UpdateToolbar | src/components/editor/plugins/toolbar/block-format.tsx:75-100 | the active block type stays one of the nine keys. Outside a range selection it is unchanged. A list element gives the nearest list's type, or its own. A heading element gives its tag when offered, and otherwise leaves the type |
| BlockFormat.ToolbarFollowsElement | src/components/editor/plugins/toolbar/block-format.tsx:93-98 | a known node type becomes the block type, and an unknown one leaves it unchanged |
| SpeechToText.DispatchRules | src/components/editor/plugins/actions/speech-to-text.tsx:56-72 | non-final results and non-range selections edit nothing. `undo`/`redo`, in any case and spacing, dispatch their command |
| SpeechToText.OtherTranscripts | src/components/editor/plugins/actions/speech-to-text.tsx:73-76 | when only the three voice commands are looked up, any other final transcript in a range selection inserts a paragraph if it has a line feed, and otherwise is inserted verbatim |
| SpeechToText.NewlineCommandUnreachable | src/components/editor/plugins/actions/speech-to-text.tsx:22-69 | the `'\n'` voice command can never be looked up, because the key is trimmed |
| SpeechToText.ProtoThrows | src/components/editor/plugins/actions/speech-to-text.tsx:69-72 | as written, a transcript keyed `__proto__` calls a non-function and throws |
| SpeechToText.ConstructorIsSwallowed | src/components/editor/plugins/actions/speech-to-text.tsx:69-72 | a transcript keyed `constructor` edits nothing as written, and would otherwise be inserted |
| SpeechToText.ConstructorExample | src/components/editor/plugins/actions/speech-to-text.tsx:69-72 | the transcript "constructor" is dropped as written and inserted when corrected |
| SpeechToText.AsWrittenDiffersOnlyOnInherited | src/components/editor/plugins/actions/speech-to-text.tsx:69-76 | the two lookups differ only for the keys `constructor` and `__proto__` |
| SpeechToText.PressToggles | src/components/editor/plugins/actions/speech-to-text.tsx:99-122 | the command is handled and sets both flags to the payload. A press flips listening, and two presses restore it |
| FontFormat.NewFormatsExactly | src/components/editor/plugins/toolbar/font-format.tsx:12-30 | a format is active exactly when it is one of the four and the selection has it |
| FontFormat.SameFormatsIsEquality | src/components/editor/plugins/toolbar/font-format.tsx:33 | the size-and-containment check holds exactly when the sets are equal |
| FontFormat.UpdateReflectsSelection | src/components/editor/plugins/toolbar/font-format.tsx:23-39 | for range and table selections the active set becomes the selection's formats, replaced exactly when different. Other selections keep the state |
| FontFormat.UpdateToolbar | src/components/editor/plugins/toolbar/font-format.tsx:23-39 | after a range or table selection the active set is the selection's formats. Any other selection keeps the state |
| FontFormat.ToggleShowsSelection | src/components/editor/plugins/toolbar/font-format.tsx:23-52 | after a range or table selection each toggle shows as selected exactly when the selection has its format, and otherwise as before. Pressing it dispatches its own format |

## Left out

- The hsl and hsb branches of `parseColorString` and `colorToString`, `rgbToHsv`/`hsvToRgb`/`rgbToHsl`/`hslToRgb`, and the area's pointer maths: floating-point colour maths. These are function parameters or symbolic text.
- The printing of an alpha number: `Number.prototype.toString` is a parameter; the rgb round trip assumes it writes digits and a point.
- ColorValues.RgbToHex: its own contract gives only the leading `#` and the length. The three two-digit fields are stated for byte components by RgbToHexShape and ToHexOfByte.
- ColorValues.RgbRoundTrip: components are unbounded integers printed in plain decimal. JavaScript prints numbers from 1e21 up in exponent form and holds integers exactly only below 2^53, so there the round trip covers only smaller components.
- ColorValues.ColorToStringForms: of the rgb form it states the `rgba(`/`rgb(` choice; the rest of the text is covered by RgbRoundTrip, which parses it back.
- `Math.round` in `rgbToHex` is the identity on the integer components modelled.
- ImageResizer.Resizer.PointerMove: the corner height `width / ratio` is a parameter, and the zoom level is taken as 1 with integer coordinates.
- The pointer-event listeners and their removal, the cursor style on the document, and the `isResizing` React state beside `positioning`: DOM side effects.
- `$insertNodeToNearestRoot`, `$setBlocksType`, selections, history, node keys and the editor update queue: Lexical internals. Layout keys are child-index paths, and selections are plain records.
- Layout.Unwrap: it models the result of moving each child before the node and then removing the node, not the individual moves.
- The regular-expression engine and invalid user expressions that throw: matching is a parameter. The emoji filter's search keeps the `lastIndex` state; every kept option is proved to match whenever the search finds from the start what it finds later, but equality with the plain filter (no matching option dropped) is proved only when each title is also the first keyword.
- The dialog's Confirm dispatches `INSERT_TABLE_COMMAND` of `@lexical/table`, handled by the table plugin of `@lexical/react` that the editor mounts. That plugin's table creation is Lexical's and is not modelled; the file's own `INSERT_NEW_TABLE_COMMAND` handler is modelled but receives no dispatch from the dialog.
- `Number()` and `parseInt` on general strings (hex prefixes, exponents, `"2.5"`): the Confirm rule is stated on numbers, and `Number` only on digit strings.
- FontSize.ButtonSteps: the shown size is an integer. `updateFontSize` stores the clamped number, so a fractional size typed into the input would be shown and stepped from; fractional sizes are not modelled for the buttons.
- `toLowerCase` beyond A–Z: non-ASCII case mapping is not modelled.
- `type in blockTypeToBlockName` also sees inherited names such as `constructor`. No node type or heading tag has such a name, so the model uses the nine own keys.
- The `TextEncoder` itself: the shared encoder's `encode` is taken to produce UTF-8, with U+FFFD for a lone surrogate.
- Web Speech recognition start/stop, the recognition lifecycle and the report of interim results: browser I/O.
- React rendering, hooks, contexts, HeroUI components and everything outside the named files.

## Findings

| source | as written | input that shows it | evidently intended | confidence | as-written member | corrected member |
|---|---|---|---|---|---|---|
| src/components/editor/plugins/actions/speech-to-text.tsx:69-72 | `VOICE_COMMANDS[key]` on a plain object also finds inherited properties. For the key `constructor` it calls `Object`, which edits nothing; for `__proto__` the call throws | the final transcript "constructor" | only the three voice commands are looked up, and any other transcript is inserted | not executed | SpeechToText.ConstructorExample | SpeechToText.OtherTranscripts |
| src/components/editor/plugins/actions/count-character.tsx:27-28 | the fallback adds one per `%8x`–`%Bx` escape, i.e. per continuation byte | the text of U+1F600 (two code units): 2 + 3 = 5 | UTF-8 byte length, 4 | not executed | CountCharacter.AsWrittenMiscountsSurrogatePair | CountCharacter.FallbackIsUtf8Length |
| src/components/ui/color-picker.tsx:286-289 | `#abc` passes the three-or-six-digit check, but `hexToRgb` reads only six digits and returns black | `#abc` | `#aabbcc` | not executed | ColorValues.ShortHexIsBlack | ColorValues.CorrectedReadsShortHex |
