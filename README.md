# mango-cards catalog parser and page state, in Dafny

The gallery page of mango-cards (script.js) has three parts:

- It loads a flat-text catalog, cards.txt.
- It turns the catalog into a list of cards, five labelled lines per card.
- It keeps a little page state: the detail panel that shows one card, and a light/dark theme remembered in localStorage.

This project models those parts and proves what the script promises about them.

- `JsText` (js_text.dfy) models the JavaScript string operations the parser uses:
  - `trim`, with the full ECMAScript WhiteSpace and LineTerminator set;
  - `toLowerCase`, as far as it affects a comparison with an ASCII label;
  - the first-occurrence search behind `indexOf`;
  - `split` on one character, and `join`.
- `CardParser` (card_parser.dfy) covers the parsing rules as functions:
  - `GetValueFromLine` models `getValueFromLine`: the label before the first colon is matched up to case, and the value is the trimmed rest or `null`.
  - Blank lines are filtered out.
  - Records are read with a stride of five, as groups of five filtered lines.
  - A record is admitted all or nothing.
  - `ParseCatalog` gives the cards one load appends.
- `CatalogFormat` (catalog_format.dfy) is a reference serializer for the catalog layout. It carries the round-trip theorem: parsing the text written for well-formed cards gives those cards back.
- `Gallery` (page.dfy) has a class `Page`. It holds the mutable state of the page:
  - the `cards` array and the rendered tiles;
  - the panel's `active` class, the body's `no-scroll` class and the document's outside-click listener;
  - the `light-mode` class and localStorage's `mode` entry.

  `Page.LoadCards` is the `loadCards` loop as a `while` loop that appends to `cards`. It is proved equal to `ParseCatalog`. The constructor is the startup code. `ShowCardDetails`, `CloseCardDetails`, `CloseCardDetailsOutside`, `HandleCardClick`, `Click` and `ToggleMode` are the click handlers and the theme toggle, and each of them, like `LoadCards`, keeps the page invariant `Valid()`. `Page.AddRecord` is the body of the `loadCards` loop; it may change only `cards`, and is stated by what it appends. The module-level `ToggleTwice`, `Reload` and `ToggleThenReload` relate several calls: two toggles, and a reload after any state or after a toggle.

`GetValueFromLine` is stated by the first colon: find it, compare the trimmed label, take the rest. The script writes it as `split(':')`, then a test on `parts[0]`, then `parts.slice(1).join(':')`. `CardParser.GetValueFromLineSplits` proves that the two formulations agree on every line and key.

For an index past the end of `cards`, `showCardDetails` reads `card.name` of `undefined`. The script then throws before it changes any class or listener, so the model leaves the state unchanged for such an index.

## Model

| member | source | states |
|---|---|---|
| CardParser.GetValueFromLineSplits | script.js:28-34 | The first-colon definition equals the script's split / lower-case compare / `slice(1).join(':')` / trim, or `null`, for every line and key |
| CardParser.NoColonNoValue | script.js:29-33 | A line without a colon yields `null` |
| CardParser.ValueAfterFirstColon | script.js:29-31 | With the first colon at i, the result is the trimmed `line[i+1..]` (later colons kept) if the trimmed label equals the key up to case, and `null` otherwise |
| CardParser.ValueIsTrimmedPiece | script.js:31 | A returned value is already trimmed and holds only characters of its line |
| CardParser.KeyCaseIgnored | script.js:30 | Keys with the same lower case read the same value from every line |
| CardParser.EmptyValueIsNotNull | script.js:30-31 | `name:` under the key `name` gives the empty string, not `null` |
| CardParser.NonBlank | script.js:9 | The filter keeps no more lines than it is given |
| CardParser.NonBlankAppend | script.js:9 | Filtering a concatenation filters each part |
| CardParser.NonBlankMembers | script.js:9 | A line survives the filter exactly when it is in the input and its trim is not empty |
| CardParser.BlankLineIgnored | script.js:9 | A blank line anywhere leaves the filtered lines, and so their grouping, as without it |
| CardParser.NonBlankKeepsAll | script.js:9 | Lines that are all non-blank pass the filter unchanged and in order |
| CardParser.RecordValues | script.js:11-17 | One value per remaining field of the record |
| CardParser.GroupValuesAt | script.js:12-16 | Value m of a record is read from line start+m (or `''` past the end) under the m-th label |
| CardParser.CardFrom | script.js:18-19 | An admitted card has all five fields non-empty |
| CardParser.CardFromSpec | script.js:18-19 | Five values make a card exactly when all five are present and non-empty, and the card holds them in field order |
| CardParser.CardFromFields | script.js:18-19 | Five values that are the fields of a complete card make exactly that card |
| CardParser.GroupCardUnrolled | script.js:11-20 | The record at `start` admits the card of the five values read under the labels `Catbox link`, `Chub link`, `Path_to_image`, `name`, `Description`, or nothing |
| CardParser.MissingLineDropsGroup | script.js:12-16 | A record cut short by the end of the lines is dropped (the missing line reads as `''`, which has no colon) |
| CardParser.Collect | script.js:18-20 | No more cards than groups |
| CardParser.CollectAllPresent | script.js:10-20 | When every group makes a card, the cards are exactly those, in order |
| CardParser.ParseGroupsStep | script.js:10-21 | One more loop pass appends what the next group contributes |
| CardParser.GroupCount | script.js:10 | The number of passes of `i += 5` over n lines is n/5 rounded up |
| CardParser.AdmittedIncreasing | script.js:10-19 | Admitted group positions are group positions and strictly increasing |
| CardParser.AdmittedSources | script.js:10-19 | There are as many cards as admitted groups, and card j is the card of the j-th admitted group |
| CardParser.AdmittedComplete | script.js:10-19 | Every group that makes a card is admitted |
| CardParser.CollectOrder | script.js:10-21 | Cards keep group order, each group gives at most one card, and every group that makes one contributes it |
| CardParser.ParsedCardsComplete | script.js:18-19 | Every parsed card has all five fields non-empty |
| CardParser.ParseLinesBound | script.js:10 | n filtered lines give at most ceil(n/5) cards |
| CatalogFormat.LabelsClean | script.js:12-16 | The five labels are colon-free, single-line and untrimmable |
| CatalogFormat.FormatLineValue | script.js:28-34 | `getValueFromLine` of `key: v` under `key` is `v` for a clean key and trimmed v |
| CatalogFormat.FormatLineClean | script.js:9 | A formatted line survives the blank-line filter and contains no newline |
| CatalogFormat.CatalogLinesAt | script.js:10-16 | The catalog lines of card k are lines 5k..5k+4 |
| CatalogFormat.CatalogLinesClean | script.js:9 | No catalog line is blank or contains a newline |
| CatalogFormat.FormattedField | script.js:12-16 | Line j of a formatted record reads back as field j |
| CatalogFormat.FormattedGroup | script.js:11-20 | Five formatted lines make exactly their card |
| CatalogFormat.CatalogHoldsRecords | script.js:10-16 | The catalog lines lay out every card's record in order |
| CatalogFormat.ParseRecords | script.js:10-21 | Lines holding the records of well-formed cards parse to exactly those cards |
| CatalogFormat.RoundTrip | script.js:9-34 | Parsing the serialized text of cards with non-empty, trimmed, single-line fields gives exactly those cards |
| JsText.TrimSpec | script.js:9 | The trim has no whitespace at either end, is empty exactly for an all-whitespace string, and is a piece of the string |
| JsText.TrimUnique | script.js:31 | The trim is the part between leading and trailing whitespace |
| JsText.TrimIdempotent | script.js:31 | Trimming twice is trimming once |
| JsText.TrimSkipsLeading | script.js:30-31 | A leading whitespace character does not change the trim |
| JsText.LowerSpec | script.js:30 | Lower-casing keeps the length and works code point by code point |
| JsText.SameLowerSpec | script.js:30 | The code-point comparison holds exactly when the two lower-cased strings are equal |
| JsText.FindFromSpec | script.js:29 | The search skips only other characters and stops on the character |
| JsText.FindFromFirst | script.js:29 | The first occurrence is the one with none before it |
| JsText.SplitJoinsBack | script.js:29-31 | Joining the split pieces with the separator gives the string back |
| JsText.SplitPieces | script.js:29-30 | No piece holds the separator; there are two or more pieces exactly when the string holds it |
| JsText.SplitJoin | script.js:9 | Splitting a join of separator-free pieces gives the pieces back |
| Gallery.ModeName | script.js:105 | The stored name is `'light'` exactly when light mode is on, and `'dark'` otherwise |
| Gallery.ModeSurvivesReload | script.js:142-145 | A stored mode name is read back at startup as the mode that stored it |
| Gallery.Page.constructor | script.js:142-145 | An empty grid, the panel closed, and light mode exactly when the stored value is `'light'` |
| Gallery.Page.LoadCards | script.js:5-26 | On a fetched text the cards become the old cards followed by `ParseCatalog(text)`, and the grid is rendered with one tile per card and listening; on a failed fetch nothing changes |
| Gallery.Page.AddRecord | script.js:11-20 | One loop pass appends the record's card when all five values are present, and nothing otherwise |
| Gallery.Page.ShowCardDetails | script.js:55-76 | For an index in range the panel shows card `index`, is active, the body stops scrolling and the outside listener is on; past the end nothing changes |
| Gallery.Page.CloseCardDetails | script.js:78-84 | The panel is inactive, the body scrolls and the outside listener is off; the content is kept |
| Gallery.Page.CloseCardDetailsOutside | script.js:86-91 | Closes the panel exactly when the click is outside it and not on a card |
| Gallery.Page.HandleCardClick | script.js:47-53 | A click on a card's tile shows that card; anywhere else nothing changes |
| Gallery.Page.ToggleMode | script.js:103-106 | Light mode flips and `mode` stores the new mode's name |
| Gallery.Page.Click | script.js:44-91 | The close button closes the panel; otherwise the mode toggle flips the theme and stores its name, a tile opens its card, and any other click outside the panel closes it; `mode` changes only on a toggle click |
| Gallery.ToggleTwice | script.js:103-106 | Two toggles restore the theme |
| Gallery.Reload | script.js:142-145 | Reloading any valid page starts it with the theme it showed and the same stored mode |
| Gallery.ToggleThenReload | script.js:142-145 | A page started from the stored mode after a toggle shows the toggled theme |

## Left out

- Fetching cards.txt, NOTICE.txt and the GitHub issues count is network I/O. `Page.LoadCards` takes the fetched text as an `Option<string>`, where `None` is a failed fetch that the script catches and logs. `loadExtraInfo` and `fetchCardsTodo` are not modelled.
- HTML construction and `innerHTML` are DOM output, so they are left out. The grid is reduced to a tile count, and the panel content to the card it shows.
- DOM event dispatch, `closest`, `contains` and `parseInt` of the tile index are browser mechanics. A click is a `ClickTarget` record saying where it landed. A tile carries its card's index.
- Listener registration is a flag, because the DOM ignores a second registration of the same handler. The close button's listener is tied to the click target rather than kept as state.
- `console.error` logging, the loader fade, `Promise.all`, `setTimeout`, `setInterval` and the scroll-to-top code are timers, asynchrony and floating-point window state.
- localStorage is a single `Option<string>` field for the `mode` key, not persistent storage.
- LowerChar: lower-cases only A-Z and U+212A KELVIN SIGN. That is exact for comparisons with the ASCII labels of the catalog, but not full Unicode `toLowerCase`.
- Strings are sequences of code points, not UTF-16 units. Surrogate pairs are not modelled.
- The page's markup (index.html) is not part of this model. The constructor assumes an initial page with the panel closed and no classes set.
- Gallery.Page.ShowCardDetails: for an index past the end the script throws a TypeError. The model states only the observable outcome, that the state is unchanged, and not the exception.
- Gallery.Page.LoadCards: the loop body is a separate method, `AddRecord`, that changes only `cards`. It pushes the same card the script's loop body pushes.
