# mtgdeckset deck-list engine in Dafny

mtgdeckset is a single-page tool for Magic: The Gathering players. The user
pastes a deck list such as `4 Lightning Bolt (M10) 146`, one card per line.
The page looks every name up in a local copy of the card table and shows
the cards grouped by set, colour, rarity or type, with one tick box per
copy so the user can check off what they already own.

This project models the engine behind that page, the `AppComponent` of
`src/app/app.component.ts`, and proves properties of it:

- **Line parsing** (`DeckList.ParseLine`). The line is trimmed and split on
  single spaces. The first `x` of the amount token is dropped; the rest
  must be a non-empty decimal number. The name is the remaining tokens
  joined again, cut at the first `(` or `[`, and trimmed.
- **Resolution** (`DeckList.Resolve`, `DeckList.ParseCardLine`). Basic
  lands become one synthetic row without a lookup. A name no printing
  carries becomes one `Unfound` row. A known name becomes one row per
  distinct set among its printings.
- **The derived lists** (`DeckList.AllCards`, `UnfoundCards`,
  `CardsAndSets`, `OrderedSets`, `Recompute`). These are the signal graph
  written as functions of the deck text, the card table and the sort
  choice.
- **The checklist** (`Checklist.ChecklistState`). This is a class holding a
  map from card name to an array of tick boxes, the key order, and the two
  counters `totalUniqueCards` and `incompleteCards`. Its methods are the
  rebuild effect, `toggleCollectionCard` and `recalculateIncomplete`. Its
  functions are the queries `isSetComplete` and `getOrderedCardsFromSet`.
  A ghost field `boxes` holds the checklist as a value; the specification
  functions `Build`, `ChecklistBoxes` and `ChecklistUnticked` work on that value.
- **JavaScript and lodash primitives** (`Strings`, `Lodash`).
  `trim`, `split`/`join`, `indexOf`, `slice`, `replace` with a string
  pattern, `uniqBy`, `groupBy`, `sortBy` and the order of
  strings, each to the extent the component uses it.

The model keeps these behaviours of the code:

- A bare amount such as `4` is accepted, with an empty name. The check
  `!cardTextPotential` tests an array, which is always truthy.
- A tab after the amount is not a separator, so `4<TAB>Bolt` is rejected.
- The `x` is removed wherever it first occurs in the amount token, so
  `4x4` reads as `44`.
- When a name occurs on several lines, the rebuild keeps the boxes of the
  last row written with that name.
- `totalUniqueCards` is the number of boxes, not the number of names.

`DeckList.ParseBareAmount` and `DeckList.ParseTabbed` state the first two as concrete cases.

Files:

- `wrappers.dfy`: `Option`.
- `strings.dfy`: the string primitives.
- `lodash.dfy`: the collection primitives.
- `cards.dfy`: the card records of `src/db/card.ts`.
- `decklist.dfy`: parsing, resolution and the derived lists.
- `checklist.dfy`: the checklist.

## Model

| member | source | states |
|---|---|---|
| Strings.Trim | src/app/app.component.ts:175 | the result is the input with its leading white-space run and a trailing white-space run removed; no white space at either end; empty exactly when the input is all white space |
| Strings.IndexOf | src/app/app.component.ts:186-187 | -1 exactly when the character is absent, otherwise the first position holding it |
| Strings.RemoveFirst | src/app/app.component.ts:179 | the string is unchanged when the character is absent; otherwise one character shorter, one copy of that character fewer: the text before its first occurrence and the text after it, in place |
| Strings.Split | src/app/app.component.ts:178 | at least one piece, no piece contains the separator, and joining the pieces with the separator gives the input back |
| Strings.JoinSeparators | src/app/app.component.ts:184 | the first piece is a prefix of the join, and when no piece holds the separator the join holds exactly one fewer separator than there are pieces |
| Strings.SplitJoin | src/app/app.component.ts:178-184 | splitting the join of separator-free pieces gives the pieces back |
| Strings.SplitCons | src/app/app.component.ts:178 | a separator-free prefix followed by the separator comes off as the first piece |
| Strings.SplitAppend | src/app/app.component.ts:48-49 | splitting two texts glued by the separator gives the pieces of the first followed by those of the second |
| Strings.TailAfterFirst | src/app/app.component.ts:178-184 | the first piece is the text before the first separator, and re-joining the other pieces gives the text after it (or empty text) |
| Strings.TrimUntouched | src/app/app.component.ts:197 | a text with no white space at either end trims to itself |
| Strings.ParseShowDecimal | src/app/app.component.ts:181 | reading the decimal digits of a number gives the number back |
| Strings.ParseDecimal | src/app/app.component.ts:181 | the amount read is positive exactly when some digit is not `0` |
| Strings.ParseDecimalLeadingZero | src/app/app.component.ts:181 | a leading zero does not change the amount read (`04` reads as 4); with `ShowParseDecimal`, every digit run reads as the value of its numeral once its leading zeros are dropped |
| Strings.ShowParseDecimal | src/app/app.component.ts:181 | an amount without a leading zero is the numeral of the number it reads as |
| Strings.StrLtIrreflexive | src/app/app.component.ts:92 | no key sorts before itself |
| Strings.StrLtTransitive | src/app/app.component.ts:92 | the key order is transitive |
| Strings.StrLtTotal | src/app/app.component.ts:92 | any two different keys are ordered one way or the other |
| Strings.StrLtCharacterized | src/app/app.component.ts:92 | JavaScript's string `<`: a proper prefix comes first, otherwise the smaller character at the first difference decides |
| Strings.ConcatEmpty | src/app/app.component.ts:76 | the colours joined without a separator are empty text exactly when every colour is |
| Lodash.FirstIndex | src/app/app.component.ts:238 | the position of the first element with the key; no earlier element has it |
| Lodash.LastIndex | src/app/app.component.ts:108-112 | the position of the last element with the key; no later element has it |
| Lodash.Filter | src/app/app.component.ts:213 | an element is kept exactly when it is in the input and has the key |
| Lodash.FilterHeadIsFirst | src/app/app.component.ts:213 | the first element kept by the filter is the first element of the input with that key |
| Lodash.FilterAppend | src/app/app.component.ts:59 | filtering a concatenation concatenates the filtered parts |
| Lodash.UniqBy | src/app/app.component.ts:227-233 | every kept element comes from the input; a non-empty input keeps at least one |
| Lodash.UniqByKeys | src/app/app.component.ts:67-68 | `uniqBy` keeps every key of the input |
| Lodash.UniqByFirstOccurrences | src/app/app.component.ts:227-233 | each kept element is the first one with its key, and the kept elements follow the order of those first occurrences |
| Lodash.UniqByDistinctKeys | src/app/app.component.ts:227-233 | no key is kept twice |
| Lodash.GroupBy | src/app/app.component.ts:69-84 | `groupBy`: the groups have exactly the keys that occur, and each group holds the elements with its key in input order |
| Lodash.GroupKeys | src/app/app.component.ts:92 | the keys of `groupBy` as `Object.keys` lists them: each key that occurs appears exactly once |
| Lodash.GroupKeysFirstOccurrence | src/app/app.component.ts:92 | the keys come in the order of their first occurrences in the input, the insertion order of `Object.keys` |
| Lodash.GroupKeysSnoc | src/app/app.component.ts:108-112 | a new element adds its key at the end when the key is new |
| Lodash.SortBy | src/app/app.component.ts:292-295 | the sorted list is a permutation of the input |
| Lodash.SortBySortedStable | src/app/app.component.ts:292-295 | the sorted list is ordered by the key, and elements with equal keys keep their input order |
| Lodash.SortStrings | src/app/app.component.ts:92 | the sorted keys are a permutation of the input |
| Lodash.SortStringsAscending | src/app/app.component.ts:92 | distinct keys come out strictly ascending |
| DeckList.CutAtBracket | src/app/app.component.ts:186-195 | the name is cut before the first `(` or `[`: the result is a prefix with neither bracket, followed in the input by a bracket or by nothing |
| DeckList.ParseLine | src/app/app.component.ts:174-197 | an all-white line is rejected; an accepted name has no bracket and no white space at its ends |
| DeckList.ParseLineAtFirstSpace | src/app/app.component.ts:178-184 | the amount token is the trimmed line up to its first space, the name text is everything after it, and the line is accepted exactly when the amount token without its first `x` is a non-empty run of digits |
| DeckList.ParseBareAmount | src/app/app.component.ts:175-182 | the line `4` is accepted, with amount 4 and an empty name |
| DeckList.ParseBlank | src/app/app.component.ts:174-176 | a line of spaces only is rejected |
| DeckList.ParseTabbed | src/app/app.component.ts:175-182 | `4<TAB>Bolt` is rejected: the tab does not separate the amount from the name |
| DeckList.BasicLandsNeverUnfound | src/app/app.component.ts:260-269 | a name `isBasicLand` accepts never appears among the unfound rows, whatever the card table holds |
| DeckList.Resolve | src/app/app.component.ts:199-233 | at least one row, all with the parsed name and amount; the basic-land row for a basic land; the single `Unfound` row for an unknown name |
| DeckList.ResolveMatched | src/app/app.component.ts:213-233 | a known name gives one row per distinct set of its printings: the first printing in each set, with the amount, in order of first occurrence |
| DeckList.ParseCardLine | src/app/app.component.ts:174-234 | rows exactly when the line parses, then at least one, all with the parsed amount |
| DeckList.FindSetForCard | src/app/app.component.ts:236-239 | `Unknown` for a name the table lacks, otherwise the set of the first printing with that name |
| DeckList.FindSetForCardIsFirstRow | src/app/app.component.ts:213-239 | for a known name, `findSetForCard` names the set of the first row `parseCardLine` produces |
| DeckList.RowsOf | src/app/app.component.ts:49-53 | a row is listed exactly when some line gives it, in line order |
| DeckList.AllCards | src/app/app.component.ts:45-56 | a row is in the deck exactly when some line of the text, split on newlines, gives it |
| DeckList.RowsOfAppend | src/app/app.component.ts:48-53 | the rows of two runs of lines are the rows of the first run followed by those of the second |
| DeckList.AllCardsAppend | src/app/app.component.ts:45-56 | the rows of two deck texts joined by a newline are the rows of each, in order |
| DeckList.AllCardsOneLine | src/app/app.component.ts:45-56 | a text without a newline gives the rows of that one line |
| DeckList.UnfoundCards | src/app/app.component.ts:58-60 | a row is listed exactly when it is a deck row whose set is `Unfound` |
| DeckList.CardsAndSets | src/app/app.component.ts:62-86 | the groups have exactly the keys of the grouped rows, each group holding the rows with its key in deck order |
| DeckList.GroupSourceOnePerName | src/app/app.component.ts:64-83 | under `Set` the grouped rows are all deck rows; otherwise each name appears once, as its first deck row |
| Cards.ColorKey | src/app/app.component.ts:76 | never empty: `Colorless` when every colour name is empty (or there are none), otherwise the colours glued together |
| DeckList.OrderedSets | src/app/app.component.ts:88-93 | the ordered keys are strictly ascending and are exactly the group keys |
| DeckList.GroupedRowsAreRows | src/app/app.component.ts:62-86 | every grouped row is a deck row |
| DeckList.Recompute | src/app/app.component.ts:45-93 | the derived view: the deck rows; the `Unfound` rows as the in-order filter of the deck rows; groups with exactly the keys of the grouped list, each the in-order filter for its key, all drawn from the deck rows; keys strictly ascending and equal to the group keys |
| Checklist.Build | src/app/app.component.ts:104-112 | the rebuilt checklist has exactly one key per card name of the deck |
| Checklist.BuildLastWins | src/app/app.component.ts:104-113 | the rebuilt checklist has a key per deck name, holding as many unticked boxes as the amount of the last row with that name |
| Checklist.RebuildStep | src/app/app.component.ts:108-112 | one more row replaces the boxes under its name and lists the name if it is new |
| Checklist.BuildCounts | src/app/app.component.ts:104-119 | after a rebuild the names are listed once each, and the unticked count equals the box count |
| Checklist.RunUntickedToggle | src/app/app.component.ts:278-281 | flipping one box moves the unticked count by one, up when a ticked box is cleared |
| Checklist.ChecklistUnticked | src/app/app.component.ts:283-288 | the unticked count never exceeds the box count |
| Checklist.ChecklistUntickedAllFalse | src/app/app.component.ts:115-119 | with no box ticked, the unticked count equals the box count |
| Checklist.ReplaceOne | src/app/app.component.ts:278-289 | replacing one listed name's boxes changes the totals by the old and new boxes of that name alone |
| Checklist.ConcatFlagsAllTrue | src/app/app.component.ts:271-276 | the flattened boxes of a group are all ticked exactly when every box of every row in the group is |
| Checklist.CountArrayUnticked | src/app/app.component.ts:287 | counts the unticked boxes of one array |
| Checklist.ChecklistState.constructor | src/app/app.component.ts:36-43 | an empty, consistent checklist with both counters at zero |
| Checklist.ChecklistState.Rebuild | src/app/app.component.ts:101-123 | the checklist becomes `Build` of the rows, every array in it newly allocated; the names come in first-occurrence order, both counters equal the box count, and the state is consistent |
| Checklist.ChecklistState.Fill | src/app/app.component.ts:108-113 | after the loop the boxes are `Build` of the rows, held in newly allocated arrays, and the names are their first-occurrence keys |
| Checklist.ChecklistState.SetCounters | src/app/app.component.ts:118-119 | both counters are set to the given number (the rebuild passes the box count); no other field changes |
| Checklist.ChecklistState.Put | src/app/app.component.ts:109-111 | a fresh run of unticked boxes replaces the name's boxes; every other name keeps its array |
| Checklist.ChecklistState.CountStateBoxes | src/app/app.component.ts:115-118 | the number of boxes under all names |
| Checklist.ChecklistState.CountStateUnticked | src/app/app.component.ts:284-287 | the number of unticked boxes under all names |
| Checklist.ChecklistState.RecalculateIncomplete | src/app/app.component.ts:283-289 | `incompleteCards` becomes the number of unticked boxes; nothing else changes |
| Checklist.ChecklistState.ToggleCollectionCard | src/app/app.component.ts:278-281 | exactly one box flips, the state stays consistent, and `incompleteCards` moves by one in the matching direction |
| Checklist.ChecklistState.Flip | src/app/app.component.ts:279 | exactly one box of one name's array is negated; every other array keeps its contents |
| Checklist.ChecklistState.IsSetComplete | src/app/app.component.ts:271-276 | true exactly when every box of every row in the group is ticked |
| Checklist.ChecklistState.OrderedCardsFromSet | src/app/app.component.ts:291-296 | nothing for a missing group; otherwise a permutation of the group, names with more boxes first, rows with as many boxes in group order |
| Checklist.RebuildCoversGroups | src/app/app.component.ts:271-296 | after a rebuild every row of every group has boxes, so both per-group queries are defined |

## Left out

- Loading and storage are not modelled: `ngOnInit`, `fetchData`, the Scryfall download, the IndexedDB table and `localStorage`. The card table is a parameter.
- The preference toggles are not modelled: `toggleDeckBox`, `toggleHideComplete`, `setSort`, `saveDeck` and `shouldShowDeck`. They only store a flag or a string.
- Angular's signal scheduling is not modelled. `Recompute` gives the values the computed signals settle on, and `Rebuild` is the effect run once on the settled rows.
- The loading flags `loadingPage` and `loadingData` are not modelled; nor are `updatedAt` and `totalCards`, which come from storage or the download. The template is not modelled either.
- DeckList.ParseLine: the amount is a non-empty run of ASCII decimal digits read as a natural number. JavaScript's `Number` coercion also accepts other forms: white space other than a space (for example a trailing tab), a sign, a decimal point, an exponent, `0x`/`0o`/`0b` prefixes and `Infinity`. Of these, a fraction or a negative amount makes `Array(amount)` throw in the rebuild. JavaScript numbers also round amounts of 2^53 or more; the model keeps them exact.
- Checklist.ChecklistState.Rebuild: `Array(n)` throws for `n` of 2^32 or more. Amounts are unbounded here.
- Object key order is not modelled in full. `Object.keys` puts integer-like keys (a card named `1996`, say) first in numeric order. The model keeps insertion order. No output depends on it: the counters are sums, and the sorted key list of distinct keys has one order.
- Strings.StrLt compares code points. JavaScript compares UTF-16 code units, so the two orders differ only between characters above U+FFFF and characters in U+E000–U+FFFF.
- A card named `__proto__` is not modelled: in a plain object it does not become an own key.
- `isSetComplete` on a group with a row whose name has no boxes throws in the code only when every box before that row is ticked: `.flat()` keeps the missing entry, and `every` stops at the first unticked box, so a group with an unticked box before it gives `false`. `getOrderedCardsFromSet` on such a group always throws. `toggleCollectionCard` throws for an unknown name or an index out of range. These are preconditions here; `RebuildCoversGroups` shows the groups the page shows satisfy them.
- `isSetComplete` on a missing group key throws in the code. It is a precondition here.
- The signal wrapper around each box is a plain array cell. `Rebuild` allocates every array afresh and no two names share one; other holders of a reference (the template's bindings) are not modelled.
