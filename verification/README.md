# Pokédex page model

A model of the logic of the Pokédex single-page site (`src/pages/Index.tsx`).
The page holds a fixed catalog of twelve creatures, each with a number, a
Russian name, one or more type labels, a picture and, for most, a place in an
evolution line. It has three tabs:

- **Pokédex**: every card, showing its number zero-padded to three
  characters (`#001`).
- **Evolutions**: three fixed chains of ids (`[1,2,3]`, `[4,5,6]`, `[7,8,9]`).
  Each chain is resolved against the catalog and drawn as cards. A card shows
  a level badge when its evolution level is truthy. An arrow follows every
  card but the last.
- **Search**: a text query and an optional type label select the catalog
  entries whose lower-cased name contains the lower-cased query and that
  carry the label. The type labels are offered as badges, in order of first
  appearance.

Modules:

- `Wrappers`: `Option`.
- `Text`: the string operations the page relies on:
  - `toLowerCase`, over a character mapping given as a parameter;
  - `includes`;
  - `padStart`;
  - the decimal `toString` of an integer.
- `Catalog`: the records, the constant table, the type colours and the chain
  ids.
- `Search`: `Array.filter` and the search tab's filter.
- `TypeList`: `Array.from(new Set(flatMap(...)))`, the list of type badges.
- `Chains`: `find`, chain resolution, level badges and arrows.
- `IdLabel`: the card number label.
- `SearchScenarios` and `PageScenarios`: what the page shows for the shipped
  catalog.

The two pieces of view state, the query text and the selected type, are
parameters of the filter. `null` is `None`. The empty string is falsy in
JavaScript, so `Some("")` lets every entry through, like `None`.

## Model

| member | source | states |
|---|---|---|
| Text.LowerCase | src/pages/Index.tsx:122 | The lower-cased text has the input's length, and each character is the mapping of the character at the same position |
| Text.LowerCaseIdempotent | src/pages/Index.tsx:122 | Lower-casing twice is lower-casing once, whenever the character mapping is idempotent |
| Text.RussianLowerIdempotent | src/pages/Index.tsx:122 | The concrete Latin/Cyrillic mapping is idempotent |
| Text.RussianLowerPreimage | src/pages/Index.tsx:122 | A small Latin or Cyrillic letter comes only from itself or from its capital |
| Text.Contains | src/pages/Index.tsx:122 | `includes`: the needle is a prefix of the text or of one of its suffixes; a found needle is never longer than the text |
| Text.ContainsHasOccurrence | src/pages/Index.tsx:122 | If `includes` holds, the needle occurs at some position of the haystack |
| Text.OccurrenceIsContained | src/pages/Index.tsx:122 | An occurrence at any position makes `includes` hold |
| Text.ContainsIffOccurs | src/pages/Index.tsx:122 | `includes` holds exactly when the needle occurs at some position |
| Text.ContainsEmpty | src/pages/Index.tsx:122 | Every text includes the empty query |
| Text.ContainsFirstChar | src/pages/Index.tsx:122 | A text that includes a non-empty needle holds the needle's first character |
| Text.Repeat | src/pages/Index.tsx:180 | The fill has the requested length and consists of the one character only |
| Text.PadStart | src/pages/Index.tsx:180 | The result is at least the target width and never shorter than the input. It ends with the input and everything before the input is the fill character |
| Text.Digits | src/pages/Index.tsx:180 | The decimal form of a natural number is non-empty and made of digits only |
| Text.ToDecimal | src/pages/Index.tsx:180 | `toString` of an integer: non-empty, a leading minus sign exactly for negatives, digits everywhere else |
| Text.ValueOfDigits | src/pages/Index.tsx:180 | Reading the decimal form back gives the number |
| Text.DigitsNoLeadingZero | src/pages/Index.tsx:180 | The decimal form starts with `0` only for zero itself |
| Text.DigitsAtMostThree | src/pages/Index.tsx:180 | The decimal form has at most three digits exactly when the number is below 1000 |
| Text.ValueOfLeadingZeros | src/pages/Index.tsx:180 | Zeros put in front of digits do not change their value |
| Text.ZerosValue | src/pages/Index.tsx:180 | A run of zeros reads as 0 |
| Catalog.CatalogIds | src/pages/Index.tsx:20-104 | In the shipped table, ids are unique and positive, and every entry has a type |
| Catalog.CatalogTypesColoured | src/pages/Index.tsx:20-115 | Every type label of the shipped table has an entry in the colour table |
| Catalog.CatalogWellFormed | src/pages/Index.tsx:20-115 | The shipped table and colour table meet all the data invariants together |
| Search.FilterBy | src/pages/Index.tsx:121 | `filter` never lengthens its input |
| Search.FilterByMembership | src/pages/Index.tsx:121-125 | An element is in the filtered list exactly when it is in the input and accepted |
| Search.FilterByAppend | src/pages/Index.tsx:121 | Filtering a concatenation is concatenating the filtered parts |
| Search.KeptPositionsExact | src/pages/Index.tsx:121 | The kept positions are exactly the in-range positions holding an accepted element |
| Search.KeptPositionsAscending | src/pages/Index.tsx:121 | The kept positions are strictly ascending |
| Search.FilterByIsKeptPositions | src/pages/Index.tsx:121 | The k-th element of the result is the input element at the k-th kept position, so order is preserved |
| Search.FilterByAllAccepted | src/pages/Index.tsx:121 | When every element is accepted, the input comes back unchanged |
| Search.FilterByNoneAccepted | src/pages/Index.tsx:121 | When no element is accepted, the result is empty |
| Search.FilterByBlock | src/pages/Index.tsx:121 | When the accepted elements form one contiguous block, the result is that block |
| Search.FilterBySameTest | src/pages/Index.tsx:121 | Two tests that agree on the input's elements give the same result |
| Search.FilterByConjunction | src/pages/Index.tsx:121-125 | Filtering by a conjunction is filtering by each part in turn |
| Search.MatchesSearch | src/pages/Index.tsx:122 | The lower-cased name contains the lower-cased query |
| Search.MatchesType | src/pages/Index.tsx:123 | No selection, or the falsy empty label, lets every entry through; any other label must be one of the entry's types |
| Search.Filter | src/pages/Index.tsx:121-125 | The result is no longer than the catalog. An entry is in it exactly when it is in the catalog, its lower-cased name contains the lower-cased query, and the selection is empty or one of its types |
| Search.FilterKeepsMatchingPositionsInOrder | src/pages/Index.tsx:121-125 | The result is the catalog's subsequence at exactly the positions of matching entries, in strictly ascending position order |
| Search.FilterNoCriteria | src/pages/Index.tsx:118-125 | In the initial state (empty query, no type), the search tab lists the whole catalog in order |
| Search.EmptyLabelIsNoSelection | src/pages/Index.tsx:123 | Selecting the falsy empty label gives the same result as selecting nothing |
| Search.FilterIdempotent | src/pages/Index.tsx:121-125 | Filtering the result again with the same criteria changes nothing |
| Search.FilterComposes | src/pages/Index.tsx:121-125 | Both criteria together equal the query filter followed by the type filter |
| Search.FilterIgnoresQueryCase | src/pages/Index.tsx:122 | A query and its lower-cased form select the same entries |
| TypeList.FlatTypes | src/pages/Index.tsx:133 | A label is in the flattened list exactly when some entry carries it |
| TypeList.SetAdd | src/pages/Index.tsx:133 | `Set.add` on the insertion order: the existing order is kept as a prefix, the element is present afterwards, and it is appended only when it was absent |
| TypeList.Distinct | src/pages/Index.tsx:133 | `Array.from(new Set(s))`: the elements of `s` added one after another; `DistinctElements` and `DistinctInFirstAppearanceOrder` state what it yields |
| TypeList.AllTypes | src/pages/Index.tsx:133 | `allTypes` has no duplicates and holds exactly the labels some entry carries |
| TypeList.FirstIndex | src/pages/Index.tsx:133 | Gives the position of the first occurrence: it holds the element and no earlier position does |
| TypeList.FirstIndexAppend | src/pages/Index.tsx:133 | Appending does not move the first occurrence of an element already present |
| TypeList.DistinctElements | src/pages/Index.tsx:133 | The badge list has no duplicates and holds exactly the labels of the input |
| TypeList.DistinctInFirstAppearanceOrder | src/pages/Index.tsx:133 | The badge list is in the order in which the labels first appear in the input |
| TypeList.EveryTypeBadgeSelectsSomething | src/pages/Index.tsx:293-300 | Clicking any offered type badge with an empty query lists at least one entry |
| Chains.Find | src/pages/Index.tsx:209 | `find` gives nothing exactly when no entry has the id. Otherwise it gives a catalog entry with that id, namely the first such entry |
| Chains.ResolveChain | src/pages/Index.tsx:208-209 | A chain whose ids are all in the catalog resolves to as many cards as ids. The i-th card is a catalog entry with the i-th id, and it is exactly what `find` gives for that id |
| Chains.ResolveChainIsTheEntryWithThatId | src/pages/Index.tsx:209 | With unique ids, the i-th resolved card is the one entry carrying the i-th id |
| Chains.LevelBadge | src/pages/Index.tsx:242-246 | A badge is shown exactly when there is an evolution with a level and that level is non-zero. It shows that level |
| Chains.ChainCards | src/pages/Index.tsx:214-257 | One card per resolved entry, in order, each with that entry's level badge. A card has an arrow exactly when it is not the last |
| Chains.ArrowsBetweenCards | src/pages/Index.tsx:249 | A non-empty chain of n cards draws n - 1 arrows |
| Chains.ArrowCountPrefix | src/pages/Index.tsx:249 | When exactly the first n cards carry arrows, n arrows are drawn |
| IdLabel.PadId | src/pages/Index.tsx:180 | The label is the decimal form of the id, widened to three characters with zeros in front, and never cut |
| IdLabel.PadIdWidth | src/pages/Index.tsx:180 | A non-negative id gets a three-character label exactly when it is below 1000 |
| IdLabel.PadIdRoundTrip | src/pages/Index.tsx:180 | A non-negative id's label is all digits and reads back as the id |
| IdLabel.PadIdInjective | src/pages/Index.tsx:180 | Different non-negative ids get different labels |
| SearchScenarios.TypeFilterIsMembership | src/pages/Index.tsx:123 | Бульбазавр, typed Трава and Яд, passes either type and fails Огонь |
| SearchScenarios.CatalogTypes | src/pages/Index.tsx:20-104 | The type lists of the twelve entries, by position |
| SearchScenarios.WaterEntries | src/pages/Index.tsx:20-104 | Exactly entries 6 to 8 carry Вода |
| SearchScenarios.WaterEntriesMatch | src/pages/Index.tsx:121-125 | Selecting Вода with an empty query gives the catalog slice 6..9 |
| SearchScenarios.CatalogSlices | src/pages/Index.tsx:20-104 | The catalog slices 6..9 and 9..10 are Сквиртл, Вартортл, Бластойз and Пикачу |
| SearchScenarios.WaterTypeSelection | src/pages/Index.tsx:121-125 | Selecting Вода lists Сквиртл, Вартортл and Бластойз, in that order |
| SearchScenarios.NotFoundByFirstLetter | src/pages/Index.tsx:122 | A query is not found in a name that holds neither its small first letter nor that letter's capital |
| SearchScenarios.CatalogNames | src/pages/Index.tsx:20-104 | The names of the twelve entries, by position |
| SearchScenarios.EarlyNamesLackP | src/pages/Index.tsx:20-104 | None of the first six names holds п or П |
| SearchScenarios.LateNamesLackP | src/pages/Index.tsx:20-104 | Of the last six names, only Пикачу holds п or П |
| SearchScenarios.PikachuMatchesPika | src/pages/Index.tsx:122 | The query «пика» is found in Пикачу |
| SearchScenarios.OthersMissPika | src/pages/Index.tsx:122 | The query «пика» is found in no other name |
| SearchScenarios.PikaFindsPikachu | src/pages/Index.tsx:121-125 | Searching «пика» lists Пикачу and nothing else |
| PageScenarios.CatalogTypeBadgesHaveColours | src/pages/Index.tsx:133 | The type badges offered are exactly the labels of the colour table, so no badge lacks a colour |
| PageScenarios.EvolutionChainsResolve | src/pages/Index.tsx:127-131 | Every id of every fixed chain is in the catalog, so `find` never returns `undefined` there |
| PageScenarios.FirstChainCards | src/pages/Index.tsx:127-257 | The first shipped chain is `[1, 2, 3]` and shows Бульбазавр, Ивизавр and Венузавр, with level badges 16, 32 and none, and arrows after the first two only |
| PageScenarios.CardLabels | src/pages/Index.tsx:180 | Ids 1, 25 and 150 are labelled 001, 025 and 150 |
| PageScenarios.NegativeIdLabel | src/pages/Index.tsx:180 | Padding is applied to the text, so id -5 would be labelled `0-5` |

## Left out

- Rendering is not modelled: JSX layout, CSS classes, icons, tab switching and the `<img>` element. This includes the "not found" placeholder, which the page shows when the filtered list is empty.
- React state (`useState`) is not modelled. The query and the selected type are inputs of `Search.Filter`. The badge handlers only set them (`null` for "Все", the label otherwise).
- `String.prototype.toLowerCase` over all of Unicode is not modelled; the model takes the character mapping as a parameter. The scenarios use `Text.RussianLower`, which maps only A–Z, А–Я and Ё. The case rules that depend on context or change a string's length do not occur in the catalog.
- The card pictures are not modelled. A record keeps the artwork's sprite number, and `Catalog.Artwork.Url` spells out the full address.
- The Pokédex grid lists the catalog unchanged and is not modelled. The `from`/`to` lines of the search cards (Index.tsx:339-356) print the stored names as they are. Neither is resolved against the catalog.
- Chains.ResolveChain: a missing id makes `find` return `undefined`, which `map` keeps, and rendering then throws at `pokemon.id` (Index.tsx:215); the postfix `!` checks nothing at run time. The model makes "every id is present" a precondition instead, and `PageScenarios.EvolutionChainsResolve` shows that the shipped chains meet it.
- Chains.LevelBadge: states only whether the badge appears. React would print a bare `0` for a level of 0 instead of the badge, and that is not modelled.
- IdLabel.PadId: ids are integers. `Number.prototype.toString` switches to exponent form at 1e21 and above, and prints fractions and NaN; none of this is modelled.
- `typeColors[type]` for a label without a colour would produce the class text `undefined`. This is not modelled; `Catalog.CatalogTypesColoured` shows that no shipped label lacks a colour.
- React `key` uniqueness warnings are not modelled.
