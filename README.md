# Creature catalogue front end: query engine, API paths and page logic

This project models the data-shaping core of a React front end that browses a remote catalogue of creatures (the PokéAPI service). It covers:

- the `usePokemon` hook. It searches, sorts and type-filters the loaded list. Its two load routines update the state it exposes: the list, the loading flag, the error and the type names.
- the API client's request paths. This includes reading a numeric identifier out of a resource URL and building the official-artwork URL.
- the detail page. It finds where the route's identifier sits in the list and offers Previous/Next. It shows the English flavour text, the zero-padded `#001` label and the hyphen-replaced stat and ability names, and it has its own load state.
- the gallery page: the toggled selection of types, the filtered list, the 18-button cap, the results line and the empty-result notice.
- the list page: search then sort, the sort selector, the count line and the empty-result notice.

Modules, one per file:

| module | file | models |
|---|---|---|
| `Wrappers` | wrappers.dfy | `Option`, and `Fetch` (a response received, or a transport error) |
| `JsString` | js_string.dfy | the JavaScript string built-ins the core calls: `toLowerCase`, `includes`, `trim`, `toString`, `parseInt`, `padStart`, `replace`, `split`, `join`, and `<` on strings |
| `Seqs` | seqs.dfy | subsequence and duplicate-freedom, used to state what `filter` returns |
| `PokemonTypes` | pokemon_types.dfy | the records of src/types/pokemon.ts, `SortField` and `SortOrder` |
| `PokemonApi` | pokemon_api.dfy | src/services/pokemonApi.ts |
| `UsePokemon` | use_pokemon.dfy | src/hooks/usePokemon.ts |
| `DetailView` | detail_view.dfy | src/pages/DetailView.tsx |
| `GalleryView` | gallery_view.dfy | src/pages/GalleryView.tsx |
| `ListView` | list_view.dfy | src/pages/ListView.tsx |

Modelling choices:

- The remote service is a parameter of each load: a function from request path to `Fetch<T>`. So a load's outcome is determined by the responses to the paths it requests.
- `Promise.all` is all-or-nothing and keeps order. `FetchDetails` therefore yields every detail in the order of the summaries, or nothing once one request fails.
- Component state is a class per page (`PokemonStore`, `DetailPage`, `Gallery`, `ListPage`). Each setter is a method with a `modifies` clause. Each `useMemo` value is a function reading the object.
- JavaScript `NaN` is the `NaN` case of `IntOrNaN`. `parseInt(s, 10)` (`ParseInt`) skips leading whitespace, reads an optional sign and then the leading decimal digits, and gives `NaN` when there are none.
- The detail page calls `parseInt` with no radix (src/pages/DetailView.tsx:18). `ParseIntAutoRadix` models that call: after the sign, a `0x` or `0X` prefix makes the digits hexadecimal, so the route `/pokemon/0x19` looks for identifier 25.
- `Array.prototype.sort` is a library routine. `SortPokemon` models it as an insertion sort driven by the source's own comparator. The contract is what the comparator implies: the same items, in key order.

Ties in the sort:

- The comparator returns 1 or -1 and never 0 (src/hooks/usePokemon.ts:93-97). Items with equal keys therefore compare as "before" in both directions, and their relative order is implementation-defined.
- The model proves key order and the permutation, not stability.

## Model

| member | source | states |
|---|---|---|
| JsString.ToLower | src/hooks/usePokemon.ts:55 | `toLowerCase` keeps the length and lowers each character (ASCII letters only) |
| JsString.ToLowerIdempotent | src/hooks/usePokemon.ts:55-58 | lowering twice equals lowering once, and the result has no upper-case ASCII letter |
| JsString.Includes | src/hooks/usePokemon.ts:55-58 | `String.prototype.includes`: the text starts with the term or its tail includes it; `IncludesIffOccurs` proves it means occurrence at some position |
| JsString.IncludesIffOccurs | src/hooks/usePokemon.ts:55-58 | `includes` holds exactly when the term occurs at some position of the text |
| JsString.TrimStart | src/hooks/usePokemon.ts:52 | the trimmed text is a suffix of the input; everything dropped is JavaScript whitespace; the rest starts with a non-whitespace character |
| JsString.BlankIffAllWhitespace | src/hooks/usePokemon.ts:52 | `!term.trim()` holds exactly when every character of the term is whitespace, including the empty term |
| JsString.NatToString | src/hooks/usePokemon.ts:56 | `id.toString()` is a non-empty string of digits with no leading zero unless the number is 0 |
| JsString.IntToString | src/services/pokemonApi.ts:75 | the text inserted for an integer starts with '-' exactly when the integer is negative, and `parseInt` reads it back as that integer |
| JsString.ParseInt | src/services/pokemonApi.ts:70 | `parseInt(s, 10)`: skips leading whitespace, reads an optional sign and the longest run of decimal digits, NaN when there are none; proved by `ParseIntOfNatToString`, `ParseIntOfZeroPadded`, `ParseIntNoLeadingDigit`, `ParseIntEmpty` and `IntToString` |
| JsString.LeadingDigits | src/services/pokemonApi.ts:70 | the digits `parseInt` reads are the longest all-digit prefix of the text |
| JsString.DigitsValueOfNatToString | src/services/pokemonApi.ts:70 | reading the decimal form of n as digits gives back n |
| JsString.ParseIntOfNatToString | src/services/pokemonApi.ts:70 | `parseInt` of a decimal form followed by text not starting with a digit gives the number |
| JsString.ParseIntOfNegative | src/services/pokemonApi.ts:70 | a minus sign followed by the digits of a positive number reads as the negative number |
| JsString.ParseIntMinus | src/services/pokemonApi.ts:70 | a leading minus sign negates whatever the digits after it read as, NaN staying NaN |
| JsString.ParseDigitsOfNatToString | src/services/pokemonApi.ts:70 | the digits of n read back as n |
| JsString.ParseIntAutoRadix | src/pages/DetailView.tsx:18 | `parseInt(s)` with no radix: as `ParseInt`, except that a `0x`/`0X` prefix after the sign switches to hexadecimal digits; proved by `AutoRadixAgreesWithDecimal`, `AutoRadixReadsHex` and `AutoRadixOfNatToString` |
| JsString.AutoRadixAgreesWithDecimal | src/pages/DetailView.tsx:18 | `parseInt` with no radix reads like `parseInt(s, 10)` unless a `0x`/`0X` prefix follows the sign, and then reads hexadecimal digits under that sign |
| JsString.AutoRadixReadsHex | src/pages/DetailView.tsx:18 | `0x` followed by hexadecimal digits reads as their value |
| JsString.AutoRadixOfNatToString | src/pages/DetailView.tsx:18 | the decimal form of n reads as n with no radix too |
| JsString.LeadingHexDigits | src/pages/DetailView.tsx:18 | the hexadecimal digits read are the longest hexadecimal-digit prefix |
| JsString.ParseIntNoLeadingDigit | src/services/pokemonApi.ts:70 | text starting with a character that is not whitespace, a sign or a digit reads as NaN |
| JsString.ParseIntEmpty | src/services/pokemonApi.ts:70 | the empty piece reads as NaN |
| JsString.PadStart | src/pages/DetailView.tsx:138 | `padStart` reaches the target length, keeps the text as its suffix and fills the front with the fill character |
| JsString.ParseIntOfZeroPadded | src/pages/DetailView.tsx:138 | a zero-padded decimal form of n still reads as n |
| JsString.ReplaceFirst | src/pages/DetailView.tsx:188 | `replace` with a one-character pattern changes only the first occurrence, and nothing when there is none |
| JsString.ReplaceFirstRemovesOne | src/pages/DetailView.tsx:188 | that replacement removes exactly one occurrence and leaves every later character as it was |
| JsString.ReplaceAll | src/pages/DetailView.tsx:67 | `replace(/\f/g, ' ')` keeps the length and replaces every occurrence, character by character |
| JsString.ReplaceAllRemovesAll | src/pages/DetailView.tsx:67 | after the global replace the pattern no longer occurs, and replacing again changes nothing |
| JsString.Split | src/services/pokemonApi.ts:69 | `split` yields at least one piece |
| JsString.SplitPiecesLackSeparator | src/services/pokemonApi.ts:69 | no piece of a split holds the separator |
| JsString.SplitWithoutSeparator | src/services/pokemonApi.ts:69 | a text without the separator splits into itself alone |
| JsString.SplitAtSeparator | src/services/pokemonApi.ts:69 | splitting at a separator splits both sides independently |
| JsString.SplitAtSeparatorStep | src/services/pokemonApi.ts:69 | if splitting at a separator splits both sides independently, it still does with one more character in front of the left side |
| JsString.SplitCons | src/services/pokemonApi.ts:69 | a character put in front of a text joins the first piece of its split, or starts an empty piece when it is the separator |
| JsString.JoinCons | src/services/pokemonApi.ts:69 | joining a piece in front of others puts the separator between it and the rest |
| JsString.JoinSplit | src/services/pokemonApi.ts:69 | joining the pieces of a split with the separator gives back the text |
| JsString.SplitJoin | src/services/pokemonApi.ts:69 | splitting a join of separator-free pieces gives back the pieces |
| JsString.LexLess | src/hooks/usePokemon.ts:94-96 | `<` on strings: a proper prefix is smaller, otherwise the first differing character decides; the `Lex…` lemmas prove it a strict total order |
| JsString.LexIrreflexive | src/hooks/usePokemon.ts:94 | no name is `<` itself |
| JsString.LexAsymmetric | src/hooks/usePokemon.ts:94 | two names are never `<` each other both ways |
| JsString.LexTransitive | src/hooks/usePokemon.ts:94 | `<` on names is transitive |
| JsString.LexTotal | src/hooks/usePokemon.ts:94 | of two different names one is `<` the other |
| JsString.LexNotGreaterTransitive | src/hooks/usePokemon.ts:94 | "not greater" on names is transitive, so equal names may stand in either order |
| Seqs.SubsequenceShape | src/hooks/usePokemon.ts:54-60 | a filtered list is no longer than its input and holds no item more often |
| Seqs.SubsequenceOfDistinct | src/pages/GalleryView.tsx:17 | filtering a duplicate-free list leaves it duplicate-free |
| PokemonApi.ListPath | src/services/pokemonApi.ts:13-15 | the path `getPokemonList` requests: `/pokemon?limit=` and the limit, `&offset=` and the offset, in decimal; proved by `DefaultListPath`, `ListPathInjective` and `PathsAddressTheirEndpoint` |
| PokemonApi.DetailPath | src/services/pokemonApi.ts:24-26 | the path `getPokemon` requests: `/pokemon/` then the name or identifier; proved by `PathsAddressTheirEndpoint` |
| PokemonApi.SpeciesPath | src/services/pokemonApi.ts:35-37 | the path `getPokemonSpecies` requests: `/pokemon-species/` then the name or identifier; proved by `PathsAddressTheirEndpoint` |
| PokemonApi.TypePath | src/services/pokemonApi.ts:46-48 | the path `getPokemonByType` requests: `/type/` then the type name; proved by `PathsAddressTheirEndpoint` |
| PokemonApi.DefaultListPath | src/services/pokemonApi.ts:13-15 | the list request with the default arguments is `/pokemon?limit=150&offset=0` |
| PokemonApi.ListPathInjective | src/services/pokemonApi.ts:15 | the list path determines both the limit and the offset |
| PokemonApi.PathsAddressTheirEndpoint | src/services/pokemonApi.ts:13-65 | the list, detail, species, by-type and all-types paths each address their own endpoint, whatever is inserted |
| PokemonApi.ExtractIdFromUrl | src/services/pokemonApi.ts:68-71 | `extractIdFromUrl`: `parseInt` of the second-to-last `/`-separated piece, NaN when there are fewer than two pieces; proved by the `ExtractId…` lemmas |
| PokemonApi.ExtractIdReadsSecondToLastPiece | src/services/pokemonApi.ts:68-71 | `extractIdFromUrl` reads the piece between the last two slashes |
| PokemonApi.ExtractIdReadsTrailingPiece | src/services/pokemonApi.ts:68-71 | for an address ending in a slash, `extractIdFromUrl` reads the last piece before that slash |
| PokemonApi.ExtractIdRoundTrip | src/services/pokemonApi.ts:68-71 | a URL ending in `/{n}/` yields n |
| PokemonApi.ExtractIdExample | src/services/pokemonApi.ts:68-71 | `https://pokeapi.co/api/v2/pokemon/25/` yields 25 |
| PokemonApi.ExtractIdWithoutTrailingSlash | src/services/pokemonApi.ts:69-70 | without the trailing slash the piece read is `pokemon` and the result is NaN |
| PokemonApi.ExtractIdWithoutSlash | src/services/pokemonApi.ts:69-70 | a URL without any slash has one piece and yields NaN |
| PokemonApi.ExtractIdLeadingDigits | src/services/pokemonApi.ts:70 | a piece such as `25abc` yields the number of its leading digits |
| PokemonApi.PokemonImageUrl | src/services/pokemonApi.ts:74-76 | `getPokemonImageUrl`: the official-artwork prefix, the identifier in decimal, then `.png`; proved by `PokemonImageUrlRoundTrip` |
| PokemonApi.PokemonImageUrlRoundTrip | src/services/pokemonApi.ts:74-76 | the artwork URL is the fixed prefix, then the identifier, then `.png`, and the middle reads back as the identifier |
| UsePokemon.Matches | src/hooks/usePokemon.ts:54-60 | the search predicate: the lowered name includes the lowered term, or the decimal id includes the raw term, or some lowered type name includes the lowered term; used by `KeepMatching` and `SearchMembership` |
| UsePokemon.KeepMatching | src/hooks/usePokemon.ts:54-60 | the search filter keeps an order-preserving subsequence; each item occurs as often as in the input if the term matches it, otherwise not at all |
| UsePokemon.SearchPokemon | src/hooks/usePokemon.ts:51-61 | a blank term returns the list unchanged; any other term returns exactly the matching items, in order and with their multiplicity |
| UsePokemon.SearchMembership | src/hooks/usePokemon.ts:54-60 | with a non-blank term an item is in the result exactly when it is in the list and matches; the result is never longer |
| UsePokemon.HasSelectedType | src/hooks/usePokemon.ts:104-106 | the type predicate: some type name of the item is in the selection; used by `KeepWithSelectedType` and `FilterBySingleType` |
| UsePokemon.KeepWithSelectedType | src/hooks/usePokemon.ts:104-106 | the type filter keeps an order-preserving subsequence of exactly the items with some selected type, with their multiplicity |
| UsePokemon.FilterByType | src/hooks/usePokemon.ts:101-107 | an empty selection returns the list as is; otherwise the items with at least one selected type, in order |
| UsePokemon.FilterBySingleType | src/hooks/usePokemon.ts:104-106 | selecting one type keeps exactly the items of that type |
| UsePokemon.FilterBySameSelection | src/hooks/usePokemon.ts:101-107 | only the set of selected names matters, not their order or repetitions |
| UsePokemon.KeepSameSelection | src/hooks/usePokemon.ts:104-106 | the filter step gives the same result for selections with the same names |
| UsePokemon.Compare | src/hooks/usePokemon.ts:93-97 | the comparator: 1 when a's key is after b's in the chosen direction, -1 otherwise; proved by `CompareAgreesWithKeyOrder` |
| UsePokemon.CompareAgreesWithKeyOrder | src/hooks/usePokemon.ts:93-97 | the comparator is never 0; a positive result means a's key is strictly after b's in the chosen order, any other result lets a stand first |
| UsePokemon.PrecedesTransitive | src/hooks/usePokemon.ts:68-97 | "may stand before" by the field and order is transitive for all five fields and both orders |
| UsePokemon.Insert | src/hooks/usePokemon.ts:93-97 | inserting by the comparator adds exactly one item and keeps a sorted list sorted |
| UsePokemon.SortedAfterHead | src/hooks/usePokemon.ts:93-97 | the head of a sorted list stays first ahead of its rest with one more item it may precede |
| UsePokemon.SortedBeforeHead | src/hooks/usePokemon.ts:93-97 | an item the comparator lets precede a sorted list's head may go in front of the whole list |
| UsePokemon.SortPokemon | src/hooks/usePokemon.ts:63-99 | the sorted copy holds the same items as often as the input and is in non-decreasing (asc) or non-increasing (desc) order of the field; names compare lexicographically, the others numerically |
| UsePokemon.AscendingReversedIsDescending | src/hooks/usePokemon.ts:93-97 | a list is ascending exactly when its reversal is descending |
| UsePokemon.AllReceivedCons | src/hooks/usePokemon.ts:25-30 | every request succeeds exactly when the first one and all the later ones do |
| UsePokemon.DetailsOfCons | src/hooks/usePokemon.ts:25-30 | the first detail in front of the later details, in order, are the details of all the summaries |
| UsePokemon.DetailRequestPath | src/hooks/usePokemon.ts:27-28 | the detail request for one summary: `getPokemon` of the identifier extracted from its URL; used by `FetchDetails` |
| UsePokemon.FetchDetails | src/hooks/usePokemon.ts:25-30 | the details arrive only if every request succeeds; then there is one per summary, in the same order, fetched by the identifier in its URL |
| UsePokemon.LoadOutcome | src/hooks/usePokemon.ts:22-30 | the load (limit 150, offset 0) yields details exactly when the list request and every detail request succeed, and then one detail per listed summary, in the list's order |
| UsePokemon.Names | src/hooks/usePokemon.ts:44 | the type names are the names of the response's results, in order |
| UsePokemon.LoadIsAllOrNothing | src/hooks/usePokemon.ts:25-32 | one failed detail request fails the whole load; a successful load has one item per summary, the k-th from the k-th summary |
| UsePokemon.PokemonStore.constructor | src/hooks/usePokemon.ts:6-9 | empty list, loading, no error, no types |
| UsePokemon.PokemonStore.StartLoad | src/hooks/usePokemon.ts:18-19 | loading set and error cleared; list and types untouched |
| UsePokemon.PokemonStore.FinishLoad | src/hooks/usePokemon.ts:32-38 | the list is replaced on success only; the error message is set on failure only; loading ends in both cases |
| UsePokemon.PokemonStore.LoadPokemonData | src/hooks/usePokemon.ts:16-39 | after a load: not loading, types unchanged; on success the list is the fetched details with no error; on failure the old list stays and the error is 'Failed to load Pokemon data' |
| UsePokemon.PokemonStore.LoadTypes | src/hooks/usePokemon.ts:41-49 | on success the types are the response's names; on failure nothing changes; list, loading and error are never touched |
| UsePokemon.PokemonStore.Mount | src/hooks/usePokemon.ts:11-14 | the mount effect leaves both loads' results: the list or the error, and the types |
| DetailView.FindIndexById | src/pages/DetailView.tsx:18 | `findIndex` gives the first position with the identifier, or -1 exactly when no item has it |
| DetailView.RouteId | src/pages/DetailView.tsx:18 | the identifier the page looks for: `parseInt` with no radix of the route parameter, or of "0" when it is missing or empty; proved by `RouteIdOfRoute`, `MissingRouteIdIsZero` and `HexRouteId` |
| DetailView.CurrentIndex | src/pages/DetailView.tsx:18 | the current index is the first position whose identifier equals the route id parsed with no radix, or -1 when none does (always for NaN) |
| DetailView.CanGoPrevious | src/pages/DetailView.tsx:19 | Previous is enabled when the current index is above 0; tied to navigation by `HandlePrevious` and `NoIndexNavigation` |
| DetailView.CanGoNext | src/pages/DetailView.tsx:20 | Next is enabled when the current index is below the last position; tied to navigation by `HandleNext` and `AbsentIdLeadsToFirst` |
| DetailView.HandlePrevious | src/pages/DetailView.tsx:48-53 | a target exists exactly when Previous is enabled; it is the route of the item before the current one, at an index in bounds |
| DetailView.HandleNext | src/pages/DetailView.tsx:55-60 | a target exists exactly when Next is enabled; it is the route of the item after the current one, at an index in bounds |
| DetailView.RouteIdOfRoute | src/pages/DetailView.tsx:18 | the route parameter of `/pokemon/{n}` reads back as n |
| DetailView.NextThenPreviousReturns | src/pages/DetailView.tsx:48-60 | with distinct identifiers Next from item k leads to item k+1, and Previous from there back to item k |
| DetailView.AbsentIdHasNoIndex | src/pages/DetailView.tsx:18 | an identifier no item has gives index -1 |
| DetailView.NoIndexNavigation | src/pages/DetailView.tsx:19-20 | at index -1 in a non-empty list Previous is disabled and Next leads to the first item |
| DetailView.AbsentIdLeadsToFirst | src/pages/DetailView.tsx:55-60 | an identifier missing from a non-empty list still enables Next, which leads to the first item, even when it is the only one |
| DetailView.HexRouteId | src/pages/DetailView.tsx:18 | a hexadecimal route parameter such as `0x19` is read as the identifier it spells (25), as `parseInt` with no radix does |
| DetailView.MissingRouteIdIsZero | src/pages/DetailView.tsx:18 | a missing or empty route parameter is read as 0 |
| DetailView.FirstEnglishIndex | src/pages/DetailView.tsx:64-66 | `find` gives the first entry whose language is `en`, or none exactly when there is no such entry |
| DetailView.FlavorText | src/pages/DetailView.tsx:62-68 | empty without species or without an English entry; otherwise the first English text, same length, each form feed turned into a space and nothing else changed |
| DetailView.IdLabel | src/pages/DetailView.tsx:138 | the label has at least 3 digits; it is the decimal form itself when that has 3 or more, otherwise zeros then the decimal form; it reads back as the identifier (the same label is on the list and gallery cards) |
| DetailView.DisplayName | src/pages/DetailView.tsx:188 | stat and ability names (also line 210) keep their length; only the first hyphen becomes a space and later hyphens remain |
| DetailView.DetailPage.constructor | src/pages/DetailView.tsx:13-16 | nothing shown, loading, no error |
| DetailView.DetailPage.LoadPokemonDetail | src/pages/DetailView.tsx:28-46 | both requests use the route text; creature and species are stored only when both succeed; otherwise they stay and the error is 'Failed to load Pokémon details'; loading ends false |
| DetailView.DetailPage.OnRouteChange | src/pages/DetailView.tsx:22-26 | a missing or empty parameter changes nothing; any other one runs a load with the parameter's text, storing the creature and species when both requests succeed and setting the error otherwise, with loading ended |
| GalleryView.Without | src/pages/GalleryView.tsx:17 | removing a name drops every occurrence and keeps the others in order and as often as before |
| GalleryView.Toggled | src/pages/GalleryView.tsx:14-22 | after a toggle the name is selected exactly when it was not; other names keep their status; a selected name is removed, an unselected one appended at the end |
| GalleryView.ToggleKeepsDistinct | src/pages/GalleryView.tsx:14-22 | toggling a duplicate-free selection keeps it duplicate-free |
| GalleryView.ToggleChangesSizeByOne | src/pages/GalleryView.tsx:14-22 | on a duplicate-free selection a press removes exactly one name when the type was selected and adds exactly one otherwise |
| GalleryView.WithoutAbsent | src/pages/GalleryView.tsx:17 | removing a name that is not selected changes nothing |
| GalleryView.WithoutAppended | src/pages/GalleryView.tsx:17-19 | removing the name just appended gives back the earlier selection |
| GalleryView.ToggleTwiceRestores | src/pages/GalleryView.tsx:14-22 | toggling an unselected name twice restores the selection exactly |
| GalleryView.ToggleTwiceShowsSame | src/pages/GalleryView.tsx:10-22 | toggling any name twice leaves the shown list unchanged |
| GalleryView.FilterButtons | src/pages/GalleryView.tsx:59 | at most the first 18 type names become buttons, in order; all of them when there are 18 or fewer |
| GalleryView.CountLabel | src/pages/GalleryView.tsx:91 | "Showing ", the count in decimal, then " Pokémon"; proved by `ResultsLabelCount` and `ListView.ShownCountLabel` |
| GalleryView.TypeSuffix | src/pages/GalleryView.tsx:92 | " with type", an "s" for more than one name, ": " and the names joined by ", " when a type is selected, else empty; proved by `TypeSuffixShape` |
| GalleryView.ResultsLabel | src/pages/GalleryView.tsx:91-92 | the results line: the count line followed by the type suffix; proved by `ResultsLabelCount` and `TypeSuffixShape` |
| GalleryView.ResultsLabelCount | src/pages/GalleryView.tsx:91-92 | the results line starts with "Showing " and its number reads back as the count shown |
| GalleryView.TypeSuffixShape | src/pages/GalleryView.tsx:92 | nothing is appended for an empty selection; " with type: t" for one name; " with types: " and the names joined by ", " for more |
| GalleryView.ShowsNoResults | src/pages/GalleryView.tsx:130 | the notice condition: nothing shown while some type is selected; proved by `NoResultsIff` |
| GalleryView.NoResultsIff | src/pages/GalleryView.tsx:130 | the notice shows exactly when a type is selected and no item has any selected type |
| GalleryView.Gallery.constructor | src/pages/GalleryView.tsx:8 | the selection starts empty |
| GalleryView.Gallery.HandleTypeToggle | src/pages/GalleryView.tsx:14-22 | the selection becomes the toggled one, stays duplicate-free, and so loses or gains exactly one name |
| GalleryView.Gallery.ClearFilters | src/pages/GalleryView.tsx:24-26 | the selection becomes empty and the whole list is shown |
| GalleryView.Gallery.FilteredPokemon | src/pages/GalleryView.tsx:10-12 | the shown list is a subsequence of the loaded list; the whole list with no selection, otherwise each item with a selected type as many times as the list holds it and no other item |
| ListView.SortFieldValue | src/pages/ListView.tsx:61-65 | the option value of each sort field; proved by `SortFieldValueRoundTrip` |
| ListView.SortFieldFromValue | src/pages/ListView.tsx:19 | `e.target.value as SortField`: the field an option value names, none for any other text; proved by `SortFieldValueRoundTrip` |
| ListView.SortFieldValueRoundTrip | src/pages/ListView.tsx:61-65 | each sort field has an option whose value reads back as it; the values read as fields are exactly the five option values |
| ListView.FilteredAndSorted | src/pages/ListView.tsx:13-16 | the shown list is in the chosen order and holds each item the search keeps, as often as the list does, and no other |
| ListView.SortChoiceKeepsItems | src/pages/ListView.tsx:13-16 | changing the sort field or order never changes which items are shown or how many |
| ListView.ShownCountLabel | src/pages/ListView.tsx:96 | the count line reads back as the number of search results, whatever the sort |
| ListView.ShowsNoResults | src/pages/ListView.tsx:138 | the notice condition: nothing shown while the term is non-empty; proved by `NoResultsIff` |
| ListView.NoResultsIff | src/pages/ListView.tsx:138 | the notice shows exactly when the term is non-empty and either it is whitespace only and the list is empty, or no item matches it |
| ListView.ListPage.constructor | src/pages/ListView.tsx:9-11 | empty term, sort by identifier, ascending |
| ListView.ListPage.SetSearchTerm | src/pages/ListView.tsx:50 | the term becomes the input's value; the sort choice stays |
| ListView.ListPage.HandleSortFieldChange | src/pages/ListView.tsx:18-20 | the field becomes the one the chosen option names; term and order stay |
| ListView.ListPage.HandleSortOrderChange | src/pages/ListView.tsx:22-24 | the order becomes the chosen one; term and field stay |
| ListView.ListPage.Shown | src/pages/ListView.tsx:13-16 | the shown list is in the chosen order and is a permutation of the search result: the whole list for a blank term, otherwise each matching item as many times as the list holds it and no other item |

## Left out

- HTTP (axios, the 10-second timeout, `console.error` logging) is not modelled. Each request is a function from its path to a received value or a transport error.
- Concurrency is not modelled. Both loads are treated as run to completion one at a time, so overlapping refetches and interleaved setter calls are outside the model.
- Floating-point display is left out (`height / 10`, `toFixed(1)`, `getStatPercentage`), because the model has no floating point.
- JSX rendering, CSS class names and the image fallback (`official-artwork || front_default`) are left out: they shape the markup, not the data.
- React plumbing is left out: `useState`, `useEffect` and `useMemo` become class fields, methods and functions reading the object.
- The routing and chrome files (App, Navigation, HomePage) are not part of this model.
- JsString.ToLower: lowers ASCII letters only. Full Unicode case mapping is not modelled.
- JsString.LexLess compares whole characters, not UTF-16 code units; the two orders differ only outside the basic multilingual plane.
- JsString.IntToString: integers are unbounded. The loss of precision `parseInt` suffers beyond 2^53 is not modelled.
- UsePokemon.SortPokemon: ECMAScript leaves the order implementation-defined for a comparator that is not consistent, as this one is on ties. The model assumes an insertion sort that obeys the comparator, and states key order and permutation only, not the order among equal keys.
- UsePokemon.SortPokemon: a field outside the five (the `default` branch, reachable only through an unchecked `as SortField` cast) is excluded by the `SortField` datatype. `HandleSortFieldChange` accepts only the selector's option values.
- "The input list is left unchanged" holds by construction: lists are immutable values here, so sorting a copy and sorting in place cannot be told apart.
- `getPokemonByType` is modelled only by its request path (`TypePath`), because nothing in the core calls it.
- PokemonApi.ExtractIdFromUrl: its `number` result is `IntOrNaN`, so large identifiers never round.
- The `loading` and `error` branches that replace each page's body with a spinner or an error line are rendering and are not modelled.
