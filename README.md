# Vehicles-Search: the search page, modelled in Dafny

The search page of Vehicles-Search lets a user narrow a product search by make, year,
model, category and keyword. It loads its select-box contents from a REST API. The
page does two pieces of real work besides rendering. This model covers both.

* **It normalises the lists it loads.**
  * Each raw category string is split with the regular expression `/(?:^|[^\\]),/`.
    Each piece has every backslash-comma turned into a comma and is trimmed. The pieces
    of all strings are concatenated in order, and duplicates are removed.
  * Each raw make string is split on every comma and each piece is trimmed. The pieces
    are flattened and duplicates are removed.
  * The year selector offers 103 consecutive years starting at 1922.
* **It keeps state and reacts to the user.**
  * The state is one `useState` hook per field.
  * There are click and change handlers.
  * The effects that reload the make and model lists run when the make changes.
  * The search handler sets a loading flag and an error message around the products
    request.

The project has five modules:

* `Text` (`text.dfy`) models `String.prototype.trim`.
* `Lists` (`lists.dfy`) models `flat()`, the `reduce`/`concat` concatenation and
  `Array.from(new Set(xs))`.
* `Categories` (`categories.dfy`) models the category normaliser. The split is written
  as JavaScript runs a regular-expression split: a scan that tries a match at each
  position and resumes right after a match.
  * It is checked against an independent, position-wise account of which commas
    separate (`IsSep`, `Separators`).
  * The theorem `SplitIsSegments` says the scan cuts the string exactly at those commas.
* `Makes` (`makes.dfy`) models the make normaliser.
* `Controller` (`controller.dfy`) models the year options, the products query, and the
  class `SearchPage`.
  * `SearchPage` holds the state fields. Its methods are the handlers and effects.
  * Each network request is a parameter of type `Fetch<T>`, which is `Success(data)` or
    `Failure`.
  * Each method performs the state updates the page makes once that outcome is known.

What the code does, as the model states it:

* **A separator takes a character with it.** A length-2 separator match also removes the
  character in front of its comma. So `"Truck Parts, X"` gives the categories
  `"Truck Part"` and `"X"`.
* **An escaped comma stays put.** `"Truck\, Parts, Accessories"` gives `"Truck, Part"`
  and `"Accessories"`.
* **A failed search keeps the old results.** It shows the failure message and leaves the
  previous results on the page.
* **Empty facets are sent.** The products query always carries all five facets, empty
  ones included.
* **Each of these differs from what one might expect.** One might expect the split to
  keep the character in front of a separator, a failed search to clear the results, and
  empty facets to be left out of the query. The code does none of these, and the model
  follows the code.
* **The year range differs from its comment.** The comment beside the year options
  says 1960 to 2024, but the code generates 103 years from 1922, so 1922 to 2024.
  `YearOptionsRange` states the code's range.

## Model

| member | source | states |
|---|---|---|
| Text.SpaceKinds | src/app/page.js:28 | the characters `trim` removes (`IsSpace`) are exactly the line terminators, the Unicode space separators (Zs), and TAB, VT, FF and U+FEFF |
| Text.Trim | src/app/page.js:28 | the result has no white space at either end and is a slice of the input with only white space before and after it |
| Text.TrimUnique | src/app/page.js:28 | white space, then a trimmed text, then white space, trims to exactly that text |
| Text.TrimIdempotent | src/app/page.js:28 | trimming a trimmed string changes nothing |
| Text.TrimSubset | src/app/page.js:28 | every character of a trimmed string occurs in the original |
| Lists.Flatten | src/app/page.js:52 | flattening a single list gives that list |
| Lists.FlattenMembers | src/app/page.js:29 | an element is in the concatenation exactly when it is in one of the lists |
| Lists.FlattenAppend | src/app/page.js:29 | the concatenation of two lists of lists is the concatenation of their concatenations, so input order is kept |
| Lists.Dedupe | src/app/page.js:33 | `Array.from(new Set(xs))`: no duplicates, every element of xs is kept, nothing new is added, never longer than xs |
| Lists.DedupeMembers | src/app/page.js:33 | an element is in the deduplicated list exactly when it is in the input |
| Lists.DedupeFirstSeenOrder | src/app/page.js:33 | the result is in order of first occurrence: an earlier result element occurs in the input before any occurrence of a later one |
| Lists.DedupeOfDistinct | src/app/page.js:33 | a list without duplicates is left unchanged |
| Lists.DedupeIdempotent | src/app/page.js:54 | deduplicating twice equals deduplicating once |
| Categories.MatchAt | src/app/page.js:28 | a match of `/(?:^\|[^\\]),/` at a scan position is a comma at index 0 (length 1) or a non-backslash followed by a comma (length 2), or there is none |
| Categories.SplitFrom | src/app/page.js:28 | the regular-expression split loop from piece start p and scan position q: always at least one piece; `SplitFromIsSegments` ties it to the separators from q on |
| Categories.Split | src/app/page.js:28 | `cat.split(/(?:^\|[^\\]),/)`: always at least one piece; `SplitIsSegments` shows it cuts exactly at the separator commas |
| Categories.SplitIsSegments | src/app/page.js:28 | the split scan cuts the raw string exactly at its separator commas; each piece runs from the end of one separator match to the start of the next |
| Categories.SeparatorsExactly | src/app/page.js:28 | a comma separates exactly when it is at index 0, or follows a character that is neither a backslash nor a separator comma |
| Categories.EscapedCommaNeverSplits | src/app/page.js:26-28 | a comma right after a backslash never separates |
| Categories.SplitCount | src/app/page.js:28 | a raw string yields one more piece than it has separator matches |
| Categories.SplitRejoin | src/app/page.js:28 | putting each removed separator text back between the pieces gives the raw string back, so the split drops exactly the separator matches |
| Categories.SepTextShape | src/app/page.js:28 | each removed separator text is "," at index 0, or a non-backslash character followed by a comma |
| Categories.SplitWithoutComma | src/app/page.js:28 | a string without a comma is not split |
| Categories.ConsumedCharacterSplit | src/app/page.js:28 | "Truck Parts, X" splits into "Truck Part" and " X": the "s" before the separator belongs to neither piece |
| Categories.EscapedCommaSplit | src/app/page.js:28 | "Truck\, Parts, Accessories" splits only at its second comma, into "Truck\, Part" and " Accessories" |
| Categories.Unescape | src/app/page.js:28 | `replace(/\\,/g, ',')`, scanning left to right: never longer than its input; `UnescapeEscape` shows it inverts writing every comma as a backslash-comma |
| Categories.UnescapeEscape | src/app/page.js:28 | replacing the backslash-commas undoes writing every comma as a backslash-comma |
| Categories.UnescapeWithoutComma | src/app/page.js:28 | a text without a comma is left unchanged by the replacement |
| Categories.UnescapeAppend | src/app/page.js:28 | the replacement works piece by piece when the first piece does not end in a backslash |
| Categories.UnescapeEscapedComma | src/app/page.js:28 | a backslash-comma between comma-free texts becomes one comma |
| Categories.Clean | src/app/page.js:28 | a cleaned piece is trimmed |
| Categories.Entries | src/app/page.js:28 | one raw string gives one entry per split piece, each the piece unescaped and trimmed |
| Categories.EntriesWithoutComma | src/app/page.js:28 | a raw string without a comma gives exactly one entry: itself, trimmed |
| Categories.CategoryLists | src/app/page.js:27-28 | one entry list per raw category string, in input order, each the entries of that string |
| Categories.AllEntries | src/app/page.js:27-30 | the `reduce`/`concat` of the entry lists: empty for no raw strings, and the entries of the one string for a single raw string |
| Categories.AllEntriesAppend | src/app/page.js:27-30 | the entries of two raw lists are the entries of the first followed by those of the second |
| Categories.AllEntriesMembers | src/app/page.js:27-30 | a string is in the concatenated entries exactly when it is a cleaned piece of some raw string |
| Categories.Normalise | src/app/page.js:27-33 | the category list has no duplicates |
| Categories.NormaliseMembers | src/app/page.js:27-33 | a string is a category exactly when it is the cleaned form of some piece of some raw string |
| Categories.NormaliseShape | src/app/page.js:27-33 | no category occurs twice, every category is trimmed, and categories come in order of first occurrence in the entries of the raw strings taken in input order |
| Categories.NormaliseOfNormalised | src/app/page.js:27-33 | a list of distinct, trimmed, comma-free strings normalises to itself |
| Categories.NormaliseOfTwo | src/app/page.js:27-33 | one raw string that splits into two pieces with different cleaned forms gives exactly those two categories |
| Categories.EscapedCommaExample | src/app/page.js:27-33 | ["Truck\, Parts, Accessories"] normalises to ["Truck, Part", "Accessories"] |
| Categories.ConsumedCharacterExample | src/app/page.js:27-33 | ["Truck Parts, X"] normalises to ["Truck Part", "X"] |
| Categories.ConsumedCharacterPieces | src/app/page.js:28 | the pieces "Truck Part" and " X" clean to "Truck Part" and "X" |
| Categories.EscapedCommaPieces | src/app/page.js:28 | the pieces "Truck\, Part" and " Accessories" clean to "Truck, Part" and "Accessories" |
| Makes.IndexOfComma | src/app/page.js:51 | the first comma of a string, or its length when there is none; nothing before it is a comma |
| Makes.SplitOnComma | src/app/page.js:51 | `make.split(',')`: always at least one piece; `JoinSplit` and `SplitJoin` show it is undone by joining with commas, and undoes that join |
| Makes.SplitPiecesHaveNoComma | src/app/page.js:51 | no piece of `split(',')` holds a comma |
| Makes.SplitCount | src/app/page.js:51 | a raw make string yields one more piece than it has commas |
| Makes.JoinSplit | src/app/page.js:51 | joining the pieces with commas gives the raw string back |
| Makes.SplitJoin | src/app/page.js:51 | splitting comma-free pieces joined with commas gives back those pieces |
| Makes.MakeEntries | src/app/page.js:51 | one raw make gives one entry per piece, each trimmed |
| Makes.MakeEntriesShape | src/app/page.js:51 | every entry of a raw make is trimmed and holds no comma |
| Makes.MakeEntriesWithoutComma | src/app/page.js:51 | a raw make without a comma gives exactly one entry: itself, trimmed |
| Makes.MakeLists | src/app/page.js:50-51 | one entry list per raw make string, in input order, each the trimmed pieces of that string |
| Makes.AllMakes | src/app/page.js:50-52 | the `flat()` of the entry lists: empty for no raw strings, and the entries of the one string for a single raw string |
| Makes.NormaliseMakes | src/app/page.js:50-54 | the make list has no duplicates |
| Makes.NormaliseMakesMembers | src/app/page.js:50-54 | a string is in the make list exactly when it is a trimmed piece of some raw make string |
| Makes.NormaliseMakesShape | src/app/page.js:50-54 | no make occurs twice, every make is trimmed and holds no comma, and makes come in order of first occurrence |
| Makes.NormaliseMakesOfNormalised | src/app/page.js:50-54 | a list of distinct, trimmed, comma-free makes normalises to itself |
| Controller.YearOptions | src/app/page.js:110 | `Array.from({ length: 103 }, (_, i) => 1922 + i)`: exactly 103 options; `YearOptionsRange` gives their range and order |
| Controller.YearOptionsRange | src/app/page.js:110 | the 103 year options run from 1922 to 2024 in strictly increasing order, and a year is offered exactly when it is in that range |
| Controller.SearchQuery | src/app/page.js:86 | the `params` object of the products request: exactly five parameters; `SearchQueryKeys` and `SearchQueryValues` give their names and values |
| Controller.LookupFinds | src/app/page.js:86 | a query has a value for a name exactly when the name is one of its keys, and that value is paired with the name in the query |
| Controller.LookupAt | src/app/page.js:86 | the value found for a name is the one paired with its first occurrence |
| Controller.SearchQueryKeys | src/app/page.js:86 | the products query names exactly make, year, model, category and keyword, in that order, and never a SKU |
| Controller.SearchQueryValues | src/app/page.js:86 | the products query carries each facet exactly as the page holds it, empty ones included |
| Controller.SearchPage.constructor | src/app/page.js:6-16 | the initial state: empty lists and strings, not loading, no error |
| Controller.SearchPage.HandleMakeClick | src/app/page.js:97-99 | the make becomes the chosen one and no other field changes; model and year are not reset |
| Controller.SearchPage.HandleModelClick | src/app/page.js:101-103 | the model becomes the chosen one and no other field changes |
| Controller.SearchPage.SetYear | src/app/page.js:135 | the year becomes the selected value and no other field changes |
| Controller.SearchPage.SetCategory | src/app/page.js:163 | the category becomes the selected value and no other field changes |
| Controller.SearchPage.SetKeyword | src/app/page.js:179 | the keyword becomes the typed value and no other field changes |
| Controller.SearchPage.LoadCategories | src/app/page.js:20-40 | on success the category list becomes the normalised raw categories; on failure it is kept |
| Controller.SearchPage.RefreshMakes | src/app/page.js:41-61 | the request carries the current make as its term; on success the make list becomes the normalised raw makes; on failure it is kept |
| Controller.SearchPage.RefreshModels | src/app/page.js:63-79 | with an empty make the model list is emptied and nothing is requested; otherwise the make's models are requested, a success replaces the list wholesale, and a failure keeps it |
| Controller.SearchPage.Mount | src/app/page.js:20-79 | after the mount effects the lists are loaded from the responses, and with the initial empty make the model list is empty |
| Controller.SearchPage.SelectMake | src/app/page.js:41-99 | choosing a make sets it; only when it changed are the make and model lists refreshed; model and year are kept |
| Controller.SearchPage.BeginSearch | src/app/page.js:81-87 | a search sets loading and clears the error, then sends the five facets |
| Controller.SearchPage.EndSearch | src/app/page.js:88-94 | a success replaces the results; a failure keeps them and sets the fixed failure message; loading ends false either way |
| Controller.SearchPage.HandleSearch | src/app/page.js:81-95 | the whole search: query of the five facets; on success, new results and no error; on failure, the same results and the failure message; loading false afterwards |

## Left out

- Rendering and styling are left out: the JSX, the select and input elements, and the result cards.
- The product-detail modal is left out (`handleMoreClick`, `selectedProduct`, `isCardVisible`). It is presentation only.
- The disabled state of the search button while loading is rendering. `HandleSearch` may be called in any state.
- axios, the endpoint URLs, query-string encoding and `console.error` are left out. Each request is replaced by its outcome, a `Fetch` value.
- Product records are opaque maps. The page only passes them on.
- React's effect scheduling and the interleaving of asynchronous responses are left out.
  - An effect runs to completion once its outcome is given.
  - `SelectMake` runs the two make effects in the order they are declared.
  - Responses that arrive late or out of order are not modelled, and neither does the code guard against them.
- `BeginSearch` and `EndSearch` are separate so that the state between them (loading, no error) is visible. The model does not track which request a response belongs to.
- Strings are sequences of Unicode scalar values, not UTF-16 code units. Surrogate pairs are therefore not distinguished.
- The white space that `trim` removes is fixed to the Unicode space separators (Zs) of Unicode 6.3 and later, which exclude U+180E, together with TAB, VT, FF, U+FEFF and the four line terminators. Older engines that also count U+180E are not modelled.
- What the makes endpoint does with the term it is sent is not modelled. The model only returns that term.
