# Game catalog browser: the view computation, in Dafny

This project models the logic of a client-side game catalog browser (`script.js`).
The browser loads a list of games. Each game has a title, an optional description, tags,
a link, an optional thumbnail and optional `popularity` and `added` numbers.
A shared `state` object holds the search query, the set of active tags, the sort selector's
value, the catalog and the catalog's tag vocabulary. Every search, sort or tag action
updates `state`, and `render` then rebuilds the visible list:

1. it copies the catalog;
2. if the query is non-empty, it keeps the games whose lower-cased title or description
   contains the query (a missing description reads as "");
3. if any tag is active, it keeps the games that carry at least one active tag;
4. it sorts by title for `"az"`, by `added` descending for `"new"`, and by popularity
   descending for any other value; missing numbers count as 0, and the sort is stable;
5. it hides the empty-state indicator iff the list is non-empty.

The modules are:

- `Text` (text.dfy): `trim` with ECMAScript's exact white-space set, ASCII lower-casing,
  `includes`, and JavaScript's code-unit string order.
- `Sequences` (sequences.dfy): an order-preserving `Filter` and its laws.
- `Games` (games.dfy): the game record and the defaults for missing fields.
- `Ordering` (ordering.dfy): the three comparators and a stable sort. The sort is proved
  ordered, a permutation, and stable. It is also proved to be the only result any stable
  sort can return.
- `View` (view.dfy): the render pipeline as `ComputeView` and its properties.
- `Tags` (tags.dfy): the tag vocabulary and tag toggling.
- `Browser` (browser.dfy): the `state` object as a class whose methods are the event handlers.

The code sorts by popularity for any selector value other than `"az"` and `"new"`
(script.js:88-90), not only for `"popular"`, and so does the model.

## Model

| member | source | states |
|---|---|---|
| `Text.TrimStart` | script.js:32 | the result is a suffix of the input; everything dropped is white space; the result does not start with white space |
| `Text.TrimEnd` | script.js:32 | the result is a prefix of the input; everything dropped is white space; the result does not end with white space |
| `Text.Lower` | script.js:32 | each ASCII upper-case letter becomes its lower-case letter (code point plus 32) and every other character stays as it is, position by position; so no A-Z is left and a string without one is unchanged |
| `Text.Contains` | script.js:75-76 | computes `includes` by trying each starting position in turn; its meaning is given by `Text.ContainsIff` |
| `Text.CodeUnitLess` | script.js:24 | computes JavaScript's default string order: lexicographic over UTF-16 code units, a proper prefix first; its laws are the `CodeUnitLess*` lemmas below |
| `Text.Trim` | script.js:32 | neither end of the trimmed query is white space; an already trimmed string is unchanged |
| `Text.TrimIsSlice` | script.js:32 | `trim` keeps one contiguous slice of the input, and everything before and after that slice is white space, so `trim` removes white space only |
| `Text.NormalizeQuery` | script.js:32 | the stored query is trimmed and has no upper-case letter; a query that is already normalised is kept as it is |
| `Text.NormalizeIdempotent` | script.js:32 | normalising twice gives the same query as normalising once |
| `Text.BlankQueryIsEmpty` | script.js:32 | the stored query is empty, which switches the text filter off, iff the search box holds only white space |
| `Text.ContainsIff` | script.js:75-76 | `includes` holds iff the query occurs at some position of the text |
| `Text.CodeUnitRank` | script.js:24 | the position of a character in the order of its first UTF-16 code unit: characters below U+D800 keep their code point, characters from U+10000 up sort between U+D7FF and U+E000, and U+E000..U+FFFF sort last |
| `Text.CodeUnitRankBands` | script.js:24 | the rank puts U+0000..U+D7FF first, then U+10000 and above, then U+E000..U+FFFF, each band in code-point order |
| `Text.CodeUnitRankInjective` | script.js:24 | distinct characters have distinct positions in code-unit order |
| `Text.CodeUnitLessIrreflexive` | script.js:24 | no string sorts before itself |
| `Text.CodeUnitLessAsymmetric` | script.js:24 | two strings are never each before the other |
| `Text.CodeUnitLessTransitive` | script.js:24 | the string order is transitive |
| `Text.CodeUnitLessTotal` | script.js:24 | any two different strings are ordered one way or the other |
| `Sequences.Filter` | script.js:74-81 | computes `Array.prototype.filter`: the elements that pass the test, in input order; its laws are the `Filter*` lemmas below |
| `Sequences.FilterCons` | script.js:74 | `filter` decides the first element, then filters the rest |
| `Sequences.FilterCount` | script.js:74 | `filter` keeps each value as many times as it occurs if it passes the test, and drops it otherwise |
| `Sequences.FilterMembership` | script.js:81 | a value is in the filtered list iff it is in the input and passes the test |
| `Sequences.FilterSubMultiset` | script.js:74 | the filtered list is a sub-multiset of the input and no longer than it |
| `Sequences.FilterEmbedding` | script.js:74 | the kept elements sit at strictly increasing positions of the input |
| `Sequences.FilterIsSubsequence` | script.js:81 | `filter` keeps the relative order of what it keeps |
| `Sequences.FilterCongruent` | script.js:81 | two tests that agree on every element select the same list |
| `Sequences.FilterAll` | script.js:73-82 | a test that every element passes keeps the whole list, which is how a switched-off filter (`if (state.query)`, `if (state.activeTags.size)`) is folded into one conjunctive filter |
| `Sequences.FilterCompose` | script.js:73-82 | two filters in turn select what the conjunction of their tests selects |
| `Games.DescriptionOf` | script.js:76 | the default of the text filter: the description, or "" when it is missing |
| `Games.PopularityOf` | script.js:89 | the popularity comparator's default: the popularity, or 0 when it is missing |
| `Games.AddedOf` | script.js:87 | the `"new"` comparator's default: the `added` timestamp, or 0 when it is missing |
| `Ordering.SortKeyOf` | script.js:84-90 | `"az"` selects title order, `"new"` selects `added` order, and every other value selects popularity order |
| `Ordering.CompareTitles` | script.js:85 | the title comparator is zero iff the titles are equal, negative iff the first sorts before the second, and positive iff the second sorts first |
| `Ordering.Compare` | script.js:84-90 | computes the comparator handed to `list.sort` for each key: title order, `added` descending, popularity descending; its laws are `CompareAntisymmetric` and `CompareTransitive` |
| `Ordering.Insert` | script.js:84-90 | puts a game in front of the first game it may precede; its laws are `InsertCount`, `InsertSorted` and `InsertTies` |
| `Ordering.SortBy` | script.js:84-90 | computes `list.sort(cmp)` as a stable insertion sort; `StableSortIsUnique` shows that any stable sort by `cmp` returns the same list |
| `Ordering.CompareAntisymmetric` | script.js:84-90 | every comparator is zero on equal games, and swapping its arguments flips its sign |
| `Ordering.CompareTransitive` | script.js:84-90 | "may go before" and "ties with" are transitive for every comparator |
| `Ordering.InsertCount` | script.js:84-90 | inserting one game adds exactly that game to the multiset |
| `Ordering.SortPermutes` | script.js:84-90 | the sorted list is a permutation of its input |
| `Ordering.SortLength` | script.js:84-90 | the sorted list has as many games as its input |
| `Ordering.InsertSorted` | script.js:84-90 | inserting into an ordered list keeps it ordered |
| `Ordering.SortSorted` | script.js:84-90 | the sorted list is ordered by the comparator |
| `Ordering.SortOfSorted` | script.js:84-90 | sorting an already ordered list leaves it unchanged |
| `Ordering.TiesCons` | script.js:84-90 | the tie group of a list decides its first game, then the rest |
| `Ordering.TiesMembership` | script.js:84-90 | a game is in the tie group of `g` iff it is in the list and ties with `g` |
| `Ordering.InsertTies` | script.js:84-90 | an inserted game goes to the head of its tie group; other tie groups are unchanged |
| `Ordering.SortStable` | script.js:84-90 | stability: for every game, the games that tie with it appear in input order |
| `Ordering.SortedTiesDetermine` | script.js:84-90 | two ordered lists with the same tie groups are equal |
| `Ordering.StableSortIsUnique` | script.js:84-90 | every ordered list that keeps each tie group in input order equals the model's sort, so any stable `sort` gives this result |
| `View.MatchesQuery` | script.js:74-77 | the text filter's callback: the lower-cased title or the lower-cased description (missing reads as "") includes the query |
| `View.HasActiveTag` | script.js:81 | the tag filter's callback: some tag of the game is in the active set |
| `View.TextFilter` | script.js:73-78 | with an empty query the list is unchanged; otherwise a game is kept iff it is in the list and matches the query |
| `View.TagFilter` | script.js:80-82 | with no active tag the list is unchanged; otherwise a game is kept iff it is in the list and carries an active tag |
| `View.ComputeView` | script.js:71-90 | computes the list `render` builds: copy, text filter when the query is non-empty, tag filter when a tag is active, then sort by the selected order; its properties are the `View*` lemmas below |
| `View.FiltersCombine` | script.js:73-82 | the text filter followed by the tag filter keeps exactly the games passing both tests (each test counts as passed when it is switched off) |
| `View.SelectedInCatalogOrder` | script.js:71-82 | before sorting, the filtered list keeps catalog order |
| `View.ViewIsSortedSelection` | script.js:71-90 | the view is the filtered selection, sorted by the selected order |
| `View.ViewCount` | script.js:71-82 | a game appears in the view as often as in the catalog if it passes both filters, and not at all otherwise |
| `View.ViewMembership` | script.js:73-82 | a game is shown iff it is in the catalog, its lower-cased title or description contains the non-empty query, and it carries an active tag when any tag is active |
| `View.ViewWithinCatalog` | script.js:71-82 | the view is a sub-multiset of the catalog and never longer |
| `View.ViewUnfiltered` | script.js:71-90 | with an empty query and no active tag, the view is the whole catalog, only sorted |
| `View.ViewOrder` | script.js:84-90 | `"az"` gives titles in ascending order; `"new"` gives `added` in descending order; any other value gives popularity in descending order; missing numbers count as 0 |
| `View.ViewStable` | script.js:84-90 | games with equal sort keys keep their relative order from the filtered catalog |
| `View.ViewSortIdempotent` | script.js:84-90 | sorting the view again by the same order changes nothing |
| `View.ViewEmpty` | script.js:94 | the view is empty, so the empty-state indicator shows, iff no catalog game passes both filters |
| `View.PopularityExample` | script.js:71-90 | for Chess (popularity 5) and Snake (popularity 9), popularity order shows [Snake, Chess] |
| `View.TitleExample` | script.js:84-85 | for the same catalog, `"az"` shows [Chess, Snake] |
| `View.QueryExample` | script.js:73-77 | the query "chess" shows [Chess] only |
| `View.TagExample` | script.js:79-82 | the active tag "arcade" shows [Snake] only |
| `Tags.AllTags` | script.js:24 | computes `flatMap(g => g.tags)`: every tag of every game, in catalog order |
| `Tags.SortedDistinct` | script.js:24 | computes `Array.from(new Set(tags)).sort()`: the distinct tags in ascending code-unit order; specified by `SortedDistinctSpec` |
| `Tags.AllTagsMembership` | script.js:24 | `flatMap` over the catalog holds exactly the tags that some game carries |
| `Tags.AddTagSpec` | script.js:24 | adding a tag to an ascending list of distinct tags keeps it strictly ascending and adds exactly that tag |
| `Tags.SortedDistinctSpec` | script.js:24 | de-duplicating and sorting gives a strictly ascending list with the same tags |
| `Tags.TagVocabulary` | script.js:24 | the vocabulary is strictly ascending, so it has no duplicates, and holds exactly the tags some game carries |
| `Tags.AscendingUnique` | script.js:24 | two strictly ascending lists with the same tags are equal, so the order in which the set was filled does not matter |
| `Tags.Toggle` | script.js:61-62 | clicking a tag flips whether that tag is active and leaves every other tag as it was |
| `Tags.ToggleTwice` | script.js:61-62 | clicking the same tag twice restores the active set |
| `Browser.CatalogState.constructor` | script.js:2-8 | the initial state has an empty query, no active tag, popularity order and an empty catalog |
| `Browser.CatalogState.Load` | script.js:22-24 | loading stores the catalog and its tag vocabulary; the filters and the sort are unchanged |
| `Browser.CatalogState.SetQuery` | script.js:31-34 | the search handler stores the normalised query and changes nothing else |
| `Browser.CatalogState.SetSort` | script.js:36-39 | the sort handler stores the selected value as given and changes nothing else |
| `Browser.CatalogState.ToggleTag` | script.js:60-65 | a tag click flips that tag's membership, leaves other tags and all other fields unchanged, and keeps the active tags inside the vocabulary |
| `Browser.CatalogState.Render` | script.js:70-95 | `render` returns `ComputeView` of the current state, and hides the empty-state indicator iff that list is non-empty |

## Left out

- Network and decoding: `fetch("/games.json")` and `res.json()` (script.js:22-23) are not modelled. `Load` takes the decoded catalog as a parameter. A failed fetch is not modelled either.
- DOM work is not modelled: element lookups, clearing and appending children, building cards in `card()`, and toggling a tag button's `active` class. What the code displays is given by `Render`'s results.
- The theme toggle and its `localStorage` persistence (script.js:41-51) are left out: they are browser storage and UI only.
- Event registration and the ordering of the `async` `init` are left out. Each handler is a method of `CatalogState`, and `Load` runs before any handler.
- `Browser.CatalogState.Load`: it requires an empty active-tag set. `init` runs once, before any tag button exists, so the code never reloads with active tags.
- `Ordering.CompareTitles`: it compares titles in UTF-16 code-unit order, the order of the default `sort`. The code uses `localeCompare`, whose collation depends on a locale this model does not have.
- `Text.Lower`: it lower-cases only the ASCII letters A-Z. `toLowerCase` maps all of Unicode.
- `Games.PopularityOf` and `Games.AddedOf`: `popularity` and `added` are unbounded integers. Floating point, `NaN` and rounding in the comparators' subtractions are not modelled.
- Records without a `tags` field or without a `title` are not modelled. On a record without `tags`, `g.tags.some` (script.js:81) throws and `flatMap` (script.js:24) puts `undefined` into the vocabulary; on a record without `title`, `g.title.toLowerCase()` (script.js:75) and `a.title.localeCompare` (script.js:85) throw. The model requires every game to have a title string and a tag list, possibly empty.
- Strings are sequences of Unicode scalar values, so a JavaScript string holding a lone surrogate code unit cannot be represented; the model covers only well-formed UTF-16 strings.
- `url` and `thumbnail` are part of `Game`, but only `card()` reads them, and `card()` is not modelled.
