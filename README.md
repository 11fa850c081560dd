# neoglyph data widgets, modelled in Dafny

This project models the logic of the three data widgets of the neoglyph
component library:

- **DataBricks** is a board of cards. It has a free-text search over every field of an item, including array fields, and a stable sort driven by a history of sort keys. It also has a formatter that turns record keys into labels, and a schema-driven ordering of each card's key/value pairs, from which the card lists the first 5, 20 or all pairs depending on its size. Clicking a card selects or deselects it, restores it when it is the maximised card, or (in the vertical layout) moves it to the bottom of the stack; a separate icon maximises a card. Cards can be hidden and deleted.
- **DataBricksFacetedFilter** is a facet for one column. It offers the column's distinct truthy values in first-occurrence order, shows the selected values with a badge count, and toggles or clears the selection inside a map of per-column filters.
- **DataGrid** is a table. It has a header formatter, column lists derived from the schema with defaults, the initial sorting, the row-id rule, and cell edits applied to an edit buffer. Its edit/cancel/save state machine is synchronised with the `data` prop by an effect. It also has a delete confirmation.

JS values are the datatype `JsValues.Value`. A record is the list of its
fields in key order, so that `Object.entries`, `Object.keys` and
`{ ...r, [k]: v }` keep JS key order. Truthiness and `String(v)` follow
JS, including an array printing as its comma-joined elements. The React
state of DataBricks and DataGrid is a class per component. Each handler is
a method that changes the fields the handler sets. When a handler changes
state that an effect depends on, the method also performs what the effect
does, so it ends in the state the component settles in. React skips an
update that stores the value already held, and the effect then does not
run: `BricksBoard.DataBricks.Search` re-derives the view only when the
stored search text changes. The updaters of the
faceted filter copy the filter map and mutate the copy; they are methods
that return the new map.

The files are:

- `seqs.dfy`: `filter`, `slice`, insertion-ordered `Set` deduplication, and subsequence facts.
- `js_values.dfy`: values, records, truthiness and `String()`.
- `text.dfy`: case mapping, `trim`, `includes`, string `<`, and the title-casing regular expression.
- `item_order.dfy`: the comparator of `getItemSorter` and the stable sort.
- `bricks.dfy`: the pure DataBricks logic.
- `bricks_view.dfy`: the DataBricks state and handlers.
- `faceted_filter.dfy`: the facet.
- `grid.dfy`: DataGrid.

Two places where the code's behaviour is easy to misread:

- **Save in DataGrid.** `handleSaveClick` only logs the edit buffer and leaves edit mode. Leaving edit mode re-runs the effect at `components/DataGrid.js:100-104`, which copies `data` back into the buffer. So after Save the table shows `data` again, and the edits survive only in the log. The model follows the code: `Grid.DataGrid.SaveClick` returns the logged buffer and ends with `editingData == data`. A description of Save as keeping the edit buffer does not match the code.
- **Row ids in DataGrid.** The generated row id `row-<index>` is not reserved. A row whose own `id` is `"row-1"` gets the same id as an anonymous row at index 1 (`Grid.RowIdsCanCollide`). Ids are unique only among rows that have neither an `id` nor a `key` (`Grid.RowIdsOfAnonymousRows`).

## Model

| member | source | states |
|---|---|---|
| Text.TrimEmptyIffBlank | components/DataBricks.js:36 | `filter.trim() === ""` holds exactly when the filter is all ECMAScript white space |
| Text.TrimStarIffPaddedStar | components/DataBricks.js:36 | `filter.trim() === "*"` holds exactly when the filter is one `*` with only white space around it |
| Text.SameLowerSameShape | components/DataBricks.js:36-40 | two filters that lower-case alike are blank alike and padded-star alike |
| Text.ContainsIffOccurs | components/DataBricks.js:47-52 | `includes` is true exactly when the needle occurs at some offset of the text |
| Text.StrLessIrreflexive | components/DataBricks.js:61 | string `<` is irreflexive |
| Text.StrLessTransitive | components/DataBricks.js:61 | string `<` is transitive |
| Text.StrLessTotal | components/DataBricks.js:61 | of two different strings one is `<` the other |
| Text.CapitalizeWordsAt | components/DataBricks.js:96 | `replace(/\b\w/g, toUpperCase)` upper-cases exactly the word starts, the word characters not preceded by a word character, and keeps every other character |
| ItemOrder.KeyLessIrreflexive | components/DataBricks.js:61 | no field value is `<` itself in the assumed value order |
| ItemOrder.KeyLessTransitive | components/DataBricks.js:61 | the assumed value order is transitive |
| ItemOrder.KeyLessTotal | components/DataBricks.js:61 | of two different sort keys one is `<` the other |
| ItemOrder.Compare | components/DataBricks.js:57-66 | the comparator's result is always -1, 0 or 1 |
| ItemOrder.CompareItems | components/DataBricks.js:57-66 | the `for...of` loop with its early return computes the comparator's result |
| ItemOrder.CompareStep | components/DataBricks.js:58-63 | a tie on the first key defers to the rest of the history; otherwise the smaller value comes first when ascending and last when descending |
| ItemOrder.CompareFirstDifference | components/DataBricks.js:58-63 | the first key of the history on which the items differ decides the result |
| ItemOrder.CompareSkipsTies | components/DataBricks.js:58-63 | keys of the history on which the items tie are passed over: the comparison equals the one on the keys after them |
| ItemOrder.CompareZeroIffTied | components/DataBricks.js:58-65 | the result is 0 exactly when the items tie on every key, where absent or falsy values count as 0 |
| ItemOrder.CompareAntisymmetric | components/DataBricks.js:61-62 | swapping the items negates the result |
| ItemOrder.CompareReflexive | components/DataBricks.js:57-66 | an item compares 0 with itself |
| ItemOrder.CompareTransitive | components/DataBricks.js:57-66 | "comes no later than" is transitive, so the comparator is consistent for `sort` |
| ItemOrder.SortItemsPermutes | components/DataBricks.js:88 | sorting returns the same multiset of items |
| ItemOrder.SortItemsSorted | components/DataBricks.js:88 | every sorted item comes no later than every later one |
| ItemOrder.SortItemsStable | components/DataBricks.js:88 | items that compare 0 keep their relative order |
| ItemOrder.SortItemsAllTied | components/DataBricks.js:88 | when all pairs compare 0 the order is unchanged |
| ItemOrder.SortByFalsyKeysKeepsOrder | components/DataBricks.js:57-66 | sorting by keys that no item holds a truthy value for keeps the input order |
| JsValues.Put | components/DataGrid.js:139 | `{ ...row, [k]: v }` reads `v` at `k` and the old value at every other key; an existing key keeps its place and a new one goes last |
| JsValues.PutPut | components/DataGrid.js:139 | writing a property twice is writing the second value once |
| JsValues.ArrayText | components/DataBricks.js:48 | `String(array)` is empty for no elements, else the first element's text (empty for `null` and `undefined`), then a comma and the rest's text when more follow |
| JsValues.NatToTextInjective | components/DataGrid.js:366 | different indexes print as different decimal texts |
| Seqs.Slice | components/DataBricks.js:152-156 | `slice(start, end)` clamps both bounds to the length and copies the elements in between |
| Bricks.AcceptsAllMeaning | components/DataBricks.js:36-38 | the shortcut accepts exactly a missing filter, an all-blank filter and a padded single `*` |
| Bricks.TextMatchesMeaning | components/DataBricks.js:52 | a value matches when the needle occurs in its lower-cased `String()` text |
| Bricks.SomeElementMatchesMeaning | components/DataBricks.js:47-49 | an array matches exactly when one of its elements' texts contains the needle |
| Bricks.ValueMatchesMeaning | components/DataBricks.js:45-52 | arrays match through their elements, other values through their own text |
| Bricks.SomeFieldMatchesMeaning | components/DataBricks.js:44-53 | an item matches exactly when one of its fields does |
| Bricks.FilterTestMeaning | components/DataBricks.js:34-55 | an item passes exactly when the filter accepts all, or the lower-cased, untrimmed filter occurs in the text of some field or of some element of an array field |
| Bricks.FilterIgnoresCase | components/DataBricks.js:40-53 | filters that differ only in letter case pass the same items |
| Bricks.MatchingMeaning | components/DataBricks.js:87 | the filtered list keeps the input order and holds each passing item as often as the input does, and no failing item |
| Bricks.ViewMeaning | components/DataBricks.js:84-91 | the effect's list holds exactly the matching items, in comparator order, with ties in input order |
| Bricks.DefaultViewKeepsOrder | components/DataBricks.js:84-91 | with the default history `["original-order"]`, which the records do not set, the view is the matching items in input order |
| Bricks.FormatKeyAt | components/DataBricks.js:93-97 | `formatKey` keeps the length, turns `_` into a space, upper-cases each word start and keeps every other character |
| Bricks.FormatKeyHasNoUnderscore | components/DataBricks.js:95 | a formatted key contains no `_` |
| Bricks.FormatKeyIdempotent | components/DataBricks.js:93-97 | formatting a formatted key changes nothing |
| Bricks.EntriesFor | components/DataBricks.js:107 | `keys.map(key => [key, item[key]])` has exactly those keys, each with the item's value |
| Bricks.ReorderKeysWithoutOrder | components/DataBricks.js:100 | with no `schema.order` the entries are the item's own |
| Bricks.ReorderKeysSameFields | components/DataBricks.js:104-107 | with an order, the entries name exactly the item's keys, each paired with `item[key]` |
| Bricks.ReorderKeysOrder | components/DataBricks.js:101-107 | the ordered keys present in the item come first, in schema order, then the remaining item keys in item order |
| Bricks.ReorderKeysDistinct | components/DataBricks.js:102-107 | an order without repeats yields entries without repeated keys, so every item key appears exactly once |
| Bricks.ShownFieldsMeaning | components/DataBricks.js:152-156 | a card lists the first 20 pairs when large, all of them when full width, and the first 5 otherwise |
| Bricks.CardIndex | components/DataBricks.js:117 | `findIndex` returns the first card with the id, or -1 exactly when no card has it |
| Bricks.WithoutCardMeaning | components/DataBricks.js:143 | deleting keeps the other cards in order, each as often as before, and drops every card with the id |
| Bricks.MoveToEndPermutes | components/DataBricks.js:117-124 | the vertical click keeps length and cards, leaves the list unchanged for an unknown id, and puts the clicked card last |
| Bricks.MoveToEndKeepsOthers | components/DataBricks.js:117-124 | the other cards keep their relative order |
| Bricks.ToggleHidden | components/DataBricks.js:241-245 | cards with the id get `isHidden` set to the negation of its truthiness, with every other field and every other card unchanged |
| Bricks.ToggleHiddenTwice | components/DataBricks.js:241-245 | hiding twice restores whether a card is hidden and every other field |
| BricksBoard.DataBricks.constructor | components/DataBricks.js:68-91 | the first render starts in the masonry layout with nothing selected, maximised or pending deletion, showing the matching items sorted by the history |
| BricksBoard.DataBricks.SetItems | components/DataBricks.js:84-91 | a new `items` prop re-derives the view |
| BricksBoard.DataBricks.Search | components/DataBricks.js:328-329 | an emptied box stores `*`; the box shows what was typed; all items pass exactly for blank or padded-`*` text; the view is re-derived when the stored text changes and kept as it is (deletions, hidden flags, order) when it does not |
| BricksBoard.DataBricks.SetSortHistory | components/DataBricks.js:333-334 | the sort buttons replace the history and the view is re-sorted by it |
| BricksBoard.DataBricks.ToggleLayout | components/DataBricks.js:336-338 | the layout switches between masonry and vertical |
| BricksBoard.DataBricks.CardClick | components/DataBricks.js:114-133 | vertical: the clicked card moves last, same cards. Otherwise a click on the maximised card un-maximises it, and any other click toggles the selection between the id and null |
| BricksBoard.DataBricks.ConfirmDelete | components/DataBricks.js:135-138 | the dialog opens and remembers the card id |
| BricksBoard.DataBricks.DeleteCard | components/DataBricks.js:140-145 | the dialog closes, no shown card keeps the remembered id, the others keep their order, and the id is forgotten |
| BricksBoard.DataBricks.ToggleHiddenCard | components/DataBricks.js:239-245 | the eye icon flips `isHidden` on the cards with the id |
| BricksBoard.DataBricks.Maximise | components/DataBricks.js:278-284 | the maximise icon toggles the maximised card between the id and null and clears the selection |
| BricksBoard.DataBricks.IsFullWidth | components/DataBricks.js:190 | every card is full width in the vertical layout; in masonry exactly the maximised card is |
| BricksBoard.DataBricks.IsLargeSize | components/DataBricks.js:189-191 | a card is large exactly in masonry when it is selected and not maximised, and a large card is never full width |
| BricksBoard.DataBricks.CardFields | components/DataBricks.js:147-156 | a card lists a prefix of its non-header pairs: 20 when large, all when full width or vertical, 5 otherwise |
| FacetedFilter.UniqueValuesMeaning | components/DataBricksFacetedFilter.js:31-35 | the offered values have no repeats, are exactly the truthy values some item has in the column, and follow first occurrence |
| FacetedFilter.BadgeMeaning | components/DataBricksFacetedFilter.js:71-77 | the badge counts the distinct selected values, a repeat-free list in full, and shows exactly when the column has a non-empty list |
| FacetedFilter.ToggledMeaning | components/DataBricksFacetedFilter.js:41-55 | the stored list has no repeats, holds the value exactly when it was absent, and keeps the other values; a repeat-free list loses the value in place or gets it appended |
| FacetedFilter.ToggledTwice | components/DataBricksFacetedFilter.js:41-55 | toggling twice restores the selected set, and the list itself when the value was absent |
| FacetedFilter.ToggleFilter | components/DataBricksFacetedFilter.js:41-55 | the column's selection flips for the value only, its list has no repeats, and every other column is untouched |
| FacetedFilter.ClearFilters | components/DataBricksFacetedFilter.js:57-63 | the column's entry is gone, its selection empty, other columns untouched, and clearing an absent entry changes nothing |
| Grid.FormatHeaderMeaning | components/DataGrid.js:78-86 | headers keep the key's length; a 2-character key is fully upper-cased; otherwise `_` becomes a space, word starts are upper-cased and no `_` remains |
| Grid.InitialSorting | components/DataGrid.js:107-113 | one entry per `defaultSorting` element, in order, with `id = key` and `desc` kept when truthy and `false` otherwise; empty without `defaultSorting` |
| Grid.EditableColumnsDefault | components/DataGrid.js:154-155 | without a schema list the editable columns are the displayed ones except `id`, in display order |
| Grid.ColumnsWithoutSchema | components/DataGrid.js:146-155 | without a schema the columns are the first record's keys (none without records), only title/description/category sort, and `id` is not editable |
| Grid.RowId | components/DataGrid.js:366 | the row id is truthy: a truthy `id`, else a truthy `key`, else `row-<index>` with the index in decimal |
| Grid.RowIdsOfAnonymousRows | components/DataGrid.js:366 | rows with neither `id` nor `key` at different indexes get different ids |
| Grid.RowIdsCanCollide | components/DataGrid.js:366 | a row whose `id` is `"row-1"` shares its id with an anonymous row at index 1 |
| Grid.UpdateCell | components/DataGrid.js:136-142 | rows with the id get the column set to the value with other fields unchanged; other rows, length and order are unchanged |
| Grid.UpdateCellLastWins | components/DataGrid.js:136-142 | two edits of the same non-`id` column of the same rows leave the second value |
| Grid.DataGrid.constructor | components/DataGrid.js:88-113 | the grid starts outside edit mode with the buffer equal to `data`, no pending deletion, and the initial sorting |
| Grid.DataGrid.TableData | components/DataGrid.js:346 | the table shows the edit buffer, which equals `data` outside edit mode |
| Grid.DataGrid.IsCellEditable | components/DataGrid.js:203-204 | a cell shows an editor only in edit mode, on the edited row, in an editable column; without a schema list of editable columns the `id` column never does |
| Grid.DataGrid.SetData | components/DataGrid.js:100-104 | a new `data` prop reaches the buffer unless a row is being edited, which keeps its edits |
| Grid.DataGrid.EditClick | components/DataGrid.js:116-119 | edit mode starts on the row's id, the buffer is kept, and the row's cells show editors exactly in the editable columns |
| Grid.DataGrid.CancelClick | components/DataGrid.js:122-126 | edit mode ends, no cell shows an editor, and the buffer is reset to `data` |
| Grid.DataGrid.SaveClick | components/DataGrid.js:129-133 | edit mode ends and no cell shows an editor; the buffer is logged, then reset to `data` by the effect |
| Grid.DataGrid.UpdateCellValue | components/DataGrid.js:136-142 | while editing, the buffer gets the cell update and `data` is unchanged |
| Grid.DataGrid.RequestDelete | components/DataGrid.js:329-332 | the row is remembered and the dialog opens |
| Grid.DataGrid.HandleDelete | components/DataGrid.js:472-480 | the dialog closes and the row is forgotten; the rows of `data` without its id are computed, in order and each as often as in `data`, but only logged, so `data` and the buffer stay; with no row the id read throws |

## Left out

- `shuffleItems` (components/DataBricks.js:110-112) is not modelled: its order comes from `Math.random`.
- Numbers are integers: floating point, `NaN`, `Infinity` and exponent notation in `String(n)` are not modelled. The same goes for the `parseFloat` and `Date` editors of DataGrid (components/DataGrid.js:217-266); their edits reach `UpdateCellValue` as a given value.
- Field values that are plain objects, which print as `[object Object]`, are not modelled.
- JS `<` and `>` between values of different types (coercion to numbers, `true > 0`) are not modelled. Values of different kinds are ranked by kind; within a kind, booleans compare as 0 and 1, numbers numerically, strings by code point, and arrays by their `String()` text.
- Text.StrLess: compares strings by code point, while JS `<` compares UTF-16 code units. The two orders differ only between a character above U+FFFF and one in U+E000 to U+FFFF, because strings are sequences of code points here.
- Case mapping covers ASCII letters only. Strings are sequences of code points, so a key's length is its number of code points, not of UTF-16 units.
- `key in item` also finds inherited properties such as `toString`. The model sees only own properties.
- `Object.keys` lists integer-like keys first in numeric order. The model keeps keys in the order the record lists them.
- `===` and `Set` compare arrays by reference. The model compares them by contents.
- The `setTimeout` delays and the `async` flow of the delete handlers are not modelled. Only the state they end in is modelled.
- The `console.log` output is modelled only as the values `SaveClick` and `HandleDelete` return.
- The `@tanstack/react-table` row models are not modelled: filtering, global filter, faceting, pagination, sorting changes, row selection and column visibility. The `sorting` state holds only its initial value.
- JSX rendering, CSS classes, animation, tooltips, badge and centre-aligned columns, and the `transitionDuration` prop are not modelled.
- The CLI (`add.js`), the API client, the demo pages and the static schema and release configuration are not part of this model.
- Bricks.ReorderKeysWithoutOrder: pairs each entry with `item[key]` only for records without repeated keys, which JS objects always are.
- BricksBoard.DataBricks.Search: the search box's text is stated only for text other than `*`, because the box shows an empty string for a stored `*`.
- Grid.UpdateCellLastWins: requires the edited column not to be `id`, because such an edit changes which rows the second edit finds.
