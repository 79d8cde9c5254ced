# Shopping list app — a verified model of its core

The app keeps a catalog of stores, each with categories of item names. The user
checks off items per store, arranges the stores in a visit order, and copies a
WhatsApp-ready shopping list. This project models the app's pure core in Dafny
and proves what that core promises:

- **Text** (`text.dfy`) models name normalization (`normalize_name`) on exactly
  Python's whitespace characters. It also models `strip()`, splitting at
  separator characters, and `replace`.
- **Ordering** (`ordering.dfy`) models the case-insensitive sort key and sorting.
  It also models `_sorted_unique`.
- **Catalog** (`catalog.dfy`) holds the six catalog edits. Each edit is specified by
  a function on the catalog value and carried out in place by a method of class
  `Catalog`. The module also states the catalog invariant every edit preserves,
  and models `convert_legacy_shape` on an already-parsed document.
- **StoreOrder** (`visit_order.dfy`) models `ordered_stores` and
  `parse_store_order_text`. It also models the reconciliation step of
  `load_store_order`.
- **Selection** (`selection.dfy`) models the per-session selection state. Its
  reconciliation loop keeps the selection shaped like the catalog.
- **Listing** (`listing.dfy`) models `format_shopping_list_for_whatsapp`.
- **Chunking** (`chunking.dfy`) models `chunk_list`.

Deduplication in the app is by exact spelling. Normalization collapses whitespace
but does not fold case. So `milk` and ` Milk ` are both kept by `_sorted_unique`
(`Ordering.CaseVariantsKept`).

Sorting with `key=str.lower` leaves names with equal lower-case keys in their
input order. For `_sorted_unique` that input is a set, and a set's iteration order
is not fixed from one run to the next. For the store keys (`app.py:142`, `242` and
`348`) it is the catalog's insertion order. The model breaks all such ties by the
raw strings (`Ordering.Before`). In the model, `_sorted_unique` therefore yields
`Milk` before `milk`, and the sorted arrangement of a set is unique
(`Ordering.SortedUniqueness`).

The catalog invariant asks for distinct, non-empty, normalized item names and at
least one category per store. The lists the app builds itself are also sorted:
`add_items` sorts the union of the old items and the typed names (`app.py:185`),
and the conversion of a saved file uses `_sorted_unique`.
The built-in catalog's lists are not sorted (`Catalog.DefaultListsUnsorted`), so
sortedness is stated per operation and is not part of the invariant.

## Model

| member | source | states |
|---|---|---|
| Text.Words | app.py:55 | `split()`: every word is a non-empty run of non-whitespace; there are no words exactly when the input is all whitespace |
| Text.Normalize | app.py:54-55 | the result has no whitespace at either end and single `' '` between words; it is empty exactly when the input is all whitespace |
| Text.NormalizeIdempotent | app.py:54-55 | normalizing a normalized name changes nothing |
| Text.NormalIsFixed | app.py:54-55 | every string of normalized shape is its own normalization |
| Text.WordsOfJoin | app.py:55 | splitting the space-join of words returns those words |
| Text.WordsOfWord | app.py:55 | a single word splits into itself |
| Text.WordsAtSpace | app.py:55 | splitting at a whitespace character splits the two sides apart: the words are those of the left side, then those of the right |
| Text.NormalizeKeepsWords | app.py:54-55 | a name has the same words, in the same order, as the text it was normalized from |
| Text.NormalizeSameWords | app.py:54-55 | two texts normalize to the same name exactly when they have the same words |
| Text.NameHasNoLineBreak | app.py:55 | a normalized name holds no line-break character |
| Text.StripLeft | app.py:292 | drops exactly the leading whitespace and keeps the rest as a suffix |
| Text.StripRight | app.py:292 | drops exactly the trailing whitespace and keeps the rest as a prefix |
| Text.Strip | app.py:292 | the result neither starts nor ends with whitespace |
| Text.StripRightKeepsPrefix | app.py:292 | a prefix ending in a non-space survives trimming the end |
| Text.Split | app.py:178 | `split(sep)` yields at least one piece, and no piece contains a separator |
| Text.JoinSplit | app.py:178 | joining the pieces with their separator restores the text |
| Text.SplitOfJoin | app.py:335 | splitting a join of separator-free parts returns the parts |
| Text.SplitAtSeparator | app.py:335 | the pieces of a text around one separator are the pieces of the left side, then those of the right |
| Text.Replace | app.py:177 | same length; each `a` becomes `b` and every other character is kept |
| Text.SplitReplaced | app.py:177-178 | replacing newlines by commas and then splitting at commas is splitting at both |
| Ordering.Lower | app.py:60 | the sort key keeps the length and lowers each character |
| Ordering.LexLtTransitive | app.py:60 | string comparison is transitive |
| Ordering.LexLtTotal | app.py:60 | any two distinct strings are comparable |
| Ordering.BeforeIrreflexive | app.py:60 | no name sorts before itself |
| Ordering.BeforeTransitive | app.py:60 | the sort order is transitive |
| Ordering.BeforeAsymmetric | app.py:60 | two names never sort before each other |
| Ordering.BeforeTotal | app.py:60 | any two distinct names are ordered one way |
| Ordering.StrictlySortedIsSortedAndDistinct | app.py:60 | a strictly sorted list is sorted by lower-case key and has no repeats |
| Ordering.SortedUniqueness | app.py:60 | two strictly sorted lists with the same members are equal |
| Ordering.Insert | app.py:60 | adding a name keeps a list sorted; the members are the old ones plus the name |
| Ordering.SortedSetOf | app.py:60 | the sorted arrangement of a set is strictly sorted and holds exactly the set |
| Ordering.SortSet | app.py:60 | sorting a set yields its sorted arrangement |
| Ordering.SortDistinct | app.py:60 | sorting a list with repeats dropped is strictly sorted with the same members |
| Ordering.Cleaned | app.py:59 | keeps only non-empty normalized names, with the members being exactly the normalized non-empty inputs |
| Ordering.CleanedAppend | app.py:59 | cleaning keeps input order: cleaning a concatenation concatenates the cleaned parts |
| Ordering.SortedUnique | app.py:58-60 | `_sorted_unique` is strictly sorted, holds names only, and holds exactly the normalized non-empty inputs |
| Ordering.SortedUniqueIsSortedSet | app.py:58-60 | the result depends only on the set of normalized inputs |
| Ordering.CaseVariantsKept | app.py:58-60 | `["milk", " Milk "]` gives `["Milk", "milk"]`: spellings differing in case are both kept |
| Catalog.CategoryName | app.py:163 | a category name is always a name; a non-empty normalization is used as is, and a blank one becomes "Uncategorized" |
| Catalog.NewItems | app.py:177-179 | every typed item is a normalized non-empty name |
| Catalog.NewItemsAsTyped | app.py:177-179 | the model's split equals the app's replace-then-split-at-commas |
| Catalog.WithItems | app.py:169-186 | `add_items` on the catalog value: the stores stay the same, and an unknown store leaves the catalog unchanged |
| Catalog.WithStore | app.py:154-158 | adds the normalized store with one empty "Uncategorized" category, unless the name is empty or taken; nothing else changes |
| Catalog.WithCategory | app.py:161-166 | adds an empty category to a known store unless present; nothing else changes |
| Catalog.WithItemsEffect | app.py:169-186 | for a known store, the category (created if absent) becomes the sorted, repeat-free union of its items and the typed names; nothing else changes |
| Catalog.WithItemsIdempotent | app.py:169-186 | adding the same text twice is adding it once |
| Catalog.WithItemsUnchanged | app.py:169-186 | adding items a category already holds, in merged form, changes nothing |
| Catalog.RemoveAll | app.py:191 | the item is gone and every other occurrence is kept, as a multiset |
| Catalog.RemoveAllSorted | app.py:191 | removing an item from a sorted, repeat-free list keeps it so |
| Catalog.RemoveAllDistinct | app.py:191 | removing an item from a repeat-free list keeps it repeat-free |
| Catalog.RemoveAllAppend | app.py:191 | filtering distributes over concatenation, so order is kept |
| Catalog.WithoutItem | app.py:189-192 | removes every exact occurrence of the item from an existing category; nothing else changes |
| Catalog.WithoutCategory | app.py:195-201 | deletes the category, or resets the store to one empty "Uncategorized" category when it was the last; the store keeps at least one category |
| Catalog.WithoutStore | app.py:204-207 | exactly that store key is removed |
| Catalog.WithStoreKeepsWellFormed | app.py:154-158 | `add_store` preserves the catalog invariant |
| Catalog.WithCategoryKeepsWellFormed | app.py:161-166 | `add_category` preserves the catalog invariant |
| Catalog.WithItemsKeepsWellFormed | app.py:169-186 | `add_items` preserves the catalog invariant |
| Catalog.WithoutItemKeepsWellFormed | app.py:189-192 | `remove_item` preserves the catalog invariant |
| Catalog.WithoutCategoryKeepsWellFormed | app.py:195-201 | `remove_category` preserves the catalog invariant |
| Catalog.WithoutStoreKeepsWellFormed | app.py:204-207 | `remove_store` preserves the catalog invariant |
| Catalog.MergeItems | app.py:181-185 | the merge loop yields the sorted arrangement of old and new items together |
| Catalog.Catalog.AddStore | app.py:154-158 | the in-place edit leaves `WithStore` of the old catalog and keeps the invariant |
| Catalog.Catalog.AddCategory | app.py:161-166 | the in-place edit leaves `WithCategory` of the old catalog and keeps the invariant |
| Catalog.Catalog.AddItems | app.py:169-186 | the in-place edit leaves `WithItems` of the old catalog and keeps the invariant |
| Catalog.Catalog.RemoveItem | app.py:189-192 | the in-place edit leaves `WithoutItem` of the old catalog and keeps the invariant |
| Catalog.Catalog.RemoveCategory | app.py:195-201 | the in-place edit leaves `WithoutCategory` of the old catalog and keeps the invariant |
| Catalog.Catalog.RemoveStore | app.py:204-207 | the in-place edit leaves `WithoutStore` of the old catalog and keeps the invariant |
| Catalog.CategoriesOf | app.py:88-91 | exactly the array-valued entries become categories, under valid names, with their items cleaned, repeat-free and sorted |
| Catalog.CategoriesOfLastEntryWins | app.py:88-91 | a category takes the sorted, repeat-free items of the last array entry whose name maps to it |
| Catalog.ConvertPayload | app.py:84-96 | every store value converts to at least one well-formed category; an object with an array-valued category keeps exactly its converted categories, and any other value becomes one empty "Uncategorized" category |
| Catalog.CatalogOf | app.py:66-98 | the converted stores are exactly the document's keys that normalize to a non-empty name |
| Catalog.CatalogOfWellFormed | app.py:66-98 | every converted catalog satisfies the catalog invariant |
| Catalog.CatalogOfLastEntryWins | app.py:78-96 | a store takes the value of the last entry whose name normalizes to it |
| Catalog.FlatListConversion | app.py:84-85 | a legacy flat list becomes one "Uncategorized" category of its cleaned items |
| Catalog.NoArraysConversion | app.py:86-94 | an object with no array-valued category becomes one empty "Uncategorized" category |
| Catalog.ConvertStore | app.py:84-96 | the per-store branch computes the converted value of that store |
| Catalog.ConvertCategories | app.py:86-94 | the category loop computes the converted value of that store |
| Catalog.ConvertLegacyShape | app.py:66-98 | the conversion loop computes the converted catalog |
| Catalog.DefaultListsUnsorted | app.py:22-43 | `DefaultStores` holds the built-in catalog; it lists "Milk" before "Cheese" in Costco's "Dairy", so its lists are not sorted |
| StoreOrder.FirstSeen | app.py:237-240 | the listed stores at their first occurrence: no repeats, and exactly the listed entries that are stores |
| StoreOrder.FirstSeenOrder | app.py:237-240 | the kept stores appear in the order of their first occurrences in the given order |
| StoreOrder.KnownOnly | app.py:139 | keeps exactly the entries that are stores |
| StoreOrder.ListedThenRest | app.py:142-144 | appending the sorted missing stores covers every store, without repeats when the prefix has none |
| StoreOrder.StoresInVisitOrder | app.py:230-247 | every store exactly once; first-seen listed stores first, then the rest sorted by lower-case key |
| StoreOrder.AppendMissing | app.py:242-245 | the loop appends exactly the missing stores, sorted |
| StoreOrder.OrderedStores | app.py:230-247 | `ordered_stores` returns the visit order |
| StoreOrder.FirstSeenKnownOnly | app.py:336-343 | filtering to stores before deduplicating changes nothing |
| StoreOrder.OrderLines | app.py:335-336 | the typed lines, cleaned, are names |
| StoreOrder.OrderLinesAppend | app.py:335-336 | the names of two blocks of lines joined by a newline are the first block's names, then the second's |
| StoreOrder.OrderLinesOfLine | app.py:335-336 | one line yields its normalized name, or nothing when it is blank |
| StoreOrder.KeepFirst | app.py:339-343 | the deduplication loop keeps each store at its first occurrence |
| StoreOrder.ParseStoreOrderText | app.py:332-353 | parsing yields the visit order of the typed lines |
| StoreOrder.ParseShownOrder | app.py:332-353 | a complete order shown one store per line parses back unchanged |
| StoreOrder.CompleteOrderKept | app.py:230-247 | an order listing every store once is returned unchanged |
| StoreOrder.ReconciledOrder | app.py:130-146 | the reconciled order holds exactly the stores |
| StoreOrder.ReconcileStoreOrder | app.py:130-146 | the reconciliation steps compute the reconciled order |
| StoreOrder.ReconcileStable | app.py:130-146 | reconciling the settled order again returns it unchanged |
| StoreOrder.CompleteListKept | app.py:130-146 | a non-empty order listing exactly the stores reconciles to itself |
| StoreOrder.DefaultsDroppedExample | app.py:134-146 | with nothing persisted and no default store present, the stores come alphabetically |
| Selection.AlignedCategories | app.py:379-384 | a store's selection gets exactly the store's categories; surviving sets are kept and new ones are empty |
| Selection.Aligned | app.py:375-384 | the selection gets exactly the catalog's stores and categories; surviving sets are kept and new ones are empty |
| Selection.AlignedOfShaped | app.py:375-384 | a selection already shaped like the catalog is left unchanged |
| Selection.AlignedIdempotent | app.py:375-384 | reconciling twice is reconciling once |
| Selection.AlignCategories | app.py:379-384 | the two per-store loops compute the aligned categories |
| Selection.DropGoneStores | app.py:375-377 | the first loop keeps exactly the stores still in the catalog, with their selections |
| Selection.AlignStores | app.py:378-384 | the second loop gives every catalog store its aligned categories |
| Selection.Selection.constructor | app.py:372 | the initial selection has every category of every store, with nothing checked |
| Selection.Selection.Reconcile | app.py:375-384 | the in-place loops leave the aligned selection |
| Listing.UnderlineWidth | app.py:282 | the underline is the name's length plus two, clamped to 6..22 |
| Listing.Underline | app.py:282 | the intended underline: that width, made only of the em dash U+2014 |
| Listing.Header | app.py:281 | the header is the store name between two asterisks, WhatsApp's bold |
| Listing.Bullet | app.py:288 | the intended checkbox line: the ballot box U+2610, a space, then the item |
| Listing.Repeat | app.py:282 | string repetition: `n` times the length, starting with the unit and repeating with the unit's length as period |
| Listing.RepeatDetermined | app.py:282 | the contract of `Repeat` determines it: any string meeting it is `n` copies of the unit |
| Listing.UnderlineAsWritten | app.py:282 | the underline the source produces: three characters per unit of width, starting with the three-character unit and repeating it |
| Listing.BulletAsWritten | app.py:288 | the checkbox line the source produces has three characters before the space |
| Listing.GlyphsMisencoded | app.py:47-48 | the underline as written is three times the intended length and differs from it, and the checkbox line as written starts with the three stray characters |
| Listing.UnderlineMisencoded | app.py:47-48 | the written underline starts with U+201A where the intended one starts with the em dash |
| Listing.BulletMisencoded | app.py:47-48 | the written checkbox line starts with the three stray characters where the intended one starts with the ballot box |
| Listing.CostcoUnderlineAsWritten | app.py:282 | for "Costco" the intended underline is 8 characters long and the written one 24 |
| Listing.Bullets | app.py:287-288 | one checkbox line per name, in order |
| Listing.CheckedIn | app.py:267 | a store's checked categories, or none when the store has no selection |
| Listing.Title | app.py:262 | the first line is "Shopping List - " followed by the date, then a blank line |
| Listing.ListingLines | app.py:262-290 | the lines before joining start with the title and the blank line |
| Listing.ListingText | app.py:292 | the returned text neither starts nor ends with whitespace |
| Listing.BlockShape | app.py:278-290 | a non-empty block is the header, the underline, one checkbox line per name in order, and a blank line |
| Listing.HeaderInBlocks | app.py:266-290 | the blocks of a store list hold a store's header exactly when the store is listed and has a checked name |
| Listing.BulletInBlocks | app.py:266-290 | the blocks of a store list hold a name's checkbox line exactly when the name is checked in a listed store |
| Listing.StoreItems | app.py:267-276 | flattening and cleaning yields the sorted distinct names checked in the store |
| Listing.AppendBlock | app.py:278-290 | appends the header, underline, checkbox lines and blank line, or nothing when there are no names |
| Listing.AppendBlocks | app.py:266-290 | the store loop appends the blocks in visit order |
| Listing.FormatShoppingList | app.py:250-292 | the formatter returns the stripped join of the title and the blocks in visit order |
| Listing.TitleFirst | app.py:261-292 | the text starts with "Shopping List - " and the date |
| Listing.NothingChecked | app.py:262-292 | with nothing checked the text is the title line alone |
| Listing.HeaderListed | app.py:275-284 | a store's bold header is listed exactly when some name is checked in it |
| Listing.BulletListed | app.py:270-288 | a checkbox line for a name appears exactly when that name is checked in some store |
| Chunking.Chunks | app.py:226-227 | chunks are non-empty, at most `n` long, and all but the last exactly `n` long |
| Chunking.ChunkList | app.py:226-227 | a zero size is an error, a negative size gives no chunks, and a positive one gives the chunks |
| Chunking.ChunksConcat | app.py:226-227 | the chunks concatenate back to the items |
| Chunking.ChunksCount | app.py:226-227 | the chunk count is the ceiling of the item count divided by `n` |
| Chunking.ChunkIsSlice | app.py:226-227 | chunk `i` is the slice from `i*n` to `i*n + n`, cut at the end |

## Left out

- Files and JSON: `load_stores`, `save_stores`, `save_store_order` and the file-reading part of `load_store_order` read and write disk. They are not modelled. `Catalog.ConvertLegacyShape` takes the parsed document as a sequence of key/value pairs, each value already classified as an array, an object or something else. `StoreOrder.ReconcileStoreOrder` takes the persisted list as already read.
- `str(x)` of non-string JSON values: the model takes item arrays and the persisted store order as strings. The app turns JSON numbers, booleans and nulls into text: in an item array by `str(x)` (`app.py:85`, `app.py:91`), in the saved `store_order` list by the `str(name)` inside `normalize_name` (`app.py:55`, applied at `app.py:130`). The model does not render them. `Catalog.ConvertLegacyShape` and `StoreOrder.ReconcileStoreOrder` receive only strings.
- The date: `date.today().strftime(...)` is a parameter `today` of `Listing.FormatShoppingList`.
- `store_color`, `copy_button`, and the Streamlit page: forms, search, checkboxes and layout. Only the selection reconciliation block is modelled. The UI's other direct edits of the selection (checkbox toggles, entries added next to `add_store`) are not.
- Ordering.Lower: lowers ASCII letters only. Python's `str.lower()` also maps non-ASCII letters.
- Ordering.Before: names with equal lower-case keys are ordered by their raw strings. Python keeps them in input order: set iteration order for `_sorted_unique`, which is not fixed, and catalog insertion order for the store keys.
- StoreOrder.OrderLines: `splitlines()` is modelled as splitting at every line-break character. `\r\n` yields an extra empty piece, and a trailing line break yields an extra empty last piece. Empty pieces are dropped right after, so the parsed order is the same.
- Dictionary order: stores and categories are maps, so the key order of saved JSON and of category iteration is not modelled. The formatter sorts within a store, and the visit order decides the order of stores, so the listing does not depend on it.
- Catalog.Catalog.AddItems: the method leaves one catalog value in its field. The app mutates the dictionary it was passed and also returns it. The session state and the `DEFAULT_STORES.copy()` shallow copy from `load_stores` alias it; that aliasing is not modelled.
- Catalog.WellFormed: that the built-in catalog satisfies the invariant is not proved. Deciding it for the catalog's literal strings is beyond the verifier's budget.

## Findings

| source | as written | input that shows it | evidently intended | confidence | as-written member | corrected member |
|---|---|---|---|---|---|---|
| app.py:47-48 | `CHECKBOX_BULLET` and `UNDERLINE_CHAR` are each three characters, U+201A U+00F2 U+00EA and U+201A U+00C4 U+00EE: the UTF-8 bytes of the ballot box and the em dash decoded as Mac Roman | any checked item; the store "Costco" gets a 24-character underline instead of 8 | a ballot box U+2610 before each item and an underline of U+2014 as wide as `max(6, min(22, len(store) + 2))` | not executed | Listing.GlyphsMisencoded | Listing.Underline |
