# osrs-flip ranking pass, modelled in Dafny

This project models the profitability-and-ranking pass of the osrs-flip
page. That pass is the `populateTable` function in `main.js`. It joins the
item catalog (the `mapping` resource) with an hourly price snapshot keyed
by item id. For every joined item it derives two values:

- margin = average high price − average low price;
- maximum quantity = floor(cash budget / average low price).

The cash budget is the user's value, or 2147483647 while no budget has been
read yet (`userCashStack` is still null, which only happens before the
page's load handler runs).
The pass then sorts all snapshot entries by margin, largest first, with
JavaScript's stable sort. It walks the sorted list and skips entries with a
missing or zero price, a margin ≤ 0, or an affordable quantity of 0. It
emits one table row (name, low price, high price, margin) per survivor and
stops after `pageLimit` = 50 rows. With no price snapshot loaded it does
nothing.

Modules, leaf to root:

- `Optional` (optional.dfy): `Option`, used for JSON values that may be null.
- `Market` (market.dfy): catalog and price records, the candidate record,
  JavaScript's null-to-0 conversion and truthiness, the budget default and
  the two derived values.
- `Join` (join.dfy): the join loop (the last catalog entry with an id wins)
  and the `Object.entries` order of the snapshot (integer keys ascending).
- `Ranking` (ranking.dfy): a stable insertion sort by margin, its
  stability, and the proof that any stable sort gives the same result.
- `Table` (table.dfy): the skip tests, the page cut, the row cells, and the
  output loop written as the source writes it (`continue`, counter, `break`).
- `Flips` (flips.dfy): the whole refresh and the properties it promises
  over the inputs.

This version of the page has no volume data, no buy limits, no limiting
factor and no profit column. It ranks by margin. Later versions of the page
add those features; the model follows this version's code and has none of
them.

## Model

| member | source | states |
|---|---|---|
| Market.CashStack | main.js:61-64 | While no budget has been read (`userCashStack` is null) the pass uses 2147483647; otherwise the value read, unchanged |
| Market.MaxQuantity | main.js:75 | For a positive low price the quantity q is the floor quotient: q·low ≤ cash < (q+1)·low; a zero or null low price gives Infinity (or NaN when cash is 0) |
| Market.Derive | main.js:72-75 | A joined item keeps its catalog and price records; its margin is high − low with null read as 0; a truthy low price gives the floor quotient of the budget |
| Join.LastIndexOf | main.js:66-72 | The catalog record attached to an id is the last one with that id: later catalog entries overwrite earlier ones |
| Join.Annotate | main.js:66-76 | The annotated ids are exactly the ids that are both priced and in the catalog (unpriced catalog items are skipped, not defaulted); each annotation is the derivation for that id's last catalog record |
| Join.AscendingKeys | main.js:78 | The snapshot's keys in strictly ascending order, each key exactly once |
| Join.Entries | main.js:78 | One entry per snapshot key, ids strictly ascending, each entry the joined derivation for its id |
| Join.EntriesEnumerateAnnotation | main.js:66-78 | The entries are the annotated snapshot read at its keys in ascending order: every ascending key is annotated, and the value at each key is the entry at that position |
| Join.EntriesComplete | main.js:66-78 | A candidate is among the entries if and only if it is the joined derivation of a priced catalog id |
| Ranking.Insert | main.js:79 | Inserting into a margin-ordered list keeps it margin-ordered and adds exactly one copy of the element |
| Ranking.SortByMargin | main.js:79 | The sorted list is a permutation of the entries with margins non-increasing |
| Ranking.SortStable | main.js:79 | For every margin value, the entries with that margin appear in the same relative order as in the input |
| Ranking.StableSortUnique | main.js:79 | Any margin-ordered list that keeps every margin class in input order equals SortByMargin, so the model's sort is the stable sort the source relies on |
| Ranking.SortRankOrdered | main.js:78-79 | Sorting entries with ascending ids orders them by margin, largest first, and equal margins by ascending id |
| Table.Survivors | main.js:88-98 | An entry survives if and only if both prices are non-zero and non-null, its margin is positive and its quantity is not 0 |
| Table.SurvivorsRankOrdered | main.js:85-98 | Skipping entries of a rank-ordered list leaves the survivors rank-ordered |
| Table.SurvivorsSubsequence | main.js:85-98 | The survivors are a subsequence of the walked list: nothing is invented, duplicated or reordered |
| Table.FirstPage | main.js:108-110 | The page holds at most 50 entries and is a prefix of its input; it holds exactly 50 unless it is the whole input |
| Table.FirstPageMissed | main.js:108-110 | In a rank-ordered list, an entry the 50-row cut leaves off comes after a full page whose every entry ranks before it |
| Table.RowOf | main.js:100-104 | A row shows the item name, the low price and the high price as the non-zero values present, and the margin |
| Table.EmitRows | main.js:84-111 | The source's loop, with its three `continue`s and its `break` after 50 rows, emits the rows of the first 50 survivors of the sorted list, in order |
| Flips.JoinedValues | main.js:61-75 | A joined candidate carries its snapshot price and last catalog record; its margin and its floor quotient are computed under the budget in effect (CashStack: 2147483647 while none has been read) |
| Flips.RankFlips | main.js:59-110 | The page of one refresh: at most 50 entries, each viable and one of the joined entries, in rank order (margin descending, ties by ascending id); completeness and the subsequence property are the lemmas RankFlipsComplete and RankFlipsSubsequence |
| Flips.PageSound | main.js:78-110 | From ascending-id entries the page is at most 50 viable entries taken from the input, rank-ordered |
| Flips.PageComplete | main.js:78-110 | A viable entry left off the page means the page is full and every shown entry ranks before it |
| Flips.RankFlipsSound | main.js:59-110 | Every shown entry is a priced catalog item that passes the skip tests; at most 50 are shown; they are ordered by margin, largest first, ties by ascending id, so none appears twice |
| Flips.RankFlipsComplete | main.js:78-110 | A viable joined item that is not shown ranks after every shown entry, and then exactly 50 are shown |
| Flips.RankFlipsSubsequence | main.js:78-110 | The shown entries are a subsequence of all entries sorted by margin |
| Flips.WidgetScenario | main.js:59-110 | A Widget priced 100/150 with budget 10000 is shown with margin 50 and quantity 100; with budget 0 nothing is shown; an unpriced catalog item is skipped |
| Flips.RankFlipsRows | main.js:100-104 | Every rendered row shows a non-zero low price, a larger high price, and their difference as margin |
| Flips.PopulateTable | main.js:54-111 | With no price snapshot the table is untouched; otherwise it is replaced by the rendered page: at most 50 rows, each with 0 < low < high and margin = high − low |

## Left out

- `fetchApi` and its XHR and JSON plumbing (main.js:6-14) are network I/O.
- The DOM work is the render sink: `addCell` (main.js:47-51), clearing the table (main.js:81-82) and appending rows (main.js:100-106). The model returns the rows as `Row` values instead.
- The `console.error` call on the no-price path (main.js:56) is logging; the model returns `Untouched`.
- `updatePrices`, `updateCashStack`, the `mapping` fetch callback and `window.onload` (main.js:116-152) are event wiring.
- `+cashstackInput.value` (main.js:136) follows JavaScript's string-to-number rules: an empty field gives 0, and text gives NaN. The budget is taken as an already-parsed `Option<nat>`. Negative, fractional and NaN budgets are not modelled. Once the load handler has read the field (main.js:151), an empty field is the budget `Some(0)`, not `None`: every quantity is then 0, main.js:96 skips every entry, and the table is emptied (the model's `Some(0)` case, shown in `Flips.WidgetScenario`).
- `Math.floor(cashStack / avgLowPrice)` divides doubles. The model uses integer division on naturals. The two agree for integer prices and budgets below 2^53.
- A price entry whose id is not in the catalog reaches the sort with an undefined margin. If it then passes the price test, `item.name` throws. The model requires every price key to be a catalog id instead of modelling the NaN comparisons and the crash.
- The source writes `mapping`, `margin` and `maxQuantity` into the shared price objects (main.js:72, 126). The model computes fresh candidate records instead. Each refresh recomputes every joined entry, so the stored values never influence the result.
- An absent price is modelled as JSON null, which JavaScript arithmetic reads as 0. A missing field (`undefined`, which gives NaN) is not modelled; the price API sends null.
- Snapshot keys are taken to be item ids, non-negative integers below 2^32 − 1 (array-index keys). `Object.entries` lists such keys in ascending numeric order. Larger integer keys and non-index string keys keep insertion order and are not modelled.
- A null catalog (`mappingData` before its fetch returns) is not modelled. The catalog is a sequence. The price fetch is only issued after the catalog has arrived.
- Catalog records keep only the id and name. The other fields (icon, examine text, members flag, value, alchemy values, buy limit) are not read by this pass.
