# responsibleTables — a Dafny model of the table state machine

This project models the core of `ResponsibleTables`. That code watches a set
of HTML tables. When a table is wider than its container, it replaces the
table with a stacked two-column ("responsible") layout. When the container
is wide enough again, it puts the original table back. The DOM is replaced
by plain data:

- a table is a sequence of rows (every `tr`, in document order);
- a row is a sequence of `Cell`s, each with a tag (`th`/`td`), inner markup,
  a class list and an optional colspan;
- a table's serialised markup is a `Markup` value: `Html(text)` for markup
  read from the page (the empty string is `Html("")`), or `Stacked(activeClass,
  pieces)` for a table after a first build, which carries the active class and
  whose first child has been replaced by a table parsed from the generated
  layout (see `replaceTableHTML` under "## Left out");
- widths are `int` inputs (`Measure`), given once per table per tick.

Modules, following the source's structure:

- `Structure`: the extractor. Rows, columns (row 0's cells), header cells
  and heading titles, and the `StructureError`s that reading them can raise.
- `Layout`: the stacked-layout generator, as a pure function from rows to a
  sequence of `Piece`s. It is proved equal to a reference definition:
  the closed-form block of one row (`ExpectedBlock`) and its recursive
  concatenation over the rows (`ExpectedRows`). It is also characterised
  index by index.
- `Records`: the per-table record, the cache-slot rule and the threshold step.
- `Engine`: one table's steps. `Build` is a first build or a re-splice from
  the cache, `Toggle` is the single-table restore, `RefreshTable` is one tick,
  and `InitTable` is initialisation. The predicate `Valid` is the record
  invariant.
- `Monitor`: `init`, `refresh` and `restoreTable` over all tables in order.
- `Properties`: lemmas that relate several steps.

Behaviour of the code that the model keeps, with what follows from it:

- The stacked layout's first piece is a bare header cell with no enclosing
  row. Every column after the first emits only the data cell followed by a
  closing row tag. The heading string is computed and then overwritten, so
  no heading cell and no opening row tag are emitted
  (`LayoutDataAt`, `LayoutScenario`).
- The threshold update assigns `minWidth := currentWidth` whenever the table
  overflows. It does not take a maximum, so the threshold can drop, and a
  container narrower than the original table can bring the original layout
  back (`ThresholdDrops`). So the threshold is not monotone.
- A build re-splices the cached responsible markup on every tick where the
  threshold exceeds the container width, even when that markup is already
  displayed (`RefreshTwice`: the second tick is `Spliced`, not `Kept`). So
  the markup is written again even when the state is stable.
- A failed structure read or first build throws. During initialisation this
  stops the loop at that table: the tables before it keep their records (and
  later resizes refresh them), the tables after it get none (`Init`'s
  `Tick.abort`). During a refresh it stops the tick at that table. So one
  table's failure stops every table after it.
- A data row with fewer `td` cells than columns makes the source read a
  missing cell, which throws. The model makes this the error
  `MissingCell(row, |tds|)`.

## Model

| member | source | states |
|---|---|---|
| Structure.Tds | src/responsibleTables.js:312 | the `td` cells of a row: never more cells than the row, every one a `td`; their order and count are fixed by `TaggedOne` and `TaggedAppend` |
| Structure.Ths | src/responsibleTables.js:256 | the `th` cells of the whole table: every one a `th`; their document order and count are fixed by `ThsOne` and `ThsAppend` (with `TaggedOne` and `TaggedAppend` within a row) |
| Structure.ThsOne | src/responsibleTables.js:256 | the header cells of a one-row table are exactly that row's `th` cells, in order |
| Structure.TaggedOne | src/responsibleTables.js:312 | a single cell is kept exactly when it has the tag |
| Structure.TaggedAppend | src/responsibleTables.js:312 | the cells of one tag in a concatenation of cells are those of the first part followed by those of the second, so order and count (duplicates included) are kept |
| Structure.ThsAppend | src/responsibleTables.js:256 | the `th` cells of a concatenation of rows are those of the first rows followed by those of the rest: document order across rows |
| Structure.TaggedMembers | src/responsibleTables.js:312 | a cell is among a row's cells of one tag exactly when it is in the row with that tag |
| Structure.ThsMembers | src/responsibleTables.js:256 | a cell is among the table's `th` cells exactly when it is a `th` cell of one of its rows |
| Structure.GetColumns | src/responsibleTables.js:232-236 | the columns are exactly the cells of row 0; a table without rows fails |
| Structure.GetTableHeadings | src/responsibleTables.js:252-260 | one title per column, title i being the content of the i-th `th` of the whole table; fails exactly when there are fewer `th` than columns |
| Structure.HeadingsOfHeaderRow | src/responsibleTables.js:252-257 | when row 0 is all `th`, the titles are that row's contents |
| Layout.BuildFirstRow | src/responsibleTables.js:268-282 | the compact header is a new `th` holding the first `th`'s content with colspan 2 and no classes; fails exactly when the table has no `th` |
| Layout.FirstRowOfHeaderTable | src/responsibleTables.js:271-281 | when row 0 starts with a `th`, the compact header holds that cell's content |
| Layout.AddClass | src/responsibleTables.js:316 | `classList.add`, used for the sub-heading class and again at line 326 for the data class: the cell gains the class and keeps its other classes; nothing else about the cell changes |
| Layout.DataPieces | src/responsibleTables.js:321-331 | columns `from..columns-1` each give the row's `td` at that index marked with the data class, in column order; fails exactly when the row has fewer `td` than columns |
| Layout.BuildTableData | src/responsibleTables.js:309-334 | a data row's block equals the reference block (its first `td` with colspan 2 and the sub-heading class, then its `td`s 1..columns-1 with the data class); fails exactly when the row lacks a cell, naming the row and its `td` count |
| Layout.BuildRows | src/responsibleTables.js:191-195 | the blocks of all data rows in order equal the reference concatenation; fails at the first row that does not fit, with all earlier rows fitting |
| Layout.BuildLayout | src/responsibleTables.js:186-195 | succeeds exactly when there is a `th` and every data row fits; the piece count is `1 + (rows-1) * PiecesPerRow(columns)`; the first piece is the compact header; the rest is the reference concatenation |
| Layout.ExpectedRowsAt | src/responsibleTables.js:191-195 | piece i of row k's block sits at index `k * PiecesPerRow(columns) + i` |
| Layout.LayoutSubHeadingAt | src/responsibleTables.js:312-318 | the block of row k starts at `1 + (k-1) * PiecesPerRow(columns)` with that row's sub-heading |
| Layout.LayoutDataAt | src/responsibleTables.js:321-330 | piece j of row k's block (1 <= j < columns) is the row's `td` j marked as data, with no heading cell |
| Layout.LayoutScenario | src/responsibleTables.js:186-195 | a 3-column header over one data row gives exactly: header h0 (colspan 2), sub-heading d0, data d1, data d2 |
| Layout.DefaultLayoutScenario | src/responsibleTables.js:316-326 | with the built-in options the same scenario marks the sub-heading `responsibleTable__sub-heading` and the data cells `responsibleTable__table-data` |
| Records.InitiateTableData | src/responsibleTables.js:122-171 | a fresh record: measured width, threshold 0, empty caches, not responsive, not changed, container width 0 when there is no container; fails when rows or headings cannot be read |
| Records.CacheTable | src/responsibleTables.js:108-115 | the displayed markup goes into the slot `isResponsible` selects; the other slot and all other fields are unchanged |
| Records.RaiseThreshold | src/responsibleTables.js:60-62 | an overflowing table sets the threshold to its current width; otherwise the threshold is unchanged |
| Records.Measured | src/responsibleTables.js:79-90 | the table width is re-read; the container width is re-read only when a container exists; then the threshold step |
| Engine.Build | src/responsibleTables.js:179-225 | a first build renders the generated layout, sets `hasChanged` and `isResponsible`, fills the responsible slot only if it was empty, and never touches the original slot; a later build renders the cached responsible markup, sets `isResponsible` and changes nothing else |
| Engine.Toggle | src/responsibleTables.js:365-377 | flips `isResponsible`, renders the slot matching the new state, changes nothing else |
| Engine.RefreshTable | src/responsibleTables.js:75-101 | new widths and threshold; builds exactly when threshold > container width (splicing exactly when already built); restores exactly when threshold != 0, threshold < container width and responsive; otherwise only the widths change; rows, columns and headings are never re-read; a first build fills the responsible slot only when it was empty |
| Engine.InitTable | src/responsibleTables.js:47-70 | the original markup is cached; the threshold is the table width if it overflows, else 0; the table is built, responsive and cached as responsible exactly when it overflows; the record holds the table's rows, row 0 as its columns and the headings read from them; fails exactly on a structure error |
| Monitor.Init | src/responsibleTables.js:47-70 | every table is initialised in order; the first failing table stops the loop with its index and error; the tables before it keep their initialised records, the tables after it get none |
| Monitor.Refresh | src/responsibleTables.js:75-101 | every table is refreshed in order; a failing first build stops the tick at that table, whose new widths are kept; later tables are unchanged |
| Monitor.Sweep | src/responsibleTables.js:76-100 | the per-table steps of a tick are applied in table order; the first failed build stops it, leaving later tables unchanged |
| Monitor.Restore | src/responsibleTables.js:340-383 | with no index every table is toggled; with an index only that table is; an index naming no table fails |
| Properties.InitTableValid | src/responsibleTables.js:47-70 | initialisation establishes the record invariant (structure, caches, display agreeing with state, container width 0 when absent) |
| Properties.RefreshTableValid | src/responsibleTables.js:75-101 | a refresh preserves the record invariant |
| Properties.ToggleValid | src/responsibleTables.js:365-377 | a toggle preserves the record invariant |
| Properties.ToggleTwice | src/responsibleTables.js:366-377 | toggling twice is the identity on a record whose display agrees with its state |
| Properties.RestoreAllTwice | src/responsibleTables.js:346-360 | toggling all tables twice gives back all records |
| Properties.RestoreShowsOriginal | src/responsibleTables.js:97-98 | a restore by refresh displays the markup captured when the table was found |
| Properties.RoundTrip | src/responsibleTables.js:55-98 | initialise (overflowing, so built), then refresh with a wide container: the table is restored and its markup equals the one captured at initialisation |
| Properties.RefreshSettles | src/responsibleTables.js:88-99 | after a refresh that did not fail, a non-zero threshold different from the container width decides the state: responsive iff it is above the container width |
| Properties.RefreshTwice | src/responsibleTables.js:94-99 | a second refresh with the same widths changes no record and only splices or keeps (after a failed build it fails again); after a build or a splice it splices again, rewriting markup already displayed |
| Properties.ThresholdDrops | src/responsibleTables.js:88-98 | the threshold can drop to the stacked width, after which a container narrower than the old threshold restores the original |

## Left out

- `registerEvents` and `debounce` (src/responsibleTables.js:389-411): timers
  and event listeners that only coalesce resize events into calls of
  `refresh`.
- `getBoundingClientRect`: widths are integer inputs (`Measure`), one per
  table per tick. The browser's widths are fractional. Widths are only
  assigned and compared, never computed with, so integers are enough.
- Discovering tables and the container through selectors: the tables are
  given as input, and `container.present` records whether the container
  selector matched.
- Node re-resolution after a markup swap: src/responsibleTables.js:218 and
  :370 set `node` to the FIRST table matching the selector, whatever the
  table's index. For a table i > 0, the next width reading (:79) and markup
  writes (:216, :368, :374) then hit the first table. Toggling a table that
  was never built writes its empty responsible slot (:374), which removes
  the element, can leave `node` null, and makes the next refresh throw at
  :79. The model assumes every read and write lands on the table's own
  element.
- `replaceTableHTML` (src/responsibleTables.js:284-300) and its
  `console.log`: HTML parsing and DOM splicing. The source replaces
  `table.firstChild` with a whole parsed `<table>` holding the layout. When
  that first child is a `thead` or a whitespace text node, the original
  `tbody` stays on the page next to the new nested table. The abstract
  `Stacked(activeClass, pieces)` hides this: it stands for whatever the
  splice produces. Cell serialisation (`outerHTML`) is not modelled.
- The `fragment` field and the `rows.length` / `columns.length` counts: the
  fragment is the piece sequence, and the counts are sequence lengths.
- Options merging (`lodash.defaultsDeep`) and the classlist polyfill: foreign
  libraries. `Config.Options` holds the classes the core uses. `Defaults`
  are the built-in values (src/responsibleTables.js:16-21), used by
  `DefaultLayoutScenario`.
- Debug timing (`performance.now`, `testData.result`): floating-point timing.
- In-place mutation of the original cells by the layout builder: the model
  produces updated copies. A build that fails part-way has already added
  classes and colspans to some live cells in the source. The model leaves
  the record unchanged on failure.
- `classList.add` throwing on an empty or whitespace class name: class names
  are assumed to be valid tokens.
- Monitor.Restore: `restoreTable(null)` writes through the `table` elements found at
  construction. After a swap these elements are detached from the page, so
  the browser ignores the write. The model updates each record's displayed
  markup as the single-index form does.
- Tables nested in cells and header cells outside rows: a table is a flat
  sequence of rows.
- Monitor.Init: the source keeps a record for the failing table k and none
  for the tables after it. The model returns records for tables 0..k-1 only,
  so what later ticks do is not modelled:
  - when k's first build failed, k holds its full record. Every later tick
    on which k's threshold exceeds the container width rebuilds it and
    throws at the same point. On any other tick k is neither built nor
    restored (it is not responsive), and the loop throws at line 77 on table
    k+1, if there is one, since it has no record;
  - when k's rows or headings could not be read (src/responsibleTables.js:161
    or :163), lines 165-168 never ran, so k's record has no container node
    and container width 0. A later tick skips lines 83-85, compares k's width
    against 0, and builds k (94-95) whatever the real container width. The
    titles only feed the discarded heading at line 323, so that build
    succeeds when k has a `th` and enough `td` cells. The tick then throws at
    line 77 for table k+1, if there is one, since it has no record, and
    `restoreTable(null)` throws at line 348 for the same reason.
