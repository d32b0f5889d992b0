/** The per-table record and the Cache Store: the state the engine keeps for
    one monitored table, and the rule that decides which cache slot a
    snapshot of the table's markup goes into. */
module Records {
  import opened Wrappers
  import opened Structure
  import opened Layout

  /** A table's serialised markup. `Html(text)` is markup read from the page;
      `Stacked` is the table after a first build: it carries the active class
      and its first child has been replaced by a table parsed from the stacked
      layout. The empty string of an unfilled cache slot is `Html("")`. */
  datatype Markup = Html(text: string) | Stacked(activeClass: string, pieces: seq<Piece>)

  const Empty: Markup := Html("")

  /** Whether a markup string counts as present: only the empty string does not. */
  predicate Truthy(m: Markup) {
    m != Empty
  }

  datatype Cache = Cache(original: Markup, responsible: Markup)

  /** The width-reference region; `present` is false when no element matched
      its selector, in which case `width` is never measured. */
  datatype Container = Container(present: bool, width: int)

  datatype TableRecord = TableRecord(
    currentWidth: int,
    minWidth: int,
    container: Container,
    rows: Table,
    columns: Row,
    headings: seq<string>,
    cache: Cache,
    isResponsible: bool,
    hasChanged: bool,
    /** The markup currently displayed for this table. */
    rendered: Markup)

  /** A table as found on the page: its markup and its rows. */
  datatype SourceTable = SourceTable(html: string, rows: Table)

  /** One measurement of the table's and the container's rendered widths. */
  datatype Measure = Measure(tableWidth: int, containerWidth: int)

  /** A fresh record for a discovered table: measured once, nothing cached,
      neither built nor responsive. Fails when the table has no row or fewer
      header cells than columns. */
  function InitiateTableData(src: SourceTable, m: Measure, containerPresent: bool): (r: Result<TableRecord, StructureError>)
    ensures r.Success? <==> |src.rows| > 0 && |Ths(src.rows)| >= |src.rows[0]|
    ensures r.Failure? && |src.rows| == 0 ==> r.error == NoRows
    ensures r.Failure? && |src.rows| > 0 ==> r.error == MissingHeading(|Ths(src.rows)|)
    ensures r.Success? ==>
      && r.value.currentWidth == m.tableWidth
      && r.value.minWidth == 0
      && r.value.container == Container(containerPresent, if containerPresent then m.containerWidth else 0)
      && r.value.rows == src.rows
      && r.value.columns == src.rows[0]
      && |r.value.headings| == |src.rows[0]|
      && (forall i :: 0 <= i < |src.rows[0]| ==> r.value.headings[i] == Ths(src.rows)[i].content)
      && r.value.cache == Cache(Empty, Empty)
      && !r.value.isResponsible && !r.value.hasChanged
      && r.value.rendered == Html(src.html)
  {
    var columns :- GetColumns(src.rows);
    var headings :- GetTableHeadings(src.rows, columns);
    var container := Container(containerPresent, if containerPresent then m.containerWidth else 0);
    Success(TableRecord(m.tableWidth, 0, container, src.rows, columns, headings,
                        Cache(Empty, Empty), false, false, Html(src.html)))
  }

  /** The slot that agrees with the record's state: responsive tables show
      the responsible markup, the others the original. */
  function LiveSlot(rec: TableRecord): Markup {
    if rec.isResponsible then rec.cache.responsible else rec.cache.original
  }

  /** Caching snapshots the displayed markup into the slot `isResponsible`
      selects and touches nothing else. */
  function CacheTable(rec: TableRecord): (r: TableRecord)
    ensures LiveSlot(r) == rec.rendered
    ensures !rec.isResponsible ==> r.cache.responsible == rec.cache.responsible
    ensures rec.isResponsible ==> r.cache.original == rec.cache.original
    ensures r.(cache := rec.cache) == rec
  {
    if !rec.isResponsible then rec.(cache := rec.cache.(original := rec.rendered))
    else rec.(cache := rec.cache.(responsible := rec.rendered))
  }

  /** The threshold step shared by initialisation and refresh: an overflowing
      table sets the threshold to its current width, which may lower it. */
  function RaiseThreshold(rec: TableRecord): (r: TableRecord)
    ensures rec.currentWidth > rec.container.width ==> r.minWidth == rec.currentWidth
    ensures rec.currentWidth <= rec.container.width ==> r.minWidth == rec.minWidth
    ensures r.(minWidth := rec.minWidth) == rec
  {
    if rec.currentWidth > rec.container.width then rec.(minWidth := rec.currentWidth) else rec
  }

  /** The measuring part of a refresh: the table width is re-read, the
      container width only when a container exists, then the threshold step. */
  function Measured(rec: TableRecord, m: Measure): (r: TableRecord)
    ensures r.currentWidth == m.tableWidth
    ensures r.container.present == rec.container.present
    ensures r.container.width == (if rec.container.present then m.containerWidth else rec.container.width)
    ensures r.minWidth == (if m.tableWidth > r.container.width then m.tableWidth else rec.minWidth)
    ensures r.(currentWidth := rec.currentWidth, container := rec.container, minWidth := rec.minWidth) == rec
  {
    var c := if rec.container.present then rec.container.(width := m.containerWidth) else rec.container;
    RaiseThreshold(rec.(currentWidth := m.tableWidth, container := c))
  }
}
