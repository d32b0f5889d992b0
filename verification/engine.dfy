/** The Transform/Restore Engine: the steps one table takes on initialisation,
    on every refresh, and on an explicit toggle. */
module Engine {
  import opened Wrappers
  import opened Structure
  import opened Config
  import opened Layout
  import opened Records

  /** What a refresh did to one table. */
  datatype Action =
    | Built                            // first build of the stacked layout
    | Spliced                          // the cached stacked markup was put back
    | Restored                         // the cached original markup was put back
    | Kept                             // no markup was written
    | BuildFailed(error: StructureError)

  datatype Step = Step(record: TableRecord, action: Action)

  /** The record invariant: the structure read at initialisation, the cache
      slots, and the agreement of `isResponsible` with what is displayed.
      `html` is the table's markup as first found on the page. */
  predicate Valid(rec: TableRecord, html: string, opts: Options) {
    && |rec.rows| > 0
    && rec.columns == rec.rows[0]
    && GetTableHeadings(rec.rows, rec.columns) == Success(rec.headings)
    && (!rec.container.present ==> rec.container.width == 0)
    && rec.cache.original == Html(html)
    && rec.rendered == LiveSlot(rec)
    && (!rec.hasChanged ==> rec.cache.responsible == Empty)
    && (rec.hasChanged ==>
          && BuildLayout(rec.rows, |rec.columns|, opts).Success?
          && rec.cache.responsible == Stacked(opts.activeClass, BuildLayout(rec.rows, |rec.columns|, opts).value))
  }

  /** Switching a table to the stacked layout. The first time, the layout is
      generated from the rows and cached if the responsible slot is empty;
      afterwards the cached responsible markup is put back as it is, even
      when it is already displayed. */
  function Build(rec: TableRecord, opts: Options): (r: Result<TableRecord, StructureError>)
    ensures rec.hasChanged ==>
      r == Success(rec.(rendered := rec.cache.responsible, isResponsible := true))
    ensures !rec.hasChanged ==> (r.Success? <==> BuildLayout(rec.rows, |rec.columns|, opts).Success?)
    ensures !rec.hasChanged && r.Failure? ==> r.error == BuildLayout(rec.rows, |rec.columns|, opts).error
    ensures !rec.hasChanged && r.Success? ==>
      && r.value.hasChanged
      && r.value.isResponsible
      && r.value.rendered == Stacked(opts.activeClass, BuildLayout(rec.rows, |rec.columns|, opts).value)
      && r.value.cache.original == rec.cache.original
      && (Truthy(rec.cache.responsible) ==> r.value.cache.responsible == rec.cache.responsible)
      && (!Truthy(rec.cache.responsible) ==> r.value.cache.responsible == r.value.rendered)
      && r.value.(rendered := rec.rendered, cache := rec.cache, isResponsible := false, hasChanged := false)
         == rec.(isResponsible := false)
  {
    if !rec.hasChanged then
      var pieces :- BuildLayout(rec.rows, |rec.columns|, opts);
      var built := rec.(rendered := Stacked(opts.activeClass, pieces), hasChanged := true, isResponsible := true);
      Success(if !Truthy(built.cache.responsible) then CacheTable(built) else built)
    else
      Success(rec.(rendered := rec.cache.responsible, isResponsible := true))
  }

  /** Toggling one table: a responsive table gets its original markup back,
      any other table is given the cached responsible markup (empty if the
      table was never built). */
  function Toggle(rec: TableRecord): (r: TableRecord)
    ensures r.isResponsible == !rec.isResponsible
    ensures r.rendered == LiveSlot(r)
    ensures r.(isResponsible := rec.isResponsible, rendered := rec.rendered) == rec
  {
    if rec.isResponsible then rec.(isResponsible := false, rendered := rec.cache.original)
    else rec.(isResponsible := true, rendered := rec.cache.responsible)
  }

  /** One refresh of one table: measure, update the threshold, then build
      exactly when the threshold exceeds the container width, restore exactly
      when it is non-zero, below the container width and the table is
      responsive, and otherwise write nothing. */
  function RefreshTable(rec: TableRecord, m: Measure, opts: Options): (r: Step)
    ensures var cw := if rec.container.present then m.containerWidth else rec.container.width;
      var mw := if m.tableWidth > cw then m.tableWidth else rec.minWidth;
      && r.record.currentWidth == m.tableWidth
      && r.record.container == rec.container.(width := cw)
      && r.record.minWidth == mw
      && ((r.action.Built? || r.action.Spliced? || r.action.BuildFailed?) <==> mw > cw)
      && (r.action.Spliced? <==> mw > cw && rec.hasChanged)
      && (r.action.Restored? <==> !(mw > cw) && mw != 0 && mw < cw && rec.isResponsible)
    ensures r.record.rows == rec.rows && r.record.columns == rec.columns && r.record.headings == rec.headings
    ensures r.action.Built? ==>
      && BuildLayout(rec.rows, |rec.columns|, opts).Success?
      && r.record.rendered == Stacked(opts.activeClass, BuildLayout(rec.rows, |rec.columns|, opts).value)
      && r.record.hasChanged && r.record.isResponsible
      && r.record.cache.original == rec.cache.original
      && (Truthy(rec.cache.responsible) ==> r.record.cache.responsible == rec.cache.responsible)
      && (!Truthy(rec.cache.responsible) ==> r.record.cache.responsible == r.record.rendered)
    ensures r.action.BuildFailed? ==>
      && !rec.hasChanged
      && BuildLayout(rec.rows, |rec.columns|, opts) == Failure(r.action.error)
    ensures r.action.Spliced? ==>
      && r.record.rendered == rec.cache.responsible
      && r.record.isResponsible
      && r.record.cache == rec.cache && r.record.hasChanged == rec.hasChanged
    ensures r.action.Restored? ==>
      && r.record.rendered == rec.cache.original
      && !r.record.isResponsible
      && r.record.cache == rec.cache && r.record.hasChanged == rec.hasChanged
    ensures r.action.Kept? || r.action.BuildFailed? ==>
      r.record.(currentWidth := rec.currentWidth, container := rec.container, minWidth := rec.minWidth) == rec
  {
    var t := Measured(rec, m);
    if t.minWidth > t.container.width then
      match Build(t, opts)
      case Success(b) => Step(b, if t.hasChanged then Spliced else Built)
      case Failure(e) => Step(t, BuildFailed(e))
    else if t.minWidth != 0 && t.minWidth < t.container.width && t.isResponsible then
      Step(Toggle(t), Restored)
    else
      Step(t, Kept)
  }

  /** Initialising one table: a fresh record, the original markup cached,
      the threshold set when the table overflows, and a first build when it
      does. Initialisation never restores. */
  function InitTable(src: SourceTable, m: Measure, containerPresent: bool, opts: Options): (r: Result<TableRecord, StructureError>)
    ensures var cw := if containerPresent then m.containerWidth else 0;
      var mw := if m.tableWidth > cw then m.tableWidth else 0;
      && (r.Success? <==>
            && |src.rows| > 0 && |Ths(src.rows)| >= |src.rows[0]|
            && (mw > cw ==> BuildLayout(src.rows, |src.rows[0]|, opts).Success?))
      && (r.Success? ==>
            && r.value.currentWidth == m.tableWidth
            && r.value.container == Container(containerPresent, cw)
            && r.value.minWidth == mw
            && r.value.cache.original == Html(src.html)
            && r.value.isResponsible == (mw > cw)
            && r.value.hasChanged == (mw > cw)
            && r.value.rendered ==
                 (if mw > cw then Stacked(opts.activeClass, BuildLayout(src.rows, |src.rows[0]|, opts).value)
                  else Html(src.html))
            && r.value.cache.responsible == (if mw > cw then r.value.rendered else Empty))
    ensures r.Success? ==>
      && r.value.rows == src.rows
      && r.value.columns == src.rows[0]
      && GetTableHeadings(src.rows, src.rows[0]) == Success(r.value.headings)
  {
    var created :- InitiateTableData(src, m, containerPresent);
    var cached := if !Truthy(created.cache.original) then CacheTable(created) else created;
    var rec := RaiseThreshold(cached);
    if rec.minWidth > rec.container.width then Build(rec, opts) else Success(rec)
  }
}
