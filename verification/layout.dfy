/** The Layout Builder: the stacked ("responsible") layout of a table, as the
    sequence of markup pieces the source concatenates into its fragment. */
module Layout {
  import opened Wrappers
  import opened Structure
  import opened Config

  /** One piece of the generated fragment. How each one is serialised:
      - `FirstHeading(c)`: the header cell alone, with no enclosing row;
      - `SubHeading(c)`: the cell wrapped in a complete row;
      - `Data(c)`: the cell followed by a closing row tag, with no opening
        one and no column heading before it. */
  datatype Piece = FirstHeading(cell: Cell) | SubHeading(cell: Cell) | Data(cell: Cell)

  /** Adding a class to a cell's class list, which ignores a class already there. */
  function AddClass(c: Cell, name: string): (r: Cell)
    ensures name in r.classes
    ensures forall n :: n in c.classes ==> n in r.classes
    ensures forall n :: n in r.classes ==> n in c.classes || n == name
    ensures r.(classes := c.classes) == c
  {
    if name in c.classes then c else c.(classes := c.classes + [name])
  }

  /** A data row's first cell, turned into the sub-heading of its block. */
  function SubHeadingCell(c: Cell, opts: Options): Cell {
    AddClass(c.(colspan := Some(2)), opts.subHeadingClass)
  }

  /** A data row's other cells, marked as data. */
  function DataCell(c: Cell, opts: Options): Cell {
    AddClass(c, opts.tableDataClass)
  }

  /** Pieces per data row: the sub-heading, then one per column after the first. */
  function PiecesPerRow(columns: nat): nat {
    if columns == 0 then 1 else columns
  }

  /** A data row has a data cell for the sub-heading and for every column. */
  predicate RowFits(row: Row, columns: nat) {
    |Tds(row)| >= PiecesPerRow(columns)
  }

  /** Reference definition of one data row's block, in closed form. */
  function ExpectedBlock(row: Row, columns: nat, opts: Options): (r: seq<Piece>)
    requires RowFits(row, columns)
    ensures |r| == PiecesPerRow(columns)
  {
    var tds := Tds(row);
    var n := PiecesPerRow(columns) - 1;
    [SubHeading(SubHeadingCell(tds[0], opts))]
      + seq(n, j requires 0 <= j < n => Data(DataCell(tds[j + 1], opts)))
  }

  /** Reference definition of the blocks of consecutive data rows. */
  function ExpectedRows(rows: seq<Row>, columns: nat, opts: Options): (r: seq<Piece>)
    requires forall k :: 0 <= k < |rows| ==> RowFits(rows[k], columns)
    ensures |r| == |rows| * PiecesPerRow(columns)
  {
    if rows == [] then []
    else ExpectedBlock(rows[0], columns, opts) + ExpectedRows(rows[1..], columns, opts)
  }

  /** The compact header: a new header cell with the first header cell's
      content, spanning two columns. */
  function BuildFirstRow(t: Table): (r: Result<Piece, StructureError>)
    ensures r.Success? <==> |Ths(t)| > 0
    ensures r.Success? ==> r.value == FirstHeading(Cell(Th, Ths(t)[0].content, [], Some(2)))
    ensures r.Failure? ==> r.error == NoHeaderCell
  {
    var ths := Ths(t);
    if |ths| == 0 then Failure(NoHeaderCell)
    else Success(FirstHeading(Cell(Th, ths[0].content, [], Some(2))))
  }

  /** When the first cell of the first row is a header cell, the compact
      header holds that cell's content. */
  lemma FirstRowOfHeaderTable(t: Table)
    requires |t| > 0 && |t[0]| > 0 && t[0][0].tag == Th
    ensures BuildFirstRow(t) == Success(FirstHeading(Cell(Th, t[0][0].content, [], Some(2))))
  {
    assert Tagged(t[0], Th) == [t[0][0]] + Tagged(t[0][1..], Th);
    assert Ths(t) == Tagged(t[0], Th) + Ths(t[1..]);
  }

  /** The data pieces for columns `from` up to `columns - 1`, in column order,
      as the per-column loop of the source emits them. */
  function DataPieces(tds: seq<Cell>, from: nat, columns: nat, row: nat, opts: Options): (r: Result<seq<Piece>, StructureError>)
    decreases columns - from
    ensures r.Success? <==> from >= columns || columns <= |tds|
    ensures r.Success? ==> |r.value| == (if from >= columns then 0 else columns - from)
    ensures r.Success? ==> forall i :: 0 <= i < |r.value| ==> r.value[i] == Data(DataCell(tds[from + i], opts))
    ensures r.Failure? && from <= |tds| ==> r.error == MissingCell(row, |tds|)
  {
    if from >= columns then Success([])
    else if from >= |tds| then Failure(MissingCell(row, from))
    else
      var rest :- DataPieces(tds, from + 1, columns, row, opts);
      Success([Data(DataCell(tds[from], opts))] + rest)
  }

  /** The block of the data row with index `row`: its sub-heading row, then
      its cells for every column after the first. */
  function BuildTableData(r0: Row, row: nat, columns: nat, opts: Options): (r: Result<seq<Piece>, StructureError>)
    ensures r.Success? <==> RowFits(r0, columns)
    ensures r.Success? ==> r.value == ExpectedBlock(r0, columns, opts)
    ensures r.Failure? ==> r.error == MissingCell(row, |Tds(r0)|)
  {
    var tds := Tds(r0);
    if |tds| == 0 then Failure(MissingCell(row, 0))
    else
      var rest :- DataPieces(tds, 1, columns, row, opts);
      Success([SubHeading(SubHeadingCell(tds[0], opts))] + rest)
  }

  /** The blocks of the rows `rows`, the first of which has index `first` in
      the table, in row order; the first row that does not fit stops it. */
  function BuildRows(rows: seq<Row>, first: nat, columns: nat, opts: Options): (r: Result<seq<Piece>, StructureError>)
    ensures r.Success? <==> forall k :: 0 <= k < |rows| ==> RowFits(rows[k], columns)
    ensures r.Success? ==> r.value == ExpectedRows(rows, columns, opts)
    ensures r.Failure? ==> r.error.MissingCell? && first <= r.error.row < first + |rows|
    ensures r.Failure? ==> !RowFits(rows[r.error.row - first], columns)
    ensures r.Failure? ==> r.error.column == |Tds(rows[r.error.row - first])|
    ensures r.Failure? ==> forall k :: 0 <= k < r.error.row - first ==> RowFits(rows[k], columns)
  {
    if rows == [] then Success([])
    else
      var block :- BuildTableData(rows[0], first, columns, opts);
      var rest :- BuildRows(rows[1..], first + 1, columns, opts);
      Success(block + rest)
  }

  /** The whole fragment: the compact header, then the block of every row
      after the first. `columns` is the number of cells of the first row. */
  function BuildLayout(rows: Table, columns: nat, opts: Options): (r: Result<seq<Piece>, StructureError>)
    ensures r.Success? <==>
      |Ths(rows)| > 0 && forall k :: 1 <= k < |rows| ==> RowFits(rows[k], columns)
    ensures r.Success? ==> |r.value| == 1 + (|rows| - 1) * PiecesPerRow(columns)
    ensures r.Success? ==> r.value[0] == FirstHeading(Cell(Th, Ths(rows)[0].content, [], Some(2)))
    ensures r.Success? ==> r.value[1..] == ExpectedRows(rows[1..], columns, opts)
    ensures r.Failure? && |Ths(rows)| == 0 ==> r.error == NoHeaderCell
    ensures r.Failure? && |Ths(rows)| > 0 ==>
      r.error.MissingCell? && 1 <= r.error.row < |rows| && !RowFits(rows[r.error.row], columns)
  {
    var head :- BuildFirstRow(rows);
    assert |rows| > 0;
    var body :- BuildRows(rows[1..], 1, columns, opts);
    Success([head] + body)
  }

  /** Piece `i` of the `k`-th block sits at `k * PiecesPerRow(columns) + i`. */
  lemma {:induction false} ExpectedRowsAt(rows: seq<Row>, columns: nat, opts: Options, k: nat, i: nat)
    requires forall j :: 0 <= j < |rows| ==> RowFits(rows[j], columns)
    requires k < |rows| && i < PiecesPerRow(columns)
    ensures k * PiecesPerRow(columns) + i < |ExpectedRows(rows, columns, opts)|
    ensures ExpectedRows(rows, columns, opts)[k * PiecesPerRow(columns) + i] == ExpectedBlock(rows[k], columns, opts)[i]
  {
    var w := PiecesPerRow(columns);
    var block := ExpectedBlock(rows[0], columns, opts);
    var rest := ExpectedRows(rows[1..], columns, opts);
    assert ExpectedRows(rows, columns, opts) == block + rest;
    if k > 0 {
      ExpectedRowsAt(rows[1..], columns, opts, k - 1, i);
      assert k * w + i == w + ((k - 1) * w + i);
      assert rows[1..][k - 1] == rows[k];
    }
  }

  /** Index of the first piece of the block of data row `k` in the fragment. */
  function BlockStart(k: nat, columns: nat): nat
    requires k >= 1
  {
    1 + (k - 1) * PiecesPerRow(columns)
  }

  /** The block of data row `k` opens with its sub-heading. */
  lemma LayoutSubHeadingAt(rows: Table, columns: nat, opts: Options, k: nat)
    requires BuildLayout(rows, columns, opts).Success?
    requires 1 <= k < |rows|
    ensures BlockStart(k, columns) < |BuildLayout(rows, columns, opts).value|
    ensures BuildLayout(rows, columns, opts).value[BlockStart(k, columns)]
         == SubHeading(SubHeadingCell(Tds(rows[k])[0], opts))
  {
    var r := BuildLayout(rows, columns, opts).value;
    var tail := rows[1..];
    var er := ExpectedRows(tail, columns, opts);
    assert r[1..] == er;
    var base := (k - 1) * PiecesPerRow(columns);
    assert BlockStart(k, columns) == 1 + base;
    assert tail[k - 1] == rows[k];
    ExpectedRowsAt(tail, columns, opts, k - 1, 0);
    assert r[1 + base] == er[base];
  }

  /** Within the block of data row `k`, piece `j` (for `1 <= j < columns`) is
      that row's data cell of column `j`, marked as data. */
  lemma LayoutDataAt(rows: Table, columns: nat, opts: Options, k: nat, j: nat)
    requires BuildLayout(rows, columns, opts).Success?
    requires 1 <= k < |rows|
    requires 1 <= j < columns
    ensures BlockStart(k, columns) + j < |BuildLayout(rows, columns, opts).value|
    ensures BuildLayout(rows, columns, opts).value[BlockStart(k, columns) + j]
         == Data(DataCell(Tds(rows[k])[j], opts))
  {
    var r := BuildLayout(rows, columns, opts).value;
    var tail := rows[1..];
    var er := ExpectedRows(tail, columns, opts);
    assert r[1..] == er;
    var base := (k - 1) * PiecesPerRow(columns);
    assert BlockStart(k, columns) == 1 + base;
    assert tail[k - 1] == rows[k];
    ExpectedRowsAt(tail, columns, opts, k - 1, j);
    assert r[1 + base + j] == er[base + j];
  }

  /** The block of a three-cell data row `[d0, d1, d2]` over three columns. */
  lemma ThreeCellBlock(d0: string, d1: string, d2: string, opts: Options)
    ensures RowFits([Cell(Td, d0, [], None), Cell(Td, d1, [], None), Cell(Td, d2, [], None)], 3)
    ensures ExpectedBlock([Cell(Td, d0, [], None), Cell(Td, d1, [], None), Cell(Td, d2, [], None)], 3, opts)
      == [SubHeading(Cell(Td, d0, [opts.subHeadingClass], Some(2))),
          Data(Cell(Td, d1, [opts.tableDataClass], None)),
          Data(Cell(Td, d2, [opts.tableDataClass], None))]
  {
    var data := [Cell(Td, d0, [], None), Cell(Td, d1, [], None), Cell(Td, d2, [], None)];
    TaggedUniform(data, Td);
    var block := ExpectedBlock(data, 3, opts);
    var rest := seq(2, j requires 0 <= j < 2 => Data(DataCell(Tds(data)[j + 1], opts)));
    assert block == [SubHeading(SubHeadingCell(Tds(data)[0], opts))] + rest;
    assert rest[0] == Data(DataCell(data[1], opts));
    assert rest[1] == Data(DataCell(data[2], opts));
    assert block[0] == SubHeading(Cell(Td, d0, [opts.subHeadingClass], Some(2)));
    assert block[1] == Data(Cell(Td, d1, [opts.tableDataClass], None));
    assert block[2] == Data(Cell(Td, d2, [opts.tableDataClass], None));
  }

  /** The scenario of a header row `[h0, h1, h2]` over one data row
      `[d0, d1, d2]` (for instance `Name, Age, City` over `Alice, 30, NYC`):
      the compact header `h0`, the sub-heading `d0`, then the bare cells `d1`
      and `d2`, with no heading cells between them. */
  lemma LayoutScenario(h0: string, h1: string, h2: string, d0: string, d1: string, d2: string, opts: Options)
    ensures var r := BuildLayout(
      [[Cell(Th, h0, [], None), Cell(Th, h1, [], None), Cell(Th, h2, [], None)],
       [Cell(Td, d0, [], None), Cell(Td, d1, [], None), Cell(Td, d2, [], None)]],
      3, opts);
      && r.Success?
      && |r.value| == 4
      && r.value[0] == FirstHeading(Cell(Th, h0, [], Some(2)))
      && r.value[1] == SubHeading(Cell(Td, d0, [opts.subHeadingClass], Some(2)))
      && r.value[2] == Data(Cell(Td, d1, [opts.tableDataClass], None))
      && r.value[3] == Data(Cell(Td, d2, [opts.tableDataClass], None))
  {
    var header := [Cell(Th, h0, [], None), Cell(Th, h1, [], None), Cell(Th, h2, [], None)];
    var data := [Cell(Td, d0, [], None), Cell(Td, d1, [], None), Cell(Td, d2, [], None)];
    var t: Table := [header, data];
    assert Ths(t) == header by {
      TaggedUniform(header, Th);
      TaggedAbsent(data, Th);
      assert Ths([data]) == Tagged(data, Th) + Ths([]);
      assert t[1..] == [data];
      assert Ths(t) == Tagged(header, Th) + Ths(t[1..]);
    }
    ThreeCellBlock(d0, d1, d2, opts);
    assert t[1..] == [data];
    assert ExpectedRows([data], 3, opts) == ExpectedBlock(data, 3, opts) + ExpectedRows([], 3, opts);
    var r := BuildLayout(t, 3, opts);
    assert r.Success?;
    assert r.value[1..] == ExpectedBlock(data, 3, opts);
    assert r.value[1] == r.value[1..][0];
    assert r.value[2] == r.value[1..][1];
    assert r.value[3] == r.value[1..][2];
  }

  /** The same scenario with the built-in options: the sub-heading cell
      carries `responsibleTable__sub-heading` and the data cells carry
      `responsibleTable__table-data`. */
  lemma DefaultLayoutScenario(h0: string, h1: string, h2: string, d0: string, d1: string, d2: string)
    ensures var r := BuildLayout(
      [[Cell(Th, h0, [], None), Cell(Th, h1, [], None), Cell(Th, h2, [], None)],
       [Cell(Td, d0, [], None), Cell(Td, d1, [], None), Cell(Td, d2, [], None)]],
      3, Defaults);
      && r.Success?
      && |r.value| == 4
      && r.value[1] == SubHeading(Cell(Td, d0, ["responsibleTable__sub-heading"], Some(2)))
      && r.value[2] == Data(Cell(Td, d1, ["responsibleTable__table-data"], None))
      && r.value[3] == Data(Cell(Td, d2, ["responsibleTable__table-data"], None))
  {
    LayoutScenario(h0, h1, h2, d0, d1, d2, Defaults);
  }

}
