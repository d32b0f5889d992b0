/** The Structure Extractor: a table seen as its rows (every `tr`, in document
    order, header row first), each row a sequence of cells. Reading the
    columns and the heading titles can fail; those failures are the
    `StructureError`s the rest of the model propagates. */
module Structure {
  import opened Wrappers

  datatype Tag = Th | Td

  /** A cell: its tag, its inner markup, its class list and its colspan
      attribute (absent unless set). */
  datatype Cell = Cell(tag: Tag, content: string, classes: seq<string>, colspan: Option<nat>)

  type Row = seq<Cell>

  type Table = seq<Row>

  /** The ways reading a table's structure fails in the source (each is a
      property read on a missing element there). */
  datatype StructureError =
    | NoRows                               // the table has no row to take columns from
    | MissingHeading(column: nat)          // fewer header cells than columns
    | NoHeaderCell                         // no header cell to copy into the compact header
    | MissingCell(row: nat, column: nat)   // a data row has too few data cells

  /** The cells of a row that carry `tag`, in order. */
  function Tagged(row: Row, tag: Tag): (r: seq<Cell>)
    ensures |r| <= |row|
    ensures forall i :: 0 <= i < |r| ==> r[i].tag == tag
  {
    if row == [] then []
    else (if row[0].tag == tag then [row[0]] else []) + Tagged(row[1..], tag)
  }

  /** The data cells of one row. */
  function Tds(row: Row): (r: seq<Cell>)
    ensures |r| <= |row|
    ensures forall i :: 0 <= i < |r| ==> r[i].tag == Td
  {
    Tagged(row, Td)
  }

  /** Every header cell of the table, in document order. */
  function Ths(t: Table): (r: seq<Cell>)
    ensures forall i :: 0 <= i < |r| ==> r[i].tag == Th
  {
    if t == [] then [] else Tagged(t[0], Th) + Ths(t[1..])
  }

  /** Filtering a row keeps exactly its cells with the tag. */
  lemma {:induction false} TaggedMembers(row: Row, tag: Tag)
    ensures forall c :: c in Tagged(row, tag) <==> c in row && c.tag == tag
  {
    if row != [] {
      TaggedMembers(row[1..], tag);
      assert row == [row[0]] + row[1..];
    }
  }

  /** The header cells of a table are exactly the `th` cells of its rows. */
  lemma {:induction false} ThsMembers(t: Table)
    ensures forall c :: c in Ths(t) ==> c.tag == Th && exists k :: 0 <= k < |t| && c in t[k]
    ensures forall k, c :: 0 <= k < |t| && c in t[k] && c.tag == Th ==> c in Ths(t)
  {
    if t != [] {
      var head := Tagged(t[0], Th);
      var rest := t[1..];
      assert Ths(t) == head + Ths(rest);
      TaggedMembers(t[0], Th);
      ThsMembers(rest);
      forall c | c in Ths(t)
        ensures c.tag == Th && exists k :: 0 <= k < |t| && c in t[k]
      {
        if c in head {
          assert c in t[0];
        } else {
          assert c in Ths(rest);
          var k :| 0 <= k < |rest| && c in rest[k];
          assert rest[k] == t[k + 1];
        }
      }
      forall k, c | 0 <= k < |t| && c in t[k] && c.tag == Th
        ensures c in Ths(t)
      {
        if k == 0 {
          assert c in head;
        } else {
          assert rest[k - 1] == t[k];
          assert c in Ths(rest);
        }
      }
    }
  }

  /** Filtering a single cell keeps it exactly when it has the tag. */
  lemma TaggedOne(c: Cell, tag: Tag)
    ensures Tagged([c], tag) == if c.tag == tag then [c] else []
  {
    assert [c][1..] == [];
  }

  /** Filtering a concatenation concatenates the filtered parts. With
      `TaggedOne` this fixes the order and the number of the cells kept,
      duplicates included. */
  lemma {:induction false} TaggedAppend(a: Row, b: Row, tag: Tag)
    ensures Tagged(a + b, tag) == Tagged(a, tag) + Tagged(b, tag)
  {
    if a == [] {
      assert a + b == b;
    } else {
      var head := if a[0].tag == tag then [a[0]] else [];
      assert (a + b)[0] == a[0];
      assert (a + b)[1..] == a[1..] + b;
      assert Tagged(a + b, tag) == head + Tagged(a[1..] + b, tag);
      TaggedAppend(a[1..], b, tag);
      assert Tagged(a, tag) == head + Tagged(a[1..], tag);
    }
  }

  /** The header cells of a one-row table are that row's `th` cells. With
      `TaggedOne`, `TaggedAppend` and `ThsAppend` this fixes their document
      order and count. */
  lemma ThsOne(row: Row)
    ensures Ths([row]) == Tagged(row, Th)
  {
    assert [row][1..] == [];
  }

  /** The header cells of stacked tables are those of the first table
      followed by those of the second: document order across rows. */
  lemma {:induction false} ThsAppend(a: Table, b: Table)
    ensures Ths(a + b) == Ths(a) + Ths(b)
  {
    if a == [] {
      assert a + b == b;
    } else {
      assert (a + b)[1..] == a[1..] + b;
      ThsAppend(a[1..], b);
    }
  }

  /** A row made only of cells with `tag` keeps all of them, in order. */
  lemma {:induction false} TaggedUniform(row: Row, tag: Tag)
    requires forall i :: 0 <= i < |row| ==> row[i].tag == tag
    ensures Tagged(row, tag) == row
  {
    if row != [] {
      TaggedUniform(row[1..], tag);
    }
  }

  /** A row with no cell carrying `tag` contributes nothing. */
  lemma {:induction false} TaggedAbsent(row: Row, tag: Tag)
    requires forall i :: 0 <= i < |row| ==> row[i].tag != tag
    ensures Tagged(row, tag) == []
  {
    if row != [] {
      TaggedAbsent(row[1..], tag);
    }
  }

  /** The columns are the cells of the first row, whatever the later rows hold. */
  function GetColumns(t: Table): (r: Result<Row, StructureError>)
    ensures r.Success? <==> |t| > 0
    ensures r.Success? ==> r.value == t[0]
    ensures r.Failure? ==> r.error == NoRows
  {
    if |t| == 0 then Failure(NoRows) else Success(t[0])
  }

  /** One title per column: the inner markup of the header cell with the same
      index among all header cells of the table. */
  function GetTableHeadings(t: Table, columns: Row): (r: Result<seq<string>, StructureError>)
    ensures r.Success? <==> |Ths(t)| >= |columns|
    ensures r.Success? ==> |r.value| == |columns|
    ensures r.Success? ==> forall i :: 0 <= i < |columns| ==> r.value[i] == Ths(t)[i].content
    ensures r.Failure? ==> r.error == MissingHeading(|Ths(t)|)
  {
    var ths := Ths(t);
    if |ths| < |columns| then Failure(MissingHeading(|ths|))
    else Success(seq(|columns|, i requires 0 <= i < |columns| => ths[i].content))
  }

  /** For the usual table whose first row is all header cells, the titles are
      exactly the contents of that row. */
  lemma HeadingsOfHeaderRow(t: Table)
    requires |t| > 0
    requires forall i :: 0 <= i < |t[0]| ==> t[0][i].tag == Th
    ensures GetTableHeadings(t, t[0]).Success?
    ensures forall i :: 0 <= i < |t[0]| ==> GetTableHeadings(t, t[0]).value[i] == t[0][i].content
  {
    TaggedUniform(t[0], Th);
    assert Ths(t) == t[0] + Ths(t[1..]);
  }
}
