/**
 * The column tests of ddl/column_test.go replayed on the table model: each
 * method builds a table, runs the test's steps and returns what the test
 * reads back.
 */
module ColumnScenarios {
  import opened Wrappers
  import opened Text
  import opened Schema
  import opened SchemaChange
  import opened Ddl

  /** The column names of the tests are already lower case. */
  lemma NamesLower()
    ensures Lower("c1") == "c1" && Lower("c2") == "c2" && Lower("c3") == "c3"
    ensures Lower("c4") == "c4" && Lower("c5") == "c5" && Lower("c6") == "c6"
  {
  }

  lemma AppendedValue(before: seq<int>, v: int, after: seq<int>)
    requires before == [1, 2, 3] && after == before[..3] + [v] + before[3..]
    ensures after == [1, 2, 3, v]
  {
  }

  lemma LastValueRemoved(before: seq<int>, after: seq<int>)
    requires before == [1, 2, 3, 4] && after == before[..3] + before[4..]
    ensures after == [1, 2, 3]
  {
  }

  /** The table of TestAddColumn: columns c1, c2, c3 and the one row (1, 2, 3). */
  method TableWithOneRow() returns (t: Table, h: int)
    ensures fresh(t) && t.Valid() && t.job.None? && t.nextColumnId == 3
    ensures |t.columns| == 3 && FindColumn(t.columns, Lower("c4")).None?
    ensures t.handles == [h] && t.Records() == [[1, 2, 3]] && CellKey(h, 3) !in t.cells
  {
    t := ThreeColumnTable();
    h := t.AddRecord([1, 2, 3]);
    OneRowRead(t.cells, t.handles, Ids(t.Cols()), h, [1, 2, 3]);
    NoCellOfNextId(t.cells, t.handles, t.columns, 3);
  }

  /** No stored cell belongs to the id the next new column will take. */
  lemma NoCellOfNextId(cells: map<CellKey, int>, handles: seq<int>, cols: seq<Column>, next: nat)
    requires CellsOwned(cells, handles, cols) && IdsBelow(cols, next)
    ensures forall key :: key in cells ==> key.column < next
  {
    forall key | key in cells
      ensures key.column < next
    {
      var i :| 0 <= i < |cols| && Ids(cols)[i] == key.column;
    }
  }

  /** Columns c1, c2 and c3, all public, and no index and no row. */
  method ThreeColumnTable() returns (t: Table)
    ensures fresh(t) && t.Valid() && t.job.None? && t.nextColumnId == 3 && t.handles == []
    ensures |t.columns| == 3 && FindColumn(t.columns, Lower("c4")).None?
    ensures t.Cols() == t.columns
  {
    t := new Table(["c1", "c2", "c3"], [0, 0, 0]);
    NamesLower();
  }

  /**
   * What the new-row check of a schema state reads: the rows after (11, 22,
   * 33) is inserted, the new row's c4 cell, and, once the new row is
   * deleted again, the rows and whether that cell is still stored.
   */
  datatype NewRowCheck = NewRowCheck(rows: seq<seq<int>>, cell: Option<int>, rowsAfterRemove: seq<seq<int>>, cellLeft: bool)

  /**
   * Inserts newRow next to the one row h, reads the rows and the new row's
   * c4 cell, deletes the new row and reads again. A hidden c4 receives its
   * default exactly when it is writable; the table ends as it began.
   */
  method CheckNewRow(t: Table, h: int, row: seq<int>, newRow: seq<int>) returns (c: NewRowCheck)
    requires t.Valid() && |t.columns| == 4 && t.columns[3].id == 3
    requires t.handles == [h] && t.Records() == [row] && |newRow| == |row|
    modifies t
    ensures t.Valid() && t.columns == old(t.columns) && t.job == old(t.job)
    ensures t.indices == old(t.indices) && t.nextColumnId == old(t.nextColumnId)
    ensures t.handles == [h] && t.Records() == [row]
    ensures CellKey(h, 3) in t.cells <==> old(CellKey(h, 3) in t.cells)
    ensures CellKey(h, 3) in t.cells ==> t.cells[CellKey(h, 3)] == old(t.cells[CellKey(h, 3)])
    ensures c.rows == [row, newRow]
    ensures t.columns[3].state != StatePublic ==>
      c.cell == if Writable(t.columns[3].state) then Some(t.columns[3].defaultValue) else None
    ensures c.rowsAfterRemove == [row] && !c.cellLeft
  {
    assert |t.Records()[0]| == |Ids(t.Cols())|;
    ghost var cells0 := t.cells;
    var g := t.AddRecord(newRow);
    WritesKeys(t.columns, g, newRow);
    assert CellKey(h, 3) in t.cells <==> CellKey(h, 3) in cells0;
    assert CellKey(h, 3) in t.cells ==> t.cells[CellKey(h, 3)] == cells0[CellKey(h, 3)];
    TwoRowsRead(t.cells, t.handles, Ids(t.Cols()), h, g, row, newRow);
    var rows := t.Records();
    var key := CellKey(g, 3);
    var cell := if key in t.cells then Some(t.cells[key]) else None;
    WithoutLast(h, g);
    t.RemoveRecord(g);
    OneRowRead(t.cells, t.handles, Ids(t.Cols()), h, row);
    var after := t.Records();
    c := NewRowCheck(rows, cell, after, key in t.cells);
  }

  /**
   * ADD COLUMN c4 at the end with default 4 is accepted and c4 enters in
   * DeleteOnly; the row stores no c4 cell.
   */
  method SubmitAddC4(t: Table, h: int)
    requires t.Valid() && t.job.None? && t.nextColumnId == 3
    requires |t.columns| == 3 && FindColumn(t.columns, Lower("c4")).None?
    requires t.handles == [h] && t.Records() == [[1, 2, 3]] && CellKey(h, 3) !in t.cells
    modifies t
    ensures t.Valid() && t.job == Some(AddColumnJob(3)) && t.JobIndex() == 3 && |t.columns| == 4
    ensures t.columns[3].state == StateDeleteOnly && t.columns[3].defaultValue == 4
    ensures t.handles == [h] && t.Records() == [[1, 2, 3]] && CellKey(h, 3) !in t.cells
  {
    assert CheckAddColumn(t.columns, "c4", PositionNone) == Ok(3);
    var err := t.StartAddColumn("c4", PositionNone, 4);
    assert t.columns[3] == Column(3, "c4", 3, StateDeleteOnly, 4);
  }

  /**
   * A step of the job on c4 before WriteReorganization: c4 moves on, the
   * row still reads (1, 2, 3) and still stores no c4 cell.
   */
  method HiddenAddStep(t: Table, h: int)
    requires t.Valid() && t.job == Some(AddColumnJob(3)) && t.JobIndex() == 3 && |t.columns| == 4
    requires t.columns[3].state == StateDeleteOnly || t.columns[3].state == StateWriteOnly
    requires t.handles == [h] && t.Records() == [[1, 2, 3]] && CellKey(h, 3) !in t.cells
    modifies t
    ensures t.Valid() && t.job == Some(AddColumnJob(3)) && t.JobIndex() == 3 && |t.columns| == 4
    ensures t.columns[3].state == NextAddState(old(t.columns[3].state))
    ensures t.columns[3].defaultValue == old(t.columns[3].defaultValue)
    ensures t.handles == [h] && t.Records() == [[1, 2, 3]] && CellKey(h, 3) !in t.cells
  {
    t.AdvanceAddColumn();
    assert t.columns[3].id == 3;
  }

  /** The last step of the job on c4: the row reads (1, 2, 3, 4). */
  method PublishC4(t: Table, h: int)
    requires t.Valid() && t.job == Some(AddColumnJob(3)) && t.JobIndex() == 3
    requires t.columns[3].state == StateWriteReorganization && t.columns[3].defaultValue == 4
    requires t.handles == [h] && t.Records() == [[1, 2, 3]]
    modifies t
    ensures t.Valid() && t.job.None? && t.Records() == [[1, 2, 3, 4]]
    ensures t.handles == [h] && |t.columns| == |old(t.columns)| && t.columns[3].id == 3
  {
    ghost var before := t.Row(h);
    assert before == [1, 2, 3];
    t.AdvanceAddColumn();
    assert h in t.handles;
    assert ValueInsertedAt(before, 3, 4, t.Row(h));
    ValueSplices(before, 3, 4, t.Row(h));
    AppendedValue(before, 4, t.Row(h));
    assert t.Records() == [t.Row(h)];
  }

  /**
   * TestAddColumn: one row (1, 2, 3), then ADD COLUMN c4 at the end with
   * default 4. In DeleteOnly, WriteOnly and WriteReorganization the row
   * reads (1, 2, 3) and stores no c4 cell; a row (11, 22, 33) inserted
   * there reads back beside it and gets the c4 cell 4 from WriteOnly on,
   * and deleting it leaves the one row and no cell of it. Once c4 is
   * public the row reads (1, 2, 3, 4), and a row (11, 22, 33, 44) is
   * inserted and deleted beside it.
   */
  method AddColumnScenario() returns (during: seq<seq<int>>, cellStored: seq<bool>, newRows: seq<NewRowCheck>,
                                      after: seq<seq<int>>, publicNewRow: NewRowCheck)
    ensures during == [[1, 2, 3], [1, 2, 3], [1, 2, 3]]
    ensures cellStored == [false, false, false]
    ensures newRows == [NewRowCheck([[1, 2, 3], [11, 22, 33]], None, [[1, 2, 3]], false),
                        NewRowCheck([[1, 2, 3], [11, 22, 33]], Some(4), [[1, 2, 3]], false),
                        NewRowCheck([[1, 2, 3], [11, 22, 33]], Some(4), [[1, 2, 3]], false)]
    ensures after == [[1, 2, 3, 4]]
    ensures publicNewRow.rows == [[1, 2, 3, 4], [11, 22, 33, 44]] && publicNewRow.rowsAfterRemove == [[1, 2, 3, 4]]
  {
    var t, h := TableWithOneRow();
    SubmitAddC4(t, h);
    var row1, stored1 := t.Records()[0], CellKey(h, 3) in t.cells;
    var new1 := CheckNewRow(t, h, [1, 2, 3], [11, 22, 33]);
    HiddenAddStep(t, h);
    var row2, stored2 := t.Records()[0], CellKey(h, 3) in t.cells;
    var new2 := CheckNewRow(t, h, [1, 2, 3], [11, 22, 33]);
    HiddenAddStep(t, h);
    var row3, stored3 := t.Records()[0], CellKey(h, 3) in t.cells;
    var new3 := CheckNewRow(t, h, [1, 2, 3], [11, 22, 33]);
    during, cellStored, newRows := [row1, row2, row3], [stored1, stored2, stored3], [new1, new2, new3];
    PublishC4(t, h);
    after := t.Records();
    publicNewRow := CheckNewRow(t, h, [1, 2, 3, 4], [11, 22, 33, 44]);
  }

  /** Columns c1 to c4, all public, c4 with default 4, and no index and no row. */
  method FourColumnTable() returns (t: Table)
    ensures fresh(t) && t.Valid() && t.job.None? && t.indices == [] && t.handles == []
    ensures |t.columns| == 4 && t.columns[3].id == 3 && t.columns[3].defaultValue == 4 && FindColumn(t.columns, Lower("c4")) == Some(3)
    ensures t.Cols() == t.columns && Ids(t.Cols()) == [0, 1, 2, 3]
  {
    t := new Table(["c1", "c2", "c3", "c4"], [0, 0, 0, 4]);
    NamesLower();
  }

  /** The table of TestDropColumn: columns c1 to c4 and the one row (1, 2, 3, 4). */
  method TableWithFullRow() returns (t: Table, h: int)
    ensures fresh(t) && t.Valid() && t.job.None? && t.indices == []
    ensures |t.columns| == 4 && t.columns[3].id == 3 && t.columns[3].defaultValue == 4 && FindColumn(t.columns, Lower("c4")) == Some(3)
    ensures t.handles == [h] && t.Records() == [[1, 2, 3, 4]] && CellKey(h, 3) in t.cells && t.cells[CellKey(h, 3)] == 4
  {
    t := FourColumnTable();
    h := t.AddRecord([1, 2, 3, 4]);
    OneRowRead(t.cells, t.handles, Ids(t.Cols()), h, [1, 2, 3, 4]);
  }

  /** A table holding the one row h that reads r: its records are [r], and h has a cell for every column read. */
  lemma OneRowRead(cells: map<CellKey, int>, handles: seq<int>, ids: seq<nat>, h: int, r: seq<int>)
    requires handles == [h] && Complete(cells, handles, ids) && RowOf(cells, h, ids) == r
    ensures RowsOf(cells, handles, ids) == [r]
    ensures forall x :: x in ids ==> CellKey(h, x) in cells
  {
  }

  /** A table holding the rows h and g, in that order, reads them as [r, r']. */
  lemma TwoRowsRead(cells: map<CellKey, int>, handles: seq<int>, ids: seq<nat>, h: int, g: int, r: seq<int>, r': seq<int>)
    requires handles == [h, g] && Complete(cells, handles, ids)
    requires RowOf(cells, h, ids) == r && RowOf(cells, g, ids) == r'
    ensures RowsOf(cells, handles, ids) == [r, r']
  {
  }

  /** Deleting the later of two rows leaves the earlier one. */
  lemma WithoutLast(h: int, g: int)
    requires h < g
    ensures Without([h, g], g) == [h]
  {
    assert [h, g][1..] == [g] && [g][1..] == [];
    assert Without([g], g) == [];
  }

  /** DROP COLUMN c4 is accepted: c4 becomes the job's column, still public. */
  method SubmitDropC4(t: Table, h: int)
    requires t.Valid() && t.job.None? && t.indices == []
    requires |t.columns| == 4 && t.columns[3].id == 3 && t.columns[3].defaultValue == 4 && FindColumn(t.columns, Lower("c4")) == Some(3)
    requires t.handles == [h] && t.Records() == [[1, 2, 3, 4]] && CellKey(h, 3) in t.cells && t.cells[CellKey(h, 3)] == 4
    modifies t
    ensures t.Valid() && t.job == Some(DropColumnJob(3)) && t.JobIndex() == 3 && |t.columns| == 4 && t.columns[3].defaultValue == 4
    ensures t.columns[3].state == StatePublic
    ensures t.handles == [h] && t.Records() == [[1, 2, 3, 4]] && CellKey(h, 3) in t.cells && t.cells[CellKey(h, 3)] == 4
  {
    assert !Covered([], Lower("c4"));
    assert CheckDropColumn(t.columns, t.indices, "c4") == Ok(3);
    var err := t.StartDropColumn("c4");
  }

  /**
   * The first step of the job on c4: the row reads (1, 2, 3) and still
   * stores its c4 cell; a row inserted in WriteOnly gets the c4 cell 4.
   */
  method HideC4(t: Table, h: int) returns (check: NewRowCheck)
    requires t.Valid() && t.job == Some(DropColumnJob(3)) && t.JobIndex() == 3 && |t.columns| == 4 && t.columns[3].defaultValue == 4
    requires t.columns[3].state == StatePublic
    requires t.handles == [h] && t.Records() == [[1, 2, 3, 4]] && CellKey(h, 3) in t.cells && t.cells[CellKey(h, 3)] == 4
    modifies t
    ensures t.Valid() && t.job == Some(DropColumnJob(3)) && t.JobIndex() == 3 && |t.columns| == 4 && t.columns[3].defaultValue == 4
    ensures t.columns[3].state == StateWriteOnly
    ensures t.handles == [h] && t.Records() == [[1, 2, 3]] && CellKey(h, 3) in t.cells && t.cells[CellKey(h, 3)] == 4
    ensures check == NewRowCheck([[1, 2, 3], [11, 22, 33]], Some(4), [[1, 2, 3]], false)
  {
    ghost var before := t.Row(h);
    assert before == [1, 2, 3, 4];
    t.AdvanceDropColumn();
    assert h in t.handles;
    assert ValueRemovedAt(before, 3, t.Row(h));
    ValueSplices(before, 3, 0, t.Row(h));
    LastValueRemoved(before, t.Row(h));
    assert t.Records() == [t.Row(h)];
    check := CheckNewRow(t, h, [1, 2, 3], [11, 22, 33]);
  }

  /**
   * A hidden step of the job on c4: the row still reads (1, 2, 3) and
   * still stores its c4 cell; a row inserted now gets no c4 cell.
   */
  method HiddenDropStep(t: Table, h: int) returns (check: NewRowCheck)
    requires t.Valid() && t.job == Some(DropColumnJob(3)) && t.JobIndex() == 3 && |t.columns| == 4 && t.columns[3].defaultValue == 4
    requires t.columns[3].state == StateWriteOnly || t.columns[3].state == StateDeleteOnly
    requires t.handles == [h] && t.Records() == [[1, 2, 3]] && CellKey(h, 3) in t.cells && t.cells[CellKey(h, 3)] == 4
    modifies t
    ensures t.Valid() && t.job == Some(DropColumnJob(3)) && t.JobIndex() == 3 && |t.columns| == 4 && t.columns[3].defaultValue == 4
    ensures t.columns[3].state == NextDropState(old(t.columns[3].state))
    ensures t.handles == [h] && t.Records() == [[1, 2, 3]] && CellKey(h, 3) in t.cells && t.cells[CellKey(h, 3)] == 4
    ensures check == NewRowCheck([[1, 2, 3], [11, 22, 33]], None, [[1, 2, 3]], false)
  {
    t.AdvanceDropColumn();
    assert t.columns[3].id == 3;
    check := CheckNewRow(t, h, [1, 2, 3], [11, 22, 33]);
  }

  /** The last step of the job on c4: the column and the row's c4 cell are gone; the row reads (1, 2, 3). */
  method RemoveC4(t: Table, h: int)
    requires t.Valid() && t.job == Some(DropColumnJob(3)) && t.JobIndex() == 3 && |t.columns| == 4
    requires t.columns[3].state == StateDeleteReorganization
    requires t.handles == [h] && t.Records() == [[1, 2, 3]]
    modifies t
    ensures t.Valid() && t.job.None? && |t.columns| == 3
    ensures forall i :: 0 <= i < |t.columns| ==> t.columns[i].id != 3
    ensures CellKey(h, 3) !in t.cells
    ensures t.Records() == [[1, 2, 3]]
  {
    t.AdvanceDropColumn();
  }

  /**
   * The steps of the job on c4 up to DeleteReorganization, with what is
   * read after each: the row, its c4 cell, and the new-row check.
   */
  method DropUntilReorganization(t: Table, h: int) returns (during: seq<seq<int>>, oldCell: seq<Option<int>>,
                                                            newRows: seq<NewRowCheck>)
    requires t.Valid() && t.job == Some(DropColumnJob(3)) && t.JobIndex() == 3 && |t.columns| == 4 && t.columns[3].defaultValue == 4
    requires t.columns[3].state == StatePublic
    requires t.handles == [h] && t.Records() == [[1, 2, 3, 4]] && CellKey(h, 3) in t.cells && t.cells[CellKey(h, 3)] == 4
    modifies t
    ensures t.Valid() && t.job == Some(DropColumnJob(3)) && t.JobIndex() == 3 && |t.columns| == 4
    ensures t.columns[3].state == StateDeleteReorganization
    ensures t.handles == [h] && t.Records() == [[1, 2, 3]]
    ensures during == [[1, 2, 3], [1, 2, 3], [1, 2, 3]]
    ensures oldCell == [Some(4), Some(4), Some(4)]
    ensures newRows == [NewRowCheck([[1, 2, 3], [11, 22, 33]], Some(4), [[1, 2, 3]], false),
                        NewRowCheck([[1, 2, 3], [11, 22, 33]], None, [[1, 2, 3]], false),
                        NewRowCheck([[1, 2, 3], [11, 22, 33]], None, [[1, 2, 3]], false)]
  {
    var new1 := HideC4(t, h);
    var row1, cell1 := t.Records()[0], Some(t.cells[CellKey(h, 3)]);
    var new2 := HiddenDropStep(t, h);
    var row2, cell2 := t.Records()[0], Some(t.cells[CellKey(h, 3)]);
    var new3 := HiddenDropStep(t, h);
    var row3, cell3 := t.Records()[0], Some(t.cells[CellKey(h, 3)]);
    during, oldCell, newRows := [row1, row2, row3], [cell1, cell2, cell3], [new1, new2, new3];
  }

  /**
   * TestDropColumn: one row (1, 2, 3, 4), then DROP COLUMN c4, whose
   * default is 4. From WriteOnly on the row reads (1, 2, 3); its c4 cell
   * keeps 4 through WriteOnly, DeleteOnly and DeleteReorganization and is
   * gone, with the column, at the end. A row (11, 22, 33) inserted in
   * WriteOnly gets the c4 cell 4, one inserted later gets none, and
   * deleting it leaves the one row.
   */
  method DropColumnScenario() returns (during: seq<seq<int>>, oldCell: seq<Option<int>>, newRows: seq<NewRowCheck>,
                                       after: seq<seq<int>>, cellGone: bool)
    ensures during == [[1, 2, 3], [1, 2, 3], [1, 2, 3]]
    ensures oldCell == [Some(4), Some(4), Some(4)]
    ensures newRows == [NewRowCheck([[1, 2, 3], [11, 22, 33]], Some(4), [[1, 2, 3]], false),
                        NewRowCheck([[1, 2, 3], [11, 22, 33]], None, [[1, 2, 3]], false),
                        NewRowCheck([[1, 2, 3], [11, 22, 33]], None, [[1, 2, 3]], false)]
    ensures after == [[1, 2, 3]] && cellGone
  {
    var t, h := TableWithFullRow();
    SubmitDropC4(t, h);
    during, oldCell, newRows := DropUntilReorganization(t, h);
    RemoveC4(t, h);
    after, cellGone := t.Records(), CellKey(h, 3) !in t.cells;
  }

  /**
   * The table TestColumn has reached once c1, c3 and c4 are dropped:
   * columns c6 and c5, built directly rather than replayed, with the index
   * c5_idx on c5.
   */
  method TableWithIndexedC5() returns (t: Table)
    ensures fresh(t) && t.Valid() && t.job.None?
    ensures |t.columns| == 2 && FindColumn(t.columns, Lower("c6")) == Some(0) && FindColumn(t.columns, Lower("c5")) == Some(1)
    ensures t.indices == [Index("c5_idx", ["c5"])]
  {
    t := new Table(["c6", "c5"], [0, 0]);
    assert Lower("c5") == "c5" && Lower("c6") == "c6" && Lower("c5_idx") == "c5_idx";
    assert FindColumn(Visible(t.columns), Lower(["c5"][0])) == Some(1);
    var err := t.CreateIndex("c5_idx", ["c5"]);
  }

  /**
   * DROP COLUMN c5 is refused while c5_idx covers c5; once DROP INDEX
   * c5_idx has run it is accepted and runs to the end, leaving c6 alone.
   */
  method DropIndexedC5(t: Table) returns (whileIndexed: Option<DdlError>, afterIndexDropped: Option<DdlError>)
    requires t.Valid() && t.job.None?
    requires |t.columns| == 2 && FindColumn(t.columns, Lower("c6")) == Some(0) && FindColumn(t.columns, Lower("c5")) == Some(1)
    requires t.indices == [Index("c5_idx", ["c5"])]
    modifies t
    ensures whileIndexed == Some(ErrCantDropIndexedColumn)
    ensures afterIndexDropped.None?
    ensures t.Valid() && t.job.None? && |t.columns| == 1 && FindColumn(t.columns, Lower("c6")) == Some(0)
  {
    assert Covered(t.indices, Lower("c5")) by {
      assert Lower(t.indices[0].columns[0]) == Lower("c5");
    }
    whileIndexed := t.StartDropColumn("c5");
    assert Lower("c5_idx") == "c5_idx";
    assert FindIndex(t.indices, Lower("c5_idx")) == Some(0);
    var err := t.DropIndex("c5_idx");
    assert t.indices == [];
    assert !Covered(t.indices, Lower("c5"));
    ghost var c6 := t.columns[0];
    afterIndexDropped := t.DropColumn("c5");
    assert t.columns == [c6];
  }

  /** On the table left with c6 alone, DROP COLUMN c6 is refused and the table stays as it is. */
  method DropOnlyColumn(t: Table) returns (onlyColumn: Option<DdlError>)
    requires t.Valid() && t.job.None? && |t.columns| == 1 && FindColumn(t.columns, Lower("c6")) == Some(0)
    modifies t
    ensures onlyColumn == Some(ErrCantRemoveAllColumns)
    ensures t.columns == old(t.columns) && t.job.None?
  {
    onlyColumn := t.StartDropColumn("c6");
  }

  /**
   * The end of TestColumn, on columns c6 and c5: with c5 covered by the
   * index c5_idx, DROP COLUMN c5 is refused; after DROP INDEX c5_idx it is
   * accepted, and once c5 is gone DROP COLUMN c6 is refused.
   */
  method DropRefusalScenario() returns (whileIndexed: Option<DdlError>, afterIndexDropped: Option<DdlError>,
                                        onlyColumn: Option<DdlError>)
    ensures whileIndexed == Some(ErrCantDropIndexedColumn)
    ensures afterIndexDropped.None?
    ensures onlyColumn == Some(ErrCantRemoveAllColumns)
  {
    var t := TableWithIndexedC5();
    whileIndexed, afterIndexDropped := DropIndexedC5(t);
    onlyColumn := DropOnlyColumn(t);
  }

  // ------------------------------------------------------------ TestColumn's main flow

  /** A public column. */
  function Pub(id: nat, name: string, offset: nat, defaultValue: int): Column
  {
    Column(id, name, offset, StatePublic, defaultValue)
  }

  function Names(cols: seq<Column>): seq<string>
  {
    seq(|cols|, i requires 0 <= i < |cols| => cols[i].name)
  }

  function Offsets(cols: seq<Column>): seq<nat>
  {
    seq(|cols|, i requires 0 <= i < |cols| => cols[i].offset)
  }

  /** The columns c1, c2 and c3 of TestColumn's table. */
  function FirstColumns(): seq<Column>
  {
    [Pub(0, "c1", 0, 0), Pub(1, "c2", 1, 0), Pub(2, "c3", 2, 0)]
  }

  /** TestColumn's table: columns c1, c2 and c3 and the rows (i, 10i, 100i) for i from 0 to 9. */
  method TenRowTable() returns (t: Table)
    ensures fresh(t) && t.Valid() && t.job.None? && t.indices == [] && t.nextColumnId == 3
    ensures t.columns == FirstColumns()
    ensures |t.handles| == 10 && forall i :: 0 <= i < 10 ==> t.Row(t.handles[i]) == [i, 10 * i, 100 * i]
  {
    t := new Table(["c1", "c2", "c3"], [0, 0, 0]);
    var n := 0;
    while n < 10
      invariant 0 <= n <= 10
      invariant t.Valid() && t.job.None? && t.indices == [] && t.nextColumnId == 3
      invariant t.columns == FirstColumns() && t.Cols() == t.columns
      invariant |t.handles| == n && forall i :: 0 <= i < n ==> t.Row(t.handles[i]) == [i, 10 * i, 100 * i]
    {
      var h := t.AddRecord([n, 10 * n, 100 * n]);
      n := n + 1;
    }
  }

  /** ADD COLUMN c4 AFTER c3 DEFAULT 100: every row reads its values followed by 100. */
  method AddC4AfterC3(t: Table)
    requires t.Valid() && t.job.None? && t.indices == [] && t.nextColumnId == 3
    requires t.columns == FirstColumns()
    requires |t.handles| == 10 && forall i :: 0 <= i < 10 ==> t.Row(t.handles[i]) == [i, 10 * i, 100 * i]
    modifies t
    ensures t.Valid() && t.job.None? && t.indices == [] && t.nextColumnId == 4
    ensures t.columns == FirstColumns() + [Pub(3, "c4", 3, 100)]
    ensures |t.handles| == 10 && forall i :: 0 <= i < 10 ==> t.Row(t.handles[i]) == [i, 10 * i, 100 * i, 100]
  {
    NamesLower();
    assert FindColumn(t.columns, "c3") == Some(2);
    assert CheckAddColumn(t.columns, "c4", PositionAfter("c3")) == Ok(3);
    var err := t.AddColumn("c4", PositionAfter("c3"), 100);
    assert t.columns == FirstColumns() + [Pub(3, "c4", 3, 100)];
    forall i | 0 <= i < 10
      ensures t.Row(t.handles[i]) == [i, 10 * i, 100 * i, 100]
    {
      ValueSplices(old(t.Row(t.handles[i])), 3, 100, t.Row(t.handles[i]));
    }
  }

  /** A row (11, 12, 13, 14) written with c4 public keeps its explicit c4 value. */
  method AddExplicitRow(t: Table) returns (h: int)
    requires t.Valid() && t.job.None? && t.indices == [] && t.nextColumnId == 4
    requires t.columns == FirstColumns() + [Pub(3, "c4", 3, 100)]
    modifies t
    ensures t.Valid() && t.job.None? && t.indices == [] && t.nextColumnId == 4
    ensures t.columns == FirstColumns() + [Pub(3, "c4", 3, 100)]
    ensures h in t.handles && t.Row(h) == [11, 12, 13, 14]
  {
    VisibleAllPublic(t.columns);
    h := t.AddRecord([11, 12, 13, 14]);
  }

  /** DROP COLUMN c4: the row reads (11, 12, 13). */
  method DropC4Again(t: Table, h: int)
    requires t.Valid() && t.job.None? && t.indices == [] && t.nextColumnId == 4
    requires t.columns == FirstColumns() + [Pub(3, "c4", 3, 100)]
    requires h in t.handles && t.Row(h) == [11, 12, 13, 14]
    modifies t
    ensures t.Valid() && t.job.None? && t.indices == [] && t.nextColumnId == 4
    ensures t.columns == FirstColumns()
    ensures h in t.handles && t.Row(h) == [11, 12, 13]
  {
    NamesLower();
    assert FindColumn(t.columns, "c4") == Some(3);
    assert !Covered([], "c4");
    assert CheckDropColumn(t.columns, [], "c4") == Ok(3);
    var err := t.DropColumn("c4");
    assert t.columns == FirstColumns();
    ValueSplices(old(t.Row(h)), 3, 0, t.Row(h));
  }

  /** ADD COLUMN c4 DEFAULT 111 at the end: the row reads (11, 12, 13, 111). */
  method ReAddC4(t: Table, h: int)
    requires t.Valid() && t.job.None? && t.indices == [] && t.nextColumnId == 4
    requires t.columns == FirstColumns()
    requires h in t.handles && t.Row(h) == [11, 12, 13]
    modifies t
    ensures t.Valid() && t.job.None? && t.indices == [] && t.nextColumnId == 5
    ensures t.columns == FirstColumns() + [Pub(4, "c4", 3, 111)]
    ensures h in t.handles && t.Row(h) == [11, 12, 13, 111]
  {
    NamesLower();
    assert CheckAddColumn(t.columns, "c4", PositionNone) == Ok(3);
    var err := t.AddColumn("c4", PositionNone, 111);
    assert t.columns == FirstColumns() + [Pub(4, "c4", 3, 111)];
    ValueSplices(old(t.Row(h)), 3, 111, t.Row(h));
  }

  /** ADD COLUMN c5 DEFAULT 101 at the end: the row reads (11, 12, 13, 111, 101). */
  method AddC5(t: Table, h: int)
    requires t.Valid() && t.job.None? && t.indices == [] && t.nextColumnId == 5
    requires t.columns == FirstColumns() + [Pub(4, "c4", 3, 111)]
    requires h in t.handles && t.Row(h) == [11, 12, 13, 111]
    modifies t
    ensures t.Valid() && t.job.None? && t.indices == [] && t.nextColumnId == 6
    ensures t.columns == FirstColumns() + [Pub(4, "c4", 3, 111), Pub(5, "c5", 4, 101)]
    ensures h in t.handles && t.Row(h) == [11, 12, 13, 111, 101]
  {
    NamesLower();
    assert CheckAddColumn(t.columns, "c5", PositionNone) == Ok(4);
    var err := t.AddColumn("c5", PositionNone, 101);
    assert t.columns == FirstColumns() + [Pub(4, "c4", 3, 111), Pub(5, "c5", 4, 101)];
    ValueSplices(old(t.Row(h)), 4, 101, t.Row(h));
  }

  /** The columns once c6 has been added first. */
  function SixColumns(): seq<Column>
  {
    [Pub(6, "c6", 0, 202), Pub(0, "c1", 1, 0), Pub(1, "c2", 2, 0), Pub(2, "c3", 3, 0),
     Pub(4, "c4", 4, 111), Pub(5, "c5", 5, 101)]
  }

  lemma C6IsNew(cols: seq<Column>)
    requires cols == FirstColumns() + [Pub(4, "c4", 3, 111), Pub(5, "c5", 4, 101)]
    ensures CheckAddColumn(cols, "c6", PositionFirst) == Ok(0)
  {
    NamesLower();
    assert forall j :: 0 <= j < |cols| ==> Lower(cols[j].name) != "c6";
  }

  lemma C6FirstRow(before: seq<int>, after: seq<int>)
    requires before == [11, 12, 13, 111, 101] && ValueInsertedAt(before, 0, 202, after)
    ensures after == [202, 11, 12, 13, 111, 101]
  {
    ValueSplices(before, 0, 202, after);
  }

  lemma C6FirstShape(cols: seq<Column>, cols': seq<Column>)
    requires cols == FirstColumns() + [Pub(4, "c4", 3, 111), Pub(5, "c5", 4, 101)]
    requires InsertedAt(cols, 0, Pub(6, "c6", 0, 202), cols')
    ensures cols' == SixColumns()
  {
    assert cols'[1] == cols[0].(offset := 1) && cols'[2] == cols[1].(offset := 2) && cols'[3] == cols[2].(offset := 3);
    assert cols'[4] == cols[3].(offset := 4) && cols'[5] == cols[4].(offset := 5);
  }

  lemma SixColumnsListing()
    ensures Names(SixColumns()) == ["c6", "c1", "c2", "c3", "c4", "c5"]
    ensures Offsets(SixColumns()) == [0, 1, 2, 3, 4, 5]
  {
  }

  /** The columns once c2 has been dropped from SixColumns(). */
  function FiveColumns(): seq<Column>
  {
    [Pub(6, "c6", 0, 202), Pub(0, "c1", 1, 0), Pub(2, "c3", 2, 0), Pub(4, "c4", 3, 111), Pub(5, "c5", 4, 101)]
  }

  lemma C2DroppedShape(cols: seq<Column>, cols': seq<Column>)
    requires cols == SixColumns() && RemovedAt(cols, 2, cols')
    ensures cols' == FiveColumns()
  {
    assert cols'[0] == cols[0] && cols'[1] == cols[1];
    assert cols'[2] == cols[3].(offset := 2) && cols'[3] == cols[4].(offset := 3) && cols'[4] == cols[5].(offset := 4);
  }

  lemma C2IsDroppable(cols: seq<Column>)
    requires cols == SixColumns()
    ensures CheckDropColumn(cols, [], "c2") == Ok(2)
  {
    NamesLower();
    assert FindColumn(cols, "c2") == Some(2);
    assert !Covered([], "c2");
  }

  lemma C2DroppedRow(before: seq<int>, after: seq<int>)
    requires before == [202, 11, 12, 13, 111, 101] && ValueRemovedAt(before, 2, after)
    ensures after == [202, 11, 13, 111, 101]
  {
    ValueSplices(before, 2, 0, after);
  }

  /**
   * ADD COLUMN c6 FIRST DEFAULT 202: c6 takes offset 0, the others move up
   * by one, and the row reads (202, 11, 12, 13, 111, 101).
   */
  method AddC6First(t: Table, h: int)
    requires t.Valid() && t.job.None? && t.indices == [] && t.nextColumnId == 6
    requires t.columns == FirstColumns() + [Pub(4, "c4", 3, 111), Pub(5, "c5", 4, 101)]
    requires h in t.handles && t.Row(h) == [11, 12, 13, 111, 101]
    modifies t
    ensures t.Valid() && t.job.None? && t.indices == [] && t.nextColumnId == 7
    ensures t.columns == SixColumns()
    ensures h in t.handles && t.Row(h) == [202, 11, 12, 13, 111, 101]
  {
    C6IsNew(t.columns);
    var err := t.AddColumn("c6", PositionFirst, 202);
    C6FirstShape(old(t.columns), t.columns);
    assert ValueInsertedAt(old(t.Row(h)), 0, 202, t.Row(h));
    C6FirstRow(old(t.Row(h)), t.Row(h));
  }

  /** DROP COLUMN c2: the row reads (202, 11, 13, 111, 101). */
  method DropC2(t: Table, h: int)
    requires t.Valid() && t.job.None? && t.indices == [] && t.nextColumnId == 7
    requires t.columns == SixColumns()
    requires h in t.handles && t.Row(h) == [202, 11, 12, 13, 111, 101]
    modifies t
    ensures t.Valid() && t.job.None?
    ensures t.Cols() == FiveColumns()
    ensures h in t.handles && t.Row(h) == [202, 11, 13, 111, 101]
  {
    C2IsDroppable(t.columns);
    var err := t.DropColumn("c2");
    C2DroppedShape(old(t.columns), t.columns);
    VisibleAllPublic(t.columns);
    assert ValueRemovedAt(old(t.Row(h)), 2, t.Row(h));
    C2DroppedRow(old(t.Row(h)), t.Row(h));
  }

  /** The ten rows, read before and after ADD COLUMN c4 AFTER c3 DEFAULT 100. */
  method RowsAroundC4() returns (t: Table, rows: seq<seq<int>>, rowsWithC4: seq<seq<int>>)
    ensures fresh(t) && t.Valid() && t.job.None? && t.indices == [] && t.nextColumnId == 4
    ensures t.columns == FirstColumns() + [Pub(3, "c4", 3, 100)]
    ensures |rows| == 10 && forall i :: 0 <= i < 10 ==> rows[i] == [i, 10 * i, 100 * i]
    ensures |rowsWithC4| == 10 && forall i :: 0 <= i < 10 ==> rowsWithC4[i] == [i, 10 * i, 100 * i, 100]
  {
    t := TenRowTable();
    rows := t.Records();
    AddC4AfterC3(t);
    rowsWithC4 := t.Records();
  }

  /** The explicit row, read after each of DROP COLUMN c4, ADD COLUMN c4 and ADD COLUMN c5. */
  method ExplicitRowThroughC4AndC5(t: Table) returns (h: int, explicitRow: seq<int>, withoutC4: seq<int>,
                                                       withC4Again: seq<int>, withC5: seq<int>)
    requires t.Valid() && t.job.None? && t.indices == [] && t.nextColumnId == 4
    requires t.columns == FirstColumns() + [Pub(3, "c4", 3, 100)]
    modifies t
    ensures t.Valid() && t.job.None? && t.indices == [] && t.nextColumnId == 6
    ensures t.columns == FirstColumns() + [Pub(4, "c4", 3, 111), Pub(5, "c5", 4, 101)]
    ensures h in t.handles && t.Row(h) == [11, 12, 13, 111, 101]
    ensures explicitRow == [11, 12, 13, 14] && withoutC4 == [11, 12, 13]
    ensures withC4Again == [11, 12, 13, 111] && withC5 == [11, 12, 13, 111, 101]
  {
    h := AddExplicitRow(t);
    explicitRow := t.Row(h);
    DropC4Again(t, h);
    withoutC4 := t.Row(h);
    ReAddC4(t, h);
    withC4Again := t.Row(h);
    AddC5(t, h);
    withC5 := t.Row(h);
  }

  /** The columns and the explicit row after ADD COLUMN c6 FIRST, and the row after DROP COLUMN c2. */
  method ExplicitRowThroughC6AndC2(t: Table, h: int) returns (names: seq<string>, offsets: seq<nat>,
                                                               withC6: seq<int>, withoutC2: seq<int>)
    requires t.Valid() && t.job.None? && t.indices == [] && t.nextColumnId == 6
    requires t.columns == FirstColumns() + [Pub(4, "c4", 3, 111), Pub(5, "c5", 4, 101)]
    requires h in t.handles && t.Row(h) == [11, 12, 13, 111, 101]
    modifies t
    ensures names == ["c6", "c1", "c2", "c3", "c4", "c5"] && offsets == [0, 1, 2, 3, 4, 5]
    ensures withC6 == [202, 11, 12, 13, 111, 101]
    ensures withoutC2 == [202, 11, 13, 111, 101]
  {
    AddC6First(t, h);
    VisibleAllPublic(t.columns);
    SixColumnsListing();
    names, offsets := Names(t.Cols()), Offsets(t.Cols());
    withC6 := t.Row(h);
    DropC2(t, h);
    withoutC2 := t.Row(h);
  }

  /**
   * TestColumn: ten rows (i, 10i, 100i); ADD COLUMN c4 AFTER c3 DEFAULT
   * 100, after which every row ends in 100; a row (11, 12, 13, 14) keeps
   * its explicit c4; DROP COLUMN c4; c4 again with default 111 and c5 with
   * default 101 at the end; c6 FIRST with default 202, which puts the
   * columns in the order c6, c1, ..., c5 with offsets 0 to 5; DROP COLUMN
   * c2. Each output is what the test reads at that point.
   */
  method MainFlowScenario() returns (rows: seq<seq<int>>, rowsWithC4: seq<seq<int>>, explicitRow: seq<int>,
                                     withoutC4: seq<int>, withC4Again: seq<int>, withC5: seq<int>,
                                     names: seq<string>, offsets: seq<nat>, withC6: seq<int>, withoutC2: seq<int>)
    ensures |rows| == 10 && forall i :: 0 <= i < 10 ==> rows[i] == [i, 10 * i, 100 * i]
    ensures |rowsWithC4| == 10 && forall i :: 0 <= i < 10 ==> rowsWithC4[i] == [i, 10 * i, 100 * i, 100]
    ensures explicitRow == [11, 12, 13, 14] && withoutC4 == [11, 12, 13]
    ensures withC4Again == [11, 12, 13, 111] && withC5 == [11, 12, 13, 111, 101]
    ensures names == ["c6", "c1", "c2", "c3", "c4", "c5"] && offsets == [0, 1, 2, 3, 4, 5]
    ensures withC6 == [202, 11, 12, 13, 111, 101]
    ensures withoutC2 == [202, 11, 13, 111, 101]
  {
    var t;
    t, rows, rowsWithC4 := RowsAroundC4();
    var h;
    h, explicitRow, withoutC4, withC4Again, withC5 := ExplicitRowThroughC4AndC5(t);
    names, offsets, withC6, withoutC2 := ExplicitRowThroughC6AndC2(t, h);
  }
}
