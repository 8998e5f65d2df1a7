/**
 * A table under online schema change: its column list, its indices, its
 * rows stored as one cell per row and column, and the column jobs that
 * move a column through the schema states one step at a time.
 */
module Ddl {
  import opened Wrappers
  import opened Text
  import opened Schema
  import opened SchemaChange

  /**
   * The first column whose lower-case name is name, or None when no
   * column has that name.
   */
  method GetColumn(name: string, cols: seq<Column>) returns (r: Option<Column>)
    ensures r.None? <==> FindColumn(cols, name).None?
    ensures r.Some? ==> r.value == cols[FindColumn(cols, name).value]
  {
    var i := 0;
    while i < |cols|
      invariant 0 <= i <= |cols|
      invariant forall j :: 0 <= j < i ==> Lower(cols[j].name) != name
    {
      if name == Lower(cols[i].name) {
        return Some(cols[i]);
      }
      i := i + 1;
    }
    return None;
  }

  /** Publishing a column inserted at idx gives the list with the public column inserted there. */
  lemma InsertedThenPublished(cols: seq<Column>, idx: nat, col: Column, cols': seq<Column>)
    requires InsertedAt(cols, idx, col, cols')
    ensures InsertedAt(cols, idx, col.(state := StatePublic), cols'[idx := cols'[idx].(state := StatePublic)])
  {
  }

  // Facts about one insert, on the values of a table's fields.

  lemma InsertKeepsCells(cols: seq<Column>, handles: seq<int>, cells: map<CellKey, int>, h: int, r: seq<int>)
    requires |r| == |Visible(cols)| && IdsDistinct(cols)
    requires CellsOwned(cells, handles, cols) && Complete(cells, handles, Ids(Visible(cols)))
    requires h !in handles
    ensures var cells' := cells + Writes(cols, h, r);
      CellsOwned(cells', handles + [h], cols) &&
      Complete(cells', handles + [h], Ids(Visible(cols))) &&
      (forall k :: k in cells ==> k in cells' && cells'[k] == cells[k]) &&
      (forall k :: k in cells' && k.handle != h ==> k in cells)
  {
    WritesKeys(cols, h, r);
    WritesRoundTrip(cols, h, r);
  }

  lemma InsertKeepsJob(job: Option<Job>, cols: seq<Column>, cells: map<CellKey, int>, h: int, r: seq<int>)
    requires |r| == |Visible(cols)| && IdsDistinct(cols)
    requires JobConsistent(job, cols, cells)
    ensures JobConsistent(job, cols, cells + Writes(cols, h, r))
  {
    var cells' := cells + Writes(cols, h, r);
    WritesKeys(cols, h, r);
    forall i | 0 <= i < |cols| && job.Some? && cols[i].id == job.value.columnId
      ensures JobColumnOk(job.value, cols[i], cells')
    {
      if job.value.AddColumnJob? {
        WritesHidden(cols, h, r, i);
      }
    }
  }

  /** Writes over one more column: the previous writes plus that column's cell, if any. */
  lemma WritesExtend(cols: seq<Column>, h: int, r: seq<int>, k: nat)
    requires k < |cols| && |Visible(cols[..k + 1])| <= |r|
    ensures var c, j := cols[k], |Visible(cols[..k])|;
      |Visible(cols[..k + 1])| == j + (if c.state == StatePublic then 1 else 0) &&
      Writes(cols[..k + 1], h, r[..|Visible(cols[..k + 1])|]) ==
        if c.state == StatePublic then Writes(cols[..k], h, r[..j])[CellKey(h, c.id) := r[j]]
        else if Writable(c.state) then Writes(cols[..k], h, r[..j])[CellKey(h, c.id) := c.defaultValue]
        else Writes(cols[..k], h, r[..j])
  {
    var j := |Visible(cols[..k])|;
    assert cols[..k + 1][..k] == cols[..k];
    if cols[k].state == StatePublic {
      assert r[..j + 1][..j] == r[..j];
    }
  }

  /** The cells an insert of row h with visible values r writes, one column at a time. */
  method WriteCells(cols: seq<Column>, h: int, r: seq<int>) returns (w: map<CellKey, int>)
    requires |r| == |Visible(cols)|
    ensures w == Writes(cols, h, r)
  {
    w := map[];
    var k, j := 0, 0;
    VisibleConcat(cols[..0], cols);
    while k < |cols|
      invariant 0 <= k <= |cols|
      invariant j == |Visible(cols[..k])| <= |r|
      invariant w == Writes(cols[..k], h, r[..j])
    {
      var c := cols[k];
      assert cols[..k + 1] + cols[k + 1..] == cols;
      VisibleConcat(cols[..k + 1], cols[k + 1..]);
      WritesExtend(cols, h, r, k);
      if c.state == StatePublic {
        w := w[CellKey(h, c.id) := r[j]];
        j := j + 1;
      } else if Writable(c.state) {
        w := w[CellKey(h, c.id) := c.defaultValue];
      }
      k := k + 1;
    }
    assert cols[..k] == cols;
    assert r[..j] == r;
  }

  /** cells without row h's cell for each of the columns cols, one column at a time. */
  method RemoveCells(cols: seq<Column>, cells: map<CellKey, int>, h: int) returns (acc: map<CellKey, int>)
    ensures forall k :: k in acc <==> k in cells && !(k.handle == h && k.column in Ids(cols))
    ensures forall k :: k in acc ==> acc[k] == cells[k]
  {
    acc := cells;
    var i := 0;
    while i < |cols|
      invariant 0 <= i <= |cols|
      invariant forall k :: k in acc <==> k in cells && !(k.handle == h && k.column in Ids(cols[..i]))
      invariant forall k :: k in acc ==> acc[k] == cells[k]
    {
      assert cols[..i + 1] == cols[..i] + [cols[i]];
      IdsConcat(cols[..i], [cols[i]]);
      acc := acc - {CellKey(h, cols[i].id)};
      i := i + 1;
    }
    assert cols[..i] == cols;
  }

  /** Deleting a row's handle and cells keeps the table invariant. */
  lemma RemoveKeepsConsistent(cols: seq<Column>, handles: seq<int>, cells: map<CellKey, int>, job: Option<Job>,
                              nextHandle: int, nextId: nat, h: int, cells': map<CellKey, int>)
    requires Consistent(cols, handles, cells, job, nextHandle, nextId)
    requires forall k :: k in cells' <==> k in cells && k.handle != h
    requires forall k :: k in cells' ==> cells'[k] == cells[k]
    ensures Consistent(cols, Without(handles, h), cells', job, nextHandle, nextId)
  {
    WithoutKeepsOrder(handles, h);
    var hs := Without(handles, h);
    forall i | 0 <= i < |hs| ensures hs[i] < nextHandle {
      assert hs[i] in handles;
    }
    forall i | 0 <= i < |cols| && job.Some? && cols[i].id == job.value.columnId
      ensures JobColumnOk(job.value, cols[i], cells')
    {
      assert JobColumnOk(job.value, cols[i], cells);
    }
  }

  /** The columns of a new table: one public column per name, numbered from 0. */
  function InitialColumns(names: seq<string>, defaults: seq<int>): (cols: seq<Column>)
    requires |names| == |defaults|
    ensures |cols| == |names|
    ensures forall i :: 0 <= i < |names| ==> cols[i] == Column(i, names[i], i, StatePublic, defaults[i])
  {
    seq(|names|, i requires 0 <= i < |names| => Column(i, names[i], i, StatePublic, defaults[i]))
  }

  /** A new table is consistent, and all its columns are visible. */
  lemma InitialConsistent(names: seq<string>, defaults: seq<int>)
    requires |names| == |defaults|
    ensures var cols := InitialColumns(names, defaults);
      Consistent(cols, [], map[], None, 0, |names|) && Visible(cols) == cols
  {
    var cols := InitialColumns(names, defaults);
    assert forall i :: 0 <= i < |cols| ==> cols[i].state == StatePublic;
    VisibleAllPublic(cols);
    assert IdsDistinct(cols);
    assert JobConsistent(None, cols, map[]);
  }

  /** Appending a row under the next handle keeps a table consistent. */
  lemma InsertKeepsConsistent(cols: seq<Column>, handles: seq<int>, cells: map<CellKey, int>, job: Option<Job>,
                              nextHandle: int, nextId: nat, r: seq<int>)
    requires Consistent(cols, handles, cells, job, nextHandle, nextId) && |r| == |Visible(cols)|
    ensures Consistent(cols, handles + [nextHandle], cells + Writes(cols, nextHandle, r), job, nextHandle + 1, nextId)
  {
    assert nextHandle !in handles;
    InsertKeepsCells(cols, handles, cells, nextHandle, r);
    InsertKeepsJob(job, cols, cells, nextHandle, r);
    var hs := handles + [nextHandle];
    assert forall i :: 0 <= i < |hs| ==> hs[i] < nextHandle + 1;
    assert Increasing(hs);
  }

  lemma InsertReads(cols: seq<Column>, handles: seq<int>, cells: map<CellKey, int>, h: int, r: seq<int>)
    requires |r| == |Visible(cols)| && IdsDistinct(cols)
    requires CellsOwned(cells, handles, cols) && Complete(cells, handles, Ids(Visible(cols)))
    requires h !in handles
    ensures var cells' := cells + Writes(cols, h, r);
      Complete(cells', handles + [h], Ids(Visible(cols))) &&
      RowOf(cells', h, Ids(Visible(cols))) == r &&
      forall g :: g in handles ==> RowOf(cells', g, Ids(Visible(cols))) == RowOf(cells, g, Ids(Visible(cols)))
  {
    InsertKeepsCells(cols, handles, cells, h, r);
    WritesRoundTrip(cols, h, r);
  }

  class Table {
    var columns: seq<Column>
    var indices: seq<Index>
    var handles: seq<int>
    var cells: map<CellKey, int>
    var nextHandle: int
    var nextColumnId: nat
    var job: Option<Job>

    ghost predicate Valid()
      reads this
    {
      Consistent(columns, handles, cells, job, nextHandle, nextColumnId)
    }

    /** A table with the given public columns, no index and no row. */
    constructor(names: seq<string>, defaults: seq<int>)
      requires |names| == |defaults|
      ensures Valid()
      ensures |columns| == |names| && job.None? && indices == [] && handles == [] && cells == map[]
      ensures nextHandle == 0 && nextColumnId == |names|
      ensures forall i :: 0 <= i < |names| ==>
        columns[i] == Column(i, names[i], i, StatePublic, defaults[i])
      ensures Cols() == columns
    {
      columns := InitialColumns(names, defaults);
      indices := [];
      handles := [];
      cells := map[];
      nextHandle := 0;
      nextColumnId := |names|;
      job := None;
      new;
      InitialConsistent(names, defaults);
    }

    /** The columns readers and writers see, in order. */
    function Cols(): seq<Column>
      reads this
    {
      Visible(columns)
    }

    /** The values row h shows readers, one per visible column. */
    function Row(h: int): seq<int>
      reads this
      requires Valid() && h in handles
    {
      RowOf(cells, h, Ids(Visible(columns)))
    }

    /** Every row as readers see it, in handle order. */
    function Records(): seq<seq<int>>
      reads this
      requires Valid()
    {
      RowsOf(cells, handles, Ids(Visible(columns)))
    }

    /** Reads the rows one after the other, in handle order. */
    method IterRecords() returns (rows: seq<seq<int>>)
      requires Valid()
      ensures |rows| == |handles|
      ensures forall i :: 0 <= i < |handles| ==> rows[i] == Row(handles[i])
    {
      rows := [];
      var i := 0;
      while i < |handles|
        invariant 0 <= i <= |handles|
        invariant |rows| == i
        invariant forall j :: 0 <= j < i ==> rows[j] == Row(handles[j])
      {
        rows := rows + [Row(handles[i])];
        i := i + 1;
      }
    }

    /**
     * Inserts a row whose values r are given for the visible columns, in
     * order, under a fresh handle. A column in WriteOnly or
     * WriteReorganization gets its default value; a column in DeleteOnly or
     * DeleteReorganization gets nothing.
     */
    method AddRecord(r: seq<int>) returns (h: int)
      requires Valid() && |r| == |Cols()|
      modifies this
      ensures Valid()
      ensures columns == old(columns) && indices == old(indices) && job == old(job) && nextColumnId == old(nextColumnId)
      ensures h == old(nextHandle) && handles == old(handles) + [h] && nextHandle == h + 1
      ensures cells == old(cells) + Writes(columns, h, r)
      ensures Row(h) == r
      ensures forall g :: g in old(handles) ==> Row(g) == old(Row(g))
      ensures forall k :: 0 <= k < |columns| && columns[k].state != StatePublic ==>
        (CellKey(h, columns[k].id) in cells <==> Writable(columns[k].state))
      ensures forall k :: 0 <= k < |columns| && columns[k].state != StatePublic && CellKey(h, columns[k].id) in cells ==>
        cells[CellKey(h, columns[k].id)] == columns[k].defaultValue
    {
      h := nextHandle;
      assert h !in handles;
      InsertKeepsConsistent(columns, handles, cells, job, h, nextColumnId, r);
      InsertReads(columns, handles, cells, h, r);
      var w := WriteCells(columns, h, r);
      cells := cells + w;
      forall k | 0 <= k < |columns| && columns[k].state != StatePublic
        ensures CellKey(h, columns[k].id) in cells <==> Writable(columns[k].state)
        ensures CellKey(h, columns[k].id) in cells ==> cells[CellKey(h, columns[k].id)] == columns[k].defaultValue
      {
        WritesHidden(columns, h, r, k);
      }
      handles := handles + [h];
      nextHandle := h + 1;
    }
  
    /**
     * Deletes row h: its handle and every cell stored for it, whatever the
     * state of the cell's column. Other rows read as before.
     */
    method RemoveRecord(h: int)
      requires Valid()
      modifies this
      ensures Valid()
      ensures columns == old(columns) && indices == old(indices) && job == old(job)
      ensures nextHandle == old(nextHandle) && nextColumnId == old(nextColumnId)
      ensures handles == Without(old(handles), h)
      ensures forall k :: k in cells <==> k in old(cells) && k.handle != h
      ensures forall k :: k in cells ==> cells[k] == old(cells)[k]
      ensures forall g :: g in handles ==> Row(g) == old(Row(g))
    {
      cells := RemoveCells(columns, cells, h);
      RemoveKeepsConsistent(columns, handles, old(cells), job, nextHandle, nextColumnId, h, cells);
      handles := Without(handles, h);
    }

    /** The list position of the running job's column. */
    function JobIndex(): (k: nat)
      reads this
      requires Valid() && job.Some?
      ensures k < |columns| && columns[k].id == job.value.columnId
    {
      IndexOfId(columns, job.value.columnId)
    }

    /**
     * Submits ADD COLUMN name at pos with the given default value. A name
     * the table already has, or AFTER a column it does not have, is refused
     * and nothing changes. Otherwise the column enters the list in
     * DeleteOnly at its position, the offsets after it move up by one, and
     * it becomes the running job's column; readers see no change yet.
     */
    method StartAddColumn(name: string, pos: Position, defaultValue: int) returns (err: Option<DdlError>)
      requires Valid() && job.None?
      modifies this
      ensures Valid()
      ensures indices == old(indices) && handles == old(handles) && cells == old(cells) && nextHandle == old(nextHandle)
      ensures Records() == old(Records())
      ensures CheckAddColumn(old(columns), name, pos).Err? ==>
        err == Some(CheckAddColumn(old(columns), name, pos).error) && columns == old(columns) && job.None? &&
        nextColumnId == old(nextColumnId)
      ensures CheckAddColumn(old(columns), name, pos).Ok? ==>
        var idx := CheckAddColumn(old(columns), name, pos).value;
        err.None? && job == Some(AddColumnJob(old(nextColumnId))) && nextColumnId == old(nextColumnId) + 1 &&
        InsertedAt(old(columns), idx, Column(old(nextColumnId), name, idx, StateDeleteOnly, defaultValue), columns)
    {
      var check := CheckAddColumn(columns, name, pos);
      if check.Err? {
        return Some(check.error);
      }
      InsertNewColumn(check.value, Column(nextColumnId, name, check.value, StateDeleteOnly, defaultValue));
      err := None;
    }

    /** Inserts col, a new DeleteOnly column, at idx and makes it the running job's column. */
    method InsertNewColumn(idx: nat, col: Column)
      requires Valid() && job.None? && idx <= |columns|
      requires col.id == nextColumnId && col.state == StateDeleteOnly && col.offset == idx
      modifies this
      ensures Valid()
      ensures indices == old(indices) && handles == old(handles) && cells == old(cells) && nextHandle == old(nextHandle)
      ensures Records() == old(Records())
      ensures job == Some(AddColumnJob(old(nextColumnId))) && nextColumnId == old(nextColumnId) + 1
      ensures InsertedAt(old(columns), idx, col, columns)
    {
      var renumbered := InsertColumn(columns, idx, col);
      InsertColumnKeeps(columns, handles, cells, nextHandle, nextColumnId, idx, col, renumbered);
      columns, job, nextColumnId := renumbered, Some(AddColumnJob(nextColumnId)), nextColumnId + 1;
    }

    /**
     * Runs one step of the running ADD COLUMN job. DeleteOnly goes to
     * WriteOnly and WriteOnly to WriteReorganization, which readers do not
     * see. From WriteReorganization the reorganization stores the default
     * value in every row that has no cell for the column, the column
     * becomes public and the job ends: every row then reads its old values
     * with the default value at the column's position.
     */
    method AdvanceAddColumn()
      requires Valid() && job.Some? && job.value.AddColumnJob?
      modifies this
      ensures Valid()
      ensures indices == old(indices) && handles == old(handles) && nextHandle == old(nextHandle) && nextColumnId == old(nextColumnId)
      ensures OnAddPath(old(columns[JobIndex()].state))
      ensures columns == old(columns[JobIndex() := columns[JobIndex()].(state := NextAddState(columns[JobIndex()].state))])
      ensures old(columns[JobIndex()].state) != StateWriteReorganization ==>
        job == old(job) && cells == old(cells) && Records() == old(Records())
      ensures old(columns[JobIndex()].state) == StateWriteReorganization ==>
        job.None? &&
        CellsKept(old(cells), cells) &&
        (forall g :: g in handles ==> ValueInsertedAt(old(Row(g)), old(JobIndex()), old(columns[JobIndex()].defaultValue), Row(g)))
    {
      var k := JobIndex();
      var c := columns[k];
      if c.state == StateWriteReorganization {
        var filled := Backfill(handles, cells, c.id, c.defaultValue);
        PublishKeeps(columns, handles, cells, nextHandle, nextColumnId, k, filled);
        var published := columns[k := c.(state := StatePublic)];
        forall g | g in handles
          ensures ValueInsertedAt(RowOf(cells, g, Ids(Visible(columns))), k, c.defaultValue, RowOf(filled, g, Ids(Visible(published))))
        {
          PublishRows(columns, cells, k, filled, g);
        }
        columns := published;
        cells := filled;
        job := None;
      } else {
        HiddenStepKeeps(columns, handles, cells, job, nextHandle, nextColumnId, k, NextAddState(c.state));
        columns := columns[k := c.(state := NextAddState(c.state))];
      }
    }

    /**
     * Submits DROP COLUMN name. A missing column, the table's only column
     * and a column an index covers are refused, in that order, and nothing
     * changes. Otherwise the column becomes the running job's column.
     */
    method StartDropColumn(name: string) returns (err: Option<DdlError>)
      requires Valid() && job.None?
      modifies this
      ensures Valid()
      ensures columns == old(columns) && indices == old(indices) && handles == old(handles) && cells == old(cells)
      ensures nextHandle == old(nextHandle) && nextColumnId == old(nextColumnId)
      ensures CheckDropColumn(columns, indices, name).Err? ==>
        err == Some(CheckDropColumn(columns, indices, name).error) && job.None?
      ensures CheckDropColumn(columns, indices, name).Ok? ==>
        err.None? && job == Some(DropColumnJob(columns[CheckDropColumn(columns, indices, name).value].id))
    {
      var check := CheckDropColumn(columns, indices, name);
      if check.Err? {
        return Some(check.error);
      }
      assert columns[check.value].id in Ids(columns);
      job := Some(DropColumnJob(columns[check.value].id));
      err := None;
    }

    /**
     * Runs one step of the running DROP COLUMN job. Public goes to
     * WriteOnly, after which every row reads without the column's value;
     * WriteOnly goes to DeleteOnly and DeleteOnly to DeleteReorganization,
     * which readers do not see. From DeleteReorganization the
     * reorganization deletes the column's cell from every row, the column
     * leaves the list, the offsets after it move down by one and the job
     * ends.
     */
    method AdvanceDropColumn()
      requires Valid() && job.Some? && job.value.DropColumnJob?
      modifies this
      ensures Valid()
      ensures indices == old(indices) && handles == old(handles) && nextHandle == old(nextHandle) && nextColumnId == old(nextColumnId)
      ensures OnDropPath(old(columns[JobIndex()].state))
      ensures old(columns[JobIndex()].state) != StateDeleteReorganization ==>
        columns == old(columns[JobIndex() := columns[JobIndex()].(state := NextDropState(columns[JobIndex()].state))]) &&
        cells == old(cells) && job == old(job)
      ensures old(columns[JobIndex()].state) == StatePublic ==>
        forall g :: g in handles ==> ValueRemovedAt(old(Row(g)), old(JobIndex()), Row(g))
      ensures old(columns[JobIndex()].state) != StatePublic ==> Records() == old(Records())
      ensures old(columns[JobIndex()].state) == StateDeleteReorganization ==>
        job.None? && RemovedAt(old(columns), old(JobIndex()), columns) &&
        (forall i :: 0 <= i < |columns| ==> columns[i].id != old(job.value.columnId)) &&
        (forall key :: key in cells <==> key in old(cells) && key.column != old(job.value.columnId)) &&
        (forall key :: key in cells ==> cells[key] == old(cells)[key])
    {
      var k := JobIndex();
      var c := columns[k];
      if c.state == StatePublic {
        HideKeeps(columns, handles, cells, nextHandle, nextColumnId, k);
        var hidden := columns[k := c.(state := StateWriteOnly)];
        forall g | g in handles
          ensures ValueRemovedAt(RowOf(cells, g, Ids(Visible(columns))), k, RowOf(cells, g, Ids(Visible(hidden))))
        {
          HideRows(columns, cells, k, g);
        }
        columns := hidden;
      } else if c.state == StateDeleteReorganization {
        var kept := RemoveColumnCells(handles, cells, c.id);
        var rest := RemoveColumn(columns, k);
        RemoveColumnKeeps(columns, handles, cells, nextHandle, nextColumnId, k, kept, rest);
        columns, cells, job := rest, kept, None;
      } else {
        HiddenStepKeeps(columns, handles, cells, job, nextHandle, nextColumnId, k, NextDropState(c.state));
        columns := columns[k := c.(state := NextDropState(c.state))];
      }
    }

    /**
     * ADD COLUMN run to its end, as the job runner does before the next
     * schema change starts: the column enters in DeleteOnly and steps
     * through WriteOnly and WriteReorganization to Public. A refused column
     * changes nothing. Otherwise the column is public at its position with
     * the offsets after it moved up, every old cell is kept, and every row
     * reads its old values with the default value at that position.
     */
    method AddColumn(name: string, pos: Position, defaultValue: int) returns (err: Option<DdlError>)
      requires Valid() && job.None?
      modifies this
      ensures Valid() && job.None?
      ensures indices == old(indices) && handles == old(handles) && nextHandle == old(nextHandle)
      ensures CheckAddColumn(old(columns), name, pos).Err? ==>
        err == Some(CheckAddColumn(old(columns), name, pos).error) &&
        columns == old(columns) && cells == old(cells) && nextColumnId == old(nextColumnId)
      ensures CheckAddColumn(old(columns), name, pos).Ok? ==>
        var idx := CheckAddColumn(old(columns), name, pos).value;
        err.None? && nextColumnId == old(nextColumnId) + 1 &&
        InsertedAt(old(columns), idx, Column(old(nextColumnId), name, idx, StatePublic, defaultValue), columns) &&
        CellsKept(old(cells), cells) &&
        (forall g :: g in handles ==> ValueInsertedAt(old(Row(g)), idx, defaultValue, Row(g)))
    {
      err := StartAddColumn(name, pos, defaultValue);
      if err.Some? {
        return;
      }
      ghost var idx := CheckAddColumn(old(columns), name, pos).value;
      ghost var started := columns;
      InsertHiddenKeepsVisible(old(columns), idx, started[idx], started);
      assert JobIndex() == idx;
      FinishAddColumn();
      InsertedThenPublished(old(columns), idx, started[idx], started);
    }

    /**
     * The steps of an ADD COLUMN job after its column has entered in
     * DeleteOnly: WriteOnly, WriteReorganization, then Public with every
     * row given the default value.
     */
    method FinishAddColumn()
      requires Valid() && job.Some? && job.value.AddColumnJob? && columns[JobIndex()].state == StateDeleteOnly
      modifies this
      ensures Valid() && job.None?
      ensures indices == old(indices) && handles == old(handles) && nextHandle == old(nextHandle) && nextColumnId == old(nextColumnId)
      ensures columns == old(columns[JobIndex() := columns[JobIndex()].(state := StatePublic)])
      ensures CellsKept(old(cells), cells)
      ensures forall g :: g in handles ==>
        ValueInsertedAt(old(Row(g)), old(JobIndex()), old(columns[JobIndex()].defaultValue), Row(g))
    {
      ghost var k := JobIndex();
      HiddenAddSteps();
      assert forall g :: g in handles ==> Row(g) == old(Row(g));
      AdvanceAddColumn();
    }

    /** The two hidden steps of an ADD COLUMN job: DeleteOnly to WriteOnly to WriteReorganization. */
    method HiddenAddSteps()
      requires Valid() && job.Some? && job.value.AddColumnJob? && columns[JobIndex()].state == StateDeleteOnly
      modifies this
      ensures Valid() && job == old(job) && JobIndex() == old(JobIndex())
      ensures indices == old(indices) && handles == old(handles) && nextHandle == old(nextHandle) && nextColumnId == old(nextColumnId)
      ensures columns == old(columns[JobIndex() := columns[JobIndex()].(state := StateWriteReorganization)])
      ensures cells == old(cells) && Ids(Visible(columns)) == old(Ids(Visible(columns)))
    {
      HiddenAddStep();
      HiddenAddStep();
    }

    /** One hidden step of an ADD COLUMN job: DeleteOnly to WriteOnly, or WriteOnly to WriteReorganization. */
    method HiddenAddStep()
      requires Valid() && job.Some? && job.value.AddColumnJob?
      requires columns[JobIndex()].state == StateDeleteOnly || columns[JobIndex()].state == StateWriteOnly
      modifies this
      ensures Valid() && job == old(job) && JobIndex() == old(JobIndex())
      ensures indices == old(indices) && handles == old(handles) && nextHandle == old(nextHandle) && nextColumnId == old(nextColumnId)
      ensures columns == old(columns[JobIndex() := columns[JobIndex()].(state := NextAddState(columns[JobIndex()].state))])
      ensures cells == old(cells) && Ids(Visible(columns)) == old(Ids(Visible(columns)))
    {
      ghost var k := JobIndex();
      HiddenSwapVisible(columns, k, NextAddState(columns[k].state));
      AdvanceAddColumn();
      assert JobIndex() == k;
    }

    /**
     * DROP COLUMN run to its end: the column steps from Public through
     * WriteOnly, DeleteOnly and DeleteReorganization and leaves the table.
     * A refused drop changes nothing. Otherwise the column and its cells
     * are gone, the offsets after it moved down, other cells are kept, and
     * every row reads its old values without the column's value.
     */
    method DropColumn(name: string) returns (err: Option<DdlError>)
      requires Valid() && job.None?
      modifies this
      ensures Valid() && job.None?
      ensures indices == old(indices) && handles == old(handles)
      ensures nextHandle == old(nextHandle) && nextColumnId == old(nextColumnId)
      ensures CheckDropColumn(old(columns), indices, name).Err? ==>
        err == Some(CheckDropColumn(old(columns), indices, name).error) && columns == old(columns) && cells == old(cells)
      ensures CheckDropColumn(old(columns), indices, name).Ok? ==>
        var k := CheckDropColumn(old(columns), indices, name).value;
        err.None? && RemovedAt(old(columns), k, columns) &&
        (forall key :: key in cells <==> key in old(cells) && key.column != old(columns[k].id)) &&
        (forall key :: key in cells ==> cells[key] == old(cells)[key]) &&
        (forall g :: g in handles ==> ValueRemovedAt(old(Row(g)), k, Row(g)))
    {
      err := StartDropColumn(name);
      if err.Some? {
        return;
      }
      ghost var k := CheckDropColumn(old(columns), indices, name).value;
      assert JobIndex() == k;
      RunDropColumn();
    }

    /** All four steps of a DROP COLUMN job whose column is still public. */
    method RunDropColumn()
      requires Valid() && job.Some? && job.value.DropColumnJob? && columns[JobIndex()].state == StatePublic
      modifies this
      ensures Valid() && job.None?
      ensures indices == old(indices) && handles == old(handles) && nextHandle == old(nextHandle) && nextColumnId == old(nextColumnId)
      ensures RemovedAt(old(columns), old(JobIndex()), columns)
      ensures forall key :: key in cells <==> key in old(cells) && key.column != old(job.value.columnId)
      ensures forall key :: key in cells ==> cells[key] == old(cells)[key]
      ensures forall g :: g in handles ==> ValueRemovedAt(old(Row(g)), old(JobIndex()), Row(g))
    {
      ghost var k := JobIndex();
      AdvanceDropColumn();
      ghost var rows := map g | g in handles :: Row(g);
      assert JobIndex() == k;
      FinishDropColumn();
      assert forall g :: g in handles ==> Row(g) == rows[g];
    }

    /**
     * The steps of a DROP COLUMN job after its column is hidden: WriteOnly
     * to DeleteOnly to DeleteReorganization, then the column and its cells
     * go. Rows read the same throughout.
     */
    method FinishDropColumn()
      requires Valid() && job.Some? && job.value.DropColumnJob? && columns[JobIndex()].state == StateWriteOnly
      modifies this
      ensures Valid() && job.None?
      ensures indices == old(indices) && handles == old(handles) && nextHandle == old(nextHandle) && nextColumnId == old(nextColumnId)
      ensures RemovedAt(old(columns), old(JobIndex()), columns)
      ensures forall key :: key in cells <==> key in old(cells) && key.column != old(job.value.columnId)
      ensures forall key :: key in cells ==> cells[key] == old(cells)[key]
      ensures forall g :: g in handles ==> Row(g) == old(Row(g))
    {
      ghost var rows := Records();
      HiddenDropSteps();
      AdvanceDropColumn();
      assert Records() == rows;
      forall g | g in handles
        ensures Row(g) == old(Row(g))
      {
        var i :| 0 <= i < |handles| && handles[i] == g;
        assert Row(g) == Records()[i];
      }
    }

    /** The two hidden steps of a DROP COLUMN job: WriteOnly to DeleteOnly to DeleteReorganization. */
    method HiddenDropSteps()
      requires Valid() && job.Some? && job.value.DropColumnJob? && columns[JobIndex()].state == StateWriteOnly
      modifies this
      ensures Valid() && job == old(job) && JobIndex() == old(JobIndex())
      ensures indices == old(indices) && handles == old(handles) && nextHandle == old(nextHandle) && nextColumnId == old(nextColumnId)
      ensures columns == old(columns[JobIndex() := columns[JobIndex()].(state := StateDeleteReorganization)])
      ensures cells == old(cells) && Records() == old(Records())
    {
      HiddenDropStep();
      HiddenDropStep();
    }

    /** One hidden step of a DROP COLUMN job: WriteOnly to DeleteOnly, or DeleteOnly to DeleteReorganization. */
    method HiddenDropStep()
      requires Valid() && job.Some? && job.value.DropColumnJob?
      requires columns[JobIndex()].state == StateWriteOnly || columns[JobIndex()].state == StateDeleteOnly
      modifies this
      ensures Valid() && job == old(job) && JobIndex() == old(JobIndex())
      ensures indices == old(indices) && handles == old(handles) && nextHandle == old(nextHandle) && nextColumnId == old(nextColumnId)
      ensures columns == old(columns[JobIndex() := columns[JobIndex()].(state := NextDropState(columns[JobIndex()].state))])
      ensures cells == old(cells) && Records() == old(Records())
    {
      ghost var k := JobIndex();
      AdvanceDropColumn();
      assert JobIndex() == k;
    }

    /**
     * CREATE INDEX name on the named columns: refused when the name is
     * taken or a named column is not a public column of the table;
     * otherwise the index is added. Nothing else changes. Like every
     * schema change it runs as a job of its own, so no column job may
     * be in progress.
     */
    method CreateIndex(name: string, cols: seq<string>) returns (err: Option<DdlError>)
      requires Valid()
      requires job.None?
      modifies this
      ensures Valid()
      ensures err == CheckCreateIndex(columns, old(indices), name, cols)
      ensures err.Some? ==> indices == old(indices)
      ensures err.None? ==> indices == old(indices) + [Index(name, cols)]
      ensures columns == old(columns) && handles == old(handles) && cells == old(cells) && job == old(job)
      ensures nextHandle == old(nextHandle) && nextColumnId == old(nextColumnId)
    {
      err := CheckCreateIndex(columns, indices, name, cols);
      if err.None? {
        indices := indices + [Index(name, cols)];
      }
    }

    /**
     * DROP INDEX name: refused when no index has the name; otherwise that
     * index is removed. Like CREATE INDEX it needs no column job in progress.
     */
    method DropIndex(name: string) returns (err: Option<DdlError>)
      requires Valid()
      requires job.None?
      modifies this
      ensures Valid()
      ensures err.Some? <==> FindIndex(old(indices), Lower(name)).None?
      ensures err.Some? ==> err == Some(ErrIndexNotExists) && indices == old(indices)
      ensures err.None? ==> indices == RemoveIndexAt(old(indices), FindIndex(old(indices), Lower(name)).value)
      ensures columns == old(columns) && handles == old(handles) && cells == old(cells) && job == old(job)
      ensures nextHandle == old(nextHandle) && nextColumnId == old(nextColumnId)
    {
      match FindIndex(indices, Lower(name))
      case None =>
        err := Some(ErrIndexNotExists);
      case Some(k) =>
        indices := RemoveIndexAt(indices, k);
        err := None;
    }
  }
}
