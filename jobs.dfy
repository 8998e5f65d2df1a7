/**
 * The steps of the column jobs, on the values of a table's fields: the
 * loops a step runs over the column list and the stored cells, and the
 * lemmas that each step keeps the table invariant and what it does to
 * the rows readers see.
 */
module SchemaChange {
  import opened Wrappers
  import opened Text
  import opened Schema

  /**
   * Offsets recomputed from position from on, so that every column's
   * offset is its position in the list again.
   */
  method Renumber(cols: seq<Column>, from: nat) returns (r: seq<Column>)
    requires from <= |cols|
    requires forall i :: 0 <= i < from ==> cols[i].offset == i
    ensures |r| == |cols| && OffsetsMatch(r)
    ensures forall i :: 0 <= i < |cols| ==> r[i] == cols[i].(offset := i)
  {
    r := cols;
    var i := from;
    while i < |r|
      invariant from <= i <= |r| == |cols|
      invariant forall j :: 0 <= j < i ==> r[j] == cols[j].(offset := j)
      invariant forall j :: i <= j < |r| ==> r[j] == cols[j]
    {
      r := r[i := r[i].(offset := i)];
      i := i + 1;
    }
  }

  /**
   * The reorganization of an added column: every row without a cell for
   * column id gets one holding the default value; existing cells stay.
   */
  method Backfill(handles: seq<int>, cells: map<CellKey, int>, id: nat, defaultValue: int) returns (acc: map<CellKey, int>)
    ensures forall k :: k in acc <==> k in cells || (k.column == id && k.handle in handles)
    ensures forall k :: k in acc ==> acc[k] == if k in cells then cells[k] else defaultValue
  {
    acc := cells;
    var i := 0;
    while i < |handles|
      invariant 0 <= i <= |handles|
      invariant forall k :: k in acc <==> k in cells || (k.column == id && k.handle in handles[..i])
      invariant forall k :: k in acc ==> acc[k] == if k in cells then cells[k] else defaultValue
    {
      assert handles[..i + 1] == handles[..i] + [handles[i]];
      var key := CellKey(handles[i], id);
      if key !in acc {
        acc := acc[key := defaultValue];
      }
      i := i + 1;
    }
    assert handles[..i] == handles;
  }

  /** The reorganization of a dropped column: every row's cell for column id is deleted. */
  method RemoveColumnCells(handles: seq<int>, cells: map<CellKey, int>, id: nat) returns (acc: map<CellKey, int>)
    ensures forall k :: k in acc <==> k in cells && !(k.column == id && k.handle in handles)
    ensures forall k :: k in acc ==> acc[k] == cells[k]
  {
    acc := cells;
    var i := 0;
    while i < |handles|
      invariant 0 <= i <= |handles|
      invariant forall k :: k in acc <==> k in cells && !(k.column == id && k.handle in handles[..i])
      invariant forall k :: k in acc ==> acc[k] == cells[k]
    {
      assert handles[..i + 1] == handles[..i] + [handles[i]];
      acc := acc - {CellKey(handles[i], id)};
      i := i + 1;
    }
    assert handles[..i] == handles;
  }

  /** cols' is cols with col inserted at idx and the later offsets renumbered. */
  predicate InsertedAt(cols: seq<Column>, idx: nat, col: Column, cols': seq<Column>)
  {
    idx <= |cols| && |cols'| == |cols| + 1 && cols'[idx] == col &&
    (forall i :: 0 <= i < idx ==> cols'[i] == cols[i]) &&
    (forall i :: idx < i < |cols'| ==> cols'[i] == cols[i - 1].(offset := i))
  }

  /** The column list with col inserted at idx, the later offsets renumbered. */
  method InsertColumn(cols: seq<Column>, idx: nat, col: Column) returns (cols': seq<Column>)
    requires idx <= |cols| && OffsetsMatch(cols) && col.offset == idx
    ensures InsertedAt(cols, idx, col, cols') && OffsetsMatch(cols')
  {
    var inserted := cols[..idx] + [col] + cols[idx..];
    forall i | 0 <= i < |inserted|
      ensures inserted[i] == if i < idx then cols[i] else if i == idx then col else cols[i - 1]
    {
    }
    cols' := Renumber(inserted, idx + 1);
  }

  /** The column list without the column at k, the later offsets renumbered. */
  method RemoveColumn(cols: seq<Column>, k: nat) returns (cols': seq<Column>)
    requires k < |cols| && OffsetsMatch(cols)
    ensures RemovedAt(cols, k, cols') && OffsetsMatch(cols')
  {
    var rest := cols[..k] + cols[k + 1..];
    forall i | 0 <= i < |rest|
      ensures rest[i] == if i < k then cols[i] else cols[i + 1]
    {
    }
    cols' := Renumber(rest, k);
  }

  /**
   * Where an accepted ADD COLUMN puts the new column: at the end with no
   * position; first with FIRST, every other column one place up; right
   * after the named column with AFTER. Offsets stay 0 to n in list order.
   */
  lemma AddedColumnPosition(cols: seq<Column>, name: string, pos: Position, col: Column, cols': seq<Column>)
    requires CheckAddColumn(cols, name, pos).Ok? && OffsetsMatch(cols)
    requires col.offset == CheckAddColumn(cols, name, pos).value
    requires InsertedAt(cols, CheckAddColumn(cols, name, pos).value, col, cols')
    ensures OffsetsMatch(cols')
    ensures pos.PositionNone? ==> cols' == cols + [col]
    ensures pos.PositionFirst? ==>
      cols'[0] == col && forall i :: 1 <= i < |cols'| ==> cols'[i] == cols[i - 1].(offset := i)
    ensures pos.PositionAfter? ==>
      exists j :: 0 <= j < |cols| && Lower(cols[j].name) == Lower(pos.relative) && cols'[j] == cols[j] && cols'[j + 1] == col
  {
    var idx := CheckAddColumn(cols, name, pos).value;
    if pos.PositionNone? {
      assert cols' == cols + [col];
    }
    if pos.PositionAfter? {
      assert cols'[idx - 1] == cols[idx - 1];
    }
  }

  /** Inserting a hidden column changes nothing readers see. */
  lemma InsertHiddenKeepsVisible(cols: seq<Column>, idx: nat, col: Column, cols': seq<Column>)
    requires InsertedAt(cols, idx, col, cols') && col.state != StatePublic
    ensures Ids(Visible(cols')) == Ids(Visible(cols))
  {
    var ins := cols[..idx] + [col] + cols[idx..];
    InsertedAtIsSplice(cols, idx, col, cols');
    VisibleIdsIgnoreOffsets(cols', ins);
    SpliceHiddenVisible(cols[..idx], col, cols[idx..]);
    assert cols[..idx] + cols[idx..] == cols;
  }

  /** An insertion is the splice of col into cols, up to the renumbered offsets. */
  lemma InsertedAtIsSplice(cols: seq<Column>, idx: nat, col: Column, cols': seq<Column>)
    requires InsertedAt(cols, idx, col, cols')
    ensures |cols'| == |cols[..idx] + [col] + cols[idx..]|
    ensures forall i :: 0 <= i < |cols'| ==>
      cols'[i].id == (cols[..idx] + [col] + cols[idx..])[i].id &&
      cols'[i].state == (cols[..idx] + [col] + cols[idx..])[i].state
  {
    var ins := cols[..idx] + [col] + cols[idx..];
    forall i | 0 <= i < |ins| ensures cols'[i].id == ins[i].id && cols'[i].state == ins[i].state {
      if i < idx {
        assert ins[i] == cols[i];
      } else if i > idx {
        assert ins[i] == cols[i - 1];
      }
    }
  }

  lemma SpliceHiddenVisible(a: seq<Column>, col: Column, b: seq<Column>)
    requires col.state != StatePublic
    ensures Visible(a + [col] + b) == Visible(a + b)
  {
    VisibleConcat(a + [col], b);
    VisibleConcat(a, [col]);
    VisibleSingle(col);
    VisibleConcat(a, b);
  }

  /** Every id of cols is still there after the insertion. */
  lemma InsertKeepsIds(cols: seq<Column>, idx: nat, col: Column, cols': seq<Column>)
    requires InsertedAt(cols, idx, col, cols')
    ensures forall x :: x in Ids(cols) ==> x in Ids(cols')
    ensures col.id in Ids(cols')
  {
    forall x | x in Ids(cols) ensures x in Ids(cols') {
      var i :| 0 <= i < |cols| && cols[i].id == x;
      if i < idx { assert cols'[i].id == x; } else { assert cols'[i + 1].id == x; }
    }
    assert cols'[idx].id == col.id;
  }

  /**
   * Inserting a DeleteOnly column with a fresh id, offsets renumbered,
   * keeps the invariant, makes the column the job's, and changes nothing
   * readers see.
   */
  lemma InsertColumnKeeps(cols: seq<Column>, handles: seq<int>, cells: map<CellKey, int>, nextHandle: int, nextId: nat,
                          idx: nat, col: Column, cols': seq<Column>)
    requires Consistent(cols, handles, cells, None, nextHandle, nextId)
    requires col.id == nextId && col.state == StateDeleteOnly && col.offset == idx
    requires InsertedAt(cols, idx, col, cols')
    ensures Consistent(cols', handles, cells, Some(AddColumnJob(nextId)), nextHandle, nextId + 1)
    ensures Ids(Visible(cols')) == Ids(Visible(cols))
  {
    InsertHiddenKeepsVisible(cols, idx, col, cols');
    InsertKeepsIds(cols, idx, col, cols');
    InsertShape(cols, idx, col, cols', nextId);
    assert forall i :: 0 <= i < |cols| ==> cols[i].state == StatePublic;
    InsertJob(cols, cells, handles, idx, col, cols', nextId);
  }

  /** The inserted list keeps offsets equal to positions and distinct ids below the next id. */
  lemma InsertShape(cols: seq<Column>, idx: nat, col: Column, cols': seq<Column>, nextId: nat)
    requires InsertedAt(cols, idx, col, cols') && OffsetsMatch(cols) && col.offset == idx
    requires IdsDistinct(cols) && IdsBelow(cols, nextId) && col.id == nextId
    ensures OffsetsMatch(cols') && IdsDistinct(cols') && IdsBelow(cols', nextId + 1)
  {
    assert IdsDistinct(cols') by {
      forall i, j | 0 <= i < j < |cols'| ensures cols'[i].id != cols'[j].id {
        var a := if i < idx then i else i - 1;
        var b := if j <= idx then j else j - 1;
        if i != idx && j != idx {
          assert cols'[i].id == cols[a].id && cols'[j].id == cols[b].id;
        } else if i == idx {
          assert cols'[j].id == cols[b].id;
        } else {
          assert cols'[i].id == cols[a].id;
        }
      }
    }
    assert IdsBelow(cols', nextId + 1) by {
      forall i | 0 <= i < |cols'| ensures cols'[i].id < nextId + 1 {
        if i < idx { assert cols'[i] == cols[i]; } else if i > idx { assert cols'[i].id == cols[i - 1].id; }
      }
    }
  }

  /** With every other column public, the inserted DeleteOnly column with a fresh id can be the add job's column. */
  lemma InsertJob(cols: seq<Column>, cells: map<CellKey, int>, handles: seq<int>, idx: nat, col: Column,
                  cols': seq<Column>, nextId: nat)
    requires InsertedAt(cols, idx, col, cols') && col.id == nextId && col.state == StateDeleteOnly
    requires forall i :: 0 <= i < |cols| ==> cols[i].state == StatePublic
    requires IdsBelow(cols, nextId) && CellsOwned(cells, handles, cols)
    ensures JobConsistent(Some(AddColumnJob(nextId)), cols', cells)
  {
    forall i | 0 <= i < |cols'| && i != idx ensures cols'[i].state == StatePublic && cols'[i].id != nextId {
      if i < idx { assert cols'[i] == cols[i]; } else { assert cols'[i].id == cols[i - 1].id && cols'[i].state == cols[i - 1].state; }
    }
    forall k | k in cells ensures k.column != nextId {
      var i :| 0 <= i < |cols| && cols[i].id == k.column;
    }
    assert cols'[idx].id == nextId;
  }

  /**
   * Moving the job's hidden column to another hidden state on its path
   * keeps the invariant and changes nothing readers see.
   */
  lemma HiddenStepKeeps(cols: seq<Column>, handles: seq<int>, cells: map<CellKey, int>, job: Option<Job>,
                        nextHandle: int, nextId: nat, k: nat, s: SchemaState)
    requires Consistent(cols, handles, cells, job, nextHandle, nextId)
    requires k < |cols| && cols[k].state != StatePublic && s != StatePublic
    requires job.Some? && JobColumnOk(job.value, cols[k].(state := s), cells)
    ensures Consistent(cols[k := cols[k].(state := s)], handles, cells, job, nextHandle, nextId)
    ensures Ids(Visible(cols[k := cols[k].(state := s)])) == Ids(Visible(cols))
  {
    var cols' := cols[k := cols[k].(state := s)];
    StateChangeKeepsShape(cols, k, s, nextId);
    HiddenSwapVisible(cols, k, s);
    assert JobConsistent(job, cols', cells) by {
      forall i | 0 <= i < |cols'| && cols'[i].state != StatePublic ensures cols'[i].id == job.value.columnId {
        assert cols[i].state != StatePublic;
      }
      forall i | 0 <= i < |cols'| && cols'[i].id == job.value.columnId ensures JobColumnOk(job.value, cols'[i], cells) {
        assert i == k;
      }
    }
  }

  /** Moving a hidden column to another hidden state leaves the visible ids as they were. */
  lemma HiddenSwapVisible(cols: seq<Column>, k: nat, s: SchemaState)
    requires k < |cols| && cols[k].state != StatePublic && s != StatePublic
    ensures Ids(Visible(cols[k := cols[k].(state := s)])) == Ids(Visible(cols))
  {
    var cols' := cols[k := cols[k].(state := s)];
    VisibleIdsSplit(cols, k);
    VisibleIdsSplit(cols', k);
    assert cols'[..k] == cols[..k] && cols'[k + 1..] == cols[k + 1..];
    VisibleSingle(cols[k]);
    VisibleSingle(cols'[k]);
  }

  /** after is before with v inserted at position k. */
  predicate ValueInsertedAt(before: seq<int>, k: nat, v: int, after: seq<int>)
  {
    |after| == |before| + 1 && k < |after| && after[k] == v &&
    (forall i :: 0 <= i < k ==> after[i] == before[i]) &&
    (forall i :: k < i < |after| ==> after[i] == before[i - 1])
  }

  /** after is before without its value at position k. */
  predicate ValueRemovedAt(before: seq<int>, k: nat, after: seq<int>)
  {
    |before| == |after| + 1 && k < |before| &&
    (forall i :: 0 <= i < k ==> after[i] == before[i]) &&
    (forall i :: k <= i < |after| ==> after[i] == before[i + 1])
  }

  /** Both row relations are splices of sequences. */
  lemma ValueSplices(before: seq<int>, k: nat, v: int, after: seq<int>)
    ensures ValueInsertedAt(before, k, v, after) <==> k <= |before| && after == before[..k] + [v] + before[k..]
    ensures ValueRemovedAt(before, k, after) <==> k < |before| && after == before[..k] + before[k + 1..]
  {
    if k <= |before| && after == before[..k] + [v] + before[k..] {
      assert ValueInsertedAt(before, k, v, after);
    }
    if ValueInsertedAt(before, k, v, after) {
      assert after == before[..k] + [v] + before[k..];
    }
    if k < |before| && after == before[..k] + before[k + 1..] {
      assert ValueRemovedAt(before, k, after);
    }
    if ValueRemovedAt(before, k, after) {
      assert after == before[..k] + before[k + 1..];
    }
  }

  /** cols' is cols without the column at k, the later offsets renumbered. */
  predicate RemovedAt(cols: seq<Column>, k: nat, cols': seq<Column>)
  {
    k < |cols| && |cols'| == |cols| - 1 &&
    (forall i :: 0 <= i < k ==> cols'[i] == cols[i]) &&
    (forall i :: k <= i < |cols'| ==> cols'[i] == cols[i + 1].(offset := i))
  }

  /**
   * When every column but the one at k is public, readers see the ids of
   * all columns before k, the column at k only when it is public, then the
   * ids of all columns after k.
   */
  lemma VisibleIdsAround(cols: seq<Column>, k: nat)
    requires k < |cols|
    requires forall i :: 0 <= i < |cols| && i != k ==> cols[i].state == StatePublic
    ensures cols[k].state == StatePublic ==> Ids(Visible(cols)) == Ids(cols[..k]) + [cols[k].id] + Ids(cols[k + 1..])
    ensures cols[k].state != StatePublic ==> Ids(Visible(cols)) == Ids(cols[..k]) + Ids(cols[k + 1..])
  {
    var a, c := cols[..k], cols[k + 1..];
    VisibleIdsSplit(cols, k);
    VisibleAllPublic(a);
    VisibleAllPublic(c);
    VisibleSingle(cols[k]);
    var mid := Ids(Visible([cols[k]]));
    if cols[k].state == StatePublic {
      assert mid == [cols[k].id];
    } else {
      assert mid == [];
      assert Ids(a) + mid == Ids(a);
    }
  }

  /** The ids of a list split around position k. */
  lemma IdsAround(cols: seq<Column>, k: nat)
    requires k < |cols|
    ensures Ids(cols) == Ids(cols[..k]) + [cols[k].id] + Ids(cols[k + 1..])
  {
    assert cols == cols[..k] + [cols[k]] + cols[k + 1..];
    IdsConcat(cols[..k] + [cols[k]], cols[k + 1..]);
    IdsConcat(cols[..k], [cols[k]]);
  }

  /**
   * The last step of ADD COLUMN: once every row has a cell for the
   * column, holding its default value where none was stored, the column
   * can be made public and the job ends, keeping the invariant.
   */
  lemma PublishKeeps(cols: seq<Column>, handles: seq<int>, cells: map<CellKey, int>, nextHandle: int, nextId: nat,
                     k: nat, cells': map<CellKey, int>)
    requires k < |cols| && Consistent(cols, handles, cells, Some(AddColumnJob(cols[k].id)), nextHandle, nextId)
    requires forall key :: key in cells' <==> key in cells || (key.column == cols[k].id && key.handle in handles)
    requires forall key :: key in cells' ==> cells'[key] == if key in cells then cells[key] else cols[k].defaultValue
    ensures Consistent(cols[k := cols[k].(state := StatePublic)], handles, cells', None, nextHandle, nextId)
  {
    var cols' := cols[k := cols[k].(state := StatePublic)];
    StateChangeKeepsShape(cols, k, StatePublic, nextId);
    PublishComplete(cols, handles, cells, k, cells');
    PublishOwned(cells, handles, cols, k, cells');
    assert forall i :: 0 <= i < |cols| && i != k ==> cols[i].state == StatePublic;
    PublishEndsJob(cols, k, cells');
  }

  /** The backfill only adds cells of the column at k for existing rows. */
  lemma PublishOwned(cells: map<CellKey, int>, handles: seq<int>, cols: seq<Column>, k: nat, cells': map<CellKey, int>)
    requires k < |cols| && CellsOwned(cells, handles, cols)
    requires forall key :: key in cells' <==> key in cells || (key.column == cols[k].id && key.handle in handles)
    ensures CellsOwned(cells', handles, cols)
  {
    assert cols[k].id in Ids(cols);
  }

  /** Once the column at k is public too, no column needs a job. */
  lemma PublishEndsJob(cols: seq<Column>, k: nat, cells: map<CellKey, int>)
    requires k < |cols| && forall i :: 0 <= i < |cols| && i != k ==> cols[i].state == StatePublic
    ensures JobConsistent(None, cols[k := cols[k].(state := StatePublic)], cells)
  {
  }

  /** Changing one column's state keeps the ids, the offsets and what the invariant says of them. */
  lemma StateChangeKeepsShape(cols: seq<Column>, k: nat, s: SchemaState, nextId: nat)
    requires k < |cols| && OffsetsMatch(cols) && IdsDistinct(cols) && IdsBelow(cols, nextId)
    ensures Ids(cols[k := cols[k].(state := s)]) == Ids(cols)
    ensures OffsetsMatch(cols[k := cols[k].(state := s)])
    ensures IdsDistinct(cols[k := cols[k].(state := s)]) && IdsBelow(cols[k := cols[k].(state := s)], nextId)
  {
    var cols' := cols[k := cols[k].(state := s)];
    assert forall i :: 0 <= i < |cols| ==> cols'[i].id == cols[i].id && cols'[i].offset == cols[i].offset;
  }

  /** After the backfill, every row has a cell for every column of the published list. */
  lemma PublishComplete(cols: seq<Column>, handles: seq<int>, cells: map<CellKey, int>, k: nat, cells': map<CellKey, int>)
    requires k < |cols| && forall i :: 0 <= i < |cols| && i != k ==> cols[i].state == StatePublic
    requires Complete(cells, handles, Ids(Visible(cols)))
    requires forall key :: key in cells' <==> key in cells || (key.column == cols[k].id && key.handle in handles)
    ensures Visible(cols[k := cols[k].(state := StatePublic)]) == cols[k := cols[k].(state := StatePublic)]
    ensures Complete(cells', handles, Ids(cols))
  {
    var cols' := cols[k := cols[k].(state := StatePublic)];
    VisibleAllPublic(cols');
    IdsOutsideVisible(cols, k);
  }

  /** When every column but the one at k is public, every other column's id is visible. */
  lemma IdsOutsideVisible(cols: seq<Column>, k: nat)
    requires k < |cols|
    requires forall i :: 0 <= i < |cols| && i != k ==> cols[i].state == StatePublic
    ensures forall x :: x in Ids(cols) && x != cols[k].id ==> x in Ids(Visible(cols))
  {
    VisibleIdsAround(cols, k);
    IdsAround(cols, k);
  }

  /** Reading a row through one more column id puts that column's value at its position. */
  lemma RowWithId(cells: map<CellKey, int>, cells': map<CellKey, int>, h: int, a: seq<nat>, x: nat, b: seq<nat>)
    requires forall y :: y in a + b ==> CellKey(h, y) in cells
    requires forall key :: key in cells ==> key in cells' && cells'[key] == cells[key]
    requires CellKey(h, x) in cells'
    ensures forall y :: y in a + [x] + b ==> CellKey(h, y) in cells'
    ensures ValueInsertedAt(RowOf(cells, h, a + b), |a|, cells'[CellKey(h, x)], RowOf(cells', h, a + [x] + b))
  {
    var before, after := RowOf(cells, h, a + b), RowOf(cells', h, a + [x] + b);
    forall i | |a| < i < |after| ensures after[i] == before[i - 1] {
      assert (a + [x] + b)[i] == (a + b)[i - 1];
    }
  }

  /**
   * Once an added column is public, every row reads its old values with
   * the column's default value at the column's position.
   */
  lemma PublishRows(cols: seq<Column>, cells: map<CellKey, int>, k: nat, cells': map<CellKey, int>, h: int)
    requires k < |cols| && cols[k].state != StatePublic
    requires forall i :: 0 <= i < |cols| && i != k ==> cols[i].state == StatePublic
    requires forall x :: x in Ids(Visible(cols)) ==> CellKey(h, x) in cells
    requires forall x :: x in Ids(Visible(cols[k := cols[k].(state := StatePublic)])) ==> CellKey(h, x) in cells'
    requires forall key :: key in cells ==> key in cells' && cells'[key] == cells[key]
    requires CellKey(h, cols[k].id) in cells' && cells'[CellKey(h, cols[k].id)] == cols[k].defaultValue
    ensures ValueInsertedAt(RowOf(cells, h, Ids(Visible(cols))), k, cols[k].defaultValue,
                            RowOf(cells', h, Ids(Visible(cols[k := cols[k].(state := StatePublic)]))))
  {
    var cols' := cols[k := cols[k].(state := StatePublic)];
    VisibleIdsAround(cols, k);
    VisibleIdsAround(cols', k);
    assert cols'[..k] == cols[..k] && cols'[k + 1..] == cols[k + 1..];
    RowWithId(cells, cells', h, Ids(cols[..k]), cols[k].id, Ids(cols[k + 1..]));
  }

  /**
   * The first step of DROP COLUMN: the public column at k goes to
   * WriteOnly, which keeps the invariant.
   */
  lemma HideKeeps(cols: seq<Column>, handles: seq<int>, cells: map<CellKey, int>, nextHandle: int, nextId: nat, k: nat)
    requires k < |cols| && cols[k].state == StatePublic
    requires Consistent(cols, handles, cells, Some(DropColumnJob(cols[k].id)), nextHandle, nextId)
    ensures Consistent(cols[k := cols[k].(state := StateWriteOnly)], handles, cells, Some(DropColumnJob(cols[k].id)), nextHandle, nextId)
  {
    var cols' := cols[k := cols[k].(state := StateWriteOnly)];
    StateChangeKeepsShape(cols, k, StateWriteOnly, nextId);
    assert forall i :: 0 <= i < |cols| && i != k ==> cols[i].state == StatePublic;
    HideVisibleSubset(cols, k);
    assert JobConsistent(Some(DropColumnJob(cols[k].id)), cols', cells) by {
      forall i | 0 <= i < |cols'| && cols'[i].id == cols[k].id
        ensures JobColumnOk(DropColumnJob(cols[k].id), cols'[i], cells)
      {
        assert i == k;
      }
    }
  }

  /** Hiding the public column at k of an otherwise public list only removes visible ids. */
  lemma HideVisibleSubset(cols: seq<Column>, k: nat)
    requires k < |cols| && forall i :: 0 <= i < |cols| && i != k ==> cols[i].state == StatePublic
    ensures forall x :: x in Ids(Visible(cols[k := cols[k].(state := StateWriteOnly)])) ==> x in Ids(Visible(cols))
  {
    var cols' := cols[k := cols[k].(state := StateWriteOnly)];
    VisibleIdsAround(cols, k);
    VisibleIdsAround(cols', k);
    assert cols'[..k] == cols[..k] && cols'[k + 1..] == cols[k + 1..];
  }

  /** Once a dropped column leaves Public, every row reads without the column's value. */
  lemma HideRows(cols: seq<Column>, cells: map<CellKey, int>, k: nat, h: int)
    requires k < |cols| && cols[k].state == StatePublic
    requires forall i :: 0 <= i < |cols| ==> cols[i].state == StatePublic
    requires forall x :: x in Ids(Visible(cols)) ==> CellKey(h, x) in cells
    ensures forall x :: x in Ids(Visible(cols[k := cols[k].(state := StateWriteOnly)])) ==> CellKey(h, x) in cells
    ensures ValueRemovedAt(RowOf(cells, h, Ids(Visible(cols))), k,
                           RowOf(cells, h, Ids(Visible(cols[k := cols[k].(state := StateWriteOnly)]))))
  {
    var cols' := cols[k := cols[k].(state := StateWriteOnly)];
    VisibleIdsAround(cols, k);
    VisibleIdsAround(cols', k);
    assert cols'[..k] == cols[..k] && cols'[k + 1..] == cols[k + 1..];
    RowWithId(cells, cells, h, Ids(cols[..k]), cols[k].id, Ids(cols[k + 1..]));
  }

  /** Removing the hidden column at k from an otherwise public list leaves a well-formed public list. */
  lemma RemovedAtShape(cols: seq<Column>, k: nat, cols': seq<Column>, nextId: nat)
    requires RemovedAt(cols, k, cols') && OffsetsMatch(cols) && IdsDistinct(cols) && IdsBelow(cols, nextId)
    requires forall i :: 0 <= i < |cols| && i != k ==> cols[i].state == StatePublic
    ensures forall i :: 0 <= i < |cols'| ==> cols'[i].state == StatePublic && cols'[i].id != cols[k].id
    ensures Ids(cols') == Ids(cols[..k]) + Ids(cols[k + 1..])
    ensures OffsetsMatch(cols') && IdsDistinct(cols') && IdsBelow(cols', nextId)
  {
    forall i | 0 <= i < |cols'| ensures cols'[i].state == StatePublic && cols'[i].id != cols[k].id {
      if i < k { assert cols'[i] == cols[i]; } else { assert cols'[i].id == cols[i + 1].id && cols'[i].state == cols[i + 1].state; }
    }
    IdsConcat(cols[..k], cols[k + 1..]);
    var rest := cols[..k] + cols[k + 1..];
    forall i | 0 <= i < |cols'| ensures cols'[i].id == rest[i].id {
      if i < k { assert rest[i] == cols[i]; } else { assert rest[i] == cols[i + 1]; }
    }
    assert IdsDistinct(cols') by {
      forall i, j | 0 <= i < j < |cols'| ensures cols'[i].id != cols'[j].id {
        var a := if i < k then i else i + 1;
        var b := if j < k then j else j + 1;
        assert cols'[i].id == cols[a].id && cols'[j].id == cols[b].id;
      }
    }
    assert IdsBelow(cols', nextId) by {
      forall i | 0 <= i < |cols'| ensures cols'[i].id < nextId {
        var a := if i < k then i else i + 1;
        assert cols'[i].id == cols[a].id;
      }
    }
  }

  /** Removing the hidden column at k from an otherwise public list changes nothing readers see. */
  lemma RemovedVisible(cols: seq<Column>, k: nat, cols': seq<Column>)
    requires k < |cols| && cols[k].state != StatePublic
    requires forall i :: 0 <= i < |cols| && i != k ==> cols[i].state == StatePublic
    requires forall i :: 0 <= i < |cols'| ==> cols'[i].state == StatePublic && cols'[i].id != cols[k].id
    requires Ids(cols') == Ids(cols[..k]) + Ids(cols[k + 1..])
    ensures Ids(Visible(cols')) == Ids(Visible(cols))
    ensures cols[k].id !in Ids(Visible(cols'))
  {
    VisibleAllPublic(cols');
    VisibleIdsAround(cols, k);
  }

  /**
   * The last step of DROP COLUMN: with the column's cells deleted, the
   * column leaves the list, the later offsets are renumbered and the job
   * ends, keeping the invariant; readers see the same columns as before.
   */
  lemma RemoveColumnKeeps(cols: seq<Column>, handles: seq<int>, cells: map<CellKey, int>, nextHandle: int, nextId: nat,
                          k: nat, cells': map<CellKey, int>, cols': seq<Column>)
    requires k < |cols| && cols[k].state == StateDeleteReorganization
    requires Consistent(cols, handles, cells, Some(DropColumnJob(cols[k].id)), nextHandle, nextId)
    requires forall key :: key in cells' <==> key in cells && key.column != cols[k].id
    requires forall key :: key in cells' ==> cells'[key] == cells[key]
    requires RemovedAt(cols, k, cols')
    ensures Consistent(cols', handles, cells', None, nextHandle, nextId)
    ensures Ids(Visible(cols')) == Ids(Visible(cols))
    ensures forall i :: 0 <= i < |cols'| ==> cols'[i].id != cols[k].id
    ensures RowsOf(cells', handles, Ids(Visible(cols'))) == RowsOf(cells, handles, Ids(Visible(cols)))
  {
    assert forall i :: 0 <= i < |cols| && i != k ==> cols[i].state == StatePublic;
    RemovedAtShape(cols, k, cols', nextId);
    RemovedVisible(cols, k, cols');
    RemovedCellsOwned(cells, handles, cols, k, cells', cols');
    RemovedCellsComplete(cells, handles, Ids(Visible(cols)), cols[k].id, cells');
    assert JobConsistent(None, cols', cells');
    RowsAgree(cells', cells, handles, Ids(Visible(cols)));
  }

  /** With the column at k and its cells gone, every cell left belongs to a remaining column. */
  lemma RemovedCellsOwned(cells: map<CellKey, int>, handles: seq<int>, cols: seq<Column>, k: nat,
                          cells': map<CellKey, int>, cols': seq<Column>)
    requires k < |cols| && CellsOwned(cells, handles, cols)
    requires forall key :: key in cells' <==> key in cells && key.column != cols[k].id
    requires Ids(cols') == Ids(cols[..k]) + Ids(cols[k + 1..])
    ensures CellsOwned(cells', handles, cols')
  {
    IdsAround(cols, k);
  }

  /** Deleting the cells of a column nobody reads keeps every read cell. */
  lemma RemovedCellsComplete(cells: map<CellKey, int>, handles: seq<int>, ids: seq<nat>, id: nat, cells': map<CellKey, int>)
    requires Complete(cells, handles, ids) && id !in ids
    requires forall key :: key in cells' <==> key in cells && key.column != id
    ensures Complete(cells', handles, ids)
  {
  }
}
