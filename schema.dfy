/**
 * The catalog side of online schema change: columns with their schema
 * states, indices, the stored cells of a table's rows, and the pure
 * functions the table's operations are specified by.
 */
module Schema {
  import opened Wrappers
  import opened Text

  /** The visibility and write obligation stage of one column. */
  datatype SchemaState =
    | StateNone
    | StateDeleteOnly
    | StateWriteOnly
    | StateWriteReorganization
    | StateDeleteReorganization
    | StatePublic

  /** Inserts store a value for a column in these states. */
  predicate Writable(s: SchemaState)
  {
    s == StateWriteOnly || s == StateWriteReorganization || s == StatePublic
  }

  /** The states an added column passes through before it is public. */
  predicate OnAddPath(s: SchemaState)
  {
    s == StateDeleteOnly || s == StateWriteOnly || s == StateWriteReorganization
  }

  /** The states a dropped column passes through before it leaves the catalog. */
  predicate OnDropPath(s: SchemaState)
  {
    s == StatePublic || s == StateWriteOnly || s == StateDeleteOnly || s == StateDeleteReorganization
  }

  /** The next state of a column being added. */
  function NextAddState(s: SchemaState): (r: SchemaState)
    requires OnAddPath(s)
    ensures r == StatePublic || OnAddPath(r)
    ensures Writable(s) ==> Writable(r)
  {
    match s
    case StateDeleteOnly => StateWriteOnly
    case StateWriteOnly => StateWriteReorganization
    case StateWriteReorganization => StatePublic
  }

  /** The next state of a column being dropped. */
  function NextDropState(s: SchemaState): (r: SchemaState)
    requires OnDropPath(s)
    ensures r == StateNone || OnDropPath(r)
    ensures Writable(r) ==> Writable(s)
  {
    match s
    case StatePublic => StateWriteOnly
    case StateWriteOnly => StateDeleteOnly
    case StateDeleteOnly => StateDeleteReorganization
    case StateDeleteReorganization => StateNone
  }

  /**
   * The add path visits DeleteOnly, WriteOnly and WriteReorganization, in
   * that order, before Public; the drop path leaves Public through
   * WriteOnly, DeleteOnly and DeleteReorganization, in that order, before
   * it ends in None.
   */
  lemma StatePaths()
    ensures NextAddState(StateDeleteOnly) == StateWriteOnly
    ensures NextAddState(NextAddState(StateDeleteOnly)) == StateWriteReorganization
    ensures NextAddState(NextAddState(NextAddState(StateDeleteOnly))) == StatePublic
    ensures NextDropState(StatePublic) == StateWriteOnly
    ensures NextDropState(NextDropState(StatePublic)) == StateDeleteOnly
    ensures NextDropState(NextDropState(NextDropState(StatePublic))) == StateDeleteReorganization
    ensures NextDropState(NextDropState(NextDropState(NextDropState(StatePublic)))) == StateNone
  {
  }

  datatype Column = Column(id: nat, name: string, offset: nat, state: SchemaState, defaultValue: int)

  /** An index: its name and the names of the columns it covers. */
  datatype Index = Index(name: string, columns: seq<string>)

  /** Where ADD COLUMN puts the new column: at the end, first, or after a named column. */
  datatype Position = PositionNone | PositionFirst | PositionAfter(relative: string)

  datatype DdlError =
    | ErrColumnExists            // ADD COLUMN with a name already in the table
    | ErrColumnNotExists         // DROP COLUMN, AFTER or an index naming a missing column
    | ErrCantRemoveAllColumns    // DROP COLUMN on the table's only column
    | ErrCantDropIndexedColumn   // DROP COLUMN on a column an index covers
    | ErrIndexExists             // CREATE INDEX with a name already in the table
    | ErrIndexNotExists          // DROP INDEX with a name not in the table

  /** The stored value of one column of one row. */
  datatype CellKey = CellKey(handle: int, column: nat)

  /** The one structural change in flight on a table, by the id of its column. */
  datatype Job = AddColumnJob(columnId: nat) | DropColumnJob(columnId: nat)

  // ------------------------------------------------------------ columns

  function Ids(cols: seq<Column>): (r: seq<nat>)
    ensures |r| == |cols| && forall i :: 0 <= i < |cols| ==> r[i] == cols[i].id
  {
    seq(|cols|, i requires 0 <= i < |cols| => cols[i].id)
  }

  lemma IdsConcat(a: seq<Column>, b: seq<Column>)
    ensures Ids(a + b) == Ids(a) + Ids(b)
  {
    assert forall i :: 0 <= i < |a + b| ==> Ids(a + b)[i] == (Ids(a) + Ids(b))[i];
  }

  predicate OffsetsMatch(cols: seq<Column>)
  {
    forall i :: 0 <= i < |cols| ==> cols[i].offset == i
  }

  predicate IdsDistinct(cols: seq<Column>)
  {
    forall i, j :: 0 <= i < j < |cols| ==> cols[i].id != cols[j].id
  }

  /** The columns readers and writers see: the public ones, in order. */
  function Visible(cols: seq<Column>): (r: seq<Column>)
    ensures |r| <= |cols|
  {
    if cols == [] then []
    else
      var last := cols[|cols| - 1];
      Visible(cols[..|cols| - 1]) + (if last.state == StatePublic then [last] else [])
  }

  /** Readers see only public columns of the table. */
  lemma {:induction false} VisibleMembers(cols: seq<Column>)
    ensures forall c :: c in Visible(cols) ==> c in cols && c.state == StatePublic
  {
    if cols != [] {
      VisibleMembers(cols[..|cols| - 1]);
    }
  }

  lemma {:induction false} VisibleConcat(a: seq<Column>, b: seq<Column>)
    ensures Visible(a + b) == Visible(a) + Visible(b)
    decreases |b|
  {
    if b == [] {
      assert a + b == a;
    } else {
      var n := |b| - 1;
      assert (a + b)[..|a + b| - 1] == a + b[..n];
      VisibleConcat(a, b[..n]);
    }
  }

  lemma VisibleSingle(c: Column)
    ensures Visible([c]) == if c.state == StatePublic then [c] else []
  {
    assert [c][..0] == [];
  }

  /** When every column is public, readers see every column. */
  lemma {:induction false} VisibleAllPublic(cols: seq<Column>)
    requires forall i :: 0 <= i < |cols| ==> cols[i].state == StatePublic
    ensures Visible(cols) == cols
  {
    if cols != [] {
      VisibleAllPublic(cols[..|cols| - 1]);
    }
  }

  /** Columns that differ only in their offsets show readers the same column ids. */
  lemma {:induction false} VisibleIdsIgnoreOffsets(a: seq<Column>, b: seq<Column>)
    requires |a| == |b|
    requires forall i :: 0 <= i < |a| ==> a[i].id == b[i].id && a[i].state == b[i].state
    ensures Ids(Visible(a)) == Ids(Visible(b))
  {
    if a != [] {
      VisibleIdsIgnoreOffsets(a[..|a| - 1], b[..|b| - 1]);
      var n := |a| - 1;
      IdsConcat(Visible(a[..n]), if a[n].state == StatePublic then [a[n]] else []);
      IdsConcat(Visible(b[..n]), if b[n].state == StatePublic then [b[n]] else []);
    }
  }

  /**
   * The visible column ids of a list split around position k: those
   * before it, the column at k when it is public, and those after it.
   */
  lemma VisibleIdsSplit(cols: seq<Column>, k: nat)
    requires k < |cols|
    ensures Ids(Visible(cols)) ==
      Ids(Visible(cols[..k])) + Ids(Visible([cols[k]])) + Ids(Visible(cols[k + 1..]))
  {
    VisibleSplit(cols, k);
    var va, vb, vc := Visible(cols[..k]), Visible([cols[k]]), Visible(cols[k + 1..]);
    IdsConcat(va + vb, vc);
    IdsConcat(va, vb);
  }

  /** A sequence is its part before k, its element at k and its part after k. */
  lemma SplitAround<T>(s: seq<T>, k: nat)
    requires k < |s|
    ensures s == (s[..k] + [s[k]]) + s[k + 1..]
  {
  }

  lemma VisibleSplit(cols: seq<Column>, k: nat)
    requires k < |cols|
    ensures Visible(cols) == Visible(cols[..k]) + Visible([cols[k]]) + Visible(cols[k + 1..])
  {
    var a, b, c := cols[..k], [cols[k]], cols[k + 1..];
    SplitAround(cols, k);
    VisibleConcat(a + b, c);
    VisibleConcat(a, b);
  }

  /**
   * The index of the first column whose lower-case name is name, or None
   * when no column has it.
   */
  function FindColumn(cols: seq<Column>, name: string): (r: Option<nat>)
    ensures r.Some? ==> r.value < |cols| && Lower(cols[r.value].name) == name
    ensures r.Some? ==> forall j :: 0 <= j < r.value ==> Lower(cols[j].name) != name
    ensures r.None? <==> forall j :: 0 <= j < |cols| ==> Lower(cols[j].name) != name
  {
    if cols == [] then None
    else if Lower(cols[0].name) == name then Some(0)
    else
      match FindColumn(cols[1..], name)
      case None => None
      case Some(i) => Some(i + 1)
  }

  /**
   * Validation of ADD COLUMN and the list index the new column takes: an
   * existing name is refused, and so is AFTER a column that is not there;
   * otherwise the column goes first, right after the named column, or at
   * the end.
   */
  function CheckAddColumn(cols: seq<Column>, name: string, pos: Position): (r: Result<nat, DdlError>)
    ensures r == Err(ErrColumnExists) <==> FindColumn(cols, Lower(name)).Some?
    ensures r == Err(ErrColumnNotExists) <==>
      FindColumn(cols, Lower(name)).None? && pos.PositionAfter? && FindColumn(cols, Lower(pos.relative)).None?
    ensures r.Ok? ==> r.value <= |cols|
    ensures r.Ok? && pos.PositionNone? ==> r.value == |cols|
    ensures r.Ok? && pos.PositionFirst? ==> r.value == 0
    ensures r.Ok? && pos.PositionAfter? ==>
      0 < r.value && Lower(cols[r.value - 1].name) == Lower(pos.relative)
  {
    if FindColumn(cols, Lower(name)).Some? then Err(ErrColumnExists)
    else
      match pos
      case PositionNone => Ok(|cols|)
      case PositionFirst => Ok(0)
      case PositionAfter(rel) =>
        match FindColumn(cols, Lower(rel))
        case None => Err(ErrColumnNotExists)
        case Some(i) => Ok(i + 1)
  }

  // ------------------------------------------------------------ indices

  /** Whether some index covers the column with the lower-case name name. */
  predicate Covered(indices: seq<Index>, name: string)
  {
    exists i, j :: 0 <= i < |indices| && 0 <= j < |indices[i].columns| && Lower(indices[i].columns[j]) == name
  }

  /**
   * Validation of DROP COLUMN and the list index of the column to drop: a
   * missing column, the table's only column and a column an index covers
   * are refused, in that order.
   */
  function CheckDropColumn(cols: seq<Column>, indices: seq<Index>, name: string): (r: Result<nat, DdlError>)
    ensures r == Err(ErrColumnNotExists) <==> FindColumn(cols, Lower(name)).None?
    ensures r == Err(ErrCantRemoveAllColumns) <==> FindColumn(cols, Lower(name)).Some? && |cols| == 1
    ensures r == Err(ErrCantDropIndexedColumn) <==>
      FindColumn(cols, Lower(name)).Some? && |cols| != 1 && Covered(indices, Lower(name))
    ensures r.Ok? ==> r == Ok(FindColumn(cols, Lower(name)).value)
  {
    match FindColumn(cols, Lower(name))
    case None => Err(ErrColumnNotExists)
    case Some(i) =>
      if |cols| == 1 then Err(ErrCantRemoveAllColumns)
      else if Covered(indices, Lower(name)) then Err(ErrCantDropIndexedColumn)
      else Ok(i)
  }

  /** The index position of the index with the given lower-case name, if any. */
  function FindIndex(indices: seq<Index>, name: string): (r: Option<nat>)
    ensures r.Some? ==> r.value < |indices| && Lower(indices[r.value].name) == name
    ensures r.None? <==> forall j :: 0 <= j < |indices| ==> Lower(indices[j].name) != name
  {
    if indices == [] then None
    else if Lower(indices[0].name) == name then Some(0)
    else
      match FindIndex(indices[1..], name)
      case None => None
      case Some(i) => Some(i + 1)
  }

  /**
   * Validation of CREATE INDEX: a name already used by an index is refused,
   * and so is a covered column that is not a public column of the table.
   */
  function CheckCreateIndex(cols: seq<Column>, indices: seq<Index>, name: string, columns: seq<string>): (r: Option<DdlError>)
    ensures r == Some(ErrIndexExists) <==> FindIndex(indices, Lower(name)).Some?
    ensures r == Some(ErrColumnNotExists) <==>
      FindIndex(indices, Lower(name)).None? &&
      exists j :: 0 <= j < |columns| && FindColumn(Visible(cols), Lower(columns[j])).None?
    ensures r.None? <==>
      FindIndex(indices, Lower(name)).None? &&
      forall j :: 0 <= j < |columns| ==> FindColumn(Visible(cols), Lower(columns[j])).Some?
  {
    if FindIndex(indices, Lower(name)).Some? then Some(ErrIndexExists)
    else if exists j :: 0 <= j < |columns| && FindColumn(Visible(cols), Lower(columns[j])).None? then Some(ErrColumnNotExists)
    else None
  }

  /** The indices without the one at position k. */
  function RemoveIndexAt(indices: seq<Index>, k: nat): (r: seq<Index>)
    requires k < |indices|
    ensures |r| == |indices| - 1
    ensures forall i :: 0 <= i < |r| ==> r[i] == if i < k then indices[i] else indices[i + 1]
  {
    indices[..k] + indices[k + 1..]
  }

  /**
   * A column an index covers cannot be dropped; once the only index that
   * covers it is dropped, the same DROP COLUMN is accepted.
   */
  lemma DropAllowedAfterIndexDropped(indices: seq<Index>, k: nat, cols: seq<Column>, name: string)
    requires k < |indices|
    requires FindColumn(cols, Lower(name)).Some? && |cols| > 1
    requires forall i, j :: 0 <= i < |indices| && i != k && 0 <= j < |indices[i].columns| ==> Lower(indices[i].columns[j]) != Lower(name)
    ensures Covered(indices, Lower(name)) ==> CheckDropColumn(cols, indices, name) == Err(ErrCantDropIndexedColumn)
    ensures CheckDropColumn(cols, RemoveIndexAt(indices, k), name).Ok?
  {
  }

  // ------------------------------------------------------------ rows

  /** Every listed row has a stored value for every listed column. */
  predicate Complete(cells: map<CellKey, int>, handles: seq<int>, ids: seq<nat>)
  {
    forall h, x :: h in handles && x in ids ==> CellKey(h, x) in cells
  }

  /** The values of row h for the columns ids, in order. */
  function RowOf(cells: map<CellKey, int>, h: int, ids: seq<nat>): (r: seq<int>)
    requires forall x :: x in ids ==> CellKey(h, x) in cells
    ensures |r| == |ids| && forall i :: 0 <= i < |ids| ==> r[i] == cells[CellKey(h, ids[i])]
  {
    seq(|ids|, i requires 0 <= i < |ids| => cells[CellKey(h, ids[i])])
  }

  /** The rows handles, in order, as read through the columns ids. */
  function RowsOf(cells: map<CellKey, int>, handles: seq<int>, ids: seq<nat>): (r: seq<seq<int>>)
    requires Complete(cells, handles, ids)
    ensures |r| == |handles| && forall i :: 0 <= i < |handles| ==> r[i] == RowOf(cells, handles[i], ids)
  {
    seq(|handles|, i requires 0 <= i < |handles| => RowOf(cells, handles[i], ids))
  }

  /** Rows read the same from two stores that agree on the cells read. */
  lemma RowsAgree(cells: map<CellKey, int>, cells': map<CellKey, int>, handles: seq<int>, ids: seq<nat>)
    requires Complete(cells, handles, ids) && Complete(cells', handles, ids)
    requires forall h, x :: h in handles && x in ids ==> cells[CellKey(h, x)] == cells'[CellKey(h, x)]
    ensures RowsOf(cells, handles, ids) == RowsOf(cells', handles, ids)
  {
    forall i | 0 <= i < |handles| ensures RowOf(cells, handles[i], ids) == RowOf(cells', handles[i], ids) {
      assert handles[i] in handles;
    }
  }

  /**
   * The cells an insert of row h with the visible values r stores: r's
   * values for the public columns, in order, and the default value for a
   * column in WriteOnly or WriteReorganization; nothing for the others.
   */
  function Writes(cols: seq<Column>, h: int, r: seq<int>): map<CellKey, int>
    requires |r| == |Visible(cols)|
  {
    if cols == [] then map[]
    else
      var n := |cols| - 1;
      var c := cols[n];
      if c.state == StatePublic then Writes(cols[..n], h, r[..|r| - 1])[CellKey(h, c.id) := r[|r| - 1]]
      else if Writable(c.state) then Writes(cols[..n], h, r)[CellKey(h, c.id) := c.defaultValue]
      else Writes(cols[..n], h, r)
  }

  /** An insert writes only cells of its own row and of the table's columns. */
  lemma {:induction false} WritesKeys(cols: seq<Column>, h: int, r: seq<int>)
    requires |r| == |Visible(cols)|
    ensures forall k :: k in Writes(cols, h, r) ==> k.handle == h && k.column in Ids(cols)
  {
    if cols != [] {
      var n := |cols| - 1;
      var r' := if cols[n].state == StatePublic then r[..|r| - 1] else r;
      WritesKeys(cols[..n], h, r');
      assert forall x :: x in Ids(cols[..n]) ==> x in Ids(cols);
    }
  }

  /** With distinct ids, the last column's id is not among the visible ids of the columns before it. */
  lemma LastIdNotVisibleBefore(cols: seq<Column>)
    requires cols != [] && IdsDistinct(cols)
    ensures cols[|cols| - 1].id !in Ids(Visible(cols[..|cols| - 1]))
  {
    var n := |cols| - 1;
    var pre := cols[..n];
    var ids := Ids(Visible(pre));
    VisibleMembers(pre);
    forall i | 0 <= i < |ids| ensures ids[i] != cols[n].id {
      assert Visible(pre)[i] in pre;
      var j :| 0 <= j < n && pre[j] == Visible(pre)[i];
    }
  }

  /** Reading back an inserted row through the public columns gives the inserted values. */
  lemma {:induction false} WritesRoundTrip(cols: seq<Column>, h: int, r: seq<int>)
    requires |r| == |Visible(cols)| && IdsDistinct(cols)
    ensures forall x :: x in Ids(Visible(cols)) ==> CellKey(h, x) in Writes(cols, h, r)
    ensures RowOf(Writes(cols, h, r), h, Ids(Visible(cols))) == r
  {
    if cols != [] {
      var n := |cols| - 1;
      var c := cols[n];
      var pre := cols[..n];
      assert IdsDistinct(pre);
      var r' := if c.state == StatePublic then r[..|r| - 1] else r;
      WritesRoundTrip(pre, h, r');
      LastIdNotVisibleBefore(cols);
      IdsConcat(Visible(pre), if c.state == StatePublic then [c] else []);
    }
  }

  /**
   * An insert stores a cell for a column that is not public exactly when
   * the column is in WriteOnly or WriteReorganization, and that cell holds
   * the column's default value.
   */
  lemma {:induction false} WritesHidden(cols: seq<Column>, h: int, r: seq<int>, k: nat)
    requires |r| == |Visible(cols)| && IdsDistinct(cols)
    requires k < |cols| && cols[k].state != StatePublic
    ensures CellKey(h, cols[k].id) in Writes(cols, h, r) <==> Writable(cols[k].state)
    ensures CellKey(h, cols[k].id) in Writes(cols, h, r) ==> Writes(cols, h, r)[CellKey(h, cols[k].id)] == cols[k].defaultValue
  {
    var n := |cols| - 1;
    var pre := cols[..n];
    var r' := if cols[n].state == StatePublic then r[..|r| - 1] else r;
    if k < n {
      assert IdsDistinct(pre);
      assert pre[k] == cols[k];
      WritesHidden(pre, h, r', k);
    } else {
      WritesKeys(pre, h, r');
      assert cols[k].id !in Ids(pre);
    }
  }

  // ------------------------------------------------------------ table invariant

  predicate IdsBelow(cols: seq<Column>, next: nat)
  {
    forall i :: 0 <= i < |cols| ==> cols[i].id < next
  }

  /** Row handles are listed in increasing order, all below the next handle to allocate. */
  predicate HandlesOrdered(handles: seq<int>, next: int)
  {
    Increasing(handles) && forall i :: 0 <= i < |handles| ==> handles[i] < next
  }

  /** Every cell of before is still stored in after, with the same value. */
  predicate CellsKept(before: map<CellKey, int>, after: map<CellKey, int>)
  {
    forall key :: key in before ==> key in after && after[key] == before[key]
  }

  /** Every stored cell belongs to a listed row and a column of the table. */
  predicate CellsOwned(cells: map<CellKey, int>, handles: seq<int>, cols: seq<Column>)
  {
    forall k :: k in cells ==> k.handle in handles && k.column in Ids(cols)
  }

  /** What a running job says about its column. */
  predicate JobColumnOk(j: Job, c: Column, cells: map<CellKey, int>)
  {
    match j
    case AddColumnJob(_) =>
      OnAddPath(c.state) && forall k :: k in cells && k.column == c.id ==> cells[k] == c.defaultValue
    case DropColumnJob(_) => OnDropPath(c.state)
  }

  /**
   * Only the running job's column may be non-public; it is in the table,
   * on its job's path, and while it is being added every cell stored for
   * it holds its default value.
   */
  predicate JobConsistent(job: Option<Job>, cols: seq<Column>, cells: map<CellKey, int>)
  {
    (forall i :: 0 <= i < |cols| && cols[i].state != StatePublic ==> job.Some? && cols[i].id == job.value.columnId) &&
    (job.Some? ==> job.value.columnId in Ids(cols)) &&
    (forall i :: 0 <= i < |cols| && job.Some? && cols[i].id == job.value.columnId ==> JobColumnOk(job.value, cols[i], cells))
  }

  /** The invariant of a table: its columns, rows, cells and running job agree. */
  predicate Consistent(cols: seq<Column>, handles: seq<int>, cells: map<CellKey, int>, job: Option<Job>, nextHandle: int, nextId: nat)
  {
    OffsetsMatch(cols) && IdsDistinct(cols) && IdsBelow(cols, nextId) &&
    HandlesOrdered(handles, nextHandle) &&
    CellsOwned(cells, handles, cols) &&
    Complete(cells, handles, Ids(Visible(cols))) &&
    JobConsistent(job, cols, cells)
  }

  /** The list position of the column with the given id. */
  function IndexOfId(cols: seq<Column>, id: nat): (k: nat)
    requires id in Ids(cols)
    ensures k < |cols| && cols[k].id == id
  {
    if cols[0].id == id then 0
    else
      assert Ids(cols[1..]) == Ids(cols)[1..];
      IndexOfId(cols[1..], id) + 1
  }

  /** handles without h. */
  function Without(handles: seq<int>, h: int): (r: seq<int>)
    ensures forall x :: x in r <==> x in handles && x != h
  {
    if handles == [] then []
    else if handles[0] == h then Without(handles[1..], h)
    else [handles[0]] + Without(handles[1..], h)
  }

  predicate Increasing(s: seq<int>)
  {
    forall i, j :: 0 <= i < j < |s| ==> s[i] < s[j]
  }

  /** Removing a handle keeps the others in increasing order. */
  lemma {:induction false} WithoutKeepsOrder(handles: seq<int>, h: int)
    requires Increasing(handles)
    ensures Increasing(Without(handles, h))
  {
    if handles != [] {
      WithoutKeepsOrder(handles[1..], h);
      var rest := Without(handles[1..], h);
      if handles[0] != h {
        assert forall j :: 0 <= j < |rest| ==> handles[0] < rest[j] by {
          forall j | 0 <= j < |rest| ensures handles[0] < rest[j] {
            assert rest[j] in handles[1..];
            var m :| 0 <= m < |handles[1..]| && handles[1..][m] == rest[j];
            assert handles[m + 1] == rest[j];
          }
        }
        var r := Without(handles, h);
        assert r == [handles[0]] + rest;
        forall i, j | 0 <= i < j < |r| ensures r[i] < r[j] {
          if i > 0 {
            assert r[i] == rest[i - 1] && r[j] == rest[j - 1];
          }
        }
      }
    }
  }
}
