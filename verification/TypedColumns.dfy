/**
 * The typed column stands for the plain map of `Collections.Column` (src/store.js, TypedRidColumn as
 * Collection uses it): each update, scan and install of the one is that of the other.
 */
module TypedColumns {
  import opened Wrappers
  import opened RidColumns
  import C = Collections

  /** The cells hold what the map holds, row by row. */
  ghost predicate Represents(cells: Cells, values: map<nat, Value>) {
    && CellsValid(cells)
    && forall rid {:trigger At(cells, rid)} :: At(cells, rid) == ColumnState(C.At(values, rid))
  }

  ghost predicate PendingRepresents(waiting: map<nat, State>, pending: map<nat, Option<Value>>) {
    waiting.Keys == pending.Keys && forall rid | rid in waiting :: waiting[rid] == ColumnState(pending[rid])
  }

  /** The typed column is in the state the plain one describes. */
  ghost predicate Refines(column: TypedRidColumn, c: C.Column)
    reads column
  {
    && column.Valid() && !column.status.Error?
    && (column.status.Ready? <==> c.ready)
    && Represents(column.cells, c.values)
    && PendingRepresents(column.pending, c.pending)
  }

  lemma UpdateRepresents(cells: Cells, cells': Cells, values: map<nat, Value>, rid: nat, v: Option<Value>)
    requires Represents(cells, values) && CellsValid(cells')
    requires forall k {:trigger At(cells', k)} :: At(cells', k) == if k == rid then ColumnState(v) else At(cells, k)
    ensures Represents(cells', C.SetOrRemove(values, rid, v))
  {
    forall k: nat ensures At(cells', k) == ColumnState(C.At(C.SetOrRemove(values, rid, v), k)) {
      assert At(cells, k) == ColumnState(C.At(values, k));
    }
  }

  /** A column is new: nothing in it, nothing waiting, built when there are no rows. */
  method NewColumn(path: string) returns (column: TypedRidColumn, ghost c: C.Column)
    ensures fresh(column) && Refines(column, c) && c == C.Column(path, true, map[], map[], map[], {})
  {
    column := new TypedRidColumn();
    c := C.Column(path, true, map[], map[], map[], {});
  }

  /** A row of the collection was written or deleted. */
  method UpdateRow(column: TypedRidColumn, ghost c: C.Column, path: string, rid: nat, obj: Option<Value>)
    requires Refines(column, c) && path == c.path
    modifies column
    ensures Refines(column, C.UpdateColumn(c, rid, obj))
  {
    var v := C.PathValue(obj, path);
    ghost var cells := column.cells;
    ColumnStateRoundTrip(v, Absent);
    column.UpdateScalarState(rid, ColumnState(v));
    if !column.status.Building? {
      UpdateRepresents(cells, column.cells, c.values, rid, v);
    }
  }

  /** One row of a build's scan goes into the column under construction. */
  method ScanRow(source: TypedRidColumn, ghost built: map<nat, Value>, path: string, rid: nat, obj: Option<Value>)
    requires source.Valid() && source.status.Ready? && Represents(source.cells, built)
    modifies source
    ensures source.Valid() && source.status.Ready? && Represents(source.cells, C.SetOrRemove(built, rid, C.PathValue(obj, path)))
  {
    var v := C.PathValue(obj, path);
    ghost var cells := source.cells;
    ColumnStateRoundTrip(v, Absent);
    source.UpdateScalarState(rid, ColumnState(v));
    UpdateRepresents(cells, source.cells, built, rid, v);
  }

  lemma InstallRepresents(base: Cells, cells: Cells, built: map<nat, Value>, waiting: map<nat, State>, pending: map<nat, Option<Value>>)
    requires Represents(base, built) && PendingRepresents(waiting, pending) && CellsValid(cells)
    requires forall k {:trigger At(cells, k)} :: At(cells, k) == if k in waiting then waiting[k] else At(base, k)
    ensures Represents(cells, C.Overlay(built, pending))
  {
    forall k: nat ensures At(cells, k) == ColumnState(C.At(C.Overlay(built, pending), k)) {
      assert At(base, k) == ColumnState(C.At(built, k));
    }
  }

  /** The build ends: the scanned column with the waiting updates over it. */
  method InstallBuild(column: TypedRidColumn, ghost c: C.Column, source: TypedRidColumn, id: nat)
    requires Refines(column, c) && !c.ready && c.remaining == {} && id == column.buildId
    requires source != column && source.Valid() && Represents(source.cells, c.built)
    modifies column
    ensures Refines(column, C.InstallColumn(c))
  {
    ghost var waiting := column.pending;
    var _ := column.Install(source, id);
    InstallRepresents(source.cells, column.cells, c.built, waiting, c.pending);
  }

  /** Reading a row's cell reads the map. */
  method ReadCell(column: TypedRidColumn, ghost c: C.Column, rid: nat) returns (v: Option<Value>)
    requires Refines(column, c)
    ensures v == C.At(c.values, rid)
  {
    v := column.ValueFor(rid);
    assert At(column.cells, rid) == ColumnState(C.At(c.values, rid));
    ColumnStateRoundTrip(C.At(c.values, rid), Absent);
  }
}
