/**
 * The shape store (src/shape.js): objects with the same field names share a shape, each field is a
 * column of reference-counted value codes, rows are reused, and an object that changes its fields
 * moves to another shape.
 */
module Shapes {
  import opened Wrappers
  import opened Pools

  /** An object's fields; a field may hold undefined. */
  type Fields = map<string, Option<Value>>

  // One column.

  datatype ValueColumn = ValueColumn(codes: seq<nat>, pool: Pool<Option<Value>>)

  function EmptyColumn(): ValueColumn {
    ValueColumn(Zeros(8), Pool([], map[], [], []))
  }

  ghost predicate ColumnOk(c: ValueColumn) {
    PoolValid(c.pool, c.codes)
  }

  function Zeros(n: nat): (s: seq<nat>)
    ensures |s| == n && forall i | 0 <= i < n :: s[i] == 0
  {
    if n == 0 then [] else Zeros(n - 1) + [0]
  }

  /** Room for the row; capacity doubles. */
  function Capacity(next: nat, row: nat): (n: nat)
    requires next > 0
    ensures n > row && n >= next
    decreases row - next
  {
    if next > row then next else Capacity(2 * next, row)
  }

  function Ensure(c: ValueColumn, row: nat): ValueColumn {
    var len := |c.codes|;
    if row < len then c else c.(codes := c.codes + Zeros(Capacity(if len == 0 then 8 else len, row) - len))
  }

  /** What a row holds: nothing, or a value or undefined. */
  function CellAt(c: ValueColumn, row: nat): Option<Option<Value>> {
    if row < |c.codes| && c.codes[row] != 0 then CodeValue(c.pool, c.codes[row]) else None
  }

  function ClearCell(c: ValueColumn, row: nat): ValueColumn
    requires ColumnOk(c)
  {
    if row < |c.codes| && c.codes[row] != 0 then
      LiveCode(c.pool, c.codes, row);
      ValueColumn(c.codes[row := 0], Release(c.pool, c.codes[row]))
    else c
  }

  lemma ClearCellMeans(c: ValueColumn, row: nat)
    requires ColumnOk(c)
    ensures ColumnOk(ClearCell(c, row)) && |ClearCell(c, row).codes| == |c.codes|
    ensures row < |c.codes| ==> ClearCell(c, row).codes[row] == 0
    ensures forall r :: CellAt(ClearCell(c, row), r) == if r == row then None else CellAt(c, r)
  {
    if row < |c.codes| && c.codes[row] != 0 {
      ReleaseValid(c.pool, c.codes, row);
      var d := ClearCell(c, row);
      forall r: nat ensures CellAt(d, r) == if r == row then None else CellAt(c, r) {
        if r != row && r < |c.codes| && c.codes[r] != 0 {
          assert CodeValue(d.pool, c.codes[r]) == CodeValue(c.pool, c.codes[r]);
        }
      }
    }
  }

  lemma {:induction false} ZerosUseNothing(codes: seq<nat>, n: nat, c: nat)
    ensures c != 0 ==> Uses(codes + Zeros(n), c) == Uses(codes, c)
  {
    if n == 0 {
      assert codes + [] == codes;
    } else {
      ZerosUseNothing(codes, n - 1, c);
      assert (codes + Zeros(n))[..|codes| + n - 1] == codes + Zeros(n - 1);
    }
  }

  lemma EnsureMeans(c: ValueColumn, row: nat)
    requires ColumnOk(c)
    ensures ColumnOk(Ensure(c, row)) && row < |Ensure(c, row).codes|
    ensures forall r :: CellAt(Ensure(c, row), r) == CellAt(c, r)
  {
    var d := Ensure(c, row);
    forall code ensures CodeOk(d.pool, d.codes, code) {
      assert CodeOk(c.pool, c.codes, code);
      ZerosUseNothing(c.codes, |d.codes| - |c.codes|, code);
    }
  }

  /** Writing a cell releases what was there and takes a code for the new value. */
  function SetCell(c: ValueColumn, row: nat, v: Option<Value>): ValueColumn
    requires ColumnOk(c)
  {
    EnsureMeans(c, row);
    var room := Ensure(c, row);
    ClearCellMeans(room, row);
    var cleared := ClearCell(room, row);
    var (pool, code) := Acquire(cleared.pool, v);
    ValueColumn(cleared.codes[row := code], pool)
  }

  lemma {:induction false} SetCellMeans(c: ValueColumn, row: nat, v: Option<Value>)
    requires ColumnOk(c)
    ensures ColumnOk(SetCell(c, row, v)) && row < |SetCell(c, row, v).codes|
    ensures forall r :: CellAt(SetCell(c, row, v), r) == if r == row then Some(v) else CellAt(c, r)
  {
    EnsureMeans(c, row);
    var room := Ensure(c, row);
    ClearCellMeans(room, row);
    var cleared := ClearCell(room, row);
    AcquireValid(cleared.pool, cleared.codes, row, v);
    forall r: nat ensures CellAt(SetCell(c, row, v), r) == if r == row then Some(v) else CellAt(c, r) {
      assert CellAt(cleared, r) == if r == row then None else CellAt(room, r);
      if r != row && r < |cleared.codes| && cleared.codes[r] != 0 {
        LiveCode(cleared.pool, cleared.codes, r);
        AcquireCode(cleared.pool, cleared.codes, v, cleared.codes[r]);
        assert CodeOk(cleared.pool, cleared.codes, cleared.codes[r]);
      }
    }
  }

  lemma EmptyColumnOk()
    ensures ColumnOk(EmptyColumn()) && forall r :: CellAt(EmptyColumn(), r) == None
  {
    var c := EmptyColumn();
    forall code ensures CodeOk(c.pool, c.codes, code) {}
  }

  // One shape.

  datatype Shape = Shape(columns: map<string, ValueColumn>, rows: map<string, nat>, free: seq<nat>, length: nat)

  ghost predicate RowsOk(s: Shape) {
    && (forall id | id in s.rows :: s.rows[id] < s.length && s.rows[id] !in s.free)
    && (forall a, b | a in s.rows && b in s.rows && s.rows[a] == s.rows[b] :: a == b)
    && (forall i | 0 <= i < |s.free| :: s.free[i] < s.length)
    && Distinct(s.free)
  }

  predicate Vacant(rows: map<string, nat>, row: nat) {
    forall id | id in rows :: rows[id] != row
  }

  /** Cells are well formed, and rows that hold no object are empty. */
  ghost predicate CellsOk(s: Shape) {
    && (forall f | f in s.columns :: ColumnOk(s.columns[f]))
    && (forall f, row {:trigger CellAt(s.columns[f], row)} | f in s.columns && Vacant(s.rows, row) :: CellAt(s.columns[f], row) == None)
  }

  ghost predicate ShapeOk(s: Shape) {
    RowsOk(s) && CellsOk(s)
  }

  function NewColumns(fields: set<string>): map<string, ValueColumn> {
    map f | f in fields :: EmptyColumn()
  }

  function NewShape(fields: set<string>): Shape {
    Shape(NewColumns(fields), map[], [], 0)
  }

  lemma NewShapeOk(fields: set<string>)
    ensures ShapeOk(NewShape(fields)) && NewShape(fields).columns.Keys == fields && NewShape(fields).rows == map[]
  {
    EmptyColumnOk();
  }

  /** Reading a row gives every field of the shape. */
  function RowFields(s: Shape, row: nat): Fields {
    map f | f in s.columns :: CellAt(s.columns[f], row).GetOr(None)
  }

  /** A field the object does not have is undefined. */
  function FieldOf(values: Fields, f: string): Option<Value> {
    if f in values then values[f] else None
  }

  function SetColumns(columns: map<string, ValueColumn>, row: nat, values: Fields): (r: map<string, ValueColumn>)
    requires forall f | f in columns :: ColumnOk(columns[f])
    ensures r.Keys == columns.Keys
  {
    map f | f in columns :: SetCell(columns[f], row, FieldOf(values, f))
  }

  function ClearColumns(columns: map<string, ValueColumn>, row: nat): (r: map<string, ValueColumn>)
    requires forall f | f in columns :: ColumnOk(columns[f])
    ensures r.Keys == columns.Keys
  {
    map f | f in columns :: ClearCell(columns[f], row)
  }

  /** A new object takes the row freed last, or a new row. */
  function PushRow(s: Shape, id: string, values: Fields): Shape
    requires ShapeOk(s)
  {
    var row := if s.free != [] then s.free[|s.free| - 1] else s.length;
    Shape(SetColumns(s.columns, row, values), s.rows[id := row],
          if s.free != [] then s.free[..|s.free| - 1] else s.free, if s.free != [] then s.length else s.length + 1)
  }

  function RemoveRow(s: Shape, id: string): Shape
    requires ShapeOk(s) && id in s.rows
  {
    Shape(ClearColumns(s.columns, s.rows[id]), s.rows - {id}, s.free + [s.rows[id]], s.length)
  }

  lemma SetColumnsMeans(columns: map<string, ValueColumn>, row: nat, values: Fields, f: string)
    requires (forall g | g in columns :: ColumnOk(columns[g])) && f in columns
    ensures ColumnOk(SetColumns(columns, row, values)[f])
    ensures forall r :: CellAt(SetColumns(columns, row, values)[f], r) ==
                        if r == row then Some(FieldOf(values, f)) else CellAt(columns[f], r)
  {
    SetCellMeans(columns[f], row, FieldOf(values, f));
  }

  lemma PushRowRows(s: Shape, id: string, values: Fields)
    requires RowsOk(s) && ShapeOk(s) && id !in s.rows
    ensures RowsOk(PushRow(s, id, values)) && Vacant(s.rows, PushRow(s, id, values).rows[id])
  {
    var t := PushRow(s, id, values);
    var row := t.rows[id];
    if s.free != [] {
      FreePopped(s.free, row);
      assert row in s.free;
    }
    forall a | a in s.rows ensures s.rows[a] != row && s.rows[a] !in t.free {
      assert s.rows[a] !in s.free && s.rows[a] < s.length;
    }
  }

  lemma PushRowOk(s: Shape, id: string, values: Fields)
    requires ShapeOk(s) && id !in s.rows
    ensures ShapeOk(PushRow(s, id, values))
  {
    var t := PushRow(s, id, values);
    PushRowRows(s, id, values);
    forall f | f in t.columns ensures ColumnOk(t.columns[f]) {
      SetColumnsMeans(s.columns, t.rows[id], values, f);
    }
    forall f, r | f in t.columns && Vacant(t.rows, r) ensures CellAt(t.columns[f], r) == None {
      SetColumnsMeans(s.columns, t.rows[id], values, f);
      VacantBefore(s.rows, t.rows, id, r);
    }
  }

  lemma VacantBefore(before: map<string, nat>, after: map<string, nat>, id: string, r: nat)
    requires id !in before && id in after && after == before[id := after[id]] && Vacant(after, r)
    ensures Vacant(before, r) && r != after[id]
  {
    forall a | a in before ensures before[a] != r {
      assert after[a] == before[a];
    }
  }

  /** An object as a shape with these fields keeps it. */
  function Reshaped(values: Fields, names: set<string>): Fields {
    map f | f in names :: FieldOf(values, f)
  }

  /** Pushing stores the shape's fields of the object, and undefined where the object has none. */
  lemma PushRowReads(s: Shape, id: string, values: Fields)
    requires ShapeOk(s) && id !in s.rows
    ensures var t := PushRow(s, id, values);
            RowFields(t, t.rows[id]) == Reshaped(values, s.columns.Keys)
  {
    hide SetColumns, ColumnOk;
    var t := PushRow(s, id, values);
    var row := t.rows[id];
    PushRowRows(s, id, values);
    forall f | f in s.columns ensures CellAt(t.columns[f], row) == Some(FieldOf(values, f)) {
      SetColumnsMeans(s.columns, row, values, f);
    }
  }

  lemma SameFields(s: Shape, t: Shape, row: nat)
    requires s.columns.Keys == t.columns.Keys && forall f | f in s.columns :: CellAt(t.columns[f], row) == CellAt(s.columns[f], row)
    ensures RowFields(t, row) == RowFields(s, row)
  {
  }

  /** Pushing disturbs no other object. */
  lemma PushRowOthers(s: Shape, id: string, values: Fields, other: string)
    requires ShapeOk(s) && id !in s.rows && other in s.rows
    ensures var t := PushRow(s, id, values);
            t.rows[other] == s.rows[other] && RowFields(t, t.rows[other]) == RowFields(s, s.rows[other])
  {
    hide RowFields;
    var t := PushRow(s, id, values);
    PushRowRows(s, id, values);
    forall f | f in s.columns ensures CellAt(t.columns[f], s.rows[other]) == CellAt(s.columns[f], s.rows[other]) {
      SetColumnsMeans(s.columns, t.rows[id], values, f);
    }
    SameFields(s, t, s.rows[other]);
  }

  lemma ClearColumnsMeans(columns: map<string, ValueColumn>, row: nat, f: string)
    requires (forall g | g in columns :: ColumnOk(columns[g])) && f in columns
    ensures ColumnOk(ClearColumns(columns, row)[f])
    ensures forall r :: CellAt(ClearColumns(columns, row)[f], r) == if r == row then None else CellAt(columns[f], r)
  {
    ClearCellMeans(columns[f], row);
  }

  lemma RemoveRowOk(s: Shape, id: string)
    requires ShapeOk(s) && id in s.rows
    ensures ShapeOk(RemoveRow(s, id))
  {
    hide ClearCell, CellAt, ColumnOk;
    var t, row := RemoveRow(s, id), s.rows[id];
    forall f | f in t.columns ensures ColumnOk(t.columns[f]) {
      ClearColumnsMeans(s.columns, row, f);
    }
    forall f, r | f in t.columns && Vacant(t.rows, r) ensures CellAt(t.columns[f], r) == None {
      ClearColumnsMeans(s.columns, row, f);
      forall a | r != row && a in s.rows ensures s.rows[a] != r {
        assert a != id ==> t.rows[a] == s.rows[a];
      }
    }
    RemoveRowRows(s, id);
  }

  lemma RemoveRowRows(s: Shape, id: string)
    requires ShapeOk(s) && id in s.rows
    ensures RowsOk(RemoveRow(s, id))
  {
    var t := RemoveRow(s, id);
    assert s.rows[id] !in s.free;
    forall i, j | 0 <= i < j < |t.free| ensures t.free[i] != t.free[j] {
      assert t.free[i] == s.free[i];
    }
    forall a | a in t.rows ensures t.rows[a] !in t.free {
      assert t.rows[a] == s.rows[a] && s.rows[a] !in s.free;
    }
  }

  lemma RemoveRowOthers(s: Shape, id: string, other: string)
    requires ShapeOk(s) && id in s.rows && other in s.rows && other != id
    ensures var t := RemoveRow(s, id);
            other in t.rows && t.rows[other] == s.rows[other] && RowFields(t, t.rows[other]) == RowFields(s, s.rows[other])
  {
    hide ClearCell, CellAt, ColumnOk;
    var t := RemoveRow(s, id);
    forall f | f in s.columns ensures CellAt(t.columns[f], s.rows[other]) == CellAt(s.columns[f], s.rows[other]) {
      ClearColumnsMeans(s.columns, s.rows[id], f);
    }
  }

  // The store.

  datatype Store = Store(shapes: map<string, Shape>, loc: map<string, string>)

  type ShapeId = set<string> -> string

  ghost predicate ShapeFits(shapeId: ShapeId, st: Store, sid: string) {
    sid in st.shapes && ShapeOk(st.shapes[sid]) && shapeId(st.shapes[sid].columns.Keys) == sid
    && forall id | id in st.shapes[sid].rows :: id in st.loc && st.loc[id] == sid
  }

  predicate Placed(st: Store, id: string) {
    id in st.loc && st.loc[id] in st.shapes && id in st.shapes[st.loc[id]].rows
  }

  ghost predicate StoreOk(shapeId: ShapeId, st: Store) {
    && (forall sid {:trigger ShapeFits(shapeId, st, sid)} | sid in st.shapes :: ShapeFits(shapeId, st, sid))
    && (forall id {:trigger Placed(st, id)} | id in st.loc :: Placed(st, id))
  }

  /** The object stored under an id. */
  function ReadObject(st: Store, id: string): Option<Fields> {
    if Placed(st, id) then Some(RowFields(st.shapes[st.loc[id]], st.shapes[st.loc[id]].rows[id])) else None
  }

  /** Take an object out; a shape left without rows goes too. */
  function Drop(shapeId: ShapeId, st: Store, id: string): Store
    requires StoreOk(shapeId, st)
  {
    if id !in st.loc then st
    else
      assert Placed(st, id) && ShapeFits(shapeId, st, st.loc[id]);
      var rest := RemoveRow(st.shapes[st.loc[id]], id);
      Store(if rest.rows == map[] then st.shapes - {st.loc[id]} else st.shapes[st.loc[id] := rest], st.loc - {id})
  }

  lemma DropOk(shapeId: ShapeId, st: Store, id: string)
    requires StoreOk(shapeId, st)
    ensures StoreOk(shapeId, Drop(shapeId, st, id)) && id !in Drop(shapeId, st, id).loc
  {
    if id in st.loc {
      assert Placed(st, id) && ShapeFits(shapeId, st, st.loc[id]);
      var sid := st.loc[id];
      var rest := RemoveRow(st.shapes[sid], id);
      RemoveRowOk(st.shapes[sid], id);
      assert rest.rows == st.shapes[sid].rows - {id} && rest.columns.Keys == st.shapes[sid].columns.Keys;
      hide ShapeOk, RemoveRow;
      DroppedOk(shapeId, st, id, rest);
    }
  }

  lemma DroppedOk(shapeId: ShapeId, st: Store, id: string, rest: Shape)
    requires StoreOk(shapeId, st) && Placed(st, id) && ShapeOk(rest)
    requires rest.rows == st.shapes[st.loc[id]].rows - {id} && rest.columns.Keys == st.shapes[st.loc[id]].columns.Keys
    ensures StoreOk(shapeId, Store(if rest.rows == map[] then st.shapes - {st.loc[id]} else st.shapes[st.loc[id] := rest], st.loc - {id}))
  {
    hide ShapeOk;
    var sid := st.loc[id];
    var t := Store(if rest.rows == map[] then st.shapes - {sid} else st.shapes[sid := rest], st.loc - {id});
    assert ShapeFits(shapeId, st, sid);
    forall other | other in t.shapes ensures ShapeFits(shapeId, t, other) {
      assert ShapeFits(shapeId, st, other);
    }
    hide ShapeFits;
    forall other | other in t.loc ensures Placed(t, other) {
      assert Placed(st, other);
      assert st.loc[other] == sid ==> other in rest.rows;
    }
  }

  lemma DropShapes(shapeId: ShapeId, st: Store, id: string)
    requires StoreOk(shapeId, st)
    ensures forall sid | sid in Drop(shapeId, st, id).shapes ::
              sid in st.shapes && Drop(shapeId, st, id).shapes[sid].columns.Keys == st.shapes[sid].columns.Keys
  {
    if id in st.loc {
      assert Placed(st, id) && ShapeFits(shapeId, st, st.loc[id]);
      assert RemoveRow(st.shapes[st.loc[id]], id).columns.Keys == st.shapes[st.loc[id]].columns.Keys;
    }
  }

  lemma DropReads(shapeId: ShapeId, st: Store, id: string, other: string)
    requires StoreOk(shapeId, st)
    ensures ReadObject(Drop(shapeId, st, id), other) == if other == id then None else ReadObject(st, other)
  {
    if id in st.loc {
      assert Placed(st, id) && ShapeFits(shapeId, st, st.loc[id]);
      if other in st.loc && other != id {
        assert Placed(st, other);
        if st.loc[other] == st.loc[id] {
          RemoveRowOthers(st.shapes[st.loc[id]], id, other);
        }
      }
    }
  }

  function ShapeFor(shapeId: ShapeId, st: Store, live: Fields): Shape {
    if shapeId(live.Keys) in st.shapes then st.shapes[shapeId(live.Keys)] else NewShape(live.Keys)
  }

  /** Put an object that is not stored into the shape of its layout. */
  function Place(shapeId: ShapeId, st: Store, id: string, live: Fields): Store
    requires StoreOk(shapeId, st)
  {
    NewShapeOk(live.Keys);
    assert shapeId(live.Keys) in st.shapes ==> ShapeFits(shapeId, st, shapeId(live.Keys));
    Store(st.shapes[shapeId(live.Keys) := PushRow(ShapeFor(shapeId, st, live), id, live)], st.loc[id := shapeId(live.Keys)])
  }

  lemma PlaceOk(shapeId: ShapeId, st: Store, id: string, live: Fields)
    requires StoreOk(shapeId, st) && id !in st.loc
    ensures StoreOk(shapeId, Place(shapeId, st, id, live))
  {
    hide EmptyColumn, NewShape, ColumnOk, SetColumns;
    var t, sid := Place(shapeId, st, id, live), shapeId(live.Keys);
    NewShapeOk(live.Keys);
    assert sid in st.shapes ==> ShapeFits(shapeId, st, sid);
    var shape := ShapeFor(shapeId, st, live);
    var pushed := PushRow(shape, id, live);
    PushRowOk(shape, id, live);
    assert pushed.columns.Keys == shape.columns.Keys && pushed.rows.Keys == shape.rows.Keys + {id};
    PlacedShapes(shapeId, st, t, id, sid, pushed);
  }

  lemma PlacedShapes(shapeId: ShapeId, st: Store, t: Store, id: string, sid: string, pushed: Shape)
    requires StoreOk(shapeId, st) && id !in st.loc && t == Store(st.shapes[sid := pushed], st.loc[id := sid])
    requires ShapeOk(pushed) && shapeId(pushed.columns.Keys) == sid
    requires pushed.rows.Keys == (if sid in st.shapes then st.shapes[sid].rows.Keys else {}) + {id}
    ensures StoreOk(shapeId, t)
  {
    hide ShapeOk;
    forall other | other in t.shapes ensures ShapeFits(shapeId, t, other) {
      assert other in st.shapes ==> ShapeFits(shapeId, st, other);
    }
    forall other | other in t.loc ensures Placed(t, other) {
      assert other != id ==> Placed(st, other);
    }
  }

  /**
   * The object reads back as the shape found under its layout's id keeps it, which is as it was
   * written if and only if the shape has exactly its fields.  Nothing else changes.
   */
  lemma PlaceReads(shapeId: ShapeId, st: Store, id: string, live: Fields, other: string)
    requires StoreOk(shapeId, st) && id !in st.loc
    ensures ReadObject(Place(shapeId, st, id, live), id) == Some(Reshaped(live, ShapeFor(shapeId, st, live).columns.Keys))
    ensures ReadObject(Place(shapeId, st, id, live), id) == Some(live) <==> live.Keys == ShapeFor(shapeId, st, live).columns.Keys
    ensures other != id ==> ReadObject(Place(shapeId, st, id, live), other) == ReadObject(st, other)
  {
    hide EmptyColumn, NewShape, ColumnOk, SetColumns;
    var shape, sid := ShapeFor(shapeId, st, live), shapeId(live.Keys);
    NewShapeOk(live.Keys);
    assert sid in st.shapes ==> ShapeFits(shapeId, st, sid);
    PlaceSelf(shapeId, st, id, live);
    assert PushRow(shape, id, live).rows.Keys == shape.rows.Keys + {id};
    hide ShapeOk, PushRow, RowFields;
    if other != id && other in st.loc {
      assert Placed(st, other);
      if st.loc[other] == sid {
        PushRowOthers(shape, id, live, other);
      }
    }
  }

  lemma PlaceSelf(shapeId: ShapeId, st: Store, id: string, live: Fields)
    requires StoreOk(shapeId, st) && id !in st.loc
    ensures ReadObject(Place(shapeId, st, id, live), id) == Some(Reshaped(live, ShapeFor(shapeId, st, live).columns.Keys))
    ensures ReadObject(Place(shapeId, st, id, live), id) == Some(live) <==> live.Keys == ShapeFor(shapeId, st, live).columns.Keys
  {
    hide EmptyColumn, NewShape, ColumnOk, SetColumns, RowFields;
    var shape := ShapeFor(shapeId, st, live);
    NewShapeOk(live.Keys);
    assert shapeId(live.Keys) in st.shapes ==> ShapeFits(shapeId, st, shapeId(live.Keys));
    PushRowReads(shape, id, live);
    assert id in PushRow(shape, id, live).rows;
    ReshapedIsWhole(live, shape.columns.Keys);
  }

  lemma ReshapedIsWhole(live: Fields, names: set<string>)
    ensures Reshaped(live, names) == live <==> live.Keys == names
  {
    assert Reshaped(live, names).Keys == names;
  }

  /** What an object stored anew reads back as: nothing without fields, else as its shape keeps it. */
  ghost function Rebuilt(shapeId: ShapeId, st: Store, id: string, live: Fields): Option<Fields>
    requires StoreOk(shapeId, st)
  {
    if live == map[] then None else Some(Reshaped(live, ShapeFor(shapeId, Drop(shapeId, st, id), live).columns.Keys))
  }

  /** The shape that an object's layout leads to, unless the object is its only one, has that layout. */
  predicate NoCollision(shapeId: ShapeId, st: Store, id: string, live: Fields) {
    var sid := shapeId(live.Keys);
    sid in st.shapes && st.shapes[sid].rows.Keys != {id} ==> st.shapes[sid].columns.Keys == live.Keys
  }

  lemma PlacedAnew(shapeId: ShapeId, st: Store, id: string, live: Fields)
    requires StoreOk(shapeId, st)
    ensures StoreOk(shapeId, Drop(shapeId, st, id))
    ensures var st' := Place(shapeId, Drop(shapeId, st, id), id, live);
            && StoreOk(shapeId, st')
            && (live != map[] ==> ReadObject(st', id) == Rebuilt(shapeId, st, id, live))
            && forall other | other != id :: ReadObject(st', other) == ReadObject(st, other)
  {
    hide *;
    DropOk(shapeId, st, id);
    var mid := Drop(shapeId, st, id);
    PlaceOk(shapeId, mid, id, live);
    forall other | other != id ensures ReadObject(Place(shapeId, mid, id, live), other) == ReadObject(st, other) {
      PlaceReads(shapeId, mid, id, live, other);
      DropReads(shapeId, st, id, other);
    }
    PlaceReads(shapeId, mid, id, live, id);
    if live != map[] {
      RebuiltIs(shapeId, st, id, live);
    }
  }

  lemma RebuiltIs(shapeId: ShapeId, st: Store, id: string, live: Fields)
    requires StoreOk(shapeId, st) && live != map[]
    ensures Rebuilt(shapeId, st, id, live) == Some(Reshaped(live, ShapeFor(shapeId, Drop(shapeId, st, id), live).columns.Keys))
  {
  }

  lemma RebuiltReads(shapeId: ShapeId, st: Store, id: string, live: Fields)
    requires StoreOk(shapeId, st)
    ensures live != map[] ==> (Rebuilt(shapeId, st, id, live) == Some(live) <==> NoCollision(shapeId, st, id, live))
  {
    var mid, sid := Drop(shapeId, st, id), shapeId(live.Keys);
    NewShapeOk(live.Keys);
    DropShapes(shapeId, st, id);
    ReshapedIsWhole(live, ShapeFor(shapeId, mid, live).columns.Keys);
    if id in st.loc {
      assert Placed(st, id) && ShapeFits(shapeId, st, st.loc[id]);
      if sid == st.loc[id] {
        var rows := st.shapes[sid].rows;
        assert (rows - {id}).Keys == rows.Keys - {id};
        assert rows - {id} == map[] ==> rows.Keys == {id} by {
          assert rows - {id} == map[] ==> (rows - {id}).Keys == {};
        }
        assert rows.Keys == {id} ==> rows - {id} == map[];
      }
    }
    if sid in st.shapes && st.shapes[sid].rows.Keys == {id} {
      assert ShapeFits(shapeId, st, sid) && id in st.shapes[sid].rows;
    }
  }

  /**
   * Two layouts that share an id: the second object stored is kept with the fields of the first, its own
   * others lost and the missing ones undefined.
   */
  lemma CollisionMisreads(shapeId: ShapeId, first: Fields, second: Fields)
    requires first.Keys != second.Keys && shapeId(first.Keys) == shapeId(second.Keys)
    ensures StoreOk(shapeId, Store(map[], map[])) && StoreOk(shapeId, Place(shapeId, Store(map[], map[]), "x", first))
    ensures var st := Place(shapeId, Place(shapeId, Store(map[], map[]), "x", first), "y", second);
            ReadObject(st, "y") == Some(Reshaped(second, first.Keys)) && Reshaped(second, first.Keys) != second
  {
    hide EmptyColumn, NewShape, ColumnOk, SetColumns, RowFields;
    var none := Store(map[], map[]);
    PlaceOk(shapeId, none, "x", first);
    NewShapeOk(first.Keys);
    var one := Place(shapeId, none, "x", first);
    assert "x" != "y" && "y" !in one.loc;
    assert ShapeFits(shapeId, one, shapeId(second.Keys));
    var shape := ShapeFor(shapeId, one, second);
    assert shape == PushRow(NewShape(first.Keys), "x", first) && shape.columns.Keys == first.Keys;
    PushRowReads(shape, "y", second);
    ReshapedIsWhole(second, first.Keys);
  }

  // One field.

  /** Writing a field the shape has sets its cell. */
  function SetField(s: Shape, row: nat, f: string, v: Option<Value>): Shape
    requires ShapeOk(s) && f in s.columns
  {
    s.(columns := s.columns[f := SetCell(s.columns[f], row, v)])
  }

  lemma SetFieldMeans(s: Shape, id: string, f: string, v: Option<Value>)
    requires ShapeOk(s) && f in s.columns && id in s.rows
    ensures var t := SetField(s, s.rows[id], f, v);
            ShapeOk(t) && RowFields(t, s.rows[id]) == RowFields(s, s.rows[id])[f := v]
            && forall other | other in s.rows && other != id :: RowFields(t, s.rows[other]) == RowFields(s, s.rows[other])
  {
    hide ColumnOk, SetCell;
    SetCellMeans(s.columns[f], s.rows[id], v);
  }

  /** A write to an object whose shape has the field stays in the shape; any other write stores the object anew. */
  predicate InShape(st: Store, id: string, f: string) {
    Placed(st, id) && f in st.shapes[st.loc[id]].columns
  }

  /** The store with one shape replaced by another with the same rows and fields, differing in one object only. */
  lemma SetInStore(shapeId: ShapeId, st: Store, id: string, f: string, v: Option<Value>)
    requires StoreOk(shapeId, st) && InShape(st, id, f)
    ensures ShapeFits(shapeId, st, st.loc[id])
    ensures var shape := st.shapes[st.loc[id]];
            var st' := Store(st.shapes[st.loc[id] := SetField(shape, shape.rows[id], f, v)], st.loc);
            && StoreOk(shapeId, st')
            && forall other :: ReadObject(st', other) == if other == id then Some(ReadObject(st, id).value[f := v]) else ReadObject(st, other)
  {
    var sid := st.loc[id];
    assert ShapeFits(shapeId, st, sid);
    var shape := st.shapes[sid];
    SetFieldMeans(shape, id, f, v);
    var written := SetField(shape, shape.rows[id], f, v);
    assert written.columns.Keys == shape.columns.Keys && written.rows == shape.rows;
    hide ShapeOk, SetField, RowFields;
    Replaced(shapeId, st, sid, written);
    hide ShapeFits, StoreOk;
    forall other ensures ReadObject(Store(st.shapes[sid := written], st.loc), other) ==
                         if other == id then Some(ReadObject(st, id).value[f := v]) else ReadObject(st, other) {
      ReplacedReads(st, sid, written, other);
    }
  }

  lemma ReplacedReads(st: Store, sid: string, shape: Shape, other: string)
    requires sid in st.shapes && shape.rows == st.shapes[sid].rows
    ensures ReadObject(Store(st.shapes[sid := shape], st.loc), other) ==
            if Placed(st, other) && st.loc[other] == sid then Some(RowFields(shape, shape.rows[other])) else ReadObject(st, other)
  {
    hide RowFields;
  }

  lemma Replaced(shapeId: ShapeId, st: Store, sid: string, shape: Shape)
    requires StoreOk(shapeId, st) && sid in st.shapes && ShapeOk(shape)
    requires shape.columns.Keys == st.shapes[sid].columns.Keys && shape.rows == st.shapes[sid].rows
    ensures StoreOk(shapeId, Store(st.shapes[sid := shape], st.loc))
  {
    hide ShapeOk;
    var st' := Store(st.shapes[sid := shape], st.loc);
    forall other | other in st'.shapes ensures ShapeFits(shapeId, st', other) {
      assert ShapeFits(shapeId, st, other) && ShapeFits(shapeId, st, sid);
    }
    forall other | other in st'.loc ensures Placed(st', other) {
      assert Placed(st, other);
    }
  }

  class ShapeStore {
    const shapeId: ShapeId
    var shapes: map<string, Shape>
    var loc: map<string, string>

    function State(): Store
      reads this
    {
      Store(shapes, loc)
    }

    constructor (shapeId: ShapeId)
      ensures StoreOk(shapeId, State()) && this.shapeId == shapeId && State() == Store(map[], map[])
    {
      this.shapeId := shapeId;
      shapes, loc := map[], map[];
    }

    method RemoveObject(id: string)
      requires StoreOk(shapeId, State())
      modifies this
      ensures State() == Drop(shapeId, old(State()), id)
      ensures StoreOk(shapeId, State()) && id !in loc
      ensures forall other :: ReadObject(State(), other) == if other == id then None else ReadObject(old(State()), other)
    {
      ghost var before := State();
      DropOk(shapeId, before, id);
      forall other ensures ReadObject(Drop(shapeId, before, id), other) == if other == id then None else ReadObject(before, other) {
        DropReads(shapeId, before, id, other);
      }
      if id !in loc {
        return;
      }
      assert Placed(before, id) && ShapeFits(shapeId, before, loc[id]);
      var sid := loc[id];
      var rest := RemoveRow(shapes[sid], id);
      shapes := if rest.rows == map[] then shapes - {sid} else shapes[sid := rest];
      loc := loc - {id};
    }

    /** Store an object anew: it leaves its old row and enters the shape of its field names. */
    method Rebuild(id: string, live: Fields)
      requires StoreOk(shapeId, State())
      modifies this
      ensures StoreOk(shapeId, State())
      ensures forall other | other != id :: ReadObject(State(), other) == ReadObject(old(State()), other)
      ensures ReadObject(State(), id) == Rebuilt(shapeId, old(State()), id, live)
      ensures live != map[] ==> (ReadObject(State(), id) == Some(live) <==> NoCollision(shapeId, old(State()), id, live))
    {
      ghost var before := State();
      RebuiltReads(shapeId, before, id, live);
      PlacedAnew(shapeId, before, id, live);
      RemoveObject(id);
      if live == map[] {
        return;
      }
      var placed := Place(shapeId, Store(shapes, loc), id, live);
      shapes, loc := placed.shapes, placed.loc;
    }

    /** A change of one field; `live` is the whole object after the change. */
    method WriteField(id: string, f: string, v: Option<Value>, live: Fields)
      requires StoreOk(shapeId, State())
      modifies this
      ensures StoreOk(shapeId, State())
      ensures forall other | other != id :: ReadObject(State(), other) == ReadObject(old(State()), other)
      ensures old(InShape(State(), id, f)) ==> ReadObject(State(), id) == Some(old(ReadObject(State(), id).value)[f := v])
      ensures !old(InShape(State(), id, f)) ==> ReadObject(State(), id) == Rebuilt(shapeId, old(State()), id, live)
    {
      ghost var before := State();
      if InShape(State(), id, f) {
        SetInStore(shapeId, before, id, f, v);
        var sid := loc[id];
        shapes := shapes[sid := SetField(shapes[sid], shapes[sid].rows[id], f, v)];
      } else {
        Rebuild(id, live);
      }
    }
  }
}
