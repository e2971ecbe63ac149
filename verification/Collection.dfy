/**
 * One collection's stored rows and what is derived from them (src/store.js, class Collection):
 * base rows, typed columns and their background builds, field indexes, and the set of rows whose
 * derived state is deferred.
 *
 * A row of the meaning is a live object; `Valid` ties every stored piece to it row by row.
 */
module Collections {
  import opened Wrappers
  import opened Layout
  import opened FieldIndexes

  const DEFER_MIN_ROWS := 5000

  /**
   * A column: its values by row, and while it is being built the updates that wait for the build,
   * what the scan has collected and the rows it has still to visit.
   */
  datatype Column = Column(path: string, ready: bool, values: map<nat, Value>, pending: map<nat, Option<Value>>,
                           built: map<nat, Value>, remaining: set<nat>)

  datatype PathIndex = PathIndex(path: string, index: Index)

  datatype Core = Core(base: map<nat, Value>, columns: seq<Column>, indexes: seq<PathIndex>, dirty: set<nat>)

  type Content = map<nat, Value>

  function At(content: Content, rid: nat): Option<Value> {
    if rid in content then Some(content[rid]) else None
  }

  function PathValue(obj: Option<Value>, path: string): Option<Value> {
    if obj.None? then None else GetPath(obj.value, path)
  }

  function ReadyPaths(columns: seq<Column>): seq<string> {
    if columns == [] then []
    else
      var c := columns[|columns| - 1];
      ReadyPaths(columns[..|columns| - 1]) + (if c.ready then [c.path] else [])
  }

  // Reading.

  function Hydrate(base: Value, columns: seq<Column>, rid: nat): Value {
    if columns == [] then base
    else
      var c, out := columns[|columns| - 1], Hydrate(base, columns[..|columns| - 1], rid);
      if rid in c.values then SetPath(out, c.path, c.values[rid]) else out
  }

  /** Deferred rows are read without their columns. */
  function Read(core: Core, rid: nat): Option<Value> {
    if rid !in core.base then None
    else if rid in core.dirty then Some(core.base[rid])
    else Some(Hydrate(core.base[rid], core.columns, rid))
  }

  // Columns.

  function SetOrRemove(values: map<nat, Value>, rid: nat, x: Option<Value>): map<nat, Value> {
    if x.Some? then values[rid := x.value] else values - {rid}
  }

  function UpdateColumn(c: Column, rid: nat, obj: Option<Value>): Column {
    var x := PathValue(obj, c.path);
    if c.ready then c.(values := SetOrRemove(c.values, rid, x)) else c.(pending := c.pending[rid := x])
  }

  function UpdateColumns(columns: seq<Column>, rid: nat, obj: Option<Value>): (r: seq<Column>)
    ensures |r| == |columns| && forall i | 0 <= i < |r| :: r[i] == UpdateColumn(columns[i], rid, obj)
  {
    if columns == [] then []
    else UpdateColumns(columns[..|columns| - 1], rid, obj) + [UpdateColumn(columns[|columns| - 1], rid, obj)]
  }

  function RecordColumn(c: Column, rid: nat, obj: Option<Value>): Column {
    if c.ready then c else UpdateColumn(c, rid, obj)
  }

  /** Only the columns being built hear of the row. */
  function RecordBuilds(columns: seq<Column>, rid: nat, obj: Option<Value>): (r: seq<Column>)
    ensures |r| == |columns| && forall i | 0 <= i < |r| :: r[i] == RecordColumn(columns[i], rid, obj)
  {
    if columns == [] then []
    else RecordBuilds(columns[..|columns| - 1], rid, obj) + [RecordColumn(columns[|columns| - 1], rid, obj)]
  }

  /** One row of the build's scan. */
  function ScanColumn(c: Column, rid: nat, obj: Option<Value>): Column {
    if c.ready || rid !in c.remaining then c
    else c.(remaining := c.remaining - {rid}, built := SetOrRemove(c.built, rid, PathValue(obj, c.path)))
  }

  function ScanColumns(columns: seq<Column>, rid: nat, obj: Option<Value>): (r: seq<Column>)
    ensures |r| == |columns| && forall i | 0 <= i < |r| :: r[i] == ScanColumn(columns[i], rid, obj)
  {
    if columns == [] then []
    else ScanColumns(columns[..|columns| - 1], rid, obj) + [ScanColumn(columns[|columns| - 1], rid, obj)]
  }

  /** The built column with the waiting updates laid over it. */
  function Overlay(built: map<nat, Value>, pending: map<nat, Option<Value>>): map<nat, Value> {
    map rid | rid in built.Keys + pending.Keys && (rid in pending ==> pending[rid].Some?) ::
      if rid in pending then pending[rid].value else built[rid]
  }

  function InstallColumn(c: Column): Column {
    if c.ready || c.remaining != {} then c
    else Column(c.path, true, Overlay(c.built, c.pending), map[], map[], {})
  }

  function InstallColumns(columns: seq<Column>): (r: seq<Column>)
    ensures |r| == |columns| && forall i | 0 <= i < |r| :: r[i] == InstallColumn(columns[i])
  {
    if columns == [] then [] else InstallColumns(columns[..|columns| - 1]) + [InstallColumn(columns[|columns| - 1])]
  }

  // Indexes.

  /** Remove what the caller read before, add what it wrote. */
  function DeltaIndex(ix: PathIndex, rid: nat, before: Option<Value>, after: Option<Value>): PathIndex {
    var cut := if before.Some? then RemoveFrom(ix.index, rid, GetPath(before.value, ix.path)) else ix.index;
    ix.(index := if after.Some? then AddTo(cut, rid, GetPath(after.value, ix.path)) else cut)
  }

  function DeltaIndexes(indexes: seq<PathIndex>, rid: nat, before: Option<Value>, after: Option<Value>): (r: seq<PathIndex>)
    ensures |r| == |indexes| && forall i | 0 <= i < |r| :: r[i] == DeltaIndex(indexes[i], rid, before, after)
  {
    if indexes == [] then []
    else DeltaIndexes(indexes[..|indexes| - 1], rid, before, after) + [DeltaIndex(indexes[|indexes| - 1], rid, before, after)]
  }

  /** Remove what the index itself recorded, add what is there now. */
  function RefreshIndex(ix: PathIndex, rid: nat, obj: Option<Value>): PathIndex {
    var cut := if rid in ix.index.forward then RemoveFrom(ix.index, rid, ix.index.forward[rid]) else ix.index;
    ix.(index := if obj.Some? then AddTo(cut, rid, GetPath(obj.value, ix.path)) else cut)
  }

  function RefreshIndexes(indexes: seq<PathIndex>, rid: nat, obj: Option<Value>): (r: seq<PathIndex>)
    ensures |r| == |indexes| && forall i | 0 <= i < |r| :: r[i] == RefreshIndex(indexes[i], rid, obj)
  {
    if indexes == [] then []
    else RefreshIndexes(indexes[..|indexes| - 1], rid, obj) + [RefreshIndex(indexes[|indexes| - 1], rid, obj)]
  }

  // Steps on the stored state.

  datatype Delta = Delta(rid: nat, before: Option<Value>, after: Option<Value>)

  function WriteBase(core: Core, rid: nat, v: Value, keepColumnFields: bool): Core {
    core.(base := core.base[rid := if keepColumnFields || core.dirty != {} then v else UnsetPaths(v, ReadyPaths(core.columns))])
  }

  function ApplyDelta(core: Core, d: Delta): Core {
    if d.rid in core.dirty then core.(columns := RecordBuilds(core.columns, d.rid, d.after))
    else core.(columns := UpdateColumns(core.columns, d.rid, d.after), indexes := DeltaIndexes(core.indexes, d.rid, d.before, d.after))
  }

  function MarkDirty(core: Core, d: Delta): Core {
    core.(columns := RecordBuilds(core.columns, d.rid, d.after), dirty := core.dirty + {d.rid})
  }

  /** Bring one deferred row up to date and forget it. */
  function CatchUp(core: Core, rid: nat): Core {
    var obj := Read(core, rid);
    var columns := UpdateColumns(core.columns, rid, obj);
    Core(if obj.Some? then core.base[rid := UnsetPaths(obj.value, ReadyPaths(columns))] else core.base,
         columns, RefreshIndexes(core.indexes, rid, obj), core.dirty - {rid})
  }

  function BeginBuild(core: Core, path: string): Core {
    core.(columns := core.columns + [Column(path, false, map[], map[], map[], core.base.Keys)])
  }

  function Scan(core: Core, rid: nat): Core {
    core.(columns := ScanColumns(core.columns, rid, Read(core, rid)))
  }

  function Install(core: Core): Core {
    core.(columns := InstallColumns(core.columns))
  }

  /** After an install each base row is rewritten without the installed paths. */
  function Strip(core: Core, rid: nat, paths: seq<string>): Core {
    var obj := Read(core, rid);
    if obj.None? then core else core.(base := core.base[rid := UnsetPaths(obj.value, paths)])
  }

  // What the stored state means.

  predicate Holds(values: map<nat, Value>, rid: nat, x: Option<Value>) {
    if x.Some? then rid in values && values[rid] == x.value else rid !in values
  }

  predicate ColumnMatches(c: Column, rid: nat, obj: Option<Value>) {
    c.ready ==> Holds(c.values, rid, PathValue(obj, c.path))
  }

  /** A build knows the row's current value, or has still to visit the row. */
  predicate BuildMatches(c: Column, rid: nat, obj: Option<Value>) {
    !c.ready ==>
      if rid in c.pending then c.pending[rid] == PathValue(obj, c.path)
      else rid in c.remaining || Holds(c.built, rid, PathValue(obj, c.path))
  }

  predicate Recorded(ix: Index, rid: nat, obj: Option<Value>, path: string) {
    if obj.Some? then rid in ix.forward && ix.forward[rid] == GetPath(obj.value, path) else rid !in ix.forward
  }

  ghost predicate ColumnsMatch(columns: seq<Column>, rid: nat, obj: Option<Value>) {
    forall i {:trigger ColumnMatches(columns[i], rid, obj)} | 0 <= i < |columns| :: ColumnMatches(columns[i], rid, obj)
  }

  ghost predicate BuildsMatch(columns: seq<Column>, rid: nat, obj: Option<Value>) {
    forall i {:trigger BuildMatches(columns[i], rid, obj)} | 0 <= i < |columns| :: BuildMatches(columns[i], rid, obj)
  }

  ghost predicate IndexesMatch(indexes: seq<PathIndex>, rid: nat, obj: Option<Value>) {
    forall i {:trigger indexes[i]} | 0 <= i < |indexes| :: Recorded(indexes[i].index, rid, obj, indexes[i].path)
  }

  /** A row of the base: whole while deferred, otherwise whole or without column paths. */
  ghost predicate BaseMatches(core: Core, rid: nat, obj: Option<Value>) {
    if obj.None? then rid !in core.base
    else
      && rid in core.base
      && if rid in core.dirty then core.base[rid] == obj.value
         else Rest(core.base[rid], obj.value, ReadyPaths(core.columns))
  }

  ghost predicate DerivedMatches(core: Core, rid: nat, obj: Option<Value>) {
    && BuildsMatch(core.columns, rid, obj)
    && (rid !in core.dirty ==> ColumnsMatch(core.columns, rid, obj) && IndexesMatch(core.indexes, rid, obj))
  }

  ghost predicate Bases(core: Core, content: Content) {
    forall rid {:trigger BaseMatches(core, rid, At(content, rid))} :: BaseMatches(core, rid, At(content, rid))
  }

  ghost predicate Follows(core: Core, content: Content) {
    forall rid {:trigger DerivedMatches(core, rid, At(content, rid))} :: DerivedMatches(core, rid, At(content, rid))
  }

  /** An object the layout can hold: every column path reads what it names. */
  ghost predicate Storable(v: Value, columns: seq<Column>) {
    v.Obj? && forall i {:trigger columns[i]} | 0 <= i < |columns| :: PathOk(v, columns[i].path)
  }

  ghost predicate AllStorable(content: Content, columns: seq<Column>) {
    forall rid {:trigger Storable(content[rid], columns)} | rid in content :: Storable(content[rid], columns)
  }

  /** A column has no values before its first install. */
  predicate FreshBuilds(columns: seq<Column>) {
    forall i {:trigger columns[i]} | 0 <= i < |columns| && !columns[i].ready :: columns[i].values == map[]
  }

  ghost predicate IndexesValid(indexes: seq<PathIndex>) {
    forall i {:trigger indexes[i]} | 0 <= i < |indexes| :: IndexValid(indexes[i].index)
  }

  /** Everything but the lookups: enough for reads. */
  ghost predicate Sound(core: Core, content: Content) {
    && FreshBuilds(core.columns)
    && AllStorable(content, core.columns)
    && Bases(core, content)
    && Follows(core, content)
  }

  ghost predicate Valid(core: Core, content: Content) {
    Sound(core, content) && IndexesValid(core.indexes)
  }

  // Reading gives the content.

  lemma {:induction false} ReadyPathsMembers(columns: seq<Column>)
    ensures forall path :: path in ReadyPaths(columns) <==> exists i :: 0 <= i < |columns| && columns[i].ready && columns[i].path == path
  {
    if columns != [] {
      var front, last := columns[..|columns| - 1], columns[|columns| - 1];
      ReadyPathsMembers(front);
      forall path ensures path in ReadyPaths(columns) <==> exists i :: 0 <= i < |columns| && columns[i].ready && columns[i].path == path {
        if path in ReadyPaths(front) {
          var i :| 0 <= i < |front| && front[i].ready && front[i].path == path;
          assert columns[i] == front[i];
        }
        if i :| 0 <= i < |columns| && columns[i].ready && columns[i].path == path {
          assert i < |front| ==> front[i] == columns[i];
        }
      }
    }
  }

  lemma StorablePaths(v: Value, columns: seq<Column>)
    requires Storable(v, columns)
    ensures PathsOk(v, ReadyPaths(columns))
  {
    ReadyPathsMembers(columns);
    forall path | path in ReadyPaths(columns) ensures PathOk(v, path) {
      var i :| 0 <= i < |columns| && columns[i].ready && columns[i].path == path;
      assert PathOk(v, columns[i].path);
    }
  }

  lemma {:induction false} HydrateSets(base: Value, columns: seq<Column>, rid: nat, v: Value)
    requires ColumnsMatch(columns, rid, Some(v)) && FreshBuilds(columns)
    ensures Hydrate(base, columns, rid) == SetColumns(base, v, ReadyPaths(columns))
  {
    if columns != [] {
      var front, c := columns[..|columns| - 1], columns[|columns| - 1];
      forall i | 0 <= i < |front| ensures ColumnMatches(front[i], rid, Some(v)) && (!front[i].ready ==> front[i].values == map[]) {
        assert front[i] == columns[i];
        assert ColumnMatches(columns[i], rid, Some(v));
      }
      HydrateSets(base, front, rid, v);
      assert ColumnMatches(columns[|columns| - 1], rid, Some(v));
      var paths := ReadyPaths(front);
      if c.ready {
        assert (paths + [c.path])[..|paths|] == paths;
      } else {
        assert paths + [] == paths;
      }
    }
  }

  /** Reads are exact in every sound state: deferral and background work never show. */
  lemma ReadIsContent(core: Core, content: Content, rid: nat)
    requires Sound(core, content)
    ensures Read(core, rid) == At(content, rid)
  {
    assert BaseMatches(core, rid, At(content, rid)) && DerivedMatches(core, rid, At(content, rid));
    if rid in content {
      assert Storable(content[rid], core.columns);
      RowReads(core, rid, content[rid]);
    }
  }

  lemma RowReads(core: Core, rid: nat, v: Value)
    requires FreshBuilds(core.columns) && Storable(v, core.columns)
    requires BaseMatches(core, rid, Some(v))
    requires rid !in core.dirty ==> ColumnsMatch(core.columns, rid, Some(v))
    ensures Read(core, rid) == Some(v)
  {
    if rid !in core.dirty {
      HydrateSets(core.base[rid], core.columns, rid, v);
      StorablePaths(v, core.columns);
      RestLoads(core.base[rid], v, ReadyPaths(core.columns));
    }
  }

  // Batches of writes and deletes.

  /** An accepted write (`Some(value)`) or delete (`None`) of one row. */
  datatype Change = Change(rid: nat, value: Option<Value>)

  function WriteContent(content: Content, rid: nat, v: Option<Value>): Content {
    SetOrRemove(content, rid, v)
  }

  function Latest(content: Content, ds: seq<Delta>): Content {
    if ds == [] then content
    else WriteContent(Latest(content, ds[..|ds| - 1]), ds[|ds| - 1].rid, ds[|ds| - 1].after)
  }

  function ChangeBase(core: Core, c: Change, keepColumnFields: bool): Core {
    if c.value.Some? then WriteBase(core, c.rid, c.value.value, keepColumnFields) else core.(base := core.base - {c.rid})
  }

  /** First all base rows are written, each noting what was read before. */
  function ChangeBases(core: Core, changes: seq<Change>, keepColumnFields: bool): (Core, seq<Delta>) {
    if changes == [] then (core, [])
    else
      var c := changes[|changes| - 1];
      var (mid, ds) := ChangeBases(core, changes[..|changes| - 1], keepColumnFields);
      (ChangeBase(mid, c, keepColumnFields), ds + [Delta(c.rid, Read(mid, c.rid), c.value)])
  }

  function ApplyDeltas(core: Core, ds: seq<Delta>): Core {
    if ds == [] then core else ApplyDelta(ApplyDeltas(core, ds[..|ds| - 1]), ds[|ds| - 1])
  }

  function MarkAll(core: Core, ds: seq<Delta>): Core {
    if ds == [] then core else MarkDirty(MarkAll(core, ds[..|ds| - 1]), ds[|ds| - 1])
  }

  predicate HasIndexWork(core: Core) {
    core.indexes != [] || core.columns != []
  }

  /** `attempted` counts the rows handed in, `changes` are those last-write-wins accepted. */
  function ApplyBatch(core: Core, changes: seq<Change>, attempted: nat): Core {
    var keepColumnFields := attempted >= DEFER_MIN_ROWS && HasIndexWork(core);
    var (mid, ds) := ChangeBases(core, changes, keepColumnFields);
    if |ds| >= DEFER_MIN_ROWS && HasIndexWork(core) then MarkAll(mid, ds) else ApplyDeltas(mid, ds)
  }

  // Columns keep their paths.

  predicate SamePaths(a: seq<Column>, b: seq<Column>) {
    && |a| == |b|
    && forall i {:trigger a[i]} {:trigger b[i]} | 0 <= i < |a| :: a[i].path == b[i].path && a[i].ready == b[i].ready
  }

  lemma {:induction false} SamePathsReady(a: seq<Column>, b: seq<Column>)
    requires SamePaths(a, b)
    ensures ReadyPaths(a) == ReadyPaths(b)
  {
    if a != [] {
      var i := |a| - 1;
      assert a[i].path == b[i].path;
      SamePathsReady(a[..i], b[..i]);
    }
  }

  lemma BaseKept(core: Core, core': Core, rid: nat, obj: Option<Value>)
    requires BaseMatches(core, rid, obj) && SamePaths(core.columns, core'.columns)
    requires rid in core.base <==> rid in core'.base
    requires rid in core.base ==> core.base[rid] == core'.base[rid]
    requires rid in core.dirty <==> rid in core'.dirty
    ensures BaseMatches(core', rid, obj)
  {
    SamePathsReady(core.columns, core'.columns);
  }

  lemma StorableSame(v: Value, a: seq<Column>, b: seq<Column>)
    requires Storable(v, a) && SamePaths(a, b)
    ensures Storable(v, b)
  {
    forall i | 0 <= i < |b| ensures PathOk(v, b[i].path) {
      assert a[i].path == b[i].path;
    }
  }

  // One delta, one column.

  lemma DeltaIndexForward(ix: PathIndex, rid: nat, before: Option<Value>, after: Option<Value>, r: nat, o: Option<Value>)
    requires r != rid ==> Recorded(ix.index, r, o, ix.path)
    requires r == rid ==> o == after && (before.None? ==> after.Some? || rid !in ix.index.forward)
    ensures var ix' := DeltaIndex(ix, rid, before, after); ix'.path == ix.path && Recorded(ix'.index, r, o, ix.path)
  {
  }

  lemma DerivedKept(core: Core, d: Delta, r: nat, o: Option<Value>)
    requires r != d.rid && DerivedMatches(core, r, o)
    ensures DerivedMatches(ApplyDelta(core, d), r, o) && DerivedMatches(MarkDirty(core, d), r, o)
  {
    forall i | 0 <= i < |core.columns|
      ensures BuildMatches(UpdateColumn(core.columns[i], d.rid, d.after), r, o) && BuildMatches(RecordColumn(core.columns[i], d.rid, d.after), r, o)
      ensures ColumnMatches(core.columns[i], r, o) ==>
                ColumnMatches(UpdateColumn(core.columns[i], d.rid, d.after), r, o) && ColumnMatches(RecordColumn(core.columns[i], d.rid, d.after), r, o)
    {
      assert BuildMatches(core.columns[i], r, o);
    }
    if r !in core.dirty {
      forall i | 0 <= i < |core.columns|
        ensures ColumnMatches(UpdateColumn(core.columns[i], d.rid, d.after), r, o) && ColumnMatches(RecordColumn(core.columns[i], d.rid, d.after), r, o)
      {
        assert ColumnMatches(core.columns[i], r, o);
      }
      forall i | 0 <= i < |core.indexes|
        ensures Recorded(DeltaIndex(core.indexes[i], d.rid, d.before, d.after).index, r, o, core.indexes[i].path)
      {
        DeltaIndexForward(core.indexes[i], d.rid, d.before, d.after, r, o);
      }
    }
  }

  lemma DerivedUpdated(core: Core, d: Delta, was: Option<Value>)
    requires DerivedMatches(core, d.rid, was) && (d.before.Some? <==> was.Some?)
    ensures DerivedMatches(ApplyDelta(core, d), d.rid, d.after) && DerivedMatches(MarkDirty(core, d), d.rid, d.after)
  {
    if d.rid !in core.dirty {
      forall i | 0 <= i < |core.indexes|
        ensures Recorded(DeltaIndex(core.indexes[i], d.rid, d.before, d.after).index, d.rid, d.after, core.indexes[i].path)
      {
        assert Recorded(core.indexes[i].index, d.rid, was, core.indexes[i].path);
        DeltaIndexForward(core.indexes[i], d.rid, d.before, d.after, d.rid, d.after);
      }
    }
  }

  lemma DeltaFollows(core: Core, content: Content, d: Delta)
    requires Follows(core, content) && (d.before.Some? <==> d.rid in content)
    ensures Follows(ApplyDelta(core, d), WriteContent(content, d.rid, d.after))
    ensures Follows(MarkDirty(core, d), WriteContent(content, d.rid, d.after))
  {
    var content' := WriteContent(content, d.rid, d.after);
    forall r ensures DerivedMatches(ApplyDelta(core, d), r, At(content', r)) && DerivedMatches(MarkDirty(core, d), r, At(content', r)) {
      assert DerivedMatches(core, r, At(content, r));
      if r == d.rid {
        DerivedUpdated(core, d, At(content, r));
      } else {
        DerivedKept(core, d, r, At(content, r));
        assert At(content', r) == At(content, r);
      }
    }
  }

  // Whole batches.

  ghost predicate AllObjects(changes: seq<Change>) {
    forall k {:trigger changes[k]} | 0 <= k < |changes| && changes[k].value.Some? :: changes[k].value.value.Obj?
  }

  /** Each delta noted a row exactly when the row was live at that point of the batch. */
  ghost predicate Alive(content: Content, ds: seq<Delta>) {
    forall k {:trigger ds[k]} | 0 <= k < |ds| :: ds[k].before.Some? <==> ds[k].rid in Latest(content, ds[..k])
  }

  /** Each delta noted the row as it was at that point of the batch. */
  ghost predicate Agrees(content: Content, dirty: set<nat>, ds: seq<Delta>) {
    forall k {:trigger ds[k]} | 0 <= k < |ds| && ds[k].rid !in dirty :: ds[k].before == At(Latest(content, ds[..k]), ds[k].rid)
  }

  lemma AliveFront(content: Content, ds: seq<Delta>)
    requires ds != [] && Alive(content, ds)
    ensures Alive(content, ds[..|ds| - 1])
    ensures ds[|ds| - 1].before.Some? <==> ds[|ds| - 1].rid in Latest(content, ds[..|ds| - 1])
  {
    var front := ds[..|ds| - 1];
    forall k | 0 <= k < |front| ensures front[k].before.Some? <==> front[k].rid in Latest(content, front[..k]) {
      assert front[k] == ds[k] && front[..k] == ds[..k];
    }
  }

  lemma ChangeBaseMeans(core: Core, content: Content, c: Change, keepColumnFields: bool)
    requires Bases(core, content) && (c.value.Some? ==> c.value.value.Obj?)
    ensures Bases(ChangeBase(core, c, keepColumnFields), WriteContent(content, c.rid, c.value))
  {
    var core', content' := ChangeBase(core, c, keepColumnFields), WriteContent(content, c.rid, c.value);
    forall r ensures BaseMatches(core', r, At(content', r)) {
      assert BaseMatches(core, r, At(content, r));
      if r == c.rid && c.value.Some? {
        RestOfStripped(c.value.value, [], ReadyPaths(core.columns));
        RestOfStripped(c.value.value, ReadyPaths(core.columns), ReadyPaths(core.columns));
      }
    }
  }

  /** What phase one leaves: new bases, nothing else, and one delta a row. */
  ghost predicate Changed(core: Core, content: Content, changes: seq<Change>, keepColumnFields: bool, mid: Core, ds: seq<Delta>) {
    && mid == core.(base := mid.base)
    && |ds| == |changes|
    && (forall k {:trigger ds[k]} | 0 <= k < |ds| :: ds[k].rid == changes[k].rid && ds[k].after == changes[k].value)
    && Bases(mid, Latest(content, ds))
    && Alive(content, ds)
    && (keepColumnFields ==> forall k {:trigger ds[k]} | 0 <= k < |ds| && ds[k].rid in mid.base ::
          ds[k].rid in Latest(content, ds) && mid.base[ds[k].rid] == Latest(content, ds)[ds[k].rid])
  }

  lemma {:induction false} ChangeBasesMeans(core: Core, content: Content, changes: seq<Change>, keepColumnFields: bool)
    requires Bases(core, content) && AllObjects(changes)
    ensures var (mid, ds) := ChangeBases(core, changes, keepColumnFields);
            Changed(core, content, changes, keepColumnFields, mid, ds)
  {
    if changes != [] {
      var front, c := changes[..|changes| - 1], changes[|changes| - 1];
      assert AllObjects(front) by {
        assert forall k | 0 <= k < |front| :: front[k] == changes[k];
      }
      ChangeBasesMeans(core, content, front, keepColumnFields);
      var (mid, ds) := ChangeBases(core, front, keepColumnFields);
      ChangedStep(core, content, front, keepColumnFields, mid, ds, c);
      assert front + [c] == changes;
    }
  }

  lemma LatestStep(content: Content, ds: seq<Delta>, d: Delta)
    ensures Latest(content, ds + [d]) == WriteContent(Latest(content, ds), d.rid, d.after)
  {
    assert (ds + [d])[..|ds|] == ds;
  }

  lemma ChangedStep(core: Core, content: Content, front: seq<Change>, keepColumnFields: bool, mid: Core, ds: seq<Delta>, c: Change)
    requires Changed(core, content, front, keepColumnFields, mid, ds)
    requires c.value.Some? ==> c.value.value.Obj?
    ensures var d := Delta(c.rid, Read(mid, c.rid), c.value);
            Changed(core, content, front + [c], keepColumnFields, ChangeBase(mid, c, keepColumnFields), ds + [d])
  {
    var d := Delta(c.rid, Read(mid, c.rid), c.value);
    var mid', ds', latest := ChangeBase(mid, c, keepColumnFields), ds + [d], Latest(content, ds);
    LatestStep(content, ds, d);
    ChangeBaseMeans(mid, latest, c, keepColumnFields);
    forall k | 0 <= k < |ds'| ensures ds'[k].before.Some? <==> ds'[k].rid in Latest(content, ds'[..k]) {
      if k < |ds| {
        assert ds'[..k] == ds[..k] && ds'[k] == ds[k];
      } else {
        assert ds'[..k] == ds;
        assert BaseMatches(mid, c.rid, At(latest, c.rid));
      }
    }
    if keepColumnFields {
      forall k | 0 <= k < |ds'| && ds'[k].rid in mid'.base
        ensures ds'[k].rid in Latest(content, ds') && mid'.base[ds'[k].rid] == Latest(content, ds')[ds'[k].rid]
      {
        if ds'[k].rid != c.rid {
          assert ds'[k] == ds[k];
        }
      }
    }
  }

  lemma {:induction false} ApplyDeltasKeep(core: Core, ds: seq<Delta>)
    ensures ApplyDeltas(core, ds).base == core.base && ApplyDeltas(core, ds).dirty == core.dirty
    ensures SamePaths(core.columns, ApplyDeltas(core, ds).columns)
    ensures FreshBuilds(core.columns) ==> FreshBuilds(ApplyDeltas(core, ds).columns)
  {
    if ds != [] {
      ApplyDeltasKeep(core, ds[..|ds| - 1]);
    }
  }

  function Rids(ds: seq<Delta>): set<nat> {
    if ds == [] then {} else Rids(ds[..|ds| - 1]) + {ds[|ds| - 1].rid}
  }

  lemma {:induction false} RidsMembers(ds: seq<Delta>, k: nat)
    requires k < |ds|
    ensures ds[k].rid in Rids(ds)
  {
    if k < |ds| - 1 {
      RidsMembers(ds[..|ds| - 1], k);
    }
  }

  lemma {:induction false} RidsFrom(ds: seq<Delta>, rid: nat)
    requires rid in Rids(ds)
    ensures exists k :: 0 <= k < |ds| && ds[k].rid == rid
  {
    if ds[|ds| - 1].rid != rid {
      RidsFrom(ds[..|ds| - 1], rid);
      var k :| 0 <= k < |ds| - 1 && ds[..|ds| - 1][k].rid == rid;
      assert ds[k].rid == rid;
    }
  }

  lemma {:induction false} MarkAllKeeps(core: Core, ds: seq<Delta>)
    ensures MarkAll(core, ds).base == core.base && MarkAll(core, ds).indexes == core.indexes
    ensures MarkAll(core, ds).dirty == core.dirty + Rids(ds)
    ensures SamePaths(core.columns, MarkAll(core, ds).columns)
    ensures FreshBuilds(core.columns) ==> FreshBuilds(MarkAll(core, ds).columns)
  {
    if ds != [] {
      MarkAllKeeps(core, ds[..|ds| - 1]);
    }
  }

  lemma {:induction false} ApplyDeltasFollow(core: Core, content: Content, ds: seq<Delta>)
    requires Follows(core, content) && Alive(content, ds)
    ensures Follows(ApplyDeltas(core, ds), Latest(content, ds))
  {
    if ds != [] {
      AliveFront(content, ds);
      ApplyDeltasFollow(core, content, ds[..|ds| - 1]);
      DeltaFollows(ApplyDeltas(core, ds[..|ds| - 1]), Latest(content, ds[..|ds| - 1]), ds[|ds| - 1]);
    }
  }

  lemma {:induction false} MarkAllFollows(core: Core, content: Content, ds: seq<Delta>)
    requires Follows(core, content) && Alive(content, ds)
    ensures Follows(MarkAll(core, ds), Latest(content, ds))
  {
    if ds != [] {
      AliveFront(content, ds);
      MarkAllFollows(core, content, ds[..|ds| - 1]);
      DeltaFollows(MarkAll(core, ds[..|ds| - 1]), Latest(content, ds[..|ds| - 1]), ds[|ds| - 1]);
    }
  }

  /** The content a batch leaves: its changes in order. */
  function Final(content: Content, changes: seq<Change>): Content {
    if changes == [] then content
    else WriteContent(Final(content, changes[..|changes| - 1]), changes[|changes| - 1].rid, changes[|changes| - 1].value)
  }

  lemma {:induction false} LatestIsFinal(content: Content, changes: seq<Change>, ds: seq<Delta>)
    requires |ds| == |changes|
    requires forall k {:trigger ds[k]} | 0 <= k < |ds| :: ds[k].rid == changes[k].rid && ds[k].after == changes[k].value
    ensures Latest(content, ds) == Final(content, changes)
  {
    if ds != [] {
      var n := |ds| - 1;
      assert ds[n].rid == changes[n].rid;
      LatestIsFinal(content, changes[..n], ds[..n]);
    }
  }

  ghost predicate ChangesStorable(changes: seq<Change>, columns: seq<Column>) {
    forall k {:trigger changes[k]} | 0 <= k < |changes| && changes[k].value.Some? :: Storable(changes[k].value.value, columns)
  }

  lemma {:induction false} FinalStorable(content: Content, changes: seq<Change>, columns: seq<Column>)
    requires AllStorable(content, columns) && ChangesStorable(changes, columns)
    ensures AllStorable(Final(content, changes), columns)
  {
    if changes != [] {
      var n := |changes| - 1;
      forall k | 0 <= k < n && changes[..n][k].value.Some? ensures Storable(changes[..n][k].value.value, columns) {
        assert changes[..n][k] == changes[k];
      }
      FinalStorable(content, changes[..n], columns);
      var before := Final(content, changes[..n]);
      var after := Final(content, changes);
      forall rid | rid in after ensures Storable(after[rid], columns) {
        assert rid != changes[n].rid ==> Storable(before[rid], columns);
      }
    }
  }

  lemma AllStorableSame(content: Content, a: seq<Column>, b: seq<Column>)
    requires AllStorable(content, a) && SamePaths(a, b)
    ensures AllStorable(content, b)
  {
    forall rid | rid in content ensures Storable(content[rid], b) {
      assert Storable(content[rid], a);
      StorableSame(content[rid], a, b);
    }
  }

  lemma ApplyDeltasBases(mid: Core, content: Content, ds: seq<Delta>)
    requires Bases(mid, content)
    ensures Bases(ApplyDeltas(mid, ds), content)
  {
    ApplyDeltasKeep(mid, ds);
    forall rid ensures BaseMatches(ApplyDeltas(mid, ds), rid, At(content, rid)) {
      assert BaseMatches(mid, rid, At(content, rid));
      BaseKept(mid, ApplyDeltas(mid, ds), rid, At(content, rid));
    }
  }

  lemma MarkAllBases(mid: Core, content: Content, ds: seq<Delta>)
    requires Bases(mid, content)
    requires forall k {:trigger ds[k]} | 0 <= k < |ds| && ds[k].rid in mid.base :: ds[k].rid in content && mid.base[ds[k].rid] == content[ds[k].rid]
    ensures Bases(MarkAll(mid, ds), content)
  {
    MarkAllKeeps(mid, ds);
    SamePathsReady(mid.columns, MarkAll(mid, ds).columns);
    forall rid ensures BaseMatches(MarkAll(mid, ds), rid, At(content, rid)) {
      assert BaseMatches(mid, rid, At(content, rid));
      if rid in Rids(ds) && rid in content {
        RidsFrom(ds, rid);
      }
    }
  }

  /**
   * Any batch, however large, with whatever repetitions, leaves each row readable as the last value
   * accepted for it.
   */
  lemma BatchSound(core: Core, content: Content, changes: seq<Change>, attempted: nat)
    requires Sound(core, content) && ChangesStorable(changes, core.columns) && attempted >= |changes|
    ensures Sound(ApplyBatch(core, changes, attempted), Final(content, changes))
  {
    var keepColumnFields := attempted >= DEFER_MIN_ROWS && HasIndexWork(core);
    assert AllObjects(changes);
    ChangeBasesMeans(core, content, changes, keepColumnFields);
    var (mid, ds) := ChangeBases(core, changes, keepColumnFields);
    var latest := Latest(content, ds);
    LatestIsFinal(content, changes, ds);
    FinalStorable(content, changes, core.columns);
    FollowsBase(core, mid, content);
    if |ds| >= DEFER_MIN_ROWS && HasIndexWork(core) {
      MarkAllKeeps(mid, ds);
      MarkAllBases(mid, latest, ds);
      MarkAllFollows(mid, content, ds);
      AllStorableSame(latest, core.columns, MarkAll(mid, ds).columns);
    } else {
      ApplyDeltasKeep(mid, ds);
      ApplyDeltasBases(mid, latest, ds);
      ApplyDeltasFollow(mid, content, ds);
      AllStorableSame(latest, core.columns, ApplyDeltas(mid, ds).columns);
    }
  }

  lemma FollowsBase(core: Core, mid: Core, content: Content)
    requires Follows(core, content) && mid == core.(base := mid.base)
    ensures Follows(mid, content)
  {
    forall rid ensures DerivedMatches(mid, rid, At(content, rid)) {
      assert DerivedMatches(core, rid, At(content, rid));
    }
  }

  predicate Distinct(changes: seq<Change>) {
    forall j, k | 0 <= j < k < |changes| :: changes[j].rid != changes[k].rid
  }

  lemma {:induction false} FinalElsewhere(content: Content, changes: seq<Change>, rid: nat)
    requires forall k {:trigger changes[k]} | 0 <= k < |changes| :: changes[k].rid != rid
    ensures At(Final(content, changes), rid) == At(content, rid)
  {
    if changes != [] {
      var n := |changes| - 1;
      forall k | 0 <= k < n ensures changes[..n][k].rid != rid {
        assert changes[..n][k] == changes[k];
      }
      FinalElsewhere(content, changes[..n], rid);
    }
  }

  lemma {:induction false} BaseElsewhere(core: Core, changes: seq<Change>, keepColumnFields: bool, rid: nat)
    requires forall k {:trigger changes[k]} | 0 <= k < |changes| :: changes[k].rid != rid
    ensures var mid := ChangeBases(core, changes, keepColumnFields).0;
            && mid == core.(base := mid.base)
            && (rid in mid.base <==> rid in core.base) && (rid in core.base ==> mid.base[rid] == core.base[rid])
  {
    if changes != [] {
      var n := |changes| - 1;
      forall k | 0 <= k < n ensures changes[..n][k].rid != rid {
        assert changes[..n][k] == changes[k];
      }
      BaseElsewhere(core, changes[..n], keepColumnFields, rid);
    }
  }

  /** In a batch of different rows, each delta notes the row's content before the batch. */
  lemma {:induction false} DistinctAgrees(core: Core, content: Content, changes: seq<Change>, keepColumnFields: bool)
    requires Sound(core, content) && Distinct(changes) && AllObjects(changes)
    ensures Agrees(content, core.dirty, ChangeBases(core, changes, keepColumnFields).1)
  {
    if changes != [] {
      var n := |changes| - 1;
      var front, c := changes[..n], changes[n];
      assert AllObjects(front) by {
        assert forall k | 0 <= k < n :: front[k] == changes[k];
      }
      DistinctAgrees(core, content, front, keepColumnFields);
      ChangeBasesMeans(core, content, front, keepColumnFields);
      var (mid, ds) := ChangeBases(core, front, keepColumnFields);
      LatestIsFinal(content, front, ds);
      FinalElsewhere(content, front, c.rid);
      BaseElsewhere(core, front, keepColumnFields, c.rid);
      ReadIsContent(core, content, c.rid);
      var ds' := ds + [Delta(c.rid, Read(mid, c.rid), c.value)];
      forall k | 0 <= k < |ds'| && ds'[k].rid !in core.dirty ensures ds'[k].before == At(Latest(content, ds'[..k]), ds'[k].rid) {
        if k < n {
          assert ds'[k] == ds[k] && ds'[..k] == ds[..k];
        } else {
          assert ds'[..k] == ds;
        }
      }
    }
  }

  // Background steps.

  lemma RefreshedForward(ix: PathIndex, rid: nat, obj: Option<Value>, r: nat, o: Option<Value>)
    requires r != rid ==> Recorded(ix.index, r, o, ix.path)
    requires r == rid ==> o == obj
    ensures var ix' := RefreshIndex(ix, rid, obj); ix'.path == ix.path && Recorded(ix'.index, r, o, ix.path)
  {
  }

  lemma RefreshedValid(ix: PathIndex, rid: nat, obj: Option<Value>)
    requires IndexValid(ix.index)
    ensures IndexValid(RefreshIndex(ix, rid, obj).index)
  {
    var cut := if rid in ix.index.forward then RemoveFrom(ix.index, rid, ix.index.forward[rid]) else ix.index;
    if rid in ix.index.forward {
      RemoveValid(ix.index, cut, rid, ix.index.forward[rid]);
    }
    if obj.Some? {
      AddValid(cut, AddTo(cut, rid, GetPath(obj.value, ix.path)), rid, GetPath(obj.value, ix.path));
    }
  }

  /** A step over unchanged content: reads stay right, and so do lookups that were. */
  ghost predicate Keeps(core: Core, content: Content, core': Core) {
    Sound(core', content) && (IndexesValid(core.indexes) ==> IndexesValid(core'.indexes))
  }

  /** Catching up one row makes its derived state exact and leaves every other row's alone. */
  lemma CatchUpDerived(core: Core, content: Content, rid: nat, r: nat)
    requires Sound(core, content)
    ensures DerivedMatches(CatchUp(core, rid), r, At(content, r))
  {
    var obj, core' := At(content, rid), CatchUp(core, rid);
    ReadIsContent(core, content, rid);
    assert DerivedMatches(core, r, At(content, r));
    forall i | 0 <= i < |core'.columns| ensures BuildMatches(core'.columns[i], r, At(content, r)) {
      assert BuildMatches(core.columns[i], r, At(content, r));
    }
    if r !in core'.dirty {
      forall i | 0 <= i < |core'.columns| ensures ColumnMatches(core'.columns[i], r, At(content, r)) {
        assert r != rid ==> ColumnMatches(core.columns[i], r, At(content, r));
      }
      forall i | 0 <= i < |core'.indexes|
        ensures Recorded(core'.indexes[i].index, r, At(content, r), core'.indexes[i].path)
      {
        assert r != rid ==> Recorded(core.indexes[i].index, r, At(content, r), core.indexes[i].path);
        RefreshedForward(core.indexes[i], rid, obj, r, At(content, r));
      }
    }
  }

  lemma CatchUpBase(core: Core, content: Content, rid: nat, r: nat)
    requires Sound(core, content)
    ensures BaseMatches(CatchUp(core, rid), r, At(content, r))
  {
    var core' := CatchUp(core, rid);
    ReadIsContent(core, content, rid);
    assert BaseMatches(core, r, At(content, r));
    SamePathsReady(core.columns, core'.columns);
    if r == rid && r in content {
      assert Storable(content[r], core.columns);
      RestOfStripped(content[r], ReadyPaths(core'.columns), ReadyPaths(core'.columns));
    } else if r != rid {
      BaseKept(core, core', r, At(content, r));
    }
  }

  /** Catch-up keeps every read, whatever the lookups hold. */
  lemma CatchUpKeeps(core: Core, content: Content, rid: nat)
    requires Sound(core, content)
    ensures Keeps(core, content, CatchUp(core, rid))
  {
    var core' := CatchUp(core, rid);
    AllStorableSame(content, core.columns, core'.columns);
    forall r ensures DerivedMatches(core', r, At(content, r)) {
      CatchUpDerived(core, content, rid, r);
    }
    forall r ensures BaseMatches(core', r, At(content, r)) {
      CatchUpBase(core, content, rid, r);
    }
    ReadIsContent(core, content, rid);
    forall i | 0 <= i < |core'.indexes| && IndexesValid(core.indexes) ensures IndexValid(core'.indexes[i].index) {
      assert IndexValid(core.indexes[i].index);
      RefreshedValid(core.indexes[i], rid, At(content, rid));
    }
  }

  ghost predicate Buildable(content: Content, path: string) {
    forall rid | rid in content :: PathOk(content[rid], path)
  }

  lemma BeginBuildKeeps(core: Core, content: Content, path: string)
    requires Sound(core, content) && Buildable(content, path)
    ensures Keeps(core, content, BeginBuild(core, path))
  {
    var core' := BeginBuild(core, path);
    assert core'.columns[..|core.columns|] == core.columns;
    assert ReadyPaths(core.columns) + [] == ReadyPaths(core.columns);
    forall rid | rid in content ensures Storable(content[rid], core'.columns) {
      assert Storable(content[rid], core.columns);
      forall i | 0 <= i < |core'.columns| ensures PathOk(content[rid], core'.columns[i].path) {
        assert i < |core.columns| ==> PathOk(content[rid], core.columns[i].path);
      }
    }
    forall r ensures BaseMatches(core', r, At(content, r)) && DerivedMatches(core', r, At(content, r)) {
      assert BaseMatches(core, r, At(content, r)) && DerivedMatches(core, r, At(content, r));
      forall i | 0 <= i < |core'.columns| ensures BuildMatches(core'.columns[i], r, At(content, r)) {
        assert i < |core.columns| ==> BuildMatches(core.columns[i], r, At(content, r));
      }
      if r !in core.dirty {
        forall i | 0 <= i < |core'.columns| ensures ColumnMatches(core'.columns[i], r, At(content, r)) {
          assert i < |core.columns| ==> ColumnMatches(core.columns[i], r, At(content, r));
        }
      }
    }
  }

  lemma ScanKeeps(core: Core, content: Content, rid: nat)
    requires Sound(core, content)
    ensures Keeps(core, content, Scan(core, rid))
  {
    var core' := Scan(core, rid);
    ReadIsContent(core, content, rid);
    AllStorableSame(content, core.columns, core'.columns);
    forall r ensures BaseMatches(core', r, At(content, r)) && DerivedMatches(core', r, At(content, r)) {
      assert BaseMatches(core, r, At(content, r)) && DerivedMatches(core, r, At(content, r));
      BaseKept(core, core', r, At(content, r));
      forall i | 0 <= i < |core'.columns| ensures BuildMatches(core'.columns[i], r, At(content, r)) {
        assert BuildMatches(core.columns[i], r, At(content, r));
      }
      if r !in core.dirty {
        forall i | 0 <= i < |core'.columns| ensures ColumnMatches(core'.columns[i], r, At(content, r)) {
          assert ColumnMatches(core.columns[i], r, At(content, r));
        }
      }
    }
  }

  /**
   * A finished build linearises: whatever was written, deleted or deferred between its scan steps,
   * the installed column holds every row's current value at its path.
   */
  lemma InstallLinearises(core: Core, content: Content, i: nat, rid: nat)
    requires Sound(core, content) && i < |core.columns| && !core.columns[i].ready && core.columns[i].remaining == {}
    ensures Install(core).columns[i].ready
    ensures Holds(Install(core).columns[i].values, rid, PathValue(At(content, rid), core.columns[i].path))
  {
    assert DerivedMatches(core, rid, At(content, rid));
    assert BuildMatches(core.columns[i], rid, At(content, rid));
  }

  lemma InstallReadyPaths(columns: seq<Column>)
    ensures forall path | path in ReadyPaths(columns) :: path in ReadyPaths(InstallColumns(columns))
  {
    ReadyPathsMembers(columns);
    ReadyPathsMembers(InstallColumns(columns));
    forall path | path in ReadyPaths(columns) ensures path in ReadyPaths(InstallColumns(columns)) {
      var i :| 0 <= i < |columns| && columns[i].ready && columns[i].path == path;
      assert InstallColumns(columns)[i] == columns[i];
    }
  }

  lemma InstallDerived(core: Core, content: Content, r: nat)
    requires Sound(core, content)
    ensures DerivedMatches(Install(core), r, At(content, r))
  {
    var core' := Install(core);
    assert DerivedMatches(core, r, At(content, r));
    forall i | 0 <= i < |core'.columns| ensures BuildMatches(core'.columns[i], r, At(content, r)) {
      assert BuildMatches(core.columns[i], r, At(content, r));
    }
    if r !in core.dirty {
      forall i | 0 <= i < |core'.columns| ensures ColumnMatches(core'.columns[i], r, At(content, r)) {
        assert ColumnMatches(core.columns[i], r, At(content, r));
        if !core.columns[i].ready && core.columns[i].remaining == {} {
          InstallLinearises(core, content, i, r);
        }
      }
    }
  }

  lemma InstallKeeps(core: Core, content: Content)
    requires Sound(core, content)
    ensures Keeps(core, content, Install(core))
  {
    var core' := Install(core);
    InstallReadyPaths(core.columns);
    forall rid | rid in content ensures Storable(content[rid], core'.columns) {
      assert Storable(content[rid], core.columns);
      forall i | 0 <= i < |core'.columns| ensures PathOk(content[rid], core'.columns[i].path) {
        assert PathOk(content[rid], core.columns[i].path);
      }
    }
    forall r ensures DerivedMatches(core', r, At(content, r)) {
      InstallDerived(core, content, r);
    }
    forall r ensures BaseMatches(core', r, At(content, r)) {
      assert BaseMatches(core, r, At(content, r));
      if r in content && r !in core.dirty {
        RestWeakens(core.base[r], content[r], ReadyPaths(core.columns), ReadyPaths(core'.columns));
      }
    }
  }

  /** Stripping hides nothing when columns already hold the paths, or there is nothing to strip. */
  lemma StripKeeps(core: Core, content: Content, rid: nat, paths: seq<string>)
    requires Sound(core, content) && forall path | path in paths :: path in ReadyPaths(core.columns)
    requires rid in core.dirty && rid in content ==> UnsetPaths(content[rid], paths) == content[rid]
    ensures Keeps(core, content, Strip(core, rid, paths))
  {
    var core' := Strip(core, rid, paths);
    ReadIsContent(core, content, rid);
    forall r ensures BaseMatches(core', r, At(content, r)) && DerivedMatches(core', r, At(content, r)) {
      assert BaseMatches(core, r, At(content, r)) && DerivedMatches(core, r, At(content, r));
      if r == rid && r in content {
        assert Storable(content[r], core.columns);
        RestOfStripped(content[r], paths, ReadyPaths(core.columns));
      }
    }
  }

  // Building a field index in one go.

  /** The rows in `order`, each read and added. */
  function BuildIndex(core: Core, path: string, order: seq<nat>): Index {
    if order == [] then NO_INDEX
    else
      var rid := order[|order| - 1];
      var rest, obj := BuildIndex(core, path, order[..|order| - 1]), Read(core, rid);
      if obj.Some? then AddTo(rest, rid, GetPath(obj.value, path)) else rest
  }

  function CreateIndex(core: Core, path: string, order: seq<nat>): Core {
    core.(indexes := core.indexes + [PathIndex(path, BuildIndex(core, path, order))])
  }

  predicate NoRepeats(order: seq<nat>) {
    forall i, j | 0 <= i < j < |order| :: order[i] != order[j]
  }

  lemma {:induction false} BuildIndexMeans(core: Core, content: Content, path: string, order: seq<nat>, rid: nat)
    requires Sound(core, content) && NoRepeats(order)
    ensures IndexValid(BuildIndex(core, path, order))
    ensures Recorded(BuildIndex(core, path, order), rid, if rid in order then At(content, rid) else None, path)
  {
    if order == [] {
      NoIndexValid();
    } else {
      var n := |order| - 1;
      var front, last := order[..n], order[n];
      assert order == front + [last];
      BuildIndexMeans(core, content, path, front, rid);
      BuildIndexMeans(core, content, path, front, last);
      ReadIsContent(core, content, last);
      var rest := BuildIndex(core, path, front);
      if last in content {
        AddValid(rest, BuildIndex(core, path, order), last, GetPath(content[last], path));
      }
    }
  }

  /** An index built from the live rows is exact from the start. */
  lemma CreateIndexKeeps(core: Core, content: Content, path: string, order: seq<nat>)
    requires Sound(core, content) && NoRepeats(order) && forall rid :: rid in order <==> rid in core.base
    ensures Keeps(core, content, CreateIndex(core, path, order))
  {
    var core' := CreateIndex(core, path, order);
    BuildIndexMeans(core, content, path, order, 0);
    forall rid ensures BaseMatches(core', rid, At(content, rid)) && DerivedMatches(core', rid, At(content, rid)) {
      assert BaseMatches(core, rid, At(content, rid)) && DerivedMatches(core, rid, At(content, rid));
      BuildIndexMeans(core, content, path, order, rid);
      forall i | 0 <= i < |core'.indexes| && rid !in core.dirty
        ensures Recorded(core'.indexes[i].index, rid, At(content, rid), core'.indexes[i].path)
      {
        assert i < |core.indexes| ==> Recorded(core.indexes[i].index, rid, At(content, rid), core.indexes[i].path);
      }
    }
    forall i | 0 <= i < |core'.indexes| && IndexesValid(core.indexes) ensures IndexValid(core'.indexes[i].index) {
      assert i < |core.indexes| ==> IndexValid(core.indexes[i].index);
    }
  }

  lemma BatchParts(core: Core, changes: seq<Change>, attempted: nat)
    ensures var keepColumnFields := attempted >= DEFER_MIN_ROWS && HasIndexWork(core);
            var (mid, ds) := ChangeBases(core, changes, keepColumnFields);
            ApplyBatch(core, changes, attempted) ==
            if |ds| >= DEFER_MIN_ROWS && HasIndexWork(core) then MarkAll(mid, ds) else ApplyDeltas(mid, ds)
  {
  }

  // What one batch leaves in the base rows and in the deferred set.

  /** The leaf lies at or under the path of a ready column. */
  predicate Columned(columns: seq<Column>, p: Path) {
    exists i {:trigger columns[i]} :: 0 <= i < |columns| && columns[i].ready && Parts(columns[i].path) != [] && Parts(columns[i].path) <= p
  }

  lemma {:induction false} ReadyPathsCover(columns: seq<Column>, p: Path)
    ensures Covered(ReadyPaths(columns), p) <==> Columned(columns, p)
  {
    hide Parts;
    if columns != [] {
      var n := |columns| - 1;
      var front, more := ReadyPaths(columns[..n]), if columns[n].ready then [columns[n].path] else [];
      ReadyPathsCover(columns[..n], p);
      assert forall j {:trigger columns[j]} {:trigger columns[..n][j]} | 0 <= j < n :: columns[..n][j] == columns[j];
      assert forall i {:trigger front[i]} {:trigger (front + more)[i]} | 0 <= i < |front| :: (front + more)[i] == front[i];
      assert columns[n].ready ==> (front + more)[|front|] == columns[n].path;
    }
  }

  /** The base row of a written value: all of it, or the leaves that no ready column holds. */
  ghost predicate StoredAs(base: map<nat, Value>, rid: nat, value: Option<Value>, columns: seq<Column>, whole: bool) {
    match value
    case None => rid !in base
    case Some(v) =>
      rid in base && base[rid].Obj? &&
      if whole then base[rid] == v
      else forall p: Path | p != [] :: LeafAt(base[rid], p) == if Columned(columns, p) then None else LeafAt(v, p)
  }

  /** No later change of the batch names the row. */
  predicate LastOfRow(changes: seq<Change>, k: nat)
    requires k < |changes|
  {
    forall j {:trigger changes[j]} | k < j < |changes| :: changes[j].rid != changes[k].rid
  }

  lemma {:induction false} ChangeBasesRest(core: Core, changes: seq<Change>, keepColumnFields: bool)
    ensures var (mid, ds) := ChangeBases(core, changes, keepColumnFields);
            && mid.columns == core.columns && mid.indexes == core.indexes && mid.dirty == core.dirty
            && |ds| == |changes| && forall k {:trigger ds[k]} | 0 <= k < |ds| :: ds[k].rid == changes[k].rid
  {
    if changes != [] {
      ChangeBasesRest(core, changes[..|changes| - 1], keepColumnFields);
    }
  }

  lemma {:induction false} ChangeBasesStore(core: Core, changes: seq<Change>, keepColumnFields: bool, k: nat)
    requires AllObjects(changes) && k < |changes| && LastOfRow(changes, k)
    ensures StoredAs(ChangeBases(core, changes, keepColumnFields).0.base, changes[k].rid, changes[k].value, core.columns, keepColumnFields || core.dirty != {})
  {
    var n := |changes| - 1;
    var front := changes[..n];
    ChangeBasesRest(core, front, keepColumnFields);
    if k < n {
      assert front[k] == changes[k] && changes[n].rid != changes[k].rid;
      assert AllObjects(front) by {
        assert forall j | 0 <= j < n :: front[j] == changes[j];
      }
      assert LastOfRow(front, k) by {
        assert forall j | k < j < n :: front[j] == changes[j];
      }
      ChangeBasesStore(core, front, keepColumnFields, k);
    } else if changes[n].value.Some? {
      var v := changes[n].value.value;
      assert v.Obj?;
      forall p: Path | p != []
        ensures UnsetPaths(v, ReadyPaths(core.columns)).Obj?
        ensures LeafAt(UnsetPaths(v, ReadyPaths(core.columns)), p) == if Columned(core.columns, p) then None else LeafAt(v, p)
      {
        StrippedLeaf(v, ReadyPaths(core.columns), p);
        ReadyPathsCover(core.columns, p);
      }
      StrippedLeaf(v, ReadyPaths(core.columns), [""]);
    }
  }

  lemma {:induction false} MarkedRows(ds: seq<Delta>, changes: seq<Change>, rid: nat)
    requires |ds| == |changes| && forall k {:trigger ds[k]} | 0 <= k < |ds| :: ds[k].rid == changes[k].rid
    ensures rid in Rids(ds) <==> exists k {:trigger changes[k]} :: 0 <= k < |changes| && changes[k].rid == rid
  {
    if k :| 0 <= k < |changes| && changes[k].rid == rid {
      assert ds[k].rid == rid;
      RidsMembers(ds, k);
    }
    if rid in Rids(ds) {
      RidsFrom(ds, rid);
    }
  }

  /**
   * What one batch stores and defers.  With an index or a column, 5000 accepted rows or more are all
   * deferred and the indexes wait; fewer defer none.  The base keeps whole rows when 5000 rows were
   * handed in or rows were deferred before, and else only what no ready column holds.
   */
  lemma BatchDefers(core: Core, changes: seq<Change>, attempted: nat, rid: nat)
    requires AllObjects(changes)
    ensures var core' := ApplyBatch(core, changes, attempted);
            var work := core.indexes != [] || core.columns != [];
            && (rid in core'.dirty <==> rid in core.dirty ||
                                        (work && |changes| >= 5000 && exists k {:trigger changes[k]} :: 0 <= k < |changes| && changes[k].rid == rid))
            && (work && |changes| >= 5000 ==> core'.indexes == core.indexes)
            && forall k {:trigger changes[k]} | 0 <= k < |changes| && LastOfRow(changes, k) ::
                 StoredAs(core'.base, changes[k].rid, changes[k].value, core.columns, (work && attempted >= 5000) || core.dirty != {})
  {
    var keepColumnFields := attempted >= DEFER_MIN_ROWS && HasIndexWork(core);
    var (mid, ds) := ChangeBases(core, changes, keepColumnFields);
    ChangeBasesRest(core, changes, keepColumnFields);
    MarkedRows(ds, changes, rid);
    MarkAllKeeps(mid, ds);
    ApplyDeltasKeep(mid, ds);
    forall k {:trigger changes[k]} | 0 <= k < |changes| && LastOfRow(changes, k)
      ensures StoredAs(mid.base, changes[k].rid, changes[k].value, core.columns, keepColumnFields || core.dirty != {})
    {
      ChangeBasesStore(core, changes, keepColumnFields, k);
    }
    hide StoredAs, ChangeBases, MarkAll, ApplyDeltas, Rids, LastOfRow;
  }
}
