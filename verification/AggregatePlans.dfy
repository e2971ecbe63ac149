/**
 * Planned aggregation (src/query-planner.js planAggregate; src/store.js column summaries, column
 * scans and group indexes): over any valid state of the collection each plan gives the groups and
 * metrics of the row fold over the matching live objects.
 *
 * Plans that read columns or groups are used only when no row is deferred.
 */
module AggregatePlans {
  import opened Wrappers
  import opened Layout
  import opened Aggregates
  import opened Groups
  import opened Paging
  import opened FieldIndexes
  import C = Collections
  import D = Deferral
  import Q = Queries
  import R = RidColumns
  import T = TypedColumns

  type Columns = map<string, map<nat, Value>>

  function OperandOf(op: Operator): Option<string> {
    match op
    case CountRows => None
    case Sum(path) => Some(path)
    case Avg(path) => Some(path)
    case Min(path) => Some(path)
    case Max(path) => Some(path)
    case CountField(path) => Some(path)
  }

  function ColumnValue(columns: Columns, path: string, rid: nat): Option<Value> {
    if path in columns && rid in columns[path] then Some(columns[path][rid]) else None
  }

  // The columns a plan may use.

  function FindColumn(columns: seq<C.Column>, path: string): Option<C.Column> {
    if columns == [] then None
    else if columns[|columns| - 1].path == path then Some(columns[|columns| - 1])
    else FindColumn(columns[..|columns| - 1], path)
  }

  /** A column serves only while it is ready and no row is deferred. */
  function Usable(core: C.Core, path: string): Option<map<nat, Value>> {
    var column := FindColumn(core.columns, path);
    if core.dirty != {} || column.None? || !column.value.ready then None else Some(column.value.values)
  }

  /** All of the paths' columns, if every one serves. */
  function ReadyColumns(core: C.Core, paths: seq<string>): Option<Columns> {
    if paths == [] then Some(map[])
    else
      var rest, values := ReadyColumns(core, paths[..|paths| - 1]), Usable(core, paths[|paths| - 1]);
      if rest.None? || values.None? then None else Some(rest.value[paths[|paths| - 1] := values.value])
  }

  /** The paths of the metrics; counting rows needs none. */
  function MetricPaths(fields: seq<FieldSpec>): seq<string> {
    if fields == [] then []
    else
      var path := OperandOf(fields[|fields| - 1].op);
      MetricPaths(fields[..|fields| - 1]) + (if path.Some? then [path.value] else [])
  }

  /** A column of the plan holds what its path reads in every live object. */
  ghost predicate PathHeld(columns: Columns, path: string, content: C.Content) {
    forall rid {:trigger ColumnValue(columns, path, rid)} :: ColumnValue(columns, path, rid) == C.PathValue(C.At(content, rid), path)
  }

  ghost predicate AllHeld(columns: Columns, content: C.Content) {
    forall path {:trigger path in columns} | path in columns :: PathHeld(columns, path, content)
  }

  lemma {:induction false} FindColumnMember(columns: seq<C.Column>, path: string) returns (i: nat)
    requires FindColumn(columns, path).Some?
    ensures i < |columns| && columns[i] == FindColumn(columns, path).value && columns[i].path == path
  {
    var n := |columns| - 1;
    if columns[n].path == path {
      i := n;
    } else {
      i := FindColumnMember(columns[..n], path);
    }
  }

  lemma UsableHeld(core: C.Core, content: C.Content, path: string)
    requires C.Sound(core, content) && Usable(core, path).Some?
    ensures Usable(core, path).value == D.ColumnOf(content, path)
  {
    var i := FindColumnMember(core.columns, path);
    D.CleanColumn(core, content, i);
  }

  /** In a valid state the columns a plan may use hold the content. */
  lemma {:induction false} ReadyColumnsHeld(core: C.Core, content: C.Content, paths: seq<string>)
    requires C.Sound(core, content) && ReadyColumns(core, paths).Some?
    ensures AllHeld(ReadyColumns(core, paths).value, content)
    ensures forall path | path in paths :: path in ReadyColumns(core, paths).value
  {
    var columns := ReadyColumns(core, paths).value;
    if paths != [] {
      var last := paths[|paths| - 1];
      var front := ReadyColumns(core, paths[..|paths| - 1]).value;
      ReadyColumnsHeld(core, content, paths[..|paths| - 1]);
      UsableHeld(core, content, last);
      forall path | path in columns ensures PathHeld(columns, path, content) {
        if path != last {
          assert PathHeld(front, path, content);
          forall rid ensures ColumnValue(columns, path, rid) == C.PathValue(C.At(content, rid), path) {
            assert ColumnValue(front, path, rid) == C.PathValue(C.At(content, rid), path);
          }
        }
      }
      assert paths == paths[..|paths| - 1] + [last];
    }
  }

  lemma {:induction false} MetricPathsMembers(fields: seq<FieldSpec>, i: nat)
    requires i < |fields| && OperandOf(fields[i].op).Some?
    ensures OperandOf(fields[i].op).value in MetricPaths(fields)
  {
    if i < |fields| - 1 {
      MetricPathsMembers(fields[..|fields| - 1], i);
    }
  }

  /** One field stepped by a row's column value instead of its object. */
  function StepFlat(c: Collate, s: FieldState, f: FieldSpec, columns: Columns, rid: nat): FieldState {
    match (f.op, s)
    case (Sum(path), SumState(sum)) =>
      (match ColumnValue(columns, path, rid) case Some(Num(n)) => SumState(sum + n) case _ => s)
    case (Avg(path), AvgState(sum, count)) =>
      (match ColumnValue(columns, path, rid) case Some(Num(n)) => AvgState(sum + n, count + 1) case _ => s)
    case (Min(path), Extreme(v)) => Extreme(Pick(c, true, v, ComparableIn(ColumnValue(columns, path, rid))))
    case (Max(path), Extreme(v)) => Extreme(Pick(c, false, v, ComparableIn(ColumnValue(columns, path, rid))))
    case (CountRows, CountState(n)) => CountState(n + 1)
    case (CountField(path), CountState(n)) =>
      var v := ColumnValue(columns, path, rid);
      if v.Some? && v.value != Null then CountState(n + 1) else s
    case _ => s
  }

  function ComparableIn(v: Option<Value>): Option<Value> {
    if v.Some? && Comparable(v.value) then v else None
  }

  function StepFlatAll(c: Collate, states: seq<FieldState>, fields: seq<FieldSpec>, columns: Columns, rid: nat): (r: seq<FieldState>)
    requires |states| == |fields|
    ensures |r| == |fields| && forall i | 0 <= i < |r| :: r[i] == StepFlat(c, states[i], fields[i], columns, rid)
  {
    if fields == [] then []
    else
      var n := |fields| - 1;
      StepFlatAll(c, states[..n], fields[..n], columns, rid) + [StepFlat(c, states[n], fields[n], columns, rid)]
  }

  lemma MetricColumnsHeld(core: C.Core, content: C.Content, fields: seq<FieldSpec>, columns: Columns)
    requires C.Sound(core, content) && ReadyColumns(core, MetricPaths(fields)).Some?
    requires AllHeld(columns, content) && forall path | path in ReadyColumns(core, MetricPaths(fields)).value :: path in columns
    ensures MetricsHeld(columns, fields, content)
  {
    ReadyColumnsHeld(core, content, MetricPaths(fields));
    forall i, rid | 0 <= i < |fields| && rid in content ensures FieldHeld(columns, fields[i], content, rid) {
      if OperandOf(fields[i].op).Some? {
        MetricPathsMembers(fields, i);
        assert PathHeld(columns, OperandOf(fields[i].op).value, content);
      }
    }
  }

  /** The columns of the metrics hold what their paths read. */
  ghost predicate MetricsHeld(columns: Columns, fields: seq<FieldSpec>, content: C.Content) {
    forall i, rid {:trigger FieldHeld(columns, fields[i], content, rid)} | 0 <= i < |fields| && rid in content ::
      FieldHeld(columns, fields[i], content, rid)
  }

  predicate FieldHeld(columns: Columns, f: FieldSpec, content: C.Content, rid: nat)
    requires rid in content
  {
    OperandOf(f.op).Some? ==> ColumnValue(columns, OperandOf(f.op).value, rid) == GetPath(content[rid], OperandOf(f.op).value)
  }

  function RowsOf(content: C.Content, ids: seq<nat>): (rows: seq<Value>)
    requires forall k | 0 <= k < |ids| :: ids[k] in content
    ensures |rows| == |ids| && forall k | 0 <= k < |ids| :: rows[k] == content[ids[k]]
  {
    if ids == [] then [] else RowsOf(content, ids[..|ids| - 1]) + [content[ids[|ids| - 1]]]
  }

  lemma StepFlatIsStep(c: Collate, s: FieldState, f: FieldSpec, columns: Columns, content: C.Content, rid: nat)
    requires rid in content && FieldHeld(columns, f, content, rid)
    ensures StepFlat(c, s, f, columns, rid) == StepField(c, s, f, content[rid])
  {
  }

  lemma StepFlatAllIsStep(c: Collate, states: seq<FieldState>, fields: seq<FieldSpec>, columns: Columns, content: C.Content, rid: nat)
    requires |states| == |fields| && rid in content && MetricsHeld(columns, fields, content)
    ensures StepFlatAll(c, states, fields, columns, rid) == StepAll(c, states, fields, content[rid])
  {
    forall i | 0 <= i < |fields|
      ensures StepFlat(c, states[i], fields[i], columns, rid) == StepField(c, states[i], fields[i], content[rid])
    {
      assert FieldHeld(columns, fields[i], content, rid);
      StepFlatIsStep(c, states[i], fields[i], columns, content, rid);
    }
  }

  // Scans that group by a value known for each row.

  /** A scanned row steps its group's bucket. */
  function StepGroup(c: Collate, spec: Spec, columns: Columns, bs: seq<Bucket>, key: seq<Value>, rid: nat): seq<Bucket>
    requires Sized(spec, bs)
  {
    if bs == [] then [Bucket(key, StepFlatAll(c, InitAll(spec.fields), spec.fields, columns, rid))]
    else if bs[0].key == key then [Bucket(key, StepFlatAll(c, bs[0].states, spec.fields, columns, rid))] + bs[1..]
    else [bs[0]] + StepGroup(c, spec, columns, bs[1..], key, rid)
  }

  lemma {:induction false} StepGroupIsStepRow(c: Collate, spec: Spec, columns: Columns, content: C.Content, bs: seq<Bucket>, rid: nat)
    requires Sized(spec, bs) && rid in content && MetricsHeld(columns, spec.fields, content)
    ensures StepGroup(c, spec, columns, bs, GroupKey(spec.groupBy, content[rid]), rid) == StepRow(c, spec, bs, content[rid])
  {
    if bs == [] {
      StepFlatAllIsStep(c, InitAll(spec.fields), spec.fields, columns, content, rid);
    } else if bs[0].key == GroupKey(spec.groupBy, content[rid]) {
      StepFlatAllIsStep(c, bs[0].states, spec.fields, columns, content, rid);
    } else {
      StepGroupIsStepRow(c, spec, columns, content, bs[1..], rid);
    }
  }

  lemma PartialSnoc(c: Collate, spec: Spec, content: C.Content, ids: seq<nat>, i: nat)
    requires i < |ids| && forall k | 0 <= k < |ids| :: ids[k] in content
    ensures Partial(c, spec, RowsOf(content, ids[..i + 1])) == StepRow(c, spec, Partial(c, spec, RowsOf(content, ids[..i])), content[ids[i]])
  {
    assert ids[..i + 1][..i] == ids[..i];
    var rows := RowsOf(content, ids[..i + 1]);
    assert rows[..i] == RowsOf(content, ids[..i]);
  }

  /** The group values a grouped column scan reads; a value that is no scalar stops the scan. */
  function ColumnKey(columns: Columns, groupBy: seq<string>, rid: nat): (key: Option<seq<Value>>)
    ensures key.Some? ==> |key.value| == |groupBy|
  {
    if groupBy == [] then Some([])
    else
      var rest, v := ColumnKey(columns, groupBy[..|groupBy| - 1], rid), ColumnValue(columns, groupBy[|groupBy| - 1], rid);
      if rest.None? || (v.Some? && v.value != Null && !Comparable(v.value)) then None
      else Some(rest.value + [v.GetOr(Null)])
  }

  /** What stops a grouped column scan: a value that is an array or an object. */
  predicate Structured(v: Option<Value>) {
    v.Some? && (v.value.Arr? || v.value.Obj?)
  }

  lemma ColumnKeyGrows(columns: Columns, groupBy: seq<string>, row: Value, rid: nat)
    requires groupBy != [] && ColumnValue(columns, groupBy[|groupBy| - 1], rid) == GetPath(row, groupBy[|groupBy| - 1])
    requires var n := |groupBy| - 1; ColumnKey(columns, groupBy[..n], rid).Some? ==> ColumnKey(columns, groupBy[..n], rid).value == GroupKey(groupBy[..n], row)
    ensures ColumnKey(columns, groupBy, rid).Some? ==> ColumnKey(columns, groupBy, rid).value == GroupKey(groupBy, row)
    ensures ColumnKey(columns, groupBy, rid).None? ==>
              ColumnKey(columns, groupBy[..|groupBy| - 1], rid).None? || Structured(GetPath(row, groupBy[|groupBy| - 1]))
  {
    hide GetPath, ColumnValue;
  }

  lemma {:induction false} ColumnKeyIsGroupKey(columns: Columns, groupBy: seq<string>, row: Value, rid: nat)
    requires forall i | 0 <= i < |groupBy| :: ColumnValue(columns, groupBy[i], rid) == GetPath(row, groupBy[i])
    ensures ColumnKey(columns, groupBy, rid).Some? ==> ColumnKey(columns, groupBy, rid).value == GroupKey(groupBy, row)
    ensures ColumnKey(columns, groupBy, rid).None? ==> exists i :: 0 <= i < |groupBy| && Structured(GetPath(row, groupBy[i]))
  {
    if groupBy == [] {
      assert ColumnKey(columns, groupBy, rid) == Some([]) && GroupKey(groupBy, row) == [];
    } else {
      var n := |groupBy| - 1;
      ColumnKeyIsGroupKey(columns, groupBy[..n], row, rid);
      ColumnKeyGrows(columns, groupBy, row, rid);
      hide ColumnKey, GroupKey, GetPath, ColumnValue, Structured;
      if ColumnKey(columns, groupBy[..n], rid).None? {
        var i :| 0 <= i < n && Structured(GetPath(row, groupBy[..n][i]));
        assert groupBy[..n][i] == groupBy[i];
      }
    }
  }

  ghost predicate GroupsHeld(columns: Columns, groupBy: seq<string>, content: C.Content) {
    forall i, rid {:trigger ColumnValue(columns, groupBy[i], rid)} | 0 <= i < |groupBy| && rid in content ::
      ColumnValue(columns, groupBy[i], rid) == GetPath(content[rid], groupBy[i])
  }

  /** Scanning metric and group columns over row ids: the row fold over those rows, or no answer. */
  method ScanGroupedColumns(c: Collate, spec: Spec, columns: Columns, ghost content: C.Content, ids: seq<nat>)
    returns (answered: bool, bs: seq<Bucket>)
    requires forall k | 0 <= k < |ids| :: ids[k] in content
    requires MetricsHeld(columns, spec.fields, content) && GroupsHeld(columns, spec.groupBy, content)
    ensures answered ==> bs == Partial(c, spec, RowsOf(content, ids))
    ensures !answered ==> exists k, i {:trigger ColumnValue(columns, spec.groupBy[i], ids[k])} :: 0 <= k < |ids| && 0 <= i < |spec.groupBy|
                            && Structured(ColumnValue(columns, spec.groupBy[i], ids[k]))
  {
    bs := [];
    for k := 0 to |ids|
      invariant bs == Partial(c, spec, RowsOf(content, ids[..k]))
    {
      ColumnKeyIsGroupKey(columns, spec.groupBy, content[ids[k]], ids[k]);
      var key := ColumnKey(columns, spec.groupBy, ids[k]);
      if key.None? {
        ghost var i :| 0 <= i < |spec.groupBy| && Structured(GetPath(content[ids[k]], spec.groupBy[i]));
        assert ColumnValue(columns, spec.groupBy[i], ids[k]) == GetPath(content[ids[k]], spec.groupBy[i]);
        return false, [];
      }
      StepGroupIsStepRow(c, spec, columns, content, bs, ids[k]);
      PartialSnoc(c, spec, content, ids, k);
      bs := StepGroup(c, spec, columns, bs, key.value, ids[k]);
    }
    assert ids[..|ids|] == ids;
    answered := true;
  }

  function ForwardKey(ix: Index, rid: nat): seq<Value> {
    [if rid in ix.forward then ix.forward[rid].GetOr(Null) else Null]
  }

  lemma ForwardStep(c: Collate, spec: Spec, columns: Columns, ix: Index, content: C.Content, ids: seq<nat>, k: nat)
    requires |spec.groupBy| == 1 && k < |ids| && forall i | 0 <= i < |ids| :: ids[i] in content
    requires MetricsHeld(columns, spec.fields, content) && ix.forward == D.ValuesOf(content, spec.groupBy[0])
    ensures StepGroup(c, spec, columns, Partial(c, spec, RowsOf(content, ids[..k])), ForwardKey(ix, ids[k]), ids[k]) ==
            Partial(c, spec, RowsOf(content, ids[..k + 1]))
  {
    assert GroupKey(spec.groupBy, content[ids[k]]) == ForwardKey(ix, ids[k]);
    hide ForwardKey, GroupKey, StepGroup, Partial;
    StepGroupIsStepRow(c, spec, columns, content, Partial(c, spec, RowsOf(content, ids[..k])), ids[k]);
    PartialSnoc(c, spec, content, ids, k);
  }

  /** The same with the group value taken from a field index's forward map. */
  method ScanForwardGrouped(c: Collate, spec: Spec, columns: Columns, ix: Index, ghost content: C.Content, ids: seq<nat>)
    returns (bs: seq<Bucket>)
    requires |spec.groupBy| == 1 && forall k | 0 <= k < |ids| :: ids[k] in content
    requires MetricsHeld(columns, spec.fields, content) && ix.forward == D.ValuesOf(content, spec.groupBy[0])
    ensures bs == Partial(c, spec, RowsOf(content, ids))
  {
    bs := [];
    assert Partial(c, spec, RowsOf(content, ids[..0])) == [];
    hide *;
    for k := 0 to |ids|
      invariant bs == Partial(c, spec, RowsOf(content, ids[..k]))
    {
      ForwardStep(c, spec, columns, ix, content, ids, k);
      bs := StepGroup(c, spec, columns, bs, ForwardKey(ix, ids[k]), ids[k]);
    }
    assert ids[..|ids|] == ids;
  }

  lemma StatesSnoc(c: Collate, fields: seq<FieldSpec>, content: C.Content, ids: seq<nat>, k: nat)
    requires k < |ids| && forall i | 0 <= i < |ids| :: ids[i] in content
    ensures StatesOf(c, fields, RowsOf(content, ids[..k + 1])) == StepAll(c, StatesOf(c, fields, RowsOf(content, ids[..k])), fields, content[ids[k]])
  {
    assert ids[..k + 1][..k] == ids[..k];
    assert RowsOf(content, ids[..k + 1])[..k] == RowsOf(content, ids[..k]);
  }

  /** Without groups a scan keeps one running state per field: the fold of the rows. */
  method ScanColumns(c: Collate, fields: seq<FieldSpec>, columns: Columns, ghost content: C.Content, ids: seq<nat>) returns (states: seq<FieldState>)
    requires forall k | 0 <= k < |ids| :: ids[k] in content
    requires MetricsHeld(columns, fields, content)
    ensures states == StatesOf(c, fields, RowsOf(content, ids))
  {
    states := InitAll(fields);
    assert RowsOf(content, ids[..0]) == [] && states == StatesOf(c, fields, RowsOf(content, ids[..0]));
    hide StatesOf, RowsOf;
    for k := 0 to |ids|
      invariant states == StatesOf(c, fields, RowsOf(content, ids[..k]))
    {
      StepFlatAllIsStep(c, states, fields, columns, content, ids[k]);
      StatesSnoc(c, fields, content, ids, k);
      states := StepFlatAll(c, states, fields, columns, ids[k]);
    }
    assert ids[..|ids|] == ids;
  }

  lemma {:induction false} RowsAppend(content: C.Content, a: seq<nat>, b: seq<nat>)
    requires forall k | 0 <= k < |a| :: a[k] in content
    requires forall k | 0 <= k < |b| :: b[k] in content
    ensures (forall k | 0 <= k < |a + b| :: (a + b)[k] in content) && RowsOf(content, a + b) == RowsOf(content, a) + RowsOf(content, b)
  {
  }

  // Listing the rows of a set.

  /** Each member once, in some order. */
  ghost predicate Enumerates(ids: seq<nat>, s: set<nat>) {
    C.NoRepeats(ids) && (forall rid :: rid in ids <==> rid in s) && |ids| == |s|
  }

  lemma EnumeratesMore(ids: seq<nat>, s: set<nat>, more: seq<nat>, t: set<nat>)
    requires Enumerates(ids, s) && Enumerates(more, t) && s !! t
    ensures Enumerates(ids + more, s + t)
  {
    var all := ids + more;
    forall i, j | 0 <= i < j < |all| ensures all[i] != all[j] {
      if i < |ids| <= j {
        assert all[i] in ids && all[j] in more;
      }
    }
    forall rid ensures rid in all <==> rid in s + t {}
  }

  lemma EnumeratesOne(rid: nat)
    ensures Enumerates([rid], {rid})
  {
  }

  method Listing(s: set<nat>) returns (ids: seq<nat>)
    ensures Enumerates(ids, s)
  {
    var left := s;
    ids := [];
    while left != {}
      invariant left <= s && Enumerates(ids, s - left)
      decreases left
    {
      var rid :| rid in left;
      EnumeratesOne(rid);
      EnumeratesMore(ids, s - left, [rid], {rid});
      assert s - (left - {rid}) == (s - left) + {rid};
      left := left - {rid};
      ids := ids + [rid];
    }
    assert s - {} == s;
  }

  lemma {:induction false} Enumeration(s: set<nat>) returns (ids: seq<nat>)
    ensures Enumerates(ids, s)
  {
    if s == {} {
      ids := [];
    } else {
      var rid :| rid in s;
      var rest := Enumeration(s - {rid});
      EnumeratesOne(rid);
      EnumeratesMore(rest, s - {rid}, [rid], {rid});
      assert s - {rid} + {rid} == s;
      ids := rest + [rid];
    }
  }

  // The answer of a plan.

  /** The row fold over some rows, each once, in some order. */
  ghost predicate FoldsOver(c: Collate, spec: Spec, content: C.Content, ids: seq<nat>, s: set<nat>, bs: seq<Bucket>) {
    s <= content.Keys && Enumerates(ids, s) && (forall k | 0 <= k < |ids| :: ids[k] in content) && bs == Partial(c, spec, RowsOf(content, ids))
  }

  /** A plan's buckets are the row fold over exactly these rows, each once, in some order. */
  ghost predicate Answers(c: Collate, spec: Spec, content: C.Content, s: set<nat>, bs: seq<Bucket>) {
    exists ids :: FoldsOver(c, spec, content, ids, s, bs)
  }

  /** The live objects have one comparable type at each path of a minimum or maximum. */
  ghost predicate ContentFits(spec: Spec, tags: seq<nat>, content: C.Content) {
    |tags| == |spec.fields| && forall rid {:trigger content[rid]} | rid in content :: OneRowFits(spec, tags, content[rid])
  }

  lemma RowsOfFit(spec: Spec, tags: seq<nat>, content: C.Content, ids: seq<nat>)
    requires ContentFits(spec, tags, content) && forall k | 0 <= k < |ids| :: ids[k] in content
    ensures RowsFit(spec, tags, RowsOf(content, ids))
  {
    var rows := RowsOf(content, ids);
    forall k, i | 0 <= k < |rows| && 0 <= i < |tags| ensures RowFits(spec.fields[i], tags[i], rows[k]) {
      assert OneRowFits(spec, tags, content[ids[k]]);
      assert tags[i] == tags[i];
    }
  }

  /** Only the rows are counted. */
  predicate RowCountOnly(fields: seq<FieldSpec>) {
    fields != [] && forall i | 0 <= i < |fields| :: fields[i].op.CountRows?
  }

  function RowCounts(fields: seq<FieldSpec>, n: nat): (states: seq<FieldState>)
    ensures |states| == |fields| && forall i | 0 <= i < |states| :: states[i] == CountState(n)
  {
    if fields == [] then [] else RowCounts(fields[1..], n) + [CountState(n)]
  }

  lemma CountStep(c: Collate, f: FieldSpec, n: nat, row: Value)
    requires f.op.CountRows?
    ensures StepField(c, CountState(n), f, row) == CountState(n + 1) && Init(f) == CountState(0)
  {
  }

  lemma {:induction false} CountedRows(c: Collate, fields: seq<FieldSpec>, rows: seq<Value>)
    requires RowCountOnly(fields)
    ensures StatesOf(c, fields, rows) == RowCounts(fields, |rows|)
  {
    var states := StatesOf(c, fields, rows);
    if rows != [] {
      CountedRows(c, fields, rows[..|rows| - 1]);
    }
    hide StepField, Init;
    forall i | 0 <= i < |fields| ensures states[i] == CountState(|rows|) {
      CountStep(c, fields[i], if rows == [] then 0 else |rows| - 1, if rows == [] then Null else rows[|rows| - 1]);
    }
  }

  // Whatever the order.

  lemma {:induction false} OnceEach(ids: seq<nat>, rid: nat)
    requires C.NoRepeats(ids)
    ensures multiset(ids)[rid] == if rid in ids then 1 else 0
  {
    if ids != [] {
      var front, last := ids[..|ids| - 1], ids[|ids| - 1];
      assert ids == front + [last];
      OnceEach(front, rid);
      assert last !in front;
    }
  }

  lemma EnumeratesPermute(a: seq<nat>, b: seq<nat>, s: set<nat>)
    requires Enumerates(a, s) && Enumerates(b, s)
    ensures multiset(a) == multiset(b)
  {
    forall rid ensures multiset(a)[rid] == multiset(b)[rid] {
      OnceEach(a, rid);
      OnceEach(b, rid);
    }
  }

  lemma Without(a: seq<nat>, b: seq<nat>) returns (b1: seq<nat>, b2: seq<nat>)
    requires a != [] && multiset(a) == multiset(b)
    ensures b == b1 + [a[|a| - 1]] + b2 && multiset(a[..|a| - 1]) == multiset(b1 + b2)
  {
    var front, x := a[..|a| - 1], a[|a| - 1];
    assert a == front + [x];
    assert x in multiset(b);
    var j :| 0 <= j < |b| && b[j] == x;
    b1, b2 := b[..j], b[j + 1..];
    assert b == b1 + [x] + b2;
    assert multiset(b) == multiset(b1 + b2) + multiset{x};
    assert multiset(front) == multiset(a) - multiset{x};
  }

  lemma RowsMove(content: C.Content, b1: seq<nat>, x: nat, b2: seq<nat>)
    requires x in content && forall k | 0 <= k < |b1 + b2| :: (b1 + b2)[k] in content
    ensures forall k | 0 <= k < |b1 + [x] + b2| :: (b1 + [x] + b2)[k] in content
    ensures multiset(RowsOf(content, b1 + [x] + b2)) == multiset(RowsOf(content, b1 + b2)) + multiset{content[x]}
  {
    forall k | 0 <= k < |b1| ensures b1[k] in content {
      assert (b1 + b2)[k] in content;
    }
    forall k | 0 <= k < |b2| ensures b2[k] in content {
      assert (b1 + b2)[|b1| + k] in content;
    }
    RowsAppend(content, b1, b2);
    RowsAppend(content, b1, [x]);
    RowsAppend(content, b1 + [x], b2);
    assert RowsOf(content, [x]) == [content[x]];
  }

  lemma {:induction false} RowsPermute(content: C.Content, a: seq<nat>, b: seq<nat>)
    requires multiset(a) == multiset(b) && forall k | 0 <= k < |a| :: a[k] in content
    ensures (forall k | 0 <= k < |b| :: b[k] in content) && multiset(RowsOf(content, a)) == multiset(RowsOf(content, b))
    decreases |a|
  {
    if a == [] {
      assert |multiset(b)| == 0;
      assert b == [];
    } else {
      var front, x := a[..|a| - 1], a[|a| - 1];
      var b1, b2 := Without(a, b);
      RowsPermute(content, front, b1 + b2);
      RowsMove(content, b1, x, b2);
      assert RowsOf(content, a) == RowsOf(content, front) + [content[x]];
    }
  }

  /** Whatever order a plan visits its rows in, its groups and metrics are those of the fold in any order. */
  lemma AnyOrder(c: Collate, spec: Spec, tags: seq<nat>, content: C.Content, s: set<nat>, bs: seq<Bucket>, ids: seq<nat>, order: seq<nat>, key: seq<Value>)
    requires FoldsOver(c, spec, content, ids, s, bs) && Enumerates(order, s)
    requires TieFree(c, spec.fields) && ContentFits(spec, tags, content)
    ensures forall k | 0 <= k < |order| :: order[k] in content
    ensures HasKey(bs, key) <==> HasKey(Partial(c, spec, RowsOf(content, order)), key)
    ensures Look(spec, bs, key) == Look(spec, Partial(c, spec, RowsOf(content, order)), key)
  {
    EnumeratesPermute(ids, order, s);
    RowsPermute(content, ids, order);
    RowsOfFit(spec, tags, content, ids);
    SameGroupsAndMetrics(c, spec, tags, RowsOf(content, ids), RowsOf(content, order), key);
  }

  // Column summaries.

  /** Summaries answer sums, averages and counts. */
  predicate Summarisable(fields: seq<FieldSpec>) {
    forall i | 0 <= i < |fields| :: !Extremal(fields[i])
  }

  /** The typed columns stand for the plan's columns. */
  ghost predicate CellsStand(cells: map<string, R.Cells>, columns: Columns) {
    forall path {:trigger path in columns} | path in columns :: path in cells && T.Represents(cells[path], columns[path])
  }

  function Natural(n: int): nat {
    if n < 0 then 0 else n
  }

  /** A metric read off its column's running totals. */
  function SummaryState(f: FieldSpec, cells: map<string, R.Cells>, live: nat): FieldState
    requires OperandOf(f.op).Some? ==> OperandOf(f.op).value in cells
  {
    match f.op
    case Sum(path) => SumState(cells[path].numberSum)
    case Avg(path) => AvgState(cells[path].numberSum, Natural(cells[path].numberCount))
    case CountRows => CountState(live)
    case CountField(path) => CountState(Natural(cells[path].scalarCount + cells[path].nullCount + |cells[path].overflow|))
    case _ => Extreme(None)
  }

  function SummaryStates(fields: seq<FieldSpec>, cells: map<string, R.Cells>, live: nat): (states: seq<FieldState>)
    requires forall i | 0 <= i < |fields| && OperandOf(fields[i].op).Some? :: OperandOf(fields[i].op).value in cells
    ensures |states| == |fields| && forall i | 0 <= i < |fields| :: states[i] == SummaryState(fields[i], cells, live)
  {
    if fields == [] then []
    else SummaryStates(fields[..|fields| - 1], cells, live) + [SummaryState(fields[|fields| - 1], cells, live)]
  }

  /** One field's fold. */
  function Folded(c: Collate, f: FieldSpec, rows: seq<Value>): FieldState {
    if rows == [] then Init(f) else StepField(c, Folded(c, f, rows[..|rows| - 1]), f, rows[|rows| - 1])
  }

  lemma {:induction false} FoldedState(c: Collate, fields: seq<FieldSpec>, rows: seq<Value>, i: nat)
    requires i < |fields|
    ensures StatesOf(c, fields, rows)[i] == Folded(c, fields[i], rows)
  {
    if rows != [] {
      FoldedState(c, fields, rows[..|rows| - 1], i);
    }
  }

  /** The cells hold what the path reads in every live object. */
  ghost predicate CellsHold(cells: R.Cells, content: C.Content, path: string) {
    && R.CellsValid(cells)
    && forall rid {:trigger R.At(cells, rid)} :: R.At(cells, rid) == R.ColumnState(C.PathValue(C.At(content, rid), path))
  }

  /** The live rows below `n` in order. */
  function Live(content: C.Content, n: nat): (ids: seq<nat>)
    ensures forall k | 0 <= k < |ids| :: ids[k] in content
  {
    if n == 0 then [] else if n - 1 in content then Live(content, n - 1) + [n - 1] else Live(content, n - 1)
  }

  function OthersBelow(cells: R.Cells, n: nat): nat
    requires R.SameLengths(cells)
  {
    if n == 0 then 0 else OthersBelow(cells, n - 1) + (if R.At(cells, n - 1).NonScalar? then 1 else 0)
  }

  /** A metric recounted from the first `n` rows. */
  ghost function Recounted(f: FieldSpec, cells: R.Cells, n: nat, live: nat): FieldState
    requires R.SameLengths(cells)
  {
    match f.op
    case Sum(_) => SumState(R.Recount(R.Sum, cells, n))
    case Avg(_) => AvgState(R.Recount(R.Sum, cells, n), Natural(R.Recount(R.Numbers, cells, n)))
    case CountRows => CountState(live)
    case CountField(_) => CountState(Natural(R.Recount(R.Scalars, cells, n) + OthersBelow(cells, n)))
    case _ => Extreme(None)
  }

  lemma {:induction false} RecountNatural(cells: R.Cells, n: nat)
    requires R.SameLengths(cells)
    ensures R.Recount(R.Numbers, cells, n) >= 0 && R.Recount(R.Scalars, cells, n) >= 0 && R.Recount(R.Nulls, cells, n) >= 0
  {
    if n != 0 {
      RecountNatural(cells, n - 1);
    }
  }

  lemma RecountedStep(c: Collate, f: FieldSpec, path: string, cells: R.Cells, content: C.Content, n: nat, live: nat)
    requires !Extremal(f) && (OperandOf(f.op).Some? ==> OperandOf(f.op).value == path) && R.SameLengths(cells)
    requires CellHolds(cells, content, path, n)
    ensures if n in content then StepField(c, Recounted(f, cells, n, live), f, content[n]) == Recounted(f, cells, n + 1, live + 1)
            else Recounted(f, cells, n, live) == Recounted(f, cells, n + 1, live)
  {
    RecountNatural(cells, n);
    RecountNatural(cells, n + 1);
  }

  lemma FoldedSnoc(c: Collate, f: FieldSpec, rows: seq<Value>, row: Value)
    ensures Folded(c, f, rows + [row]) == StepField(c, Folded(c, f, rows), f, row)
  {
    assert (rows + [row])[..|rows|] == rows;
  }

  lemma LiveStep(c: Collate, f: FieldSpec, content: C.Content, n: nat)
    ensures n in content ==> Folded(c, f, RowsOf(content, Live(content, n + 1))) ==
                             StepField(c, Folded(c, f, RowsOf(content, Live(content, n))), f, content[n])
    ensures n !in content ==> Live(content, n + 1) == Live(content, n)
    ensures |Live(content, n + 1)| == |Live(content, n)| + (if n in content then 1 else 0)
  {
    if n in content {
      var before := Live(content, n);
      assert (before + [n])[..|before|] == before;
      assert RowsOf(content, Live(content, n + 1)) == RowsOf(content, before) + [content[n]];
      FoldedSnoc(c, f, RowsOf(content, before), content[n]);
    }
  }

  ghost predicate CellHolds(cells: R.Cells, content: C.Content, path: string, rid: nat)
    requires R.SameLengths(cells)
  {
    R.At(cells, rid) == R.ColumnState(C.PathValue(C.At(content, rid), path))
  }

  lemma {:induction false} FoldedPrefix(c: Collate, f: FieldSpec, path: string, cells: R.Cells, content: C.Content, n: nat)
    requires !Extremal(f) && (OperandOf(f.op).Some? ==> OperandOf(f.op).value == path) && R.SameLengths(cells)
    requires forall rid | 0 <= rid < n :: CellHolds(cells, content, path, rid)
    ensures Folded(c, f, RowsOf(content, Live(content, n))) == Recounted(f, cells, n, |Live(content, n)|)
  {
    hide *;
    if n != 0 {
      FoldedPrefix(c, f, path, cells, content, n - 1);
      RecountedStep(c, f, path, cells, content, n - 1, |Live(content, n - 1)|);
      LiveStep(c, f, content, n - 1);
    } else {
      NothingFolded(c, f, content, cells);
    }
  }

  lemma NothingFolded(c: Collate, f: FieldSpec, content: C.Content, cells: R.Cells)
    requires !Extremal(f) && R.SameLengths(cells)
    ensures Folded(c, f, RowsOf(content, Live(content, 0))) == Recounted(f, cells, 0, |Live(content, 0)|)
  {
  }

  lemma {:induction false} RecountBeyond(f: R.Figure, cells: R.Cells, n: nat)
    requires R.CellsValid(cells) && n >= |cells.numberValues|
    ensures R.Recount(f, cells, n) == R.Recount(f, cells, |cells.numberValues|)
  {
    if n > |cells.numberValues| {
      RecountBeyond(f, cells, n - 1);
      R.TotalsExact(cells);
    }
  }

  lemma {:induction false} OthersCount(cells: R.Cells, n: nat, keys: set<nat>)
    requires R.SameLengths(cells) && forall r: nat {:trigger R.At(cells, r)} | r < n :: R.At(cells, r).NonScalar? <==> r in cells.overflow
    requires forall r :: r in keys <==> r < n && r in cells.overflow
    ensures OthersBelow(cells, n) == |keys|
  {
    hide R.At;
    if n == 0 {
      assert keys == {};
    } else {
      var rest := keys - {n - 1};
      OthersCount(cells, n - 1, rest);
      if n - 1 in cells.overflow {
        assert keys == rest + {n - 1};
      } else {
        assert rest == keys;
      }
    }
  }

  lemma Others(cells: R.Cells)
    requires R.CellsValid(cells)
    ensures forall r: nat {:trigger R.At(cells, r)} :: R.At(cells, r).NonScalar? <==> r in cells.overflow
  {
    forall r: nat ensures R.At(cells, r).NonScalar? <==> r in cells.overflow {
      if r < |cells.numberValues| {
        assert R.CellOk(cells, r);
      }
    }
  }

  lemma {:induction false} CountMembers(ids: seq<nat>, s: set<nat>)
    requires C.NoRepeats(ids) && forall rid :: rid in ids <==> rid in s
    ensures |ids| == |s|
  {
    if ids == [] {
      assert s == {};
    } else {
      var front, last := ids[..|ids| - 1], ids[|ids| - 1];
      assert ids == front + [last];
      forall rid ensures rid in front <==> rid in s - {last} {
        if rid in front {
          var k :| 0 <= k < |front| && front[k] == rid;
          assert ids[k] == rid;
        }
      }
      CountMembers(front, s - {last});
      assert s == s - {last} + {last};
    }
  }

  lemma {:induction false} LiveMembers(content: C.Content, n: nat)
    ensures C.NoRepeats(Live(content, n)) && forall rid :: rid in Live(content, n) <==> rid in content && rid < n
  {
    if n != 0 {
      LiveMembers(content, n - 1);
    }
  }

  lemma LiveEnumerates(content: C.Content, n: nat)
    requires forall rid | rid in content :: rid < n
    ensures Enumerates(Live(content, n), content.Keys)
  {
    LiveMembers(content, n);
    CountMembers(Live(content, n), content.Keys);
  }

  lemma {:induction false} Bound(s: set<nat>, least: nat) returns (n: nat)
    ensures n >= least && forall rid | rid in s :: rid < n
  {
    if s == {} {
      n := least;
    } else {
      var rid :| rid in s;
      n := Bound(s - {rid}, if rid < least then least else rid + 1);
      forall r | r in s ensures r < n {
        assert r != rid ==> r in s - {rid};
      }
    }
  }

  /** No live object holds null where the field counts. */
  ghost predicate NoNullCounted(f: FieldSpec, content: C.Content) {
    f.op.CountField? ==> forall rid | rid in content :: GetPath(content[rid], f.op.path) != Some(Null)
  }

  lemma {:induction false} NullsFound(cells: R.Cells, content: C.Content, path: string, n: nat)
    requires CellsHold(cells, content, path)
    ensures R.Recount(R.Nulls, cells, n) == 0 <==> forall rid | rid in content && rid < n :: GetPath(content[rid], path) != Some(Null)
  {
    if n != 0 {
      NullsFound(cells, content, path, n - 1);
      RecountNatural(cells, n - 1);
      assert R.Weight(R.Nulls, R.At(cells, n - 1)) == if n - 1 in content && GetPath(content[n - 1], path) == Some(Null) then 1 else 0 by {
        assert R.At(cells, n - 1) == R.ColumnState(C.PathValue(C.At(content, n - 1), path));
      }
      hide R.At, R.ColumnState, R.Weight, GetPath;
    }
  }

  /** Over all live rows in order, a field's summary is its fold, but for a count that nulls fall under. */
  lemma SummaryField(c: Collate, f: FieldSpec, path: string, cells: map<string, R.Cells>, content: C.Content, n: nat)
    requires !Extremal(f) && path in cells && CellsHold(cells[path], content, path)
    requires OperandOf(f.op) == Some(path) && n >= |cells[path].numberValues| && forall rid | rid in content :: rid < n
    ensures Folded(c, f, RowsOf(content, Live(content, n))) == SummaryState(f, cells, |content|) <==> NoNullCounted(f, content)
  {
    var own := cells[path];
    forall rid | 0 <= rid < n ensures CellHolds(own, content, path, rid) {
      assert R.At(own, rid) == R.ColumnState(C.PathValue(C.At(content, rid), path));
    }
    FoldedPrefix(c, f, path, own, content, n);
    TotalsRecounted(own, n);
    NullsFound(own, content, path, n);
    hide R.Recount, OthersBelow, Folded, RowsOf, Live, R.CellsValid;
  }

  /** Past the last row the recounts are the running totals. */
  lemma TotalsRecounted(cells: R.Cells, n: nat)
    requires R.CellsValid(cells) && n >= |cells.numberValues|
    ensures R.Recount(R.Sum, cells, n) == cells.numberSum && R.Recount(R.Numbers, cells, n) == cells.numberCount >= 0
    ensures R.Recount(R.Scalars, cells, n) == cells.scalarCount >= 0 && R.Recount(R.Nulls, cells, n) == cells.nullCount >= 0
    ensures OthersBelow(cells, n) == |cells.overflow|
  {
    RecountNatural(cells, n);
    RecountBeyond(R.Sum, cells, n);
    RecountBeyond(R.Numbers, cells, n);
    RecountBeyond(R.Scalars, cells, n);
    RecountBeyond(R.Nulls, cells, n);
    R.TotalsExact(cells);
    Others(cells);
    OthersCount(cells, n, cells.overflow.Keys);
    assert |cells.overflow| == |cells.overflow.Keys|;
  }

  lemma StandHold(cells: map<string, R.Cells>, columns: Columns, content: C.Content, path: string)
    requires CellsStand(cells, columns) && path in columns && columns[path] == D.ColumnOf(content, path)
    ensures path in cells && CellsHold(cells[path], content, path)
  {
    forall rid: nat ensures R.At(cells[path], rid) == R.ColumnState(C.PathValue(C.At(content, rid), path)) {
      assert R.At(cells[path], rid) == R.ColumnState(C.At(columns[path], rid));
    }
  }

  lemma LiveStates(c: Collate, fields: seq<FieldSpec>, content: C.Content, n: nat, order: seq<nat>)
    requires Summarisable(fields) && Enumerates(order, content.Keys) && forall rid | rid in content :: rid < n
    ensures (forall k | 0 <= k < |order| :: order[k] in content)
    ensures StatesOf(c, fields, RowsOf(content, order)) == StatesOf(c, fields, RowsOf(content, Live(content, n)))
  {
    var spec, tags := Spec([], fields, [], 1, 20), seq(|fields|, i => 0);
    LiveEnumerates(content, n);
    EnumeratesPermute(Live(content, n), order, content.Keys);
    RowsPermute(content, Live(content, n), order);
    var rows := RowsOf(content, Live(content, n));
    assert RowsFit(spec, tags, rows) by {
      forall k, i | 0 <= k < |rows| && 0 <= i < |tags| ensures RowFits(spec.fields[i], tags[i], rows[k]) {
        assert !Extremal(fields[i]);
      }
    }
    StatesPermute(c, spec, tags, rows, RowsOf(content, order));
  }

  /** The summary is the fold over all live rows, in any order, exactly when no counted field is null anywhere. */
  lemma SummaryIsFold(c: Collate, fields: seq<FieldSpec>, columns: Columns, cells: map<string, R.Cells>, content: C.Content, order: seq<nat>)
    requires Summarisable(fields) && CellsStand(cells, columns) && Enumerates(order, content.Keys)
    requires forall path {:trigger path in columns} | path in columns :: columns[path] == D.ColumnOf(content, path)
    requires forall i | 0 <= i < |fields| && OperandOf(fields[i].op).Some? :: OperandOf(fields[i].op).value in columns && OperandOf(fields[i].op).value in cells
    ensures forall k | 0 <= k < |order| :: order[k] in content
    ensures SummaryStates(fields, cells, |content|) == StatesOf(c, fields, RowsOf(content, order)) <==>
            forall i {:trigger NoNullCounted(fields[i], content)} | 0 <= i < |fields| :: NoNullCounted(fields[i], content)
  {
    var keys := Bound(content.Keys, 0);
    LiveStates(c, fields, content, keys, order);
    var summary, states := SummaryStates(fields, cells, |content|), StatesOf(c, fields, RowsOf(content, order));
    forall i | 0 <= i < |fields| ensures summary[i] == states[i] <==> NoNullCounted(fields[i], content) {
      SummaryFieldAt(c, fields, columns, cells, content, order, i);
    }
  }

  lemma SummaryFieldAt(c: Collate, fields: seq<FieldSpec>, columns: Columns, cells: map<string, R.Cells>, content: C.Content, order: seq<nat>, i: nat)
    requires Summarisable(fields) && CellsStand(cells, columns) && Enumerates(order, content.Keys) && i < |fields|
    requires forall k | 0 <= k < |order| :: order[k] in content
    requires forall path {:trigger path in columns} | path in columns :: columns[path] == D.ColumnOf(content, path)
    requires OperandOf(fields[i].op).Some? ==> OperandOf(fields[i].op).value in columns && OperandOf(fields[i].op).value in cells
    ensures SummaryState(fields[i], cells, |content|) == StatesOf(c, fields, RowsOf(content, order))[i] <==> NoNullCounted(fields[i], content)
  {
    var f := fields[i];
    if OperandOf(f.op).Some? {
      var path := OperandOf(f.op).value;
      StandHold(cells, columns, content, path);
      var n := Bound(content.Keys, |cells[path].numberValues|);
      LiveStates(c, fields, content, n, order);
      FoldedState(c, fields, RowsOf(content, Live(content, n)), i);
      SummaryField(c, f, path, cells, content, n);
    } else {
      RowCountFolded(c, f, RowsOf(content, order));
      FoldedState(c, fields, RowsOf(content, order), i);
      assert |content.Keys| == |content|;
    }
  }

  lemma {:induction false} RowCountFolded(c: Collate, f: FieldSpec, rows: seq<Value>)
    requires f.op.CountRows?
    ensures Folded(c, f, rows) == CountState(|rows|)
  {
    if rows != [] {
      RowCountFolded(c, f, rows[..|rows| - 1]);
    }
  }
}
