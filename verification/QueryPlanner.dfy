/**
 * Choosing and running an aggregate plan (src/query-planner.js planAggregate; src/store.js
 * _executeAggregatePlan and its callers): whatever the plan, the groups and metrics are those of the
 * row fold over exactly the matching live objects, but for a column summary that counts nulls.
 */
module QueryPlanner {
  import opened Wrappers
  import opened Layout
  import opened Aggregates
  import opened Groups
  import opened FieldIndexes
  import opened AggregatePlans
  import opened GroupIndexPlans
  import opened Paging
  import C = Collections
  import D = Deferral
  import Q = Queries
  import R = RidColumns
  import T = TypedColumns

  /** Which rows a plan visits: all live ones, exactly these, or these after a check of each. */
  datatype IdPlan = AllRows | ExactRows(ids: set<nat>) | Candidates(ids: set<nat>)

  datatype Plan =
    | ColumnSummary(columns: Columns)
    | ColumnScan(columns: Columns, rows: IdPlan)
    | GroupForwardIndex(columns: Columns, index: Index, rows: IdPlan)
    | GroupIndex(columns: Columns, index: Index, rows: IdPlan)
    | GroupColumnScan(columns: Columns, groups: Columns, rows: IdPlan)
    | Scan

  function PlanIds(js: Q.Conversion, core: C.Core, q: Q.Criteria): Option<IdPlan> {
    if q.entries == [] then Some(AllRows)
    else
      var exact, partial := Q.Rids(js, core, q), Q.PartialRids(js, core, q);
      if exact.Some? then Some(ExactRows(exact.value)) else if partial.Some? then Some(Candidates(partial.value)) else None
  }

  /** An index serves for groups only while no row is deferred. */
  function GroupingIndex(core: C.Core, groupBy: seq<string>): Option<Index> {
    if |groupBy| == 1 && core.dirty == {} then Q.FindIndex(core.indexes, groupBy[0]) else None
  }

  function PlanAggregate(js: Q.Conversion, core: C.Core, spec: Spec, q: Q.Criteria): Plan {
    var metrics, rows := ReadyColumns(core, MetricPaths(spec.fields)), PlanIds(js, core, q);
    if metrics.None? then Scan
    else if spec.groupBy == [] && q.entries == [] && Summarisable(spec.fields) then ColumnSummary(metrics.value)
    else if rows.None? then Scan
    else if spec.groupBy == [] then ColumnScan(metrics.value, rows.value)
    else
      var index, groups := GroupingIndex(core, spec.groupBy), ReadyColumns(core, spec.groupBy);
      if index.Some? && !RowCountOnly(spec.fields) && rows.value.ExactRows? then GroupForwardIndex(metrics.value, index.value, rows.value)
      else if index.Some? then GroupIndex(metrics.value, index.value, rows.value)
      else if groups.None? then Scan
      else GroupColumnScan(metrics.value, groups.value, rows.value)
  }

  /** The rows a plan visits are the matching ones. */
  method RowsForPlan(js: Q.Conversion, core: C.Core, ghost content: C.Content, q: Q.Criteria, plan: IdPlan) returns (rids: set<nat>)
    requires C.Valid(core, content) && Q.CriteriaOk(js, content, q) && PlanIds(js, core, q) == Some(plan)
    ensures rids == Q.Matching(js, content, q)
  {
    Q.LiveRows(core, content);
    match plan
    case AllRows =>
      rids := core.base.Keys;
      assert forall rid | rid in content :: Q.Matches(js, content[rid], q);
    case ExactRows(ids) =>
      Q.RidsExact(js, core, content, q);
      rids := ids;
    case Candidates(ids) =>
      Q.PartialCovers(js, core, content, q);
      rids := {};
      var left := ids;
      while left != {}
        invariant rids <= Q.Matching(js, content, q) <= rids + left
        decreases left
      {
        var rid :| rid in left;
        left := left - {rid};
        C.ReadIsContent(core, content, rid);
        var obj := C.Read(core, rid);
        if obj.Some? && Q.Matches(js, obj.value, q) {
          rids := rids + {rid};
        }
      }
  }

  lemma Listed(content: C.Content, ids: seq<nat>, s: set<nat>)
    requires Enumerates(ids, s) && s <= content.Keys
    ensures forall k | 0 <= k < |ids| :: ids[k] in content
  {
    forall k | 0 <= k < |ids| ensures ids[k] in content {
      assert ids[k] in ids;
    }
  }

  /** Without a plan the objects themselves are folded. */
  method FoldRows(c: Collate, spec: Spec, core: C.Core, ghost content: C.Content, rids: set<nat>) returns (bs: seq<Bucket>)
    requires C.Valid(core, content) && rids <= content.Keys
    ensures Answers(c, spec, content, rids, bs)
  {
    var list := Listing(rids);
    Listed(content, list, rids);
    bs := [];
    for k := 0 to |list|
      invariant bs == Partial(c, spec, RowsOf(content, list[..k]))
    {
      C.ReadIsContent(core, content, list[k]);
      PartialSnoc(c, spec, content, list, k);
      bs := StepRow(c, spec, bs, C.Read(core, list[k]).value);
    }
    assert list[..|list|] == list;
    assert FoldsOver(c, spec, content, list, rids, bs);
  }

  /** A scan without groups gives the row fold's one bucket. */
  lemma FlatFolds(c: Collate, spec: Spec, content: C.Content, ids: seq<nat>, s: set<nat>)
    requires spec.groupBy == [] && Enumerates(ids, s) && s <= content.Keys
    ensures forall k | 0 <= k < |ids| :: ids[k] in content
    ensures FoldsOver(c, spec, content, ids, s, if ids == [] then [] else [Bucket([], StatesOf(c, spec.fields, RowsOf(content, ids)))])
  {
    Listed(content, ids, s);
    FlatScan(c, spec, RowsOf(content, ids));
  }

  lemma GroupingIndexHolds(core: C.Core, content: C.Content, groupBy: seq<string>)
    requires C.Valid(core, content) && GroupingIndex(core, groupBy).Some?
    ensures IndexValid(GroupingIndex(core, groupBy).value)
    ensures GroupingIndex(core, groupBy).value.forward == D.ValuesOf(content, groupBy[0])
  {
    var i := IndexPosition(core.indexes, groupBy[0]);
    D.CleanForward(core, content, i);
  }

  lemma {:induction false} IndexPosition(indexes: seq<C.PathIndex>, path: string) returns (i: nat)
    requires Q.FindIndex(indexes, path).Some?
    ensures i < |indexes| && indexes[i].path == path && Q.FindIndex(indexes, path) == Some(indexes[i].index)
  {
    var n := |indexes| - 1;
    if indexes[n].path == path {
      i := n;
    } else {
      i := IndexPosition(indexes[..n], path);
    }
  }

  /** The typed columns of the collection stand for its ready columns. */
  ghost predicate CellsKept(core: C.Core, cells: map<string, R.Cells>) {
    forall path {:trigger Usable(core, path)} | Usable(core, path).Some? :: path in cells && T.Represents(cells[path], Usable(core, path).value)
  }

  /** No counted field is null in any live object. */
  ghost predicate NoNulls(spec: Spec, content: C.Content) {
    forall i {:trigger NoNullCounted(spec.fields[i], content)} | 0 <= i < |spec.fields| :: NoNullCounted(spec.fields[i], content)
  }

  lemma {:induction false} ReadyColumnsStand(core: C.Core, content: C.Content, cells: map<string, R.Cells>, paths: seq<string>)
    requires C.Sound(core, content) && CellsKept(core, cells) && ReadyColumns(core, paths).Some?
    ensures CellsStand(cells, ReadyColumns(core, paths).value)
    ensures forall path {:trigger path in ReadyColumns(core, paths).value} | path in ReadyColumns(core, paths).value ::
              ReadyColumns(core, paths).value[path] == D.ColumnOf(content, path)
  {
    if paths != [] {
      ReadyColumnsStand(core, content, cells, paths[..|paths| - 1]);
      UsableHeld(core, content, paths[|paths| - 1]);
    }
  }

  lemma OperandsKept(core: C.Core, content: C.Content, cells: map<string, R.Cells>, fields: seq<FieldSpec>)
    requires C.Sound(core, content) && CellsKept(core, cells) && ReadyColumns(core, MetricPaths(fields)).Some?
    ensures forall i | 0 <= i < |fields| && OperandOf(fields[i].op).Some? ::
              OperandOf(fields[i].op).value in ReadyColumns(core, MetricPaths(fields)).value && OperandOf(fields[i].op).value in cells
  {
    ReadyColumnsHeld(core, content, MetricPaths(fields));
    ReadyColumnsStand(core, content, cells, MetricPaths(fields));
    forall i | 0 <= i < |fields| && OperandOf(fields[i].op).Some?
      ensures OperandOf(fields[i].op).value in ReadyColumns(core, MetricPaths(fields)).value && OperandOf(fields[i].op).value in cells
    {
      MetricPathsMembers(fields, i);
    }
  }

  function SummaryOf(fields: seq<FieldSpec>, cells: map<string, R.Cells>, live: nat): seq<Bucket>
    requires forall i | 0 <= i < |fields| && OperandOf(fields[i].op).Some? :: OperandOf(fields[i].op).value in cells
  {
    if live == 0 then [] else [Bucket([], SummaryStates(fields, cells, live))]
  }

  /** The summary is the fold over all live rows exactly when no counted field is null anywhere. */
  lemma SummaryFolds(c: Collate, spec: Spec, core: C.Core, cells: map<string, R.Cells>, content: C.Content, ids: seq<nat>)
    requires C.Sound(core, content) && CellsKept(core, cells) && ReadyColumns(core, MetricPaths(spec.fields)).Some?
    requires spec.groupBy == [] && Summarisable(spec.fields) && Enumerates(ids, content.Keys)
    ensures forall i | 0 <= i < |spec.fields| && OperandOf(spec.fields[i].op).Some? :: OperandOf(spec.fields[i].op).value in cells
    ensures FoldsOver(c, spec, content, ids, content.Keys, SummaryOf(spec.fields, cells, |content|)) <==> NoNulls(spec, content)
  {
    OperandsKept(core, content, cells, spec.fields);
    ReadyColumnsStand(core, content, cells, MetricPaths(spec.fields));
    var columns := ReadyColumns(core, MetricPaths(spec.fields)).value;
    Listed(content, ids, content.Keys);
    SummaryIsFold(c, spec.fields, columns, cells, content, ids);
    FlatFolds(c, spec, content, ids, content.Keys);
    assert |content.Keys| == |content|;
    if content == map[] {
      assert NoNulls(spec, content);
    }
  }

  lemma SummaryAnswers(c: Collate, spec: Spec, core: C.Core, cells: map<string, R.Cells>, content: C.Content)
    requires C.Sound(core, content) && CellsKept(core, cells) && ReadyColumns(core, MetricPaths(spec.fields)).Some?
    requires spec.groupBy == [] && Summarisable(spec.fields)
    ensures forall i | 0 <= i < |spec.fields| && OperandOf(spec.fields[i].op).Some? :: OperandOf(spec.fields[i].op).value in cells
    ensures Answers(c, spec, content, content.Keys, SummaryOf(spec.fields, cells, |content|)) <==> NoNulls(spec, content)
  {
    OperandsKept(core, content, cells, spec.fields);
    hide CellsKept, C.Sound, NoNulls, SummaryOf;
    if Answers(c, spec, content, content.Keys, SummaryOf(spec.fields, cells, |content|)) {
      var ids :| FoldsOver(c, spec, content, ids, content.Keys, SummaryOf(spec.fields, cells, |content|));
      SummaryFolds(c, spec, core, cells, content, ids);
    } else {
      var ids := Enumeration(content.Keys);
      SummaryFolds(c, spec, core, cells, content, ids);
    }
  }

  /** A group of a plan's buckets and of the fold in some order: both have it or neither, with the same metrics. */
  ghost predicate SameAt(c: Collate, spec: Spec, content: C.Content, bs: seq<Bucket>, order: seq<nat>, key: seq<Value>)
    requires forall k | 0 <= k < |order| :: order[k] in content
  {
    && (HasKey(bs, key) <==> HasKey(Partial(c, spec, RowsOf(content, order)), key))
    && Look(spec, bs, key) == Look(spec, Partial(c, spec, RowsOf(content, order)), key)
  }

  /** The same groups with the same metrics. */
  ghost predicate SameAnswer(c: Collate, spec: Spec, content: C.Content, bs: seq<Bucket>, order: seq<nat>)
    requires forall k | 0 <= k < |order| :: order[k] in content
  {
    forall key {:trigger SameAt(c, spec, content, bs, order, key)} :: SameAt(c, spec, content, bs, order, key)
  }

  ghost predicate SameInAnyOrder(c: Collate, spec: Spec, content: C.Content, s: set<nat>, bs: seq<Bucket>) {
    forall order {:trigger Enumerates(order, s)} | Enumerates(order, s) ::
      (forall k | 0 <= k < |order| :: order[k] in content) && SameAnswer(c, spec, content, bs, order)
  }

  /** In whatever order the matching rows are folded, a plan that folds them all has the same groups and metrics. */
  lemma PlansAgree(c: Collate, spec: Spec, tags: seq<nat>, content: C.Content, s: set<nat>, bs: seq<Bucket>)
    requires Answers(c, spec, content, s, bs) && TieFree(c, spec.fields) && ContentFits(spec, tags, content)
    ensures SameInAnyOrder(c, spec, content, s, bs)
  {
    var ids :| FoldsOver(c, spec, content, ids, s, bs);
    forall order | Enumerates(order, s) ensures (forall k | 0 <= k < |order| :: order[k] in content) && SameAnswer(c, spec, content, bs, order) {
      Listed(content, order, s);
      hide Enumerates, FoldsOver, TieFree, ContentFits;
      forall key ensures SameAt(c, spec, content, bs, order, key) {
        AnyOrder(c, spec, tags, content, s, bs, ids, order, key);
      }
    }
  }

  /**
   * The plan folds exactly the matching live rows: no counted field is null where a summary counts it,
   * and the null group is safe where an index groups.
   */
  ghost predicate PlanFolds(c: Collate, js: Q.Conversion, spec: Spec, core: C.Core, content: C.Content, q: Q.Criteria) {
    match PlanAggregate(js, core, spec, q)
    case ColumnSummary(_) => NoNulls(spec, content)
    case GroupIndex(_, _, _) => |spec.groupBy| == 1 && NullGroupSafe(c, spec, content, Q.Matching(js, content, q))
    case _ => true
  }

  /**
   * A planned aggregate folds exactly the matching live rows, each once, whichever of the plans is
   * taken, except that a summary does so exactly when no counted field is null and a group index when
   * its null group is safe; what it gives otherwise is one visit of the groups. Folding all rows, it has
   * the groups and metrics of the fold in any order.
   */
  method Aggregate(c: Collate, js: Q.Conversion, spec: Spec, ghost tags: seq<nat>, core: C.Core, cells: map<string, R.Cells>,
                   ghost content: C.Content, q: Q.Criteria)
    returns (bs: seq<Bucket>)
    requires C.Valid(core, content) && Q.CriteriaOk(js, content, q) && CellsKept(core, cells)
    ensures PlanFolds(c, js, spec, core, content, q) ==> Answers(c, spec, content, Q.Matching(js, content, q), bs)
    ensures Answers(c, spec, content, Q.Matching(js, content, q), bs) && !PlanAggregate(js, core, spec, q).GroupIndex? ==>
            PlanFolds(c, js, spec, core, content, q)
    ensures PlanAggregate(js, core, spec, q).GroupIndex? ==>
            |spec.groupBy| == 1 && VisitedSome(c, spec, content, Q.Matching(js, content, q), bs)
    ensures Answers(c, spec, content, Q.Matching(js, content, q), bs) && TieFree(c, spec.fields) && ContentFits(spec, tags, content) ==>
            SameInAnyOrder(c, spec, content, Q.Matching(js, content, q), bs)
  {
    hide C.Valid, Q.CriteriaOk, CellsKept, ContentFits, Enumerates, Answers, NoNulls, TieFree, SameInAnyOrder, VisitedSome, NullGroupSafe;
    var plan := PlanAggregate(js, core, spec, q);
    match plan {
      case ColumnSummary(_) =>
        bs := RunSummary(c, js, spec, core, cells, content, q);
      case ColumnScan(columns, rows) =>
        bs := RunColumnScan(c, js, spec, core, content, q, columns, rows);
      case GroupForwardIndex(columns, index, rows) =>
        bs := RunForwardIndex(c, js, spec, core, content, q, columns, index, rows);
      case GroupIndex(columns, index, rows) =>
        bs := RunGroupIndex(c, js, spec, core, content, q, columns, index, rows);
      case GroupColumnScan(columns, groups, rows) =>
        bs := RunGroupColumnScan(c, js, spec, core, content, q, columns, groups, rows);
      case Scan =>
        bs := RunScan(c, js, spec, core, content, q);
    }
    if Answers(c, spec, content, Q.Matching(js, content, q), bs) && TieFree(c, spec.fields) && ContentFits(spec, tags, content) {
      PlansAgree(c, spec, tags, content, Q.Matching(js, content, q), bs);
    }
  }

  method RunScan(c: Collate, js: Q.Conversion, spec: Spec, core: C.Core, ghost content: C.Content, q: Q.Criteria)
    returns (bs: seq<Bucket>)
    requires C.Valid(core, content) && Q.CriteriaOk(js, content, q)
    ensures Answers(c, spec, content, Q.Matching(js, content, q), bs)
  {
    var rids := Q.FindRids(js, core, content, q);
    bs := FoldRows(c, spec, core, content, rids);
  }

  method RunSummary(c: Collate, js: Q.Conversion, spec: Spec, core: C.Core, cells: map<string, R.Cells>, ghost content: C.Content, q: Q.Criteria)
    returns (bs: seq<Bucket>)
    requires C.Valid(core, content) && Q.CriteriaOk(js, content, q) && CellsKept(core, cells)
    requires ReadyColumns(core, MetricPaths(spec.fields)).Some? && spec.groupBy == [] && q.entries == [] && Summarisable(spec.fields)
    ensures Answers(c, spec, content, Q.Matching(js, content, q), bs) <==> NoNulls(spec, content)
  {
    Q.LiveRows(core, content);
    assert Q.Matching(js, content, q) == content.Keys by {
      assert forall rid | rid in content :: Q.Matches(js, content[rid], q);
    }
    OperandsKept(core, content, cells, spec.fields);
    assert |core.base| == |core.base.Keys| == |content.Keys| == |content|;
    bs := SummaryOf(spec.fields, cells, |core.base|);
    SummaryAnswers(c, spec, core, cells, content);
  }

  method RunColumnScan(c: Collate, js: Q.Conversion, spec: Spec, core: C.Core, ghost content: C.Content, q: Q.Criteria, columns: Columns, rows: IdPlan)
    returns (bs: seq<Bucket>)
    requires C.Valid(core, content) && Q.CriteriaOk(js, content, q)
    requires ReadyColumns(core, MetricPaths(spec.fields)) == Some(columns) && PlanIds(js, core, q) == Some(rows) && spec.groupBy == []
    ensures Answers(c, spec, content, Q.Matching(js, content, q), bs)
  {
    var rids := RowsForPlan(js, core, content, q, rows);
    var list := Listing(rids);
    FlatFolds(c, spec, content, list, rids);
    ReadyColumnsHeld(core, content, MetricPaths(spec.fields));
    MetricColumnsHeld(core, content, spec.fields, columns);
    var states := ScanColumns(c, spec.fields, columns, content, list);
    bs := if list == [] then [] else [Bucket([], states)];
    assert FoldsOver(c, spec, content, list, rids, bs);
  }

  method RunForwardIndex(c: Collate, js: Q.Conversion, spec: Spec, core: C.Core, ghost content: C.Content, q: Q.Criteria,
                         columns: Columns, index: Index, rows: IdPlan)
    returns (bs: seq<Bucket>)
    requires C.Valid(core, content) && Q.CriteriaOk(js, content, q)
    requires ReadyColumns(core, MetricPaths(spec.fields)) == Some(columns) && PlanIds(js, core, q) == Some(rows)
    requires GroupingIndex(core, spec.groupBy) == Some(index)
    ensures Answers(c, spec, content, Q.Matching(js, content, q), bs)
  {
    var rids := RowsForPlan(js, core, content, q, rows);
    var list := Listing(rids);
    Listed(content, list, rids);
    ReadyColumnsHeld(core, content, MetricPaths(spec.fields));
    MetricColumnsHeld(core, content, spec.fields, columns);
    GroupingIndexHolds(core, content, spec.groupBy);
    bs := ScanForwardGrouped(c, spec, columns, index, content, list);
    assert FoldsOver(c, spec, content, list, rids, bs);
  }

  method RunGroupIndex(c: Collate, js: Q.Conversion, spec: Spec, core: C.Core, ghost content: C.Content, q: Q.Criteria,
                       columns: Columns, index: Index, rows: IdPlan)
    returns (bs: seq<Bucket>)
    requires C.Valid(core, content) && Q.CriteriaOk(js, content, q)
    requires ReadyColumns(core, MetricPaths(spec.fields)) == Some(columns) && PlanIds(js, core, q) == Some(rows)
    requires GroupingIndex(core, spec.groupBy) == Some(index)
    ensures VisitedSome(c, spec, content, Q.Matching(js, content, q), bs)
    ensures NullGroupSafe(c, spec, content, Q.Matching(js, content, q)) ==> Answers(c, spec, content, Q.Matching(js, content, q), bs)
  {
    var rids := RowsForPlan(js, core, content, q, rows);
    ReadyColumnsHeld(core, content, MetricPaths(spec.fields));
    MetricColumnsHeld(core, content, spec.fields, columns);
    GroupingIndexHolds(core, content, spec.groupBy);
    assert rows.AllRows? ==> rids == content.Keys by {
      assert forall rid | rid in content :: rows.AllRows? ==> Q.Matches(js, content[rid], q);
    }
    bs := AggregateGroupIndex(c, spec, columns, index, content, if rows.AllRows? then None else Some(rids));
    SafeVisitSome(c, spec, content, rids, bs);
  }

  /** A scan that meets a value that is no scalar gives up, and the objects are folded instead. */
  method RunGroupColumnScan(c: Collate, js: Q.Conversion, spec: Spec, core: C.Core, ghost content: C.Content, q: Q.Criteria,
                            columns: Columns, groups: Columns, rows: IdPlan)
    returns (bs: seq<Bucket>)
    requires C.Valid(core, content) && Q.CriteriaOk(js, content, q)
    requires ReadyColumns(core, MetricPaths(spec.fields)) == Some(columns) && PlanIds(js, core, q) == Some(rows)
    requires ReadyColumns(core, spec.groupBy) == Some(groups)
    ensures Answers(c, spec, content, Q.Matching(js, content, q), bs)
  {
    var rids := RowsForPlan(js, core, content, q, rows);
    var list := Listing(rids);
    Listed(content, list, rids);
    MergedHeld(core, content, spec, columns, groups);
    var answered: bool;
    answered, bs := ScanGroupedColumns(c, spec, columns + groups, content, list);
    if answered {
      assert FoldsOver(c, spec, content, list, rids, bs);
    } else {
      bs := RunScan(c, js, spec, core, content, q);
    }
  }

  /** The metric columns with the group columns laid over them hold both. */
  lemma MergedHeld(core: C.Core, content: C.Content, spec: Spec, columns: Columns, groups: Columns)
    requires C.Sound(core, content)
    requires ReadyColumns(core, MetricPaths(spec.fields)) == Some(columns) && ReadyColumns(core, spec.groupBy) == Some(groups)
    ensures MetricsHeld(columns + groups, spec.fields, content) && GroupsHeld(columns + groups, spec.groupBy, content)
  {
    ReadyColumnsHeld(core, content, MetricPaths(spec.fields));
    ReadyColumnsHeld(core, content, spec.groupBy);
    var all := columns + groups;
    LaidOver(content, columns, groups);
    MetricColumnsHeld(core, content, spec.fields, all);
    hide C.Sound, ReadyColumns, MetricsHeld;
    forall i, rid | 0 <= i < |spec.groupBy| && rid in content
      ensures ColumnValue(all, spec.groupBy[i], rid) == GetPath(content[rid], spec.groupBy[i])
    {
      assert spec.groupBy[i] in spec.groupBy;
      assert PathHeld(all, spec.groupBy[i], content);
    }
  }

  lemma LaidOver(content: C.Content, columns: Columns, groups: Columns)
    requires AllHeld(columns, content) && AllHeld(groups, content)
    ensures AllHeld(columns + groups, content)
  {
    var all := columns + groups;
    forall path | path in all ensures PathHeld(all, path, content) {
      var from := if path in groups then groups else columns;
      assert PathHeld(from, path, content);
      forall rid ensures ColumnValue(all, path, rid) == C.PathValue(C.At(content, rid), path) {
        assert ColumnValue(from, path, rid) == C.PathValue(C.At(content, rid), path);
      }
    }
  }

  // Where a flat plan's answer differs.

  /**
   * A flat plan writes its one row without looking at the page, so it answers as the row fold does
   * exactly on the first page, or when there is no row.
   */
  lemma FlatPlansIgnorePage(spec: Spec, bs: seq<Bucket>, order: Order<ResultRow>)
    requires spec.groupBy == [] && spec.page >= 1 && spec.pageSize >= 1
    requires |bs| <= 1 && Sized(spec, bs) && forall i | 0 <= i < |bs| :: bs[i].key == []
    ensures Answer(spec, bs, order) == if spec.page == 1 then FinishAll(spec, bs) else []
    ensures Answer(spec, bs, order) == FinishAll(spec, bs) <==> spec.page == 1 || bs == []
  {
    hide *;
    if bs == [] {
      AnswerOfNone(spec, order);
    } else {
      FinishOne(spec, bs);
      AnswerOfOne(spec, bs, order);
    }
  }

  lemma AnswerOfNone(spec: Spec, order: Order<ResultRow>)
    requires spec.page >= 1
    ensures Answer(spec, [], order) == FinishAll(spec, []) == []
  {
    assert Sort<ResultRow>(order, []) == [];
    hide Sort;
  }

  lemma AnswerOfOne(spec: Spec, bs: seq<Bucket>, order: Order<ResultRow>)
    requires Sized(spec, bs) && (forall i | 0 <= i < |bs| :: |bs[i].key| == |spec.groupBy|)
    requires spec.page >= 1 && spec.pageSize >= 1 && |FinishAll(spec, bs)| == 1
    ensures Answer(spec, bs, order) == if spec.page == 1 then FinishAll(spec, bs) else []
  {
    var rows := FinishAll(spec, bs);
    hide FinishAll;
    SortOne(order, rows);
    PageOfOne(rows, spec.page, spec.pageSize);
    hide Sort, Page, Sized;
  }

  lemma FinishOne(spec: Spec, bs: seq<Bucket>)
    requires Sized(spec, bs) && |bs| == 1 && |bs[0].key| == |spec.groupBy|
    ensures |FinishAll(spec, bs)| == 1
  {
    assert bs[..0] == [];
  }

  lemma SortOne<T>(order: Order<T>, rows: seq<T>)
    requires |rows| == 1
    ensures Sort(order, rows) == rows
  {
    assert Insert(order, [], rows[0]) == [rows[0]] == rows;
    assert InsertAll(order, rows, rows[1..]) == rows;
  }

  lemma PageOfOne<T>(rows: seq<T>, page: nat, size: nat)
    requires |rows| == 1 && page >= 1 && size >= 1
    ensures Page(rows, (page - 1) * size, size) == if page == 1 then rows else []
  {
    if page > 1 {
      PagesPositive(page - 1, size);
    }
  }

  lemma PagesPositive(a: nat, b: nat)
    requires a >= 1 && b >= 1
    ensures a * b >= 1
  {
  }

  lemma TwoCounted(c: Collate, a: Value, b: Value)
    ensures StatesOf(c, [FieldSpec("n", CountRows)], [a, b]) == [CountState(2)]
  {
    var fields := [FieldSpec("n", CountRows)];
    assert RowCountOnly(fields);
    CountedRows(c, fields, [a, b]);
    assert fields[1..] == [];
  }

  function SecondPage(): Spec {
    Spec([], [FieldSpec("n", CountRows)], [], 2, 20)
  }

  lemma SecondPageEmpty(order: Order<ResultRow>)
    ensures Sized(SecondPage(), [Bucket([], [CountState(2)])])
    ensures Answer(SecondPage(), [Bucket([], [CountState(2)])], order) == [] != FinishAll(SecondPage(), [Bucket([], [CountState(2)])])
  {
    var bs := [Bucket([], [CountState(2)])];
    hide Answer, FinishAll;
    FinishOne(SecondPage(), bs);
    FlatPlansIgnorePage(SecondPage(), bs, order);
  }

  /** Two live objects counted: the second page is empty, yet the flat plan answers with the count. */
  lemma SecondPageOfCount(c: Collate, order: Order<ResultRow>)
    ensures Partial(c, SecondPage(), [Obj(map["a" := Num(1)]), Obj(map["a" := Num(2)])]) == [Bucket([], [CountState(2)])]
    ensures Answer(SecondPage(), [Bucket([], [CountState(2)])], order) == [] != FinishAll(SecondPage(), [Bucket([], [CountState(2)])])
  {
    var rows := [Obj(map["a" := Num(1)]), Obj(map["a" := Num(2)])];
    SecondPageEmpty(order);
    FlatScan(c, SecondPage(), rows);
    TwoCounted(c, rows[0], rows[1]);
    hide Partial, StatesOf, Answer, FinishAll;
  }

  lemma NullAt()
    ensures GetPath(Obj(map["a" := Null]), "a") == Some(Null)
  {
    D.OneFieldPath(1);
    assert GetSegments(Obj(map["a" := Null]), ["a"]) == GetSegments(Null, []);
  }

  lemma {:induction false} OnlyNull(cells: R.Cells, n: nat)
    requires R.SameLengths(cells) && forall k: nat {:trigger R.At(cells, k)} :: R.At(cells, k) == if k == 0 then R.NullState else R.Absent
    ensures R.Recount(R.Nulls, cells, n) == (if n == 0 then 0 else 1) && R.Recount(R.Scalars, cells, n) == 0 && OthersBelow(cells, n) == 0
  {
    if n != 0 {
      OnlyNull(cells, n - 1);
      assert R.At(cells, n - 1) == if n - 1 == 0 then R.NullState else R.Absent;
    }
  }

  lemma NothingElse()
    ensures R.CellsValid(R.NO_CELLS) && forall k: nat {:trigger R.At(R.NO_CELLS, k)} :: R.At(R.NO_CELLS, k) == R.Absent
  {
    R.NoCellsValid();
    hide *;
    forall k: nat ensures R.At(R.NO_CELLS, k) == R.Absent {
      R.NoCellsAt(k);
    }
  }

  /** The column of one row that holds null. */
  lemma NullCells() returns (cells: R.Cells)
    ensures R.CellsValid(cells) && R.SameLengths(cells)
    ensures forall k: nat {:trigger R.At(cells, k)} :: R.At(cells, k) == if k == 0 then R.NullState else R.Absent
  {
    NothingElse();
    hide R.CellsValid, R.At;
    var none := R.NO_CELLS;
    hide R.ApplyState;
    R.ApplyStateMeans(none, 0, R.NullState);
    cells := R.ApplyState(none, 0, R.NullState);
    assert R.SameLengths(cells) by {
      SameLengthsOf(cells);
    }
  }

  lemma SameLengthsOf(cells: R.Cells)
    requires R.CellsValid(cells)
    ensures R.SameLengths(cells)
  {
  }

  function CountOfA(): seq<FieldSpec> {
    [FieldSpec("n", CountField("a"))]
  }

  lemma NullNotCounted(c: Collate)
    ensures StatesOf(c, CountOfA(), [Obj(map["a" := Null])]) == [CountState(0)]
  {
    var row, fields := Obj(map["a" := Null]), CountOfA();
    NullAt();
    hide GetPath;
    assert [row][..0] == [];
    assert StatesOf(c, fields, [row])[0] == StepField(c, Init(fields[0]), fields[0], row);
  }

  lemma NullSummed(cells: R.Cells)
    requires cells.scalarCount == 0 && cells.nullCount == 1 && |cells.overflow| == 0
    ensures forall i | 0 <= i < |CountOfA()| && OperandOf(CountOfA()[i].op).Some? :: OperandOf(CountOfA()[i].op).value in map["a" := cells]
    ensures SummaryStates(CountOfA(), map["a" := cells], 1) == [CountState(1)]
  {
    assert CountOfA()[..0] == [];
    assert SummaryStates(CountOfA(), map["a" := cells], 1)[0] == CountState(1);
  }

  /** One live object whose field is null: the summary of its column counts the field, the row fold does not. */
  lemma SummaryCountsNull(c: Collate) returns (cells: R.Cells)
    ensures CellsHold(cells, map[0 := Obj(map["a" := Null])], "a")
    ensures forall i | 0 <= i < |CountOfA()| && OperandOf(CountOfA()[i].op).Some? :: OperandOf(CountOfA()[i].op).value in map["a" := cells]
    ensures SummaryStates(CountOfA(), map["a" := cells], 1) == [CountState(1)]
    ensures StatesOf(c, CountOfA(), [Obj(map["a" := Null])]) == [CountState(0)]
  {
    cells := NullCells();
    NullAt();
    hide GetPath, R.CellsValid, R.At;
    var n := |cells.numberValues| + 1;
    OnlyNull(cells, n);
    TotalsRecounted(cells, n);
    NullSummed(cells);
    NullNotCounted(c);
    hide StatesOf, SummaryStates, R.Recount, OthersBelow;
  }
}
