/**
 * Aggregating through a group index (src/store.js _aggregateGroupIndex): every group of the index is
 * folded on its own and the groups are merged.  Rows whose group value is undefined and rows where it
 * is null are two groups of the index but one of the answer, so a minimum or maximum over values of
 * several types can depend on which of the two comes first.
 */
module GroupIndexPlans {
  import opened Wrappers
  import opened Layout
  import opened Paging
  import opened Aggregates
  import opened Groups
  import opened Splits
  import opened FieldIndexes
  import opened AggregatePlans
  import C = Collections
  import D = Deferral

  // Group indexes.

  /** One index bucket: its stored value and the rows that hold it. */
  datatype Posting = Posting(value: Option<Value>, ids: seq<nat>)

  ghost predicate PostingOk(content: C.Content, path: string, p: Posting) {
    forall k {:trigger p.ids[k]} | 0 <= k < |p.ids| :: p.ids[k] in content && GetPath(content[p.ids[k]], path) == p.value
  }

  ghost predicate PostingsOk(content: C.Content, path: string, ps: seq<Posting>) {
    forall i {:trigger ps[i]} | 0 <= i < |ps| :: PostingOk(content, path, ps[i])
  }

  ghost function PartsOf(content: C.Content, path: string, ps: seq<Posting>): (parts: seq<seq<Value>>)
    requires PostingsOk(content, path, ps)
  {
    if ps == [] then []
    else
      var n := |ps| - 1;
      assert PostingOk(content, path, ps[n]);
      PartsOf(content, path, ps[..n]) + [RowsOf(content, ps[n].ids)]
  }

  lemma PostingPartial(c: Collate, spec: Spec, content: C.Content, p: Posting)
    requires |spec.groupBy| == 1 && PostingOk(content, spec.groupBy[0], p)
    ensures var rows := RowsOf(content, p.ids);
            Partial(c, spec, rows) == if rows == [] then [] else [Bucket([p.value.GetOr(Null)], StatesOf(c, spec.fields, rows))]
  {
    var rows := RowsOf(content, p.ids);
    forall k | 0 <= k < |rows| ensures GroupKey(spec.groupBy, rows[k]) == [p.value.GetOr(Null)] {
      assert p.ids[k] in content;
    }
    OneGroup(c, spec, rows, [p.value.GetOr(Null)]);
  }

  lemma PartsGrow(c: Collate, spec: Spec, content: C.Content, ps: seq<Posting>, p: Posting)
    requires |spec.groupBy| == 1 && PostingsOk(content, spec.groupBy[0], ps) && PostingOk(content, spec.groupBy[0], p)
    ensures PostingsOk(content, spec.groupBy[0], ps + [p])
    ensures var path, rows := spec.groupBy[0], RowsOf(content, p.ids);
            PartialsOf(c, spec, PartsOf(content, path, ps + [p])) ==
            PartialsOf(c, spec, PartsOf(content, path, ps)) +
            if rows == [] then [] else [Bucket([p.value.GetOr(Null)], StatesOf(c, spec.fields, rows))]
  {
    var path := spec.groupBy[0];
    assert (ps + [p])[..|ps|] == ps;
    PostingPartial(c, spec, content, p);
    var parts := PartsOf(content, path, ps);
    assert (parts + [RowsOf(content, p.ids)])[..|parts|] == parts;
  }

  function AllIds(ps: seq<Posting>): seq<nat> {
    if ps == [] then [] else AllIds(ps[..|ps| - 1]) + ps[|ps| - 1].ids
  }

  lemma {:induction false} PartsConcat(content: C.Content, path: string, ps: seq<Posting>)
    requires PostingsOk(content, path, ps)
    ensures (forall k | 0 <= k < |AllIds(ps)| :: AllIds(ps)[k] in content) && Concat(PartsOf(content, path, ps)) == RowsOf(content, AllIds(ps))
  {
    if ps != [] {
      var n := |ps| - 1;
      PartsConcat(content, path, ps[..n]);
      assert PostingOk(content, path, ps[n]);
      RowsAppend(content, AllIds(ps[..n]), ps[n].ids);
      var parts := PartsOf(content, path, ps[..n]);
      assert (parts + [RowsOf(content, ps[n].ids)])[..|parts|] == parts;
    }
  }

  /** The next bucket of a group index: counted by its size, or scanned. */
  method ScanGroup(c: Collate, spec: Spec, columns: Columns, ghost content: C.Content, rids: set<nat>)
    returns (states: seq<FieldState>, ghost ids: seq<nat>)
    requires rids <= content.Keys && MetricsHeld(columns, spec.fields, content)
    ensures Enumerates(ids, rids) && (forall k | 0 <= k < |ids| :: ids[k] in content)
    ensures states == StatesOf(c, spec.fields, RowsOf(content, ids))
  {
    if RowCountOnly(spec.fields) {
      ids := Enumeration(rids);
      forall k | 0 <= k < |ids| ensures ids[k] in content {
        assert ids[k] in ids;
      }
      CountedRows(c, spec.fields, RowsOf(content, ids));
      states := RowCounts(spec.fields, |rids|);
    } else {
      var list := Listing(rids);
      forall k | 0 <= k < |list| ensures list[k] in content {
        assert list[k] in list;
      }
      states := ScanColumns(c, spec.fields, columns, content, list);
      ids := list;
    }
  }

  ghost function RowsWith(content: C.Content, path: string, rows: set<nat>, v: Option<Value>): set<nat>
    requires rows <= content.Keys
  {
    set rid | rid in rows && GetPath(content[rid], path) == v
  }

  ghost function RowsOutside(content: C.Content, path: string, rows: set<nat>, left: set<Option<Value>>): set<nat>
    requires rows <= content.Keys
  {
    set rid | rid in rows && GetPath(content[rid], path) !in left
  }

  /** What the group loop has done: `ps` lists exactly the rows of the groups that are not left. */
  ghost predicate GroupsDone(content: C.Content, path: string, rows: set<nat>, left: set<Option<Value>>, ps: seq<Posting>)
    requires rows <= content.Keys
  {
    PostingsOk(content, path, ps) && Enumerates(AllIds(ps), RowsOutside(content, path, rows, left))
  }

  lemma PostingListed(content: C.Content, path: string, rows: set<nat>, v: Option<Value>, ids: seq<nat>)
    requires rows <= content.Keys && Enumerates(ids, RowsWith(content, path, rows, v))
    ensures PostingOk(content, path, Posting(v, ids))
  {
    forall k | 0 <= k < |ids| ensures ids[k] in content && GetPath(content[ids[k]], path) == v {
      assert ids[k] in RowsWith(content, path, rows, v);
    }
  }

  lemma GroupDone(content: C.Content, path: string, rows: set<nat>, left: set<Option<Value>>, ps: seq<Posting>, v: Option<Value>, ids: seq<nat>)
    requires rows <= content.Keys && GroupsDone(content, path, rows, left, ps) && v in left
    requires PostingOk(content, path, Posting(v, ids)) && Enumerates(ids, RowsWith(content, path, rows, v))
    ensures GroupsDone(content, path, rows, left - {v}, ps + [Posting(v, ids)])
  {
    hide AllIds, PostingOk, Enumerates, RowsWith, RowsOutside;
    AllIdsMore(ps, Posting(v, ids));
    GroupSplits(content, path, rows, left, v);
    EnumeratesMore(AllIds(ps), RowsOutside(content, path, rows, left), ids, RowsWith(content, path, rows, v));
  }

  lemma AllIdsMore(ps: seq<Posting>, p: Posting)
    ensures AllIds(ps + [p]) == AllIds(ps) + p.ids
  {
    assert (ps + [p])[..|ps|] == ps;
  }

  lemma GroupSplits(content: C.Content, path: string, rows: set<nat>, left: set<Option<Value>>, v: Option<Value>)
    requires rows <= content.Keys && v in left
    ensures RowsOutside(content, path, rows, left) !! RowsWith(content, path, rows, v)
    ensures RowsOutside(content, path, rows, left - {v}) == RowsOutside(content, path, rows, left) + RowsWith(content, path, rows, v)
  {
  }

  /** A group of the index holds exactly the filtered rows with its value, and at least one. */
  lemma GroupIs(content: C.Content, path: string, ix: Index, filter: Option<set<nat>>, v: Option<Value>)
    requires IndexValid(ix) && ix.forward == D.ValuesOf(content, path) && (filter.Some? ==> filter.value <= content.Keys)
    requires v in GroupsOf(ix, filter)
    ensures GroupsOf(ix, filter)[v] == RowsWith(content, path, filter.GetOr(content.Keys), v) != {}
  {
    forall rid ensures rid in GroupsOf(ix, filter)[v] <==> rid in RowsWith(content, path, filter.GetOr(content.Keys), v) {
      GroupOfRow(ix, filter, v, rid);
    }
  }

  /** Every filtered row is in some group. */
  lemma GroupsCover(content: C.Content, path: string, ix: Index, filter: Option<set<nat>>)
    requires IndexValid(ix) && ix.forward == D.ValuesOf(content, path) && (filter.Some? ==> filter.value <= content.Keys)
    ensures GroupsDone(content, path, filter.GetOr(content.Keys), GroupsOf(ix, filter).Keys, [])
  {
    var rows := filter.GetOr(content.Keys);
    forall rid | rid in rows ensures GetPath(content[rid], path) in GroupsOf(ix, filter) {
      GroupOfRow(ix, filter, GetPath(content[rid], path), rid);
    }
    assert RowsOutside(content, path, rows, GroupsOf(ix, filter).Keys) == {};
  }

  // What is visited.

  /** One way to visit the groups: each value's group once, each group's rows in some order. */
  ghost predicate Visits(content: C.Content, path: string, rows: set<nat>, ps: seq<Posting>)
    requires rows <= content.Keys
  {
    Visiting(content, path, rows, {}, ps)
  }

  ghost predicate OneEach(ps: seq<Posting>) {
    forall i, j | 0 <= i < j < |ps| :: ps[i].value != ps[j].value
  }

  /** What merging the visited groups gives. */
  ghost function Visited(c: Collate, spec: Spec, content: C.Content, ps: seq<Posting>): seq<Bucket>
    requires |spec.groupBy| == 1 && PostingsOk(content, spec.groupBy[0], ps)
  {
    Merged(c, spec, PartsOf(content, spec.groupBy[0], ps))
  }

  /** So far: the groups not left, each listed with its rows. */
  ghost predicate Visiting(content: C.Content, path: string, rows: set<nat>, left: set<Option<Value>>, ps: seq<Posting>)
    requires rows <= content.Keys
  {
    && GroupsDone(content, path, rows, left, ps)
    && (forall i {:trigger ps[i]} | 0 <= i < |ps| :: ps[i].value !in left && Enumerates(ps[i].ids, RowsWith(content, path, rows, ps[i].value)))
    && OneEach(ps)
  }

  lemma VisitOne(content: C.Content, path: string, rows: set<nat>, left: set<Option<Value>>, ps: seq<Posting>, v: Option<Value>, ids: seq<nat>)
    requires rows <= content.Keys && Visiting(content, path, rows, left, ps) && v in left
    requires Enumerates(ids, RowsWith(content, path, rows, v))
    ensures Visiting(content, path, rows, left - {v}, ps + [Posting(v, ids)])
  {
    PostingListed(content, path, rows, v, ids);
    GroupDone(content, path, rows, left, ps, v, ids);
    hide GroupsDone, Enumerates, RowsWith;
  }

  /**
   * Aggregating through a group index: each of its buckets, cut to the filter, is counted or scanned
   * on its own, undefined and null apart; merging the buckets gives, for one way of visiting them, what
   * they come to, and with the null group safe the row fold over exactly the filtered rows.
   */
  method AggregateGroupIndex(c: Collate, spec: Spec, columns: Columns, ix: Index, ghost content: C.Content, filter: Option<set<nat>>)
    returns (bs: seq<Bucket>)
    requires |spec.groupBy| == 1 && MetricsHeld(columns, spec.fields, content)
    requires IndexValid(ix) && ix.forward == D.ValuesOf(content, spec.groupBy[0])
    requires filter.Some? ==> filter.value <= content.Keys
    ensures VisitedSome(c, spec, content, filter.GetOr(content.Keys), bs)
  {
    ghost var path, rows, ps := spec.groupBy[0], filter.GetOr(content.Keys), [];
    var groups, found: seq<Bucket> := GroupsOf(ix, filter), [];
    GroupsCover(content, path, ix, filter);
    var left := groups.Keys;
    hide PartialsOf, PartsOf, StatesOf, RowsOf, RowsWith, Enumerates, MetricsHeld, GroupsOf, IndexValid, AllIds, GroupsDone, OneEach;
    while left != {}
      invariant left <= groups.Keys && Visiting(content, path, rows, left, ps)
      invariant PostingsOk(content, path, ps) && found == PartialsOf(c, spec, PartsOf(content, path, ps))
      decreases left
    {
      var v :| v in left;
      GroupIs(content, path, ix, filter, v);
      var states, list := ScanGroup(c, spec, columns, content, groups[v]);
      PostingListed(content, path, rows, v, list);
      VisitOne(content, path, rows, left, ps, v, list);
      PartsGrow(c, spec, content, ps, Posting(v, list));
      left := left - {v};
      ps := ps + [Posting(v, list)];
      found := found + [Bucket([v.GetOr(Null)], states)];
    }
    bs := AbsorbAll(c, spec, [], found);
    assert Visits(content, path, rows, ps) && bs == Visited(c, spec, content, ps);
  }

  ghost predicate VisitedSome(c: Collate, spec: Spec, content: C.Content, rows: set<nat>, bs: seq<Bucket>)
    requires |spec.groupBy| == 1 && rows <= content.Keys
  {
    exists ps {:trigger Visits(content, spec.groupBy[0], rows, ps)} ::
      Visits(content, spec.groupBy[0], rows, ps) && PostingsOk(content, spec.groupBy[0], ps) && bs == Visited(c, spec, content, ps)
  }

  // When the answer does not depend on the visit.

  /** The comparable values that some rows have at a path. */
  ghost function Vals(content: C.Content, rows: set<nat>, path: string): set<Value>
    requires rows <= content.Keys
  {
    set rid | rid in rows && ComparableAt(content[rid], path).Some? :: ComparableAt(content[rid], path).value
  }

  /** The rows without the group field and those where it is null are safe in either order, for one metric. */
  ghost predicate FieldSafe(c: Collate, f: FieldSpec, content: C.Content, group: string, rows: set<nat>)
    requires rows <= content.Keys && Extremal(f)
  {
    var absent, nulls := Vals(content, RowsWith(content, group, rows, None), f.op.path), Vals(content, RowsWith(content, group, rows, Some(Null)), f.op.path);
    PairSafe(c, f.op.Min?, absent, nulls) && PairSafe(c, f.op.Min?, nulls, absent)
  }

  ghost predicate NullGroupSafe(c: Collate, spec: Spec, content: C.Content, rows: set<nat>)
    requires |spec.groupBy| == 1 && rows <= content.Keys
  {
    forall i | 0 <= i < |spec.fields| && Extremal(spec.fields[i]) :: FieldSafe(c, spec.fields[i], content, spec.groupBy[0], rows)
  }

  lemma {:induction false} PartsAt(content: C.Content, path: string, ps: seq<Posting>, j: nat)
    requires PostingsOk(content, path, ps) && j < |ps|
    ensures PostingOk(content, path, ps[j]) && |PartsOf(content, path, ps)| == |ps| && PartsOf(content, path, ps)[j] == RowsOf(content, ps[j].ids)
  {
    var n := |ps| - 1;
    assert PostingOk(content, path, ps[n]);
    if |ps| > 1 {
      PartsAt(content, path, ps[..n], if j < n then j else 0);
    } else {
      assert PartsOf(content, path, ps[..n]) == [];
    }
  }

  lemma {:induction false} GroupValuesCount(groupBy: seq<string>, parts: seq<seq<Value>>, key: seq<Value>, path: string)
    ensures |GroupValues(groupBy, parts, key, path)| == |parts|
  {
    hide Members, ValuesAt;
    if parts != [] {
      GroupValuesCount(groupBy, parts[..|parts| - 1], key, path);
    }
  }

  lemma {:induction false} GroupValuesAt(groupBy: seq<string>, parts: seq<seq<Value>>, key: seq<Value>, path: string, j: nat)
    requires j < |parts|
    ensures |GroupValues(groupBy, parts, key, path)| == |parts|
    ensures GroupValues(groupBy, parts, key, path)[j] == ValuesAt(Members(groupBy, parts[j], key), path)
  {
    hide Members, ValuesAt;
    GroupValuesCount(groupBy, parts, key, path);
    GroupValuesCount(groupBy, parts[..|parts| - 1], key, path);
    if j < |parts| - 1 {
      GroupValuesAt(groupBy, parts[..|parts| - 1], key, path, j);
    }
  }

  lemma {:induction false} MembersOfOneKey(groupBy: seq<string>, rows: seq<Value>, own: seq<Value>, key: seq<Value>)
    requires forall k | 0 <= k < |rows| :: GroupKey(groupBy, rows[k]) == own
    ensures Members(groupBy, rows, key) == if own == key then rows else []
  {
    hide GroupKey;
    if rows != [] {
      var front := rows[..|rows| - 1];
      assert forall k | 0 <= k < |front| :: front[k] == rows[k];
      MembersOfOneKey(groupBy, front, own, key);
    }
  }

  lemma {:induction false} ValuesSet(content: C.Content, ids: seq<nat>, path: string, x: Value)
    requires forall k | 0 <= k < |ids| :: ids[k] in content
    ensures x in ValuesAt(RowsOf(content, ids), path) <==>
            exists k {:trigger ids[k]} :: 0 <= k < |ids| && ComparableAt(content[ids[k]], path) == Some(x)
  {
    if ids != [] {
      var front, last := ids[..|ids| - 1], ids[|ids| - 1];
      ValuesSet(content, front, path, x);
      assert RowsOf(content, ids)[..|ids| - 1] == RowsOf(content, front);
      hide ComparableAt;
      if k :| 0 <= k < |front| && ComparableAt(content[front[k]], path) == Some(x) {
        assert ids[k] == front[k];
      }
      if k :| 0 <= k < |ids| && ComparableAt(content[ids[k]], path) == Some(x) {
        assert k < |front| ==> front[k] == ids[k];
      }
    }
  }

  lemma ValuesListed(content: C.Content, ids: seq<nat>, s: set<nat>, path: string)
    requires Enumerates(ids, s) && s <= content.Keys && forall k | 0 <= k < |ids| :: ids[k] in content
    ensures forall x :: x in ValuesAt(RowsOf(content, ids), path) <==> x in Vals(content, s, path)
  {
    forall x ensures x in ValuesAt(RowsOf(content, ids), path) <==> x in Vals(content, s, path) {
      ValuesSet(content, ids, path, x);
      hide ComparableAt, ValuesAt;
      if k :| 0 <= k < |ids| && ComparableAt(content[ids[k]], path) == Some(x) {
        assert ids[k] in ids;
      }
      if x in Vals(content, s, path) {
        var rid :| rid in s && ComparableAt(content[rid], path) == Some(x);
        var k :| 0 <= k < |ids| && ids[k] == rid;
      }
    }
  }

  /** What one visited group contributes to a group of the answer: its own values, to its own key only. */
  lemma PostingValues(spec: Spec, content: C.Content, rows: set<nat>, ps: seq<Posting>, key: seq<Value>, path: string, j: nat)
    requires |spec.groupBy| == 1 && rows <= content.Keys && Visits(content, spec.groupBy[0], rows, ps) && j < |ps|
    ensures var group := spec.groupBy[0];
            var values := GroupValues(spec.groupBy, PartsOf(content, group, ps), key, path);
            && |values| == |ps| && Comparables(values[j])
            && (key != [ps[j].value.GetOr(Null)] ==> values[j] == [])
            && (key == [ps[j].value.GetOr(Null)] ==> forall x :: x in values[j] <==> x in Vals(content, RowsWith(content, group, rows, ps[j].value), path))
  {
    var group, p := spec.groupBy[0], ps[j];
    PartsAt(content, group, ps, j);
    GroupValuesAt(spec.groupBy, PartsOf(content, group, ps), key, path, j);
    var part := RowsOf(content, p.ids);
    forall k | 0 <= k < |part| ensures GroupKey(spec.groupBy, part[k]) == [p.value.GetOr(Null)] {
      assert GetPath(content[p.ids[k]], group) == p.value;
    }
    MembersOfOneKey(spec.groupBy, part, [p.value.GetOr(Null)], key);
    ValuesListed(content, p.ids, RowsWith(content, group, rows, p.value), path);
  }

  /** One of the values is undefined and the other is null. */
  predicate NullPair(u: Option<Value>, v: Option<Value>) {
    (u == None && v == Some(Null)) || (u == Some(Null) && v == None)
  }

  /** Two groups of the index that share a group of the answer are those two, and their values fold in this order. */
  lemma PairValues(c: Collate, spec: Spec, content: C.Content, rows: set<nat>, ps: seq<Posting>, key: seq<Value>, i: nat, values: seq<seq<Value>>, j: nat, k: nat)
    requires |spec.groupBy| == 1 && rows <= content.Keys && Visits(content, spec.groupBy[0], rows, ps)
    requires i < |spec.fields| && Extremal(spec.fields[i]) && FieldSafe(c, spec.fields[i], content, spec.groupBy[0], rows)
    requires values == GroupValues(spec.groupBy, PartsOf(content, spec.groupBy[0], ps), key, spec.fields[i].op.path)
    requires j < k < |ps| && |values| == |ps| && values[j] != [] && values[k] != []
    ensures NullPair(ps[j].value, ps[k].value)
    ensures FoldsPair(c, spec.fields[i].op.Min?, values[j], values[k])
  {
    var group, path := spec.groupBy[0], spec.fields[i].op.path;
    PostingValues(spec, content, rows, ps, key, path, j);
    PostingValues(spec, content, rows, ps, key, path, k);
    assert ps[j].value != ps[k].value && NullPair(ps[j].value, ps[k].value);
    hide Vals, RowsWith, PairSafe, GroupValues, PartsOf, Visits, FoldsPair, NullPair;
    var first, second := Vals(content, RowsWith(content, group, rows, ps[j].value), path), Vals(content, RowsWith(content, group, rows, ps[k].value), path);
    assert PairSafe(c, spec.fields[i].op.Min?, first, second) by {
      SafeEitherWay(c, spec.fields[i], content, group, rows, ps[j].value, ps[k].value);
    }
    PairFolds(c, spec.fields[i].op.Min?, values[j], values[k], first, second);
  }

  lemma SafeEitherWay(c: Collate, f: FieldSpec, content: C.Content, group: string, rows: set<nat>, u: Option<Value>, v: Option<Value>)
    requires rows <= content.Keys && Extremal(f) && FieldSafe(c, f, content, group, rows) && NullPair(u, v)
    ensures PairSafe(c, f.op.Min?, Vals(content, RowsWith(content, group, rows, u), f.op.path), Vals(content, RowsWith(content, group, rows, v), f.op.path))
  {
    hide PairSafe, Vals, RowsWith;
  }

  lemma NoThird(ps: seq<Posting>, values: seq<seq<Value>>)
    requires |values| == |ps|
    requires forall j, k | 0 <= j < k < |values| && values[j] != [] && values[k] != [] :: NullPair(ps[j].value, ps[k].value)
    ensures AtMostTwo(values)
  {
  }

  lemma AllPairs(c: Collate, min: bool, values: seq<seq<Value>>)
    requires forall j, k | 0 <= j < k < |values| && values[j] != [] && values[k] != [] :: FoldsPair(c, min, values[j], values[k])
    ensures PairsFold(c, min, values)
  {
    hide FoldsPair;
  }

  lemma SafeValues(c: Collate, spec: Spec, content: C.Content, rows: set<nat>, ps: seq<Posting>, key: seq<Value>, i: nat)
    requires |spec.groupBy| == 1 && rows <= content.Keys && Visits(content, spec.groupBy[0], rows, ps)
    requires i < |spec.fields| && Extremal(spec.fields[i]) && FieldSafe(c, spec.fields[i], content, spec.groupBy[0], rows)
    ensures var values := GroupValues(spec.groupBy, PartsOf(content, spec.groupBy[0], ps), key, spec.fields[i].op.path);
            BestOfParts(c, spec.fields[i].op.Min?, values) == Best(c, spec.fields[i].op.Min?, Concat(values))
  {
    var values := GroupValues(spec.groupBy, PartsOf(content, spec.groupBy[0], ps), key, spec.fields[i].op.path);
    PartsLength(spec, content, ps, key, spec.fields[i].op.path);
    hide *;
    forall j, k | 0 <= j < k < |values| && values[j] != [] && values[k] != []
      ensures NullPair(ps[j].value, ps[k].value) && FoldsPair(c, spec.fields[i].op.Min?, values[j], values[k])
    {
      PairValues(c, spec, content, rows, ps, key, i, values, j, k);
    }
    NoThird(ps, values);
    AllPairs(c, spec.fields[i].op.Min?, values);
    TwoPartsFold(c, spec.fields[i].op.Min?, values);
  }

  lemma PartsLength(spec: Spec, content: C.Content, ps: seq<Posting>, key: seq<Value>, path: string)
    requires |spec.groupBy| == 1 && PostingsOk(content, spec.groupBy[0], ps)
    ensures |GroupValues(spec.groupBy, PartsOf(content, spec.groupBy[0], ps), key, path)| == |ps|
  {
    var parts := PartsOf(content, spec.groupBy[0], ps);
    GroupValuesCount(spec.groupBy, parts, key, path);
    if ps != [] {
      PartsAt(content, spec.groupBy[0], ps, 0);
    }
  }

  /** With the null group safe every visit gives the row fold over exactly the rows. */
  lemma SafeVisit(c: Collate, spec: Spec, content: C.Content, rows: set<nat>, ps: seq<Posting>)
    requires |spec.groupBy| == 1 && rows <= content.Keys && Visits(content, spec.groupBy[0], rows, ps)
    requires NullGroupSafe(c, spec, content, rows)
    ensures Answers(c, spec, content, rows, Visited(c, spec, content, ps))
  {
    var parts := PartsOf(content, spec.groupBy[0], ps);
    forall key ensures MergedStates(c, spec, parts, key) == StatesOf(c, spec.fields, Members(spec.groupBy, Concat(parts), key)) {
      SafeStates(c, spec, content, rows, ps, key);
    }
    MergedIsFoldByGroup(c, spec, parts);
    PartsConcat(content, spec.groupBy[0], ps);
    assert RowsOutside(content, spec.groupBy[0], rows, {}) == rows;
    assert FoldsOver(c, spec, content, AllIds(ps), rows, Visited(c, spec, content, ps));
  }

  lemma SafeVisitSome(c: Collate, spec: Spec, content: C.Content, rows: set<nat>, bs: seq<Bucket>)
    requires |spec.groupBy| == 1 && rows <= content.Keys && VisitedSome(c, spec, content, rows, bs)
    ensures NullGroupSafe(c, spec, content, rows) ==> Answers(c, spec, content, rows, bs)
  {
    hide Visits, Visited, NullGroupSafe, Answers;
    if NullGroupSafe(c, spec, content, rows) {
      var ps :| Visits(content, spec.groupBy[0], rows, ps) && PostingsOk(content, spec.groupBy[0], ps) && bs == Visited(c, spec, content, ps);
      SafeVisit(c, spec, content, rows, ps);
    }
  }

  lemma SafeStates(c: Collate, spec: Spec, content: C.Content, rows: set<nat>, ps: seq<Posting>, key: seq<Value>)
    requires |spec.groupBy| == 1 && rows <= content.Keys && Visits(content, spec.groupBy[0], rows, ps)
    requires NullGroupSafe(c, spec, content, rows)
    ensures var parts := PartsOf(content, spec.groupBy[0], ps);
            MergedStates(c, spec, parts, key) == StatesOf(c, spec.fields, Members(spec.groupBy, Concat(parts), key))
  {
    var parts := PartsOf(content, spec.groupBy[0], ps);
    var states, folded := MergedStates(c, spec, parts, key), StatesOf(c, spec.fields, Members(spec.groupBy, Concat(parts), key));
    forall i | 0 <= i < |spec.fields| ensures states[i] == folded[i] {
      if Extremal(spec.fields[i]) {
        SafeValues(c, spec, content, rows, ps, key, i);
        hide Visits, MergedStates, StatesOf, Members, GroupValues, PartsOf, Best, BestOfParts;
        GroupValuesConcat(spec.groupBy, parts, key, spec.fields[i].op.path);
        ExtremeIsBest(c, spec.fields, Members(spec.groupBy, Concat(parts), key), i);
        MergedExtreme(c, spec, parts, key, i);
      } else {
        MergedAdds(c, spec, parts, key, i);
      }
    }
  }

  // A visit that shows it when it does.

  /** A listing that begins with one of the rows. */
  lemma BeginningWith(s: set<nat>, rid: nat) returns (ids: seq<nat>)
    requires rid in s
    ensures Enumerates(ids, s) && ids != [] && ids[0] == rid
  {
    var rest := Enumeration(s - {rid});
    EnumeratesOne(rid);
    EnumeratesMore([rid], {rid}, rest, s - {rid});
    assert {rid} + (s - {rid}) == s;
    ids := [rid] + rest;
  }

  /** Any visit begun can be ended. */
  lemma {:induction false} EndVisit(content: C.Content, path: string, rows: set<nat>, left: set<Option<Value>>, begun: seq<Posting>) returns (ps: seq<Posting>)
    requires rows <= content.Keys && Visiting(content, path, rows, left, begun)
    ensures Visits(content, path, rows, ps) && |begun| <= |ps| && ps[..|begun|] == begun
    decreases left
  {
    if left == {} {
      ps := begun;
    } else {
      var v :| v in left;
      var ids := Enumeration(RowsWith(content, path, rows, v));
      VisitOne(content, path, rows, left, begun, v, ids);
      hide Visiting;
      ps := EndVisit(content, path, rows, left - {v}, begun + [Posting(v, ids)]);
      assert begun == (begun + [Posting(v, ids)])[..|begun|] == ps[..|begun|];
    }
  }

  /** A visit that begins with two groups, each listed as given. */
  lemma VisitFrom(content: C.Content, path: string, rows: set<nat>, u: Option<Value>, us: seq<nat>, v: Option<Value>, vs: seq<nat>)
    returns (ps: seq<Posting>)
    requires rows <= content.Keys && u != v && us != [] && vs != []
    requires Enumerates(us, RowsWith(content, path, rows, u)) && Enumerates(vs, RowsWith(content, path, rows, v))
    ensures Visits(content, path, rows, ps) && |ps| >= 2 && ps[0] == Posting(u, us) && ps[1] == Posting(v, vs)
  {
    var left := set rid | rid in rows :: GetPath(content[rid], path);
    assert u in left && v in left by {
      assert us[0] in RowsWith(content, path, rows, u) && vs[0] in RowsWith(content, path, rows, v);
    }
    assert RowsOutside(content, path, rows, left) == {};
    assert Visiting(content, path, rows, left, []);
    hide Visiting, RowsWith, Enumerates;
    VisitOne(content, path, rows, left, [], u, us);
    VisitOne(content, path, rows, left - {u}, [Posting(u, us)], v, vs);
    ps := EndVisit(content, path, rows, left - {u} - {v}, [Posting(u, us)] + [Posting(v, vs)]);
    assert ps[..2][0] == ps[0] && ps[..2][1] == ps[1];
  }

  lemma {:induction false} FirstValue(content: C.Content, ids: seq<nat>, path: string, x: Value)
    requires ids != [] && (forall k | 0 <= k < |ids| :: ids[k] in content) && ComparableAt(content[ids[0]], path) == Some(x)
    ensures ValuesAt(RowsOf(content, ids), path) != [] && ValuesAt(RowsOf(content, ids), path)[0] == x
  {
    var n := |ids| - 1;
    assert RowsOf(content, ids)[..n] == RowsOf(content, ids[..n]);
    if n > 0 {
      FirstValue(content, ids[..n], path, x);
    } else {
      assert RowsOf(content, ids[..n]) == [];
    }
  }

  lemma {:induction false} OnlyFirstTwo(c: Collate, min: bool, values: seq<seq<Value>>)
    requires |values| >= 2 && forall j | 2 <= j < |values| :: values[j] == []
    ensures BestOfParts(c, min, values) == Pick(c, min, Best(c, min, values[0]), Best(c, min, values[1]))
  {
    if |values| > 2 {
      OnlyFirstTwo(c, min, values[..|values| - 1]);
    } else {
      assert values[..1][..0] == [] && values[..1][0] == values[0];
      assert BestOfParts(c, min, values[..1]) == Pick(c, min, BestOfParts(c, min, []), Best(c, min, values[0]));
      FirstBest(c, min, values[0]);
    }
  }

  lemma {:induction false} ValueOfMember(groupBy: seq<string>, content: C.Content, ids: seq<nat>, k: nat, path: string, x: Value)
    requires k < |ids| && (forall j | 0 <= j < |ids| :: ids[j] in content) && ComparableAt(content[ids[k]], path) == Some(x)
    ensures x in ValuesAt(Members(groupBy, RowsOf(content, ids), GroupKey(groupBy, content[ids[k]])), path)
  {
    var n, key := |ids| - 1, GroupKey(groupBy, content[ids[k]]);
    var front, last := RowsOf(content, ids[..n]), content[ids[n]];
    MembersAppend(groupBy, front, [last], key);
    ValuesAppend(Members(groupBy, front, key), Members(groupBy, [last], key), path);
    assert RowsOf(content, ids) == front + [last];
    if k < n {
      ValueOfMember(groupBy, content, ids[..n], k, path, x);
    } else {
      assert [last][..0] == [] && Members(groupBy, [last], key) == [last];
      assert ValuesAt([last], path) == [x];
    }
  }

  lemma NoMoreValues(spec: Spec, content: C.Content, rows: set<nat>, ps: seq<Posting>, path: string)
    requires |spec.groupBy| == 1 && rows <= content.Keys && Visits(content, spec.groupBy[0], rows, ps)
    requires |ps| >= 2 && NullPair(ps[0].value, ps[1].value)
    ensures var values := GroupValues(spec.groupBy, PartsOf(content, spec.groupBy[0], ps), [Null], path);
            |values| == |ps| && forall j | 2 <= j < |values| :: values[j] == []
  {
    PartsLength(spec, content, ps, [Null], path);
    forall j | 2 <= j < |ps|
      ensures GroupValues(spec.groupBy, PartsOf(content, spec.groupBy[0], ps), [Null], path)[j] == []
    {
      PostingValues(spec, content, rows, ps, [Null], path, j);
      assert ps[j].value != ps[0].value && ps[j].value != ps[1].value;
    }
  }

  /** What the field's merged state is when the visit begins with the two groups of the null key. */
  lemma FirstTwoValues(c: Collate, spec: Spec, content: C.Content, rows: set<nat>, ps: seq<Posting>, i: nat)
    returns (xs: seq<Value>, ys: seq<Value>)
    requires |spec.groupBy| == 1 && rows <= content.Keys && Visits(content, spec.groupBy[0], rows, ps)
    requires i < |spec.fields| && Extremal(spec.fields[i]) && |ps| >= 2 && NullPair(ps[0].value, ps[1].value)
    ensures (forall k | 0 <= k < |ps[0].ids| :: ps[0].ids[k] in content) && xs == ValuesAt(RowsOf(content, ps[0].ids), spec.fields[i].op.path)
    ensures (forall k | 0 <= k < |ps[1].ids| :: ps[1].ids[k] in content) && ys == ValuesAt(RowsOf(content, ps[1].ids), spec.fields[i].op.path)
    ensures forall x :: x in xs <==> x in Vals(content, RowsWith(content, spec.groupBy[0], rows, ps[0].value), spec.fields[i].op.path)
    ensures var min := spec.fields[i].op.Min?;
            MergedStates(c, spec, PartsOf(content, spec.groupBy[0], ps), [Null])[i] == Extreme(Pick(c, min, Best(c, min, xs), Best(c, min, ys)))
  {
    var group, path := spec.groupBy[0], spec.fields[i].op.path;
    var parts := PartsOf(content, group, ps);
    var values := GroupValues(spec.groupBy, parts, [Null], path);
    PartsAt(content, group, ps, 0);
    PartsAt(content, group, ps, 1);
    PartsLength(spec, content, ps, [Null], path);
    NoMoreValues(spec, content, rows, ps, path);
    PostingValues(spec, content, rows, ps, [Null], path, 0);
    OwnValues(spec, content, ps, path, 0);
    OwnValues(spec, content, ps, path, 1);
    xs, ys := values[0], values[1];
    hide MergedStates, GroupValues, BestOfParts, Visits;
    OnlyFirstTwo(c, spec.fields[i].op.Min?, values);
    MergedExtreme(c, spec, parts, [Null], i);
  }

  lemma OwnValues(spec: Spec, content: C.Content, ps: seq<Posting>, path: string, j: nat)
    requires |spec.groupBy| == 1 && PostingsOk(content, spec.groupBy[0], ps) && j < |ps|
    ensures var key := [ps[j].value.GetOr(Null)];
            && |GroupValues(spec.groupBy, PartsOf(content, spec.groupBy[0], ps), key, path)| == |ps|
            && PostingOk(content, spec.groupBy[0], ps[j])
            && GroupValues(spec.groupBy, PartsOf(content, spec.groupBy[0], ps), key, path)[j] == ValuesAt(RowsOf(content, ps[j].ids), path)
  {
    var group, p := spec.groupBy[0], ps[j];
    PartsAt(content, group, ps, j);
    GroupValuesAt(spec.groupBy, PartsOf(content, group, ps), [p.value.GetOr(Null)], path, j);
    var part := RowsOf(content, p.ids);
    forall k | 0 <= k < |part| ensures GroupKey(spec.groupBy, part[k]) == [p.value.GetOr(Null)] {
      assert GetPath(content[p.ids[k]], group) == p.value;
    }
    MembersOfOneKey(spec.groupBy, part, [p.value.GetOr(Null)], [p.value.GetOr(Null)]);
  }

  /** Buckets whose extreme one of the group's rows beats are no fold of the rows in any order. */
  lemma BeatenIsNoFold(c: Collate, spec: Spec, content: C.Content, rows: set<nat>, bs: seq<Bucket>, i: nat, rid: nat, best: Value, b: Value)
    requires rows <= content.Keys && i < |spec.fields| && Extremal(spec.fields[i]) && rid in rows
    requires ComparableAt(content[rid], spec.fields[i].op.path) == Some(b)
    requires |Look(spec, bs, GroupKey(spec.groupBy, content[rid]))| == |spec.fields|
    requires Look(spec, bs, GroupKey(spec.groupBy, content[rid]))[i] == Extreme(Some(best))
    requires Tag(b) == Tag(best) && Better(c, spec.fields[i].op.Min?, b, best)
    ensures !Answers(c, spec, content, rows, bs)
  {
    var key, path, min := GroupKey(spec.groupBy, content[rid]), spec.fields[i].op.path, spec.fields[i].op.Min?;
    if ids :| FoldsOver(c, spec, content, ids, rows, bs) {
      var folded := RowsOf(content, ids);
      assert rid in ids;
      var k :| 0 <= k < |ids| && ids[k] == rid;
      ValueOfMember(spec.groupBy, content, ids, k, path, b);
      PartialLook(c, spec, folded, key);
      ExtremeIsBest(c, spec.fields, Members(spec.groupBy, folded, key), i);
      NeverBest(c, min, ValuesAt(Members(spec.groupBy, folded, key), path), b, best);
      assert false;
    }
  }

  /** The rows that show an unsafe pair. */
  lemma UnsafeRowsOf(c: Collate, min: bool, content: C.Content, us: set<nat>, vs: set<nat>, path: string)
    returns (ra: nat, rb: nat, rd: nat, a: Value, b: Value, d: Value)
    requires us <= content.Keys && vs <= content.Keys && !PairSafe(c, min, Vals(content, us, path), Vals(content, vs, path))
    ensures ra in us && rb in vs && rd in vs
    ensures ComparableAt(content[ra], path) == Some(a) && ComparableAt(content[rb], path) == Some(b) && ComparableAt(content[rd], path) == Some(d)
    ensures Comparable(b) && Tag(a) == Tag(b) != Tag(d) && !Matched(c, min, Vals(content, us, path), b)
  {
    var first, second := Vals(content, us, path), Vals(content, vs, path);
    hide ComparableAt, Matched;
    a, b, d :| a in first && b in second && d in second && Tag(a) == Tag(b) != Tag(d) && !Matched(c, min, first, b);
    ra :| ra in us && ComparableAt(content[ra], path) == Some(a);
    rb :| rb in vs && ComparableAt(content[rb], path) == Some(b);
    rd :| rd in vs && ComparableAt(content[rd], path) == Some(d);
    ComparableIs(content[rb], path);
  }

  lemma ComparableIs(row: Value, path: string)
    ensures ComparableAt(row, path).Some? ==> Comparable(ComparableAt(row, path).value)
  {
  }

  /** A visit that begins with a row of the type of `b` and goes on with one of another type loses `b`. */
  lemma UnsafeBeginning(c: Collate, spec: Spec, content: C.Content, rows: set<nat>, ps: seq<Posting>, i: nat, a: Value, b: Value, d: Value, rb: nat)
    requires |spec.groupBy| == 1 && rows <= content.Keys && Visits(content, spec.groupBy[0], rows, ps)
    requires i < |spec.fields| && Extremal(spec.fields[i]) && |ps| >= 2 && NullPair(ps[0].value, ps[1].value)
    requires ps[0].ids != [] && ps[0].ids[0] in content && ComparableAt(content[ps[0].ids[0]], spec.fields[i].op.path) == Some(a)
    requires ps[1].ids != [] && ps[1].ids[0] in content && ComparableAt(content[ps[1].ids[0]], spec.fields[i].op.path) == Some(d)
    requires rb in RowsWith(content, spec.groupBy[0], rows, ps[1].value) && ComparableAt(content[rb], spec.fields[i].op.path) == Some(b)
    requires Comparable(b) && Tag(a) == Tag(b) != Tag(d)
    requires !Matched(c, spec.fields[i].op.Min?, Vals(content, RowsWith(content, spec.groupBy[0], rows, ps[0].value), spec.fields[i].op.path), b)
    ensures !Answers(c, spec, content, rows, Visited(c, spec, content, ps))
  {
    var group, path, min := spec.groupBy[0], spec.fields[i].op.path, spec.fields[i].op.Min?;
    assert rb in rows && GroupKey(spec.groupBy, content[rb]) == [Null];
    var first := Vals(content, RowsWith(content, group, rows, ps[0].value), path);
    VisitsOk(content, group, rows, ps);
    hide Visits, RowsWith, Vals, MergedStates, GroupKey, ValuesAt, RowsOf, Best, Pick, ComparableAt, NullPair, Look, Answers;
    var xs, ys := FirstTwoValues(c, spec, content, rows, ps, i);
    FirstValue(content, ps[0].ids, path, a);
    FirstValue(content, ps[1].ids, path, d);
    forall x | x in xs && Tag(x) == Tag(b) ensures Better(c, min, b, x) {
      assert x in first;
    }
    PairHides(c, min, xs, ys, b);
    MergedLook(c, spec, PartsOf(content, group, ps), [Null]);
    BeatenIsNoFold(c, spec, content, rows, Visited(c, spec, content, ps), i, rb, Best(c, min, xs).value, b);
  }

  /** If a pair is not safe, some visit gives what is no row fold over the rows in any order. */
  lemma UnsafePair(c: Collate, spec: Spec, content: C.Content, rows: set<nat>, i: nat, u: Option<Value>, v: Option<Value>) returns (ps: seq<Posting>)
    requires |spec.groupBy| == 1 && rows <= content.Keys && i < |spec.fields| && Extremal(spec.fields[i]) && NullPair(u, v)
    requires var group, path := spec.groupBy[0], spec.fields[i].op.path;
             !PairSafe(c, spec.fields[i].op.Min?, Vals(content, RowsWith(content, group, rows, u), path), Vals(content, RowsWith(content, group, rows, v), path))
    ensures Visits(content, spec.groupBy[0], rows, ps) && !Answers(c, spec, content, rows, Visited(c, spec, content, ps))
  {
    var group, path, min := spec.groupBy[0], spec.fields[i].op.path, spec.fields[i].op.Min?;
    var us, vs := RowsWith(content, group, rows, u), RowsWith(content, group, rows, v);
    assert us <= content.Keys && vs <= content.Keys && u != v;
    hide RowsWith, Vals, PairSafe, Enumerates, ComparableAt, Visits, Answers, Visited, Matched;
    var ra, rb, rd, a, b, d := UnsafeRowsOf(c, min, content, us, vs, path);
    var uIds := BeginningWith(us, ra);
    var vIds := BeginningWith(vs, rd);
    ps := VisitFrom(content, group, rows, u, uIds, v, vIds);
    UnsafeBeginning(c, spec, content, rows, ps, i, a, b, d, rb);
  }

  lemma UnsafeVisit(c: Collate, spec: Spec, content: C.Content, rows: set<nat>) returns (ps: seq<Posting>)
    requires |spec.groupBy| == 1 && rows <= content.Keys && !NullGroupSafe(c, spec, content, rows)
    ensures Visits(content, spec.groupBy[0], rows, ps) && !Answers(c, spec, content, rows, Visited(c, spec, content, ps))
  {
    var i :| 0 <= i < |spec.fields| && Extremal(spec.fields[i]) && !FieldSafe(c, spec.fields[i], content, spec.groupBy[0], rows);
    hide PairSafe, Vals, RowsWith, Visits, Answers, Visited;
    var group, path := spec.groupBy[0], spec.fields[i].op.path;
    if PairSafe(c, spec.fields[i].op.Min?, Vals(content, RowsWith(content, group, rows, None), path), Vals(content, RowsWith(content, group, rows, Some(Null)), path)) {
      ps := UnsafePair(c, spec, content, rows, i, Some(Null), None);
    } else {
      ps := UnsafePair(c, spec, content, rows, i, None, Some(Null));
    }
  }

  ghost predicate EveryVisitAnswers(c: Collate, spec: Spec, content: C.Content, rows: set<nat>)
    requires |spec.groupBy| == 1 && rows <= content.Keys
  {
    forall ps {:trigger Visits(content, spec.groupBy[0], rows, ps)} | Visits(content, spec.groupBy[0], rows, ps) ::
      Answers(c, spec, content, rows, Visited(c, spec, content, ps))
  }

  /**
   * Whichever order the index keeps its groups and their rows in, the answer is the row fold over
   * exactly the filtered rows, if and only if for each minimum and maximum the rows without the group
   * field and those where it is null are safe after one another.
   */
  lemma GroupIndexExact(c: Collate, spec: Spec, content: C.Content, rows: set<nat>)
    requires |spec.groupBy| == 1 && rows <= content.Keys
    ensures EveryVisitAnswers(c, spec, content, rows) <==> NullGroupSafe(c, spec, content, rows)
  {
    hide NullGroupSafe, Visits, Answers, Visited;
    if NullGroupSafe(c, spec, content, rows) {
      forall ps | Visits(content, spec.groupBy[0], rows, ps) ensures PostingsOk(content, spec.groupBy[0], ps) && Answers(c, spec, content, rows, Visited(c, spec, content, ps)) {
        VisitsOk(content, spec.groupBy[0], rows, ps);
        SafeVisit(c, spec, content, rows, ps);
      }
    } else {
      var ps := UnsafeVisit(c, spec, content, rows);
    }
  }

  lemma VisitsOk(content: C.Content, path: string, rows: set<nat>, ps: seq<Posting>)
    requires rows <= content.Keys && Visits(content, path, rows, ps)
    ensures PostingsOk(content, path, ps)
  {
  }

  lemma OneTypePair(c: Collate, min: bool, first: set<Value>, second: set<Value>, tag: nat)
    requires forall y | y in second :: Tag(y) == tag
    ensures PairSafe(c, min, first, second)
  {
    hide Matched;
  }

  lemma OneTypeVals(spec: Spec, tags: seq<nat>, content: C.Content, rows: set<nat>, i: nat)
    requires ContentFits(spec, tags, content) && rows <= content.Keys && i < |spec.fields| && Extremal(spec.fields[i])
    ensures forall x | x in Vals(content, rows, spec.fields[i].op.path) :: Tag(x) == tags[i]
  {
    forall x | x in Vals(content, rows, spec.fields[i].op.path) ensures Tag(x) == tags[i] {
      var rid :| rid in rows && ComparableAt(content[rid], spec.fields[i].op.path) == Some(x);
      assert OneRowFits(spec, tags, content[rid]) && tags[i] == tags[i];
    }
  }

  /** In particular with one type of value at each minimum and maximum. */
  lemma OneTypeNullGroup(c: Collate, spec: Spec, tags: seq<nat>, content: C.Content, rows: set<nat>)
    requires |spec.groupBy| == 1 && rows <= content.Keys && ContentFits(spec, tags, content)
    ensures NullGroupSafe(c, spec, content, rows)
  {
    assert |tags| == |spec.fields|;
    hide Vals, PairSafe, ContentFits;
    forall i | 0 <= i < |spec.fields| && Extremal(spec.fields[i]) ensures FieldSafe(c, spec.fields[i], content, spec.groupBy[0], rows) {
      var path := spec.fields[i].op.path;
      var absent, nulls := RowsWith(content, spec.groupBy[0], rows, None), RowsWith(content, spec.groupBy[0], rows, Some(Null));
      OneTypeVals(spec, tags, content, absent, i);
      OneTypeVals(spec, tags, content, nulls, i);
      OneTypePair(c, spec.fields[i].op.Min?, Vals(content, absent, path), Vals(content, nulls, path), tags[i]);
      OneTypePair(c, spec.fields[i].op.Min?, Vals(content, nulls, path), Vals(content, absent, path), tags[i]);
    }
  }

  lemma FieldOf(row: Value, p: char)
    requires row.Obj? && (p == 'g' || p == 'v')
    ensures GetPath(row, [p]) == if [p] in row.fields then Some(row.fields[[p]]) else None
  {
    SplitShort('b', p);
    if [p] in row.fields {
      assert GetSegments(row, [[p]]) == GetSegments(row.fields[[p]], []);
      assert GetSegments(row.fields[[p]], []) == Some(row.fields[[p]]);
    } else {
      assert GetSegments(row, [[p]]) == None;
    }
    assert GetPath(row, [p]) == GetSegments(row, [[p]]);
  }

  function HidingRows(): C.Content {
    map[0 := Obj(map["v" := Str("x")]), 1 := Obj(map["g" := Null, "v" := Num(1)]), 2 := Obj(map["g" := Null, "v" := Str("a")])]
  }

  function HidingSpec(): Spec {
    Minimum("v").(groupBy := ["g"])
  }

  lemma HiddenPair(c: Collate, content: C.Content, rows: set<nat>)
    requires c(Str("a")) < c(Str("x")) && rows == {0, 1, 2} && rows <= content.Keys
    requires forall rid {:trigger content[rid]} | rid in rows ::
               && GetPath(content[rid], "g") == (if rid == 0 then None else Some(Null))
               && GetPath(content[rid], "v") == Some(if rid == 0 then Str("x") else if rid == 1 then Num(1) else Str("a"))
    ensures !PairSafe(c, true, Vals(content, RowsWith(content, "g", rows, None), "v"), Vals(content, RowsWith(content, "g", rows, Some(Null)), "v"))
  {
    hide GetPath;
    var absent, nulls := RowsWith(content, "g", rows, None), RowsWith(content, "g", rows, Some(Null));
    assert 0 in absent && 1 in nulls && 2 in nulls;
    var first, second := Vals(content, absent, "v"), Vals(content, nulls, "v");
    assert ComparableAt(content[0], "v") == Some(Str("x")) && ComparableAt(content[1], "v") == Some(Num(1)) && ComparableAt(content[2], "v") == Some(Str("a"));
    assert Str("x") in first && Num(1) in second && Str("a") in second;
    assert !Matched(c, true, first, Str("a"));
    hide *;
    Unmatched(c, first, second);
  }

  lemma Unmatched(c: Collate, first: set<Value>, second: set<Value>)
    requires Str("x") in first && Num(1) in second && Str("a") in second && !Matched(c, true, first, Str("a"))
    ensures !PairSafe(c, true, first, second)
  {
  }

  /** Of `{v: "x"}`, `{g: null, v: 1}` and `{g: null, v: "a"}` grouped by `g`, a visit can miss the minimum "a". */
  lemma NullGroupHidesMinimum(c: Collate)
    requires c(Str("a")) < c(Str("x"))
    ensures !NullGroupSafe(c, HidingSpec(), HidingRows(), {0, 1, 2}) && !EveryVisitAnswers(c, HidingSpec(), HidingRows(), {0, 1, 2})
  {
    var content, rows := HidingRows(), {0, 1, 2};
    assert rows <= content.Keys;
    forall rid | rid in rows
      ensures GetPath(content[rid], ['g']) == if rid == 0 then None else Some(Null)
      ensures GetPath(content[rid], ['v']) == Some(if rid == 0 then Str("x") else if rid == 1 then Num(1) else Str("a"))
    {
      FieldOf(content[rid], 'g');
      FieldOf(content[rid], 'v');
    }
    HiddenPair(c, content, rows);
    assert Extremal(HidingSpec().fields[0]) && HidingSpec().fields[0].op.path == "v";
    hide RowsWith, Vals, PairSafe;
    assert !FieldSafe(c, HidingSpec().fields[0], content, "g", rows);
    hide *;
    GroupIndexExact(c, HidingSpec(), content, rows);
  }
}
