/**
 * Aggregation (src/aggregate.js): rows are folded into ordered group buckets, shards send their
 * buckets as partial rows, and merging partial rows gives what one fold over all rows would.
 */
module Aggregates {
  import opened Wrappers
  import opened Layout
  import opened Paging

  datatype Operator = Sum(path: string) | Avg(path: string) | Min(path: string) | Max(path: string) | CountRows | CountField(path: string)

  datatype FieldSpec = FieldSpec(resultKey: string, op: Operator)

  datatype SortKey = SortKey(path: string, ascending: bool)

  datatype Spec = Spec(groupBy: seq<string>, fields: seq<FieldSpec>, sort: seq<SortKey>, page: nat, pageSize: nat)

  /** The place of a value's text in the collation. */
  type Collate = Value -> real

  datatype FieldState = SumState(sum: int) | AvgState(sum: int, count: nat) | Extreme(value: Option<Value>) | CountState(count: nat)

  datatype Bucket = Bucket(key: seq<Value>, states: seq<FieldState>)

  predicate Comparable(v: Value) {
    v.Num? || v.Str? || v.Bool?
  }

  function Tag(v: Value): nat {
    match v
    case Num(_) => 1
    case Str(_) => 2
    case Bool(_) => 3
    case _ => 0
  }

  predicate Less(c: Collate, a: Value, b: Value) {
    Tag(a) == Tag(b) && (if a.Num? && b.Num? then a.n < b.n else c(a) < c(b))
  }

  /** Keep the current value unless the new one is strictly better. */
  function Pick(c: Collate, min: bool, current: Option<Value>, v: Option<Value>): Option<Value> {
    if v.None? then current
    else if current.None? || (if min then Less(c, v.value, current.value) else Less(c, current.value, v.value)) then v
    else current
  }

  function Init(f: FieldSpec): FieldState {
    match f.op
    case Sum(_) => SumState(0)
    case Avg(_) => AvgState(0, 0)
    case Min(_) => Extreme(None)
    case Max(_) => Extreme(None)
    case CountRows => CountState(0)
    case CountField(_) => CountState(0)
  }

  function NumberAt(row: Value, path: string): Option<int> {
    match GetPath(row, path)
    case Some(Num(n)) => Some(n)
    case _ => None
  }

  function ComparableAt(row: Value, path: string): Option<Value> {
    match GetPath(row, path)
    case Some(v) => if Comparable(v) then Some(v) else None
    case None => None
  }

  predicate PresentAt(row: Value, path: string) {
    GetPath(row, path).Some? && GetPath(row, path).value != Null
  }

  function StepField(c: Collate, s: FieldState, f: FieldSpec, row: Value): FieldState {
    match (f.op, s)
    case (Sum(path), SumState(sum)) => SumState(sum + NumberAt(row, path).GetOr(0))
    case (Avg(path), AvgState(sum, count)) =>
      if NumberAt(row, path).Some? then AvgState(sum + NumberAt(row, path).value, count + 1) else s
    case (Min(path), Extreme(v)) => Extreme(Pick(c, true, v, ComparableAt(row, path)))
    case (Max(path), Extreme(v)) => Extreme(Pick(c, false, v, ComparableAt(row, path)))
    case (CountRows, CountState(n)) => CountState(n + 1)
    case (CountField(path), CountState(n)) => if PresentAt(row, path) then CountState(n + 1) else s
    case _ => s
  }

  /** Merging a partial state into a state. */
  function MergeField(c: Collate, s: FieldState, f: FieldSpec, t: FieldState): FieldState {
    match (f.op, s, t)
    case (Sum(_), SumState(a), SumState(b)) => SumState(a + b)
    case (Avg(_), AvgState(a, m), AvgState(b, n)) => AvgState(a + b, m + n)
    case (Min(_), Extreme(a), Extreme(b)) => Extreme(Pick(c, true, a, b))
    case (Max(_), Extreme(a), Extreme(b)) => Extreme(Pick(c, false, a, b))
    case (CountRows, CountState(a), CountState(b)) => CountState(a + b)
    case (CountField(_), CountState(a), CountState(b)) => CountState(a + b)
    case _ => s
  }

  function InitAll(fields: seq<FieldSpec>): (r: seq<FieldState>)
    ensures |r| == |fields| && forall i | 0 <= i < |r| :: r[i] == Init(fields[i])
  {
    if fields == [] then [] else InitAll(fields[..|fields| - 1]) + [Init(fields[|fields| - 1])]
  }

  function StepAll(c: Collate, states: seq<FieldState>, fields: seq<FieldSpec>, row: Value): (r: seq<FieldState>)
    requires |states| == |fields|
    ensures |r| == |fields| && forall i | 0 <= i < |r| :: r[i] == StepField(c, states[i], fields[i], row)
  {
    if fields == [] then []
    else
      var n := |fields| - 1;
      StepAll(c, states[..n], fields[..n], row) + [StepField(c, states[n], fields[n], row)]
  }

  function MergeAll(c: Collate, states: seq<FieldState>, fields: seq<FieldSpec>, more: seq<FieldState>): (r: seq<FieldState>)
    requires |states| == |fields| == |more|
    ensures |r| == |fields| && forall i | 0 <= i < |r| :: r[i] == MergeField(c, states[i], fields[i], more[i])
  {
    if fields == [] then []
    else
      var n := |fields| - 1;
      MergeAll(c, states[..n], fields[..n], more[..n]) + [MergeField(c, states[n], fields[n], more[n])]
  }

  /** A missing or undefined group value counts as null. */
  function GroupKey(groupBy: seq<string>, row: Value): (key: seq<Value>)
    ensures |key| == |groupBy|
    ensures forall i | 0 <= i < |key| :: key[i] == GetPath(row, groupBy[i]).GetOr(Null)
  {
    if groupBy == [] then []
    else GroupKey(groupBy[..|groupBy| - 1], row) + [GetPath(row, groupBy[|groupBy| - 1]).GetOr(Null)]
  }

  /** The row fold: a row steps its group's bucket, opening it at the end of the list when new. */
  function StepRow(c: Collate, spec: Spec, bs: seq<Bucket>, row: Value): seq<Bucket>
    requires forall i | 0 <= i < |bs| :: |bs[i].states| == |spec.fields|
  {
    var key := GroupKey(spec.groupBy, row);
    if bs == [] then [Bucket(key, StepAll(c, InitAll(spec.fields), spec.fields, row))]
    else if bs[0].key == key then [Bucket(key, StepAll(c, bs[0].states, spec.fields, row))] + bs[1..]
    else [bs[0]] + StepRow(c, spec, bs[1..], row)
  }

  ghost predicate Sized(spec: Spec, bs: seq<Bucket>) {
    forall i | 0 <= i < |bs| :: |bs[i].states| == |spec.fields|
  }

  lemma {:induction false} StepRowSized(c: Collate, spec: Spec, bs: seq<Bucket>, row: Value)
    requires Sized(spec, bs)
    ensures Sized(spec, StepRow(c, spec, bs, row))
  {
    if bs != [] {
      StepRowSized(c, spec, bs[1..], row);
    }
  }

  function Partial(c: Collate, spec: Spec, rows: seq<Value>): (bs: seq<Bucket>)
    ensures Sized(spec, bs)
  {
    if rows == [] then []
    else
      var front := Partial(c, spec, rows[..|rows| - 1]);
      StepRowSized(c, spec, front, rows[|rows| - 1]);
      StepRow(c, spec, front, rows[|rows| - 1])
  }

  /** Merging one partial row into the buckets. */
  function Absorb(c: Collate, spec: Spec, bs: seq<Bucket>, b: Bucket): seq<Bucket>
    requires Sized(spec, bs) && |b.states| == |spec.fields|
  {
    if bs == [] then [Bucket(b.key, MergeAll(c, InitAll(spec.fields), spec.fields, b.states))]
    else if bs[0].key == b.key then [Bucket(b.key, MergeAll(c, bs[0].states, spec.fields, b.states))] + bs[1..]
    else [bs[0]] + Absorb(c, spec, bs[1..], b)
  }

  lemma {:induction false} AbsorbSized(c: Collate, spec: Spec, bs: seq<Bucket>, b: Bucket)
    requires Sized(spec, bs) && |b.states| == |spec.fields|
    ensures Sized(spec, Absorb(c, spec, bs, b))
  {
    if bs != [] {
      AbsorbSized(c, spec, bs[1..], b);
    }
  }

  function AbsorbAll(c: Collate, spec: Spec, bs: seq<Bucket>, more: seq<Bucket>): (r: seq<Bucket>)
    requires Sized(spec, bs) && Sized(spec, more)
    ensures Sized(spec, r)
    decreases |more|
  {
    if more == [] then bs
    else
      AbsorbSized(c, spec, bs, more[0]);
      AbsorbAll(c, spec, Absorb(c, spec, bs, more[0]), more[1..])
  }

  // The algebra of states.

  /** Well-formed states whose extremes, if any, are of the field's value type. */
  ghost predicate Fits(s: FieldState, f: FieldSpec, tag: nat) {
    match f.op
    case Sum(_) => s.SumState?
    case Avg(_) => s.AvgState?
    case Min(_) => s.Extreme? && (s.value.Some? ==> Comparable(s.value.value) && Tag(s.value.value) == tag)
    case Max(_) => s.Extreme? && (s.value.Some? ==> Comparable(s.value.value) && Tag(s.value.value) == tag)
    case CountRows => s.CountState?
    case CountField(_) => s.CountState?
  }

  lemma PickAssociates(c: Collate, min: bool, x: Option<Value>, y: Option<Value>, z: Option<Value>, tag: nat)
    requires forall v | v in {x, y, z} && v.Some? :: Comparable(v.value) && Tag(v.value) == tag
    ensures Pick(c, min, Pick(c, min, x, y), z) == Pick(c, min, x, Pick(c, min, y, z))
    ensures Pick(c, min, x, y) == x || Pick(c, min, x, y) == y
    ensures Pick(c, min, None, x) == x
  {
  }

  lemma MergeAssociates(c: Collate, f: FieldSpec, tag: nat, x: FieldState, y: FieldState, z: FieldState)
    requires Fits(x, f, tag) && Fits(y, f, tag) && Fits(z, f, tag)
    ensures MergeField(c, MergeField(c, x, f, y), f, z) == MergeField(c, x, f, MergeField(c, y, f, z))
    ensures Fits(MergeField(c, x, f, y), f, tag)
    ensures MergeField(c, Init(f), f, x) == x
  {
    hide Pick, Comparable, Tag;
    match f.op
    case Min(_) => PickAssociates(c, true, x.value, y.value, z.value, tag);
    case Max(_) => PickAssociates(c, false, x.value, y.value, z.value, tag);
    case _ =>
  }

  /** A row contributes a state of its own; stepping is merging that contribution. */
  lemma StepIsMerge(c: Collate, f: FieldSpec, tag: nat, s: FieldState, row: Value)
    requires Fits(s, f, tag)
    ensures StepField(c, s, f, row) == MergeField(c, s, f, StepField(c, Init(f), f, row))
  {
  }

  /** The comparable values the field reads are of one type. */
  predicate RowFits(f: FieldSpec, tag: nat, row: Value) {
    match f.op
    case Min(path) => ComparableAt(row, path).Some? ==> Tag(ComparableAt(row, path).value) == tag
    case Max(path) => ComparableAt(row, path).Some? ==> Tag(ComparableAt(row, path).value) == tag
    case _ => true
  }

  ghost predicate AllFit(spec: Spec, tags: seq<nat>, states: seq<FieldState>) {
    && |states| == |spec.fields| == |tags|
    && forall i {:trigger Fits(states[i], spec.fields[i], tags[i])} | 0 <= i < |states| :: Fits(states[i], spec.fields[i], tags[i])
  }

  ghost predicate RowsFit(spec: Spec, tags: seq<nat>, rows: seq<Value>) {
    && |tags| == |spec.fields|
    && forall k, i {:trigger RowFits(spec.fields[i], tags[i], rows[k])} | 0 <= k < |rows| && 0 <= i < |tags| ::
         RowFits(spec.fields[i], tags[i], rows[k])
  }

  ghost predicate BucketsFit(spec: Spec, tags: seq<nat>, bs: seq<Bucket>) {
    forall k {:trigger bs[k]} | 0 <= k < |bs| :: AllFit(spec, tags, bs[k].states)
  }

  lemma MergeAllAssociates(c: Collate, spec: Spec, tags: seq<nat>, x: seq<FieldState>, y: seq<FieldState>, z: seq<FieldState>)
    requires AllFit(spec, tags, x) && AllFit(spec, tags, y) && AllFit(spec, tags, z)
    ensures AllFit(spec, tags, MergeAll(c, x, spec.fields, y))
    ensures MergeAll(c, MergeAll(c, x, spec.fields, y), spec.fields, z) == MergeAll(c, x, spec.fields, MergeAll(c, y, spec.fields, z))
    ensures MergeAll(c, InitAll(spec.fields), spec.fields, x) == x
  {
    forall i | 0 <= i < |spec.fields|
      ensures var f := spec.fields[i];
              && MergeField(c, MergeField(c, x[i], f, y[i]), f, z[i]) == MergeField(c, x[i], f, MergeField(c, y[i], f, z[i]))
              && Fits(MergeField(c, x[i], f, y[i]), f, tags[i])
              && MergeField(c, Init(f), f, x[i]) == x[i]
    {
      assert Fits(x[i], spec.fields[i], tags[i]) && Fits(y[i], spec.fields[i], tags[i]) && Fits(z[i], spec.fields[i], tags[i]);
      MergeAssociates(c, spec.fields[i], tags[i], x[i], y[i], z[i]);
    }
  }

  /** The bucket a single row contributes. */
  function One(c: Collate, spec: Spec, row: Value): Bucket {
    Bucket(GroupKey(spec.groupBy, row), StepAll(c, InitAll(spec.fields), spec.fields, row))
  }

  lemma OneFits(c: Collate, spec: Spec, tags: seq<nat>, row: Value)
    requires |tags| == |spec.fields| && forall i {:trigger tags[i]} | 0 <= i < |tags| :: RowFits(spec.fields[i], tags[i], row)
    ensures AllFit(spec, tags, One(c, spec, row).states)
  {
    forall i | 0 <= i < |tags| ensures Fits(One(c, spec, row).states[i], spec.fields[i], tags[i]) {
      assert RowFits(spec.fields[i], tags[i], row);
    }
  }

  lemma {:induction false} StepRowAbsorbs(c: Collate, spec: Spec, tags: seq<nat>, bs: seq<Bucket>, row: Value)
    requires BucketsFit(spec, tags, bs) && |tags| == |spec.fields|
    requires AllFit(spec, tags, One(c, spec, row).states)
    ensures Sized(spec, bs)
    ensures StepRow(c, spec, bs, row) == Absorb(c, spec, bs, One(c, spec, row))
  {
    var one := One(c, spec, row);
    if bs == [] {
      MergeAllAssociates(c, spec, tags, one.states, one.states, one.states);
    } else if bs[0].key == one.key {
      forall i | 0 <= i < |spec.fields|
        ensures StepField(c, bs[0].states[i], spec.fields[i], row) == MergeField(c, bs[0].states[i], spec.fields[i], one.states[i])
      {
        assert Fits(bs[0].states[i], spec.fields[i], tags[i]);
        StepIsMerge(c, spec.fields[i], tags[i], bs[0].states[i], row);
      }
      assert StepAll(c, bs[0].states, spec.fields, row) == MergeAll(c, bs[0].states, spec.fields, one.states);
    } else {
      StepRowAbsorbs(c, spec, tags, bs[1..], row);
    }
  }

  // Absorbing buckets one by one, or already merged, is the same.

  predicate HasKey(bs: seq<Bucket>, key: seq<Value>) {
    exists i :: 0 <= i < |bs| && bs[i].key == key
  }

  lemma BucketsFitSized(spec: Spec, tags: seq<nat>, bs: seq<Bucket>)
    requires BucketsFit(spec, tags, bs)
    ensures Sized(spec, bs)
    ensures bs != [] ==> BucketsFit(spec, tags, bs[1..]) && AllFit(spec, tags, bs[0].states)
  {
    forall i | 0 <= i < |bs| ensures |bs[i].states| == |spec.fields| {
      assert AllFit(spec, tags, bs[i].states);
    }
  }

  lemma {:induction false} AbsorbFits(c: Collate, spec: Spec, tags: seq<nat>, bs: seq<Bucket>, b: Bucket)
    requires BucketsFit(spec, tags, bs) && AllFit(spec, tags, b.states)
    ensures Sized(spec, bs)
    ensures BucketsFit(spec, tags, Absorb(c, spec, bs, b))
  {
    BucketsFitSized(spec, tags, bs);
    if bs == [] {
      MergeAllAssociates(c, spec, tags, b.states, b.states, b.states);
    } else if bs[0].key == b.key {
      MergeAllAssociates(c, spec, tags, bs[0].states, b.states, b.states);
    } else {
      AbsorbFits(c, spec, tags, bs[1..], b);
    }
  }

  lemma {:induction false} AbsorbKeys(c: Collate, spec: Spec, bs: seq<Bucket>, b: Bucket, key: seq<Value>)
    requires Sized(spec, bs) && |b.states| == |spec.fields|
    ensures HasKey(Absorb(c, spec, bs, b), key) <==> HasKey(bs, key) || key == b.key
  {
    var after := Absorb(c, spec, bs, b);
    if bs == [] {
      assert after[0].key == b.key;
    } else if bs[0].key == b.key {
      assert after[0].key == bs[0].key && forall i | 1 <= i < |bs| :: after[i] == bs[i];
    } else {
      var rest := Absorb(c, spec, bs[1..], b);
      AbsorbKeys(c, spec, bs[1..], b, key);
      KeyInTail(bs, key);
      assert after[1..] == rest && after[0] == bs[0];
      KeyInTail(after, key);
    }
  }

  lemma KeyInTail(bs: seq<Bucket>, key: seq<Value>)
    requires bs != []
    ensures HasKey(bs, key) <==> bs[0].key == key || HasKey(bs[1..], key)
  {
    if HasKey(bs, key) && bs[0].key != key {
      var i :| 0 <= i < |bs| && bs[i].key == key;
      assert bs[1..][i - 1].key == key;
    }
    if HasKey(bs[1..], key) {
      var i :| 0 <= i < |bs[1..]| && bs[1..][i].key == key;
      assert bs[i + 1].key == key;
    }
  }

  /** Absorbing two buckets of one key is absorbing their merge. */
  lemma {:induction false} AbsorbTwice(c: Collate, spec: Spec, tags: seq<nat>, bs: seq<Bucket>, a: Bucket, b: Bucket)
    requires BucketsFit(spec, tags, bs) && AllFit(spec, tags, a.states) && AllFit(spec, tags, b.states) && a.key == b.key
    ensures Sized(spec, bs) && Sized(spec, Absorb(c, spec, bs, a))
    ensures Absorb(c, spec, Absorb(c, spec, bs, a), b) ==
            Absorb(c, spec, bs, Bucket(a.key, MergeAll(c, a.states, spec.fields, b.states)))
  {
    AbsorbFits(c, spec, tags, bs, a);
    BucketsFitSized(spec, tags, bs);
    if bs == [] {
      MergeAllAssociates(c, spec, tags, a.states, b.states, b.states);
      MergeAllAssociates(c, spec, tags, MergeAll(c, a.states, spec.fields, b.states), b.states, b.states);
    } else if bs[0].key == a.key {
      MergeAllAssociates(c, spec, tags, bs[0].states, a.states, b.states);
    } else {
      AbsorbTwice(c, spec, tags, bs[1..], a, b);
      var after := Absorb(c, spec, bs, a);
      assert after[0] == bs[0] && after[1..] == Absorb(c, spec, bs[1..], a);
    }
  }

  /** Buckets of different keys may be absorbed in either order, once one of them has its place. */
  lemma {:induction false} AbsorbSwap(c: Collate, spec: Spec, bs: seq<Bucket>, a: Bucket, b: Bucket)
    requires Sized(spec, bs) && |a.states| == |spec.fields| == |b.states| && a.key != b.key && HasKey(bs, b.key)
    ensures Sized(spec, Absorb(c, spec, bs, a)) && Sized(spec, Absorb(c, spec, bs, b))
    ensures Absorb(c, spec, Absorb(c, spec, bs, a), b) == Absorb(c, spec, Absorb(c, spec, bs, b), a)
  {
    AbsorbSized(c, spec, bs, a);
    AbsorbSized(c, spec, bs, b);
    KeyInTail(bs, b.key);
    var sa, sb := Absorb(c, spec, bs, a), Absorb(c, spec, bs, b);
    if bs[0].key == a.key {
      assert sa[1..] == bs[1..] && sb[0] == bs[0] && sb[1..] == Absorb(c, spec, bs[1..], b);
    } else if bs[0].key == b.key {
      assert sb[1..] == bs[1..] && sa[0] == bs[0] && sa[1..] == Absorb(c, spec, bs[1..], a);
    } else {
      AbsorbSwap(c, spec, bs[1..], a, b);
      assert sa[0] == bs[0] && sa[1..] == Absorb(c, spec, bs[1..], a);
      assert sb[0] == bs[0] && sb[1..] == Absorb(c, spec, bs[1..], b);
    }
  }

  lemma {:induction false} AbsorbThrough(c: Collate, spec: Spec, tags: seq<nat>, bs: seq<Bucket>, b: Bucket, more: seq<Bucket>)
    requires BucketsFit(spec, tags, bs) && BucketsFit(spec, tags, more) && AllFit(spec, tags, b.states)
    requires HasKey(bs, b.key) && !HasKey(more, b.key)
    ensures Sized(spec, bs) && Sized(spec, more) && Sized(spec, Absorb(c, spec, bs, b))
    ensures AbsorbAll(c, spec, Absorb(c, spec, bs, b), more) == Absorb(c, spec, AbsorbAll(c, spec, bs, more), b)
    decreases |more|
  {
    AbsorbFits(c, spec, tags, bs, b);
    BucketsFitSized(spec, tags, more);
    if more != [] {
      KeyInTail(more, b.key);
      AbsorbFits(c, spec, tags, bs, more[0]);
      AbsorbKeys(c, spec, bs, more[0], b.key);
      AbsorbSwap(c, spec, bs, more[0], b);
      AbsorbThrough(c, spec, tags, Absorb(c, spec, bs, more[0]), b, more[1..]);
    }
  }

  predicate DistinctKeys(bs: seq<Bucket>) {
    forall i, j | 0 <= i < j < |bs| :: bs[i].key != bs[j].key
  }

  lemma HeadAlone(bs: seq<Bucket>)
    requires bs != []
    ensures DistinctKeys(bs) <==> DistinctKeys(bs[1..]) && !HasKey(bs[1..], bs[0].key)
  {
    if DistinctKeys(bs) {
      forall i | 0 <= i < |bs[1..]| ensures bs[1..][i].key != bs[0].key {
        assert bs[1..][i] == bs[i + 1];
      }
    }
    if DistinctKeys(bs[1..]) && !HasKey(bs[1..], bs[0].key) {
      forall i, j | 0 <= i < j < |bs| ensures bs[i].key != bs[j].key {
        assert bs[j] == bs[1..][j - 1];
        assert i > 0 ==> bs[i] == bs[1..][i - 1];
      }
    }
  }

  lemma {:induction false} AbsorbDistinct(c: Collate, spec: Spec, bs: seq<Bucket>, b: Bucket)
    requires Sized(spec, bs) && |b.states| == |spec.fields| && DistinctKeys(bs)
    ensures DistinctKeys(Absorb(c, spec, bs, b))
  {
    if bs != [] {
      var after := Absorb(c, spec, bs, b);
      HeadAlone(bs);
      if bs[0].key == b.key {
        assert after[1..] == bs[1..];
      } else {
        AbsorbDistinct(c, spec, bs[1..], b);
        AbsorbKeys(c, spec, bs[1..], b, bs[0].key);
        assert after[1..] == Absorb(c, spec, bs[1..], b);
      }
      HeadAlone(after);
    }
  }

  /** The heart of the matter: merge first or absorb directly. */
  lemma {:induction false} AbsorbMerged(c: Collate, spec: Spec, tags: seq<nat>, bs: seq<Bucket>, t: seq<Bucket>, b: Bucket)
    requires BucketsFit(spec, tags, bs) && BucketsFit(spec, tags, t) && AllFit(spec, tags, b.states) && DistinctKeys(t)
    requires Sized(spec, bs) && Sized(spec, t)
    ensures Sized(spec, Absorb(c, spec, t, b))
    ensures AbsorbAll(c, spec, bs, Absorb(c, spec, t, b)) == Absorb(c, spec, AbsorbAll(c, spec, bs, t), b)
    decreases |t|
  {
    AbsorbSized(c, spec, t, b);
    var merged := Absorb(c, spec, t, b);
    if t == [] {
      MergeAllAssociates(c, spec, tags, b.states, b.states, b.states);
      assert merged == [b] && merged[1..] == [];
      AbsorbSized(c, spec, bs, b);
      assert AbsorbAll(c, spec, Absorb(c, spec, bs, b), []) == Absorb(c, spec, bs, b);
    } else {
      BucketsFitSized(spec, tags, t);
      AbsorbFits(c, spec, tags, bs, t[0]);
      AbsorbSized(c, spec, bs, t[0]);
      HeadAlone(t);
      if t[0].key == b.key {
        AbsorbTwice(c, spec, tags, bs, t[0], b);
        assert merged[1..] == t[1..];
        AbsorbKeys(c, spec, bs, t[0], b.key);
        AbsorbThrough(c, spec, tags, Absorb(c, spec, bs, t[0]), b, t[1..]);
      } else {
        assert merged[0] == t[0] && merged[1..] == Absorb(c, spec, t[1..], b);
        AbsorbMerged(c, spec, tags, Absorb(c, spec, bs, t[0]), t[1..], b);
      }
    }
  }

  // Partial rows of any shards.

  lemma {:induction false} PartialFits(c: Collate, spec: Spec, tags: seq<nat>, rows: seq<Value>)
    requires RowsFit(spec, tags, rows)
    ensures BucketsFit(spec, tags, Partial(c, spec, rows)) && DistinctKeys(Partial(c, spec, rows))
  {
    if rows != [] {
      var front, row := rows[..|rows| - 1], rows[|rows| - 1];
      assert RowsFit(spec, tags, front) by {
        forall k, i | 0 <= k < |front| && 0 <= i < |tags| ensures RowFits(spec.fields[i], tags[i], front[k]) {
          assert RowFits(spec.fields[i], tags[i], rows[k]);
        }
      }
      PartialFits(c, spec, tags, front);
      LastRowFits(spec, tags, rows);
      OneFits(c, spec, tags, row);
      StepRowAbsorbs(c, spec, tags, Partial(c, spec, front), row);
      AbsorbFits(c, spec, tags, Partial(c, spec, front), One(c, spec, row));
      AbsorbDistinct(c, spec, Partial(c, spec, front), One(c, spec, row));
    }
  }

  lemma LastRowFits(spec: Spec, tags: seq<nat>, rows: seq<Value>)
    requires RowsFit(spec, tags, rows) && rows != []
    ensures forall i {:trigger tags[i]} | 0 <= i < |tags| :: RowFits(spec.fields[i], tags[i], rows[|rows| - 1])
  {
    forall i | 0 <= i < |tags| ensures RowFits(spec.fields[i], tags[i], rows[|rows| - 1]) {
      var k := |rows| - 1;
      assert RowFits(spec.fields[i], tags[i], rows[k]);
    }
  }

  /** Rows folded onto buckets, one after the other. */
  function FoldOn(c: Collate, spec: Spec, bs: seq<Bucket>, rows: seq<Value>): (r: seq<Bucket>)
    requires Sized(spec, bs)
    ensures Sized(spec, r)
  {
    if rows == [] then bs
    else
      var front := FoldOn(c, spec, bs, rows[..|rows| - 1]);
      StepRowSized(c, spec, front, rows[|rows| - 1]);
      StepRow(c, spec, front, rows[|rows| - 1])
  }

  lemma {:induction false} FoldOnFits(c: Collate, spec: Spec, tags: seq<nat>, bs: seq<Bucket>, rows: seq<Value>)
    requires BucketsFit(spec, tags, bs) && RowsFit(spec, tags, rows)
    ensures Sized(spec, bs) && BucketsFit(spec, tags, FoldOn(c, spec, bs, rows))
  {
    if rows != [] {
      RowsFitFront(spec, tags, rows);
      FoldOnFits(c, spec, tags, bs, rows[..|rows| - 1]);
      LastRowFits(spec, tags, rows);
      OneFits(c, spec, tags, rows[|rows| - 1]);
      StepRowAbsorbs(c, spec, tags, FoldOn(c, spec, bs, rows[..|rows| - 1]), rows[|rows| - 1]);
      AbsorbFits(c, spec, tags, FoldOn(c, spec, bs, rows[..|rows| - 1]), One(c, spec, rows[|rows| - 1]));
    }
  }

  lemma RowsFitFront(spec: Spec, tags: seq<nat>, rows: seq<Value>)
    requires RowsFit(spec, tags, rows) && rows != []
    ensures RowsFit(spec, tags, rows[..|rows| - 1])
  {
    var front := rows[..|rows| - 1];
    forall k, i | 0 <= k < |front| && 0 <= i < |tags| ensures RowFits(spec.fields[i], tags[i], front[k]) {
      assert RowFits(spec.fields[i], tags[i], rows[k]);
    }
  }

  /** Merging the partial rows of some rows is folding those rows. */
  lemma {:induction false} MergeIsFold(c: Collate, spec: Spec, tags: seq<nat>, bs: seq<Bucket>, rows: seq<Value>)
    requires BucketsFit(spec, tags, bs) && RowsFit(spec, tags, rows)
    ensures Sized(spec, bs)
    ensures AbsorbAll(c, spec, bs, Partial(c, spec, rows)) == FoldOn(c, spec, bs, rows)
  {
    if rows != [] {
      var front, row := rows[..|rows| - 1], rows[|rows| - 1];
      RowsFitFront(spec, tags, rows);
      LastRowFits(spec, tags, rows);
      OneFits(c, spec, tags, row);
      PartialFits(c, spec, tags, front);
      FoldOnFits(c, spec, tags, bs, front);
      MergeIsFold(c, spec, tags, bs, front);
      StepRowAbsorbs(c, spec, tags, Partial(c, spec, front), row);
      StepRowAbsorbs(c, spec, tags, FoldOn(c, spec, bs, front), row);
      AbsorbMerged(c, spec, tags, bs, Partial(c, spec, front), One(c, spec, row));
    }
  }

  /** The partial buckets of all shards, in the order they arrive. */
  function PartialsOf(c: Collate, spec: Spec, parts: seq<seq<Value>>): (bs: seq<Bucket>)
    ensures Sized(spec, bs)
  {
    if parts == [] then [] else PartialsOf(c, spec, parts[..|parts| - 1]) + Partial(c, spec, parts[|parts| - 1])
  }

  lemma {:induction false} AbsorbAllAppend(c: Collate, spec: Spec, bs: seq<Bucket>, s: seq<Bucket>, t: seq<Bucket>)
    requires Sized(spec, bs) && Sized(spec, s) && Sized(spec, t)
    ensures AbsorbAll(c, spec, bs, s + t) == AbsorbAll(c, spec, AbsorbAll(c, spec, bs, s), t)
    decreases |s|
  {
    if s == [] {
      assert s + t == t;
    } else {
      assert (s + t)[1..] == s[1..] + t && (s + t)[0] == s[0];
      AbsorbSized(c, spec, bs, s[0]);
      AbsorbAllAppend(c, spec, Absorb(c, spec, bs, s[0]), s[1..], t);
    }
  }

  lemma {:induction false} FoldOnAppend(c: Collate, spec: Spec, bs: seq<Bucket>, a: seq<Value>, b: seq<Value>)
    requires Sized(spec, bs)
    ensures FoldOn(c, spec, bs, a + b) == FoldOn(c, spec, FoldOn(c, spec, bs, a), b)
  {
    if b == [] {
      assert a + b == a;
    } else {
      assert (a + b)[..|a + b| - 1] == a + b[..|b| - 1];
      FoldOnAppend(c, spec, bs, a, b[..|b| - 1]);
    }
  }

  lemma {:induction false} FoldOnEmpty(c: Collate, spec: Spec, rows: seq<Value>)
    ensures FoldOn(c, spec, [], rows) == Partial(c, spec, rows)
  {
    if rows != [] {
      FoldOnEmpty(c, spec, rows[..|rows| - 1]);
    }
  }

  ghost predicate PartsFit(spec: Spec, tags: seq<nat>, parts: seq<seq<Value>>) {
    forall k {:trigger parts[k]} | 0 <= k < |parts| :: RowsFit(spec, tags, parts[k])
  }

  /**
   * Partial aggregation is a homomorphism.  However the rows are split among shards, merging all
   * their partial buckets gives the buckets of one fold over all rows, in the same order.
   */
  lemma {:induction false} PartialsMerge(c: Collate, spec: Spec, tags: seq<nat>, parts: seq<seq<Value>>)
    requires PartsFit(spec, tags, parts)
    ensures AbsorbAll(c, spec, [], PartialsOf(c, spec, parts)) == Partial(c, spec, Concat(parts))
  {
    if parts != [] {
      var front, last := parts[..|parts| - 1], parts[|parts| - 1];
      assert PartsFit(spec, tags, front) by {
        forall k | 0 <= k < |front| ensures RowsFit(spec, tags, front[k]) {
          assert front[k] == parts[k];
        }
      }
      PartialsMerge(c, spec, tags, front);
      AbsorbAllAppend(c, spec, [], PartialsOf(c, spec, front), Partial(c, spec, last));
      var whole := Partial(c, spec, Concat(front));
      ConcatFits(spec, tags, front);
      PartialFits(c, spec, tags, Concat(front));
      MergeIsFold(c, spec, tags, whole, last);
      FoldOnEmpty(c, spec, Concat(front));
      FoldOnEmpty(c, spec, Concat(front) + last);
      FoldOnAppend(c, spec, [], Concat(front), last);
    }
  }

  lemma {:induction false} ConcatFits(spec: Spec, tags: seq<nat>, parts: seq<seq<Value>>)
    requires PartsFit(spec, tags, parts) && |tags| == |spec.fields|
    ensures RowsFit(spec, tags, Concat(parts))
  {
    if parts != [] {
      var front, last := parts[..|parts| - 1], parts[|parts| - 1];
      assert PartsFit(spec, tags, front) by {
        forall k | 0 <= k < |front| ensures RowsFit(spec, tags, front[k]) {
          assert front[k] == parts[k];
        }
      }
      ConcatFits(spec, tags, front);
      var rows := Concat(parts);
      forall k, i | 0 <= k < |rows| && 0 <= i < |tags| ensures RowFits(spec.fields[i], tags[i], rows[k]) {
        var n := |Concat(front)|;
        if k < n {
          assert RowFits(spec.fields[i], tags[i], Concat(front)[k]);
        } else {
          assert RowsFit(spec, tags, last);
          assert RowFits(spec.fields[i], tags[i], last[k - n]);
        }
      }
    }
  }

  // Partial rows as objects.

  type PartialRow = map<string, Value>

  function AvgSumKey(resultKey: string): string {
    "$partial." + resultKey + ".sum"
  }

  function AvgCountKey(resultKey: string): string {
    "$partial." + resultKey + ".count"
  }

  function OutputKeys(f: FieldSpec): seq<string> {
    if f.op.Avg? then [AvgSumKey(f.resultKey), AvgCountKey(f.resultKey)] else [f.resultKey]
  }

  function WriteGroup(row: PartialRow, groupBy: seq<string>, key: seq<Value>): PartialRow
    requires |key| == |groupBy|
  {
    if key == [] then row
    else WriteGroup(row, groupBy[..|key| - 1], key[..|key| - 1])[groupBy[|key| - 1] := key[|key| - 1]]
  }

  function WriteField(row: PartialRow, f: FieldSpec, s: FieldState): PartialRow {
    match s
    case SumState(sum) => row[f.resultKey := Num(sum)]
    case AvgState(sum, count) => row[AvgSumKey(f.resultKey) := Num(sum)][AvgCountKey(f.resultKey) := Num(count)]
    case Extreme(v) => row[f.resultKey := v.GetOr(Null)]
    case CountState(n) => row[f.resultKey := Num(n)]
  }

  function WriteFields(row: PartialRow, fields: seq<FieldSpec>, states: seq<FieldState>): PartialRow
    requires |fields| == |states|
  {
    if fields == [] then row
    else
      var n := |fields| - 1;
      WriteField(WriteFields(row, fields[..n], states[..n]), fields[n], states[n])
  }

  function Encode(spec: Spec, b: Bucket): PartialRow
    requires |b.key| == |spec.groupBy| && |b.states| == |spec.fields|
  {
    WriteFields(WriteGroup(map[], spec.groupBy, b.key), spec.fields, b.states)
  }

  function ValueIn(row: PartialRow, name: string): Value {
    if name in row then row[name] else Null
  }

  function NumberIn(row: PartialRow, name: string): int {
    match ValueIn(row, name)
    case Num(n) => n
    case _ => 0
  }

  function CountIn(row: PartialRow, name: string): nat {
    if NumberIn(row, name) < 0 then 0 else NumberIn(row, name)
  }

  function ReadField(row: PartialRow, f: FieldSpec): FieldState {
    match f.op
    case Sum(_) => SumState(NumberIn(row, f.resultKey))
    case Avg(_) => AvgState(NumberIn(row, AvgSumKey(f.resultKey)), CountIn(row, AvgCountKey(f.resultKey)))
    case Min(_) => Extreme(if Comparable(ValueIn(row, f.resultKey)) then Some(ValueIn(row, f.resultKey)) else None)
    case Max(_) => Extreme(if Comparable(ValueIn(row, f.resultKey)) then Some(ValueIn(row, f.resultKey)) else None)
    case CountRows => CountState(CountIn(row, f.resultKey))
    case CountField(_) => CountState(CountIn(row, f.resultKey))
  }

  function ReadFields(row: PartialRow, fields: seq<FieldSpec>): (r: seq<FieldState>)
    ensures |r| == |fields| && forall i | 0 <= i < |r| :: r[i] == ReadField(row, fields[i])
  {
    if fields == [] then [] else ReadFields(row, fields[..|fields| - 1]) + [ReadField(row, fields[|fields| - 1])]
  }

  function ReadGroup(row: PartialRow, groupBy: seq<string>): (key: seq<Value>)
    ensures |key| == |groupBy| && forall i | 0 <= i < |key| :: key[i] == ValueIn(row, groupBy[i])
  {
    if groupBy == [] then [] else ReadGroup(row, groupBy[..|groupBy| - 1]) + [ValueIn(row, groupBy[|groupBy| - 1])]
  }

  function Decode(spec: Spec, row: PartialRow): Bucket {
    Bucket(ReadGroup(row, spec.groupBy), ReadFields(row, spec.fields))
  }

  /** No two fields write one key, and none overwrites a group path. */
  ghost predicate NoClash(spec: Spec) {
    && (forall i, j, k | 0 <= i < j < |spec.fields| && k in OutputKeys(spec.fields[i]) :: k !in OutputKeys(spec.fields[j]))
    && (forall i, k | 0 <= i < |spec.fields| && k in OutputKeys(spec.fields[i]) :: k !in spec.groupBy)
  }

  lemma {:induction false} WriteFieldsElsewhere(row: PartialRow, fields: seq<FieldSpec>, states: seq<FieldState>, tags: seq<nat>, name: string)
    requires |fields| == |states| == |tags| && forall i | 0 <= i < |fields| :: Fits(states[i], fields[i], tags[i])
    requires forall i | 0 <= i < |fields| :: name !in OutputKeys(fields[i])
    ensures ValueIn(WriteFields(row, fields, states), name) == ValueIn(row, name)
  {
    if fields != [] {
      var n := |fields| - 1;
      WriteFieldsElsewhere(row, fields[..n], states[..n], tags[..n], name);
      assert name !in OutputKeys(fields[n]) && Fits(states[n], fields[n], tags[n]);
    }
  }

  lemma WriteFieldReads(row: PartialRow, f: FieldSpec, s: FieldState, tag: nat)
    requires Fits(s, f, tag)
    ensures ReadField(WriteField(row, f, s), f) == s
  {
    assert AvgSumKey(f.resultKey) != AvgCountKey(f.resultKey) by {
      assert |AvgSumKey(f.resultKey)| != |AvgCountKey(f.resultKey)|;
    }
  }

  lemma ReadFieldDepends(a: PartialRow, b: PartialRow, f: FieldSpec)
    requires forall k | k in OutputKeys(f) :: ValueIn(a, k) == ValueIn(b, k)
    ensures ReadField(a, f) == ReadField(b, f)
  {
    if f.op.Avg? {
      assert OutputKeys(f)[0] == AvgSumKey(f.resultKey) && OutputKeys(f)[1] == AvgCountKey(f.resultKey);
    } else {
      assert OutputKeys(f)[0] == f.resultKey;
    }
  }

  lemma {:induction false} WriteFieldsRead(row: PartialRow, fields: seq<FieldSpec>, states: seq<FieldState>, tags: seq<nat>, i: nat)
    requires |fields| == |states| == |tags| && forall k | 0 <= k < |fields| :: Fits(states[k], fields[k], tags[k])
    requires forall j, k, name | 0 <= j < k < |fields| && name in OutputKeys(fields[j]) :: name !in OutputKeys(fields[k])
    requires i < |fields|
    ensures ReadField(WriteFields(row, fields, states), fields[i]) == states[i]
  {
    var n := |fields| - 1;
    var before := WriteFields(row, fields[..n], states[..n]);
    assert Fits(states[n], fields[n], tags[n]);
    if i == n {
      WriteFieldReads(before, fields[n], states[n], tags[n]);
    } else {
      WriteFieldsRead(row, fields[..n], states[..n], tags[..n], i);
      forall k | k in OutputKeys(fields[i]) ensures ValueIn(WriteField(before, fields[n], states[n]), k) == ValueIn(before, k) {
        assert k !in OutputKeys(fields[n]);
        WriteFieldElsewhere(before, fields[n], states[n], tags[n], k);
      }
      ReadFieldDepends(WriteField(before, fields[n], states[n]), before, fields[i]);
    }
  }

  lemma WriteFieldElsewhere(row: PartialRow, f: FieldSpec, s: FieldState, tag: nat, name: string)
    requires Fits(s, f, tag) && name !in OutputKeys(f)
    ensures ValueIn(WriteField(row, f, s), name) == ValueIn(row, name)
  {
    if f.op.Avg? {
      assert OutputKeys(f)[0] == AvgSumKey(f.resultKey) && OutputKeys(f)[1] == AvgCountKey(f.resultKey);
    } else {
      assert OutputKeys(f)[0] == f.resultKey;
    }
  }

  /** A path listed twice has one value. */
  ghost predicate OneValueAPath(groupBy: seq<string>, key: seq<Value>) {
    |key| == |groupBy| && forall i, j | 0 <= i < |key| && 0 <= j < |key| && groupBy[i] == groupBy[j] :: key[i] == key[j]
  }

  lemma {:induction false} WriteGroupReads(groupBy: seq<string>, key: seq<Value>, i: nat)
    requires OneValueAPath(groupBy, key) && i < |key|
    ensures ValueIn(WriteGroup(map[], groupBy, key), groupBy[i]) == key[i]
  {
    var n := |key| - 1;
    if groupBy[i] != groupBy[n] {
      WriteGroupReads(groupBy[..n], key[..n], i);
    }
  }

  /** A bucket survives the trip as a partial row when no output key clashes. */
  lemma EncodeRoundTrip(spec: Spec, tags: seq<nat>, b: Bucket)
    requires NoClash(spec) && AllFit(spec, tags, b.states) && OneValueAPath(spec.groupBy, b.key)
    ensures Decode(spec, Encode(spec, b)) == b
  {
    var start := WriteGroup(map[], spec.groupBy, b.key);
    forall k | 0 <= k < |spec.fields| ensures Fits(b.states[k], spec.fields[k], tags[k]) {}
    forall i | 0 <= i < |b.key| ensures ValueIn(Encode(spec, b), spec.groupBy[i]) == b.key[i] {
      assert spec.groupBy[i] in spec.groupBy;
      WriteFieldsElsewhere(start, spec.fields, b.states, tags, spec.groupBy[i]);
      WriteGroupReads(spec.groupBy, b.key, i);
    }
    forall i | 0 <= i < |spec.fields| ensures ReadField(Encode(spec, b), spec.fields[i]) == b.states[i] {
      WriteFieldsRead(start, spec.fields, b.states, tags, i);
    }
    assert ReadGroup(Encode(spec, b), spec.groupBy) == b.key;
    assert ReadFields(Encode(spec, b), spec.fields) == b.states;
  }

  /** A bucket some rows could have: states of the fields' shapes, one value a group path. */
  ghost predicate Possible(spec: Spec, b: Bucket) {
    OneValueAPath(spec.groupBy, b.key) && |b.states| == |spec.fields| && exists tags :: AllFit(spec, tags, b.states)
  }

  ghost predicate EncodesAll(spec: Spec) {
    forall b {:trigger Possible(spec, b)} | Possible(spec, b) :: Decode(spec, Encode(spec, b)) == b
  }

  /** A fresh state, but for a one written under the name. */
  function Marked(f: FieldSpec, name: string): FieldState {
    match f.op
    case Sum(_) => SumState(1)
    case Avg(_) => if name == AvgSumKey(f.resultKey) then AvgState(1, 0) else AvgState(0, 1)
    case Min(_) => Extreme(Some(Num(1)))
    case Max(_) => Extreme(Some(Num(1)))
    case CountRows => CountState(1)
    case CountField(_) => CountState(1)
  }

  predicate ZeroOrNull(v: Value) {
    v == Num(0) || v == Null
  }

  lemma FreshWritesZero(row: PartialRow, f: FieldSpec, name: string)
    requires name in OutputKeys(f)
    ensures ZeroOrNull(ValueIn(WriteField(row, f, Init(f)), name))
  {
    if f.op.Avg? {
      assert name == AvgSumKey(f.resultKey) || name == AvgCountKey(f.resultKey);
    }
  }

  lemma MarkUnread(row: PartialRow, f: FieldSpec, name: string)
    requires name in OutputKeys(f) && ZeroOrNull(ValueIn(row, name))
    ensures ReadField(row, f) != Marked(f, name)
  {
    if f.op.Avg? && name != AvgSumKey(f.resultKey) {
      assert name == AvgCountKey(f.resultKey);
    }
  }

  /** The last field that writes a name. */
  lemma {:induction false} LastWriter(fields: seq<FieldSpec>, name: string, i: nat) returns (l: nat)
    requires i < |fields| && name in OutputKeys(fields[i])
    ensures i <= l < |fields| && name in OutputKeys(fields[l])
    ensures forall k | l < k < |fields| :: name !in OutputKeys(fields[k])
  {
    if name in OutputKeys(fields[|fields| - 1]) {
      l := |fields| - 1;
    } else {
      l := LastWriter(fields[..|fields| - 1], name, i);
      forall k | l < k < |fields| ensures name !in OutputKeys(fields[k]) {
        assert k < |fields| - 1 ==> fields[..|fields| - 1][k] == fields[k];
      }
    }
  }

  /** What a name holds is what its last writer, if fresh, put there. */
  lemma {:induction false} LastWriteStays(row: PartialRow, fields: seq<FieldSpec>, states: seq<FieldState>, tags: seq<nat>, name: string, l: nat)
    requires |fields| == |states| == |tags| && forall k | 0 <= k < |fields| :: Fits(states[k], fields[k], tags[k])
    requires l < |fields| && name in OutputKeys(fields[l]) && states[l] == Init(fields[l])
    requires forall k | l < k < |fields| :: name !in OutputKeys(fields[k])
    ensures ZeroOrNull(ValueIn(WriteFields(row, fields, states), name))
  {
    var n := |fields| - 1;
    var before := WriteFields(row, fields[..n], states[..n]);
    if l == n {
      FreshWritesZero(before, fields[n], name);
    } else {
      LastWriteStays(row, fields[..n], states[..n], tags[..n], name, l);
      assert Fits(states[n], fields[n], tags[n]);
      WriteFieldElsewhere(before, fields[n], states[n], tags[n], name);
    }
  }

  function Ones(n: nat): (tags: seq<nat>)
    ensures |tags| == n && forall i | 0 <= i < n :: tags[i] == 1
  {
    seq(n, i => 1)
  }

  /** All group values one, all states fresh but for a mark at one field. */
  function Probe(spec: Spec, i: nat, name: string): (b: Bucket)
    requires i < |spec.fields|
    ensures |b.key| == |spec.groupBy| && |b.states| == |spec.fields|
  {
    Bucket(seq(|spec.groupBy|, k => Num(1)), InitAll(spec.fields)[i := Marked(spec.fields[i], name)])
  }

  lemma ProbePossible(spec: Spec, i: nat, name: string)
    requires i < |spec.fields|
    ensures Possible(spec, Probe(spec, i, name)) && AllFit(spec, Ones(|spec.fields|), Probe(spec, i, name).states)
  {
    var b, tags := Probe(spec, i, name), Ones(|spec.fields|);
    forall k | 0 <= k < |spec.fields| ensures Fits(b.states[k], spec.fields[k], tags[k]) {}
    assert AllFit(spec, tags, b.states);
  }

  /** The probe of a clash: its mark is overwritten. */
  lemma FieldClashLoses(spec: Spec, i: nat, j: nat, name: string)
    requires i < j < |spec.fields| && name in OutputKeys(spec.fields[i]) && name in OutputKeys(spec.fields[j])
    ensures !EncodesAll(spec)
  {
    var b := Probe(spec, i, name);
    var l := LastWriter(spec.fields, name, j);
    ProbePossible(spec, i, name);
    LastWriteStays(WriteGroup(map[], spec.groupBy, b.key), spec.fields, b.states, Ones(|spec.fields|), name, l);
    MarkUnread(Encode(spec, b), spec.fields[i], name);
    assert Decode(spec, Encode(spec, b)).states[i] != b.states[i];
  }

  /** A result key equal to a group path overwrites the group's value. */
  lemma GroupClashLoses(spec: Spec, i: nat, name: string)
    requires i < |spec.fields| && name in OutputKeys(spec.fields[i]) && name in spec.groupBy
    ensures !EncodesAll(spec)
  {
    var g :| 0 <= g < |spec.groupBy| && spec.groupBy[g] == name;
    var l := LastWriter(spec.fields, name, i);
    var b := Probe(spec, l, name).(states := InitAll(spec.fields));
    var tags := Ones(|spec.fields|);
    forall k | 0 <= k < |spec.fields| ensures Fits(b.states[k], spec.fields[k], tags[k]) {}
    assert AllFit(spec, tags, b.states);
    assert Possible(spec, b);
    LastWriteStays(WriteGroup(map[], spec.groupBy, b.key), spec.fields, b.states, tags, name, l);
    assert Decode(spec, Encode(spec, b)).key[g] != b.key[g];
  }

  /** Buckets survive their row encoding, all of them, if and only if no two columns clash. */
  lemma EncodeRoundTripExact(spec: Spec)
    ensures EncodesAll(spec) <==> NoClash(spec)
  {
    if NoClash(spec) {
      forall b | Possible(spec, b) ensures Decode(spec, Encode(spec, b)) == b {
        var tags :| AllFit(spec, tags, b.states);
        EncodeRoundTrip(spec, tags, b);
      }
    } else if i, j, name :| 0 <= i < j < |spec.fields| && name in OutputKeys(spec.fields[i]) && name in OutputKeys(spec.fields[j]) {
      FieldClashLoses(spec, i, j, name);
    } else {
      var i, name :| 0 <= i < |spec.fields| && name in OutputKeys(spec.fields[i]) && name in spec.groupBy;
      GroupClashLoses(spec, i, name);
    }
  }

  /** A row count named like the group path is such a clash. */
  lemma ClashLosesGroup()
    ensures !EncodesAll(Spec(["g"], [FieldSpec("g", CountRows)], [], 1, 20))
  {
    var spec := Spec(["g"], [FieldSpec("g", CountRows)], [], 1, 20);
    assert OutputKeys(spec.fields[0])[0] == "g" && spec.groupBy[0] == "g";
    GroupClashLoses(spec, 0, "g");
  }

  // From rows to the answer.

  function EncodeAll(spec: Spec, bs: seq<Bucket>): (r: seq<PartialRow>)
    requires Sized(spec, bs) && forall i | 0 <= i < |bs| :: |bs[i].key| == |spec.groupBy|
    ensures |r| == |bs| && forall i | 0 <= i < |r| :: r[i] == Encode(spec, bs[i])
  {
    if bs == [] then [] else EncodeAll(spec, bs[..|bs| - 1]) + [Encode(spec, bs[|bs| - 1])]
  }

  function DecodeAll(spec: Spec, rows: seq<PartialRow>): (r: seq<Bucket>)
    ensures |r| == |rows| && forall i | 0 <= i < |r| :: r[i] == Decode(spec, rows[i])
  {
    if rows == [] then [] else DecodeAll(spec, rows[..|rows| - 1]) + [Decode(spec, rows[|rows| - 1])]
  }

  /** A cell of a finished row; an average is a ratio. */
  datatype Cell = Plain(value: Value) | Ratio(ratio: real)

  type ResultRow = map<string, Cell>

  function FinishField(f: FieldSpec, s: FieldState): Cell {
    match s
    case SumState(sum) => Plain(Num(sum))
    case AvgState(sum, count) => if count == 0 then Plain(Null) else Ratio(sum as real / count as real)
    case Extreme(v) => Plain(v.GetOr(Null))
    case CountState(n) => Plain(Num(n))
  }

  function FinishGroup(groupBy: seq<string>, key: seq<Value>): ResultRow
    requires |key| == |groupBy|
  {
    if key == [] then map[]
    else FinishGroup(groupBy[..|key| - 1], key[..|key| - 1])[groupBy[|key| - 1] := Plain(key[|key| - 1])]
  }

  function FinishFields(row: ResultRow, fields: seq<FieldSpec>, states: seq<FieldState>): ResultRow
    requires |fields| == |states|
  {
    if fields == [] then row
    else
      var n := |fields| - 1;
      FinishFields(row, fields[..n], states[..n])[fields[n].resultKey := FinishField(fields[n], states[n])]
  }

  function FinishAll(spec: Spec, bs: seq<Bucket>): (r: seq<ResultRow>)
    requires Sized(spec, bs) && forall i | 0 <= i < |bs| :: |bs[i].key| == |spec.groupBy|
  {
    if bs == [] then []
    else
      var b := bs[|bs| - 1];
      FinishAll(spec, bs[..|bs| - 1]) + [FinishFields(FinishGroup(spec.groupBy, b.key), spec.fields, b.states)]
  }

  /** Buckets in order of first appearance, sorted when asked, then one page of them. */
  function Answer(spec: Spec, bs: seq<Bucket>, order: Order<ResultRow>): seq<ResultRow>
    requires Sized(spec, bs) && forall i | 0 <= i < |bs| :: |bs[i].key| == |spec.groupBy|
    requires spec.page >= 1
  {
    var rows := FinishAll(spec, bs);
    Page(if spec.sort != [] then Sort(order, rows) else rows, (spec.page - 1) * spec.pageSize, spec.pageSize)
  }

  // The sort of an answer.

  /** The place of a cell's text in the collation. */
  type CellCollation = Cell -> real

  function CellNumber(x: Cell): Option<real> {
    match x
    case Plain(Num(n)) => Some(n as real)
    case Ratio(ratio) => Some(ratio)
    case _ => None
  }

  /** The cell a row has under a name, unless it is missing or null. */
  function CellAt(row: ResultRow, name: string): Option<Cell> {
    if name in row && row[name] != Plain(Null) then Some(row[name]) else None
  }

  /** One sort key: missing cells last in either direction. */
  function CompareAt(collate: CellCollation, key: SortKey): Comparator<ResultRow> {
    (l, r) => ComparePresent(collate, key.ascending, CellAt(l, key.path), CellAt(r, key.path))
  }

  function ComparePresent(collate: CellCollation, ascending: bool, a: Option<Cell>, b: Option<Cell>): int {
    if a.None? && b.None? then 0
    else if a.None? then 1
    else if b.None? then -1
    else Directed(ascending, CompareCells(collate, a.value, b.value))
  }

  function CompareCells(collate: CellCollation, a: Cell, b: Cell): int {
    var x, y := CellNumber(a), CellNumber(b);
    if x.Some? && y.Some? then Sign(x.value - y.value) else Sign(collate(a) - collate(b))
  }

  function Sign(x: real): int {
    if x < 0.0 then -1 else if x > 0.0 then 1 else 0
  }

  function Comparators(collate: CellCollation, sort: seq<SortKey>): (keys: seq<Comparator<ResultRow>>)
    ensures |keys| == |sort| && forall i | 0 <= i < |keys| :: keys[i] == CompareAt(collate, sort[i])
  {
    if sort == [] then [] else [CompareAt(collate, sort[0])] + Comparators(collate, sort[1..])
  }

  /** `makeComparator`: the sort keys in turn. */
  function BySortKeys(collate: CellCollation, sort: seq<SortKey>): Order<ResultRow> {
    LexicalOrder(Comparators(collate, sort))
  }

  /** Every column the answer is sorted by holds numbers only, or no numbers. */
  predicate ColumnsOfOneKind(sort: seq<SortKey>, numbers: seq<bool>, row: ResultRow)
    requires |numbers| == |sort|
  {
    forall i | 0 <= i < |sort| :: CellOfKind(numbers[i], CellAt(row, sort[i].path))
  }

  lemma ColumnsOrdered(collate: CellCollation, sort: seq<SortKey>, numbers: seq<bool>)
    requires |numbers| == |sort|
    ensures PreorderOn(BySortKeys(collate, sort), row => ColumnsOfOneKind(sort, numbers, row))
  {
    var ok := (row: ResultRow) => ColumnsOfOneKind(sort, numbers, row);
    var keys := Comparators(collate, sort);
    forall i | 0 <= i < |keys| ensures Consistent(keys[i], ok) {
      CompareAtConsistent(collate, sort, numbers, i);
    }
    LexicalOrdered(keys, ok);
  }

  lemma CompareAtConsistent(collate: CellCollation, sort: seq<SortKey>, numbers: seq<bool>, i: nat)
    requires |numbers| == |sort| && i < |sort|
    ensures Consistent(CompareAt(collate, sort[i]), row => ColumnsOfOneKind(sort, numbers, row))
  {
    var ok := (row: ResultRow) => ColumnsOfOneKind(sort, numbers, row);
    var compare, path, ascending := CompareAt(collate, sort[i]), sort[i].path, sort[i].ascending;
    forall a, b | ok(a) && ok(b) ensures compare(a, b) < 0 <==> compare(b, a) > 0 {
      CellsOrdered(collate, ascending, numbers[i], CellAt(a, path), CellAt(b, path), CellAt(b, path));
    }
    forall a, b, c | ok(a) && ok(b) && ok(c) && compare(a, b) <= 0 && compare(b, c) <= 0 ensures compare(a, c) <= 0 {
      CellsOrdered(collate, ascending, numbers[i], CellAt(a, path), CellAt(b, path), CellAt(c, path));
    }
  }

  predicate CellOfKind(numbers: bool, x: Option<Cell>) {
    x.Some? ==> CellNumber(x.value).Some? == numbers
  }

  lemma CellsOrdered(collate: CellCollation, ascending: bool, numbers: bool, a: Option<Cell>, b: Option<Cell>, c: Option<Cell>)
    requires CellOfKind(numbers, a) && CellOfKind(numbers, b) && CellOfKind(numbers, c)
    ensures ComparePresent(collate, ascending, a, b) < 0 <==> ComparePresent(collate, ascending, b, a) > 0
    ensures ComparePresent(collate, ascending, a, b) <= 0 && ComparePresent(collate, ascending, b, c) <= 0 ==>
              ComparePresent(collate, ascending, a, c) <= 0
  {
  }

  /** Under one sort key the first row comes before the second: missing cells last in either direction, numbers by size. */
  predicate Precedes(collate: CellCollation, key: SortKey, l: ResultRow, r: ResultRow) {
    var a, b := CellAt(l, key.path), CellAt(r, key.path);
    a.Some? && (b.None? || (if key.ascending then Smaller(collate, a.value, b.value) else Smaller(collate, b.value, a.value)))
  }

  predicate Smaller(collate: CellCollation, a: Cell, b: Cell) {
    if CellNumber(a).Some? && CellNumber(b).Some? then CellNumber(a).value < CellNumber(b).value else collate(a) < collate(b)
  }

  predicate Tied(collate: CellCollation, sort: seq<SortKey>, k: nat, l: ResultRow, r: ResultRow)
    requires k <= |sort|
  {
    forall j {:trigger sort[j]} | 0 <= j < k :: !Precedes(collate, sort[j], l, r) && !Precedes(collate, sort[j], r, l)
  }

  /** The first sort key that tells the two rows apart does not put the second one first. */
  predicate NotAfter(collate: CellCollation, sort: seq<SortKey>, l: ResultRow, r: ResultRow) {
    forall k {:trigger sort[k]} | 0 <= k < |sort| && Tied(collate, sort, k, l, r) :: !Precedes(collate, sort[k], r, l)
  }

  lemma OneKeyMeans(collate: CellCollation, key: SortKey, l: ResultRow, r: ResultRow)
    ensures CompareAt(collate, key)(l, r) < 0 <==> Precedes(collate, key, l, r)
    ensures CompareAt(collate, key)(l, r) > 0 <==> Precedes(collate, key, r, l)
  {
  }

  lemma {:induction false} SortKeysMean(collate: CellCollation, sort: seq<SortKey>, l: ResultRow, r: ResultRow)
    ensures BySortKeys(collate, sort)(l, r) <==> NotAfter(collate, sort, l, r)
  {
    if sort != [] {
      var rest := sort[1..];
      SortKeysMean(collate, rest, l, r);
      OneKeyMeans(collate, sort[0], l, r);
      hide Precedes, CompareAt;
      assert Comparators(collate, sort)[1..] == Comparators(collate, rest);
      assert Tied(collate, sort, 0, l, r);
      if CompareAt(collate, sort[0])(l, r) == 0 {
        NotAfterRest(collate, sort, l, r);
      }
    }
  }

  lemma NotAfterRest(collate: CellCollation, sort: seq<SortKey>, l: ResultRow, r: ResultRow)
    requires sort != [] && !Precedes(collate, sort[0], l, r) && !Precedes(collate, sort[0], r, l)
    ensures NotAfter(collate, sort, l, r) <==> NotAfter(collate, sort[1..], l, r)
  {
    hide Precedes;
    var rest := sort[1..];
    forall k | 0 <= k < |rest| ensures Tied(collate, rest, k, l, r) <==> Tied(collate, sort, k + 1, l, r) {
      assert forall j {:trigger rest[j]} | 0 <= j < k :: rest[j] == sort[j + 1];
      assert forall j {:trigger sort[j]} | 0 < j < k + 1 :: sort[j] == rest[j - 1];
    }
    if NotAfter(collate, sort, l, r) {
      forall k | 0 <= k < |rest| && Tied(collate, rest, k, l, r) ensures !Precedes(collate, rest[k], r, l) {
        assert rest[k] == sort[k + 1];
      }
    }
    if NotAfter(collate, rest, l, r) {
      forall k | 0 <= k < |sort| && Tied(collate, sort, k, l, r) ensures !Precedes(collate, sort[k], r, l) {
        assert k > 0 ==> Tied(collate, rest, k - 1, l, r) && rest[k - 1] == sort[k];
      }
    }
  }

  /** So the answer's rows are the groups in the order of the sort keys, however many and in either direction. */
  lemma AnswerSorted(collate: CellCollation, spec: Spec, numbers: seq<bool>, bs: seq<Bucket>)
    requires Sized(spec, bs) && forall i | 0 <= i < |bs| :: |bs[i].key| == |spec.groupBy|
    requires spec.page >= 1 && spec.sort != [] && |numbers| == |spec.sort|
    requires forall row | row in FinishAll(spec, bs) :: ColumnsOfOneKind(spec.sort, numbers, row)
    ensures var order, rows := BySortKeys(collate, spec.sort), FinishAll(spec, bs);
            var listed := Sort(order, rows);
            && (forall i, j | 0 <= i < j < |listed| :: NotAfter(collate, spec.sort, listed[i], listed[j]))
            && multiset(listed) == multiset(rows)
            && Answer(spec, bs, order) == Page(listed, (spec.page - 1) * spec.pageSize, spec.pageSize)
  {
    var ok := (row: ResultRow) => ColumnsOfOneKind(spec.sort, numbers, row);
    var order := BySortKeys(collate, spec.sort);
    ColumnsOrdered(collate, spec.sort, numbers);
    SortSorts(order, ok, FinishAll(spec, bs));
    var listed := Sort(order, FinishAll(spec, bs));
    forall i, j | 0 <= i < j < |listed| ensures NotAfter(collate, spec.sort, listed[i], listed[j]) {
      assert order(listed[i], listed[j]);
      SortKeysMean(collate, spec.sort, listed[i], listed[j]);
    }
  }

  ghost predicate Keyed(spec: Spec, bs: seq<Bucket>) {
    forall i {:trigger bs[i]} | 0 <= i < |bs| :: OneValueAPath(spec.groupBy, bs[i].key)
  }

  lemma {:induction false} StepRowKeyed(c: Collate, spec: Spec, bs: seq<Bucket>, row: Value)
    requires Sized(spec, bs) && Keyed(spec, bs)
    ensures Keyed(spec, StepRow(c, spec, bs, row))
  {
    if bs != [] {
      StepRowKeyed(c, spec, bs[1..], row);
    }
  }

  lemma {:induction false} PartialKeyed(c: Collate, spec: Spec, rows: seq<Value>)
    ensures Keyed(spec, Partial(c, spec, rows))
  {
    if rows != [] {
      PartialKeyed(c, spec, rows[..|rows| - 1]);
      StepRowKeyed(c, spec, Partial(c, spec, rows[..|rows| - 1]), rows[|rows| - 1]);
    }
  }

  ghost predicate AllPossible(spec: Spec, bs: seq<Bucket>) {
    forall i {:trigger bs[i]} | 0 <= i < |bs| :: Possible(spec, bs[i])
  }

  lemma DecodesBack(spec: Spec, bs: seq<Bucket>)
    requires NoClash(spec) && AllPossible(spec, bs)
    ensures Sized(spec, bs) && (forall i | 0 <= i < |bs| :: |bs[i].key| == |spec.groupBy|)
    ensures DecodeAll(spec, EncodeAll(spec, bs)) == bs
  {
    forall i | 0 <= i < |bs| ensures |bs[i].key| == |spec.groupBy| && Decode(spec, Encode(spec, bs[i])) == bs[i] {
      var tags :| AllFit(spec, tags, bs[i].states);
      EncodeRoundTrip(spec, tags, bs[i]);
    }
  }

  /** A shard's fold over its rows, sent as partial rows. */
  method AggregatePartialObjects(c: Collate, spec: Spec, rows: seq<Value>) returns (out: seq<PartialRow>)
    ensures Keyed(spec, Partial(c, spec, rows))
    ensures out == EncodeAll(spec, Partial(c, spec, rows))
  {
    PartialKeyed(c, spec, rows);
    var bs: seq<Bucket> := [];
    for i := 0 to |rows|
      invariant bs == Partial(c, spec, rows[..i])
    {
      assert rows[..i + 1][..i] == rows[..i];
      bs := StepRow(c, spec, bs, rows[i]);
    }
    assert rows[..|rows|] == rows;
    out := EncodeAll(spec, bs);
  }

  lemma {:induction false} AbsorbKeyLengths(c: Collate, spec: Spec, bs: seq<Bucket>, b: Bucket)
    requires Sized(spec, bs) && |b.states| == |spec.fields|
    requires |b.key| == |spec.groupBy| && forall i | 0 <= i < |bs| :: |bs[i].key| == |spec.groupBy|
    ensures forall i | 0 <= i < |Absorb(c, spec, bs, b)| :: |Absorb(c, spec, bs, b)[i].key| == |spec.groupBy|
  {
    if bs != [] {
      AbsorbKeyLengths(c, spec, bs[1..], b);
    }
  }

  /** The router's merge of whatever partial rows arrive. */
  method MergeAggregatePartials(c: Collate, spec: Spec, rows: seq<PartialRow>, order: Order<ResultRow>) returns (result: seq<ResultRow>)
    requires spec.page >= 1
    ensures var bs := AbsorbAll(c, spec, [], DecodeAll(spec, rows));
            && (forall i | 0 <= i < |bs| :: |bs[i].key| == |spec.groupBy|)
            && result == Answer(spec, bs, order)
  {
    hide Answer, Absorb;
    var bs: seq<Bucket> := [];
    ghost var all := DecodeAll(spec, rows);
    for i := 0 to |rows|
      invariant Sized(spec, bs) && forall k | 0 <= k < |bs| :: |bs[k].key| == |spec.groupBy|
      invariant AbsorbAll(c, spec, bs, all[i..]) == AbsorbAll(c, spec, [], all)
    {
      var b := Decode(spec, rows[i]);
      assert all[i..][0] == b && all[i..][1..] == all[i + 1..];
      AbsorbSized(c, spec, bs, b);
      AbsorbKeyLengths(c, spec, bs, b);
      bs := Absorb(c, spec, bs, b);
    }
    assert all[|rows|..] == [];
    result := Answer(spec, bs, order);
  }

  /** The answer to a query over all rows on one node. */
  ghost function AnswerOf(c: Collate, spec: Spec, rows: seq<Value>, order: Order<ResultRow>): seq<ResultRow>
    requires spec.page >= 1
  {
    PartialKeyed(c, spec, rows);
    Answer(spec, Partial(c, spec, rows), order)
  }
}
