/**
 * What a fold of rows into group buckets comes to, group by group: each group's states fold its own
 * rows, and the order in which rows arrive changes no group and no metric.
 */
module Groups {
  import opened Wrappers
  import opened Layout
  import opened Aggregates

  /** The states of rows that all fall into one group. */
  function StatesOf(c: Collate, fields: seq<FieldSpec>, rows: seq<Value>): (states: seq<FieldState>)
    ensures |states| == |fields|
  {
    if rows == [] then InitAll(fields) else StepAll(c, StatesOf(c, fields, rows[..|rows| - 1]), fields, rows[|rows| - 1])
  }

  lemma {:induction false} OneGroup(c: Collate, spec: Spec, rows: seq<Value>, key: seq<Value>)
    requires forall k | 0 <= k < |rows| :: GroupKey(spec.groupBy, rows[k]) == key
    ensures Partial(c, spec, rows) == if rows == [] then [] else [Bucket(key, StatesOf(c, spec.fields, rows))]
  {
    if rows != [] {
      OneGroup(c, spec, rows[..|rows| - 1], key);
      assert GroupKey(spec.groupBy, rows[|rows| - 1]) == key;
    }
  }

  /** So a flat scan's one bucket is the row fold's. */
  lemma FlatScan(c: Collate, spec: Spec, rows: seq<Value>)
    requires spec.groupBy == []
    ensures Partial(c, spec, rows) == if rows == [] then [] else [Bucket([], StatesOf(c, spec.fields, rows))]
  {
    OneGroup(c, spec, rows, []);
  }

  // The order in which rows arrive.

  /** The states of one group in a list of buckets. */
  function Look(spec: Spec, bs: seq<Bucket>, key: seq<Value>): seq<FieldState>
  {
    if bs == [] then InitAll(spec.fields) else if bs[0].key == key then bs[0].states else Look(spec, bs[1..], key)
  }

  /** The rows of one group. */
  function Members(groupBy: seq<string>, rows: seq<Value>, key: seq<Value>): seq<Value> {
    if rows == [] then []
    else
      var rest, row := Members(groupBy, rows[..|rows| - 1], key), rows[|rows| - 1];
      if GroupKey(groupBy, row) == key then rest + [row] else rest
  }

  lemma {:induction false} StepRowLook(c: Collate, spec: Spec, bs: seq<Bucket>, row: Value, key: seq<Value>)
    requires Sized(spec, bs)
    ensures |Look(spec, bs, key)| == |spec.fields|
    ensures Sized(spec, StepRow(c, spec, bs, row))
    ensures Look(spec, StepRow(c, spec, bs, row), key) ==
            if GroupKey(spec.groupBy, row) == key then StepAll(c, Look(spec, bs, key), spec.fields, row) else Look(spec, bs, key)
    ensures HasKey(StepRow(c, spec, bs, row), key) <==> HasKey(bs, key) || GroupKey(spec.groupBy, row) == key
  {
    StepRowSized(c, spec, bs, row);
    var after := StepRow(c, spec, bs, row);
    if bs == [] {
      assert after[0].key == GroupKey(spec.groupBy, row);
    } else {
      KeyInTail(bs, key);
      KeyInTail(after, key);
      if bs[0].key != GroupKey(spec.groupBy, row) {
        StepRowLook(c, spec, bs[1..], row, key);
        assert after[1..] == StepRow(c, spec, bs[1..], row);
      } else {
        assert after[1..] == bs[1..];
        LookSized(spec, bs[1..], key);
      }
    }
  }

  lemma {:induction false} LookSized(spec: Spec, bs: seq<Bucket>, key: seq<Value>)
    requires Sized(spec, bs)
    ensures |Look(spec, bs, key)| == |spec.fields|
  {
    if bs != [] {
      LookSized(spec, bs[1..], key);
    }
  }

  /** A group's states are the fold of its own rows, and a group is there when it has rows. */
  lemma {:induction false} PartialLook(c: Collate, spec: Spec, rows: seq<Value>, key: seq<Value>)
    ensures Look(spec, Partial(c, spec, rows), key) == StatesOf(c, spec.fields, Members(spec.groupBy, rows, key))
    ensures HasKey(Partial(c, spec, rows), key) <==> Members(spec.groupBy, rows, key) != []
  {
    if rows != [] {
      var front, row := rows[..|rows| - 1], rows[|rows| - 1];
      PartialLook(c, spec, front, key);
      StepRowLook(c, spec, Partial(c, spec, front), row, key);
      var rest := Members(spec.groupBy, front, key);
      assert (rest + [row])[..|rest|] == rest;
    }
  }

  /** Different texts or truth values never tie in the collation. */
  ghost predicate NoTies(c: Collate) {
    forall a, b | Comparable(a) && Comparable(b) && Tag(a) == Tag(b) && !a.Num? && c(a) == c(b) :: a == b
  }

  predicate Extremal(f: FieldSpec) {
    f.op.Min? || f.op.Max?
  }

  /** Ties matter to minima and maxima only. */
  ghost predicate TieFree(c: Collate, fields: seq<FieldSpec>) {
    (exists i :: 0 <= i < |fields| && Extremal(fields[i])) ==> NoTies(c)
  }

  lemma StepsCommute(c: Collate, f: FieldSpec, tag: nat, s: FieldState, x: Value, y: Value)
    requires (Extremal(f) ==> NoTies(c)) && Fits(s, f, tag) && RowFits(f, tag, x) && RowFits(f, tag, y)
    ensures StepField(c, StepField(c, s, f, x), f, y) == StepField(c, StepField(c, s, f, y), f, x)
  {
    hide NoTies, Pick, GetPath;
    if f.op.Min? {
      PicksCommute(c, true, tag, s.value, ComparableAt(x, f.op.path), ComparableAt(y, f.op.path));
    } else if f.op.Max? {
      PicksCommute(c, false, tag, s.value, ComparableAt(x, f.op.path), ComparableAt(y, f.op.path));
    }
  }

  lemma PicksCommute(c: Collate, min: bool, tag: nat, v: Option<Value>, x: Option<Value>, y: Option<Value>)
    requires NoTies(c)
    requires v.Some? ==> Comparable(v.value) && Tag(v.value) == tag
    requires x.Some? ==> Comparable(x.value) && Tag(x.value) == tag
    requires y.Some? ==> Comparable(y.value) && Tag(y.value) == tag
    ensures Pick(c, min, Pick(c, min, v, x), y) == Pick(c, min, Pick(c, min, v, y), x)
  {
  }

  lemma {:induction false} StatesFit(c: Collate, spec: Spec, tags: seq<nat>, rows: seq<Value>)
    requires RowsFit(spec, tags, rows)
    ensures AllFit(spec, tags, StatesOf(c, spec.fields, rows))
  {
    var states := StatesOf(c, spec.fields, rows);
    if rows == [] {
      forall i | 0 <= i < |states| ensures Fits(states[i], spec.fields[i], tags[i]) {}
    } else {
      RowsFitFront(spec, tags, rows);
      LastRowFits(spec, tags, rows);
      StatesFit(c, spec, tags, rows[..|rows| - 1]);
      var before := StatesOf(c, spec.fields, rows[..|rows| - 1]);
      forall i | 0 <= i < |states| ensures Fits(states[i], spec.fields[i], tags[i]) {
        assert Fits(before[i], spec.fields[i], tags[i]);
        assert RowFits(spec.fields[i], tags[i], rows[|rows| - 1]);
      }
    }
  }

  predicate OneRowFits(spec: Spec, tags: seq<nat>, row: Value) {
    |tags| == |spec.fields| && forall i {:trigger tags[i]} | 0 <= i < |tags| :: RowFits(spec.fields[i], tags[i], row)
  }

  lemma StepsCommuteAll(c: Collate, spec: Spec, tags: seq<nat>, states: seq<FieldState>, x: Value, y: Value)
    requires TieFree(c, spec.fields) && AllFit(spec, tags, states) && OneRowFits(spec, tags, x) && OneRowFits(spec, tags, y)
    ensures StepAll(c, StepAll(c, states, spec.fields, x), spec.fields, y) == StepAll(c, StepAll(c, states, spec.fields, y), spec.fields, x)
  {
    forall i | 0 <= i < |states|
      ensures StepField(c, StepField(c, states[i], spec.fields[i], x), spec.fields[i], y) ==
              StepField(c, StepField(c, states[i], spec.fields[i], y), spec.fields[i], x)
    {
      assert Fits(states[i], spec.fields[i], tags[i]) && RowFits(spec.fields[i], tags[i], x) && RowFits(spec.fields[i], tags[i], y);
      StepsCommute(c, spec.fields[i], tags[i], states[i], x, y);
    }
  }

  lemma StatesLast(c: Collate, fields: seq<FieldSpec>, rows: seq<Value>, row: Value)
    ensures StatesOf(c, fields, rows + [row]) == StepAll(c, StatesOf(c, fields, rows), fields, row)
  {
    assert (rows + [row])[..|rows|] == rows;
  }

  lemma RowsFitSome(spec: Spec, tags: seq<nat>, rows: seq<Value>, some: seq<Value>)
    requires RowsFit(spec, tags, rows) && forall row | row in some :: row in rows
    ensures RowsFit(spec, tags, some) && forall row | row in rows :: OneRowFits(spec, tags, row)
  {
    forall row | row in rows ensures OneRowFits(spec, tags, row) {
      var k :| 0 <= k < |rows| && rows[k] == row;
      forall i | 0 <= i < |tags| ensures RowFits(spec.fields[i], tags[i], row) {
        assert RowFits(spec.fields[i], tags[i], rows[k]);
      }
    }
    forall k, i | 0 <= k < |some| && 0 <= i < |tags| ensures RowFits(spec.fields[i], tags[i], some[k]) {
      assert some[k] in rows;
      assert OneRowFits(spec, tags, some[k]) && tags[i] == tags[i];
    }
  }

  /** A row may be moved to the end. */
  lemma {:induction false} MoveLast(c: Collate, spec: Spec, tags: seq<nat>, a: seq<Value>, x: Value, b: seq<Value>)
    requires TieFree(c, spec.fields) && RowsFit(spec, tags, a + [x] + b)
    ensures StatesOf(c, spec.fields, a + [x] + b) == StatesOf(c, spec.fields, a + b + [x])
    decreases |b|
  {
    if b == [] {
      assert a + [x] + b == a + [x] && a + b + [x] == a + [x];
    } else {
      var front, y := b[..|b| - 1], b[|b| - 1];
      assert a + [x] + b == (a + [x] + front) + [y] && a + b == (a + front) + [y];
      RowsFitSome(spec, tags, a + [x] + b, a + [x] + front);
      RowsFitSome(spec, tags, a + [x] + b, a + front);
      assert x in a + [x] + b && y in a + [x] + b;
      MoveLast(c, spec, tags, a, x, front);
      StatesFit(c, spec, tags, a + front);
      StatesLast(c, spec.fields, a + [x] + front, y);
      StatesLast(c, spec.fields, a + front, x);
      StatesLast(c, spec.fields, a + front, y);
      StatesLast(c, spec.fields, (a + front) + [y], x);
      StepsCommuteAll(c, spec, tags, StatesOf(c, spec.fields, a + front), x, y);
    }
  }

  lemma RemoveOne(front: seq<Value>, x: Value, a: seq<Value>, b: seq<Value>)
    requires multiset(front + [x]) == multiset(a + [x] + b)
    ensures multiset(front) == multiset(a + b)
  {
    assert multiset(a + [x] + b) == multiset(a + b) + multiset{x};
    assert multiset(front + [x]) == multiset(front) + multiset{x};
    assert multiset(front) == multiset(front + [x]) - multiset{x};
  }

  /** Rows in any order fold to the same states. */
  lemma {:induction false} StatesPermute(c: Collate, spec: Spec, tags: seq<nat>, rows: seq<Value>, others: seq<Value>)
    requires TieFree(c, spec.fields) && RowsFit(spec, tags, rows) && multiset(rows) == multiset(others)
    ensures StatesOf(c, spec.fields, rows) == StatesOf(c, spec.fields, others)
    decreases |rows|
  {
    if rows == [] {
      assert others == [] by {
        assert |multiset(others)| == |others|;
      }
    } else {
      var front, x := rows[..|rows| - 1], rows[|rows| - 1];
      assert rows == front + [x];
      assert x in multiset(others);
      var j :| 0 <= j < |others| && others[j] == x;
      var a, b := others[..j], others[j + 1..];
      assert others == a + [x] + b;
      RemoveOne(front, x, a, b);
      forall row | row in others ensures row in rows {
        assert row in multiset(rows);
      }
      RowsFitSome(spec, tags, rows, others);
      RowsFitSome(spec, tags, rows, front);
      MoveLast(c, spec, tags, a, x, b);
      StatesPermute(c, spec, tags, front, a + b);
      StatesLast(c, spec.fields, a + b, x);
    }
  }

  lemma {:induction false} MembersCount(groupBy: seq<string>, rows: seq<Value>, key: seq<Value>, row: Value)
    ensures multiset(Members(groupBy, rows, key))[row] == if GroupKey(groupBy, row) == key then multiset(rows)[row] else 0
  {
    if rows != [] {
      assert rows == rows[..|rows| - 1] + [rows[|rows| - 1]];
      MembersCount(groupBy, rows[..|rows| - 1], key, row);
    }
  }

  /**
   * The order in which a plan visits rows never shows: the same rows in any order give the same
   * groups with the same metrics.
   */
  lemma SameGroupsAndMetrics(c: Collate, spec: Spec, tags: seq<nat>, rows: seq<Value>, others: seq<Value>, key: seq<Value>)
    requires TieFree(c, spec.fields) && RowsFit(spec, tags, rows) && multiset(rows) == multiset(others)
    ensures HasKey(Partial(c, spec, rows), key) <==> HasKey(Partial(c, spec, others), key)
    ensures Look(spec, Partial(c, spec, rows), key) == Look(spec, Partial(c, spec, others), key)
  {
    var mine, theirs := Members(spec.groupBy, rows, key), Members(spec.groupBy, others, key);
    forall row ensures multiset(mine)[row] == multiset(theirs)[row] {
      MembersCount(spec.groupBy, rows, key, row);
      MembersCount(spec.groupBy, others, key, row);
    }
    assert multiset(mine) == multiset(theirs);
    forall row | row in mine ensures row in rows {
      assert multiset(mine)[row] > 0;
      MembersCount(spec.groupBy, rows, key, row);
    }
    RowsFitSome(spec, tags, rows, mine);
    StatesPermute(c, spec, tags, mine, theirs);
    assert |multiset(mine)| == |mine| && |multiset(theirs)| == |theirs|;
    PartialLook(c, spec, rows, key);
    PartialLook(c, spec, others, key);
  }
}
