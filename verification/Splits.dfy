/**
 * Exactly when partial aggregation does not depend on how rows are split (src/aggregate.js): sums,
 * averages and counts never do; a minimum or maximum over values of several types may, because values
 * of different types are never compared and the type that comes first hides the others.
 */
module Splits {
  import opened Wrappers
  import opened Paging
  import opened Aggregates
  import opened Groups

  // One list of comparable values.

  /** The best value, kept as the values come. */
  function Best(c: Collate, min: bool, xs: seq<Value>): Option<Value> {
    if xs == [] then None else Pick(c, min, Best(c, min, xs[..|xs| - 1]), Some(xs[|xs| - 1]))
  }

  /** The best of the parts' bests. */
  function BestOfParts(c: Collate, min: bool, parts: seq<seq<Value>>): Option<Value> {
    if parts == [] then None
    else Pick(c, min, BestOfParts(c, min, parts[..|parts| - 1]), Best(c, min, parts[|parts| - 1]))
  }

  /** How many leading values have the type. */
  function Leading(xs: seq<Value>, tag: nat): (n: nat)
    ensures n <= |xs|
    ensures forall i | 0 <= i < n :: Tag(xs[i]) == tag
    ensures n < |xs| ==> Tag(xs[n]) != tag
  {
    if xs == [] || Tag(xs[0]) != tag then 0 else 1 + Leading(xs[1..], tag)
  }

  /** The best value is already among those before the first value of another type. */
  predicate SplitSafe(c: Collate, min: bool, xs: seq<Value>) {
    xs == [] || Best(c, min, xs[..Leading(xs, Tag(xs[0]))]) == Best(c, min, xs)
  }

  ghost predicate Comparables(xs: seq<Value>) {
    forall i | 0 <= i < |xs| :: Comparable(xs[i])
  }

  predicate Better(c: Collate, min: bool, a: Value, b: Value) {
    if min then Less(c, a, b) else Less(c, b, a)
  }

  lemma {:induction false} BestTag(c: Collate, min: bool, xs: seq<Value>)
    requires xs != []
    ensures Best(c, min, xs).Some? && Tag(Best(c, min, xs).value) == Tag(xs[0])
  {
    if |xs| > 1 {
      BestTag(c, min, xs[..|xs| - 1]);
    } else {
      assert xs[..0] == [];
    }
  }

  /** More values leave the best as it is or replace it by a strictly better one. */
  lemma {:induction false} BestGrows(c: Collate, min: bool, xs: seq<Value>, n: nat)
    requires Comparables(xs) && 0 < n <= |xs|
    ensures Best(c, min, xs[..n]).Some? && Best(c, min, xs).Some?
    ensures Best(c, min, xs) == Best(c, min, xs[..n]) || Better(c, min, Best(c, min, xs).value, Best(c, min, xs[..n]).value)
    ensures Comparable(Best(c, min, xs).value)
  {
    BestTag(c, min, xs);
    BestTag(c, min, xs[..n]);
    if n == |xs| {
      assert xs[..n] == xs;
      if n > 1 {
        BestGrows(c, min, xs[..n - 1], n - 1);
      } else {
        assert xs[..0] == [];
      }
    } else {
      assert xs[..|xs| - 1][..n] == xs[..n];
      BestGrows(c, min, xs[..|xs| - 1], n);
    }
  }

  /** If the best is there after `n` values and at the end, it is there in between. */
  lemma BestBetween(c: Collate, min: bool, xs: seq<Value>, n: nat, k: nat)
    requires Comparables(xs) && 0 < n <= k <= |xs| && Best(c, min, xs[..n]) == Best(c, min, xs)
    ensures Best(c, min, xs[..k]) == Best(c, min, xs)
  {
    assert xs[..k][..n] == xs[..n];
    BestGrows(c, min, xs[..k], n);
    BestGrows(c, min, xs, k);
  }

  /** A part that begins with the type of the others before it may be folded apart. */
  lemma {:induction false} BestAppend(c: Collate, min: bool, ys: seq<Value>, more: seq<Value>)
    requires Comparables(ys) && Comparables(more) && ys != [] && (more != [] ==> Tag(more[0]) == Tag(ys[0]))
    ensures Best(c, min, ys + more) == Pick(c, min, Best(c, min, ys), Best(c, min, more))
  {
    BestTag(c, min, ys);
    if more == [] {
      assert ys + more == ys;
    } else {
      var front, x := more[..|more| - 1], more[|more| - 1];
      assert (ys + more)[..|ys + more| - 1] == ys + front;
      BestAppend(c, min, ys, front);
      BestGrows(c, min, ys, |ys|);
      if front != [] {
        BestTag(c, min, front);
        BestGrows(c, min, front, |front|);
        if Tag(x) == Tag(ys[0]) {
          PickAssociates(c, min, Best(c, min, ys), Best(c, min, front), Some(x), Tag(x));
        }
      }
    }
  }

  lemma {:induction false} EmptyParts(c: Collate, min: bool, parts: seq<seq<Value>>)
    requires Concat(parts) == []
    ensures BestOfParts(c, min, parts) == None
  {
    if parts != [] {
      EmptyParts(c, min, parts[..|parts| - 1]);
    }
  }

  lemma ComparableParts(ys: seq<Value>, last: seq<Value>)
    requires Comparables(ys + last)
    ensures Comparables(ys) && Comparables(last)
  {
    assert forall i | 0 <= i < |ys| :: ys[i] == (ys + last)[i];
    assert forall i | 0 <= i < |last| :: last[i] == (ys + last)[|ys| + i];
  }

  lemma FirstBest(c: Collate, min: bool, xs: seq<Value>)
    ensures Pick(c, min, None, Best(c, min, xs)) == Best(c, min, xs)
  {
  }

  lemma {:induction false} SafeSplits(c: Collate, min: bool, parts: seq<seq<Value>>)
    requires Comparables(Concat(parts)) && SplitSafe(c, min, Concat(parts))
    ensures BestOfParts(c, min, parts) == Best(c, min, Concat(parts))
  {
    if parts != [] {
      hide Pick, Best, SplitSafe, Comparables;
      var front, last, xs := parts[..|parts| - 1], parts[|parts| - 1], Concat(parts);
      var ys := Concat(front);
      assert xs[..|ys|] == ys && xs == ys + last;
      ComparableParts(ys, last);
      if ys == [] {
        EmptyParts(c, min, front);
        assert xs == last;
        FirstBest(c, min, xs);
      } else {
        SafePrefix(c, min, xs, |ys|);
        SafeSplits(c, min, front);
        SafeStep(c, min, ys, last);
      }
    }
  }

  lemma SafePrefix(c: Collate, min: bool, xs: seq<Value>, k: nat)
    requires Comparables(xs) && SplitSafe(c, min, xs) && 0 < k <= |xs|
    ensures SplitSafe(c, min, xs[..k])
  {
    var n := Leading(xs, Tag(xs[0]));
    var ys := xs[..k];
    var m := Leading(ys, Tag(ys[0]));
    if k <= n {
      assert m == k;
      assert ys[..k] == ys;
    } else {
      assert m == n;
      assert ys[..n] == xs[..n];
      BestBetween(c, min, xs, n, k);
    }
  }

  lemma SafeStep(c: Collate, min: bool, ys: seq<Value>, last: seq<Value>)
    requires ys != [] && Comparables(ys) && Comparables(last) && SplitSafe(c, min, ys + last)
    ensures Pick(c, min, Best(c, min, ys), Best(c, min, last)) == Best(c, min, ys + last)
  {
    var xs := ys + last;
    if last == [] || Tag(last[0]) == Tag(ys[0]) {
      BestAppend(c, min, ys, last);
    } else {
      var n := Leading(xs, Tag(xs[0]));
      assert xs[|ys|] == last[0];
      assert xs[..|ys|] == ys;
      BestBetween(c, min, xs, n, |ys|);
      BestTag(c, min, ys);
      BestTag(c, min, last);
    }
  }

  lemma TwoParts(xs: seq<Value>, n: nat)
    requires n <= |xs|
    ensures Concat([xs[..n], xs[n..]]) == xs
  {
    assert [xs[..n], xs[n..]][..1] == [xs[..n]] && [xs[..n]][..0] == [];
    assert Concat([xs[..n]]) == xs[..n];
    assert xs[..n] + xs[n..] == xs;
  }

  lemma UnsafeSplit(c: Collate, min: bool, xs: seq<Value>)
    requires !SplitSafe(c, min, xs)
    ensures var n := Leading(xs, Tag(xs[0])); BestOfParts(c, min, [xs[..n], xs[n..]]) == Best(c, min, xs[..n]) != Best(c, min, xs)
  {
    var n := Leading(xs, Tag(xs[0]));
    assert n < |xs| by {
      assert xs[..|xs|] == xs;
    }
    var a, b := xs[..n], xs[n..];
    assert [a, b][..1] == [a] && [a][..0] == [];
    assert BestOfParts(c, min, [a]) == Best(c, min, a);
    BestTag(c, min, a);
    BestTag(c, min, b);
  }

  ghost predicate AllSplitsAgree(c: Collate, min: bool, xs: seq<Value>) {
    forall parts {:trigger BestOfParts(c, min, parts)} | Concat(parts) == xs :: BestOfParts(c, min, parts) == Best(c, min, xs)
  }

  /**
   * Every split of a list of values gives its best value, if and only if the best value already
   * occurs before the first value of another type.
   */
  lemma SplitsAgreeExact(c: Collate, min: bool, xs: seq<Value>)
    requires Comparables(xs)
    ensures AllSplitsAgree(c, min, xs) <==> SplitSafe(c, min, xs)
  {
    hide Leading, SplitSafe, Best, BestOfParts, Concat;
    if SplitSafe(c, min, xs) {
      forall parts | Concat(parts) == xs ensures BestOfParts(c, min, parts) == Best(c, min, xs) {
        SafeSplits(c, min, parts);
      }
    } else {
      var parts := UnsafeParts(c, min, xs);
      assert BestOfParts(c, min, parts) != Best(c, min, xs);
    }
  }

  lemma UnsafeParts(c: Collate, min: bool, xs: seq<Value>) returns (parts: seq<seq<Value>>)
    requires !SplitSafe(c, min, xs)
    ensures Concat(parts) == xs && BestOfParts(c, min, parts) != Best(c, min, xs)
  {
    var n := Leading(xs, Tag(xs[0]));
    UnsafeSplit(c, min, xs);
    TwoParts(xs, n);
    parts := [xs[..n], xs[n..]];
  }

  // Two parts, whatever their orders.

  /** The best value is one of the values, and none of its type is better. */
  lemma {:induction false} BestOfType(c: Collate, min: bool, xs: seq<Value>)
    requires Comparables(xs) && xs != []
    ensures Best(c, min, xs).Some? && Best(c, min, xs).value in xs && Tag(Best(c, min, xs).value) == Tag(xs[0])
    ensures forall x | x in xs && Tag(x) == Tag(xs[0]) :: !Better(c, min, x, Best(c, min, xs).value)
  {
    BestTag(c, min, xs);
    var front, last := xs[..|xs| - 1], xs[|xs| - 1];
    assert xs == front + [last];
    if front == [] {
      assert xs == [last];
    } else {
      BestOfType(c, min, front);
      BestTag(c, min, front);
      var kept, best := Best(c, min, front).value, Best(c, min, xs).value;
      assert Comparable(kept) && Comparable(last);
      forall x | x in xs && Tag(x) == Tag(xs[0]) ensures !Better(c, min, x, best) {
        assert Comparable(x);
      }
    }
  }

  /** Values that do not beat the best leave it as it is. */
  lemma {:induction false} BestStays(c: Collate, min: bool, xs: seq<Value>, ys: seq<Value>)
    requires xs != [] && Best(c, min, xs).Some? && forall y | y in ys :: !Better(c, min, y, Best(c, min, xs).value)
    ensures Best(c, min, xs + ys) == Best(c, min, xs)
  {
    if ys == [] {
      assert xs + ys == xs;
    } else {
      var front, last := ys[..|ys| - 1], ys[|ys| - 1];
      assert ys == front + [last];
      assert last in ys && forall y | y in front :: y in ys;
      assert (xs + ys)[..|xs + ys| - 1] == xs + front;
      BestStays(c, min, xs, front);
    }
  }

  /**
   * The second part may come after the first in any orders: unless it has one type only, none of its
   * values beats all that the first part has of the same type.
   */
  ghost predicate PairSafe(c: Collate, min: bool, first: set<Value>, second: set<Value>) {
    forall a, b, d | a in first && b in second && d in second && Tag(a) == Tag(b) != Tag(d) :: Matched(c, min, first, b)
  }

  ghost predicate Matched(c: Collate, min: bool, first: set<Value>, b: Value) {
    exists a :: a in first && Tag(a) == Tag(b) && !Better(c, min, b, a)
  }

  lemma NotBetter(c: Collate, min: bool, x: Value, y: Value, z: Value)
    requires Comparable(x) && Comparable(y) && Comparable(z) && Tag(x) == Tag(y) == Tag(z)
    requires !Better(c, min, x, y) && !Better(c, min, y, z)
    ensures !Better(c, min, x, z)
  {
  }

  lemma PairFolds(c: Collate, min: bool, xs: seq<Value>, ys: seq<Value>, first: set<Value>, second: set<Value>)
    requires Comparables(xs) && Comparables(ys) && PairSafe(c, min, first, second)
    requires (forall x :: x in xs <==> x in first) && forall y :: y in ys <==> y in second
    ensures FoldsPair(c, min, xs, ys)
  {
    if xs == [] {
      assert xs + ys == ys;
      FirstBest(c, min, ys);
    } else if ys == [] || Tag(ys[0]) == Tag(xs[0]) {
      BestAppend(c, min, xs, ys);
    } else {
      BestOfType(c, min, xs);
      BestTag(c, min, ys);
      assert xs[0] in xs && ys[0] in ys;
      var best := Best(c, min, xs).value;
      forall y | y in ys ensures !Better(c, min, y, best) {
        if Tag(y) == Tag(best) {
          assert Matched(c, min, first, y);
          var a :| a in first && Tag(a) == Tag(y) && !Better(c, min, y, a);
          assert a in xs && Comparable(a) && Comparable(y) && Comparable(best);
          NotBetter(c, min, y, a, best);
        }
      }
      BestStays(c, min, xs, ys);
    }
  }

  /** An unsafe pair in the orders that show it: the first part's best is kept, and is not the best of its type. */
  lemma PairHides(c: Collate, min: bool, xs: seq<Value>, ys: seq<Value>, b: Value)
    requires Comparables(xs) && Comparables(ys) && xs != [] && ys != [] && Comparable(b)
    requires Tag(xs[0]) == Tag(b) != Tag(ys[0]) && forall a | a in xs && Tag(a) == Tag(b) :: Better(c, min, b, a)
    ensures var best := Pick(c, min, Best(c, min, xs), Best(c, min, ys));
            best == Best(c, min, xs) && best.Some? && Tag(best.value) == Tag(b) && Better(c, min, b, best.value)
  {
    BestOfType(c, min, xs);
    BestTag(c, min, ys);
  }

  /** No list of values has a best that one of them beats. */
  lemma NeverBest(c: Collate, min: bool, xs: seq<Value>, b: Value, best: Value)
    requires Comparables(xs) && b in xs && Tag(b) == Tag(best) && Better(c, min, b, best)
    ensures Best(c, min, xs) != Some(best)
  {
    BestOfType(c, min, xs);
  }

  /** Of several parts at most two have values. */
  ghost predicate AtMostTwo(parts: seq<seq<Value>>) {
    forall i, j, k | 0 <= i < j < k < |parts| :: parts[i] == [] || parts[j] == [] || parts[k] == []
  }

  predicate FoldsPair(c: Collate, min: bool, xs: seq<Value>, ys: seq<Value>) {
    Pick(c, min, Best(c, min, xs), Best(c, min, ys)) == Best(c, min, xs + ys)
  }

  ghost predicate PairsFold(c: Collate, min: bool, parts: seq<seq<Value>>) {
    forall i, j | 0 <= i < j < |parts| && parts[i] != [] && parts[j] != [] :: FoldsPair(c, min, parts[i], parts[j])
  }

  lemma {:induction false} NothingBefore(parts: seq<seq<Value>>)
    requires forall i | 0 <= i < |parts| :: parts[i] == []
    ensures Concat(parts) == []
  {
    if parts != [] {
      NothingBefore(parts[..|parts| - 1]);
    }
  }

  lemma {:induction false} OnlyOne(parts: seq<seq<Value>>, j: nat)
    requires j < |parts| && forall i | 0 <= i < |parts| && i != j :: parts[i] == []
    ensures Concat(parts) == parts[j]
  {
    var n := |parts| - 1;
    if j == n {
      NothingBefore(parts[..n]);
    } else {
      OnlyOne(parts[..n], j);
    }
  }

  lemma FoldLast(c: Collate, min: bool, parts: seq<seq<Value>>)
    requires parts != [] && FoldsPair(c, min, Concat(parts[..|parts| - 1]), parts[|parts| - 1])
    requires BestOfParts(c, min, parts[..|parts| - 1]) == Best(c, min, Concat(parts[..|parts| - 1]))
    ensures BestOfParts(c, min, parts) == Best(c, min, Concat(parts))
  {
  }

  lemma FoldsNothing(c: Collate, min: bool, xs: seq<Value>)
    ensures FoldsPair(c, min, xs, []) && FoldsPair(c, min, [], xs)
  {
    assert xs + [] == xs == [] + xs;
    FirstBest(c, min, xs);
  }

  lemma {:induction false} TwoPartsFold(c: Collate, min: bool, parts: seq<seq<Value>>)
    requires AtMostTwo(parts) && PairsFold(c, min, parts)
    ensures BestOfParts(c, min, parts) == Best(c, min, Concat(parts))
  {
    hide FoldsPair, Best, BestOfParts, Concat;
    if parts == [] {
      NoParts(c, min);
    } else {
      var n := |parts| - 1;
      TwoPartsFold(c, min, parts[..n]);
      if parts[n] == [] {
        FoldsNothing(c, min, Concat(parts[..n]));
      } else if j :| 0 <= j < n && parts[j] != [] {
        OnlyOne(parts[..n], j);
        assert FoldsPair(c, min, parts[j], parts[n]);
      } else {
        NothingBefore(parts[..n]);
        FoldsNothing(c, min, parts[n]);
      }
      FoldLast(c, min, parts);
    }
  }

  lemma NoParts(c: Collate, min: bool)
    ensures BestOfParts(c, min, []) == Best(c, min, Concat([]))
  {
  }

  // Whole rows: what each group's states become.

  predicate Shaped(s: FieldState, f: FieldSpec) {
    match f.op
    case Sum(_) => s.SumState?
    case Avg(_) => s.AvgState?
    case Min(_) => s.Extreme?
    case Max(_) => s.Extreme?
    case CountRows => s.CountState?
    case CountField(_) => s.CountState?
  }

  ghost predicate AllShaped(fields: seq<FieldSpec>, states: seq<FieldState>) {
    |states| == |fields| && forall i {:trigger Shaped(states[i], fields[i])} | 0 <= i < |fields| :: Shaped(states[i], fields[i])
  }

  lemma {:induction false} StatesShaped(c: Collate, fields: seq<FieldSpec>, rows: seq<Value>)
    ensures AllShaped(fields, StatesOf(c, fields, rows))
  {
    var states := StatesOf(c, fields, rows);
    if rows == [] {
      forall i | 0 <= i < |fields| ensures Shaped(states[i], fields[i]) {}
    } else {
      StatesShaped(c, fields, rows[..|rows| - 1]);
      var before := StatesOf(c, fields, rows[..|rows| - 1]);
      forall i | 0 <= i < |fields| ensures Shaped(states[i], fields[i]) {
        assert Shaped(before[i], fields[i]);
      }
    }
  }

  /** A group's states when each part's are merged in turn. */
  function MergedStates(c: Collate, spec: Spec, parts: seq<seq<Value>>, key: seq<Value>): (states: seq<FieldState>)
    ensures |states| == |spec.fields|
  {
    if parts == [] then InitAll(spec.fields)
    else
      MergeAll(c, MergedStates(c, spec, parts[..|parts| - 1], key), spec.fields,
               StatesOf(c, spec.fields, Members(spec.groupBy, parts[|parts| - 1], key)))
  }

  lemma {:induction false} MergedShaped(c: Collate, spec: Spec, parts: seq<seq<Value>>, key: seq<Value>)
    ensures AllShaped(spec.fields, MergedStates(c, spec, parts, key))
  {
    var states := MergedStates(c, spec, parts, key);
    if parts == [] {
      forall i | 0 <= i < |spec.fields| ensures Shaped(states[i], spec.fields[i]) {}
    } else {
      MergedShaped(c, spec, parts[..|parts| - 1], key);
      var before, more := MergedStates(c, spec, parts[..|parts| - 1], key), StatesOf(c, spec.fields, Members(spec.groupBy, parts[|parts| - 1], key));
      forall i | 0 <= i < |spec.fields| ensures Shaped(states[i], spec.fields[i]) {
        assert Shaped(before[i], spec.fields[i]);
        assert states[i] == MergeField(c, before[i], spec.fields[i], more[i]);
      }
    }
  }

  lemma MergeNothing(c: Collate, fields: seq<FieldSpec>, states: seq<FieldState>)
    requires AllShaped(fields, states)
    ensures MergeAll(c, states, fields, InitAll(fields)) == states
  {
    forall i | 0 <= i < |fields| ensures MergeField(c, states[i], fields[i], Init(fields[i])) == states[i] {
      assert Shaped(states[i], fields[i]);
    }
  }

  lemma {:induction false} AbsorbLook(c: Collate, spec: Spec, bs: seq<Bucket>, b: Bucket, key: seq<Value>)
    requires Sized(spec, bs) && |b.states| == |spec.fields|
    ensures |Look(spec, bs, key)| == |spec.fields|
    ensures Look(spec, Absorb(c, spec, bs, b), key) ==
            if b.key == key then MergeAll(c, Look(spec, bs, key), spec.fields, b.states) else Look(spec, bs, key)
  {
    LookSized(spec, bs, key);
    if bs != [] && bs[0].key != b.key {
      AbsorbLook(c, spec, bs[1..], b, key);
      assert Absorb(c, spec, bs, b)[1..] == Absorb(c, spec, bs[1..], b);
    } else if bs != [] {
      assert Absorb(c, spec, bs, b)[1..] == bs[1..];
    }
  }

  lemma {:induction false} AbsorbAllLook(c: Collate, spec: Spec, bs: seq<Bucket>, more: seq<Bucket>, key: seq<Value>)
    requires Sized(spec, bs) && Sized(spec, more) && DistinctKeys(more)
    ensures |Look(spec, bs, key)| == |spec.fields| == |Look(spec, more, key)|
    ensures Look(spec, AbsorbAll(c, spec, bs, more), key) ==
            if HasKey(more, key) then MergeAll(c, Look(spec, bs, key), spec.fields, Look(spec, more, key)) else Look(spec, bs, key)
    ensures HasKey(AbsorbAll(c, spec, bs, more), key) <==> HasKey(bs, key) || HasKey(more, key)
    decreases |more|
  {
    LookSized(spec, bs, key);
    LookSized(spec, more, key);
    if more != [] {
      AbsorbSized(c, spec, bs, more[0]);
      AbsorbLook(c, spec, bs, more[0], key);
      AbsorbKeys(c, spec, bs, more[0], key);
      HeadAlone(more);
      KeyInTail(more, key);
      AbsorbAllLook(c, spec, Absorb(c, spec, bs, more[0]), more[1..], key);
    }
  }

  lemma {:induction false} StepRowDistinct(c: Collate, spec: Spec, bs: seq<Bucket>, row: Value)
    requires Sized(spec, bs) && DistinctKeys(bs)
    ensures Sized(spec, StepRow(c, spec, bs, row)) && DistinctKeys(StepRow(c, spec, bs, row))
  {
    StepRowSized(c, spec, bs, row);
    if bs != [] {
      var after := StepRow(c, spec, bs, row);
      HeadAlone(bs);
      if bs[0].key == GroupKey(spec.groupBy, row) {
        assert after[1..] == bs[1..];
      } else {
        StepRowDistinct(c, spec, bs[1..], row);
        StepRowLook(c, spec, bs[1..], row, bs[0].key);
        assert after[1..] == StepRow(c, spec, bs[1..], row);
      }
      HeadAlone(after);
    }
  }

  lemma {:induction false} PartialDistinct(c: Collate, spec: Spec, rows: seq<Value>)
    ensures DistinctKeys(Partial(c, spec, rows))
  {
    if rows != [] {
      PartialDistinct(c, spec, rows[..|rows| - 1]);
      StepRowDistinct(c, spec, Partial(c, spec, rows[..|rows| - 1]), rows[|rows| - 1]);
    }
  }

  function Merged(c: Collate, spec: Spec, parts: seq<seq<Value>>): (bs: seq<Bucket>)
    ensures Sized(spec, bs)
  {
    AbsorbAll(c, spec, [], PartialsOf(c, spec, parts))
  }

  lemma MergedSnoc(c: Collate, spec: Spec, parts: seq<seq<Value>>)
    requires parts != []
    ensures Merged(c, spec, parts) == AbsorbAll(c, spec, Merged(c, spec, parts[..|parts| - 1]), Partial(c, spec, parts[|parts| - 1]))
  {
    AbsorbAllAppend(c, spec, [], PartialsOf(c, spec, parts[..|parts| - 1]), Partial(c, spec, parts[|parts| - 1]));
  }

  /** The merged partials, group by group. */
  lemma {:induction false} MergedLook(c: Collate, spec: Spec, parts: seq<seq<Value>>, key: seq<Value>)
    ensures Look(spec, Merged(c, spec, parts), key) == MergedStates(c, spec, parts, key)
  {
    if parts != [] {
      var front, last := parts[..|parts| - 1], parts[|parts| - 1];
      MergedSnoc(c, spec, parts);
      MergedLook(c, spec, front, key);
      PartialDistinct(c, spec, last);
      AbsorbAllLook(c, spec, Merged(c, spec, front), Partial(c, spec, last), key);
      PartialLook(c, spec, last, key);
      if !HasKey(Partial(c, spec, last), key) {
        MergedShaped(c, spec, front, key);
        MergeNothing(c, spec.fields, MergedStates(c, spec, front, key));
      }
    }
  }

  // The groups and their order never depend on the split.

  function Bare(bs: seq<Bucket>): (r: seq<Bucket>)
    ensures |r| == |bs| && forall i | 0 <= i < |r| :: r[i] == Bucket(bs[i].key, [])
  {
    if bs == [] then [] else [Bucket(bs[0].key, [])] + Bare(bs[1..])
  }

  lemma {:induction false} AbsorbBare(c: Collate, spec: Spec, bs: seq<Bucket>, b: Bucket)
    requires Sized(spec, bs) && |b.states| == |spec.fields|
    ensures Sized(spec.(fields := []), Bare(bs))
    ensures Bare(Absorb(c, spec, bs, b)) == Absorb(c, spec.(fields := []), Bare(bs), Bucket(b.key, []))
  {
    if bs != [] && bs[0].key != b.key {
      AbsorbBare(c, spec, bs[1..], b);
      assert Bare(bs)[1..] == Bare(bs[1..]);
    } else if bs != [] {
      assert Bare(bs)[1..] == Bare(bs[1..]);
    }
  }

  lemma {:induction false} AbsorbAllBare(c: Collate, spec: Spec, bs: seq<Bucket>, more: seq<Bucket>)
    requires Sized(spec, bs) && Sized(spec, more)
    ensures Sized(spec.(fields := []), Bare(bs)) && Sized(spec.(fields := []), Bare(more))
    ensures Bare(AbsorbAll(c, spec, bs, more)) == AbsorbAll(c, spec.(fields := []), Bare(bs), Bare(more))
    decreases |more|
  {
    if more != [] {
      AbsorbSized(c, spec, bs, more[0]);
      AbsorbBare(c, spec, bs, more[0]);
      AbsorbAllBare(c, spec, Absorb(c, spec, bs, more[0]), more[1..]);
      assert Bare(more)[1..] == Bare(more[1..]);
    }
  }

  lemma {:induction false} StepRowBare(c: Collate, spec: Spec, bs: seq<Bucket>, row: Value)
    requires Sized(spec, bs)
    ensures Sized(spec.(fields := []), Bare(bs))
    ensures Bare(StepRow(c, spec, bs, row)) == StepRow(c, spec.(fields := []), Bare(bs), row)
  {
    if bs != [] && bs[0].key != GroupKey(spec.groupBy, row) {
      StepRowBare(c, spec, bs[1..], row);
      assert Bare(bs)[1..] == Bare(bs[1..]);
    } else if bs != [] {
      assert Bare(bs)[1..] == Bare(bs[1..]);
    }
  }

  lemma {:induction false} PartialBare(c: Collate, spec: Spec, rows: seq<Value>)
    ensures Bare(Partial(c, spec, rows)) == Partial(c, spec.(fields := []), rows)
  {
    if rows != [] {
      PartialBare(c, spec, rows[..|rows| - 1]);
      StepRowBare(c, spec, Partial(c, spec, rows[..|rows| - 1]), rows[|rows| - 1]);
    }
  }

  lemma {:induction false} BareAppend(a: seq<Bucket>, b: seq<Bucket>)
    ensures Bare(a + b) == Bare(a) + Bare(b)
  {
  }

  lemma {:induction false} PartialsBare(c: Collate, spec: Spec, parts: seq<seq<Value>>)
    ensures Bare(PartialsOf(c, spec, parts)) == PartialsOf(c, spec.(fields := []), parts)
  {
    if parts != [] {
      PartialsBare(c, spec, parts[..|parts| - 1]);
      PartialBare(c, spec, parts[|parts| - 1]);
      BareAppend(PartialsOf(c, spec, parts[..|parts| - 1]), Partial(c, spec, parts[|parts| - 1]));
    }
  }

  /** However rows are split, the merged groups are those of one fold, in the same order. */
  lemma SameGroupOrder(c: Collate, spec: Spec, parts: seq<seq<Value>>)
    ensures Bare(Merged(c, spec, parts)) == Bare(Partial(c, spec, Concat(parts)))
  {
    var bare := spec.(fields := []);
    AbsorbAllBare(c, spec, [], PartialsOf(c, spec, parts));
    PartialsBare(c, spec, parts);
    PartialBare(c, spec, Concat(parts));
    forall k | 0 <= k < |parts| ensures RowsFit(bare, [], parts[k]) {}
    PartialsMerge(c, bare, [], parts);
  }

  lemma {:induction false} LookAt(spec: Spec, bs: seq<Bucket>, i: nat)
    requires DistinctKeys(bs) && i < |bs|
    ensures Look(spec, bs, bs[i].key) == bs[i].states
  {
    if i != 0 {
      HeadAlone(bs);
      LookAt(spec, bs[1..], i - 1);
    }
  }

  lemma SameBuckets(spec: Spec, a: seq<Bucket>, b: seq<Bucket>)
    requires Bare(a) == Bare(b) && DistinctKeys(b) && forall key :: Look(spec, a, key) == Look(spec, b, key)
    ensures a == b
  {
    assert |Bare(a)| == |Bare(b)|;
    forall i | 0 <= i < |b| ensures a[i].key == b[i].key {
      assert Bare(a)[i] == Bare(b)[i];
    }
    forall i | 0 <= i < |b| ensures a[i] == b[i] {
      LookAt(spec, a, i);
      LookAt(spec, b, i);
    }
  }

  ghost predicate GroupsAgree(c: Collate, spec: Spec, parts: seq<seq<Value>>) {
    forall key {:trigger MergedStates(c, spec, parts, key)} ::
      MergedStates(c, spec, parts, key) == StatesOf(c, spec.fields, Members(spec.groupBy, Concat(parts), key))
  }

  /** So the merge is the fold exactly when every group's states agree. */
  lemma MergedIsFoldByGroup(c: Collate, spec: Spec, parts: seq<seq<Value>>)
    ensures Merged(c, spec, parts) == Partial(c, spec, Concat(parts)) <==> GroupsAgree(c, spec, parts)
  {
    var merged, whole := Merged(c, spec, parts), Partial(c, spec, Concat(parts));
    SameGroupOrder(c, spec, parts);
    PartialDistinct(c, spec, Concat(parts));
    hide Merged, Partial, Look, StatesOf, MergedStates, Members;
    forall key
      ensures Look(spec, merged, key) == MergedStates(c, spec, parts, key)
      ensures Look(spec, whole, key) == StatesOf(c, spec.fields, Members(spec.groupBy, Concat(parts), key))
    {
      MergedLook(c, spec, parts, key);
      PartialLook(c, spec, Concat(parts), key);
    }
    if GroupsAgree(c, spec, parts) {
      forall key ensures Look(spec, merged, key) == Look(spec, whole, key) {
        assert MergedStates(c, spec, parts, key) == StatesOf(c, spec.fields, Members(spec.groupBy, Concat(parts), key));
      }
      SameBuckets(spec, merged, whole);
    }
  }

  // Field by field.

  /** The comparable values a list of rows has at a path. */
  function ValuesAt(rows: seq<Value>, path: string): (xs: seq<Value>)
    ensures Comparables(xs)
  {
    if rows == [] then []
    else
      var v := ComparableAt(rows[|rows| - 1], path);
      ValuesAt(rows[..|rows| - 1], path) + (if v.Some? then [v.value] else [])
  }

  lemma {:induction false} ValuesAppend(a: seq<Value>, b: seq<Value>, path: string)
    ensures ValuesAt(a + b, path) == ValuesAt(a, path) + ValuesAt(b, path)
  {
    if b == [] {
      assert a + b == a;
    } else {
      assert (a + b)[..|a + b| - 1] == a + b[..|b| - 1];
      ValuesAppend(a, b[..|b| - 1], path);
    }
  }

  lemma {:induction false} MembersAppend(groupBy: seq<string>, a: seq<Value>, b: seq<Value>, key: seq<Value>)
    ensures Members(groupBy, a + b, key) == Members(groupBy, a, key) + Members(groupBy, b, key)
  {
    if b == [] {
      assert a + b == a;
    } else {
      assert (a + b)[..|a + b| - 1] == a + b[..|b| - 1];
      MembersAppend(groupBy, a, b[..|b| - 1], key);
    }
  }

  /** The values one group has in each part. */
  function GroupValues(groupBy: seq<string>, parts: seq<seq<Value>>, key: seq<Value>, path: string): seq<seq<Value>> {
    if parts == [] then []
    else GroupValues(groupBy, parts[..|parts| - 1], key, path) + [ValuesAt(Members(groupBy, parts[|parts| - 1], key), path)]
  }

  lemma {:induction false} GroupValuesConcat(groupBy: seq<string>, parts: seq<seq<Value>>, key: seq<Value>, path: string)
    ensures Concat(GroupValues(groupBy, parts, key, path)) == ValuesAt(Members(groupBy, Concat(parts), key), path)
  {
    if parts != [] {
      var front, last := parts[..|parts| - 1], parts[|parts| - 1];
      GroupValuesConcat(groupBy, front, key, path);
      MembersAppend(groupBy, Concat(front), last, key);
      ValuesAppend(Members(groupBy, Concat(front), key), Members(groupBy, last, key), path);
      var values := GroupValues(groupBy, front, key, path);
      assert (values + [ValuesAt(Members(groupBy, last, key), path)])[..|values|] == values;
    }
  }

  /** An extremal field's state is the best of its values. */
  lemma {:induction false} ExtremeIsBest(c: Collate, fields: seq<FieldSpec>, rows: seq<Value>, i: nat)
    requires i < |fields| && Extremal(fields[i])
    ensures StatesOf(c, fields, rows)[i] == Extreme(Best(c, fields[i].op.Min?, ValuesAt(rows, fields[i].op.path)))
  {
    if rows != [] {
      var front := rows[..|rows| - 1];
      ExtremeIsBest(c, fields, front, i);
      var xs, v := ValuesAt(front, fields[i].op.path), ComparableAt(rows[|rows| - 1], fields[i].op.path);
      assert StatesOf(c, fields, rows)[i] == StepField(c, StatesOf(c, fields, front)[i], fields[i], rows[|rows| - 1]);
      if v.Some? {
        assert (xs + [v.value])[..|xs|] == xs;
      } else {
        assert xs + [] == xs;
      }
    }
  }

  lemma MergedLast(c: Collate, spec: Spec, parts: seq<seq<Value>>, key: seq<Value>, i: nat)
    requires i < |spec.fields| && parts != []
    ensures MergedStates(c, spec, parts, key)[i] ==
            Aggregates.MergeField(c, MergedStates(c, spec, parts[..|parts| - 1], key)[i], spec.fields[i],
                                  StatesOf(c, spec.fields, Members(spec.groupBy, parts[|parts| - 1], key))[i])
  {
    hide StatesOf, Members;
  }

  lemma MergeExtremes(c: Collate, f: FieldSpec, a: Option<Value>, b: Option<Value>)
    requires Extremal(f)
    ensures Aggregates.MergeField(c, Extreme(a), f, Extreme(b)) == Extreme(Pick(c, f.op.Min?, a, b))
  {
  }

  lemma BestSnoc(c: Collate, min: bool, parts: seq<seq<Value>>, xs: seq<Value>)
    ensures BestOfParts(c, min, parts + [xs]) == Pick(c, min, BestOfParts(c, min, parts), Best(c, min, xs))
  {
    assert (parts + [xs])[..|parts|] == parts;
  }

  lemma {:induction false} MergedExtreme(c: Collate, spec: Spec, parts: seq<seq<Value>>, key: seq<Value>, i: nat)
    requires i < |spec.fields| && Extremal(spec.fields[i])
    ensures MergedStates(c, spec, parts, key)[i] ==
            Extreme(BestOfParts(c, spec.fields[i].op.Min?, GroupValues(spec.groupBy, parts, key, spec.fields[i].op.path)))
  {
    if parts != [] {
      var f, front, last := spec.fields[i], parts[..|parts| - 1], parts[|parts| - 1];
      var values, xs := GroupValues(spec.groupBy, front, key, f.op.path), ValuesAt(Members(spec.groupBy, last, key), f.op.path);
      assert GroupValues(spec.groupBy, parts, key, f.op.path) == values + [xs];
      MergedLast(c, spec, parts, key, i);
      hide *;
      MergedExtreme(c, spec, front, key, i);
      ExtremeIsBest(c, spec.fields, Members(spec.groupBy, last, key), i);
      BestSnoc(c, f.op.Min?, values, xs);
      MergeExtremes(c, f, BestOfParts(c, f.op.Min?, values), Best(c, f.op.Min?, xs));
    }
  }

  lemma StepMerges(c: Collate, f: FieldSpec, s: FieldState, t: FieldState, row: Value)
    requires !Extremal(f) && Shaped(s, f) && Shaped(t, f)
    ensures StepField(c, MergeField(c, s, f, t), f, row) == MergeField(c, s, f, StepField(c, t, f, row))
    ensures MergeField(c, s, f, Init(f)) == s
  {
  }

  /** Other fields add up. */
  lemma {:induction false} StatesAdd(c: Collate, fields: seq<FieldSpec>, a: seq<Value>, b: seq<Value>, i: nat)
    requires i < |fields| && !Extremal(fields[i])
    ensures StatesOf(c, fields, a + b)[i] == MergeField(c, StatesOf(c, fields, a)[i], fields[i], StatesOf(c, fields, b)[i])
  {
    hide StepField, MergeField, Shaped, Extremal, Init;
    StatesShaped(c, fields, a);
    var s := StatesOf(c, fields, a)[i];
    assert Shaped(s, fields[i]);
    if b == [] {
      assert a + b == a;
      StepMerges(c, fields[i], s, s, Null);
    } else {
      var front, row := b[..|b| - 1], b[|b| - 1];
      assert (a + b)[..|a + b| - 1] == a + front;
      StatesAdd(c, fields, a, front, i);
      StatesShaped(c, fields, front);
      var t := StatesOf(c, fields, front)[i];
      assert Shaped(t, fields[i]);
      StepMerges(c, fields[i], s, t, row);
      assert StatesOf(c, fields, a + b) == StepAll(c, StatesOf(c, fields, a + front), fields, row);
      assert StatesOf(c, fields, b) == StepAll(c, StatesOf(c, fields, front), fields, row);
    }
  }

  lemma {:induction false} MergedAdds(c: Collate, spec: Spec, parts: seq<seq<Value>>, key: seq<Value>, i: nat)
    requires i < |spec.fields| && !Extremal(spec.fields[i])
    ensures MergedStates(c, spec, parts, key)[i] == StatesOf(c, spec.fields, Members(spec.groupBy, Concat(parts), key))[i]
  {
    if parts != [] {
      var front, last := parts[..|parts| - 1], parts[|parts| - 1];
      MergedAdds(c, spec, front, key, i);
      MembersAppend(spec.groupBy, Concat(front), last, key);
      StatesAdd(c, spec.fields, Members(spec.groupBy, Concat(front), key), Members(spec.groupBy, last, key), i);
    }
  }

  // The exact condition.

  /** In every group, each extremal field's best value comes before the group's first value of another type. */
  ghost predicate RowsSafe(c: Collate, spec: Spec, rows: seq<Value>) {
    forall key, i {:trigger GroupSafe(c, spec, rows, key, i)} | 0 <= i < |spec.fields| :: GroupSafe(c, spec, rows, key, i)
  }

  predicate GroupSafe(c: Collate, spec: Spec, rows: seq<Value>, key: seq<Value>, i: nat)
    requires i < |spec.fields|
  {
    Extremal(spec.fields[i]) ==>
      SplitSafe(c, spec.fields[i].op.Min?, ValuesAt(Members(spec.groupBy, rows, key), spec.fields[i].op.path))
  }

  ghost predicate EverySplitMerges(c: Collate, spec: Spec, rows: seq<Value>) {
    forall parts {:trigger Merged(c, spec, parts)} | Concat(parts) == rows :: Merged(c, spec, parts) == Partial(c, spec, rows)
  }

  lemma SafeMerges(c: Collate, spec: Spec, parts: seq<seq<Value>>)
    requires RowsSafe(c, spec, Concat(parts))
    ensures Merged(c, spec, parts) == Partial(c, spec, Concat(parts))
  {
    forall key ensures MergedStates(c, spec, parts, key) == StatesOf(c, spec.fields, Members(spec.groupBy, Concat(parts), key)) {
      hide MergedStates, StatesOf, SplitSafe;
      forall i | 0 <= i < |spec.fields|
        ensures MergedStates(c, spec, parts, key)[i] == StatesOf(c, spec.fields, Members(spec.groupBy, Concat(parts), key))[i]
      {
        if Extremal(spec.fields[i]) {
          var min, path := spec.fields[i].op.Min?, spec.fields[i].op.path;
          assert GroupSafe(c, spec, Concat(parts), key, i);
          GroupValuesConcat(spec.groupBy, parts, key, path);
          SafeSplits(c, min, GroupValues(spec.groupBy, parts, key, path));
          MergedExtreme(c, spec, parts, key, i);
          ExtremeIsBest(c, spec.fields, Members(spec.groupBy, Concat(parts), key), i);
        } else {
          MergedAdds(c, spec, parts, key, i);
        }
      }
    }
    MergedIsFoldByGroup(c, spec, parts);
  }

  lemma ValuesOfAppended(groupBy: seq<string>, a: seq<Value>, b: seq<Value>, key: seq<Value>, path: string)
    ensures ValuesAt(Members(groupBy, a + b, key), path) == ValuesAt(Members(groupBy, a, key), path) + ValuesAt(Members(groupBy, b, key), path)
  {
    MembersAppend(groupBy, a, b, key);
    ValuesAppend(Members(groupBy, a, key), Members(groupBy, b, key), path);
  }

  lemma NoValues(groupBy: seq<string>, key: seq<Value>, path: string)
    ensures ValuesAt(Members(groupBy, [], key), path) == []
  {
  }

  lemma OneRowValues(groupBy: seq<string>, row: Value, key: seq<Value>, path: string)
    ensures |ValuesAt(Members(groupBy, [row], key), path)| <= 1
  {
    assert [row][..0] == [] && Members(groupBy, [], key) == [];
    var members := Members(groupBy, [row], key);
    assert members == [] || members == [row];
    assert ValuesAt([], path) == [];
  }

  /** Any split of a group's values comes from a split of the rows. */
  lemma {:induction false} CutAtValue(groupBy: seq<string>, rows: seq<Value>, key: seq<Value>, path: string, n: nat) returns (k: nat)
    requires n <= |ValuesAt(Members(groupBy, rows, key), path)|
    ensures k <= |rows|
    ensures ValuesAt(Members(groupBy, rows[..k], key), path) == ValuesAt(Members(groupBy, rows, key), path)[..n]
  {
    NoValues(groupBy, key, path);
    hide *;
    var xs := ValuesAt(Members(groupBy, rows, key), path);
    if n == |xs| {
      k := |rows|;
      assert rows[..k] == rows && xs[..n] == xs;
    } else {
      assert rows != [];
      var front, last := rows[..|rows| - 1], rows[|rows| - 1];
      assert rows == front + [last];
      ValuesOfAppended(groupBy, front, [last], key, path);
      OneRowValues(groupBy, last, key, path);
      var before := ValuesAt(Members(groupBy, front, key), path);
      assert xs[..n] == before[..n];
      k := CutAtValue(groupBy, front, key, path, n);
      assert front[..k] == rows[..k];
    }
  }

  lemma CutRest(groupBy: seq<string>, rows: seq<Value>, key: seq<Value>, path: string, n: nat, k: nat)
    requires n <= |ValuesAt(Members(groupBy, rows, key), path)| && k <= |rows|
    requires ValuesAt(Members(groupBy, rows[..k], key), path) == ValuesAt(Members(groupBy, rows, key), path)[..n]
    ensures ValuesAt(Members(groupBy, rows[k..], key), path) == ValuesAt(Members(groupBy, rows, key), path)[n..]
  {
    ValuesOfAppended(groupBy, rows[..k], rows[k..], key, path);
    assert rows[..k] + rows[k..] == rows;
    var xs, ys := ValuesAt(Members(groupBy, rows[..k], key), path), ValuesAt(Members(groupBy, rows[k..], key), path);
    assert (xs + ys)[|xs|..] == ys;
  }

  lemma UnsafeRows(c: Collate, spec: Spec, rows: seq<Value>, key: seq<Value>, i: nat) returns (parts: seq<seq<Value>>)
    requires i < |spec.fields| && !GroupSafe(c, spec, rows, key, i)
    ensures Concat(parts) == rows && Merged(c, spec, parts) != Partial(c, spec, rows)
  {
    var min, path := spec.fields[i].op.Min?, spec.fields[i].op.path;
    var xs := ValuesAt(Members(spec.groupBy, rows, key), path);
    var n := Leading(xs, Tag(xs[0]));
    var k := CutAtValue(spec.groupBy, rows, key, path, n);
    CutRest(spec.groupBy, rows, key, path, n, k);
    parts := [rows[..k], rows[k..]];
    TwoParts(rows, k);
    UnsafeSplit(c, min, xs);
    assert GroupValues(spec.groupBy, parts, key, path) == [xs[..n], xs[n..]] by {
      assert parts[..1] == [rows[..k]] && [rows[..k]][..0] == [];
      assert GroupValues(spec.groupBy, [rows[..k]], key, path) == [xs[..n]];
    }
    MergedExtreme(c, spec, parts, key, i);
    ExtremeIsBest(c, spec.fields, Members(spec.groupBy, rows, key), i);
    MergedIsFoldByGroup(c, spec, parts);
  }

  /**
   * Every split of the rows merges to the fold of them all, group order included, if and only if in
   * every group each minimum or maximum is reached before the group's first value of another type.
   */
  lemma PartialsMergeExact(c: Collate, spec: Spec, rows: seq<Value>)
    ensures EverySplitMerges(c, spec, rows) <==> RowsSafe(c, spec, rows)
  {
    if RowsSafe(c, spec, rows) {
      forall parts | Concat(parts) == rows ensures Merged(c, spec, parts) == Partial(c, spec, rows) {
        SafeMerges(c, spec, parts);
      }
    } else {
      var key, i: nat :| i < |spec.fields| && !GroupSafe(c, spec, rows, key, i);
      var parts := UnsafeRows(c, spec, rows, key, i);
      assert Merged(c, spec, parts) != Partial(c, spec, rows);
    }
  }

  lemma {:induction false} AllMembers(rows: seq<Value>)
    ensures Members([], rows, []) == rows
  {
    if rows != [] {
      AllMembers(rows[..|rows| - 1]);
      assert GroupKey([], rows[|rows| - 1]) == [];
    }
  }

  lemma ThreeValues(path: string, x: Value, y: Value, z: Value)
    requires ComparableAt(x, path).Some? && ComparableAt(y, path).Some? && ComparableAt(z, path).Some?
    ensures ValuesAt([x, y, z], path) == [ComparableAt(x, path).value, ComparableAt(y, path).value, ComparableAt(z, path).value]
  {
    assert [x, y, z] == [x] + ([y] + [z]);
    ValuesAppend([x], [y] + [z], path);
    ValuesAppend([y], [z], path);
    OneValue(path, x);
    OneValue(path, y);
    OneValue(path, z);
  }

  lemma OneValue(path: string, x: Value)
    requires ComparableAt(x, path).Some?
    ensures ValuesAt([x], path) == [ComparableAt(x, path).value]
  {
    assert [x][..0] == [] && ValuesAt([], path) == [];
  }

  lemma HiddenMinimum(c: Collate)
    requires c(Str("a")) < c(Str("x"))
    ensures !SplitSafe(c, true, [Str("x"), Num(1), Str("a")])
  {
    var xs := [Str("x"), Num(1), Str("a")];
    assert Leading(xs[1..], 2) == 0 && Leading(xs, 2) == 1;
    assert xs[..2] == [Str("x"), Num(1)] && xs[..2][..1] == [Str("x")] && xs[..1] == [Str("x")] && xs[..1][..0] == [];
    assert Best(c, true, xs[..1]) == Some(Str("x"));
    assert Best(c, true, xs[..2]) == Some(Str("x"));
  }

  function Minimum(path: string): Spec {
    Spec([], [FieldSpec("m", Min(path))], [], 1, 20)
  }

  lemma UnsafeMinimum(c: Collate, path: string, rows: seq<Value>)
    requires !SplitSafe(c, true, ValuesAt(rows, path))
    ensures !EverySplitMerges(c, Minimum(path), rows)
  {
    AllMembers(rows);
    assert Minimum(path).groupBy == [] && Minimum(path).fields[0] == FieldSpec("m", Min(path));
    assert !GroupSafe(c, Minimum(path), rows, [], 0) by {
      hide SplitSafe, ValuesAt, Members;
    }
    hide SplitSafe, ValuesAt, Members, Merged, Partial, GroupSafe, EverySplitMerges;
    PartialsMergeExact(c, Minimum(path), rows);
  }

  /** Rows "x", 1, "a" fold to the minimum "a", but after the first row apart to "x". */
  lemma MixedTypesDependOnSplit(c: Collate, x: Value, one: Value, a: Value)
    requires ComparableAt(x, "v") == Some(Str("x")) && ComparableAt(one, "v") == Some(Num(1)) && ComparableAt(a, "v") == Some(Str("a"))
    requires c(Str("a")) < c(Str("x"))
    ensures !EverySplitMerges(c, Minimum("v"), [x, one, a])
  {
    ThreeValues("v", x, one, a);
    HiddenMinimum(c);
    UnsafeMinimum(c, "v", [x, one, a]);
  }

  // Through the rows that are sent.

  /** The type of each extremal state's value. */
  function TagsOf(states: seq<FieldState>): (tags: seq<nat>)
    ensures |tags| == |states|
    ensures forall i | 0 <= i < |tags| && states[i].Extreme? && states[i].value.Some? :: tags[i] == Tag(states[i].value.value)
  {
    seq(|states|, i requires 0 <= i < |states| => if states[i].Extreme? && states[i].value.Some? then Tag(states[i].value.value) else 0)
  }

  lemma {:induction false} BestComparable(c: Collate, min: bool, xs: seq<Value>)
    requires Comparables(xs) && xs != []
    ensures Best(c, min, xs).Some? && Comparable(Best(c, min, xs).value)
  {
    BestGrows(c, min, xs, |xs|);
  }

  lemma FoldPossible(c: Collate, spec: Spec, rows: seq<Value>)
    ensures AllFit(spec, TagsOf(StatesOf(c, spec.fields, rows)), StatesOf(c, spec.fields, rows))
  {
    var states := StatesOf(c, spec.fields, rows);
    StatesShaped(c, spec.fields, rows);
    forall i | 0 <= i < |states| ensures Fits(states[i], spec.fields[i], TagsOf(states)[i]) {
      assert Shaped(states[i], spec.fields[i]);
      if Extremal(spec.fields[i]) {
        ExtremeIsBest(c, spec.fields, rows, i);
        var xs := ValuesAt(rows, spec.fields[i].op.path);
        if xs != [] {
          BestComparable(c, spec.fields[i].op.Min?, xs);
        }
      }
    }
  }

  lemma PartialPossible(c: Collate, spec: Spec, rows: seq<Value>)
    ensures AllPossible(spec, Partial(c, spec, rows))
  {
    var bs := Partial(c, spec, rows);
    PartialKeyed(c, spec, rows);
    PartialDistinct(c, spec, rows);
    forall i | 0 <= i < |bs| ensures Possible(spec, bs[i]) {
      LookAt(spec, bs, i);
      PartialLook(c, spec, rows, bs[i].key);
      FoldPossible(c, spec, Members(spec.groupBy, rows, bs[i].key));
    }
  }

  lemma {:induction false} PartialsPossible(c: Collate, spec: Spec, parts: seq<seq<Value>>)
    ensures AllPossible(spec, PartialsOf(c, spec, parts))
  {
    if parts != [] {
      PartialsPossible(c, spec, parts[..|parts| - 1]);
      PartialPossible(c, spec, parts[|parts| - 1]);
    }
  }

  /**
   * Fan-out gives the single-node answer: the shards' partial rows, encoded, sent, decoded and
   * merged, give the same groups, metrics, order and page as aggregating all rows in one place.
   */
  lemma FanOutAnswer(c: Collate, spec: Spec, parts: seq<seq<Value>>, order: Order<ResultRow>)
    requires NoClash(spec) && RowsSafe(c, spec, Concat(parts)) && spec.page >= 1
    ensures var sent := PartialsOf(c, spec, parts);
            && (forall i | 0 <= i < |sent| :: |sent[i].key| == |spec.groupBy|)
            && var merged := AbsorbAll(c, spec, [], DecodeAll(spec, EncodeAll(spec, sent)));
               && (forall i | 0 <= i < |merged| :: |merged[i].key| == |spec.groupBy|)
               && Answer(spec, merged, order) == AnswerOf(c, spec, Concat(parts), order)
  {
    PartialsPossible(c, spec, parts);
    DecodesBack(spec, PartialsOf(c, spec, parts));
    SafeMerges(c, spec, parts);
    PartialKeyed(c, spec, Concat(parts));
  }

  /** In particular when each minimum and maximum sees values of one type. */
  lemma OneTypeIsSafe(c: Collate, spec: Spec, tags: seq<nat>, rows: seq<Value>)
    requires RowsFit(spec, tags, rows)
    ensures RowsSafe(c, spec, rows)
  {
    forall key, i: nat | i < |spec.fields| ensures GroupSafe(c, spec, rows, key, i) {
      if Extremal(spec.fields[i]) {
        var members := Members(spec.groupBy, rows, key);
        MembersAmong(spec.groupBy, rows, key);
        RowsFitSome(spec, tags, rows, members);
        ValuesOneTag(spec, tags, members, i);
        var xs := ValuesAt(members, spec.fields[i].op.path);
        if xs != [] {
          assert xs[..|xs|] == xs;
        }
      }
    }
  }

  lemma {:induction false} MembersAmong(groupBy: seq<string>, rows: seq<Value>, key: seq<Value>)
    ensures forall row | row in Members(groupBy, rows, key) :: row in rows
  {
    if rows != [] {
      MembersAmong(groupBy, rows[..|rows| - 1], key);
    }
  }

  lemma {:induction false} ValuesOneTag(spec: Spec, tags: seq<nat>, rows: seq<Value>, i: nat)
    requires RowsFit(spec, tags, rows) && i < |spec.fields| && Extremal(spec.fields[i])
    ensures forall v | v in ValuesAt(rows, spec.fields[i].op.path) :: Tag(v) == tags[i]
  {
    if rows != [] {
      RowsFitFront(spec, tags, rows);
      LastRowFits(spec, tags, rows);
      ValuesOneTag(spec, tags, rows[..|rows| - 1], i);
      assert RowFits(spec.fields[i], tags[i], rows[|rows| - 1]);
    }
  }
}
