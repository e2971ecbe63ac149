/**
 * The index of one path (src/store.js, class FieldIndex): a forward map from row to value, a lookup
 * from scalar to rows, buckets of rows by their whole value for grouping, and the row sets that
 * decide whether `$contains` may use the lookup.
 */
module FieldIndexes {
  import opened Wrappers

  datatype Index = Index(
    forward: map<nat, Option<Value>>, lookup: map<Value, set<nat>>, ordered: map<Option<Value>, set<nat>>,
    containsString: set<nat>, containsScalar: set<nat>, containsNested: set<nat>)

  const NO_INDEX := Index(map[], map[], map[], {}, {}, {})

  predicate ScalarKey(v: Value) {
    v.Num? || v.Bool? || v.Str?
  }

  /** The scalars a stored value is found under: itself, or those in an array, however nested. */
  function KeysOf(v: Value): (keys: set<Value>)
    ensures forall k | k in keys :: ScalarKey(k)
    ensures forall k | ScalarKey(v) :: k in keys <==> k == v
  {
    match v
    case Arr(items) => ItemKeys(items)
    case _ => if ScalarKey(v) then {v} else {}
  }

  function ItemKeys(items: seq<Value>): (keys: set<Value>)
    ensures forall k | k in keys :: ScalarKey(k)
    ensures forall k :: k in keys <==> exists i :: 0 <= i < |items| && k in KeysOf(items[i])
  {
    if items == [] then {} else KeysOf(items[0]) + ItemKeys(items[1..])
  }

  function Keys(v: Option<Value>): set<Value> {
    if v.None? then {} else KeysOf(v.value)
  }

  predicate IsNested(v: Value) {
    v.Arr? && exists i :: 0 <= i < |v.items| && v.items[i].Arr?
  }

  predicate TextCell(v: Option<Value>) {
    v.Some? && v.value.Str?
  }

  predicate ScalarCell(v: Option<Value>) {
    v.Some? && (v.value.Num? || v.value.Bool?)
  }

  predicate NestedCell(v: Option<Value>) {
    v.Some? && IsNested(v.value)
  }

  function AddKey<K>(lookup: map<K, set<nat>>, key: K, rid: nat): map<K, set<nat>> {
    lookup[key := (if key in lookup then lookup[key] else {}) + {rid}]
  }

  function RemoveKey<K>(lookup: map<K, set<nat>>, key: K, rid: nat): map<K, set<nat>> {
    if key !in lookup then lookup
    else if lookup[key] - {rid} == {} then lookup - {key}
    else lookup[key := lookup[key] - {rid}]
  }

  function With(ids: set<nat>, rid: nat, member: bool): set<nat> {
    if member then ids + {rid} else ids
  }

  function Without(ids: set<nat>, rid: nat, member: bool): set<nat> {
    if member then ids - {rid} else ids
  }

  /** The rows found under each key, as a total function. */
  ghost predicate SameIds(a: map<Value, set<nat>>, b: map<Value, set<nat>>, keys: set<Value>, rid: nat, added: bool) {
    forall k {:trigger IdsIn(a, k)} :: IdsIn(a, k) == if k in keys then (if added then IdsIn(b, k) + {rid} else IdsIn(b, k) - {rid}) else IdsIn(b, k)
  }

  function IdsIn<K>(lookup: map<K, set<nat>>, key: K): set<nat> {
    if key in lookup then lookup[key] else {}
  }

  ghost predicate Added(ix: Index, ix': Index, rid: nat, v: Option<Value>) {
    && ix'.forward == ix.forward[rid := v]
    && SameIds(ix'.lookup, ix.lookup, Keys(v), rid, true)
    && ix'.ordered == AddKey(ix.ordered, v, rid)
    && ix'.containsString == With(ix.containsString, rid, TextCell(v))
    && ix'.containsScalar == With(ix.containsScalar, rid, ScalarCell(v))
    && ix'.containsNested == With(ix.containsNested, rid, NestedCell(v))
  }

  ghost predicate Removed(ix: Index, ix': Index, rid: nat, v: Option<Value>) {
    && ix'.forward == ix.forward - {rid}
    && SameIds(ix'.lookup, ix.lookup, Keys(v), rid, false)
    && ix'.ordered == RemoveKey(ix.ordered, v, rid)
    && ix'.containsString == Without(ix.containsString, rid, TextCell(v))
    && ix'.containsScalar == Without(ix.containsScalar, rid, ScalarCell(v))
    && ix'.containsNested == Without(ix.containsNested, rid, NestedCell(v))
  }

  // The two updates as functions.

  function AddTo(ix: Index, rid: nat, v: Option<Value>): (ix': Index)
    ensures Added(ix, ix', rid, v)
  {
    Index(ix.forward[rid := v],
          map k | k in ix.lookup.Keys + Keys(v) :: With(IdsIn(ix.lookup, k), rid, k in Keys(v)),
          AddKey(ix.ordered, v, rid),
          With(ix.containsString, rid, TextCell(v)), With(ix.containsScalar, rid, ScalarCell(v)),
          With(ix.containsNested, rid, NestedCell(v)))
  }

  function RemoveFrom(ix: Index, rid: nat, v: Option<Value>): (ix': Index)
    ensures Removed(ix, ix', rid, v)
  {
    Index(ix.forward - {rid},
          map k | k in ix.lookup :: Without(ix.lookup[k], rid, k in Keys(v)),
          RemoveKey(ix.ordered, v, rid),
          Without(ix.containsString, rid, TextCell(v)), Without(ix.containsScalar, rid, ScalarCell(v)),
          Without(ix.containsNested, rid, NestedCell(v)))
  }

  /** The lookup, the buckets and the row sets agree with the forward map for one row. */
  ghost predicate RowIndexed(ix: Index, rid: nat) {
    var v := if rid in ix.forward then ix.forward[rid] else None;
    && (forall k {:trigger IdsIn(ix.lookup, k)} :: rid in IdsIn(ix.lookup, k) <==> k in Keys(v))
    && (forall w {:trigger IdsIn(ix.ordered, w)} :: rid in IdsIn(ix.ordered, w) <==> rid in ix.forward && w == v)
    && (rid in ix.containsString <==> TextCell(v))
    && (rid in ix.containsScalar <==> ScalarCell(v))
    && (rid in ix.containsNested <==> NestedCell(v))
  }

  ghost predicate IndexValid(ix: Index) {
    forall rid {:trigger RowIndexed(ix, rid)} :: RowIndexed(ix, rid)
  }

  // Where an index lists a row, place by place.

  /** A place in the index: under a key, in a bucket, or in one of the three row sets. */
  datatype Place = UnderKey(key: Value) | InGroup(value: Option<Value>) | AmongStrings | AmongScalars | AmongNested

  /** The places a value belongs in. */
  predicate Belongs(v: Option<Value>, place: Place) {
    match place
    case UnderKey(k) => k in Keys(v)
    case InGroup(w) => w == v
    case AmongStrings => TextCell(v)
    case AmongScalars => ScalarCell(v)
    case AmongNested => NestedCell(v)
  }

  predicate ListedAt(ix: Index, rid: nat, place: Place) {
    match place
    case UnderKey(k) => rid in IdsIn(ix.lookup, k)
    case InGroup(w) => rid in IdsIn(ix.ordered, w)
    case AmongStrings => rid in ix.containsString
    case AmongScalars => rid in ix.containsScalar
    case AmongNested => rid in ix.containsNested
  }

  lemma AddedAt(ix: Index, ix': Index, rid: nat, v: Option<Value>, r: nat, place: Place)
    requires Added(ix, ix', rid, v)
    ensures ListedAt(ix', r, place) <==> ListedAt(ix, r, place) || (r == rid && Belongs(v, place))
  {
  }

  lemma RemovedAt(ix: Index, ix': Index, rid: nat, v: Option<Value>, r: nat, place: Place)
    requires Removed(ix, ix', rid, v)
    ensures ListedAt(ix', r, place) <==> ListedAt(ix, r, place) && !(r == rid && Belongs(v, place))
  {
  }

  /** A row is indexed exactly when it is listed where its recorded value belongs and nowhere else. */
  lemma RowIndexedPlaces(ix: Index, rid: nat)
    ensures RowIndexed(ix, rid) <==>
            forall place :: ListedAt(ix, rid, place) <==> rid in ix.forward && Belongs(ix.forward[rid], place)
  {
    if forall place :: ListedAt(ix, rid, place) <==> rid in ix.forward && Belongs(ix.forward[rid], place) {
      var v := if rid in ix.forward then ix.forward[rid] else None;
      forall k ensures rid in IdsIn(ix.lookup, k) <==> k in Keys(v) {
        assert ListedAt(ix, rid, UnderKey(k)) <==> rid in ix.forward && Belongs(ix.forward[rid], UnderKey(k));
      }
      forall w ensures rid in IdsIn(ix.ordered, w) <==> rid in ix.forward && w == v {
        assert ListedAt(ix, rid, InGroup(w)) <==> rid in ix.forward && Belongs(ix.forward[rid], InGroup(w));
      }
      assert ListedAt(ix, rid, AmongStrings) <==> rid in ix.forward && Belongs(ix.forward[rid], AmongStrings);
      assert ListedAt(ix, rid, AmongScalars) <==> rid in ix.forward && Belongs(ix.forward[rid], AmongScalars);
      assert ListedAt(ix, rid, AmongNested) <==> rid in ix.forward && Belongs(ix.forward[rid], AmongNested);
    }
  }

  lemma NoIndexValid()
    ensures IndexValid(NO_INDEX)
  {
    assert forall k :: IdsIn(NO_INDEX.lookup, k) == {};
    assert forall w :: IdsIn(NO_INDEX.ordered, w) == {};
  }

  /** Adding a value under a row that has none keeps the index exact. */
  lemma AddValid(ix: Index, ix': Index, rid: nat, v: Option<Value>)
    requires IndexValid(ix) && rid !in ix.forward && Added(ix, ix', rid, v)
    ensures IndexValid(ix')
  {
    forall r ensures RowIndexed(ix', r) {
      assert RowIndexed(ix, r);
      RowIndexedPlaces(ix, r);
      forall place ensures ListedAt(ix', r, place) <==> r in ix'.forward && Belongs(ix'.forward[r], place) {
        AddedAt(ix, ix', rid, v, r, place);
      }
      RowIndexedPlaces(ix', r);
    }
  }

  /** Removing needs the very value that was added. */
  lemma RemoveValid(ix: Index, ix': Index, rid: nat, v: Option<Value>)
    requires IndexValid(ix) && rid in ix.forward && ix.forward[rid] == v && Removed(ix, ix', rid, v)
    ensures IndexValid(ix')
  {
    forall r ensures RowIndexed(ix', r) {
      assert RowIndexed(ix, r);
      RowIndexedPlaces(ix, r);
      forall place ensures ListedAt(ix', r, place) <==> r in ix'.forward && Belongs(ix'.forward[r], place) {
        RemovedAt(ix, ix', rid, v, r, place);
      }
      RowIndexedPlaces(ix', r);
    }
  }

  lemma AddKeyStep(now: map<Value, set<nat>>, before: map<Value, set<nat>>, keys: set<Value>, key: Value, rid: nat)
    requires SameIds(now, before, keys, rid, true)
    ensures SameIds(AddKey(now, key, rid), before, keys + {key}, rid, true)
  {
    forall k ensures IdsIn(AddKey(now, key, rid), k) == if k == key then IdsIn(now, k) + {rid} else IdsIn(now, k) {}
  }

  lemma RemoveKeyStep(now: map<Value, set<nat>>, before: map<Value, set<nat>>, keys: set<Value>, key: Value, rid: nat)
    requires SameIds(now, before, keys, rid, false)
    ensures SameIds(RemoveKey(now, key, rid), before, keys + {key}, rid, false)
  {
    forall k ensures IdsIn(RemoveKey(now, key, rid), k) == if k == key then IdsIn(now, k) - {rid} else IdsIn(now, k) {}
  }

  function GroupsOf(ix: Index, filter: Option<set<nat>>): map<Option<Value>, set<nat>> {
    map v | v in ix.ordered && Filtered(ix.ordered[v], filter) != {} :: Filtered(ix.ordered[v], filter)
  }

  lemma GroupOfRow(ix: Index, filter: Option<set<nat>>, v: Option<Value>, rid: nat)
    requires IndexValid(ix)
    ensures rid in IdsIn(GroupsOf(ix, filter), v) <==> rid in ix.forward && ix.forward[rid] == v && (filter.Some? ==> rid in filter.value)
  {
    assert RowIndexed(ix, rid);
    assert rid in IdsIn(ix.ordered, v) <==> rid in ix.forward && ix.forward[rid] == v;
  }

  function Filtered(ids: set<nat>, filter: Option<set<nat>>): set<nat> {
    if filter.Some? then ids * filter.value else ids
  }

  class FieldIndex {
    var forward: map<nat, Option<Value>>
    var lookup: map<Value, set<nat>>
    var ordered: map<Option<Value>, set<nat>>
    var containsString: set<nat>
    var containsScalar: set<nat>
    var containsNested: set<nat>

    ghost function Data(): Index
      reads this
    {
      Index(forward, lookup, ordered, containsString, containsScalar, containsNested)
    }

    constructor ()
      ensures Data() == NO_INDEX
    {
      forward, lookup, ordered := map[], map[], map[];
      containsString, containsScalar, containsNested := {}, {}, {};
    }

    method AddValue(rid: nat, value: Option<Value>)
      modifies this
      ensures Added(old(Data()), Data(), rid, value)
    {
      var left, next := Keys(value), lookup;
      while left != {}
        invariant left <= Keys(value) && Data() == old(Data())
        invariant SameIds(next, lookup, Keys(value) - left, rid, true)
        decreases left
      {
        var key :| key in left;
        AddKeyStep(next, lookup, Keys(value) - left, key, rid);
        assert Keys(value) - (left - {key}) == (Keys(value) - left) + {key};
        left := left - {key};
        next := AddKey(next, key, rid);
      }
      forward := forward[rid := value];
      lookup := next;
      ordered := AddKey(ordered, value, rid);
      containsString := With(containsString, rid, TextCell(value));
      containsScalar := With(containsScalar, rid, ScalarCell(value));
      containsNested := With(containsNested, rid, NestedCell(value));
    }

    method RemoveValue(rid: nat, value: Option<Value>)
      modifies this
      ensures Removed(old(Data()), Data(), rid, value)
    {
      var left, next := Keys(value), lookup;
      while left != {}
        invariant left <= Keys(value) && Data() == old(Data())
        invariant SameIds(next, lookup, Keys(value) - left, rid, false)
        decreases left
      {
        var key :| key in left;
        RemoveKeyStep(next, lookup, Keys(value) - left, key, rid);
        assert Keys(value) - (left - {key}) == (Keys(value) - left) + {key};
        left := left - {key};
        next := RemoveKey(next, key, rid);
      }
      forward := forward - {rid};
      lookup := next;
      ordered := RemoveKey(ordered, value, rid);
      containsString := Without(containsString, rid, TextCell(value));
      containsScalar := Without(containsScalar, rid, ScalarCell(value));
      containsNested := Without(containsNested, rid, NestedCell(value));
    }

    /** Forget a row by its own recorded value; afterwards the row has none. */
    method RemoveRid(rid: nat)
      requires IndexValid(Data())
      modifies this
      ensures IndexValid(Data()) && forward == old(forward) - {rid}
    {
      if rid !in forward {
        return;
      }
      ghost var before := Data();
      RemoveValue(rid, forward[rid]);
      RemoveValid(before, Data(), rid, before.forward[rid]);
    }

    /** The groups of an index: each value's rows, cut to the filter if there is one; every row is in one. */
    method IterateGroups(filter: Option<set<nat>>) returns (groups: map<Option<Value>, set<nat>>)
      requires IndexValid(Data())
      ensures groups == GroupsOf(Data(), filter)
      ensures forall v, rid :: rid in IdsIn(groups, v) <==> rid in forward && forward[rid] == v && (filter.Some? ==> rid in filter.value)
    {
      groups := map[];
      var left := ordered.Keys;
      while left != {}
        invariant left <= ordered.Keys
        invariant groups.Keys <= ordered.Keys - left && forall v | v in groups :: groups[v] == Filtered(ordered[v], filter) != {}
        invariant forall v | v in ordered.Keys - left && v !in groups :: Filtered(ordered[v], filter) == {}
        decreases left
      {
        var v :| v in left;
        left := left - {v};
        if Filtered(ordered[v], filter) != {} {
          groups := groups[v := Filtered(ordered[v], filter)];
        }
      }
      forall v, rid
        ensures rid in IdsIn(groups, v) <==> rid in forward && forward[rid] == v && (filter.Some? ==> rid in filter.value)
      {
        GroupOfRow(Data(), filter, v, rid);
      }
    }

    /** The rows that hold some of the values, scalars or inside arrays. */
    method IdsForValues(values: seq<Value>) returns (ids: set<nat>)
      requires IndexValid(Data()) && forall i | 0 <= i < |values| :: ScalarKey(values[i])
      ensures forall rid :: rid in ids <==> rid in forward && exists i :: 0 <= i < |values| && values[i] in Keys(forward[rid])
    {
      ids := {};
      for i := 0 to |values|
        invariant forall rid :: rid in ids <==> exists j :: 0 <= j < i && rid in IdsIn(lookup, values[j])
      {
        ids := ids + IdsIn(lookup, values[i]);
      }
      forall rid
        ensures rid in ids <==> rid in forward && exists i :: 0 <= i < |values| && values[i] in Keys(forward[rid])
      {
        assert RowIndexed(Data(), rid);
      }
    }

    /**
     * For `$contains` the lookup is used only when no row holds a string, a bare scalar or a nested
     * array at the path; then it finds exactly the arrays with the scalar as a member.
     */
    method IdsForContains(value: Value) returns (ids: Option<set<nat>>)
      requires IndexValid(Data())
      ensures ids.Some? <==> ScalarKey(value) && forall rid {:trigger forward[rid]} | rid in forward :: !TextCell(forward[rid]) && !ScalarCell(forward[rid]) && !NestedCell(forward[rid])
      ensures ids.Some? ==> forall rid :: rid in ids.value <==>
                rid in forward && forward[rid].Some? && forward[rid].value.Arr? && value in forward[rid].value.items
    {
      forall rid ensures (rid in containsString || rid in containsScalar || rid in containsNested) <==>
                           rid in forward && (TextCell(forward[rid]) || ScalarCell(forward[rid]) || NestedCell(forward[rid]))
      {
        assert RowIndexed(Data(), rid);
      }
      if !ScalarKey(value) || containsString != {} || containsScalar != {} || containsNested != {} {
        return None;
      }
      ids := Some(IdsIn(lookup, value));
      forall rid
        ensures rid in ids.value <==> rid in forward && forward[rid].Some? && forward[rid].value.Arr? && value in forward[rid].value.items
      {
        ContainsMeans(Data(), rid, value);
      }
    }
  }

  lemma ContainsMeans(ix: Index, rid: nat, value: Value)
    requires IndexValid(ix) && ScalarKey(value)
    requires ix.containsString == {} && ix.containsScalar == {} && ix.containsNested == {}
    ensures rid in IdsIn(ix.lookup, value) <==>
            rid in ix.forward && ix.forward[rid].Some? && ix.forward[rid].value.Arr? && value in ix.forward[rid].value.items
  {
    assert RowIndexed(ix, rid);
    if rid in ix.forward && ix.forward[rid].Some? {
      var v := ix.forward[rid].value;
      if v.Arr? {
        FlatKeys(v.items, value);
      }
    }
  }

  lemma FlatKeys(items: seq<Value>, value: Value)
    requires ScalarKey(value) && forall i | 0 <= i < |items| :: !items[i].Arr?
    ensures value in ItemKeys(items) <==> value in items
  {
    if value in items {
      var i :| 0 <= i < |items| && items[i] == value;
      assert value in KeysOf(items[i]);
    }
  }
}
