/**
 * Answering criteria from indexes (src/store.js, _ridsForCriteria and its partial form; meaning in
 * src/query.js, matchesQuery): an index answer is either refused or exact, a partial answer only
 * ever leaves candidates to check, and deferred rows are looked at one by one.
 */
module Queries {
  import opened Wrappers
  import opened Layout
  import opened FieldIndexes
  import opened Collections

  /**
   * A constraint on one path.  `Other` stands for every operator no index serves, `Operator` for
   * every such condition on the whole object.
   */
  datatype Constraint =
    | Equals(value: Value)
    | In(values: seq<Value>)
    | Contains(member: Value)
    | Other(test: Option<Value> -> bool)

  datatype Entry =
    | And(children: seq<Criteria>)
    | Or(children: seq<Criteria>)
    | Field(path: string, constraint: Constraint)
    | Operator(accepts: Value -> bool)

  datatype Criteria = Criteria(entries: seq<Entry>)

  // Meaning.

  /** The integer a text converts to (JavaScript's `Number`): " 12", "-5" or "1.0", but not "x". */
  type Conversion = string -> Option<int>

  /** A value compared as a number, as JavaScript's `==` does with operands of different types. */
  function ToNumber(js: Conversion, v: Value): Option<int> {
    match v
    case Num(n) => Some(n)
    case Bool(b) => Some(if b then 1 else 0)
    case Str(s) => js(s)
    case _ => None
  }

  predicate SameType(a: Value, b: Value) {
    (a.Num? && b.Num?) || (a.Bool? && b.Bool?) || (a.Str? && b.Str?)
  }

  /** `equal`: arrays match through any entry; nothing blank equals a constant; otherwise `==`. */
  predicate Equal(js: Conversion, left: Value, right: Value) {
    match left
    case Arr(items) => AnyEqual(js, items, right)
    case Null => false
    case Obj(_) => false
    case _ => left != Str("") && (if SameType(left, right) then left == right else ToNumber(js, left).Some? && ToNumber(js, left) == ToNumber(js, right))
  }

  predicate AnyEqual(js: Conversion, items: seq<Value>, right: Value) {
    items != [] && (Equal(js, items[0], right) || AnyEqual(js, items[1..], right))
  }

  predicate Infix(needle: string, text: string) {
    exists i, j | 0 <= i <= j <= |text| :: text[i..j] == needle
  }

  predicate Satisfies(js: Conversion, actual: Option<Value>, c: Constraint) {
    match c
    case Equals(v) => actual.Some? && Equal(js, actual.value, v)
    case In(vs) => actual.Some? && exists i {:trigger vs[i]} :: 0 <= i < |vs| && Equal(js, actual.value, vs[i])
    case Contains(v) =>
      actual.Some? &&
      (if actual.value.Str? then Infix(Text(v), actual.value.s)
       else actual.value.Arr? && AnyEqual(js, actual.value.items, v))
    case Other(test) => test(actual)
  }

  predicate Matches(js: Conversion, obj: Value, q: Criteria)
    decreases q, 0
  {
    forall i {:trigger q.entries[i]} | 0 <= i < |q.entries| :: MatchesEntry(js, obj, q.entries[i])
  }

  predicate MatchesEntry(js: Conversion, obj: Value, e: Entry)
    decreases e, 0
  {
    match e
    case And(children) => forall i {:trigger children[i]} | 0 <= i < |children| :: Matches(js, obj, children[i])
    case Or(children) => exists i {:trigger children[i]} :: 0 <= i < |children| && Matches(js, obj, children[i])
    case Field(path, c) => Satisfies(js, GetPath(obj, path), c)
    case Operator(accepts) => accepts(obj)
  }

  function Matching(js: Conversion, content: Content, q: Criteria): set<nat> {
    set rid | rid in content && Matches(js, content[rid], q)
  }

  // Index answers.

  function FindIndex(indexes: seq<PathIndex>, path: string): Option<Index> {
    if indexes == [] then None
    else if indexes[|indexes| - 1].path == path then Some(indexes[|indexes| - 1].index)
    else FindIndex(indexes[..|indexes| - 1], path)
  }

  function IdsForValues(ix: Index, values: seq<Value>): set<nat> {
    if values == [] then {} else IdsForValues(ix, values[..|values| - 1]) + IdsIn(ix.lookup, values[|values| - 1])
  }

  function IdsForContains(ix: Index, v: Value): Option<set<nat>> {
    if !ScalarKey(v) || ix.containsString != {} || ix.containsScalar != {} || ix.containsNested != {} then None
    else Some(IdsIn(ix.lookup, v))
  }

  function IndexedIds(ix: Index, c: Constraint): Option<set<nat>> {
    match c
    case Equals(v) => if ScalarKey(v) then Some(IdsForValues(ix, [v])) else None
    case In(vs) => if forall v | v in vs :: ScalarKey(v) then Some(IdsForValues(ix, vs)) else None
    case Contains(v) => IdsForContains(ix, v)
    case Other(_) => None
  }

  /** Deferred rows are taken out of the index's answer and tested themselves. */
  function ConstraintIds(js: Conversion, core: Core, path: string, c: Constraint): Option<set<nat>> {
    var ix := FindIndex(core.indexes, path);
    if ix.None? then None
    else
      var ids := IndexedIds(ix.value, c);
      if ids.None? then None
      else Some((ids.value - core.dirty) + (set rid | rid in core.dirty && DirtyMatches(js, core, rid, path, c)))
  }

  predicate DirtyMatches(js: Conversion, core: Core, rid: nat, path: string, c: Constraint) {
    Read(core, rid).Some? && Satisfies(js, GetPath(Read(core, rid).value, path), c)
  }

  function Meet(a: Option<set<nat>>, b: Option<set<nat>>): Option<set<nat>> {
    if a.None? then b else if b.None? then a else Some(a.value * b.value)
  }

  /** An entry's answer: refused, no restriction, or a set of rows. */
  datatype Answer = Refused | Open | Found(ids: set<nat>)

  function AndIds(js: Conversion, core: Core, e: Entry, n: nat): Answer
    requires e.And? && n <= |e.children|
    decreases e, n
  {
    if n == 0 then Open
    else
      var rest, child := AndIds(js, core, e, n - 1), e.children[n - 1];
      if child.entries == [] then rest
      else
        var ids := Rids(js, core, child);
        if rest.Refused? || ids.None? then Refused
        else if rest.Open? then Found(ids.value) else Found(rest.ids * ids.value)
  }

  function OrIds(js: Conversion, core: Core, e: Entry, n: nat): Answer
    requires e.Or? && n <= |e.children|
    decreases e, n
  {
    if n == 0 then Found({})
    else
      var rest, ids := OrIds(js, core, e, n - 1), Rids(js, core, e.children[n - 1]);
      if !rest.Found? || ids.None? then Refused else Found(rest.ids + ids.value)
  }

  function EntryIds(js: Conversion, core: Core, e: Entry): Answer
    decreases e, |if e.And? || e.Or? then e.children else []| + 1
  {
    match e
    case And(children) => AndIds(js, core, e, |children|)
    case Or(children) => OrIds(js, core, e, |children|)
    case Field(path, c) => var ids := ConstraintIds(js, core, path, c); if ids.None? then Refused else Found(ids.value)
    case Operator(_) => Refused
  }

  function EntriesIds(js: Conversion, core: Core, q: Criteria, n: nat): Answer
    requires n <= |q.entries|
    decreases q, n
  {
    if n == 0 then Open
    else
      var rest, ids := EntriesIds(js, core, q, n - 1), EntryIds(js, core, q.entries[n - 1]);
      if rest.Refused? || ids.Refused? then Refused
      else if ids.Open? then rest
      else if rest.Open? then ids
      else Found(rest.ids * ids.ids)
  }

  /** The exact answer, or none. */
  function Rids(js: Conversion, core: Core, q: Criteria): Option<set<nat>>
    decreases q, |q.entries| + 1
  {
    var answer := EntriesIds(js, core, q, |q.entries|);
    if answer.Found? then Some(answer.ids) else None
  }

  // Partial answers: whatever an index can say narrows the candidates.

  function PartialAnd(js: Conversion, core: Core, e: Entry, n: nat): Option<set<nat>>
    requires e.And? && n <= |e.children|
    decreases e, n
  {
    if n == 0 then None
    else
      var rest, child := PartialAnd(js, core, e, n - 1), e.children[n - 1];
      if child.entries == [] then rest
      else Meet(rest, if Rids(js, core, child).Some? then Rids(js, core, child) else PartialRids(js, core, child))
  }

  function PartialEntry(js: Conversion, core: Core, e: Entry): Option<set<nat>>
    decreases e, |if e.And? then e.children else []| + 1
  {
    match e
    case And(children) => PartialAnd(js, core, e, |children|)
    case Or(children) => var ids := OrIds(js, core, e, |children|); if ids.Found? then Some(ids.ids) else None
    case Field(path, c) => ConstraintIds(js, core, path, c)
    case Operator(_) => None
  }

  function PartialEntries(js: Conversion, core: Core, q: Criteria, n: nat): Option<set<nat>>
    requires n <= |q.entries|
    decreases q, n
  {
    if n == 0 then None else Meet(PartialEntries(js, core, q, n - 1), PartialEntry(js, core, q.entries[n - 1]))
  }

  function PartialRids(js: Conversion, core: Core, q: Criteria): Option<set<nat>>
    decreases q, |q.entries| + 1
  {
    PartialEntries(js, core, q, |q.entries|)
  }

  // When index keys and `==` agree.

  /** Equal to the constant only by conversion: the index, keyed by type and value, misses it. */
  ghost predicate LooseOnly(js: Conversion, v: Value, constant: Value) {
    constant !in KeysOf(v) && exists k :: k in KeysOf(v) && Equal(js, k, constant)
  }

  predicate Constant(v: Value) {
    ScalarKey(v) && v != Str("")
  }

  ghost predicate NoneLoose(js: Conversion, content: Content, path: string, constant: Value) {
    forall rid | rid in content && GetPath(content[rid], path).Some? :: !LooseOnly(js, GetPath(content[rid], path).value, constant)
  }

  lemma {:induction false} EqualThroughKeys(js: Conversion, v: Value, constant: Value)
    requires Constant(constant)
    ensures Equal(js, v, constant) <==> exists k :: k in KeysOf(v) && Equal(js, k, constant)
    ensures constant in KeysOf(v) ==> Equal(js, v, constant)
  {
    if v.Arr? {
      AnyEqualThroughKeys(js, v.items, constant);
    }
  }

  lemma {:induction false} AnyEqualThroughKeys(js: Conversion, items: seq<Value>, constant: Value)
    requires Constant(constant)
    ensures AnyEqual(js, items, constant) <==> exists k :: k in ItemKeys(items) && Equal(js, k, constant)
    ensures constant in ItemKeys(items) ==> AnyEqual(js, items, constant)
  {
    if items != [] {
      EqualThroughKeys(js, items[0], constant);
      AnyEqualThroughKeys(js, items[1..], constant);
      assert ItemKeys(items) == KeysOf(items[0]) + ItemKeys(items[1..]);
    }
  }

  /**
   * Equality with a constant: some scalar of the value that is not blank is the constant itself or,
   * unless both are texts, converts to the same number.
   */
  lemma EqualMeans(js: Conversion, v: Value, constant: Value)
    requires ScalarKey(constant) && constant != Str("")
    ensures Equal(js, v, constant) <==>
              exists k :: k in KeysOf(v) && k != Str("") &&
                (k == constant || (!(k.Str? && constant.Str?) && ToNumber(js, k).Some? && ToNumber(js, k) == ToNumber(js, constant)))
  {
    EqualThroughKeys(js, v, constant);
    forall k | k in KeysOf(v)
      ensures Equal(js, k, constant) <==>
                k != Str("") && (k == constant || (!(k.Str? && constant.Str?) && ToNumber(js, k).Some? && ToNumber(js, k) == ToNumber(js, constant)))
    {
      assert ScalarKey(k);
    }
  }

  /** A text contains a constant when it reads somewhere in it; an array, when an entry equals it. */
  lemma ContainsMeans(js: Conversion, v: Value, constant: Value)
    requires Constant(constant)
    ensures v.Str? ==> (Satisfies(js, Some(v), Contains(constant)) <==> ReadsIn(Text(constant), v.s))
    ensures v.Arr? ==> (Satisfies(js, Some(v), Contains(constant)) <==> exists i {:trigger v.items[i]} :: 0 <= i < |v.items| && Equal(js, v.items[i], constant))
    ensures !v.Str? && !v.Arr? ==> !Satisfies(js, Some(v), Contains(constant))
    ensures !Satisfies(js, None, Contains(constant))
  {
    if v.Str? {
      InfixMeans(Text(constant), v.s);
    }
    if v.Arr? {
      AnyEqualMeans(js, v.items, constant);
    }
  }

  ghost predicate ReadsIn(needle: string, text: string) {
    exists before, after :: text == before + needle + after
  }

  lemma InfixMeans(needle: string, text: string)
    ensures Infix(needle, text) <==> ReadsIn(needle, text)
  {
    if Infix(needle, text) {
      var i, j :| 0 <= i <= j <= |text| && text[i..j] == needle;
      assert text == text[..i] + needle + text[j..];
    }
    if before, after :| text == before + needle + after {
      assert text[|before|..|before| + |needle|] == needle;
    }
  }

  lemma {:induction false} AnyEqualMeans(js: Conversion, items: seq<Value>, constant: Value)
    ensures AnyEqual(js, items, constant) <==> exists i {:trigger items[i]} :: 0 <= i < |items| && Equal(js, items[i], constant)
  {
    if items != [] {
      AnyEqualMeans(js, items[1..], constant);
      assert forall i {:trigger items[1..][i]} | 0 <= i < |items| - 1 :: items[1..][i] == items[i + 1];
      if i :| 0 <= i < |items| && Equal(js, items[i], constant) {
        assert i > 0 ==> items[1..][i - 1] == items[i];
      }
    }
  }

  /** The index decides equality exactly for the values that are not equal by conversion only. */
  lemma KeyDecidesEquality(js: Conversion, v: Value, constant: Value)
    requires Constant(constant)
    ensures (Equal(js, v, constant) <==> constant in KeysOf(v)) <==> !LooseOnly(js, v, constant)
  {
    EqualThroughKeys(js, v, constant);
  }

  /** In particular when all scalars at the path have the constant's type. */
  lemma SameTypeNeverLoose(js: Conversion, v: Value, constant: Value)
    requires Constant(constant) && forall k | k in KeysOf(v) :: SameType(k, constant)
    ensures !LooseOnly(js, v, constant)
  {
  }

  /** `true` equals `1`, but the index does not find it there. */
  lemma TrueEqualsOneUnindexed(js: Conversion)
    ensures Equal(js, Bool(true), Num(1)) && Num(1) !in KeysOf(Bool(true)) && LooseOnly(js, Bool(true), Num(1))
  {
    assert Bool(true) in KeysOf(Bool(true));
  }

  /** So does every text that converts to a number equal that number, and is indexed apart. */
  lemma NumeralEqualsNumberUnindexed(js: Conversion, s: string, n: int)
    requires s != ""
    ensures Equal(js, Str(s), Num(n)) <==> js(s) == Some(n)
    ensures Num(n) !in KeysOf(Str(s)) && (LooseOnly(js, Str(s), Num(n)) <==> js(s) == Some(n))
  {
    assert Str(s) in KeysOf(Str(s));
  }

  ghost predicate ConstraintOk(js: Conversion, content: Content, path: string, c: Constraint) {
    match c
    case Equals(v) => Constant(v) && NoneLoose(js, content, path, v)
    case In(vs) => forall v | v in vs :: Constant(v) && NoneLoose(js, content, path, v)
    case Contains(v) => Constant(v) && NoneLoose(js, content, path, v)
    case Other(_) => true
  }

  ghost predicate CriteriaOk(js: Conversion, content: Content, q: Criteria)
    decreases q, 0
  {
    forall i {:trigger q.entries[i]} | 0 <= i < |q.entries| :: EntryOk(js, content, q.entries[i])
  }

  ghost predicate EntryOk(js: Conversion, content: Content, e: Entry)
    decreases e, 0
  {
    match e
    case And(children) => forall i {:trigger children[i]} | 0 <= i < |children| :: CriteriaOk(js, content, children[i])
    case Or(children) => forall i {:trigger children[i]} | 0 <= i < |children| :: CriteriaOk(js, content, children[i])
    case Field(path, c) => ConstraintOk(js, content, path, c)
    case Operator(_) => true
  }

  // One constraint.

  lemma {:induction false} IdsForValuesMembers(ix: Index, values: seq<Value>)
    ensures forall rid :: rid in IdsForValues(ix, values) <==> exists i {:trigger values[i]} :: 0 <= i < |values| && rid in IdsIn(ix.lookup, values[i])
  {
    if values != [] {
      var front := values[..|values| - 1];
      IdsForValuesMembers(ix, front);
      forall rid
        ensures rid in IdsForValues(ix, values) <==> exists i {:trigger values[i]} :: 0 <= i < |values| && rid in IdsIn(ix.lookup, values[i])
      {
        if i :| 0 <= i < |front| && rid in IdsIn(ix.lookup, front[i]) {
          assert rid in IdsIn(ix.lookup, values[i]);
        }
        if i :| 0 <= i < |values| && rid in IdsIn(ix.lookup, values[i]) {
          assert i < |front| ==> front[i] == values[i];
        }
      }
    }
  }

  /** The index's own answer is right for every row whose forward value is its current one. */
  lemma IndexedRow(js: Conversion, ix: Index, c: Constraint, rid: nat, actual: Option<Value>)
    requires IndexValid(ix) && IndexedIds(ix, c).Some?
    requires rid in ix.forward && ix.forward[rid] == actual
    requires match c
             case Equals(v) => Constant(v) && (actual.Some? ==> !LooseOnly(js, actual.value, v))
             case In(vs) => forall v | v in vs :: Constant(v) && (actual.Some? ==> !LooseOnly(js, actual.value, v))
             case Contains(v) => Constant(v) && (actual.Some? ==> !LooseOnly(js, actual.value, v))
             case Other(_) => true
    ensures rid in IndexedIds(ix, c).value <==> Satisfies(js, actual, c)
  {
    assert RowIndexed(ix, rid);
    match c
    case Equals(v) =>
      IdsForValuesMembers(ix, [v]);
      assert [v][0] == v;
      if actual.Some? {
        KeyDecidesEquality(js, actual.value, v);
      }
    case In(vs) =>
      IdsForValuesMembers(ix, vs);
      if actual.Some? {
        forall i | 0 <= i < |vs| ensures Equal(js, actual.value, vs[i]) <==> rid in IdsIn(ix.lookup, vs[i]) {
          assert vs[i] in vs;
          KeyDecidesEquality(js, actual.value, vs[i]);
        }
      }
    case Contains(v) =>
      if actual.Some? {
        KeyDecidesEquality(js, actual.value, v);
      }
    case Other(_) =>
  }

  lemma {:induction false} FindIndexMember(indexes: seq<PathIndex>, path: string)
    requires FindIndex(indexes, path).Some?
    ensures exists i :: 0 <= i < |indexes| && indexes[i] == PathIndex(path, FindIndex(indexes, path).value)
  {
    var n := |indexes| - 1;
    if indexes[n].path == path {
      assert indexes[n] == PathIndex(path, FindIndex(indexes, path).value);
    } else {
      FindIndexMember(indexes[..n], path);
      var i :| 0 <= i < n && indexes[..n][i] == PathIndex(path, FindIndex(indexes, path).value);
      assert indexes[i] == indexes[..n][i];
    }
  }

  ghost function ConstraintMatching(js: Conversion, content: Content, path: string, c: Constraint): set<nat> {
    set rid | rid in content && Satisfies(js, GetPath(content[rid], path), c)
  }

  /** With any rows deferred, a constraint's answer is refused or exact. */
  lemma ConstraintExact(js: Conversion, core: Core, content: Content, path: string, c: Constraint)
    requires Valid(core, content) && ConstraintOk(js, content, path, c)
    ensures ConstraintIds(js, core, path, c).Some? ==> ConstraintIds(js, core, path, c).value == ConstraintMatching(js, content, path, c)
  {
    if ConstraintIds(js, core, path, c).Some? {
      FindIndexMember(core.indexes, path);
      var i :| 0 <= i < |core.indexes| && core.indexes[i] == PathIndex(path, FindIndex(core.indexes, path).value);
      forall rid ensures rid in ConstraintIds(js, core, path, c).value <==> rid in ConstraintMatching(js, content, path, c) {
        ReadIsContent(core, content, rid);
        if rid !in core.dirty {
          ConstraintRow(js, core, content, i, c, rid);
        }
      }
    }
  }

  lemma ConstraintRow(js: Conversion, core: Core, content: Content, i: nat, c: Constraint, rid: nat)
    requires Valid(core, content) && i < |core.indexes| && rid !in core.dirty
    requires ConstraintOk(js, content, core.indexes[i].path, c) && IndexedIds(core.indexes[i].index, c).Some?
    ensures rid in IndexedIds(core.indexes[i].index, c).value <==> rid in ConstraintMatching(js, content, core.indexes[i].path, c)
  {
    var ix := core.indexes[i].index;
    assert IndexValid(ix);
    assert DerivedMatches(core, rid, At(content, rid));
    assert Recorded(ix, rid, At(content, rid), core.indexes[i].path);
    if rid in content {
      IndexedRow(js, ix, c, rid, GetPath(content[rid], core.indexes[i].path));
    } else {
      UnknownRow(ix, c, rid);
    }
  }

  lemma UnknownRow(ix: Index, c: Constraint, rid: nat)
    requires IndexValid(ix) && rid !in ix.forward && IndexedIds(ix, c).Some?
    ensures rid !in IndexedIds(ix, c).value
  {
    assert RowIndexed(ix, rid);
    match c
    case Equals(v) => IdsForValuesMembers(ix, [v]);
    case In(vs) => IdsForValuesMembers(ix, vs);
    case _ =>
  }

  // Criteria.

  ghost function AndMatching(js: Conversion, content: Content, e: Entry, n: nat): set<nat>
    requires e.And? && n <= |e.children|
  {
    set rid | rid in content && forall i {:trigger e.children[i]} | 0 <= i < n :: Matches(js, content[rid], e.children[i])
  }

  ghost function OrMatching(js: Conversion, content: Content, e: Entry, n: nat): set<nat>
    requires e.Or? && n <= |e.children|
  {
    set rid | rid in content && exists i {:trigger e.children[i]} :: 0 <= i < n && Matches(js, content[rid], e.children[i])
  }

  ghost function EntryMatching(js: Conversion, content: Content, e: Entry): set<nat> {
    set rid | rid in content && MatchesEntry(js, content[rid], e)
  }

  ghost function EntriesMatching(js: Conversion, content: Content, q: Criteria, n: nat): set<nat>
    requires n <= |q.entries|
  {
    set rid | rid in content && forall i {:trigger q.entries[i]} | 0 <= i < n :: MatchesEntry(js, content[rid], q.entries[i])
  }

  ghost predicate Exact(answer: Answer, content: Content, target: set<nat>) {
    match answer
    case Refused => true
    case Open => target == content.Keys
    case Found(ids) => ids == target
  }

  lemma {:induction false} AndExact(js: Conversion, core: Core, content: Content, e: Entry, n: nat)
    requires Valid(core, content) && e.And? && n <= |e.children| && EntryOk(js, content, e)
    ensures Exact(AndIds(js, core, e, n), content, AndMatching(js, content, e, n))
    decreases e, n
  {
    if n == 0 {
      assert AndMatching(js, content, e, 0) == content.Keys;
    } else {
      var child := e.children[n - 1];
      AndExact(js, core, content, e, n - 1);
      assert AndMatching(js, content, e, n) == AndMatching(js, content, e, n - 1) * Matching(js, content, child);
      if child.entries == [] {
        assert Matching(js, content, child) == content.Keys;
      } else {
        RidsExact(js, core, content, child);
      }
    }
  }

  lemma {:induction false} OrExact(js: Conversion, core: Core, content: Content, e: Entry, n: nat)
    requires Valid(core, content) && e.Or? && n <= |e.children| && EntryOk(js, content, e)
    ensures Exact(OrIds(js, core, e, n), content, OrMatching(js, content, e, n))
    decreases e, n
  {
    if n == 0 {
      assert OrMatching(js, content, e, 0) == {};
    } else {
      OrExact(js, core, content, e, n - 1);
      RidsExact(js, core, content, e.children[n - 1]);
      assert OrMatching(js, content, e, n) == OrMatching(js, content, e, n - 1) + Matching(js, content, e.children[n - 1]);
    }
  }

  lemma {:induction false} EntryExact(js: Conversion, core: Core, content: Content, e: Entry)
    requires Valid(core, content) && EntryOk(js, content, e)
    ensures Exact(EntryIds(js, core, e), content, EntryMatching(js, content, e))
    decreases e, |if e.And? || e.Or? then e.children else []| + 1
  {
    match e
    case And(children) =>
      AndExact(js, core, content, e, |children|);
      assert EntryMatching(js, content, e) == AndMatching(js, content, e, |children|);
    case Or(children) =>
      OrExact(js, core, content, e, |children|);
      assert EntryMatching(js, content, e) == OrMatching(js, content, e, |children|);
    case Field(path, c) =>
      ConstraintExact(js, core, content, path, c);
      assert EntryMatching(js, content, e) == ConstraintMatching(js, content, path, c);
    case Operator(_) =>
  }

  lemma {:induction false} EntriesExact(js: Conversion, core: Core, content: Content, q: Criteria, n: nat)
    requires Valid(core, content) && CriteriaOk(js, content, q) && n <= |q.entries|
    ensures Exact(EntriesIds(js, core, q, n), content, EntriesMatching(js, content, q, n))
    decreases q, n
  {
    if n == 0 {
      assert EntriesMatching(js, content, q, 0) == content.Keys;
    } else {
      EntriesExact(js, core, content, q, n - 1);
      EntryExact(js, core, content, q.entries[n - 1]);
      assert EntriesMatching(js, content, q, n) == EntriesMatching(js, content, q, n - 1) * EntryMatching(js, content, q.entries[n - 1]);
    }
  }

  /** Index answers are exact: none, or the live rows that match, whatever rows are deferred. */
  lemma {:induction false} RidsExact(js: Conversion, core: Core, content: Content, q: Criteria)
    requires Valid(core, content) && CriteriaOk(js, content, q)
    ensures Rids(js, core, q).Some? ==> Rids(js, core, q).value == Matching(js, content, q)
    decreases q, |q.entries| + 1
  {
    EntriesExact(js, core, content, q, |q.entries|);
    assert Matching(js, content, q) == EntriesMatching(js, content, q, |q.entries|);
  }

  lemma {:induction false} PartialAndCovers(js: Conversion, core: Core, content: Content, e: Entry, n: nat)
    requires Valid(core, content) && e.And? && n <= |e.children| && EntryOk(js, content, e)
    ensures PartialAnd(js, core, e, n).Some? ==> AndMatching(js, content, e, n) <= PartialAnd(js, core, e, n).value
    decreases e, n
  {
    if n != 0 {
      var child := e.children[n - 1];
      PartialAndCovers(js, core, content, e, n - 1);
      assert AndMatching(js, content, e, n) == AndMatching(js, content, e, n - 1) * Matching(js, content, child);
      RidsExact(js, core, content, child);
      PartialCovers(js, core, content, child);
    }
  }

  lemma {:induction false} PartialEntryCovers(js: Conversion, core: Core, content: Content, e: Entry)
    requires Valid(core, content) && EntryOk(js, content, e)
    ensures PartialEntry(js, core, e).Some? ==> EntryMatching(js, content, e) <= PartialEntry(js, core, e).value
    decreases e, |if e.And? then e.children else []| + 1
  {
    match e
    case And(children) =>
      PartialAndCovers(js, core, content, e, |children|);
      assert EntryMatching(js, content, e) == AndMatching(js, content, e, |children|);
    case Or(children) =>
      OrExact(js, core, content, e, |children|);
      assert EntryMatching(js, content, e) == OrMatching(js, content, e, |children|);
    case Field(path, c) =>
      ConstraintExact(js, core, content, path, c);
      assert EntryMatching(js, content, e) == ConstraintMatching(js, content, path, c);
    case Operator(_) =>
  }

  lemma {:induction false} PartialEntriesCover(js: Conversion, core: Core, content: Content, q: Criteria, n: nat)
    requires Valid(core, content) && CriteriaOk(js, content, q) && n <= |q.entries|
    ensures PartialEntries(js, core, q, n).Some? ==> EntriesMatching(js, content, q, n) <= PartialEntries(js, core, q, n).value
    decreases q, n
  {
    if n != 0 {
      PartialEntriesCover(js, core, content, q, n - 1);
      PartialEntryCovers(js, core, content, q.entries[n - 1]);
      assert EntriesMatching(js, content, q, n) == EntriesMatching(js, content, q, n - 1) * EntryMatching(js, content, q.entries[n - 1]);
    }
  }

  /** A partial answer never leaves a matching row out. */
  lemma {:induction false} PartialCovers(js: Conversion, core: Core, content: Content, q: Criteria)
    requires Valid(core, content) && CriteriaOk(js, content, q)
    ensures PartialRids(js, core, q).Some? ==> Matching(js, content, q) <= PartialRids(js, core, q).value
    decreases q, |q.entries| + 1
  {
    PartialEntriesCover(js, core, content, q, |q.entries|);
    assert Matching(js, content, q) == EntriesMatching(js, content, q, |q.entries|);
  }

  // When the indexes answer.

  /** An index can answer the constraint whatever values the rows hold. */
  predicate Indexable(c: Constraint) {
    match c
    case Equals(v) => ScalarKey(v)
    case In(vs) => forall i | 0 <= i < |vs| :: ScalarKey(vs[i])
    case _ => false
  }

  /** Criteria built from indexed equalities: every part restricts, and on an indexed path. */
  predicate Served(core: Core, q: Criteria)
    decreases q, 0
  {
    q.entries != [] && forall i {:trigger q.entries[i]} | 0 <= i < |q.entries| :: ServedEntry(core, q.entries[i])
  }

  predicate ServedEntry(core: Core, e: Entry)
    decreases e, 0
  {
    match e
    case And(children) => children != [] && forall i {:trigger children[i]} | 0 <= i < |children| :: Served(core, children[i])
    case Or(children) => forall i {:trigger children[i]} | 0 <= i < |children| :: Served(core, children[i])
    case Field(path, c) => (exists i {:trigger core.indexes[i]} :: 0 <= i < |core.indexes| && core.indexes[i].path == path) && Indexable(c)
    case Operator(_) => false
  }

  lemma {:induction false} FindIndexFinds(indexes: seq<PathIndex>, i: nat)
    requires i < |indexes|
    ensures FindIndex(indexes, indexes[i].path).Some?
  {
    var n := |indexes| - 1;
    if indexes[n].path != indexes[i].path {
      FindIndexFinds(indexes[..n], i);
    }
  }

  lemma {:induction false} AndAnswered(js: Conversion, core: Core, e: Entry, n: nat)
    requires e.And? && n <= |e.children| && forall i {:trigger e.children[i]} | 0 <= i < |e.children| :: Served(core, e.children[i])
    ensures if n == 0 then AndIds(js, core, e, n) == Open else AndIds(js, core, e, n).Found?
    decreases e, n
  {
    if n != 0 {
      AndAnswered(js, core, e, n - 1);
      ServedIsAnswered(js, core, e.children[n - 1]);
    }
  }

  lemma {:induction false} OrAnswered(js: Conversion, core: Core, e: Entry, n: nat)
    requires e.Or? && n <= |e.children| && forall i {:trigger e.children[i]} | 0 <= i < |e.children| :: Served(core, e.children[i])
    ensures OrIds(js, core, e, n).Found?
    decreases e, n
  {
    if n != 0 {
      OrAnswered(js, core, e, n - 1);
      ServedIsAnswered(js, core, e.children[n - 1]);
    }
  }

  lemma {:induction false} EntriesAnswered(js: Conversion, core: Core, q: Criteria, n: nat)
    requires n <= |q.entries| && Served(core, q)
    ensures if n == 0 then EntriesIds(js, core, q, n) == Open else EntriesIds(js, core, q, n).Found?
    decreases q, n
  {
    if n != 0 {
      EntriesAnswered(js, core, q, n - 1);
      var e := q.entries[n - 1];
      assert ServedEntry(core, e);
      match e
      case And(children) => AndAnswered(js, core, e, |children|);
      case Or(children) => OrAnswered(js, core, e, |children|);
      case Field(path, c) =>
        var i :| 0 <= i < |core.indexes| && core.indexes[i].path == path;
        FindIndexFinds(core.indexes, i);
      case Operator(_) =>
    }
  }

  /** Such criteria are never refused, whatever rows are deferred: no scan is needed. */
  lemma {:induction false} ServedIsAnswered(js: Conversion, core: Core, q: Criteria)
    requires Served(core, q)
    ensures Rids(js, core, q).Some?
    decreases q, |q.entries| + 1
  {
    EntriesAnswered(js, core, q, |q.entries|);
  }

  // The methods.

  method RidsForAnd(js: Conversion, core: Core, e: Entry) returns (answer: Answer)
    requires e.And?
    ensures answer == AndIds(js, core, e, |e.children|)
    decreases e, |e.children|
  {
    answer := Open;
    for n := 0 to |e.children|
      invariant answer == AndIds(js, core, e, n)
    {
      var child := e.children[n];
      if child.entries == [] {
        continue;
      }
      var ids := RidsForCriteria(js, core, child);
      if answer.Refused? || ids.None? {
        answer := Refused;
      } else {
        answer := if answer.Open? then Found(ids.value) else Found(answer.ids * ids.value);
      }
    }
  }

  method RidsForOr(js: Conversion, core: Core, e: Entry) returns (answer: Answer)
    requires e.Or?
    ensures answer == OrIds(js, core, e, |e.children|)
    decreases e, |e.children|
  {
    answer := Found({});
    for n := 0 to |e.children|
      invariant answer == OrIds(js, core, e, n)
    {
      var ids := RidsForCriteria(js, core, e.children[n]);
      answer := if !answer.Found? || ids.None? then Refused else Found(answer.ids + ids.value);
    }
  }

  /** The exact answer of the indexes, found entry by entry. */
  method RidsForCriteria(js: Conversion, core: Core, q: Criteria) returns (ids: Option<set<nat>>)
    ensures ids == Rids(js, core, q)
    decreases q, |q.entries| + 1
  {
    var current := Open;
    for n := 0 to |q.entries|
      invariant current == EntriesIds(js, core, q, n)
    {
      var answer;
      match q.entries[n] {
        case And(_) => answer := RidsForAnd(js, core, q.entries[n]);
        case Or(_) => answer := RidsForOr(js, core, q.entries[n]);
        case Field(path, c) =>
          var found := ConstraintIds(js, core, path, c);
          answer := if found.None? then Refused else Found(found.value);
        case Operator(_) => answer := Refused;
      }
      if current.Refused? || answer.Refused? {
        current := Refused;
      } else if answer.Found? {
        current := if current.Open? then answer else Found(current.ids * answer.ids);
      }
    }
    ids := if current.Found? then Some(current.ids) else None;
  }

  /**
   * Find and count: take an exact answer as it is, check each candidate of a partial one, scan when
   * there is neither.  The result is that of a full scan.
   */
  method FindRids(js: Conversion, core: Core, ghost content: Content, q: Criteria) returns (found: set<nat>)
    requires Valid(core, content) && CriteriaOk(js, content, q)
    ensures found == Matching(js, content, q)
  {
    RidsExact(js, core, content, q);
    PartialCovers(js, core, content, q);
    var exact := RidsForCriteria(js, core, q);
    if exact.Some? {
      return exact.value;
    }
    var left := PartialRids(js, core, q).GetOr(core.base.Keys);
    LiveRows(core, content);
    found := {};
    while left != {}
      invariant found <= Matching(js, content, q) <= found + left
      decreases left
    {
      var rid :| rid in left;
      left := left - {rid};
      ReadIsContent(core, content, rid);
      var obj := Read(core, rid);
      if obj.Some? && Matches(js, obj.value, q) {
        found := found + {rid};
      }
    }
  }

  lemma LiveRows(core: Core, content: Content)
    requires Valid(core, content)
    ensures core.base.Keys == content.Keys
  {
    forall rid ensures rid in core.base <==> rid in content {
      assert BaseMatches(core, rid, At(content, rid));
    }
  }
}
