/**
 * References between objects (src/references.js): stripping embedded copies and expanding
 * references through the store, bounded in depth and safe on cycles.
 */
module References {
  import opened Wrappers

  const MAX_DEPTH: nat := 8

  predicate IsText(v: Value) {
    v.Str? && v.s != ""
  }

  /** A descriptor `{type: "reference", collection, value}`; its `object` is an embedded copy. */
  predicate IsReference(v: Value) {
    && v.Obj?
    && "type" in v.fields && v.fields["type"] == Str("reference")
    && "collection" in v.fields && IsText(v.fields["collection"])
    && "value" in v.fields && !v.fields["value"].Null? && Text(v.fields["value"]) != ""
  }

  datatype Target = Target(db: string, coll: string, id: string)

  /** The database defaults to that of the object at hand; none at all means no target. */
  function TargetOf(ref: Value, fallback: Option<string>): Option<Target>
    requires IsReference(ref)
  {
    var db := if "database" in ref.fields && !ref.fields["database"].Null? then Some(Text(ref.fields["database"])) else fallback;
    if db.None? || db.value == "" then None
    else Some(Target(db.value, ref.fields["collection"].s, Text(ref.fields["value"])))
  }

  // Stripping.

  function Strip(v: Value): Value {
    match v
    case Arr(items) => Arr(StripItems(items))
    case Obj(fields) => Obj(map k | k in fields && !(IsReference(v) && k == "object") :: Strip(fields[k]))
    case _ => v
  }

  function StripItems(items: seq<Value>): (r: seq<Value>)
    ensures |r| == |items|
  {
    if items == [] then [] else StripItems(items[..|items| - 1]) + [Strip(items[|items| - 1])]
  }

  predicate HasReference(v: Value) {
    match v
    case Arr(items) => ItemsHaveReference(items)
    case Obj(fields) => IsReference(v) || exists k :: k in fields && HasReference(fields[k])
    case _ => false
  }

  predicate ItemsHaveReference(items: seq<Value>) {
    items != [] && (ItemsHaveReference(items[..|items| - 1]) || HasReference(items[|items| - 1]))
  }

  // Expanding.

  type Store = map<Target, Value>

  /** The descriptor without its embedded copy. */
  function CloneDescriptor(ref: Value): Value
    requires ref.Obj?
  {
    Obj(map k | k in ref.fields && k != "object" :: Strip(ref.fields[k]))
  }

  function WithObject(descriptor: Value, copy: Value): Value
    requires descriptor.Obj?
  {
    Obj(descriptor.fields["object" := copy])
  }

  function Expand(v: Value, store: Store, database: Option<string>, depth: nat, seen: set<Target>): Value
    decreases depth, v
  {
    match v
    case Arr(items) => Arr(ExpandItems(items, store, database, depth, seen))
    case Obj(fields) =>
      if IsReference(v) then ExpandReference(v, store, database, depth, seen)
      else Obj(map k | k in fields :: Expand(fields[k], store, database, depth, seen))
    case _ => v
  }

  function ExpandItems(items: seq<Value>, store: Store, database: Option<string>, depth: nat, seen: set<Target>): (r: seq<Value>)
    ensures |r| == |items|
    decreases depth, items
  {
    if items == [] then []
    else ExpandItems(items[..|items| - 1], store, database, depth, seen) + [Expand(items[|items| - 1], store, database, depth, seen)]
  }

  /** A target met before on the way, or absent, leaves null. */
  function ExpandReference(ref: Value, store: Store, database: Option<string>, depth: nat, seen: set<Target>): Value
    requires IsReference(ref)
    decreases depth, ref, 0
  {
    var clean := CloneDescriptor(ref);
    if depth == 0 then clean
    else
      var target := TargetOf(ref, database);
      if target.None? || target.value in seen || target.value !in store then WithObject(clean, Null)
      else WithObject(clean, Expand(store[target.value], store, Some(target.value.db), depth - 1, seen + {target.value}))
  }

  function ExpandReferences(v: Value, store: Store, database: Option<string>, depth: nat, seen: set<Target>): Value {
    var prepared := Strip(v);
    if depth == 0 || !HasReference(v) then prepared
    else Expand(prepared, store, database, Min(depth, MAX_DEPTH), seen)
  }

  // Stripping keeps what makes a reference.

  lemma {:induction false} StripKeepsText(v: Value)
    ensures Text(Strip(v)) == Text(v)
    ensures Strip(v).Null? <==> v.Null?
    ensures v.Str? || Strip(v).Str? ==> Strip(v) == v
  {
    if v.Arr? {
      StripItemsKeepText(v.items);
    }
  }

  lemma {:induction false} StripItemsKeepText(items: seq<Value>)
    ensures ItemsText(StripItems(items)) == ItemsText(items)
  {
    if items != [] {
      var front, last := items[..|items| - 1], items[|items| - 1];
      StripItemsKeepText(front);
      StripKeepsText(last);
      assert StripItems(items)[..|items| - 1] == StripItems(front);
    }
  }

  lemma StripKeepsReference(v: Value)
    ensures IsReference(Strip(v)) <==> IsReference(v)
  {
    if v.Obj? {
      forall k | k in v.fields ensures Text(Strip(v.fields[k])) == Text(v.fields[k]) && (Strip(v.fields[k]).Null? <==> v.fields[k].Null?)
        && (v.fields[k].Str? || Strip(v.fields[k]).Str? ==> Strip(v.fields[k]) == v.fields[k])
      {
        StripKeepsText(v.fields[k]);
      }
    }
  }

  /** Stripping twice is stripping once. */
  lemma {:induction false} StripIdempotent(v: Value)
    ensures Strip(Strip(v)) == Strip(v)
  {
    StripKeepsReference(v);
    match v
    case Arr(items) => StripItemsIdempotent(items);
    case Obj(fields) =>
      forall k | k in fields ensures Strip(Strip(fields[k])) == Strip(fields[k]) {
        StripIdempotent(fields[k]);
      }
    case _ =>
  }

  lemma {:induction false} StripItemsIdempotent(items: seq<Value>)
    ensures StripItems(StripItems(items)) == StripItems(items)
  {
    if items != [] {
      StripItemsIdempotent(items[..|items| - 1]);
      StripIdempotent(items[|items| - 1]);
      assert StripItems(items)[..|items| - 1] == StripItems(items[..|items| - 1]);
    }
  }

  // Expanding and stripping.

  lemma {:induction false} ExpandKeepsText(v: Value, store: Store, database: Option<string>, depth: nat, seen: set<Target>)
    ensures var e := Expand(v, store, database, depth, seen);
            Text(e) == Text(v) && (e.Null? <==> v.Null?) && (v.Str? || e.Str? ==> e == v) && (e.Obj? <==> v.Obj?)
  {
    if v.Arr? {
      ExpandItemsKeepText(v.items, store, database, depth, seen);
    }
  }

  lemma {:induction false} ExpandItemsKeepText(items: seq<Value>, store: Store, database: Option<string>, depth: nat, seen: set<Target>)
    ensures ItemsText(ExpandItems(items, store, database, depth, seen)) == ItemsText(items)
  {
    if items != [] {
      var front, last := items[..|items| - 1], items[|items| - 1];
      ExpandItemsKeepText(front, store, database, depth, seen);
      ExpandKeepsText(last, store, database, depth, seen);
      assert ExpandItems(items, store, database, depth, seen)[..|items| - 1] == ExpandItems(front, store, database, depth, seen);
    }
  }

  /** An object that is no reference does not become one by expanding its fields. */
  lemma ExpandKeepsPlain(v: Value, store: Store, database: Option<string>, depth: nat, seen: set<Target>)
    requires v.Obj? && !IsReference(v)
    ensures !IsReference(Expand(v, store, database, depth, seen))
  {
    forall k | k in v.fields
      ensures var e := Expand(v.fields[k], store, database, depth, seen);
              Text(e) == Text(v.fields[k]) && (e.Null? <==> v.fields[k].Null?) && (v.fields[k].Str? || e.Str? ==> e == v.fields[k])
    {
      ExpandKeepsText(v.fields[k], store, database, depth, seen);
    }
  }

  lemma DescriptorIsStripped(ref: Value)
    requires IsReference(ref)
    ensures CloneDescriptor(ref) == Strip(ref) && IsReference(CloneDescriptor(ref))
  {
    StripKeepsReference(ref);
  }

  /** A copy in a reference is the one thing stripping takes out. */
  lemma CopyStripped(clean: Value, copy: Value)
    requires IsReference(clean) && "object" !in clean.fields && Strip(clean) == clean
    ensures IsReference(WithObject(clean, copy)) && Strip(WithObject(clean, copy)) == clean
  {
    var full := WithObject(clean, copy);
    assert IsReference(full);
    forall k | k in clean.fields ensures Strip(full.fields[k]) == clean.fields[k] {
      assert Strip(clean).fields[k] == Strip(clean.fields[k]);
    }
  }

  /** A cleaned descriptor, with or without a copy, strips to what the reference strips to. */
  lemma DescriptorStrips(ref: Value, copy: Value)
    requires IsReference(ref)
    ensures Strip(CloneDescriptor(ref)) == Strip(ref)
    ensures Strip(WithObject(CloneDescriptor(ref), copy)) == Strip(ref)
  {
    DescriptorIsStripped(ref);
    StripIdempotent(ref);
    CopyStripped(CloneDescriptor(ref), copy);
  }

  lemma ReferenceStrips(v: Value, store: Store, database: Option<string>, depth: nat, seen: set<Target>)
    requires IsReference(v)
    ensures Strip(ExpandReference(v, store, database, depth, seen)) == Strip(v)
  {
    DescriptorStrips(v, Null);
    if depth != 0 {
      var target := TargetOf(v, database);
      if target.Some? && target.value !in seen && target.value in store {
        DescriptorStrips(v, Expand(store[target.value], store, Some(target.value.db), depth - 1, seen + {target.value}));
      }
    }
  }

  /** Stripping undoes expansion: for every store, depth and set of targets already seen. */
  lemma {:induction false} StripUndoesExpand(v: Value, store: Store, database: Option<string>, depth: nat, seen: set<Target>)
    ensures Strip(Expand(v, store, database, depth, seen)) == Strip(v)
    decreases v
  {
    match v
    case Arr(items) => StripUndoesExpandItems(items, store, database, depth, seen);
    case Obj(fields) =>
      if IsReference(v) {
        ReferenceStrips(v, store, database, depth, seen);
      } else {
        forall k | k in fields ensures Strip(Expand(fields[k], store, database, depth, seen)) == Strip(fields[k]) {
          StripUndoesExpand(fields[k], store, database, depth, seen);
        }
        PlainStrips(v, store, database, depth, seen);
      }
    case _ =>
  }

  lemma PlainStrips(v: Value, store: Store, database: Option<string>, depth: nat, seen: set<Target>)
    requires v.Obj? && !IsReference(v)
    requires forall k | k in v.fields :: Strip(Expand(v.fields[k], store, database, depth, seen)) == Strip(v.fields[k])
    ensures Strip(Expand(v, store, database, depth, seen)) == Strip(v)
  {
    ExpandKeepsPlain(v, store, database, depth, seen);
    var e := Expand(v, store, database, depth, seen);
    assert e.fields.Keys == v.fields.Keys;
    assert Strip(e).fields == Strip(v).fields;
  }

  lemma {:induction false} StripUndoesExpandItems(items: seq<Value>, store: Store, database: Option<string>, depth: nat, seen: set<Target>)
    ensures StripItems(ExpandItems(items, store, database, depth, seen)) == StripItems(items)
    decreases items
  {
    if items != [] {
      StripUndoesExpandItems(items[..|items| - 1], store, database, depth, seen);
      StripUndoesExpand(items[|items| - 1], store, database, depth, seen);
      var e := ExpandItems(items, store, database, depth, seen);
      assert e[..|items| - 1] == ExpandItems(items[..|items| - 1], store, database, depth, seen);
    }
  }

  lemma StripUndoesExpandReferences(v: Value, store: Store, database: Option<string>, depth: nat, seen: set<Target>)
    ensures Strip(ExpandReferences(v, store, database, depth, seen)) == Strip(v)
  {
    StripIdempotent(v);
    StripUndoesExpand(Strip(v), store, database, Min(depth, MAX_DEPTH), seen);
  }

  // What is found where.

  /** A step into a value: an array item, a field of a plain object, or the embedded copy of a reference. */
  datatype Hop = Item(index: nat) | Field(name: string) | Copy

  /** What is expanded at some place: which value, for which database, how deep still, after which targets. */
  datatype Place = Place(value: Value, database: Option<string>, depth: nat, seen: set<Target>)

  /** The object a reference at some place reaches: it has a target, which was not met on the way and is stored. */
  predicate Reaches(p: Place, store: Store)
    requires IsReference(p.value)
  {
    var target := TargetOf(p.value, p.database);
    target.Some? && target.value !in p.seen && target.value in store
  }

  /** Following a copy goes on in the stored object, in its database, one level less deep, with its target seen. */
  function Step(p: Place, hop: Hop, store: Store): Option<Place> {
    match hop
    case Item(i) => if p.value.Arr? && i < |p.value.items| then Some(p.(value := p.value.items[i])) else None
    case Field(k) =>
      if p.value.Obj? && !IsReference(p.value) && k in p.value.fields then Some(p.(value := p.value.fields[k])) else None
    case Copy =>
      if IsReference(p.value) && p.depth > 0 && Reaches(p, store) then
        var target := TargetOf(p.value, p.database).value;
        Some(Place(store[target], Some(target.db), p.depth - 1, p.seen + {target}))
      else None
  }

  function Walk(p: Place, hops: seq<Hop>, store: Store): Option<Place>
    decreases |hops|
  {
    if hops == [] then Some(p)
    else
      var next := Step(p, hops[0], store);
      if next.None? then None else Walk(next.value, hops[1..], store)
  }

  /** The same steps in the result. */
  function Look(e: Value, hops: seq<Hop>): Option<Value>
    decreases |hops|
  {
    if hops == [] then Some(e)
    else
      match hops[0]
      case Item(i) => if e.Arr? && i < |e.items| then Look(e.items[i], hops[1..]) else None
      case Field(k) => if e.Obj? && k in e.fields then Look(e.fields[k], hops[1..]) else None
      case Copy => if e.Obj? && "object" in e.fields then Look(e.fields["object"], hops[1..]) else None
  }

  /**
   * What stands for a value: a reference keeps its fields, stripped, and gets an `object` while there is
   * depth, which is the stored object up to further copies, or null if the reference reaches none;
   * arrays and plain objects keep their shape, and anything else is itself.
   */
  ghost predicate StandsFor(e: Value, p: Place, store: Store) {
    if p.value.Obj? && IsReference(p.value) then
      && e.Obj?
      && (forall k | k != "object" :: k in e.fields <==> k in p.value.fields)
      && (forall k | k != "object" && k in p.value.fields :: e.fields[k] == Strip(p.value.fields[k]))
      && ("object" in e.fields <==> p.depth > 0)
      && (p.depth > 0 ==>
            if Reaches(p, store) then Strip(e.fields["object"]) == Strip(store[TargetOf(p.value, p.database).value])
            else e.fields["object"] == Null)
    else if p.value.Obj? then e.Obj? && e.fields.Keys == p.value.fields.Keys
    else if p.value.Arr? then e.Arr? && |e.items| == |p.value.items|
    else e == p.value
  }

  function ExpandAt(p: Place, store: Store): Value {
    Expand(p.value, store, p.database, p.depth, p.seen)
  }

  lemma ReferenceStands(p: Place, store: Store)
    requires IsReference(p.value)
    ensures StandsFor(ExpandAt(p, store), p, store)
  {
    assert ExpandAt(p, store) == ExpandReference(p.value, store, p.database, p.depth, p.seen);
    if p.depth > 0 && Reaches(p, store) {
      var target := TargetOf(p.value, p.database).value;
      StripUndoesExpand(store[target], store, Some(target.db), p.depth - 1, p.seen + {target});
    }
  }

  lemma {:induction false} ExpandItemAt(items: seq<Value>, store: Store, database: Option<string>, depth: nat, seen: set<Target>, i: nat)
    requires i < |items|
    ensures ExpandItems(items, store, database, depth, seen)[i] == Expand(items[i], store, database, depth, seen)
    decreases items
  {
    if i < |items| - 1 {
      ExpandItemAt(items[..|items| - 1], store, database, depth, seen, i);
    }
  }

  /** At every place that is walked to, the result is that place expanded. */
  lemma {:induction false} WalkExpands(p: Place, hops: seq<Hop>, store: Store)
    requires Walk(p, hops, store).Some?
    ensures Look(ExpandAt(p, store), hops) == Some(ExpandAt(Walk(p, hops, store).value, store))
    decreases |hops|
  {
    if hops != [] {
      var next := Step(p, hops[0], store).value;
      WalkExpands(next, hops[1..], store);
      match hops[0]
      case Item(i) => ExpandItemAt(p.value.items, store, p.database, p.depth, p.seen, i);
      case Field(_) =>
      case Copy => assert ExpandAt(p, store) == ExpandReference(p.value, store, p.database, p.depth, p.seen);
    }
  }

  lemma PlaceStands(p: Place, store: Store)
    ensures StandsFor(ExpandAt(p, store), p, store)
  {
    if p.value.Obj? && IsReference(p.value) {
      ReferenceStands(p, store);
    }
  }

  /** Expansion puts the right thing at every place: in arrays, plain objects and embedded copies. */
  lemma ExpandStands(p: Place, hops: seq<Hop>, store: Store)
    requires Walk(p, hops, store).Some?
    ensures Look(ExpandAt(p, store), hops).Some? && StandsFor(Look(ExpandAt(p, store), hops).value, Walk(p, hops, store).value, store)
  {
    WalkExpands(p, hops, store);
    PlaceStands(Walk(p, hops, store).value, store);
  }

  lemma {:induction false} StrippedAtNoDepth(v: Value, store: Store, database: Option<string>, seen: set<Target>)
    ensures Expand(Strip(v), store, database, 0, seen) == Strip(v)
    decreases v
  {
    StripKeepsReference(v);
    match v
    case Arr(items) => StrippedItemsAtNoDepth(items, store, database, seen);
    case Obj(fields) =>
      if IsReference(v) {
        DescriptorIsStripped(v);
        DescriptorIsStripped(Strip(v));
        StripIdempotent(v);
      } else {
        forall k | k in fields ensures Expand(Strip(fields[k]), store, database, 0, seen) == Strip(fields[k]) {
          StrippedAtNoDepth(fields[k], store, database, seen);
        }
      }
    case _ =>
  }

  lemma {:induction false} StrippedItemsAtNoDepth(items: seq<Value>, store: Store, database: Option<string>, seen: set<Target>)
    ensures ExpandItems(StripItems(items), store, database, 0, seen) == StripItems(items)
    decreases items
  {
    if items != [] {
      StrippedItemsAtNoDepth(items[..|items| - 1], store, database, seen);
      StrippedAtNoDepth(items[|items| - 1], store, database, seen);
      assert StripItems(items)[..|items| - 1] == StripItems(items[..|items| - 1]);
    }
  }

  /** Values without references are neither stripped nor expanded: the early return loses nothing. */
  lemma {:induction false} NoReferenceUnchanged(v: Value, store: Store, database: Option<string>, depth: nat, seen: set<Target>)
    requires !HasReference(v)
    ensures Strip(v) == v && Expand(v, store, database, depth, seen) == v
    decreases v
  {
    match v
    case Arr(items) => NoReferenceItems(items, store, database, depth, seen);
    case Obj(fields) =>
      forall k | k in fields ensures Strip(fields[k]) == fields[k] && Expand(fields[k], store, database, depth, seen) == fields[k] {
        NoReferenceUnchanged(fields[k], store, database, depth, seen);
      }
    case _ =>
  }

  lemma {:induction false} NoReferenceItems(items: seq<Value>, store: Store, database: Option<string>, depth: nat, seen: set<Target>)
    requires !ItemsHaveReference(items)
    ensures StripItems(items) == items && ExpandItems(items, store, database, depth, seen) == items
    decreases items
  {
    hide Strip, Expand, HasReference;
    if items != [] {
      NoReferenceItems(items[..|items| - 1], store, database, depth, seen);
      NoReferenceUnchanged(items[|items| - 1], store, database, depth, seen);
    }
  }

  // Depth.

  /** Copies are nested in copies at most `d` deep. */
  predicate CopiesWithin(v: Value, d: nat)
    decreases v
  {
    match v
    case Arr(items) => ItemsCopiesWithin(items, d)
    case Obj(fields) =>
      forall k | k in fields ::
        if IsReference(v) && k == "object" && fields[k] != Null then d > 0 && CopiesWithin(fields[k], d - 1)
        else CopiesWithin(fields[k], d)
    case _ => true
  }

  predicate ItemsCopiesWithin(items: seq<Value>, d: nat)
    decreases items
  {
    items != [] ==> ItemsCopiesWithin(items[..|items| - 1], d) && CopiesWithin(items[|items| - 1], d)
  }

  lemma {:induction false} StrippedHasNoCopies(v: Value, d: nat)
    ensures CopiesWithin(Strip(v), d)
    decreases v
  {
    StripKeepsReference(v);
    match v
    case Arr(items) => StrippedItemsHaveNoCopies(items, d);
    case Obj(fields) =>
      forall k | k in fields ensures CopiesWithin(Strip(fields[k]), d) {
        StrippedHasNoCopies(fields[k], d);
      }
    case _ =>
  }

  lemma {:induction false} StrippedItemsHaveNoCopies(items: seq<Value>, d: nat)
    ensures ItemsCopiesWithin(StripItems(items), d)
    decreases items
  {
    if items != [] {
      StrippedItemsHaveNoCopies(items[..|items| - 1], d);
      StrippedHasNoCopies(items[|items| - 1], d);
      assert StripItems(items)[..|items| - 1] == StripItems(items[..|items| - 1]);
    }
  }

  lemma DescriptorCopies(ref: Value, copy: Value, d: nat)
    requires IsReference(ref)
    ensures CopiesWithin(CloneDescriptor(ref), d)
    ensures copy == Null || (d > 0 && CopiesWithin(copy, d - 1)) ==> CopiesWithin(WithObject(CloneDescriptor(ref), copy), d)
  {
    var clean := CloneDescriptor(ref);
    forall k | k in clean.fields ensures CopiesWithin(clean.fields[k], d) {
      StrippedHasNoCopies(ref.fields[k], d);
    }
    assert clean == Strip(ref);
    StripKeepsReference(ref);
    assert IsReference(WithObject(clean, copy));
  }

  /** On any store, cyclic or not, expansion to a depth nests copies no deeper. */
  lemma {:induction false} ExpandWithinDepth(v: Value, store: Store, database: Option<string>, depth: nat, seen: set<Target>)
    ensures CopiesWithin(Expand(v, store, database, depth, seen), depth)
    decreases depth, v
  {
    match v
    case Arr(items) => ExpandItemsWithinDepth(items, store, database, depth, seen);
    case Obj(fields) =>
      if IsReference(v) {
        DescriptorCopies(v, Null, depth);
        if depth != 0 {
          var target := TargetOf(v, database);
          if target.Some? && target.value !in seen && target.value in store {
            ExpandWithinDepth(store[target.value], store, Some(target.value.db), depth - 1, seen + {target.value});
            DescriptorCopies(v, Expand(store[target.value], store, Some(target.value.db), depth - 1, seen + {target.value}), depth);
          }
        }
      } else {
        ExpandKeepsPlain(v, store, database, depth, seen);
        forall k | k in fields ensures CopiesWithin(Expand(fields[k], store, database, depth, seen), depth) {
          ExpandWithinDepth(fields[k], store, database, depth, seen);
        }
      }
    case _ =>
  }

  lemma {:induction false} ExpandItemsWithinDepth(items: seq<Value>, store: Store, database: Option<string>, depth: nat, seen: set<Target>)
    ensures ItemsCopiesWithin(ExpandItems(items, store, database, depth, seen), depth)
    decreases depth, items
  {
    if items != [] {
      ExpandItemsWithinDepth(items[..|items| - 1], store, database, depth, seen);
      ExpandWithinDepth(items[|items| - 1], store, database, depth, seen);
      var e := ExpandItems(items, store, database, depth, seen);
      assert e[..|items| - 1] == ExpandItems(items[..|items| - 1], store, database, depth, seen);
    }
  }

  // The loops.

  /**
   * Strip with change tracking: an unchanged value is answered as it is, and `hasReference` tells
   * whether there is a reference anywhere.
   */
  method StripReferenceObjects(v: Value) returns (out: Value, changed: bool, hasReference: bool)
    ensures out == Strip(v) && hasReference == HasReference(v)
    ensures !changed ==> out == v
    decreases v
  {
    if v.Arr? {
      var items: seq<Value> := [];
      changed, hasReference := false, false;
      for i := 0 to |v.items|
        invariant items == StripItems(v.items[..i]) && hasReference == ItemsHaveReference(v.items[..i])
        invariant !changed ==> items == v.items[..i]
      {
        assert v.items[..i + 1][..i] == v.items[..i];
        var stripped, itemChanged, found := StripReferenceObjects(v.items[i]);
        items, changed, hasReference := items + [stripped], changed || itemChanged, hasReference || found;
      }
      assert v.items[..|v.items|] == v.items;
      out := Arr(items);
    } else if v.Obj? {
      out, changed, hasReference := StripFields(v);
    } else {
      out, changed, hasReference := v, false, false;
    }
  }

  method StripFields(v: Value) returns (out: Value, changed: bool, hasReference: bool)
    requires v.Obj?
    ensures out == Strip(v) && hasReference == HasReference(v)
    ensures !changed ==> out == v
    decreases v, 0
  {
    var reference := IsReference(v);
    var fields: map<string, Value> := map[];
    changed, hasReference := false, reference;
    var left := v.fields.Keys;
    while left != {}
      invariant left <= v.fields.Keys
      invariant FieldsStripped(v, v.fields.Keys - left, fields)
      invariant hasReference <==> reference || exists k :: k in v.fields.Keys - left && HasReference(v.fields[k])
      invariant !changed ==> fields.Keys == v.fields.Keys - left && forall k | k in fields :: fields[k] == v.fields[k]
      decreases left
    {
      var k :| k in left;
      left := left - {k};
      if reference && k == "object" {
        changed := true;
        continue;
      }
      var stripped, itemChanged, found := StripReferenceObjects(v.fields[k]);
      fields, changed, hasReference := fields[k := stripped], changed || itemChanged, hasReference || found;
    }
    out := Obj(fields);
  }

  /** The stripped fields so far. */
  ghost predicate FieldsStripped(v: Value, done: set<string>, fields: map<string, Value>)
    requires v.Obj? && done <= v.fields.Keys
  {
    && (forall k :: k in fields <==> k in done && !(IsReference(v) && k == "object"))
    && (forall k | k in fields :: fields[k] == Strip(v.fields[k]))
  }

  /** The entry point does so from the stripped value, to the given depth but eight at most. */
  lemma ExpandReferencesStands(v: Value, store: Store, database: Option<string>, depth: nat, seen: set<Target>, hops: seq<Hop>)
    requires Walk(Place(Strip(v), database, if depth < 8 then depth else 8, seen), hops, store).Some?
    ensures var start := Place(Strip(v), database, if depth < 8 then depth else 8, seen);
            var found := Look(ExpandReferences(v, store, database, depth, seen), hops);
            found.Some? && StandsFor(found.value, Walk(start, hops, store).value, store)
  {
    var start := Place(Strip(v), database, if depth < 8 then depth else 8, seen);
    ExpandStands(start, hops, store);
    if depth == 0 {
      StrippedAtNoDepth(v, store, database, seen);
    } else if !HasReference(v) {
      NoReferenceUnchanged(v, store, database, start.depth, seen);
    }
    assert ExpandReferences(v, store, database, depth, seen) == ExpandAt(start, store);
  }
}
