/**
 * The object store (src/object-store.js): rows by id, with a directory of shared values that counts
 * its references and a bounded memory of values seen once.
 */
module ObjectStores {
  import opened Wrappers

  datatype Limits = Limits(
    minRefs: nat, maxEntries: nat, maxCandidates: nat, maxCandidatesPerPath: nat, maxPaths: nat,
    maxStringLength: nat, maxKeyBytes: nat, poolStructuredValues: bool, maxNestedContainerEntries: nat)

  datatype Pooled = Pooled(value: Value, refs: nat)

  datatype Candidate = Candidate(key: Value, count: nat)

  /** The candidates of one path, oldest first. */
  datatype PathEntry = PathEntry(path: string, entries: seq<Candidate>)

  // The pool.

  function Refs(pool: map<Value, Pooled>, key: Value): nat {
    if key in pool then pool[key].refs else 0
  }

  ghost predicate PoolOk(pool: map<Value, Pooled>) {
    forall k | k in pool :: pool[k].value == k && pool[k].refs >= 1
  }

  /** The reference counts grew by exactly the listed keys. */
  ghost predicate Grew(before: map<Value, Pooled>, after: map<Value, Pooled>, refs: seq<Value>) {
    forall k {:trigger Refs(after, k)} :: Refs(after, k) == Refs(before, k) + multiset(refs)[k]
  }

  lemma GrewTwice(a: map<Value, Pooled>, b: map<Value, Pooled>, c: map<Value, Pooled>, r: seq<Value>, s: seq<Value>)
    requires Grew(a, b, r) && Grew(b, c, s)
    ensures Grew(a, c, r + s)
  {
    forall k ensures Refs(c, k) == Refs(a, k) + multiset(r + s)[k] {
      assert Refs(c, k) == Refs(b, k) + multiset(s)[k];
      assert Refs(b, k) == Refs(a, k) + multiset(r)[k];
    }
  }

  // Candidates.

  function Total(paths: seq<PathEntry>): nat {
    if paths == [] then 0 else Total(paths[..|paths| - 1]) + |paths[|paths| - 1].entries|
  }

  lemma {:induction false} TotalUpdate(paths: seq<PathEntry>, i: nat, p: PathEntry)
    requires i < |paths|
    ensures Total(paths[i := p]) == Total(paths) - |paths[i].entries| + |p.entries|
    ensures |paths[i].entries| <= Total(paths)
  {
    var n := |paths| - 1;
    if i < n {
      assert paths[i := p][..n] == paths[..n][i := p];
      TotalUpdate(paths[..n], i, p);
    } else {
      assert paths[i := p][..n] == paths[..n];
    }
  }

  lemma {:induction false} NoneLeft(paths: seq<PathEntry>)
    requires forall i | 0 <= i < |paths| :: paths[i].entries == []
    ensures Total(paths) == 0
  {
    if paths != [] {
      NoneLeft(paths[..|paths| - 1]);
    }
  }

  predicate DistinctKeys(entries: seq<Candidate>) {
    forall i, j | 0 <= i < j < |entries| :: entries[i].key != entries[j].key
  }

  predicate EntryOk(limits: Limits, p: PathEntry) {
    |p.entries| <= limits.maxCandidatesPerPath && DistinctKeys(p.entries)
  }

  /** The running count is exact and every bound holds. */
  ghost predicate CandidatesOk(limits: Limits, paths: seq<PathEntry>, count: int) {
    && count == Total(paths) && count <= limits.maxCandidates
    && |paths| <= limits.maxPaths
    && (forall i {:trigger paths[i]} | 0 <= i < |paths| :: EntryOk(limits, paths[i]))
    && (forall i, j | 0 <= i < j < |paths| :: paths[i].path != paths[j].path)
  }

  function FindPath(paths: seq<PathEntry>, path: string): (i: nat)
    ensures i <= |paths|
    ensures i < |paths| ==> paths[i].path == path
    ensures i == |paths| ==> forall k | 0 <= k < |paths| :: paths[k].path != path
  {
    if paths == [] then 0
    else if paths[0].path == path then 0
    else FindPath(paths[1..], path) + 1
  }

  function FindKey(entries: seq<Candidate>, key: Value): (i: nat)
    ensures i <= |entries|
    ensures i < |entries| ==> entries[i].key == key
    ensures i == |entries| ==> forall k | 0 <= k < |entries| :: entries[k].key != key
  {
    if entries == [] then 0
    else if entries[0].key == key then 0
    else FindKey(entries[1..], key) + 1
  }

  function CountIn(entries: seq<Candidate>, key: Value): nat {
    var at := FindKey(entries, key);
    if at < |entries| then entries[at].count else 0
  }

  /** How often a value is remembered to have been seen at a path. */
  function CountAt(paths: seq<PathEntry>, path: string, key: Value): nat {
    var i := FindPath(paths, path);
    if i < |paths| then CountIn(paths[i].entries, key) else 0
  }

  /** Every other count is as it was, or forgotten. */
  ghost predicate OthersForgotten(before: seq<PathEntry>, after: seq<PathEntry>, path: string, key: Value) {
    forall p, k {:trigger CountAt(after, p, k)} | (p, k) != (path, key) ::
      CountAt(after, p, k) == CountAt(before, p, k) || CountAt(after, p, k) == 0
  }

  /** Only this count changed. */
  ghost predicate OnlyCount(before: seq<PathEntry>, after: seq<PathEntry>, path: string, key: Value, count: nat) {
    forall p, k {:trigger CountAt(after, p, k)} :: CountAt(after, p, k) == if (p, k) == (path, key) then count else CountAt(before, p, k)
  }

  ghost predicate SameCounts(before: seq<PathEntry>, after: seq<PathEntry>) {
    forall p, k {:trigger CountAt(after, p, k)} :: CountAt(after, p, k) == CountAt(before, p, k)
  }

  lemma PathFound(paths: seq<PathEntry>, i: nat)
    requires i < |paths| && forall i, j | 0 <= i < j < |paths| :: paths[i].path != paths[j].path
    ensures FindPath(paths, paths[i].path) == i
  {
  }

  lemma KeyFound(entries: seq<Candidate>, at: nat)
    requires at < |entries| && DistinctKeys(entries)
    ensures FindKey(entries, entries[at].key) == at
  {
  }

  /** One path's candidates replaced: the counts of the others stay. */
  lemma CountUpdate(limits: Limits, paths: seq<PathEntry>, count: int, i: nat, q: PathEntry, p: string, k: Value)
    requires CandidatesOk(limits, paths, count) && i < |paths| && q.path == paths[i].path
    ensures CountAt(paths[i := q], p, k) == if p == q.path then CountIn(q.entries, k) else CountAt(paths, p, k)
    ensures CountAt(paths, q.path, k) == CountIn(paths[i].entries, k)
  {
    PathFound(paths, i);
    PathFound(paths[i := q], i);
    if p != q.path {
      var j := FindPath(paths, p);
      if j < |paths| {
        PathFound(paths[i := q], j);
      } else {
        assert FindPath(paths[i := q], p) == |paths|;
      }
    }
  }

  lemma CountAppend(paths: seq<PathEntry>, path: string)
    requires FindPath(paths, path) == |paths|
    ensures SameCounts(paths, paths + [PathEntry(path, [])])
  {
    var more := paths + [PathEntry(path, [])];
    forall p, k ensures CountAt(more, p, k) == CountAt(paths, p, k) {
      var i, j := FindPath(paths, p), FindPath(more, p);
      if i < |paths| {
        FindFirst(paths, more, p);
      } else if j < |more| {
        assert forall n | 0 <= n < |paths| :: more[n] == paths[n];
        assert more[j].entries == [];
      }
    }
  }

  lemma {:induction false} FindFirst(paths: seq<PathEntry>, more: seq<PathEntry>, p: string)
    requires FindPath(paths, p) < |paths| <= |more| && more[..|paths|] == paths
    ensures FindPath(more, p) == FindPath(paths, p) && more[FindPath(paths, p)] == paths[FindPath(paths, p)]
  {
    assert more[0] == paths[0];
    if paths[0].path != p {
      assert more[1..][..|paths[1..]|] == paths[1..];
      FindFirst(paths[1..], more[1..], p);
    }
  }

  /** Where a key is counted, the candidate is there; elsewhere the count is none. */
  lemma CountIs(entries: seq<Candidate>, at: nat, key: Value)
    requires DistinctKeys(entries)
    ensures at < |entries| && entries[at].key == key ==> CountIn(entries, key) == entries[at].count
    ensures (forall i | 0 <= i < |entries| :: entries[i].key != key) ==> CountIn(entries, key) == 0
  {
    if at < |entries| && entries[at].key == key {
      KeyFound(entries, at);
    }
  }

  /** Part of `entries` counts each key as `entries` does, or not at all. */
  lemma CountPart(part: seq<Candidate>, entries: seq<Candidate>, key: Value)
    requires DistinctKeys(part) && DistinctKeys(entries) && forall c | c in part :: c in entries
    ensures CountIn(part, key) == CountIn(entries, key) || CountIn(part, key) == 0
    ensures (forall c | c in entries && c.key == key :: c in part) ==> CountIn(part, key) == CountIn(entries, key)
  {
    var at := FindKey(part, key);
    if at < |part| {
      assert part[at] in part;
      var j :| 0 <= j < |entries| && entries[j] == part[at];
      CountIs(entries, j, key);
    } else {
      var j := FindKey(entries, key);
      assert j < |entries| ==> entries[j] in entries;
    }
  }

  class ValueDirectory {
    const limits: Limits
    const enabled: bool
    const keyBytes: Value -> nat
    var pool: map<Value, Pooled>
    var pathCandidates: seq<PathEntry>
    var candidateCount: int

    ghost predicate Valid()
      reads this
    {
      && PoolOk(pool) && |pool| <= limits.maxEntries
      && CandidatesOk(limits, pathCandidates, candidateCount)
    }

    constructor (limits: Limits, enabled: bool, keyBytes: Value -> nat)
      ensures Valid() && this.limits == limits && pool == map[]
    {
      this.limits, this.enabled, this.keyBytes := limits, enabled, keyBytes;
      pool, pathCandidates, candidateCount := map[], [], 0;
    }

    /** A value seen often enough at a path, counting this time, while there is room. */
    predicate Earned(path: string, key: Value)
      reads this
    {
      && |pool| < limits.maxEntries && Tracked(path)
      && CountAt(pathCandidates, Named(path), key) + 1 >= limits.minRefs
    }

    lemma EarnedMeans(path: string, key: Value)
      ensures Earned(path, key) <==>
                var name := if path == "" then "$" else path;
                && |pool| < limits.maxEntries && CountAt(pathCandidates, name, key) + 1 >= limits.minRefs
                && (|pathCandidates| < limits.maxPaths || exists i :: 0 <= i < |pathCandidates| && pathCandidates[i].path == name)
    {
    }

    /** The path has its candidates, or may get them. */
    predicate Tracked(path: string)
      reads this
    {
      FindPath(pathCandidates, Named(path)) < |pathCandidates| || |pathCandidates| < limits.maxPaths
    }

    /** Short texts are pooled, and small containers when so configured. */
    predicate Poolable(v: Value) {
      if v.Str? then |v.s| <= limits.maxStringLength
      else limits.poolStructuredValues && (v.Arr? || v.Obj?) && keyBytes(v) <= limits.maxKeyBytes
    }

    method CandidatesForPath(path: string) returns (found: bool, i: nat)
      requires Valid()
      modifies `pathCandidates
      ensures Valid() && SameCounts(old(pathCandidates), pathCandidates)
      ensures found == old(Tracked(path))
      ensures found ==> i < |pathCandidates| && pathCandidates[i].path == Named(path)
    {
      i := FindPath(pathCandidates, Named(path));
      if i < |pathCandidates| {
        return true, i;
      }
      if |pathCandidates| >= limits.maxPaths {
        return false, 0;
      }
      CountAppend(pathCandidates, Named(path));
      assert (pathCandidates + [PathEntry(Named(path), [])])[..|pathCandidates|] == pathCandidates;
      pathCandidates := pathCandidates + [PathEntry(Named(path), [])];
      found := true;
    }

    method DropFirst(i: nat)
      requires Valid() && i < |pathCandidates| && pathCandidates[i].entries != []
      modifies `pathCandidates, `candidateCount
      ensures Valid() && candidateCount == old(candidateCount) - 1
      ensures pathCandidates == old(pathCandidates)[i := WithoutFirst(old(pathCandidates)[i])]
      ensures OnlyCount(old(pathCandidates), pathCandidates, old(pathCandidates)[i].path, old(pathCandidates)[i].entries[0].key, 0)
    {
      DropFirstKeeps(limits, pathCandidates, candidateCount, i);
      RemoveCounts(limits, pathCandidates, candidateCount, i, 0);
      pathCandidates := pathCandidates[i := WithoutFirst(pathCandidates[i])];
      candidateCount := candidateCount - 1;
    }

    /** Forget the oldest candidate of the first path that has one. */
    method DropOldest() returns (dropped: bool)
      requires Valid()
      modifies `pathCandidates, `candidateCount
      ensures Valid() && |pathCandidates| == |old(pathCandidates)|
      ensures dropped <==> old(candidateCount) > 0
      ensures dropped ==> candidateCount == old(candidateCount) - 1
      ensures dropped ==> OldestForgotten(old(pathCandidates), pathCandidates)
      ensures !dropped ==> candidateCount == 0 && pathCandidates == old(pathCandidates)
      ensures forall k | 0 <= k < |pathCandidates| :: pathCandidates[k].path == old(pathCandidates)[k].path && ListedIn(pathCandidates[k], old(pathCandidates)[k])
    {
      for i := 0 to |pathCandidates|
        invariant pathCandidates == old(pathCandidates) && candidateCount == old(candidateCount)
        invariant forall k | 0 <= k < i :: pathCandidates[k].entries == []
      {
        if pathCandidates[i].entries != [] {
          assert OldestOf(pathCandidates, i);
          TotalUpdate(pathCandidates, i, pathCandidates[i]);
          DropFirst(i);
          return true;
        }
      }
      NoneLeft(pathCandidates);
      dropped := false;
    }

    method MakeRoom(i: nat, ghost key: Value)
      requires Valid() && i < |pathCandidates| && limits.maxCandidates > 0 && Lacks(pathCandidates[i], key)
      modifies `pathCandidates, `candidateCount
      ensures Valid() && |pathCandidates| == |old(pathCandidates)| && candidateCount < limits.maxCandidates
      ensures pathCandidates[i].path == old(pathCandidates)[i].path && Lacks(pathCandidates[i], key)
      ensures if old(candidateCount) < limits.maxCandidates
              then pathCandidates == old(pathCandidates) && candidateCount == old(candidateCount)
              else candidateCount == old(candidateCount) - 1
      ensures OthersForgotten(old(pathCandidates), pathCandidates, old(pathCandidates)[i].path, key)
    {
      hide CandidatesOk, CountAt;
      assert candidateCount <= limits.maxCandidates by {
        CountBounded(limits, pathCandidates, candidateCount);
      }
      var more := true;
      while candidateCount >= limits.maxCandidates && more
        invariant Valid() && more && |pathCandidates| == |old(pathCandidates)|
        invariant pathCandidates[i].path == old(pathCandidates)[i].path && Lacks(pathCandidates[i], key)
        invariant if candidateCount == old(candidateCount) then pathCandidates == old(pathCandidates)
                  else candidateCount == old(candidateCount) - 1 && old(candidateCount) == limits.maxCandidates
        invariant OthersForgotten(old(pathCandidates), pathCandidates, old(pathCandidates)[i].path, key)
        decreases candidateCount
      {
        ghost var before := pathCandidates;
        more := DropOldest();
        LacksKept(pathCandidates[i], before[i], key);
      }
    }

    /**
     * Remember how often a value was seen; the oldest make room for it.  At most two others are
     * forgotten, and none when there is room.
     */
    method Remember(i: nat, key: Value, count: nat)
      requires Valid() && i < |pathCandidates|
      modifies `pathCandidates, `candidateCount
      ensures Valid()
      ensures if limits.maxCandidates > 0 && limits.maxCandidatesPerPath > 0
              then CountAt(pathCandidates, old(pathCandidates)[i].path, key) == count
              else pathCandidates == old(pathCandidates)
      ensures OthersForgotten(old(pathCandidates), pathCandidates, old(pathCandidates)[i].path, key)
      ensures candidateCount >= old(candidateCount) - 1
      ensures limits.maxCandidates > 0 && old(candidateCount) < limits.maxCandidates && |old(pathCandidates)[i].entries| < limits.maxCandidatesPerPath ==>
                OnlyCount(old(pathCandidates), pathCandidates, old(pathCandidates)[i].path, key, count)
    {
      if limits.maxCandidates <= 0 || limits.maxCandidatesPerPath <= 0 {
        return;
      }
      var at := FindKey(pathCandidates[i].entries, key);
      if at < |pathCandidates[i].entries| {
        Recount(limits, pathCandidates, candidateCount, i, at, count);
        RecountCounts(limits, pathCandidates, candidateCount, i, at, count);
        pathCandidates := pathCandidates[i := pathCandidates[i].(entries := pathCandidates[i].entries[at := Candidate(key, count)])];
        return;
      }
      MakeRoom(i, key);
      if |pathCandidates[i].entries| >= limits.maxCandidatesPerPath {
        DropFirst(i);
      }
      if candidateCount < limits.maxCandidates && |pathCandidates[i].entries| < limits.maxCandidatesPerPath {
        AddKeeps(limits, pathCandidates, candidateCount, i, Candidate(key, count));
        AddCounts(limits, pathCandidates, candidateCount, i, Candidate(key, count));
        pathCandidates := pathCandidates[i := pathCandidates[i].(entries := pathCandidates[i].entries + [Candidate(key, count)])];
        candidateCount := candidateCount + 1;
      }
    }

    method DeleteCandidate(path: string, key: Value)
      requires Valid()
      modifies `pathCandidates, `candidateCount
      ensures Valid() && OnlyCount(old(pathCandidates), pathCandidates, Named(path), key, 0)
    {
      var i := FindPath(pathCandidates, Named(path));
      if i == |pathCandidates| {
        return;
      }
      var at := FindKey(pathCandidates[i].entries, key);
      if at == |pathCandidates[i].entries| {
        return;
      }
      RemoveKeeps(limits, pathCandidates, candidateCount, i, at);
      RemoveCounts(limits, pathCandidates, candidateCount, i, at);
      pathCandidates := pathCandidates[i := RemoveAt(pathCandidates[i], at)];
      candidateCount := candidateCount - 1;
    }

    /** A value seen often enough at a path earns a place in the pool; otherwise it is remembered once more. */
    method ShouldPromote(path: string, key: Value) returns (promote: bool)
      requires Valid()
      modifies `pathCandidates, `candidateCount
      ensures Valid() && promote == old(Earned(path, key))
      ensures promote ==> SameCounts(old(pathCandidates), pathCandidates)
      ensures !promote && |pool| < limits.maxEntries && old(Tracked(path)) && limits.maxCandidates > 0 && limits.maxCandidatesPerPath > 0 ==>
                CountAt(pathCandidates, Named(path), key) == old(CountAt(pathCandidates, Named(path), key)) + 1
      ensures OthersForgotten(old(pathCandidates), pathCandidates, Named(path), key)
    {
      if |pool| >= limits.maxEntries {
        return false;
      }
      var found, i := CandidatesForPath(path);
      if !found {
        return false;
      }
      PathFound(pathCandidates, i);
      assert CountAt(pathCandidates, Named(path), key) == old(CountAt(pathCandidates, Named(path), key));
      var at := FindKey(pathCandidates[i].entries, key);
      var count := (if at < |pathCandidates[i].entries| then pathCandidates[i].entries[at].count else 0) + 1;
      if count >= limits.minRefs {
        return true;
      }
      Remember(i, key, count);
      promote := false;
    }

    /** A container whose parts are stored one by one. */
    predicate Nests(value: Value, trusted: bool) {
      && !(trusted && !limits.poolStructuredValues)
      && ((value.Arr? && |value.items| <= limits.maxNestedContainerEntries) || (value.Obj? && |value.fields| <= limits.maxNestedContainerEntries))
    }

    /** Every key handed back is the value or part of it, and a short text or a small container. */
    ghost predicate RefsWithin(refs: seq<Value>, value: Value) {
      AllInside(refs, value) &&
      forall r | r in refs ::
        if r.Str? then |r.s| <= limits.maxStringLength
        else (r.Arr? || r.Obj?) && limits.poolStructuredValues && keyBytes(r) <= limits.maxKeyBytes
    }

    /**
     * Store a value: what is kept equals it, the pool's counts grow by exactly the keys handed back,
     * and a poolable value that is in the pool or has earned its place is shared as a whole.
     */
    method Store(value: Value, path: string, trusted: bool) returns (stored: Value, refs: seq<Value>)
      requires Valid()
      modifies this
      ensures Valid() && stored == value && Grew(old(pool), pool, refs) && RefsWithin(refs, value)
      ensures !enabled ==> refs == []
      ensures var short := value.Str? && |value.s| <= limits.maxStringLength;
              var small := limits.poolStructuredValues && (value.Arr? || value.Obj?) && keyBytes(value) <= limits.maxKeyBytes;
              enabled && (short || small) && (value in old(pool) || old(Earned(path, value))) ==> refs == [value]
      decreases value, 2
    {
      if !enabled {
        return value, [];
      }
      if Poolable(value) {
        if value in pool {
          stored := pool[value].value;
          pool := pool[value := pool[value].(refs := pool[value].refs + 1)];
          refs := [value];
          return;
        }
        var promote := ShouldPromote(path, value);
        if promote {
          pool := pool[value := Pooled(value, 1)];
          DeleteCandidate(path, value);
          return value, [value];
        }
      }
      stored, refs := StoreNested(value, path, trusted);
    }

    /** Containers of moderate size are stored piece by piece; pieces in the pool are shared. */
    method StoreNested(value: Value, path: string, trusted: bool) returns (stored: Value, refs: seq<Value>)
      requires Valid()
      modifies this
      ensures Valid() && stored == value && Grew(old(pool), pool, refs) && RefsWithin(refs, value)
      ensures !Nests(value, trusted) ==> refs == []
      ensures enabled && Nests(value, trusted) ==> forall x | Part(x, value) && Poolable(x) && x in old(pool) :: x in refs
      ensures Nests(value, trusted) <==>
                && (limits.poolStructuredValues || !trusted) && (value.Arr? || value.Obj?)
                && (if value.Arr? then |value.items| else |value.fields|) <= limits.maxNestedContainerEntries
      decreases value, 1
    {
      if trusted && !limits.poolStructuredValues {
        return value, [];
      }
      if value.Arr? && |value.items| <= limits.maxNestedContainerEntries {
        var items;
        items, refs := StoreItems(value, path, trusted);
        stored := Arr(items);
      } else if value.Obj? && |value.fields| <= limits.maxNestedContainerEntries {
        var fields;
        fields, refs := StoreEntries(value, path, trusted);
        stored := Obj(fields);
      } else {
        stored, refs := value, [];
      }
    }

    method StoreItems(value: Value, path: string, trusted: bool) returns (items: seq<Value>, refs: seq<Value>)
      requires Valid() && value.Arr?
      modifies this
      ensures Valid() && items == value.items && Grew(old(pool), pool, refs) && RefsWithin(refs, value)
      ensures enabled ==> forall x | x in value.items && Poolable(x) && x in old(pool) :: x in refs
      decreases value, 0
    {
      items, refs := [], [];
      for i := 0 to |value.items|
        invariant items == value.items[..i]
        invariant Valid() && Grew(old(pool), pool, refs) && RefsWithin(refs, value)
        invariant enabled ==> forall k | 0 <= k < i && Poolable(value.items[k]) && value.items[k] in old(pool) :: value.items[k] in refs
      {
        ghost var before := pool;
        var item, more := Store(value.items[i], path + "[]", trusted);
        GrewTwice(old(pool), before, pool, refs, more);
        GrewKeeps(old(pool), before, refs, value.items[i]);
        InsidePart(refs, more, value, value.items[i]);
        items, refs := items + [item], refs + more;
      }
    }

    method StoreEntries(value: Value, path: string, trusted: bool) returns (fields: map<string, Value>, refs: seq<Value>)
      requires Valid() && value.Obj?
      modifies this
      ensures Valid() && fields == value.fields && Grew(old(pool), pool, refs) && RefsWithin(refs, value)
      ensures enabled ==> forall x | x in value.fields.Values && Poolable(x) && x in old(pool) :: x in refs
      decreases value, 0
    {
      fields, refs := map[], [];
      var left := value.fields.Keys;
      while left != {}
        invariant left <= value.fields.Keys && Valid() && Grew(old(pool), pool, refs) && RefsWithin(refs, value)
        invariant fields.Keys == value.fields.Keys - left && forall k | k in fields :: fields[k] == value.fields[k]
        invariant enabled ==> forall k | k in value.fields && k !in left && Poolable(value.fields[k]) && value.fields[k] in old(pool) :: value.fields[k] in refs
        decreases left
      {
        var k :| k in left;
        left := left - {k};
        ghost var before := pool;
        var item, more := Store(value.fields[k], path + "." + k, trusted);
        GrewTwice(old(pool), before, pool, refs, more);
        GrewKeeps(old(pool), before, refs, value.fields[k]);
        InsidePart(refs, more, value, value.fields[k]);
        fields, refs := fields[k := item], refs + more;
      }
    }

    method Release(key: Value)
      requires Valid()
      modifies `pool
      ensures Valid()
      ensures forall k {:trigger Refs(pool, k)} :: Refs(pool, k) == if k == key && Refs(old(pool), k) > 0 then Refs(old(pool), k) - 1 else Refs(old(pool), k)
    {
      if key !in pool {
        return;
      }
      if pool[key].refs <= 1 {
        pool := pool - {key};
      } else {
        pool := pool[key := pool[key].(refs := pool[key].refs - 1)];
      }
    }

    method ReleaseAll(refs: seq<Value>)
      requires Valid() && forall k {:trigger Refs(pool, k)} :: multiset(refs)[k] <= Refs(pool, k)
      modifies `pool
      ensures Valid() && Grew(pool, old(pool), refs)
    {
      for i := 0 to |refs|
        invariant Valid()
        invariant forall k {:trigger Refs(pool, k)} :: Refs(pool, k) + multiset(refs[..i])[k] == Refs(old(pool), k)
      {
        assert refs[..i + 1] == refs[..i] + [refs[i]];
        assert refs == refs[..i] + [refs[i]] + refs[i + 1..];
        assert multiset(refs)[refs[i]] <= Refs(old(pool), refs[i]);
        Release(refs[i]);
      }
      assert refs[..|refs|] == refs;
    }
  }

  /** Candidates of a field with an empty name are kept under a name of their own. */
  function Named(path: string): string {
    if path == "" then "$" else path
  }

  /** A direct part of a container. */
  predicate Part(x: Value, v: Value) {
    (v.Arr? && x in v.items) || (v.Obj? && x in v.fields.Values)
  }

  predicate Inside(x: Value, v: Value) {
    || x == v
    || (v.Arr? && exists i {:trigger v.items[i]} :: 0 <= i < |v.items| && Inside(x, v.items[i]))
    || (v.Obj? && exists k {:trigger v.fields[k]} :: k in v.fields && Inside(x, v.fields[k]))
  }

  ghost predicate AllInside(refs: seq<Value>, v: Value) {
    forall r | r in refs :: Inside(r, v)
  }

  lemma InsidePart(refs: seq<Value>, more: seq<Value>, v: Value, part: Value)
    requires AllInside(refs, v) && AllInside(more, part) && Part(part, v)
    ensures AllInside(refs + more, v)
  {
    forall r | r in more ensures Inside(r, v) {
      assert Inside(r, part);
      if v.Arr? {
        var i :| 0 <= i < |v.items| && v.items[i] == part;
      } else {
        var k :| k in v.fields && v.fields[k] == part;
      }
    }
  }

  lemma GrewKeeps(before: map<Value, Pooled>, after: map<Value, Pooled>, refs: seq<Value>, x: Value)
    requires Grew(before, after, refs) && PoolOk(before)
    ensures x in before ==> x in after
  {
    assert Refs(after, x) == Refs(before, x) + multiset(refs)[x];
  }

  /** The first path with a candidate. */
  predicate OldestOf(paths: seq<PathEntry>, i: nat) {
    i < |paths| && paths[i].entries != [] && forall k | 0 <= k < i :: paths[k].entries == []
  }

  ghost predicate OldestForgotten(before: seq<PathEntry>, after: seq<PathEntry>) {
    exists i: nat {:trigger OldestOf(before, i)} :: OldestOf(before, i) && OnlyCount(before, after, before[i].path, before[i].entries[0].key, 0)
  }

  predicate ListedIn(now: PathEntry, before: PathEntry) {
    forall c | c in now.entries :: c in before.entries
  }

  lemma LacksKept(now: PathEntry, before: PathEntry, key: Value)
    requires ListedIn(now, before) && Lacks(before, key)
    ensures Lacks(now, key)
  {
    forall i | 0 <= i < |now.entries| ensures now.entries[i].key != key {
      assert now.entries[i] in before.entries;
    }
  }

  function WithoutFirst(p: PathEntry): PathEntry
    requires p.entries != []
  {
    p.(entries := p.entries[1..])
  }

  predicate Lacks(p: PathEntry, key: Value) {
    forall i | 0 <= i < |p.entries| :: p.entries[i].key != key
  }

  lemma DropFirstKeeps(limits: Limits, paths: seq<PathEntry>, count: int, i: nat)
    requires CandidatesOk(limits, paths, count) && i < |paths| && paths[i].entries != []
    ensures CandidatesOk(limits, paths[i := WithoutFirst(paths[i])], count - 1)
  {
    assert EntryOk(limits, paths[i]);
    TotalUpdate(paths, i, WithoutFirst(paths[i]));
    assert EntryOk(limits, WithoutFirst(paths[i]));
  }

  lemma Recount(limits: Limits, paths: seq<PathEntry>, count: int, i: nat, at: nat, n: nat)
    requires CandidatesOk(limits, paths, count) && i < |paths| && at < |paths[i].entries|
    ensures var p := paths[i].(entries := paths[i].entries[at := Candidate(paths[i].entries[at].key, n)]);
            CandidatesOk(limits, paths[i := p], count)
  {
    var p := paths[i].(entries := paths[i].entries[at := Candidate(paths[i].entries[at].key, n)]);
    assert EntryOk(limits, paths[i]);
    TotalUpdate(paths, i, p);
    assert EntryOk(limits, p);
  }

  lemma AddKeeps(limits: Limits, paths: seq<PathEntry>, count: int, i: nat, c: Candidate)
    requires CandidatesOk(limits, paths, count) && i < |paths| && count < limits.maxCandidates
    requires |paths[i].entries| < limits.maxCandidatesPerPath && Lacks(paths[i], c.key)
    ensures CandidatesOk(limits, paths[i := paths[i].(entries := paths[i].entries + [c])], count + 1)
  {
    var p := paths[i].(entries := paths[i].entries + [c]);
    assert EntryOk(limits, paths[i]);
    TotalUpdate(paths, i, p);
    assert EntryOk(limits, p);
  }

  function RemoveAt(p: PathEntry, at: nat): PathEntry
    requires at < |p.entries|
  {
    p.(entries := p.entries[..at] + p.entries[at + 1..])
  }

  lemma RemoveKeeps(limits: Limits, paths: seq<PathEntry>, count: int, i: nat, at: nat)
    requires CandidatesOk(limits, paths, count) && i < |paths| && at < |paths[i].entries|
    ensures CandidatesOk(limits, paths[i := RemoveAt(paths[i], at)], count - 1)
  {
    assert EntryOk(limits, paths[i]);
    TotalUpdate(paths, i, RemoveAt(paths[i], at));
    assert EntryOk(limits, RemoveAt(paths[i], at));
  }

  lemma CountBounded(limits: Limits, paths: seq<PathEntry>, count: int)
    requires CandidatesOk(limits, paths, count)
    ensures 0 <= count <= limits.maxCandidates
  {
  }

  lemma CountWithout(entries: seq<Candidate>, at: nat, k: Value)
    requires DistinctKeys(entries) && at < |entries|
    ensures CountIn(entries[..at] + entries[at + 1..], k) == if k == entries[at].key then 0 else CountIn(entries, k)
  {
    var rest := entries[..at] + entries[at + 1..];
    CountPart(rest, entries, k);
    CountIs(rest, 0, k);
    if k != entries[at].key {
      forall c | c in entries && c.key == k ensures c in rest {
        var j :| 0 <= j < |entries| && entries[j] == c;
        assert c == if j < at then rest[j] else rest[j - 1];
      }
    }
  }

  /** Taking out one candidate forgets it and no other. */
  lemma RemoveCounts(limits: Limits, paths: seq<PathEntry>, count: int, i: nat, at: nat)
    requires CandidatesOk(limits, paths, count) && i < |paths| && at < |paths[i].entries|
    ensures OnlyCount(paths, paths[i := RemoveAt(paths[i], at)], paths[i].path, paths[i].entries[at].key, 0)
    ensures at == 0 ==> RemoveAt(paths[i], at) == WithoutFirst(paths[i])
  {
    var q, entries := RemoveAt(paths[i], at), paths[i].entries;
    assert EntryOk(limits, paths[i]);
    forall p, k
      ensures CountAt(paths[i := q], p, k) == if (p, k) == (q.path, entries[at].key) then 0 else CountAt(paths, p, k)
    {
      CountUpdate(limits, paths, count, i, q, p, k);
      CountWithout(entries, at, k);
    }
  }

  lemma RecountCounts(limits: Limits, paths: seq<PathEntry>, count: int, i: nat, at: nat, n: nat)
    requires CandidatesOk(limits, paths, count) && i < |paths| && at < |paths[i].entries|
    ensures var q := paths[i].(entries := paths[i].entries[at := Candidate(paths[i].entries[at].key, n)]);
            OnlyCount(paths, paths[i := q], q.path, paths[i].entries[at].key, n)
  {
    var entries := paths[i].entries;
    var q := paths[i].(entries := entries[at := Candidate(entries[at].key, n)]);
    assert EntryOk(limits, paths[i]);
    forall p, k
      ensures CountAt(paths[i := q], p, k) == if (p, k) == (q.path, entries[at].key) then n else CountAt(paths, p, k)
    {
      CountUpdate(limits, paths, count, i, q, p, k);
      assert DistinctKeys(q.entries);
      CountIs(q.entries, at, k);
      CountIs(q.entries, FindKey(entries, k), k);
    }
  }

  lemma AddCounts(limits: Limits, paths: seq<PathEntry>, count: int, i: nat, c: Candidate)
    requires CandidatesOk(limits, paths, count) && i < |paths| && Lacks(paths[i], c.key)
    ensures OnlyCount(paths, paths[i := paths[i].(entries := paths[i].entries + [c])], paths[i].path, c.key, c.count)
  {
    var entries := paths[i].entries;
    var q := paths[i].(entries := entries + [c]);
    assert EntryOk(limits, paths[i]);
    forall p, k
      ensures CountAt(paths[i := q], p, k) == if (p, k) == (q.path, c.key) then c.count else CountAt(paths, p, k)
    {
      CountUpdate(limits, paths, count, i, q, p, k);
      assert DistinctKeys(q.entries);
      CountIs(q.entries, |entries|, k);
      CountIs(q.entries, FindKey(entries, k), k);
    }
  }

  // The rows.

  datatype Row = Row(value: map<string, Value>, refs: seq<Value>)

  /** All keys all rows refer to, with repetition. */
  ghost function AllRefs(rows: map<string, Row>): multiset<Value> {
    if rows == map[] then multiset{}
    else
      var id :| id in rows;
      multiset(rows[id].refs) + AllRefs(rows - {id})
  }

  lemma {:induction false} AllRefsWithout(rows: map<string, Row>, id: string)
    requires id in rows
    ensures AllRefs(rows) == multiset(rows[id].refs) + AllRefs(rows - {id})
    decreases |rows|
  {
    var other :| other in rows && AllRefs(rows) == multiset(rows[other].refs) + AllRefs(rows - {other});
    if other != id {
      AllRefsWithout(rows - {other}, id);
      AllRefsWithout(rows - {id}, other);
      assert rows - {other} - {id} == rows - {id} - {other};
    }
  }

  /** The pool counts exactly the references of the rows. */
  ghost predicate Counted(pool: map<Value, Pooled>, rows: map<string, Row>) {
    forall k {:trigger Refs(pool, k)} :: Refs(pool, k) == AllRefs(rows)[k]
  }

  lemma CountedWithout(before: map<Value, Pooled>, after: map<Value, Pooled>, rows: map<string, Row>, id: string)
    requires id in rows && Counted(before, rows) && Grew(after, before, rows[id].refs)
    ensures Counted(after, rows - {id})
  {
    AllRefsWithout(rows, id);
    forall k ensures Refs(after, k) == AllRefs(rows - {id})[k] {
      assert Refs(before, k) == Refs(after, k) + multiset(rows[id].refs)[k];
    }
  }

  lemma CountedWith(before: map<Value, Pooled>, after: map<Value, Pooled>, rows: map<string, Row>, id: string, row: Row)
    requires id !in rows && Counted(before, rows) && Grew(before, after, row.refs)
    ensures Counted(after, rows[id := row])
  {
    AllRefsWithout(rows[id := row], id);
    assert rows[id := row] - {id} == rows;
    forall k ensures Refs(after, k) == AllRefs(rows[id := row])[k] {
      assert Refs(after, k) == Refs(before, k) + multiset(row.refs)[k];
    }
  }

  /** The plain map that the rows stand for. */
  function Plain(rows: map<string, Row>): map<string, map<string, Value>> {
    map id | id in rows :: rows[id].value
  }

  lemma PlainWith(rows: map<string, Row>, id: string, row: Row)
    ensures Plain(rows[id := row]) == Plain(rows)[id := row.value]
  {
  }

  class ObjectRowStore {
    var rows: map<string, Row>
    const directory: ValueDirectory

    ghost predicate Valid()
      reads this, directory
    {
      directory.Valid() && Counted(directory.pool, rows)
    }

    /** The plain map the store stands for. */
    function Contents(): map<string, map<string, Value>>
      reads this
    {
      Plain(rows)
    }

    constructor (limits: Limits, enabled: bool, keyBytes: Value -> nat)
      ensures Valid() && Contents() == map[] && fresh(directory)
    {
      directory := new ValueDirectory(limits, enabled, keyBytes);
      rows := map[];
    }

    method RemoveObject(id: string)
      requires Valid()
      modifies this, directory
      ensures Valid() && Contents() == old(Contents()) - {id} && rows == old(rows) - {id}
    {
      if id !in rows {
        return;
      }
      ghost var before := directory.pool;
      forall k ensures multiset(rows[id].refs)[k] <= Refs(before, k) {
        AllRefsWithout(rows, id);
        assert Refs(before, k) == AllRefs(rows)[k];
      }
      directory.ReleaseAll(rows[id].refs);
      CountedWithout(before, directory.pool, rows, id);
      rows := rows - {id};
    }

    /** Store an object anew; an object without fields is not stored. */
    method Rebuild(id: string, live: map<string, Value>, trusted: bool)
      requires Valid()
      modifies this, directory
      ensures Valid()
      ensures Contents() == if live == map[] then old(Contents()) - {id} else old(Contents())[id := live]
    {
      RemoveObject(id);
      hide *;
      if live != map[] {
        Place(id, live, trusted);
      }
    }

    method Place(id: string, live: map<string, Value>, trusted: bool)
      requires Valid() && id !in rows
      modifies `rows, directory
      ensures Valid() && Contents() == old(Contents())[id := live]
    {
      hide Counted, Grew, PoolOk, CandidatesOk, Plain;
      ghost var before := directory.pool;
      var value, refs := StoreFields(live, trusted);
      CountedWith(before, directory.pool, rows, id, Row(value, refs));
      PlainWith(rows, id, Row(value, refs));
      rows := rows[id := Row(value, refs)];
    }

    /** Each field is stored through the directory. */
    method StoreFields(live: map<string, Value>, trusted: bool) returns (value: map<string, Value>, refs: seq<Value>)
      requires directory.Valid()
      modifies directory
      ensures directory.Valid() && Grew(old(directory.pool), directory.pool, refs) && value == live
    {
      ghost var before := directory.pool;
      value, refs := map[], [];
      var left := live.Keys;
      while left != {}
        invariant left <= live.Keys && directory.Valid() && Grew(before, directory.pool, refs)
        invariant value.Keys == live.Keys - left && forall f | f in value :: value[f] == live[f]
        decreases left
      {
        var f :| f in left;
        left := left - {f};
        ghost var mid := directory.pool;
        var stored, more := directory.Store(live[f], f, trusted);
        GrewTwice(before, mid, directory.pool, refs, more);
        value, refs := value[f := stored], refs + more;
      }
    }

    method Read(id: string) returns (value: Option<map<string, Value>>)
      ensures value == if id in Contents() then Some(Contents()[id]) else None
    {
      value := if id in rows then Some(rows[id].value) else None;
    }
  }
}
