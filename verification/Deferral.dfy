/**
 * Deferral over whole runs (src/store.js, class Collection): batches of writes and deletes, catch-up,
 * column builds and stripping in any interleaving.  Reads never show what is deferred, and the two
 * ways in which the program does lose something are given with their exact conditions.
 */
module Deferral {
  import opened Wrappers
  import opened Layout
  import opened FieldIndexes
  import opened Collections

  // What a batch that is not deferred leaves in an index.

  predicate BelongsAt(obj: Option<Value>, path: string, place: Place) {
    obj.Some? && Belongs(GetPath(obj.value, path), place)
  }

  /** No delta of the row from `j` on saw it at the place. */
  ghost predicate Unseen(ds: seq<Delta>, path: string, rid: nat, j: nat, place: Place) {
    forall k {:trigger ds[k]} | j <= k < |ds| && ds[k].rid == rid :: !BelongsAt(ds[k].before, path, place)
  }

  /** The row belonged at the place before the delta at `j`, and neither it nor a later one saw that. */
  ghost predicate LeftFrom(content: Content, ds: seq<Delta>, path: string, rid: nat, place: Place, j: nat)
    requires j <= |ds|
  {
    BelongsAt(At(Latest(content, ds[..j]), rid), path, place) && Unseen(ds, path, rid, j, place)
  }

  /** The row belonged at the place at some point of the batch, and no delta after that saw it there. */
  ghost predicate Left(content: Content, ds: seq<Delta>, path: string, rid: nat, place: Place) {
    exists j :: 0 <= j <= |ds| && LeftFrom(content, ds, path, rid, place, j)
  }

  lemma DeltaListed(ix: PathIndex, d: Delta, rid: nat, place: Place)
    ensures DeltaIndex(ix, d.rid, d.before, d.after).path == ix.path
    ensures ListedAt(DeltaIndex(ix, d.rid, d.before, d.after).index, rid, place) <==>
            if d.rid != rid then ListedAt(ix.index, rid, place)
            else (ListedAt(ix.index, rid, place) && !BelongsAt(d.before, ix.path, place)) || BelongsAt(d.after, ix.path, place)
  {
    var cut := if d.before.Some? then RemoveFrom(ix.index, d.rid, GetPath(d.before.value, ix.path)) else ix.index;
    if d.before.Some? {
      RemovedAt(ix.index, cut, d.rid, GetPath(d.before.value, ix.path), rid, place);
    }
    if d.after.Some? {
      AddedAt(cut, AddTo(cut, d.rid, GetPath(d.after.value, ix.path)), d.rid, GetPath(d.after.value, ix.path), rid, place);
    }
  }

  lemma LatestRow(content: Content, ds: seq<Delta>, rid: nat)
    requires ds != []
    ensures var d := ds[|ds| - 1];
            At(Latest(content, ds), rid) == if d.rid == rid then d.after else At(Latest(content, ds[..|ds| - 1]), rid)
  {
  }

  lemma LeftFromFront(content: Content, ds: seq<Delta>, path: string, rid: nat, place: Place, j: nat)
    requires ds != [] && j < |ds|
    ensures var d, front := ds[|ds| - 1], ds[..|ds| - 1];
            LeftFrom(content, ds, path, rid, place, j) <==>
            LeftFrom(content, front, path, rid, place, j) && (d.rid == rid ==> !BelongsAt(d.before, path, place))
  {
    hide Latest, BelongsAt;
    var n := |ds| - 1;
    var front := ds[..n];
    assert front[..j] == ds[..j];
    if Unseen(front, path, rid, j, place) && (ds[n].rid == rid ==> !BelongsAt(ds[n].before, path, place)) {
      forall k | j <= k < |ds| && ds[k].rid == rid ensures !BelongsAt(ds[k].before, path, place) {
        assert k < n ==> front[k] == ds[k];
      }
    }
    if Unseen(ds, path, rid, j, place) {
      assert ds[n].rid == rid ==> !BelongsAt(ds[n].before, path, place);
      forall k | j <= k < n && front[k].rid == rid ensures !BelongsAt(front[k].before, path, place) {
        assert front[k] == ds[k];
      }
    }
  }

  lemma LeftFromEnd(content: Content, ds: seq<Delta>, path: string, rid: nat, place: Place)
    ensures LeftFrom(content, ds, path, rid, place, |ds|) <==> BelongsAt(At(Latest(content, ds), rid), path, place)
  {
    assert ds[..|ds|] == ds;
  }

  lemma LeftGoesOn(content: Content, ds: seq<Delta>, path: string, rid: nat, place: Place)
    requires ds != [] && Left(content, ds[..|ds| - 1], path, rid, place)
    requires ds[|ds| - 1].rid == rid ==> !BelongsAt(ds[|ds| - 1].before, path, place)
    ensures Left(content, ds, path, rid, place)
  {
    var front := ds[..|ds| - 1];
    var j :| 0 <= j <= |front| && LeftFrom(content, front, path, rid, place, j);
    LeftFromFront(content, ds, path, rid, place, j);
  }

  lemma LeftCameFrom(content: Content, ds: seq<Delta>, path: string, rid: nat, place: Place)
    requires ds != [] && Left(content, ds, path, rid, place) && !BelongsAt(At(Latest(content, ds), rid), path, place)
    ensures Left(content, ds[..|ds| - 1], path, rid, place)
    ensures ds[|ds| - 1].rid == rid ==> !BelongsAt(ds[|ds| - 1].before, path, place)
  {
    LeftFromEnd(content, ds, path, rid, place);
    hide LeftFrom;
    var j :| 0 <= j <= |ds| && LeftFrom(content, ds, path, rid, place, j);
    LeftFromFront(content, ds, path, rid, place, j);
  }

  lemma LeftFront(content: Content, ds: seq<Delta>, path: string, rid: nat, place: Place)
    requires ds != []
    ensures var n := |ds| - 1;
            Left(content, ds, path, rid, place) <==>
            if ds[n].rid != rid then Left(content, ds[..n], path, rid, place)
            else (Left(content, ds[..n], path, rid, place) && !BelongsAt(ds[n].before, path, place)) || BelongsAt(ds[n].after, path, place)
  {
    var n := |ds| - 1;
    LatestRow(content, ds, rid);
    LeftFromEnd(content, ds, path, rid, place);
    LeftFromEnd(content, ds[..n], path, rid, place);
    assert BelongsAt(At(Latest(content, ds), rid), path, place) ==> Left(content, ds, path, rid, place);
    assert BelongsAt(At(Latest(content, ds[..n]), rid), path, place) ==> Left(content, ds[..n], path, rid, place);
    hide Left, LeftFrom, Latest, BelongsAt;
    if Left(content, ds[..n], path, rid, place) && (ds[n].rid == rid ==> !BelongsAt(ds[n].before, path, place)) {
      LeftGoesOn(content, ds, path, rid, place);
    }
    if Left(content, ds, path, rid, place) && !BelongsAt(At(Latest(content, ds), rid), path, place) {
      LeftCameFrom(content, ds, path, rid, place);
    }
  }

  lemma IndexBefore(core: Core, content: Content, i: nat, rid: nat, place: Place)
    requires Follows(core, content) && IndexesValid(core.indexes) && i < |core.indexes| && rid !in core.dirty
    ensures ListedAt(core.indexes[i].index, rid, place) <==> BelongsAt(At(content, rid), core.indexes[i].path, place)
  {
    var ix := core.indexes[i];
    assert DerivedMatches(core, rid, At(content, rid));
    assert IndexValid(ix.index) && RowIndexed(ix.index, rid) && Recorded(ix.index, rid, At(content, rid), ix.path);
    RowIndexedPlaces(ix.index, rid);
  }

  lemma LeftOfNothing(content: Content, path: string, rid: nat, place: Place)
    ensures Left(content, [], path, rid, place) <==> BelongsAt(At(content, rid), path, place)
  {
    LeftFromEnd(content, [], path, rid, place);
  }

  /** Where an index lists a row after the deltas: exactly where something was left. */
  lemma {:induction false} IndexAfter(core: Core, content: Content, ds: seq<Delta>, i: nat, rid: nat, place: Place)
    requires Follows(core, content) && IndexesValid(core.indexes) && i < |core.indexes| && rid !in core.dirty
    ensures |ApplyDeltas(core, ds).indexes| == |core.indexes| && ApplyDeltas(core, ds).indexes[i].path == core.indexes[i].path
    ensures ListedAt(ApplyDeltas(core, ds).indexes[i].index, rid, place) <==> Left(content, ds, core.indexes[i].path, rid, place)
  {
    hide Follows, IndexesValid, Left, BelongsAt, ListedAt, DeltaIndex;
    if ds == [] {
      IndexBefore(core, content, i, rid, place);
      LeftOfNothing(content, core.indexes[i].path, rid, place);
    } else {
      var n := |ds| - 1;
      IndexAfter(core, content, ds[..n], i, rid, place);
      ApplyDeltasKeep(core, ds[..n]);
      LeftFront(content, ds, core.indexes[i].path, rid, place);
      DeltaListed(ApplyDeltas(core, ds[..n]).indexes[i], ds[n], rid, place);
    }
  }

  lemma {:induction false} DirtyRowKept(core: Core, ds: seq<Delta>, i: nat, rid: nat)
    requires i < |core.indexes| && rid in core.dirty && RowIndexed(core.indexes[i].index, rid)
    ensures |ApplyDeltas(core, ds).indexes| == |core.indexes| && RowIndexed(ApplyDeltas(core, ds).indexes[i].index, rid)
  {
    if ds != [] {
      var n := |ds| - 1;
      DirtyRowKept(core, ds[..n], i, rid);
      ApplyDeltasKeep(core, ds[..n]);
      var before := ApplyDeltas(core, ds[..n]);
      if ds[n].rid !in core.dirty {
        var ix, ix' := before.indexes[i], DeltaIndex(before.indexes[i], ds[n].rid, ds[n].before, ds[n].after);
        RowIndexedPlaces(ix.index, rid);
        forall place ensures ListedAt(ix'.index, rid, place) <==> rid in ix'.index.forward && Belongs(ix'.index.forward[rid], place) {
          DeltaListed(ix, ds[n], rid, place);
        }
        RowIndexedPlaces(ix'.index, rid);
      }
    }
  }

  /** Whatever was left of a row is where the row belongs in the end. */
  ghost predicate NothingStale(content: Content, dirty: set<nat>, ds: seq<Delta>, path: string) {
    forall rid: nat, place {:trigger Left(content, ds, path, rid, place)} | rid !in dirty && Left(content, ds, path, rid, place) ::
      BelongsAt(At(Latest(content, ds), rid), path, place)
  }

  lemma IndexExact(core: Core, content: Content, ds: seq<Delta>, i: nat)
    requires Follows(core, content) && Alive(content, ds) && IndexesValid(core.indexes) && i < |core.indexes|
    ensures |ApplyDeltas(core, ds).indexes| == |core.indexes|
    ensures IndexValid(ApplyDeltas(core, ds).indexes[i].index) <==> NothingStale(content, core.dirty, ds, core.indexes[i].path)
  {
    var path := core.indexes[i].path;
    IndexAfterPaths(core, ds);
    var ix := ApplyDeltas(core, ds).indexes[i].index;
    if NothingStale(content, core.dirty, ds, path) {
      forall rid ensures RowIndexed(ix, rid) {
        if rid in core.dirty {
          assert IndexValid(core.indexes[i].index) && RowIndexed(core.indexes[i].index, rid);
          DirtyRowKept(core, ds, i, rid);
        } else {
          RowExact(core, content, ds, i, rid);
        }
      }
    }
    if IndexValid(ix) {
      forall rid, place | rid !in core.dirty && Left(content, ds, path, rid, place)
        ensures BelongsAt(At(Latest(content, ds), rid), path, place)
      {
        assert RowIndexed(ix, rid);
        RowExact(core, content, ds, i, rid);
      }
    }
  }

  lemma {:induction false} IndexAfterPaths(core: Core, ds: seq<Delta>)
    ensures |ApplyDeltas(core, ds).indexes| == |core.indexes|
    ensures forall i | 0 <= i < |core.indexes| :: ApplyDeltas(core, ds).indexes[i].path == core.indexes[i].path
  {
    if ds != [] {
      IndexAfterPaths(core, ds[..|ds| - 1]);
    }
  }

  lemma RowExact(core: Core, content: Content, ds: seq<Delta>, i: nat, rid: nat)
    requires Follows(core, content) && Alive(content, ds) && IndexesValid(core.indexes) && i < |core.indexes| && rid !in core.dirty
    ensures |ApplyDeltas(core, ds).indexes| == |core.indexes|
    ensures RowIndexed(ApplyDeltas(core, ds).indexes[i].index, rid) <==>
            forall place :: Left(content, ds, core.indexes[i].path, rid, place) ==> BelongsAt(At(Latest(content, ds), rid), core.indexes[i].path, place)
  {
    var path := core.indexes[i].path;
    IndexAfterPaths(core, ds);
    var ix := ApplyDeltas(core, ds).indexes[i];
    ApplyDeltasFollow(core, content, ds);
    ApplyDeltasKeep(core, ds);
    assert DerivedMatches(ApplyDeltas(core, ds), rid, At(Latest(content, ds), rid));
    assert Recorded(ix.index, rid, At(Latest(content, ds), rid), ix.path);
    forall place
      ensures rid in ix.index.forward && Belongs(ix.index.forward[rid], place) <==> BelongsAt(At(Latest(content, ds), rid), path, place)
      ensures ListedAt(ix.index, rid, place) <==> Left(content, ds, path, rid, place)
      ensures BelongsAt(At(Latest(content, ds), rid), path, place) ==> Left(content, ds, path, rid, place)
    {
      IndexAfter(core, content, ds, i, rid, place);
      LeftFromEnd(content, ds, path, rid, place);
    }
    RowIndexedPlaces(ix.index, rid);
  }

  // Whole batches.

  predicate Deferred(core: Core, changes: seq<Change>) {
    |changes| >= DEFER_MIN_ROWS && HasIndexWork(core)
  }

  /** What the batch noted of each row: `before` is what the row read as just before its change. */
  function Notes(core: Core, changes: seq<Change>, attempted: nat): seq<Delta> {
    ChangeBases(core, changes, attempted >= DEFER_MIN_ROWS && HasIndexWork(core)).1
  }

  lemma {:induction false} NotesRead(core: Core, changes: seq<Change>, keepColumnFields: bool, k: nat)
    requires k < |changes|
    ensures var ds := ChangeBases(core, changes, keepColumnFields).1;
            |ds| == |changes| && ds[k] == Delta(changes[k].rid, Read(ChangeBases(core, changes[..k], keepColumnFields).0, changes[k].rid), changes[k].value)
  {
    var n := |changes| - 1;
    if k == n {
      NotesCount(core, changes[..n], keepColumnFields);
    } else {
      NotesRead(core, changes[..n], keepColumnFields, k);
      assert changes[..n][..k] == changes[..k];
    }
  }

  lemma {:induction false} NotesCount(core: Core, changes: seq<Change>, keepColumnFields: bool)
    ensures |ChangeBases(core, changes, keepColumnFields).1| == |changes|
  {
    if changes != [] {
      NotesCount(core, changes[..|changes| - 1], keepColumnFields);
    }
  }

  /** The batch is deferred, or each index ends with nothing stale. */
  ghost predicate BatchExact(core: Core, content: Content, changes: seq<Change>, attempted: nat) {
    Deferred(core, changes) ||
    forall i {:trigger core.indexes[i]} | 0 <= i < |core.indexes| ::
      NothingStale(content, core.dirty, Notes(core, changes, attempted), core.indexes[i].path)
  }

  /**
   * A batch keeps every lookup exact if and only if it is deferred, or each place a row's value had
   * in an index during the batch was either seen by a later change of that row, or is the final one.
   */
  lemma BatchLookupsExact(core: Core, content: Content, changes: seq<Change>, attempted: nat)
    requires Valid(core, content) && ChangesStorable(changes, core.columns) && attempted >= |changes|
    ensures Valid(ApplyBatch(core, changes, attempted), Final(content, changes)) <==> BatchExact(core, content, changes, attempted)
  {
    BatchSound(core, content, changes, attempted);
    BatchParts(core, changes, attempted);
    var keepColumnFields := attempted >= DEFER_MIN_ROWS && HasIndexWork(core);
    assert AllObjects(changes);
    ChangeBasesMeans(core, content, changes, keepColumnFields);
    var (mid, ds) := ChangeBases(core, changes, keepColumnFields);
    FollowsBase(core, mid, content);
    hide Sound, Changed, ChangeBases, NothingStale;
    if Deferred(core, changes) {
      MarkAllKeeps(mid, ds);
    } else {
      IndexAfterPaths(mid, ds);
      forall i | 0 <= i < |core.indexes|
        ensures IndexValid(ApplyDeltas(mid, ds).indexes[i].index) <==> NothingStale(content, core.dirty, ds, core.indexes[i].path)
      {
        IndexExact(mid, content, ds, i);
      }
    }
  }

  // Two families of batches that are exact.

  ghost predicate SameAt(a: Option<Value>, b: Option<Value>, path: string) {
    (a.Some? <==> b.Some?) && (a.Some? ==> GetPath(a.value, path) == GetPath(b.value, path))
  }

  /** Each delta saw at the path what was there at that point of the batch. */
  ghost predicate AgreesAt(content: Content, dirty: set<nat>, ds: seq<Delta>, path: string) {
    forall k {:trigger ds[k]} | 0 <= k < |ds| && ds[k].rid !in dirty :: SameAt(ds[k].before, At(Latest(content, ds[..k]), ds[k].rid), path)
  }

  lemma {:induction false} StaysToEnd(content: Content, dirty: set<nat>, ds: seq<Delta>, path: string, rid: nat, place: Place, j: nat)
    requires AgreesAt(content, dirty, ds, path) && rid !in dirty && j <= |ds| && LeftFrom(content, ds, path, rid, place, j)
    ensures BelongsAt(At(Latest(content, ds), rid), path, place)
    decreases |ds| - j
  {
    if j == |ds| {
      LeftFromEnd(content, ds, path, rid, place);
    } else {
      assert ds[j].rid == rid ==> SameAt(ds[j].before, At(Latest(content, ds[..j]), rid), path);
      assert ds[j].rid != rid;
      assert ds[..j + 1][..j] == ds[..j];
      LatestRow(content, ds[..j + 1], rid);
      StaysToEnd(content, dirty, ds, path, rid, place, j + 1);
    }
  }

  lemma AgreesNothingStale(content: Content, dirty: set<nat>, ds: seq<Delta>, path: string)
    requires AgreesAt(content, dirty, ds, path)
    ensures NothingStale(content, dirty, ds, path)
  {
    forall rid: nat, place | rid !in dirty && Left(content, ds, path, rid, place)
      ensures BelongsAt(At(Latest(content, ds), rid), path, place)
    {
      var j :| 0 <= j <= |ds| && LeftFrom(content, ds, path, rid, place, j);
      StaysToEnd(content, dirty, ds, path, rid, place, j);
    }
  }

  /** A batch of different rows keeps every lookup exact. */
  lemma DistinctBatchExact(core: Core, content: Content, changes: seq<Change>, attempted: nat)
    requires Valid(core, content) && ChangesStorable(changes, core.columns) && attempted >= |changes| && Distinct(changes)
    ensures BatchExact(core, content, changes, attempted)
  {
    var keepColumnFields := attempted >= DEFER_MIN_ROWS && HasIndexWork(core);
    assert AllObjects(changes);
    DistinctAgrees(core, content, changes, keepColumnFields);
    var ds := Notes(core, changes, attempted);
    forall i | 0 <= i < |core.indexes| ensures NothingStale(content, core.dirty, ds, core.indexes[i].path) {
      forall k | 0 <= k < |ds| && ds[k].rid !in core.dirty
        ensures SameAt(ds[k].before, At(Latest(content, ds[..k]), ds[k].rid), core.indexes[i].path)
      {
      }
      AgreesNothingStale(content, core.dirty, ds, core.indexes[i].path);
    }
  }

  /** No ready column can disturb what the path reads in the object. */
  ghost predicate ClearOf(columns: seq<Column>, path: string, v: Value) {
    ReadyPaths(columns) == [] ||
    (Plain(v, path) && forall c | c in ReadyPaths(columns) :: Parts(c) == [] || Apart(Parts(path), Parts(c)))
  }

  lemma {:induction false} HydrateApart(base: Value, columns: seq<Column>, rid: nat, v: Value, q: Path)
    requires Alike(base, v, q) && FreshBuilds(columns) && forall c | c in ReadyPaths(columns) :: Parts(c) == [] || Apart(q, Parts(c))
    ensures Alike(Hydrate(base, columns, rid), v, q)
  {
    if columns != [] {
      var n := |columns| - 1;
      var front, c := columns[..n], columns[n];
      assert FreshBuilds(front) by {
        assert forall i | 0 <= i < n :: front[i] == columns[i];
      }
      HydrateApart(base, front, rid, v, q);
      assert c.ready ==> c.path in ReadyPaths(columns);
      if rid in c.values && Parts(c.path) != [] {
        SetApart(Hydrate(base, front, rid), v, q, Parts(c.path), c.values[rid]);
      }
    }
  }

  lemma {:induction false} HydrateNothing(base: Value, columns: seq<Column>, rid: nat)
    requires FreshBuilds(columns) && ReadyPaths(columns) == []
    ensures Hydrate(base, columns, rid) == base
  {
    if columns != [] {
      var n := |columns| - 1;
      assert FreshBuilds(columns[..n]) by {
        assert forall i | 0 <= i < n :: columns[..n][i] == columns[i];
      }
      assert !columns[n].ready;
      HydrateNothing(base, columns[..n], rid);
    }
  }

  /** Whatever the columns hold of a row, its base reads right at a path they are clear of. */
  lemma ClearReads(core: Core, rid: nat, v: Value, path: string)
    requires FreshBuilds(core.columns) && BaseMatches(core, rid, Some(v)) && ClearOf(core.columns, path, v)
    ensures SameAt(Read(core, rid), Some(v), path)
  {
    if rid !in core.dirty {
      if ReadyPaths(core.columns) == [] {
        HydrateNothing(core.base[rid], core.columns, rid);
        RestOfNothing(core.base[rid], v);
      } else {
        RestAlike(core.base[rid], v, ReadyPaths(core.columns), Parts(path));
        HydrateApart(core.base[rid], core.columns, rid, v, Parts(path));
        AlikeReads(Hydrate(core.base[rid], core.columns, rid), v, path);
      }
    }
  }

  ghost predicate AllClear(columns: seq<Column>, path: string, content: Content, changes: seq<Change>) {
    && (forall rid {:trigger content[rid]} | rid in content :: ClearOf(columns, path, content[rid]))
    && (forall k {:trigger changes[k]} | 0 <= k < |changes| && changes[k].value.Some? :: ClearOf(columns, path, changes[k].value.value))
  }

  lemma {:induction false} FinalClear(columns: seq<Column>, path: string, content: Content, changes: seq<Change>, rid: nat)
    requires AllClear(columns, path, content, changes) && rid in Final(content, changes)
    ensures ClearOf(columns, path, Final(content, changes)[rid])
  {
    if changes != [] {
      var n := |changes| - 1;
      if changes[n].rid != rid {
        assert AllClear(columns, path, content, changes[..n]) by {
          assert forall k | 0 <= k < n :: changes[..n][k] == changes[k];
        }
        FinalClear(columns, path, content, changes[..n], rid);
      }
    }
  }

  lemma ClearAgrees(core: Core, content: Content, changes: seq<Change>, keepColumnFields: bool, path: string)
    requires Sound(core, content) && AllObjects(changes) && AllClear(core.columns, path, content, changes)
    ensures AgreesAt(content, core.dirty, ChangeBases(core, changes, keepColumnFields).1, path)
  {
    var ds := ChangeBases(core, changes, keepColumnFields).1;
    NotesCount(core, changes, keepColumnFields);
    forall k | 0 <= k < |ds| && ds[k].rid !in core.dirty ensures SameAt(ds[k].before, At(Latest(content, ds[..k]), ds[k].rid), path) {
      ClearAgreesAt(core, content, changes, keepColumnFields, path, k);
    }
  }

  lemma {:induction false} NotesFront(core: Core, changes: seq<Change>, keepColumnFields: bool, k: nat)
    requires k <= |changes|
    ensures |ChangeBases(core, changes, keepColumnFields).1| == |changes|
    ensures ChangeBases(core, changes[..k], keepColumnFields).1 == ChangeBases(core, changes, keepColumnFields).1[..k]
  {
    NotesCount(core, changes, keepColumnFields);
    if k == |changes| {
      assert changes[..k] == changes;
    } else {
      var n := |changes| - 1;
      NotesFront(core, changes[..n], keepColumnFields, k);
      assert changes[..n][..k] == changes[..k];
    }
  }

  lemma ClearAgreesAt(core: Core, content: Content, changes: seq<Change>, keepColumnFields: bool, path: string, k: nat)
    requires Sound(core, content) && AllObjects(changes) && AllClear(core.columns, path, content, changes) && k < |changes|
    ensures var ds := ChangeBases(core, changes, keepColumnFields).1;
            |ds| == |changes| && SameAt(ds[k].before, At(Latest(content, ds[..k]), ds[k].rid), path)
  {
    var front, rid := changes[..k], changes[k].rid;
    NotesRead(core, changes, keepColumnFields, k);
    NotesFront(core, changes, keepColumnFields, k);
    assert AllObjects(front) && AllClear(core.columns, path, content, front) by {
      assert forall j | 0 <= j < k :: front[j] == changes[j];
    }
    ChangeBasesMeans(core, content, front, keepColumnFields);
    var (mid, ds) := ChangeBases(core, front, keepColumnFields);
    LatestIsFinal(content, front, ds);
    assert BaseMatches(mid, rid, At(Latest(content, ds), rid));
    if rid in Latest(content, ds) {
      FinalClear(core.columns, path, content, front, rid);
      ClearReads(mid, rid, Latest(content, ds)[rid], path);
    }
  }

  /** So does any batch, whatever it repeats, if no ready column overlaps an indexed path. */
  lemma ClearBatchExact(core: Core, content: Content, changes: seq<Change>, attempted: nat)
    requires Valid(core, content) && ChangesStorable(changes, core.columns) && attempted >= |changes|
    requires forall i {:trigger core.indexes[i]} | 0 <= i < |core.indexes| :: AllClear(core.columns, core.indexes[i].path, content, changes)
    ensures BatchExact(core, content, changes, attempted)
  {
    assert AllObjects(changes);
    forall i | 0 <= i < |core.indexes| ensures NothingStale(content, core.dirty, Notes(core, changes, attempted), core.indexes[i].path) {
      ClearAgrees(core, content, changes, attempted >= DEFER_MIN_ROWS && HasIndexWork(core), core.indexes[i].path);
      AgreesNothingStale(content, core.dirty, Notes(core, changes, attempted), core.indexes[i].path);
    }
  }

  // A row written twice in one small batch.

  function OneField(n: int): Value {
    Obj(map["a" := Num(n)])
  }

  lemma OneFieldPath(n: int)
    ensures Parts("a") == ["a"] && GetPath(OneField(n), "a") == Some(Num(n))
    ensures SetPath(EMPTY_OBJECT, "a", Num(n)) == OneField(n)
    ensures UnsetPaths(OneField(n), ["a"]) == EMPTY_OBJECT
  {
    SplitShort('b', 'a');
    TrimShort('b', 'a');
    assert TrimAll([['a']]) == [['a']] by {
      assert [['b'], ['a']][1..] == [['a']];
    }
    assert GetSegments(OneField(n), ["a"]) == GetSegments(Num(n), []);
    assert OneField(n).fields - {"a"} == map[];
    assert ["a"][..0] == [];
  }

  /** One row `{a: 1}` with a ready column and an index on `a`, the column holding the value. */
  function OneRow(): Core {
    Core(map[0 := EMPTY_OBJECT], [Column("a", true, map[0 := Num(1)], map[], map[], {})],
         [PathIndex("a", AddTo(NO_INDEX, 0, Some(Num(1))))], {})
  }

  lemma OneRowReads(n: int)
    ensures Read(OneRow(), 0) == Some(OneField(1))
    ensures ChangeBase(OneRow(), Change(0, Some(OneField(n))), false) == OneRow()
  {
    OneFieldPath(1);
    OneFieldPath(n);
    var core := OneRow();
    assert core.columns[..0] == [] && ReadyPaths([]) == [];
    assert ReadyPaths(core.columns) == [] + ["a"];
    assert Hydrate(EMPTY_OBJECT, core.columns[..0], 0) == EMPTY_OBJECT;
    assert core.base[0 := EMPTY_OBJECT] == core.base;
  }

  lemma ChangeTwice(core: Core, c1: Change, c2: Change)
    requires ChangeBase(core, c1, false) == core && ChangeBase(core, c2, false) == core
    ensures ChangeBases(core, [c1, c2], false) ==
            (core, [Delta(c1.rid, Read(core, c1.rid), c1.value), Delta(c2.rid, Read(core, c2.rid), c2.value)])
  {
    assert [c1, c2][..1] == [c1] && [c1][..0] == [];
    var d1 := Delta(c1.rid, Read(core, c1.rid), c1.value);
    var d2 := Delta(c2.rid, Read(core, c2.rid), c2.value);
    assert [] + [d1] == [d1] && [d1] + [d2] == [d1, d2];
    assert ChangeBases(core, [], false) == (core, []);
    assert ChangeBases(core, [c1], false) == (core, [d1]);
    assert [c1, c2] != [] && [c1, c2][|[c1, c2]| - 1] == c2;
  }

  lemma ApplyTwice(core: Core, d1: Delta, d2: Delta)
    requires d1.rid !in core.dirty && d2.rid !in core.dirty && |core.indexes| == 1
    ensures var ix := core.indexes[0];
            ApplyDeltas(core, [d1, d2]).indexes ==
            [DeltaIndex(DeltaIndex(ix, d1.rid, d1.before, d1.after), d2.rid, d2.before, d2.after)]
  {
    assert [d1, d2][..1] == [d1] && [d1][..0] == [];
    assert ApplyDeltas(core, [d1]) == ApplyDelta(core, d1);
  }

  /** Written with one value and replaced by another, the row keeps the first one's key. */
  lemma KeyLeftBehind(ix: PathIndex, before: Value, first: Value, second: Value, key: Value)
    requires key in Keys(GetPath(first, ix.path)) && key !in Keys(GetPath(before, ix.path))
    ensures var ix1 := DeltaIndex(ix, 0, Some(before), Some(first));
            0 in IdsIn(DeltaIndex(ix1, 0, Some(before), Some(second)).index.lookup, key)
  {
    var ix1 := DeltaIndex(ix, 0, Some(before), Some(first));
    assert 0 in IdsIn(ix1.index.lookup, key);
    var cut := RemoveFrom(ix1.index, 0, GetPath(before, ix.path));
    assert 0 in IdsIn(cut.lookup, key);
  }

  /**
   * Otherwise a lookup can go stale: a row with an indexed column is
   * written twice in one small batch, and stays listed under the value in between.
   */
  lemma RepeatedRowLeavesStaleLookup()
    ensures var changes := [Change(0, Some(OneField(2))), Change(0, Some(OneField(3)))];
            var core' := ApplyBatch(OneRow(), changes, 2);
            && Read(OneRow(), 0) == Some(OneField(1))
            && At(Final(map[0 := OneField(1)], changes), 0) == Some(OneField(3))
            && |core'.indexes| == 1 && 0 in IdsIn(core'.indexes[0].index.lookup, Num(2))
  {
    var core, c1, c2 := OneRow(), Change(0, Some(OneField(2))), Change(0, Some(OneField(3)));
    OneRowReads(2);
    OneRowReads(3);
    ChangeTwice(core, c1, c2);
    BatchParts(core, [c1, c2], 2);
    ApplyTwice(core, Delta(0, Some(OneField(1)), c1.value), Delta(0, Some(OneField(1)), c2.value));
    OneFieldPath(1);
    OneFieldPath(2);
    KeyLeftBehind(core.indexes[0], OneField(1), OneField(2), OneField(3), Num(2));
  }

  // All steps together.

  datatype Step =
    | Batch(changes: seq<Change>, attempted: nat)
    | CatchUpRow(rid: nat)
    | StartIndex(path: string, order: seq<nat>)
    | StartColumn(path: string)
    | ScanRow(scanned: nat)
    | InstallBuilt
    | StripRow(stripped: nat, paths: seq<string>)

  ghost predicate Enabled(core: Core, content: Content, step: Step) {
    match step
    case Batch(changes, attempted) => ChangesStorable(changes, core.columns) && attempted >= |changes|
    case StartIndex(_, order) => NoRepeats(order) && forall rid :: rid in order <==> rid in core.base
    case StartColumn(path) => Buildable(content, path)
    case StripRow(rid, paths) => forall path | path in paths :: path in ReadyPaths(core.columns)
    case _ => true
  }

  function After(core: Core, step: Step): Core {
    match step
    case Batch(changes, attempted) => ApplyBatch(core, changes, attempted)
    case CatchUpRow(rid) => CatchUp(core, rid)
    case StartIndex(path, order) => CreateIndex(core, path, order)
    case StartColumn(path) => BeginBuild(core, path)
    case ScanRow(rid) => Scan(core, rid)
    case InstallBuilt => Install(core)
    case StripRow(rid, paths) => Strip(core, rid, paths)
  }

  /** Only a batch changes what the collection holds. */
  function ContentAfter(content: Content, step: Step): Content {
    if step.Batch? then Final(content, step.changes) else content
  }

  /** A strip of a deferred row finds nothing to strip; every other step is harmless. */
  predicate Harmless(core: Core, step: Step) {
    step.StripRow? && step.stripped in core.dirty && step.stripped in core.base ==>
      UnsetPaths(core.base[step.stripped], step.paths) == core.base[step.stripped]
  }

  ghost predicate Exact(core: Core, content: Content, step: Step) {
    step.Batch? ==> BatchExact(core, content, step.changes, step.attempted)
  }

  ghost predicate ReadsRight(core: Core, content: Content) {
    forall rid {:trigger Read(core, rid)} :: Read(core, rid) == At(content, rid)
  }

  lemma SoundReadsRight(core: Core, content: Content)
    requires Sound(core, content)
    ensures ReadsRight(core, content)
  {
    forall rid ensures Read(core, rid) == At(content, rid) {
      ReadIsContent(core, content, rid);
    }
  }

  /** Any harmless step keeps reads right: whatever batches repeat, whatever is deferred. */
  lemma StepSound(core: Core, content: Content, step: Step)
    requires Sound(core, content) && Enabled(core, content, step) && Harmless(core, step)
    ensures Sound(After(core, step), ContentAfter(content, step))
    ensures !step.Batch? && IndexesValid(core.indexes) ==> IndexesValid(After(core, step).indexes)
  {
    hide Sound, IndexesValid;
    match step
    case Batch(changes, attempted) => BatchSound(core, content, changes, attempted);
    case CatchUpRow(rid) => CatchUpKeeps(core, content, rid);
    case StartIndex(path, order) => CreateIndexKeeps(core, content, path, order);
    case StartColumn(path) => BeginBuildKeeps(core, content, path);
    case ScanRow(rid) => ScanKeeps(core, content, rid);
    case InstallBuilt => InstallKeeps(core, content);
    case StripRow(rid, paths) =>
      ReadIsContent(core, content, rid);
      StripKeeps(core, content, rid, paths);
  }

  /** A run of steps. */
  ghost predicate Runs(core: Core, content: Content, steps: seq<Step>)
    decreases |steps|
  {
    steps != [] ==> Enabled(core, content, steps[0]) && Runs(After(core, steps[0]), ContentAfter(content, steps[0]), steps[1..])
  }

  function AfterAll(core: Core, steps: seq<Step>): Core
    decreases |steps|
  {
    if steps == [] then core else AfterAll(After(core, steps[0]), steps[1..])
  }

  function ContentAfterAll(content: Content, steps: seq<Step>): Content
    decreases |steps|
  {
    if steps == [] then content else ContentAfterAll(ContentAfter(content, steps[0]), steps[1..])
  }

  predicate AllHarmless(core: Core, steps: seq<Step>)
    decreases |steps|
  {
    steps != [] ==> Harmless(core, steps[0]) && AllHarmless(After(core, steps[0]), steps[1..])
  }

  ghost predicate AlwaysReadsRight(core: Core, content: Content, steps: seq<Step>)
    decreases |steps|
  {
    ReadsRight(core, content) && (steps != [] ==> AlwaysReadsRight(After(core, steps[0]), ContentAfter(content, steps[0]), steps[1..]))
  }

  ghost predicate AllExact(core: Core, content: Content, steps: seq<Step>)
    decreases |steps|
  {
    steps != [] ==> Exact(core, content, steps[0]) && AllExact(After(core, steps[0]), ContentAfter(content, steps[0]), steps[1..])
  }

  ghost predicate AlwaysExact(core: Core, steps: seq<Step>)
    decreases |steps|
  {
    IndexesValid(core.indexes) && (steps != [] ==> AlwaysExact(After(core, steps[0]), steps[1..]))
  }

  const EMPTY := Core(map[], [], [], {})

  lemma EmptyValid()
    ensures Valid(EMPTY, map[])
  {
    assert ReadyPaths([]) == [];
  }

  lemma HarmfulStrip(core: Core, content: Content, step: Step)
    requires Sound(core, content) && !Harmless(core, step)
    ensures !ReadsRight(After(core, step), ContentAfter(content, step))
  {
    ReadIsContent(core, content, step.stripped);
    assert Read(After(core, step), step.stripped) != At(content, step.stripped);
  }

  /**
   * Deferral is transparent over whole runs.  However batches of any size, with any repetitions,
   * deletes, catch-up, scan, install and strip steps interleave, every row reads as the last value
   * accepted for it at every point of the run, if and only if no strip finds something in a row that
   * is deferred at that point.
   */
  lemma {:induction false} RunReadsExact(core: Core, content: Content, steps: seq<Step>)
    requires Sound(core, content) && Runs(core, content, steps)
    ensures AlwaysReadsRight(core, content, steps) <==> AllHarmless(core, steps)
    ensures AllHarmless(core, steps) ==> Sound(AfterAll(core, steps), ContentAfterAll(content, steps))
    decreases |steps|
  {
    SoundReadsRight(core, content);
    hide Sound, ReadsRight;
    if steps != [] {
      if Harmless(core, steps[0]) {
        StepSound(core, content, steps[0]);
        RunReadsExact(After(core, steps[0]), ContentAfter(content, steps[0]), steps[1..]);
      } else {
        HarmfulStrip(core, content, steps[0]);
      }
    }
  }

  lemma StepLookups(core: Core, content: Content, step: Step)
    requires Valid(core, content) && Enabled(core, content, step) && Harmless(core, step)
    ensures IndexesValid(After(core, step).indexes) <==> Exact(core, content, step)
  {
    StepSound(core, content, step);
    if step.Batch? {
      BatchLookupsExact(core, content, step.changes, step.attempted);
    }
  }

  /** Along such a run every lookup stays exact if and only if every batch meets its condition. */
  lemma {:induction false} RunLookupsExact(core: Core, content: Content, steps: seq<Step>)
    requires Valid(core, content) && Runs(core, content, steps) && AllHarmless(core, steps)
    ensures AlwaysExact(core, steps) <==> AllExact(core, content, steps)
    decreases |steps|
  {
    if steps != [] {
      StepSound(core, content, steps[0]);
      StepLookups(core, content, steps[0]);
      hide Sound, IndexesValid, Exact;
      if Exact(core, content, steps[0]) {
        RunLookupsExact(After(core, steps[0]), ContentAfter(content, steps[0]), steps[1..]);
      }
    }
  }

  /** In particular over every run of a new collection. */
  lemma EveryRunReadsContent(steps: seq<Step>, rid: nat)
    requires Runs(EMPTY, map[], steps) && AllHarmless(EMPTY, steps)
    ensures Read(AfterAll(EMPTY, steps), rid) == At(ContentAfterAll(map[], steps), rid)
  {
    EmptyValid();
    RunReadsExact(EMPTY, map[], steps);
    ReadIsContent(AfterAll(EMPTY, steps), ContentAfterAll(map[], steps), rid);
  }

  // Stripping a deferred row loses what it strips.

  /**
   * After the strip the row reads as what the strip left, catch-up computes every column from that,
   * and the row reads so for good: its content is back if and only if there was nothing to strip.
   */
  lemma StripOfDeferredRow(core: Core, content: Content, rid: nat, paths: seq<string>)
    requires Sound(core, content) && rid in core.dirty && rid in content
    requires Storable(UnsetPaths(content[rid], paths), core.columns)
    ensures var left, stripped := UnsetPaths(content[rid], paths), Strip(core, rid, paths);
            && Read(stripped, rid) == Some(left) && Read(CatchUp(stripped, rid), rid) == Some(left)
            && (Read(CatchUp(stripped, rid), rid) == At(content, rid) <==> left == content[rid])
  {
    ReadIsContent(core, content, rid);
    var left, stripped := UnsetPaths(content[rid], paths), Strip(core, rid, paths);
    CaughtUpReads(stripped, rid, left);
  }

  /** Catch-up of a deferred row: it goes on reading as its base, whatever its columns held. */
  lemma {:induction false} CaughtUpReads(core: Core, rid: nat, v: Value)
    requires FreshBuilds(core.columns) && Storable(v, core.columns)
    requires rid in core.dirty && rid in core.base && core.base[rid] == v
    ensures Read(CatchUp(core, rid), rid) == Some(v)
  {
    var core' := CatchUp(core, rid);
    SamePathsReady(core.columns, core'.columns);
    StorableSame(v, core.columns, core'.columns);
    RestOfStripped(v, ReadyPaths(core'.columns), ReadyPaths(core'.columns));
    RowReads(core', rid, v);
  }

  // A run that ends in such a loss.

  function ManyRows(): seq<Change> {
    seq(DEFER_MIN_ROWS, (k: nat) => Change(k, Some(OneField(2))))
  }

  /** Install the build, strip the row, catch it up. */
  function TailSteps(): seq<Step> {
    [InstallBuilt] + ([StripRow(0, ["a"])] + ([CatchUpRow(0)] + []))
  }

  /** A column is built over one row, and a batch defers that row before the column is installed. */
  function DeferredThen(rest: seq<Step>): seq<Step> {
    [Batch([Change(0, Some(OneField(1)))], 1)] +
    ([StartColumn("a")] + ([ScanRow(0)] + ([Batch(ManyRows(), DEFER_MIN_ROWS)] + rest)))
  }

  function LossSteps(): seq<Step> {
    DeferredThen(TailSteps())
  }

  function DeferredCore(): Core {
    ApplyBatch(Scanned(), ManyRows(), DEFER_MIN_ROWS)
  }

  function DeferredContent(): Content {
    Final(map[0 := OneField(1)], ManyRows())
  }

  function Written(): Core {
    Core(map[0 := OneField(1)], [], [], {})
  }

  function Scanned(): Core {
    Core(map[0 := OneField(1)], [Column("a", false, map[], map[], map[0 := Num(1)], {})], [], {})
  }

  lemma WriteFirst()
    ensures ApplyBatch(EMPTY, [Change(0, Some(OneField(1)))], 1) == Written()
  {
    var c, d := Change(0, Some(OneField(1))), Delta(0, None, Some(OneField(1)));
    assert [c][..0] == [] && ReadyPaths([]) == [];
    BatchParts(EMPTY, [c], 1);
    assert ChangeBases(EMPTY, [], false) == (EMPTY, []);
    assert UnsetPaths(OneField(1), []) == OneField(1);
    assert ChangeBase(EMPTY, c, false) == Written();
    assert [] + [d] == [d];
    assert ChangeBases(EMPTY, [c], false) == (Written(), [d]);
    assert [d][..0] == [] && ApplyDeltas(Written(), []) == Written();
    assert ApplyDelta(Written(), d) == Written();
  }

  lemma ScanFirst()
    ensures Scan(BeginBuild(Written(), "a"), 0) == Scanned()
  {
    OneFieldPath(1);
    var core := BeginBuild(Written(), "a");
    var col := Column("a", false, map[], map[], map[], {0});
    assert Written().base.Keys == {0} && core.columns == [col];
    assert [col][..0] == [] && Hydrate(OneField(1), [], 0) == OneField(1);
    assert Hydrate(OneField(1), [col], 0) == OneField(1);
    assert Read(core, 0) == Some(OneField(1));
    assert {0} - {0} == {};
    hide Read, Hydrate;
    assert ScanColumn(col, 0, Some(OneField(1))) == Column("a", false, map[], map[], map[0 := Num(1)], {});
    assert ScanColumns(core.columns, 0, Some(OneField(1))) == Scanned().columns;
  }

  lemma OneFieldStorable(n: int, columns: seq<Column>)
    requires |columns| <= 1 && forall i | 0 <= i < |columns| :: columns[i].path == "a"
    ensures Storable(OneField(n), columns)
  {
    OneFieldPath(n);
    assert GetPlain(Num(n), []) == Some(Num(n));
    assert GetPlain(OneField(n), ["a"]) == Some(Num(n));
  }

  lemma {:induction false} FinalHas(content: Content, changes: seq<Change>, rid: nat, v: Value, k: nat)
    requires k < |changes| && changes[k].rid == rid && forall j | 0 <= j < |changes| && changes[j].rid == rid :: changes[j].value == Some(v)
    ensures At(Final(content, changes), rid) == Some(v)
  {
    var n := |changes| - 1;
    if changes[n].rid != rid {
      FinalHas(content, changes[..n], rid, v, k);
    }
  }

  lemma {:induction false} MarkAllBuilds(core: Core, ds: seq<Delta>, i: nat)
    requires i < |core.columns| && !core.columns[i].ready
    ensures |MarkAll(core, ds).columns| == |core.columns|
    ensures var c := MarkAll(core, ds).columns[i]; !c.ready && c.path == core.columns[i].path && c.remaining == core.columns[i].remaining
  {
    if ds != [] {
      MarkAllBuilds(core, ds[..|ds| - 1], i);
    }
  }

  /** After the deferred batch the row is deferred, holds its new value, and the build has no row left. */
  lemma DeferredStep(content: Content)
    requires Sound(Scanned(), content)
    ensures ChangesStorable(ManyRows(), Scanned().columns)
    ensures var core, content' := ApplyBatch(Scanned(), ManyRows(), DEFER_MIN_ROWS), Final(content, ManyRows());
            && Sound(core, content') && 0 in core.dirty && At(content', 0) == Some(OneField(2))
            && |core.columns| == 1 && !core.columns[0].ready && core.columns[0].path == "a" && core.columns[0].remaining == {}
  {
    var changes := ManyRows();
    forall k | 0 <= k < |changes| && changes[k].value.Some? ensures Storable(changes[k].value.value, Scanned().columns) {
      OneFieldStorable(2, Scanned().columns);
    }
    FinalHas(content, changes, 0, OneField(2), 0);
    LargeBatch(Scanned(), changes, 0, 0);
    hide *;
    BatchSound(Scanned(), content, changes, DEFER_MIN_ROWS);
  }

  lemma {:induction false} LargeBatch(core: Core, changes: seq<Change>, k: nat, i: nat)
    requires Deferred(core, changes) && k < |changes| && i < |core.columns| && !core.columns[i].ready
    ensures var core' := ApplyBatch(core, changes, |changes|);
            && changes[k].rid in core'.dirty && |core'.columns| == |core.columns|
            && !core'.columns[i].ready && core'.columns[i].path == core.columns[i].path && core'.columns[i].remaining == core.columns[i].remaining
  {
    BatchParts(core, changes, |changes|);
    ChangeBasesRest(core, changes, true);
    var (mid, ds) := ChangeBases(core, changes, true);
    hide ChangeBases, MarkAll, ApplyDeltas, ApplyBatch;
    MarkAllKeeps(mid, ds);
    RidsMembers(ds, k);
    MarkAllBuilds(mid, ds, i);
  }

  lemma NothingLeft(columns: seq<Column>)
    requires |columns| == 1 && columns[0].path == "a"
    ensures UnsetPaths(OneField(2), ["a"]) == EMPTY_OBJECT != OneField(2) && Storable(EMPTY_OBJECT, columns)
  {
    OneFieldPath(2);
    assert "a" in OneField(2).fields;
    assert GetSegments(EMPTY_OBJECT, ["a"]) == None && GetPlain(EMPTY_OBJECT, ["a"]) == None;
    SplitShort('b', 'a');
  }

  lemma OneInstalled(core: Core)
    requires |core.columns| == 1 && !core.columns[0].ready && core.columns[0].path == "a" && core.columns[0].remaining == {}
    ensures ReadyPaths(Install(core).columns) == ["a"] && |Install(core).columns| == 1 && Install(core).columns[0].path == "a"
    ensures Install(core).dirty == core.dirty && Install(core).base == core.base
  {
    var columns := Install(core).columns;
    assert columns[..0] == [] && ReadyPaths([]) == [];
    assert ReadyPaths(columns) == [] + ["a"];
  }

  lemma LastSteps(core: Core, content: Content)
    requires Sound(core, content) && 0 in core.dirty && At(content, 0) == Some(OneField(2))
    requires |core.columns| == 1 && !core.columns[0].ready && core.columns[0].path == "a" && core.columns[0].remaining == {}
    ensures ReadyPaths(Install(core).columns) == ["a"]
    ensures !Harmless(Install(core), StripRow(0, ["a"]))
    ensures Read(CatchUp(Strip(Install(core), 0, ["a"]), 0), 0) == Some(EMPTY_OBJECT)
  {
    var core' := Install(core);
    InstallKeeps(core, content);
    OneInstalled(core);
    NothingLeft(core'.columns);
    hide Sound, Install, Strip, CatchUp, UnsetPaths, OneField, Storable, Hydrate, ReadyPaths;
    ReadIsContent(core', content, 0);
    StripOfDeferredRow(core', content, 0, ["a"]);
  }

  lemma RunsCons(core: Core, content: Content, step: Step, rest: seq<Step>)
    requires Enabled(core, content, step)
    ensures Runs(core, content, [step] + rest) <==> Runs(After(core, step), ContentAfter(content, step), rest)
    ensures AfterAll(core, [step] + rest) == AfterAll(After(core, step), rest)
    ensures ContentAfterAll(content, [step] + rest) == ContentAfterAll(ContentAfter(content, step), rest)
    ensures AllHarmless(core, [step] + rest) <==> Harmless(core, step) && AllHarmless(After(core, step), rest)
  {
    assert ([step] + rest)[1..] == rest;
  }

  lemma LossTail(core: Core, content: Content)
    requires ReadyPaths(Install(core).columns) == ["a"] && !Harmless(Install(core), StripRow(0, ["a"]))
    ensures Runs(core, content, TailSteps()) && !AllHarmless(core, TailSteps())
    ensures AfterAll(core, TailSteps()) == CatchUp(Strip(Install(core), 0, ["a"]), 0) && ContentAfterAll(content, TailSteps()) == content
  {
    var built, strip := Install(core), StripRow(0, ["a"]);
    hide Install, Strip, CatchUp, Runs, AfterAll, ContentAfterAll, AllHarmless;
    RunsCons(core, content, InstallBuilt, [strip] + ([CatchUpRow(0)] + []));
    RunsCons(built, content, strip, [CatchUpRow(0)] + []);
    RunsCons(Strip(built, 0, ["a"]), content, CatchUpRow(0), []);
    RunsNone(CatchUp(Strip(built, 0, ["a"]), 0), content);
  }

  /** From the empty collection the run gets there, and goes on with the rest. */
  lemma DeferredRun(rest: seq<Step>)
    ensures Runs(EMPTY, map[], DeferredThen(rest)) <==> Runs(DeferredCore(), DeferredContent(), rest)
    ensures AfterAll(EMPTY, DeferredThen(rest)) == AfterAll(DeferredCore(), rest)
    ensures ContentAfterAll(map[], DeferredThen(rest)) == ContentAfterAll(DeferredContent(), rest)
    ensures AllHarmless(EMPTY, DeferredThen(rest)) <==> AllHarmless(DeferredCore(), rest)
  {
    var one: Content := map[0 := OneField(1)];
    WriteFirst();
    ScanFirst();
    SoundScanned();
    DeferredStep(one);
    FirstEnabled();
    hide Sound, ApplyBatch, ManyRows, Final, ChangesStorable, Buildable, Install, Strip, CatchUp, Read, BeginBuild, Scan;
    hide Runs, AfterAll, ContentAfterAll, AllHarmless;
    var first, big := Batch([Change(0, Some(OneField(1)))], 1), Batch(ManyRows(), DEFER_MIN_ROWS);
    RunsCons(EMPTY, map[], first, [StartColumn("a")] + ([ScanRow(0)] + ([big] + rest)));
    RunsCons(Written(), one, StartColumn("a"), [ScanRow(0)] + ([big] + rest));
    RunsCons(BeginBuild(Written(), "a"), one, ScanRow(0), [big] + rest);
    RunsCons(Scanned(), one, big, rest);
  }

  /** There the row is deferred with a value for the column that is ready to be installed. */
  lemma DeferredState()
    ensures Sound(DeferredCore(), DeferredContent()) && 0 in DeferredCore().dirty && At(DeferredContent(), 0) == Some(OneField(2))
    ensures var columns := DeferredCore().columns;
            |columns| == 1 && !columns[0].ready && columns[0].path == "a" && columns[0].remaining == {}
  {
    SoundScanned();
    DeferredStep(map[0 := OneField(1)]);
  }

  /**
   * Such a run exists: a column is built while a batch of 5000 rows defers the row it has scanned.
   * The row was written as `{a: 2}` and reads as `{}`, caught up and with nothing left to do.
   */
  lemma StripLosesValue()
    ensures Runs(EMPTY, map[], LossSteps()) && !AllHarmless(EMPTY, LossSteps())
    ensures At(ContentAfterAll(map[], LossSteps()), 0) == Some(OneField(2))
    ensures Read(AfterAll(EMPTY, LossSteps()), 0) == Some(EMPTY_OBJECT)
  {
    DeferredRun(TailSteps());
    DeferredState();
    hide DeferredCore, DeferredContent, TailSteps, DeferredThen, Runs, AfterAll, ContentAfterAll, AllHarmless;
    LastSteps(DeferredCore(), DeferredContent());
    hide *;
    LossTail(DeferredCore(), DeferredContent());
  }

  lemma RunsNone(core: Core, content: Content)
    ensures Runs(core, content, []) && AfterAll(core, []) == core && ContentAfterAll(content, []) == content
  {
  }

  lemma FirstEnabled()
    ensures ChangesStorable([Change(0, Some(OneField(1)))], []) && Buildable(map[0 := OneField(1)], "a")
    ensures Final(map[], [Change(0, Some(OneField(1)))]) == map[0 := OneField(1)]
  {
    var c, col := Change(0, Some(OneField(1))), Column("a", false, map[], map[], map[], {});
    OneFieldStorable(1, []);
    OneFieldStorable(1, [col]);
    assert PathOk(OneField(1), [col][0].path);
    assert [c][..0] == [] && Final(map[], []) == map[];
  }

  lemma SoundScanned()
    ensures Sound(Scanned(), map[0 := OneField(1)])
  {
    EmptyValid();
    WriteFirst();
    FirstEnabled();
    BatchSound(EMPTY, map[], [Change(0, Some(OneField(1)))], 1);
    BeginBuildKeeps(Written(), map[0 := OneField(1)], "a");
    ScanFirst();
    ScanKeeps(BeginBuild(Written(), "a"), map[0 := OneField(1)], 0);
  }

  // Nothing deferred.

  /** Two indexes that answer alike: same values, keys, groups and row sets. */
  ghost predicate SameIndex(a: Index, b: Index) {
    && a.forward == b.forward
    && (forall k {:trigger IdsIn(a.lookup, k)} :: IdsIn(a.lookup, k) == IdsIn(b.lookup, k))
    && (forall v {:trigger IdsIn(a.ordered, v)} :: IdsIn(a.ordered, v) == IdsIn(b.ordered, v))
    && a.containsString == b.containsString && a.containsScalar == b.containsScalar && a.containsNested == b.containsNested
  }

  lemma ForwardDecides(a: Index, b: Index)
    requires IndexValid(a) && IndexValid(b) && a.forward == b.forward
    ensures SameIndex(a, b)
  {
    forall rid: nat ensures RowIndexed(a, rid) && RowIndexed(b, rid) {}
    forall k ensures IdsIn(a.lookup, k) == IdsIn(b.lookup, k) {
      forall rid: nat ensures rid in IdsIn(a.lookup, k) <==> rid in IdsIn(b.lookup, k) {
        assert RowIndexed(a, rid) && RowIndexed(b, rid);
      }
    }
    forall v ensures IdsIn(a.ordered, v) == IdsIn(b.ordered, v) {
      forall rid: nat ensures rid in IdsIn(a.ordered, v) <==> rid in IdsIn(b.ordered, v) {
        assert RowIndexed(a, rid) && RowIndexed(b, rid);
      }
    }
    SameRowSets(a, b);
  }

  lemma SameRowSets(a: Index, b: Index)
    requires IndexValid(a) && IndexValid(b) && a.forward == b.forward
    ensures a.containsString == b.containsString && a.containsScalar == b.containsScalar && a.containsNested == b.containsNested
  {
    forall rid: nat
      ensures rid in a.containsString <==> rid in b.containsString
      ensures rid in a.containsScalar <==> rid in b.containsScalar
      ensures rid in a.containsNested <==> rid in b.containsNested
    {
      assert RowIndexed(a, rid) && RowIndexed(b, rid);
    }
  }

  function ValuesOf(content: Content, path: string): map<nat, Option<Value>> {
    map rid | rid in content :: GetPath(content[rid], path)
  }

  function ColumnOf(content: Content, path: string): map<nat, Value> {
    map rid | rid in content && GetPath(content[rid], path).Some? :: GetPath(content[rid], path).value
  }

  lemma ForwardIsContent(ix: PathIndex, content: Content)
    requires forall rid :: Recorded(ix.index, rid, At(content, rid), ix.path)
    ensures ix.index.forward == ValuesOf(content, ix.path)
  {
    forall rid ensures rid in ix.index.forward <==> rid in content {
      assert Recorded(ix.index, rid, At(content, rid), ix.path);
    }
    forall rid | rid in content ensures ix.index.forward[rid] == GetPath(content[rid], ix.path) {
      assert Recorded(ix.index, rid, At(content, rid), ix.path);
    }
  }

  /** With nothing deferred, each index records the live rows' current values. */
  lemma CleanForward(core: Core, content: Content, i: nat)
    requires Sound(core, content) && core.dirty == {} && i < |core.indexes|
    ensures core.indexes[i].index.forward == ValuesOf(content, core.indexes[i].path)
  {
    forall rid ensures Recorded(core.indexes[i].index, rid, At(content, rid), core.indexes[i].path) {
      assert DerivedMatches(core, rid, At(content, rid));
    }
    ForwardIsContent(core.indexes[i], content);
  }

  /** And each ready column holds them. */
  lemma CleanColumn(core: Core, content: Content, i: nat)
    requires Sound(core, content) && core.dirty == {} && i < |core.columns| && core.columns[i].ready
    ensures core.columns[i].values == ColumnOf(content, core.columns[i].path)
  {
    var c := core.columns[i];
    forall rid ensures ColumnMatches(c, rid, At(content, rid)) {
      assert DerivedMatches(core, rid, At(content, rid));
    }
    forall rid ensures rid in c.values <==> rid in ColumnOf(content, c.path) {
      assert ColumnMatches(c, rid, At(content, rid));
    }
    forall rid | rid in c.values ensures c.values[rid] == ColumnOf(content, c.path)[rid] {
      assert ColumnMatches(c, rid, At(content, rid));
    }
  }

  /** So every index answers as one built from scratch, and every ready column holds what one would. */
  lemma CleanIsRebuilt(core: Core, content: Content, order: seq<nat>)
    requires Valid(core, content) && core.dirty == {}
    requires NoRepeats(order) && forall rid :: rid in order <==> rid in core.base
    ensures forall i {:trigger core.indexes[i]} | 0 <= i < |core.indexes| :: SameIndex(core.indexes[i].index, BuildIndex(core, core.indexes[i].path, order))
    ensures forall i {:trigger core.columns[i]} | 0 <= i < |core.columns| && core.columns[i].ready :: core.columns[i].values == ColumnOf(content, core.columns[i].path)
  {
    forall i | 0 <= i < |core.indexes| ensures SameIndex(core.indexes[i].index, BuildIndex(core, core.indexes[i].path, order)) {
      var path := core.indexes[i].path;
      CleanForward(core, content, i);
      BuildIndexMeans(core, content, path, order, 0);
      forall rid ensures Recorded(BuildIndex(core, path, order), rid, At(content, rid), path) {
        BuildIndexMeans(core, content, path, order, rid);
        assert BaseMatches(core, rid, At(content, rid));
      }
      ForwardIsContent(PathIndex(path, BuildIndex(core, path, order)), content);
      ForwardDecides(core.indexes[i].index, BuildIndex(core, path, order));
    }
    forall i | 0 <= i < |core.columns| && core.columns[i].ready ensures core.columns[i].values == ColumnOf(content, core.columns[i].path) {
      CleanColumn(core, content, i);
    }
  }
}
