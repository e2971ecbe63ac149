/**
 * The collection object (src/store.js, class Collection): its fields are updated in place, and each
 * method is proved against the functions of `Collections`.  Deferred rows wait in a queue that the
 * catch-up job drains.
 */
module LiveCollections {
  import opened Wrappers
  import opened Layout
  import opened FieldIndexes
  import opened Collections
  import opened Deferral
  import opened RidQueues
  import opened TieredBases

  class Collection {
    /** The base rows, in their hot and cold parts. */
    const base: TieredBase
    var columns: seq<Column>
    var indexes: seq<PathIndex>
    var dirty: set<nat>
    ghost var content: Content

    ghost function State(): Core
      reads this, base
    {
      Core(base.Contents(), columns, indexes, dirty)
    }

    /** Every object can be kept in the parts that the tiering asks for. */
    ghost predicate Fits()
      reads this, base
    {
      base.Valid() && forall rid | rid in content :: base.Tierable(content[rid])
    }

    ghost predicate ChangesFit(changes: seq<Change>)
      reads base
    {
      forall k {:trigger changes[k]} | 0 <= k < |changes| && changes[k].value.Some? :: base.Tierable(changes[k].value.value)
    }

    constructor (small: Value -> bool)
      ensures State() == EMPTY && content == map[] && Fits() && fresh(base)
    {
      base := new TieredBase(small);
      columns, indexes, dirty, content := [], [], {}, map[];
    }

    /**
     * Write the base rows of one batch, then bring its derived state up to date or defer it.  Reads
     * follow the changes; lookups stay exact exactly when the batch meets its condition.
     */
    method Apply(changes: seq<Change>, attempted: nat)
      requires Sound(State(), content) && ChangesStorable(changes, columns) && attempted >= |changes|
      requires Fits() && ChangesFit(changes)
      modifies this, base`hot, base`cold
      ensures State() == ApplyBatch(old(State()), changes, attempted)
      ensures content == Final(old(content), changes) && Sound(State(), content) && Fits()
      ensures old(IndexesValid(indexes)) ==> (IndexesValid(indexes) <==> old(BatchExact(State(), content, changes, attempted)))
    {
      ghost var start := State();
      BatchSound(start, content, changes, attempted);
      if IndexesValid(indexes) {
        BatchLookupsExact(start, content, changes, attempted);
      }
      FinalFits(changes);
      hide *;
      RunBatch(changes, attempted);
      content := Final(content, changes);
    }

    method RunBatch(changes: seq<Change>, attempted: nat)
      requires base.Valid() && ChangesFit(changes)
      modifies base`hot, base`cold, `columns, `indexes, `dirty
      ensures base.Valid() && State() == ApplyBatch(old(State()), changes, attempted)
    {
      BatchParts(State(), changes, attempted);
      hide ChangeBases, MarkAll, ApplyDeltas, ApplyBatch;
      var work := indexes != [] || columns != [];
      var deltas := ChangeRows(changes, attempted >= DEFER_MIN_ROWS && work);
      if |deltas| >= DEFER_MIN_ROWS && work {
        DeferAll(deltas);
      } else {
        ApplyAll(deltas);
      }
    }

    lemma FinalFits(changes: seq<Change>)
      requires Fits() && ChangesFit(changes)
      ensures forall rid | rid in Final(content, changes) :: base.Tierable(Final(content, changes)[rid])
      decreases |changes|
    {
      if changes != [] {
        FinalFits(changes[..|changes| - 1]);
      }
    }

    method ChangeRows(changes: seq<Change>, keepColumnFields: bool) returns (deltas: seq<Delta>)
      requires base.Valid() && ChangesFit(changes)
      modifies base`hot, base`cold
      ensures base.Valid()
      ensures (State(), deltas) == ChangeBases(old(State()), changes, keepColumnFields)
    {
      ghost var start := State();
      deltas := [];
      for i := 0 to |changes|
        invariant base.Valid() && ChangesFit(changes)
        invariant (State(), deltas) == ChangeBases(start, changes[..i], keepColumnFields)
      {
        assert changes[..i + 1][..i] == changes[..i];
        var before := ReadRow(changes[i].rid);
        ChangeRow(changes[i], keepColumnFields);
        deltas := deltas + [Delta(changes[i].rid, before, changes[i].value)];
      }
      assert changes[..|changes|] == changes;
    }

    method DeferAll(deltas: seq<Delta>)
      modifies `columns, `dirty
      ensures State() == MarkAll(old(State()), deltas)
    {
      ghost var start := State();
      for i := 0 to |deltas|
        invariant State() == MarkAll(start, deltas[..i])
      {
        assert deltas[..i + 1][..i] == deltas[..i];
        columns := RecordBuilds(columns, deltas[i].rid, deltas[i].after);
        dirty := dirty + {deltas[i].rid};
      }
      assert deltas[..|deltas|] == deltas;
    }

    method ApplyAll(deltas: seq<Delta>)
      modifies `columns, `indexes
      ensures State() == ApplyDeltas(old(State()), deltas)
    {
      ghost var start := State();
      for i := 0 to |deltas|
        invariant State() == ApplyDeltas(start, deltas[..i])
      {
        assert deltas[..i + 1][..i] == deltas[..i];
        ApplyOne(deltas[i]);
      }
      assert deltas[..|deltas|] == deltas;
    }

    method ReadRow(rid: nat) returns (obj: Option<Value>)
      ensures obj == Read(State(), rid)
    {
      var row := base.Read(rid);
      if row.None? || rid in dirty {
        return row;
      }
      var out := row.value;
      for i := 0 to |columns|
        invariant out == Hydrate(row.value, columns[..i], rid)
      {
        assert columns[..i + 1][..i] == columns[..i];
        if rid in columns[i].values {
          out := SetPath(out, columns[i].path, columns[i].values[rid]);
        }
      }
      assert columns[..|columns|] == columns;
      obj := Some(out);
    }

    method ChangeRow(c: Change, keepColumnFields: bool)
      requires base.Valid() && (c.value.Some? ==> base.Tierable(c.value.value))
      modifies base`hot, base`cold
      ensures base.Valid() && State() == ChangeBase(old(State()), c, keepColumnFields)
    {
      if c.value.None? {
        base.Remove(c.rid);
      } else if keepColumnFields || dirty != {} {
        base.Write(c.rid, c.value.value, []);
      } else {
        base.Write(c.rid, c.value.value, ReadyPaths(columns));
      }
    }

    method ApplyOne(d: Delta)
      modifies `columns, `indexes
      ensures State() == ApplyDelta(old(State()), d)
    {
      if d.rid in dirty {
        columns := RecordBuilds(columns, d.rid, d.after);
        return;
      }
      indexes := DeltaIndexes(indexes, d.rid, d.before, d.after);
      columns := UpdateColumns(columns, d.rid, d.after);
    }

    method RefreshRow(rid: nat)
      requires base.Valid() && (Read(State(), rid).Some? ==> base.Tierable(Read(State(), rid).value))
      modifies base`hot, base`cold, `columns, `indexes, `dirty
      ensures base.Valid() && State() == CatchUp(old(State()), rid)
    {
      var obj := ReadRow(rid);
      columns := UpdateColumns(columns, rid, obj);
      indexes := RefreshIndexes(indexes, rid, obj);
      if obj.Some? {
        base.Write(rid, obj.value, ReadyPaths(columns));
      }
      dirty := dirty - {rid};
    }

    /** What a sound state reads can be kept. */
    lemma ReadFits(rid: nat)
      requires Sound(State(), content) && Fits()
      ensures Read(State(), rid).Some? ==> base.Tierable(Read(State(), rid).value)
    {
      ReadIsContent(State(), content, rid);
    }

    method CatchUpRow(rid: nat)
      requires Sound(State(), content) && Fits()
      modifies base`hot, base`cold, `columns, `indexes, `dirty
      ensures Sound(State(), content) && Fits() && (old(IndexesValid(indexes)) ==> IndexesValid(indexes))
      ensures State() == CatchUp(old(State()), rid) && dirty == old(dirty) - {rid}
    {
      CatchUpKeeps(State(), content, rid);
      ReadFits(rid);
      hide Sound, IndexesValid;
      RefreshRow(rid);
    }

    /** Catch up a batch of deferred rows; no read changes. */
    method CatchUpRows(batch: seq<nat>)
      requires Sound(State(), content) && Fits()
      modifies base`hot, base`cold, `columns, `indexes, `dirty
      ensures Sound(State(), content) && Fits() && (old(IndexesValid(indexes)) ==> IndexesValid(indexes))
      ensures dirty == old(dirty) - (set rid | rid in batch)
    {
      for i := 0 to |batch|
        invariant Sound(State(), content) && Fits() && (old(IndexesValid(indexes)) ==> IndexesValid(indexes))
        invariant dirty == old(dirty) - (set rid | rid in batch[..i])
      {
        hide Sound, IndexesValid;
        CatchUpRow(batch[i]);
      }
      assert batch[..|batch|] == batch;
    }

    /**
     * The catch-up job without interruption: take some rows off the queue of deferred rows, refresh
     * and forget each, until none is left.  The deferred set is what the queue holds.
     */
    method Drain(queue: RidBitmapQueue, batchSize: nat)
      requires Sound(State(), content) && Fits() && batchSize > 0
      requires queue.Valid() && queue.Waiting() && forall rid :: queue.Holds(rid) <==> rid in dirty
      modifies base`hot, base`cold, `columns, `indexes, `dirty, queue
      ensures Sound(State(), content) && Fits() && (old(IndexesValid(indexes)) ==> IndexesValid(indexes))
      ensures dirty == {} && forall rid :: !queue.Holds(rid)
    {
      while queue.size > 0
        invariant Sound(State(), content) && Fits() && (old(IndexesValid(indexes)) ==> IndexesValid(indexes))
        invariant queue.Valid() && queue.Waiting() && forall rid :: queue.Holds(rid) <==> rid in dirty
        decreases dirty
      {
        var batch := queue.Take(batchSize);
        if batch == [] {
          assert forall rid | rid in dirty :: !queue.Holds(rid);
          assert dirty == {};
          queue.Clear();
          break;
        }
        ForgetRows(queue, batch);
        assert batch[0] in batch;
      }
      if queue.size <= 0 {
        queue.Empty();
        assert forall rid | rid in dirty :: !queue.Holds(rid);
        assert dirty == {};
      }
    }

    /** Refresh some deferred rows and take them off the queue. */
    method ForgetRows(queue: RidBitmapQueue, batch: seq<nat>)
      requires Sound(State(), content) && Fits()
      requires queue.Valid() && AllListed(queue.bits, queue.queue, queue.head, batch)
      requires forall rid :: queue.Holds(rid) <==> rid in dirty
      modifies base`hot, base`cold, `columns, `indexes, `dirty, queue
      ensures Sound(State(), content) && Fits() && (old(IndexesValid(indexes)) ==> IndexesValid(indexes))
      ensures dirty == old(dirty) - (set rid | rid in batch)
      ensures queue.Valid() && queue.Waiting() && forall rid :: queue.Holds(rid) <==> rid in dirty
    {
      hide Sound, IndexesValid, CatchUp, Collection.Fits;
      for i := 0 to |batch|
        invariant Sound(State(), content) && Fits() && (old(IndexesValid(indexes)) ==> IndexesValid(indexes))
        invariant dirty == old(dirty) - (set rid | rid in batch[..i])
        invariant queue.Valid() && AllListed(queue.bits, queue.queue, queue.head, batch)
        invariant forall rid :: queue.Holds(rid) <==> rid in dirty
      {
        CatchUpRow(batch[i]);
        var _ := queue.Delete(batch[i]);
      }
      assert batch[..|batch|] == batch;
      forall rid: nat | rid < |queue.bits| && queue.bits[rid] ensures rid in queue.queue[queue.head..] {
        assert queue.Holds(rid);
      }
    }

    /** Every row is rewritten where the tiering puts it; its columns' fields are stripped as it goes. */
    method Retier(rows: seq<nat>)
      requires Sound(State(), content) && Fits() && NoRepeats(rows)
      modifies base`hot, base`cold
      ensures Fits() && State() == StripAll(old(State()), rows, ReadyPaths(columns))
      ensures ReadsRight(State(), content) <==> old(NothingDeferredStripped(State(), content, rows, ReadyPaths(columns)))
      ensures ReadsRight(State(), content) ==> Sound(State(), content)
    {
      ghost var start := State();
      var paths := ReadyPaths(columns);
      StripAllExact(start, content, rows, paths);
      hide Sound, ReadsRight, NothingDeferredStripped, Collection.Fits;
      assert Fits();
      for i := 0 to |rows|
        invariant Fits() && State() == StripAll(start, rows[..i], paths)
      {
        assert rows[..i + 1][..i] == rows[..i];
        NextFits(start, rows, i, paths);
        RewriteRow(rows[i], paths);
      }
      assert rows[..|rows|] == rows;
    }

    /** A row not yet rewritten still reads as its content. */
    lemma NextFits(start: Core, rows: seq<nat>, i: nat, paths: seq<string>)
      requires Sound(start, content) && Fits() && NoRepeats(rows) && i < |rows|
      requires forall path | path in paths :: path in ReadyPaths(start.columns)
      ensures var obj := Read(StripAll(start, rows[..i], paths), rows[i]); obj.Some? ==> base.Tierable(obj.value)
    {
      StripAllReads(start, content, rows[..i], paths, rows[i]);
    }

    method RewriteRow(rid: nat, paths: seq<string>)
      requires Fits() && (Read(State(), rid).Some? ==> base.Tierable(Read(State(), rid).value))
      modifies base`hot, base`cold
      ensures Fits() && State() == Strip(old(State()), rid, paths)
    {
      var obj := ReadRow(rid);
      if obj.Some? {
        base.Write(rid, obj.value, paths);
      }
    }
  }

  // Rewriting every row.

  ghost function StripAll(core: Core, rows: seq<nat>, paths: seq<string>): Core {
    if rows == [] then core else Strip(StripAll(core, rows[..|rows| - 1], paths), rows[|rows| - 1], paths)
  }

  /** No deferred row among them has anything to strip. */
  ghost predicate NothingDeferredStripped(core: Core, content: Content, rows: seq<nat>, paths: seq<string>) {
    forall rid | rid in rows && rid in core.dirty && rid in content :: UnsetPaths(content[rid], paths) == content[rid]
  }

  lemma {:induction false} StripAllRows(core: Core, rows: seq<nat>, paths: seq<string>)
    requires NoRepeats(rows)
    ensures var core' := StripAll(core, rows, paths);
            && core'.columns == core.columns && core'.indexes == core.indexes && core'.dirty == core.dirty
            && core'.base.Keys == core.base.Keys
            && forall rid | rid in core.base :: core'.base[rid] == if rid in rows then Strip(core, rid, paths).base[rid] else core.base[rid]
  {
    if rows != [] {
      var front, last := rows[..|rows| - 1], rows[|rows| - 1];
      StripAllRows(core, front, paths);
      assert rows == front + [last] && last !in front;
      hide Hydrate, UnsetPaths;
    }
  }

  /** A rewritten row reads as before, but a deferred one reads as what is left. */
  lemma StripAllReads(core: Core, content: Content, rows: seq<nat>, paths: seq<string>, rid: nat)
    requires Sound(core, content) && NoRepeats(rows) && forall path | path in paths :: path in ReadyPaths(core.columns)
    ensures Read(StripAll(core, rows, paths), rid) ==
            if rid in rows && rid in core.dirty && rid in content then Some(UnsetPaths(content[rid], paths)) else At(content, rid)
  {
    StripAllRows(core, rows, paths);
    ReadIsContent(core, content, rid);
    if rid in rows && rid !in core.dirty {
      StripKeeps(core, content, rid, paths);
      ReadIsContent(Strip(core, rid, paths), content, rid);
    }
  }

  lemma {:induction false} StripAllSound(core: Core, content: Content, rows: seq<nat>, paths: seq<string>)
    requires Sound(core, content) && NoRepeats(rows) && forall path | path in paths :: path in ReadyPaths(core.columns)
    requires NothingDeferredStripped(core, content, rows, paths)
    ensures Sound(StripAll(core, rows, paths), content)
  {
    if rows != [] {
      var front := rows[..|rows| - 1];
      StripAllSound(core, content, front, paths);
      StripAllRows(core, front, paths);
      StripKeeps(StripAll(core, front, paths), content, rows[|rows| - 1], paths);
    }
  }

  /** Rewriting all rows changes no read exactly when no deferred row has a field that a ready column holds. */
  lemma StripAllExact(core: Core, content: Content, rows: seq<nat>, paths: seq<string>)
    requires Sound(core, content) && NoRepeats(rows) && forall path | path in paths :: path in ReadyPaths(core.columns)
    ensures ReadsRight(StripAll(core, rows, paths), content) <==> NothingDeferredStripped(core, content, rows, paths)
    ensures NothingDeferredStripped(core, content, rows, paths) ==> Sound(StripAll(core, rows, paths), content)
  {
    hide Sound, Read, UnsetPaths;
    forall rid ensures Read(StripAll(core, rows, paths), rid) ==
                       if rid in rows && rid in core.dirty && rid in content then Some(UnsetPaths(content[rid], paths)) else At(content, rid) {
      StripAllReads(core, content, rows, paths, rid);
    }
    if NothingDeferredStripped(core, content, rows, paths) {
      StripAllSound(core, content, rows, paths);
    }
  }

  /** With the column installed and the row still deferred, the state is sound. */
  lemma InstalledState()
    ensures var core := Install(DeferredCore());
            && Sound(core, DeferredContent()) && 0 in core.dirty && At(DeferredContent(), 0) == Some(OneField(2))
            && |core.columns| == 1 && core.columns[0].path == "a" && ReadyPaths(core.columns) == ["a"]
  {
    DeferredState();
    InstallKeeps(DeferredCore(), DeferredContent());
    hide Sound, DeferredCore, DeferredContent;
    OneInstalled(DeferredCore());
  }

  /**
   * A run from the empty collection on which every row reads right, and on whose last state a change of
   * the tiering loses a value: the row was written as `{a: 2}`, reads as `{}` once all rows are
   * rewritten, and still does so after it is caught up.
   */
  lemma RetierLosesValue(rows: seq<nat>)
    requires NoRepeats(rows) && forall rid :: rid in rows <==> rid in AfterAll(EMPTY, DeferredThen([InstallBuilt])).base
    ensures var steps := DeferredThen([InstallBuilt]);
            var core := AfterAll(EMPTY, steps);
            var retiered := StripAll(core, rows, ReadyPaths(core.columns));
            && Runs(EMPTY, map[], steps) && AlwaysReadsRight(EMPTY, map[], steps)
            && Read(core, 0) == Some(OneField(2))
            && Read(retiered, 0) == Some(EMPTY_OBJECT) && Read(CatchUp(retiered, 0), 0) == Some(EMPTY_OBJECT)
  {
    var core, content := Install(DeferredCore()), DeferredContent();
    InstalledRun();
    InstalledState();
    RetieredReads(core, content, rows);
  }

  lemma InstalledRun()
    ensures var steps := DeferredThen([InstallBuilt]);
            && Runs(EMPTY, map[], steps) && AlwaysReadsRight(EMPTY, map[], steps)
            && AfterAll(EMPTY, steps) == Install(DeferredCore())
  {
    var steps := DeferredThen([InstallBuilt]);
    DeferredRun([InstallBuilt] + []);
    RunsCons(DeferredCore(), DeferredContent(), InstallBuilt, []);
    RunsNone(Install(DeferredCore()), DeferredContent());
    assert [InstallBuilt] + [] == [InstallBuilt];
    EmptyValid();
    hide DeferredCore, DeferredContent, DeferredThen, AfterAll, ContentAfterAll, AlwaysReadsRight, Runs;
    assert AllHarmless(EMPTY, steps);
    hide *;
    RunReadsExact(EMPTY, map[], steps);
  }

  lemma RetieredReads(core: Core, content: Content, rows: seq<nat>)
    requires Sound(core, content) && 0 in core.dirty && At(content, 0) == Some(OneField(2))
    requires |core.columns| == 1 && core.columns[0].path == "a" && ReadyPaths(core.columns) == ["a"]
    requires NoRepeats(rows) && forall rid :: rid in rows <==> rid in core.base
    ensures var retiered := StripAll(core, rows, ReadyPaths(core.columns));
            && Read(core, 0) == Some(OneField(2))
            && Read(retiered, 0) == Some(EMPTY_OBJECT) && Read(CatchUp(retiered, 0), 0) == Some(EMPTY_OBJECT)
  {
    var retiered := StripAll(core, rows, ["a"]);
    ReadIsContent(core, content, 0);
    assert FreshBuilds(core.columns);
    hide Sound, StripAll, FreshBuilds, CatchUp, Hydrate;
    StripAllReads(core, content, rows, ["a"], 0);
    StripAllRows(core, rows, ["a"]);
    NothingLeft(retiered.columns);
    hide UnsetPaths, OneField, Storable;
    CaughtUpReads(retiered, 0, EMPTY_OBJECT);
  }
}
