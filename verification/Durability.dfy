/**
 * The persistence manager's own code (src/persistence.js, class PersistenceManager): queueing,
 * requeueing, chunking, compaction and the restore loops, proved against the step machine.
 */
module Durability {
  import opened Wrappers
  import opened Clocks
  import opened Rows
  import opened OpLogs
  import P = Persistence

  datatype Dirty = Dirty(ops: nat, version: nat, lastSeq: nat)

  class PersistenceManager {
    var pending: map<Scope, seq<Op>>
    var dirtyScopes: map<Scope, Dirty>
    var flushPaused: bool

    constructor ()
      ensures pending == map[] && dirtyScopes == map[] && !flushPaused
    {
      pending, dirtyScopes, flushPaused := map[], map[], false;
    }

    /** A queued op waits behind the earlier ops of its scope and marks the scope dirty. */
    method QueueOp(op: Op)
      modifies this
      ensures flushPaused == old(flushPaused)
      ensures if op.key.db == "" || op.key.coll == "" || op.key.id == "" || op.shard == ""
              then pending == old(pending) && dirtyScopes == old(dirtyScopes)
              else
                && pending == P.Enqueue(old(pending), op) && dirtyScopes == Marked(old(dirtyScopes), op)
                && pending == old(pending)[ScopeOf(op) := (if ScopeOf(op) in old(pending) then old(pending)[ScopeOf(op)] else []) + [op]]
    {
      if op.key.db == "" || op.key.coll == "" || op.key.id == "" || op.shard == "" {
        return;
      }
      var scope := ScopeOf(op);
      var queue := if scope in pending then pending[scope] else [];
      pending := pending[scope := queue + [op]];
      MarkDirty(scope, op);
    }

    method MarkDirty(scope: Scope, op: Op)
      requires scope == ScopeOf(op)
      modifies `dirtyScopes
      ensures dirtyScopes == Marked(old(dirtyScopes), op)
    {
      var d := if scope in dirtyScopes then dirtyScopes[scope] else Dirty(0, 0, 0);
      dirtyScopes := dirtyScopes[scope := Dirty(d.ops + 1, d.version + 1, Max(d.lastSeq, op.seqNo))];
    }

    /** A paused flush takes nothing; any other takes everything that is pending. */
    method TakeBatches() returns (batches: map<Scope, seq<Op>>)
      modifies `pending
      ensures batches == if flushPaused then map[] else old(pending)
      ensures pending == if flushPaused then old(pending) else map[]
    {
      if flushPaused {
        return map[];
      }
      batches, pending := pending, map[];
    }

    /** What a failed flush had taken goes back in front, scope by scope. */
    method RequeueBatches(batches: map<Scope, seq<Op>>)
      modifies `pending
      ensures pending == P.Requeue(old(pending), batches)
      ensures pending.Keys == old(pending).Keys + batches.Keys
      ensures forall scope | scope in pending :: pending[scope] ==
                (if scope in batches then batches[scope] else []) + (if scope in old(pending) then old(pending)[scope] else [])
    {
      ghost var before := pending;
      var left := batches.Keys;
      assert Requeued(before, batches, left, pending);
      while left != {}
        invariant left <= batches.Keys
        invariant pending.Keys == before.Keys + (batches.Keys - left)
        invariant Requeued(before, batches, left, pending)
        decreases left
      {
        var scope :| scope in left;
        left := left - {scope};
        RequeuedOne(before, batches, left, pending, scope);
        pending := pending[scope := batches[scope] + P.Held(pending, scope)];
      }
      RequeuedAll(before, batches, pending);
      assert forall scope | scope in pending && scope !in batches :: [] + pending[scope] == pending[scope];
      assert forall scope | scope in pending && scope !in before :: batches[scope] + [] == batches[scope];
    }

    /**
     * After a scope was checkpointed it stays dirty exactly when ops were queued for it since the
     * checkpoint chose it.
     */
    method MarkCheckpointed(scope: Scope, version: Option<nat>)
      modifies `dirtyScopes
      ensures dirtyScopes == if scope in old(dirtyScopes) && version.Some? && old(dirtyScopes)[scope].version > version.value
                             then old(dirtyScopes) else old(dirtyScopes) - {scope}
    {
      if scope in dirtyScopes && version.Some? && dirtyScopes[scope].version > version.value {
        return;
      }
      dirtyScopes := dirtyScopes - {scope};
    }
  }

  /** Requeueing in progress: the scopes in `left` are still to come. */
  ghost predicate Requeued(before: map<Scope, seq<Op>>, batches: map<Scope, seq<Op>>, left: set<Scope>, now: map<Scope, seq<Op>>) {
    && now.Keys == before.Keys + (batches.Keys - left)
    && forall scope {:trigger now[scope]} | scope in now ::
         now[scope] == if scope in batches && scope !in left then batches[scope] + P.Held(before, scope) else P.Held(before, scope)
  }

  lemma RequeuedOne(before: map<Scope, seq<Op>>, batches: map<Scope, seq<Op>>, left: set<Scope>, now: map<Scope, seq<Op>>, scope: Scope)
    requires scope in batches && scope !in left && Requeued(before, batches, left + {scope}, now)
    ensures Requeued(before, batches, left, now[scope := batches[scope] + P.Held(now, scope)])
  {
  }

  lemma RequeuedAll(before: map<Scope, seq<Op>>, batches: map<Scope, seq<Op>>, now: map<Scope, seq<Op>>)
    requires Requeued(before, batches, {}, now)
    ensures now == P.Requeue(before, batches)
  {
    forall scope | scope in now ensures now[scope] == P.Held(batches, scope) + P.Held(before, scope) {
      assert [] + now[scope] == now[scope];
    }
  }

  function Marked(dirty: map<Scope, Dirty>, op: Op): map<Scope, Dirty> {
    var d := if ScopeOf(op) in dirty then dirty[ScopeOf(op)] else Dirty(0, 0, 0);
    dirty[ScopeOf(op) := Dirty(d.ops + 1, d.version + 1, Max(d.lastSeq, op.seqNo))]
  }

  function MarkedAll(dirty: map<Scope, Dirty>, ops: seq<Op>): map<Scope, Dirty> {
    if ops == [] then dirty else Marked(MarkedAll(dirty, ops[..|ops| - 1]), ops[|ops| - 1])
  }

  /** How many of the ops are the scope's. */
  function CountIn(ops: seq<Op>, scope: Scope): nat {
    if ops == [] then 0 else CountIn(ops[..|ops| - 1], scope) + (if ScopeOf(ops[|ops| - 1]) == scope then 1 else 0)
  }

  /**
   * A dirty scope counts its queued ops, in its version too, so any op queued after a version was
   * read raises it; and it keeps their greatest number.  Other scopes stay as they are.
   */
  lemma {:induction false} VersionsCountOps(dirty: map<Scope, Dirty>, ops: seq<Op>, scope: Scope)
    ensures var before, n := if scope in dirty then dirty[scope] else Dirty(0, 0, 0), CountIn(ops, scope);
            && (scope in MarkedAll(dirty, ops) <==> scope in dirty || n > 0)
            && (n > 0 <==> exists op :: op in ops && ScopeOf(op) == scope)
            && (scope in MarkedAll(dirty, ops) ==>
                  var after := MarkedAll(dirty, ops)[scope];
                  && after.ops == before.ops + n && after.version == before.version + n
                  && after.lastSeq >= before.lastSeq && (forall op | op in ops && ScopeOf(op) == scope :: op.seqNo <= after.lastSeq)
                  && (after.lastSeq == before.lastSeq || exists op :: op in ops && ScopeOf(op) == scope && op.seqNo == after.lastSeq))
  {
    if ops != [] {
      var front, last := ops[..|ops| - 1], ops[|ops| - 1];
      assert ops == front + [last];
      VersionsCountOps(dirty, front, scope);
    }
  }

  function Concat(chunks: seq<seq<Op>>): seq<Op> {
    if chunks == [] then [] else Concat(chunks[..|chunks| - 1]) + chunks[|chunks| - 1]
  }

  /** A record's size: its brackets, its entries and the commas between them. */
  function Bytes(size: Op -> nat, ops: seq<Op>): nat {
    if ops == [] then 2
    else Bytes(size, ops[..|ops| - 1]) + (if |ops| > 1 then 1 else 0) + size(ops[|ops| - 1])
  }

  predicate RecordOk(size: Op -> nat, maxBytes: nat, maxOps: nat, c: seq<Op>) {
    1 <= |c| <= maxOps && (|c| == 1 || Bytes(size, c) <= maxBytes)
  }

  /** The record could not have taken the entry that begins the next one. */
  predicate Full(size: Op -> nat, maxBytes: nat, maxOps: nat, c: seq<Op>, next: Op) {
    |c| == maxOps || Bytes(size, c + [next]) > maxBytes
  }

  /** Every record but the last is full. */
  ghost predicate NoneShort(size: Op -> nat, maxBytes: nat, maxOps: nat, chunks: seq<seq<Op>>) {
    forall i, j {:trigger chunks[i], chunks[j]} | 0 <= i < |chunks| && j == i + 1 < |chunks| ::
      chunks[j] != [] && Full(size, maxBytes, maxOps, chunks[i], chunks[j][0])
  }

  lemma BytesSnoc(size: Op -> nat, ops: seq<Op>, op: Op)
    ensures Bytes(size, ops + [op]) == Bytes(size, ops) + (if |ops| > 0 then 1 else 0) + size(op)
  {
    assert (ops + [op])[..|ops|] == ops;
  }

  lemma ConcatSnoc(chunks: seq<seq<Op>>, c: seq<Op>)
    ensures Concat(chunks + [c]) == Concat(chunks) + c
  {
    assert (chunks + [c])[..|chunks|] == chunks;
  }

  lemma NoneShortGrows(size: Op -> nat, maxBytes: nat, maxOps: nat, chunks: seq<seq<Op>>, c: seq<Op>, op: Op)
    requires c != [] ==> NoneShort(size, maxBytes, maxOps, chunks + [c])
    requires c == [] ==> chunks == []
    ensures NoneShort(size, maxBytes, maxOps, chunks + [c + [op]])
    ensures c != [] && Full(size, maxBytes, maxOps, c, op) ==> NoneShort(size, maxBytes, maxOps, chunks + [c] + [[op]])
  {
    var before, after := chunks + [c], chunks + [c + [op]];
    forall i, j {:trigger after[i], after[j]} | 0 <= i < |after| && j == i + 1 < |after|
      ensures after[j] != [] && Full(size, maxBytes, maxOps, after[i], after[j][0])
    {
      assert before[i] == after[i] && before[j] != [] && Full(size, maxBytes, maxOps, before[i], before[j][0]);
      assert before[j][0] == after[j][0];
    }
    if c != [] && Full(size, maxBytes, maxOps, c, op) {
      forall i, j | 0 <= i < |chunks| + 2 && j == i + 1 < |chunks| + 2
        ensures var next := (chunks + [c] + [[op]])[j]; next != [] && Full(size, maxBytes, maxOps, (chunks + [c] + [[op]])[i], next[0])
      {
        if j < |chunks| + 1 {
          assert (chunks + [c])[i] == (chunks + [c] + [[op]])[i] && (chunks + [c])[j] == (chunks + [c] + [[op]])[j];
        }
      }
    }
  }

  lemma NothingYet(size: Op -> nat, maxBytes: nat, maxOps: nat)
    ensures Concat([]) == [] && Bytes(size, []) == 2 && NoneShort(size, maxBytes, maxOps, [])
  {
  }

  /**
   * Cut a batch into records: nothing lost, reordered or repeated; no record empty or over a limit,
   * but for a single entry too large by itself; and none cut short.
   */
  method ChunkOps(ops: seq<Op>, size: Op -> nat, maxBytes: nat, maxOps: nat) returns (chunks: seq<seq<Op>>)
    requires maxOps >= 1
    ensures Concat(chunks) == ops
    ensures forall c | c in chunks :: RecordOk(size, maxBytes, maxOps, c)
    ensures NoneShort(size, maxBytes, maxOps, chunks)
  {
    chunks := [];
    var current, bytes := [], 2;
    hide Bytes, Concat, NoneShort;
    NothingYet(size, maxBytes, maxOps);
    for i := 0 to |ops|
      invariant Concat(chunks) + current == ops[..i] && bytes == Bytes(size, current)
      invariant forall c | c in chunks :: RecordOk(size, maxBytes, maxOps, c)
      invariant current == [] ==> chunks == []
      invariant current != [] ==> RecordOk(size, maxBytes, maxOps, current)
      invariant current != [] ==> NoneShort(size, maxBytes, maxOps, chunks + [current])
    {
      assert ops[..i + 1] == ops[..i] + [ops[i]];
      ConcatSnoc(chunks, current);
      BytesSnoc(size, current, ops[i]);
      BytesSnoc(size, [], ops[i]);
      NoneShortGrows(size, maxBytes, maxOps, chunks, current, ops[i]);
      assert [] + [ops[i]] == [ops[i]];
      var next := bytes + (if |current| > 0 then 1 else 0) + size(ops[i]);
      if current != [] && (|current| >= maxOps || next > maxBytes) {
        chunks, current, bytes := chunks + [current], [], 2;
      }
      assert Concat(chunks) + current == ops[..i];
      assert Concat(chunks) + (current + [ops[i]]) == Concat(chunks) + current + [ops[i]];
      current := current + [ops[i]];
      bytes := bytes + (if |current| > 1 then 1 else 0) + size(ops[i]);
    }
    assert ops[..|ops|] == ops;
    if current != [] {
      ConcatSnoc(chunks, current);
      chunks := chunks + [current];
    }
  }

  /** The segments compaction may delete, in listing order. */
  method CoveredSegments(journal: map<nat, P.Segment>, keys: seq<nat>, scope: Scope, cursor: nat) returns (covered: seq<nat>)
    requires forall j | j in keys :: j in journal
    ensures forall j :: j in covered <==> j in keys && P.Compactable(journal[j], scope, cursor)
    ensures forall j | j in keys :: j in covered <==> journal[j].scope == scope && 0 < journal[j].lastSeq <= cursor
  {
    covered := [];
    for i := 0 to |keys|
      invariant forall j :: j in covered <==> j in keys[..i] && P.Compactable(journal[j], scope, cursor)
    {
      var g := journal[keys[i]];
      if g.scope == scope && g.lastSeq != 0 && cursor >= g.lastSeq {
        covered := covered + [keys[i]];
      }
    }
  }

  // The restore loops.

  /** The state restore builds up: rows, clock and sequence counter. */
  class Restorer {
    var rows: Db
    var clock: nat
    var seqNo: nat
    ghost var done: seq<Write>

    ghost predicate Valid()
      reads `rows, `clock, `done
    {
      rows == ApplyWrites(map[], done) && clock == P.TouchWrites(done)
    }

    constructor ()
      ensures Valid() && done == [] && seqNo == 0
    {
      rows, clock, seqNo, done := map[], 0, 0, [];
    }

    method Apply(w: Write)
      requires Valid()
      modifies `rows, `clock, `done
      ensures Valid() && done == old(done) + [w]
    {
      assert (done + [w])[..|done|] == done;
      rows := rows[w.Target() := StepRow(RowAt(rows, w.Target()), w).0];
      clock := P.TouchWrite(clock, w);
      done := done + [w];
    }

    /** A segment named by the manifest but missing from storage stops the restore. */
    method RestoreSnapshot(st: P.Storage, scope: Scope) returns (ok: bool)
      requires Valid()
      modifies this
      ensures Valid()
      ensures ok <==> (scope in st.latest ==> P.Present(st.parts, scope, st.latest[scope].id, st.latest[scope].count))
      ensures ok ==> done == old(done) + P.RowWrites(P.Snapshot(st, scope))
      ensures ok ==> seqNo == Max(old(seqNo), P.Covered(st, scope))
    {
      if scope !in st.latest {
        assert done + [] == done;
        return true;
      }
      var m := st.latest[scope];
      ghost var start := done;
      for i := 0 to m.count
        invariant Valid() && seqNo == old(seqNo)
        invariant P.Present(st.parts, scope, m.id, i)
        invariant done == start + P.RowWrites(P.Listed(st.parts, scope, m.id, i))
      {
        var p := P.Part(scope, m.id, i);
        if p !in st.parts {
          return false;
        }
        hide Restorer.Valid;
        ListedStep(st.parts, scope, m.id, i);
        assert (start + P.RowWrites(P.Listed(st.parts, scope, m.id, i))) + P.RowWrites(st.parts[p])
            == start + P.RowWrites(P.Listed(st.parts, scope, m.id, i + 1));
        RestoreRows(st.parts[p]);
      }
      seqNo := if m.seqNo > seqNo then m.seqNo else seqNo;
      ok := true;
    }

    method RestoreRows(stored: seq<P.Stored>)
      requires Valid()
      modifies `rows, `clock, `done
      ensures Valid() && done == old(done) + P.RowWrites(stored)
    {
      for i := 0 to |stored|
        invariant Valid() && done == old(done) + P.RowWrites(stored[..i])
      {
        assert stored[..i + 1][..i] == stored[..i];
        Apply(Restored(stored[i].key, stored[i].row));
      }
      assert stored[..|stored|] == stored;
    }

    /** Ops the snapshot covers are skipped, whole segments by the number in their name. */
    method RestoreSegment(g: P.Segment, covered: nat)
      requires Valid() && P.GoodSegment(g)
      modifies this
      ensures Valid() && done == old(done) + P.OpWrites(g.ops, covered)
      ensures seqNo == P.SeqAfterOps(old(seqNo), P.OpWrites(g.ops, covered))
    {
      if g.lastSeq != 0 && covered >= g.lastSeq {
        SkippedSegment(g.ops, covered);
        assert done + [] == done;
        return;
      }
      ghost var start, from := done, seqNo;
      for i := 0 to |g.ops|
        invariant Valid() && done == start + P.OpWrites(g.ops[..i], covered)
        invariant seqNo == P.SeqAfterOps(from, P.OpWrites(g.ops[..i], covered))
      {
        hide Restorer.Valid;
        OpStep(g.ops, covered, from, i);
        var op := g.ops[i];
        if op.seqNo <= covered {
          continue;
        }
        ghost var ws := P.OpWrites(g.ops[..i], covered);
        assert (start + ws) + [Applied(op)] == start + (ws + [Applied(op)]);
        Apply(Applied(op));
        seqNo := if op.seqNo > seqNo then op.seqNo else seqNo;
      }
      assert g.ops[..|g.ops|] == g.ops;
    }

    method RestoreSnapshots(st: P.Storage, scopes: seq<Scope>) returns (ok: bool)
      requires Valid() && done == [] && seqNo == 0
      modifies this
      ensures Valid()
      ensures ok <==> NothingMissing(st, scopes)
      ensures ok ==> done == P.SnapshotWrites(st, scopes) && seqNo == P.SeqAfterSnapshots(st, scopes)
    {
      for i := 0 to |scopes|
        invariant Valid() && NothingMissing(st, scopes[..i])
        invariant done == P.SnapshotWrites(st, scopes[..i]) && seqNo == P.SeqAfterSnapshots(st, scopes[..i])
      {
        assert scopes[..i + 1][..i] == scopes[..i];
        assert scopes[i] in scopes;
        var found := RestoreSnapshot(st, scopes[i]);
        if !found {
          return false;
        }
      }
      assert scopes[..|scopes|] == scopes;
      ok := true;
    }

    method RestoreJournals(st: P.Storage, keys: seq<nat>)
      requires Valid() && GoodKeys(st, keys)
      modifies this
      ensures Valid() && done == old(done) + P.JournalWrites(st, keys)
      ensures seqNo == P.SeqAfterOps(old(seqNo), P.JournalWrites(st, keys))
    {
      ghost var start, from := done, seqNo;
      for i := 0 to |keys|
        invariant Valid() && done == start + P.JournalWrites(st, keys[..i])
        invariant seqNo == P.SeqAfterOps(from, P.JournalWrites(st, keys[..i]))
      {
        assert GoodKey(st, keys[i]);
        var g := st.journal[keys[i]];
        var covered := P.Covered(st, g.scope);
        ghost var earlier, more := P.JournalWrites(st, keys[..i]), P.OpWrites(g.ops, covered);
        JournalStep(st, keys, i);
        SeqAfterOpsAppend(from, earlier, more);
        assert (start + earlier) + more == start + (earlier + more);
        hide Restorer.Valid;
        RestoreSegment(g, covered);
      }
      assert keys[..|keys|] == keys;
    }
  }

  lemma {:induction false} RowWritesAppend(a: seq<P.Stored>, b: seq<P.Stored>)
    ensures P.RowWrites(a + b) == P.RowWrites(a) + P.RowWrites(b)
  {
    if b == [] {
      assert a + b == a;
    } else {
      RowWritesAppend(a, b[..|b| - 1]);
      assert (a + b)[..|a + b| - 1] == a + b[..|b| - 1];
    }
  }

  lemma ListedStep(parts: map<P.Part, seq<P.Stored>>, scope: Scope, id: nat, i: nat)
    requires P.Part(scope, id, i) in parts
    ensures P.RowWrites(P.Listed(parts, scope, id, i + 1)) ==
            P.RowWrites(P.Listed(parts, scope, id, i)) + P.RowWrites(parts[P.Part(scope, id, i)])
  {
    RowWritesAppend(P.Listed(parts, scope, id, i), parts[P.Part(scope, id, i)]);
  }

  lemma OpStep(ops: seq<Op>, covered: nat, from: nat, i: nat)
    requires i < |ops|
    ensures var ws, more := P.OpWrites(ops[..i], covered), P.OpWrites(ops[..i + 1], covered);
            && more == (if ops[i].seqNo <= covered then ws else ws + [Applied(ops[i])])
            && P.SeqAfterOps(from, more) ==
               (if ops[i].seqNo <= covered then P.SeqAfterOps(from, ws) else Max(P.SeqAfterOps(from, ws), ops[i].seqNo))
  {
    assert ops[..i + 1][..i] == ops[..i];
    var ws := P.OpWrites(ops[..i], covered);
    assert (ws + [Applied(ops[i])])[..|ws|] == ws;
  }

  lemma JournalStep(st: P.Storage, keys: seq<nat>, i: nat)
    requires i < |keys| && keys[i] in st.journal
    ensures var g := st.journal[keys[i]];
            P.JournalWrites(st, keys[..i + 1]) == P.JournalWrites(st, keys[..i]) + P.OpWrites(g.ops, P.Covered(st, g.scope))
  {
    assert keys[..i + 1][..i] == keys[..i];
  }

  lemma {:induction false} SkippedSegment(ops: seq<Op>, covered: nat)
    requires forall op | op in ops :: op.seqNo <= covered
    ensures P.OpWrites(ops, covered) == []
  {
    if ops != [] {
      SkippedSegment(ops[..|ops| - 1], covered);
    }
  }

  lemma {:induction false} SeqAfterOpsAppend(start: nat, a: seq<Write>, b: seq<Write>)
    ensures P.SeqAfterOps(start, a + b) == P.SeqAfterOps(P.SeqAfterOps(start, a), b)
  {
    if b == [] {
      assert a + b == a;
    } else {
      SeqAfterOpsAppend(start, a, b[..|b| - 1]);
      assert (a + b)[..|a + b| - 1] == a + b[..|b| - 1];
    }
  }

  predicate GoodKey(st: P.Storage, j: nat) {
    j in st.journal && P.GoodSegment(st.journal[j])
  }

  /** The listed keys name well-formed segments. */
  predicate GoodKeys(st: P.Storage, keys: seq<nat>) {
    forall i {:trigger GoodKey(st, keys[i])} | 0 <= i < |keys| :: GoodKey(st, keys[i])
  }

  /** Every listed manifest has all its segments. */
  ghost predicate NothingMissing(st: P.Storage, scopes: seq<Scope>) {
    forall scope | scope in scopes && scope in st.latest :: P.Present(st.parts, scope, st.latest[scope].id, st.latest[scope].count)
  }

  /** Restore: first every scope's snapshot, then every journal segment. */
  method RestoreAll(st: P.Storage, scopes: seq<Scope>, keys: seq<nat>) returns (ok: bool, rows: Db, clock: nat, seqNo: nat)
    requires GoodKeys(st, keys)
    ensures ok <==> NothingMissing(st, scopes)
    ensures forall id, book | ok :: P.Restore(st, id, scopes, keys, book) == P.Memory(id, clock, seqNo, rows, book)
  {
    var r := new Restorer();
    ok := r.RestoreSnapshots(st, scopes);
    if ok {
      r.RestoreJournals(st, keys);
    }
    rows, clock, seqNo := r.rows, r.clock, r.seqNo;
  }
}
