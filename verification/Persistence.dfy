/**
 * Durability of one writer (src/persistence.js) as a step machine: journal flushes, fuzzy
 * checkpoints, compaction, retention, and any number of crashes, each step one storage call or one
 * synchronous stretch of code.
 *
 * `book`, `accepted` and `durable` are history variables: the op last issued under each clock tick,
 * the ops of the current run and every op whose journal segment was ever written.
 */
module Persistence {
  import opened Wrappers
  import opened Clocks
  import opened Rows
  import opened OpLogs
  import opened ShardMaps
  import opened Replication

  datatype Stored = Stored(key: Key, row: SnapshotRow)

  datatype Segment = Segment(scope: Scope, ops: seq<Op>, lastSeq: nat)

  datatype Part = Part(scope: Scope, id: nat, index: nat)

  datatype Manifest = Manifest(id: nat, seqNo: nat, count: nat)

  /** Object storage: journal segments, snapshot segments, and the newest manifest of each scope. */
  datatype Storage = Storage(journal: map<nat, Segment>, parts: map<Part, seq<Stored>>, latest: map<Scope, Manifest>)

  datatype Memory = Memory(id: NodeId, clock: nat, seqNo: nat, rows: Db, book: map<nat, Op>)

  datatype Flush = Flush(batches: map<Scope, seq<Op>>, todo: seq<Segment>)

  datatype Queue = Queue(pending: map<Scope, seq<Op>>, flush: Option<Flush>)

  datatype Work =
    | Between
    | Reading(scope: Scope, remaining: set<Key>, buffer: seq<Stored>, count: nat)
    | Cleaning(scope: Scope)

  datatype Checkpoint = Checkpoint(id: nat, coverage: nat, work: Work)

  datatype World = World(
    mem: Memory, queue: Queue, checkpoint: Option<Checkpoint>, storage: Storage, shards: set<string>,
    accepted: set<Op>, durable: set<Op>)

  ghost function Home(shards: set<string>, k: Key): Scope {
    Scope(k.db, k.coll, ShardForObject(shards, k.id))
  }

  /** The rows of the first `n` segments of one snapshot, in order. */
  function Listed(parts: map<Part, seq<Stored>>, scope: Scope, id: nat, n: nat): seq<Stored> {
    if n == 0 then []
    else
      var p := Part(scope, id, n - 1);
      Listed(parts, scope, id, n - 1) + (if p in parts then parts[p] else [])
  }

  function Snapshot(st: Storage, scope: Scope): seq<Stored> {
    if scope in st.latest then Listed(st.parts, scope, st.latest[scope].id, st.latest[scope].count) else []
  }

  predicate Present(parts: map<Part, seq<Stored>>, scope: Scope, id: nat, n: nat) {
    forall i {:trigger Part(scope, id, i)} | 0 <= i < n :: Part(scope, id, i) in parts
  }

  function Covered(st: Storage, scope: Scope): nat {
    if scope in st.latest then st.latest[scope].seqNo else 0
  }

  // Restore.

  function RowWrites(rows: seq<Stored>): seq<Write> {
    if rows == [] then [] else RowWrites(rows[..|rows| - 1]) + [Restored(rows[|rows| - 1].key, rows[|rows| - 1].row)]
  }

  function SnapshotWrites(st: Storage, scopes: seq<Scope>): seq<Write> {
    if scopes == [] then []
    else SnapshotWrites(st, scopes[..|scopes| - 1]) + RowWrites(Snapshot(st, scopes[|scopes| - 1]))
  }

  /** Ops of a segment beyond what the snapshot covers. */
  function OpWrites(ops: seq<Op>, covered: nat): seq<Write> {
    if ops == [] then []
    else
      var rest := OpWrites(ops[..|ops| - 1], covered);
      if ops[|ops| - 1].seqNo <= covered then rest else rest + [Applied(ops[|ops| - 1])]
  }

  function JournalWrites(st: Storage, keys: seq<nat>): seq<Write> {
    if keys == [] then []
    else
      var rest, j := JournalWrites(st, keys[..|keys| - 1]), keys[|keys| - 1];
      if j in st.journal then rest + OpWrites(st.journal[j].ops, Covered(st, st.journal[j].scope)) else rest
  }

  /** Everything restore applies: all snapshots, then all journal segments, in the listed orders. */
  function RestoreWrites(st: Storage, scopes: seq<Scope>, keys: seq<nat>): seq<Write> {
    SnapshotWrites(st, scopes) + JournalWrites(st, keys)
  }

  /** The listing names every scope and every segment. */
  ghost predicate Lists(st: Storage, scopes: seq<Scope>, keys: seq<nat>) {
    && (forall scope | scope in st.latest :: scope in scopes)
    && (forall j :: j in keys <==> j in st.journal)
  }

  function TouchWrite(clock: nat, w: Write): nat {
    match w
    case Applied(op) => Max(clock, op.ts.c)
    case Restored(_, r) =>
      if r.deleted.Some? then Max(if r.ts.Some? then Max(clock, r.ts.value.c) else clock, r.deleted.value.c)
      else if r.ts.Some? then Max(clock, r.ts.value.c) else clock
  }

  function TouchWrites(ws: seq<Write>): nat {
    if ws == [] then 0 else TouchWrite(TouchWrites(ws[..|ws| - 1]), ws[|ws| - 1])
  }

  /** Manifests of this node and its own replayed ops raise the sequence counter. */
  function SeqAfterSnapshots(st: Storage, scopes: seq<Scope>): nat {
    if scopes == [] then 0 else Max(SeqAfterSnapshots(st, scopes[..|scopes| - 1]), Covered(st, scopes[|scopes| - 1]))
  }

  function SeqAfterOps(start: nat, ws: seq<Write>): nat {
    if ws == [] then start
    else
      var w := ws[|ws| - 1];
      Max(SeqAfterOps(start, ws[..|ws| - 1]), if w.Applied? then w.op.seqNo else 0)
  }

  function Restore(st: Storage, id: NodeId, scopes: seq<Scope>, keys: seq<nat>, book: map<nat, Op>): Memory {
    var ws := RestoreWrites(st, scopes, keys);
    Memory(id, TouchWrites(ws), SeqAfterOps(SeqAfterSnapshots(st, scopes), JournalWrites(st, keys)),
           ApplyWrites(map[], ws), book)
  }

  // Steps.

  datatype Step =
    | Accept(request: Request)
    | BeginFlush(segments: seq<Segment>)
    | PutSegment(key: nat)
    | FailFlush
    | EndFlush
    | BeginCheckpoint(id: nat)
    | BeginScope(scope: Scope)
    | ReadRow(row: Key)
    | PutPart(size: nat)
    | PutManifest
    | DeleteSegments(dead: set<nat>)
    | DeleteParts(ids: set<nat>)
    | EndScope
    | StopCheckpoint
    | CrashAndRestore(scopes: seq<Scope>, keys: seq<nat>)

  function Enqueue(pending: map<Scope, seq<Op>>, op: Op): map<Scope, seq<Op>> {
    pending[ScopeOf(op) := Held(pending, ScopeOf(op)) + [op]]
  }

  function Held(pending: map<Scope, seq<Op>>, scope: Scope): seq<Op> {
    if scope in pending then pending[scope] else []
  }

  /** A failed flush puts its batches back in front of what was queued meanwhile. */
  function Requeue(pending: map<Scope, seq<Op>>, batches: map<Scope, seq<Op>>): map<Scope, seq<Op>> {
    map scope | scope in pending.Keys + batches.Keys :: Held(batches, scope) + Held(pending, scope)
  }

  predicate GoodSegment(g: Segment) {
    forall op | op in g.ops :: ScopeOf(op) == g.scope && op.seqNo <= g.lastSeq
  }

  /** The segments hold exactly the batched ops, each under its own scope. */
  ghost predicate Segmented(batches: map<Scope, seq<Op>>, segments: seq<Segment>) {
    && (forall g | g in segments :: g.ops != [] && GoodSegment(g) && forall op | op in g.ops :: op in Held(batches, g.scope))
    && (forall scope, op | scope in batches && op in batches[scope] :: InSegments(segments, op))
  }

  predicate InSegments(segments: seq<Segment>, op: Op) {
    exists g :: g in segments && op in g.ops
  }

  function NewOp(mem: Memory, r: Request): Op {
    Op(r.kind, r.key, r.shard, r.value, Stamp(mem.clock + 1, mem.id), mem.id, mem.seqNo + 1)
  }

  function Written(parts: map<Part, seq<Stored>>, id: nat, work: Work): seq<Stored>
    requires work.Reading?
  {
    Listed(parts, work.scope, id, work.count) + work.buffer
  }

  ghost predicate Enabled(w: World, step: Step) {
    match step
    case Accept(r) => ScopeOf(NewOp(w.mem, r)) == Home(w.shards, r.key)
    case BeginFlush(segments) =>
      w.queue.flush.None? && w.checkpoint.None? && Segmented(w.queue.pending, segments)
    case PutSegment(j) => w.queue.flush.Some? && w.queue.flush.value.todo != [] && j !in w.storage.journal
    case FailFlush => w.queue.flush.Some?
    case EndFlush => w.queue.flush.Some? && w.queue.flush.value.todo == []
    case BeginCheckpoint(id) => w.checkpoint.None? && forall p | p in w.storage.parts :: p.id != id
    case BeginScope(scope) => w.checkpoint.Some? && w.checkpoint.value.work.Between?
                              && (forall p | p in w.storage.parts && p.scope == scope :: p.id != w.checkpoint.value.id)
                              && (scope in w.storage.latest ==> w.storage.latest[scope].id != w.checkpoint.value.id)
    case ReadRow(k) => && w.checkpoint.Some? && w.checkpoint.value.work.Reading?
                       && k in w.mem.rows && Home(w.shards, k) == w.checkpoint.value.work.scope
    case PutPart(size) => && w.checkpoint.Some? && w.checkpoint.value.work.Reading?
                          && size <= |w.checkpoint.value.work.buffer|
    case PutManifest => && w.checkpoint.Some? && w.checkpoint.value.work.Reading?
                        && w.checkpoint.value.work.remaining == {} && w.checkpoint.value.work.buffer == []
    case DeleteSegments(js) =>
      && w.checkpoint.Some? && w.checkpoint.value.work.Cleaning?
      && forall j | j in js && j in w.storage.journal ::
           Compactable(w.storage.journal[j], w.checkpoint.value.work.scope, w.checkpoint.value.coverage)
    case DeleteParts(ids) => && w.checkpoint.Some? && w.checkpoint.value.work.Cleaning?
                             && w.checkpoint.value.id !in ids
    case EndScope => w.checkpoint.Some? && w.checkpoint.value.work.Cleaning?
    case StopCheckpoint => w.checkpoint.Some?
    case CrashAndRestore(scopes, keys) => Lists(w.storage, scopes, keys)
  }

  predicate Compactable(g: Segment, scope: Scope, cursor: nat) {
    g.scope == scope && g.lastSeq != 0 && cursor >= g.lastSeq
  }

  function WithWork(w: World, work: Work): World
    requires w.checkpoint.Some?
  {
    w.(checkpoint := Some(w.checkpoint.value.(work := work)))
  }

  ghost function After(w: World, step: Step): World
    requires Enabled(w, step)
  {
    match step
    case Accept(r) =>
      var op := NewOp(w.mem, r);
      w.(mem := Memory(w.mem.id, w.mem.clock + 1, w.mem.seqNo + 1, ApplyWrite(w.mem.rows, Applied(op)), w.mem.book[w.mem.clock + 1 := op]),
         queue := w.queue.(pending := Enqueue(w.queue.pending, op)),
         accepted := w.accepted + {op})
    case BeginFlush(segments) => w.(queue := Queue(map[], Some(Flush(w.queue.pending, segments))))
    case PutSegment(j) =>
      var flush := w.queue.flush.value;
      w.(storage := w.storage.(journal := w.storage.journal[j := flush.todo[0]]),
         queue := w.queue.(flush := Some(flush.(todo := flush.todo[1..]))),
         durable := w.durable + (set op | op in flush.todo[0].ops))
    case FailFlush => w.(queue := Queue(Requeue(w.queue.pending, w.queue.flush.value.batches), None))
    case EndFlush => w.(queue := w.queue.(flush := None))
    case BeginCheckpoint(id) => w.(checkpoint := Some(Checkpoint(id, w.mem.seqNo, Between)))
    case BeginScope(scope) =>
      WithWork(w, Reading(scope, set k | k in w.mem.rows && Home(w.shards, k) == scope, [], 0))
    case ReadRow(k) =>
      var work := w.checkpoint.value.work;
      WithWork(w, work.(remaining := work.remaining - {k}, buffer := work.buffer + [Stored(k, SnapshotOf(w.mem.rows[k]))]))
    case PutPart(size) =>
      var work := w.checkpoint.value.work;
      WithWork(w, work.(buffer := work.buffer[size..], count := work.count + 1))
      .(storage := w.storage.(parts := w.storage.parts[Part(work.scope, w.checkpoint.value.id, work.count) := work.buffer[..size]]))
    case PutManifest =>
      var c := w.checkpoint.value;
      WithWork(w, Cleaning(c.work.scope))
      .(storage := w.storage.(latest := w.storage.latest[c.work.scope := Manifest(c.id, c.coverage, c.work.count)]))
    case DeleteSegments(js) => w.(storage := w.storage.(journal := w.storage.journal - js))
    case DeleteParts(ids) =>
      var scope := w.checkpoint.value.work.scope;
      w.(storage := w.storage.(parts := map p | p in w.storage.parts && !(p.scope == scope && p.id in ids) :: w.storage.parts[p]))
    case EndScope => WithWork(w, Between)
    case StopCheckpoint => w.(checkpoint := None)
    case CrashAndRestore(scopes, keys) =>
      w.(mem := Restore(w.storage, w.mem.id, scopes, keys, w.mem.book),
         queue := Queue(map[], None), checkpoint := None, accepted := w.durable)
  }

  ghost predicate Initial(w: World) {
    && w.mem.clock == 0 && w.mem.seqNo == 0 && w.mem.rows == map[] && w.mem.book == map[]
    && w.queue == Queue(map[], None) && w.checkpoint == None && w.storage == Storage(map[], map[], map[])
    && w.accepted == {} && w.durable == {}
  }

  // The invariant.

  /** The event was issued here, under a tick not beyond the clock, and its tick names no other op. */
  predicate Known(mem: Memory, k: Key, e: Event) {
    && e.ts.n == mem.id && e.ts.c <= mem.clock
    && e.ts.c in mem.book && mem.book[e.ts.c].key == k && OpEvent(mem.book[e.ts.c]) == e
  }

  predicate Holds(rows: Db, k: Key, ts: Stamp) {
    WinnerAt(rows, k).Some? && WinnerAt(rows, k).value.ts.c >= ts.c
  }

  predicate RowKnown(mem: Memory, k: Key) {
    && k in mem.rows && ValidRow(mem.rows[k])
    && Winner(mem.rows[k]).Some?
    && Known(mem, k, Winner(mem.rows[k]).value)
  }

  ghost predicate MemoryGood(mem: Memory) {
    forall k {:trigger RowKnown(mem, k)} | k in mem.rows :: RowKnown(mem, k)
  }

  ghost predicate OpGood(mem: Memory, shards: set<string>, op: Op) {
    && op.seqNo <= mem.seqNo
    && ScopeOf(op) == Home(shards, op.key)
    && Known(mem, op.key, OpEvent(op))
    && Holds(mem.rows, op.key, op.ts)
  }

  ghost predicate AcceptedGood(mem: Memory, shards: set<string>, accepted: set<Op>) {
    forall op {:trigger OpGood(mem, shards, op)} | op in accepted :: OpGood(mem, shards, op)
  }

  predicate Queued(q: Queue, op: Op) {
    op in Held(q.pending, ScopeOf(op)) || (q.flush.Some? && op in Held(q.flush.value.batches, ScopeOf(op)))
  }

  ghost predicate FlushGood(flush: Flush, durable: set<Op>) {
    && (forall g | g in flush.todo :: GoodSegment(g) && forall op | op in g.ops :: op in Held(flush.batches, g.scope))
    && (forall scope, op | scope in flush.batches && op in flush.batches[scope] :: op in durable || InSegments(flush.todo, op))
  }

  ghost predicate Filed(batches: map<Scope, seq<Op>>, accepted: set<Op>) {
    forall scope, op | scope in batches && op in batches[scope] :: ScopeOf(op) == scope && op in accepted
  }

  ghost predicate QueueGood(q: Queue, accepted: set<Op>, durable: set<Op>) {
    && durable <= accepted
    && Filed(q.pending, accepted)
    && (q.flush.Some? ==> Filed(q.flush.value.batches, accepted) && FlushGood(q.flush.value, durable))
    && (forall op {:trigger Queued(q, op)} | op in accepted :: op in durable || Queued(q, op))
  }

  ghost predicate JournalGood(journal: map<nat, Segment>, durable: set<Op>) {
    forall j | j in journal :: GoodSegment(journal[j]) && forall op | op in journal[j].ops :: op in durable
  }

  ghost predicate StoredGood(mem: Memory, shards: set<string>, scope: Scope, r: Stored) {
    && Home(shards, r.key) == scope
    && ValidSnapshotRow(r.row)
    && Known(mem, r.key, SnapshotEvent(r.row))
    && Holds(mem.rows, r.key, SnapshotEvent(r.row).ts)
  }

  ghost predicate AllStoredGood(mem: Memory, shards: set<string>, scope: Scope, rows: seq<Stored>) {
    forall r {:trigger StoredGood(mem, shards, scope, r)} | r in rows :: StoredGood(mem, shards, scope, r)
  }

  ghost predicate ManifestGood(mem: Memory, shards: set<string>, st: Storage, scope: Scope)
    requires scope in st.latest
  {
    && st.latest[scope].seqNo <= mem.seqNo
    && Present(st.parts, scope, st.latest[scope].id, st.latest[scope].count)
    && AllStoredGood(mem, shards, scope, Snapshot(st, scope))
  }

  ghost predicate SnapshotsGood(mem: Memory, shards: set<string>, st: Storage) {
    forall scope {:trigger ManifestGood(mem, shards, st, scope)} | scope in st.latest :: ManifestGood(mem, shards, st, scope)
  }

  predicate Keeps(rows: seq<Stored>, k: Key, ts: Stamp) {
    exists r :: r in rows && r.key == k && ValidSnapshotRow(r.row) && SnapshotEvent(r.row).ts.c >= ts.c
  }

  predicate HasEvent(rows: seq<Stored>, k: Key, e: Event) {
    exists r :: r in rows && r.key == k && ValidSnapshotRow(r.row) && SnapshotEvent(r.row) == e
  }

  predicate InJournal(journal: map<nat, Segment>, op: Op) {
    exists j :: j in journal && op in journal[j].ops
  }

  /** The latest snapshot of a scope holds every op its manifest covers. */
  ghost predicate CoveredGood(st: Storage, accepted: set<Op>) {
    forall op {:trigger Keeps(Snapshot(st, ScopeOf(op)), op.key, op.ts)} | op in accepted && op.seqNo <= Covered(st, ScopeOf(op)) ::
      Keeps(Snapshot(st, ScopeOf(op)), op.key, op.ts)
  }

  /** Every journaled op beyond its manifest is still in a segment. */
  ghost predicate DurableGood(st: Storage, durable: set<Op>) {
    forall op {:trigger InJournal(st.journal, op)} | op in durable && op.seqNo > Covered(st, ScopeOf(op)) ::
      InJournal(st.journal, op)
  }

  ghost predicate OpHas(ops: set<Op>, k: Key, e: Event) {
    exists op :: op in ops && op.key == k && OpEvent(op) == e
  }

  /** What the running checkpoint of a scope has read, or still has to read. */
  ghost predicate ReadSoFar(mem: Memory, shards: set<string>, remaining: set<Key>, coverage: nat, scope: Scope, rows: seq<Stored>, accepted: set<Op>) {
    && AllStoredGood(mem, shards, scope, rows)
    && (forall op {:trigger Keeps(rows, op.key, op.ts)} | op in accepted && ScopeOf(op) == scope && op.seqNo <= coverage ::
          op.key in remaining || Keeps(rows, op.key, op.ts))
    && (forall k {:trigger HasEvent(rows, k, Winner(mem.rows[k]).value)} | k in mem.rows && Home(shards, k) == scope && Winner(mem.rows[k]).Some? ::
          k in remaining || OpHas(accepted, k, Winner(mem.rows[k]).value) || HasEvent(rows, k, Winner(mem.rows[k]).value))
  }

  ghost predicate CheckpointGood(mem: Memory, shards: set<string>, st: Storage, c: Checkpoint, accepted: set<Op>) {
    && c.coverage <= mem.seqNo
    && (forall scope | scope in st.latest :: st.latest[scope].seqNo <= c.coverage)
    && (c.work.Reading? ==>
          && (c.work.scope in st.latest ==> st.latest[c.work.scope].id != c.id)
          && Present(st.parts, c.work.scope, c.id, c.work.count)
          && ReadSoFar(mem, shards, c.work.remaining, c.coverage, c.work.scope, Written(st.parts, c.id, c.work), accepted))
    && (c.work.Cleaning? ==>
          && c.work.scope in st.latest
          && st.latest[c.work.scope].id == c.id && st.latest[c.work.scope].seqNo == c.coverage)
  }

  /** Every row's newest event is one of this run's ops or is in the latest snapshot. */
  ghost predicate RowKept(mem: Memory, shards: set<string>, st: Storage, accepted: set<Op>, k: Key)
    requires k in mem.rows
  {
    Winner(mem.rows[k]).Some? ==>
      || OpHas(accepted, k, Winner(mem.rows[k]).value)
      || HasEvent(Snapshot(st, Home(shards, k)), k, Winner(mem.rows[k]).value)
  }

  ghost predicate RowsKept(mem: Memory, shards: set<string>, st: Storage, accepted: set<Op>) {
    forall k {:trigger RowKept(mem, shards, st, accepted, k)} | k in mem.rows :: RowKept(mem, shards, st, accepted, k)
  }

  ghost predicate Sound(w: World) {
    && MemoryGood(w.mem)
    && AcceptedGood(w.mem, w.shards, w.accepted)
    && QueueGood(w.queue, w.accepted, w.durable)
    && JournalGood(w.storage.journal, w.durable)
    && SnapshotsGood(w.mem, w.shards, w.storage)
    && CoveredGood(w.storage, w.accepted)
    && DurableGood(w.storage, w.durable)
    && (w.checkpoint.Some? ==> CheckpointGood(w.mem, w.shards, w.storage, w.checkpoint.value, w.accepted))
    && RowsKept(w.mem, w.shards, w.storage, w.accepted)
  }

  // The parts of storage a step leaves alone.

  lemma {:induction false} ListedSame(a: map<Part, seq<Stored>>, b: map<Part, seq<Stored>>, scope: Scope, id: nat, n: nat)
    requires forall i {:trigger Part(scope, id, i)} | 0 <= i < n ::
               (Part(scope, id, i) in a <==> Part(scope, id, i) in b)
               && (Part(scope, id, i) in a ==> a[Part(scope, id, i)] == b[Part(scope, id, i)])
    ensures Listed(a, scope, id, n) == Listed(b, scope, id, n)
  {
    if n != 0 {
      ListedSame(a, b, scope, id, n - 1);
      assert Part(scope, id, n - 1) in a <==> Part(scope, id, n - 1) in b;
    }
  }

  // Accepting an op.

  ghost predicate MemoryGrows(m: Memory, n: Memory) {
    && n.id == m.id && m.clock <= n.clock && m.seqNo <= n.seqNo
    && (forall c | c in m.book && c <= m.clock :: c in n.book && n.book[c] == m.book[c])
    && (forall k {:trigger WinnerAt(n.rows, k)} | WinnerAt(m.rows, k).Some? ::
          WinnerAt(n.rows, k).Some? && WinnerAt(n.rows, k).value.ts.c >= WinnerAt(m.rows, k).value.ts.c)
  }

  lemma AcceptedMemory(m: Memory, r: Request)
    requires MemoryGood(m)
    ensures var op := NewOp(m, r);
            var n := m.(clock := m.clock + 1, seqNo := m.seqNo + 1, rows := ApplyWrite(m.rows, Applied(op)), book := m.book[m.clock + 1 := op]);
            && MemoryGrows(m, n) && MemoryGood(n)
            && WinnerAt(n.rows, r.key) == Some(OpEvent(op))
            && (forall k | k != r.key :: k in n.rows <==> k in m.rows)
            && (forall k | k != r.key && k in m.rows :: n.rows[k] == m.rows[k])
  {
    var op := NewOp(m, r);
    var n := m.(clock := m.clock + 1, seqNo := m.seqNo + 1, rows := ApplyWrite(m.rows, Applied(op)), book := m.book[m.clock + 1 := op]);
    forall k | k in m.rows ensures ValidRow(m.rows[k]) {
      assert RowKnown(m, k);
    }
    ApplyWriteAbsorbs(m.rows, Applied(op));
    assert r.key in m.rows ==> RowKnown(m, r.key);
    forall k | k in n.rows ensures RowKnown(n, k) {
      assert k != r.key ==> RowKnown(m, k);
    }
  }

  lemma OpsGrow(m: Memory, n: Memory, shards: set<string>, ops: set<Op>)
    requires MemoryGrows(m, n) && AcceptedGood(m, shards, ops)
    ensures AcceptedGood(n, shards, ops)
  {
    forall op | op in ops ensures OpGood(n, shards, op) {
      assert OpGood(m, shards, op);
      assert WinnerAt(m.rows, op.key).Some?;
      assert WinnerAt(n.rows, op.key).Some?;
    }
  }

  lemma RowsGrow(m: Memory, n: Memory, shards: set<string>, scope: Scope, rows: seq<Stored>)
    requires MemoryGrows(m, n) && AllStoredGood(m, shards, scope, rows)
    ensures AllStoredGood(n, shards, scope, rows)
  {
    forall r | r in rows ensures StoredGood(n, shards, scope, r) {
      assert StoredGood(m, shards, scope, r);
      assert WinnerAt(m.rows, r.key).Some?;
      assert WinnerAt(n.rows, r.key).Some?;
    }
  }

  lemma SnapshotsGrow(m: Memory, n: Memory, shards: set<string>, st: Storage)
    requires MemoryGrows(m, n) && SnapshotsGood(m, shards, st)
    ensures SnapshotsGood(n, shards, st)
  {
    forall scope | scope in st.latest ensures ManifestGood(n, shards, st, scope) {
      assert ManifestGood(m, shards, st, scope);
      RowsGrow(m, n, shards, scope, Snapshot(st, scope));
    }
  }

  lemma OpHasMore(ops: set<Op>, more: set<Op>, k: Key, e: Event)
    requires ops <= more && OpHas(ops, k, e)
    ensures OpHas(more, k, e)
  {
    var op :| op in ops && op.key == k && OpEvent(op) == e;
    assert op in more;
  }

  lemma EnqueueGood(q: Queue, accepted: set<Op>, durable: set<Op>, op: Op)
    requires QueueGood(q, accepted, durable)
    ensures QueueGood(q.(pending := Enqueue(q.pending, op)), accepted + {op}, durable)
  {
    var q' := q.(pending := Enqueue(q.pending, op));
    forall o | o in accepted + {op} ensures o in durable || Queued(q', o) {
      assert o in accepted ==> o in durable || Queued(q, o);
    }
  }

  /** A running checkpoint is not disturbed by an op accepted meanwhile. */
  lemma ReadSoFarGrows(m: Memory, n: Memory, shards: set<string>, remaining: set<Key>, coverage: nat, scope: Scope,
                       rows: seq<Stored>, accepted: set<Op>, op: Op)
    requires MemoryGrows(m, n) && ReadSoFar(m, shards, remaining, coverage, scope, rows, accepted)
    requires op.seqNo > coverage && op.key in n.rows && Winner(n.rows[op.key]) == Some(OpEvent(op))
    requires forall k | k != op.key && k in n.rows :: k in m.rows && n.rows[k] == m.rows[k]
    ensures ReadSoFar(n, shards, remaining, coverage, scope, rows, accepted + {op})
  {
    RowsGrow(m, n, shards, scope, rows);
    forall k | k in n.rows && Home(shards, k) == scope && Winner(n.rows[k]).Some? && k !in remaining
      && !HasEvent(rows, k, Winner(n.rows[k]).value)
      ensures OpHas(accepted + {op}, k, Winner(n.rows[k]).value)
    {
      if k != op.key {
        assert !HasEvent(rows, k, Winner(m.rows[k]).value);
        OpHasMore(accepted, accepted + {op}, k, Winner(m.rows[k]).value);
      }
    }
  }

  lemma AcceptSound(w: World, r: Request)
    requires Sound(w) && Enabled(w, Accept(r))
    ensures Sound(After(w, Accept(r)))
  {
    var w', op := After(w, Accept(r)), NewOp(w.mem, r);
    AcceptedMemory(w.mem, r);
    OpsGrow(w.mem, w'.mem, w.shards, w.accepted);
    assert OpGood(w'.mem, w.shards, op);
    SnapshotsGrow(w.mem, w'.mem, w.shards, w.storage);
    EnqueueGood(w.queue, w.accepted, w.durable, op);
    AcceptKeepsRows(w, r);
    assert CoveredGood(w.storage, w'.accepted) by {
      assert ScopeOf(op) in w.storage.latest ==> ManifestGood(w.mem, w.shards, w.storage, ScopeOf(op));
    }
    if w.checkpoint.Some? && w.checkpoint.value.work.Reading? {
      var c := w.checkpoint.value;
      ReadSoFarGrows(w.mem, w'.mem, w.shards, c.work.remaining, c.coverage, c.work.scope,
                     Written(w.storage.parts, c.id, c.work), w.accepted, op);
    }
  }

  lemma AcceptKeepsRows(w: World, r: Request)
    requires Sound(w) && Enabled(w, Accept(r))
    ensures var w' := After(w, Accept(r)); RowsKept(w'.mem, w.shards, w.storage, w'.accepted)
  {
    var w', op := After(w, Accept(r)), NewOp(w.mem, r);
    AcceptedMemory(w.mem, r);
    forall k | k in w'.mem.rows ensures RowKept(w'.mem, w.shards, w.storage, w'.accepted, k) {
      if k == op.key {
        assert op in w'.accepted;
      } else {
        assert RowKept(w.mem, w.shards, w.storage, w.accepted, k);
        if Winner(w.mem.rows[k]).Some? && OpHas(w.accepted, k, Winner(w.mem.rows[k]).value) {
          OpHasMore(w.accepted, w'.accepted, k, Winner(w.mem.rows[k]).value);
        }
      }
    }
  }

  // Flushing.

  lemma BeginFlushSound(w: World, segments: seq<Segment>)
    requires Sound(w) && Enabled(w, BeginFlush(segments))
    ensures Sound(After(w, BeginFlush(segments)))
  {
    var q := After(w, BeginFlush(segments)).queue;
    forall op | op in w.accepted ensures op in w.durable || Queued(q, op) {
      assert op in w.durable || Queued(w.queue, op);
    }
  }

  lemma PutSegmentQueue(q: Queue, accepted: set<Op>, durable: set<Op>)
    requires QueueGood(q, accepted, durable) && q.flush.Some? && q.flush.value.todo != []
    ensures var g := q.flush.value.todo[0];
            var more := set op | op in g.ops;
            && GoodSegment(g) && more <= accepted
            && QueueGood(q.(flush := Some(q.flush.value.(todo := q.flush.value.todo[1..]))), accepted, durable + more)
  {
    var todo := q.flush.value.todo;
    var g, batches := todo[0], q.flush.value.batches;
    var durable' := durable + (set op | op in g.ops);
    var flush' := q.flush.value.(todo := todo[1..]);
    assert todo == [g] + todo[1..];
    assert forall op | op in g.ops :: op in accepted;
    forall scope, op | scope in batches && op in batches[scope]
      ensures op in durable' || InSegments(todo[1..], op)
    {
      if InSegments(todo, op) && op !in g.ops {
        var h :| h in todo && op in h.ops;
        assert h in todo[1..];
      }
    }
    var q' := q.(flush := Some(flush'));
    forall op | op in accepted ensures op in durable' || Queued(q', op) {
      assert op in durable || Queued(q, op);
    }
  }

  lemma PutSegmentSound(w: World, j: nat)
    requires Sound(w) && Enabled(w, PutSegment(j))
    ensures Sound(After(w, PutSegment(j)))
  {
    var w' := After(w, PutSegment(j));
    PutSegmentQueue(w.queue, w.accepted, w.durable);
    JournalOnly(w, w');
    forall op | op in w'.durable && op.seqNo > Covered(w'.storage, ScopeOf(op))
      ensures InJournal(w'.storage.journal, op)
    {
      if op in w.durable {
        assert InJournal(w.storage.journal, op);
        var i :| i in w.storage.journal && op in w.storage.journal[i].ops;
        assert i in w'.storage.journal;
      } else {
        assert j in w'.storage.journal;
      }
    }
  }

  /** A step that touches only the journal keeps what is said about snapshots. */
  lemma JournalOnly(w: World, w': World)
    requires Sound(w) && w'.mem == w.mem && w'.shards == w.shards && w'.accepted == w.accepted && w'.checkpoint == w.checkpoint
    requires w'.storage == w.storage.(journal := w'.storage.journal)
    ensures SnapshotsGood(w'.mem, w'.shards, w'.storage) && CoveredGood(w'.storage, w'.accepted)
    ensures RowsKept(w'.mem, w'.shards, w'.storage, w'.accepted)
    ensures w'.checkpoint.Some? ==> CheckpointGood(w'.mem, w'.shards, w'.storage, w'.checkpoint.value, w'.accepted)
  {
    assert forall scope :: Snapshot(w'.storage, scope) == Snapshot(w.storage, scope);
    forall scope | scope in w'.storage.latest ensures ManifestGood(w'.mem, w'.shards, w'.storage, scope) {
      assert ManifestGood(w.mem, w.shards, w.storage, scope);
    }
    forall k | k in w'.mem.rows ensures RowKept(w'.mem, w'.shards, w'.storage, w'.accepted, k) {
      assert RowKept(w.mem, w.shards, w.storage, w.accepted, k);
    }
    forall op | op in w'.accepted && op.seqNo <= Covered(w'.storage, ScopeOf(op))
      ensures Keeps(Snapshot(w'.storage, ScopeOf(op)), op.key, op.ts)
    {
      assert Keeps(Snapshot(w.storage, ScopeOf(op)), op.key, op.ts);
    }
  }

  lemma RequeueGood(q: Queue, accepted: set<Op>, durable: set<Op>)
    requires QueueGood(q, accepted, durable) && q.flush.Some?
    ensures QueueGood(Queue(Requeue(q.pending, q.flush.value.batches), None), accepted, durable)
  {
    var batches := q.flush.value.batches;
    var q' := Queue(Requeue(q.pending, batches), None);
    forall op | op in accepted ensures op in durable || Queued(q', op) {
      assert op in durable || Queued(q, op);
      assert Queued(q, op) ==> ScopeOf(op) in q.pending.Keys + batches.Keys;
    }
  }

  lemma FailFlushSound(w: World)
    requires Sound(w) && Enabled(w, FailFlush)
    ensures Sound(After(w, FailFlush))
  {
    RequeueGood(w.queue, w.accepted, w.durable);
  }

  lemma EndFlushSound(w: World)
    requires Sound(w) && Enabled(w, EndFlush)
    ensures Sound(After(w, EndFlush))
  {
    var q := After(w, EndFlush).queue;
    forall op | op in w.accepted ensures op in w.durable || Queued(q, op) {
      assert op in w.durable || Queued(w.queue, op);
    }
  }

  // Checkpoints.

  lemma BeginCheckpointSound(w: World, id: nat)
    requires Sound(w) && Enabled(w, BeginCheckpoint(id))
    ensures Sound(After(w, BeginCheckpoint(id)))
  {
    forall scope | scope in w.storage.latest ensures w.storage.latest[scope].seqNo <= w.mem.seqNo {
      assert ManifestGood(w.mem, w.shards, w.storage, scope);
    }
  }

  /** At the start of a scope everything is still to be read. */
  lemma BeginScopeSound(w: World, scope: Scope)
    requires Sound(w) && Enabled(w, BeginScope(scope))
    ensures Sound(After(w, BeginScope(scope)))
  {
    var remaining := set k | k in w.mem.rows && Home(w.shards, k) == scope;
    forall op | op in w.accepted && ScopeOf(op) == scope ensures op.key in remaining {
      assert OpGood(w.mem, w.shards, op);
      assert WinnerAt(w.mem.rows, op.key).Some?;
    }
    assert ReadSoFar(w.mem, w.shards, remaining, w.checkpoint.value.coverage, scope, [] + [], w.accepted);
  }

  /** Reading a row records its newest event, hence everything the row holds. */
  lemma ReadRowKeeps(mem: Memory, shards: set<string>, remaining: set<Key>, coverage: nat, scope: Scope, rows: seq<Stored>,
                     accepted: set<Op>, k: Key)
    requires MemoryGood(mem) && AcceptedGood(mem, shards, accepted)
    requires ReadSoFar(mem, shards, remaining, coverage, scope, rows, accepted)
    requires k in mem.rows && Home(shards, k) == scope
    ensures ReadSoFar(mem, shards, remaining - {k}, coverage, scope, rows + [Stored(k, SnapshotOf(mem.rows[k]))], accepted)
  {
    var r := Stored(k, SnapshotOf(mem.rows[k]));
    var rows' := rows + [r];
    assert RowKnown(mem, k);
    SnapshotRoundTrip(mem.rows[k]);
    assert StoredGood(mem, shards, scope, r);
    assert r in rows' && forall o | o in rows :: o in rows';
    forall op | op in accepted && ScopeOf(op) == scope && op.seqNo <= coverage && op.key !in remaining - {k}
      ensures Keeps(rows', op.key, op.ts)
    {
      assert OpGood(mem, shards, op);
      if op.key != k {
        assert Keeps(rows, op.key, op.ts);
        KeepsMore(rows, rows', op.key, op.ts);
      }
    }
    forall o | o in mem.rows && Home(shards, o) == scope && Winner(mem.rows[o]).Some? && o !in remaining - {k}
      && !OpHas(accepted, o, Winner(mem.rows[o]).value)
      ensures HasEvent(rows', o, Winner(mem.rows[o]).value)
    {
      if o != k {
        assert HasEvent(rows, o, Winner(mem.rows[o]).value);
        HasEventMore(rows, rows', o, Winner(mem.rows[o]).value);
      }
    }
  }

  lemma KeepsMore(rows: seq<Stored>, more: seq<Stored>, k: Key, ts: Stamp)
    requires Keeps(rows, k, ts) && forall r | r in rows :: r in more
    ensures Keeps(more, k, ts)
  {
    var r :| r in rows && r.key == k && ValidSnapshotRow(r.row) && SnapshotEvent(r.row).ts.c >= ts.c;
    assert r in more;
  }

  lemma HasEventMore(rows: seq<Stored>, more: seq<Stored>, k: Key, e: Event)
    requires HasEvent(rows, k, e) && forall r | r in rows :: r in more
    ensures HasEvent(more, k, e)
  {
    var r :| r in rows && r.key == k && ValidSnapshotRow(r.row) && SnapshotEvent(r.row) == e;
    assert r in more;
  }

  lemma ReadRowSound(w: World, k: Key)
    requires Sound(w) && Enabled(w, ReadRow(k))
    ensures Sound(After(w, ReadRow(k)))
  {
    var c, w' := w.checkpoint.value, After(w, ReadRow(k));
    var listed, r := Listed(w.storage.parts, c.work.scope, c.id, c.work.count), Stored(k, SnapshotOf(w.mem.rows[k]));
    ReadRowKeeps(w.mem, w.shards, c.work.remaining, c.coverage, c.work.scope, listed + c.work.buffer, w.accepted, k);
    assert listed + c.work.buffer + [r] == listed + (c.work.buffer + [r]);
  }

  /** Writing a snapshot segment moves rows from the buffer to storage, changing no latest snapshot. */
  lemma PutPartSound(w: World, size: nat)
    requires Sound(w) && Enabled(w, PutPart(size))
    ensures Sound(After(w, PutPart(size)))
  {
    var c, w' := w.checkpoint.value, After(w, PutPart(size));
    var scope, n, b := c.work.scope, c.work.count, c.work.buffer;
    ListedSame(w.storage.parts, w'.storage.parts, scope, c.id, n);
    assert Listed(w'.storage.parts, scope, c.id, n + 1) == Listed(w.storage.parts, scope, c.id, n) + b[..size];
    assert Listed(w.storage.parts, scope, c.id, n) + b[..size] + b[size..] == Listed(w.storage.parts, scope, c.id, n) + b by {
      assert b == b[..size] + b[size..];
    }
    assert Present(w'.storage.parts, scope, c.id, n + 1);
    PartsOnly(w, w');
  }

  /** A step that changes no segment of a latest snapshot keeps what is said about snapshots. */
  lemma PartsOnly(w: World, w': World)
    requires Sound(w) && w'.mem == w.mem && w'.shards == w.shards && w'.accepted == w.accepted && w'.durable == w.durable
    requires w'.storage == w.storage.(parts := w'.storage.parts)
    requires forall scope, i {:trigger Part(scope, w.storage.latest[scope].id, i)} |
               scope in w.storage.latest && 0 <= i < w.storage.latest[scope].count && Part(scope, w.storage.latest[scope].id, i) in w.storage.parts ::
               && Part(scope, w.storage.latest[scope].id, i) in w'.storage.parts
               && w'.storage.parts[Part(scope, w.storage.latest[scope].id, i)] == w.storage.parts[Part(scope, w.storage.latest[scope].id, i)]
    ensures SnapshotsGood(w'.mem, w'.shards, w'.storage) && CoveredGood(w'.storage, w'.accepted) && DurableGood(w'.storage, w'.durable)
    ensures RowsKept(w'.mem, w'.shards, w'.storage, w'.accepted)
  {
    forall scope ensures Snapshot(w'.storage, scope) == Snapshot(w.storage, scope) {
      if scope in w.storage.latest {
        assert ManifestGood(w.mem, w.shards, w.storage, scope);
        ListedSame(w.storage.parts, w'.storage.parts, scope, w.storage.latest[scope].id, w.storage.latest[scope].count);
      }
    }
    forall scope | scope in w'.storage.latest ensures ManifestGood(w'.mem, w'.shards, w'.storage, scope) {
      assert ManifestGood(w.mem, w.shards, w.storage, scope);
    }
    forall k | k in w'.mem.rows ensures RowKept(w'.mem, w'.shards, w'.storage, w'.accepted, k) {
      assert RowKept(w.mem, w.shards, w.storage, w.accepted, k);
    }
    forall op | op in w'.accepted && op.seqNo <= Covered(w'.storage, ScopeOf(op))
      ensures Keeps(Snapshot(w'.storage, ScopeOf(op)), op.key, op.ts)
    {
      assert Keeps(Snapshot(w.storage, ScopeOf(op)), op.key, op.ts);
    }
    forall op | op in w'.durable && op.seqNo > Covered(w'.storage, ScopeOf(op))
      ensures InJournal(w'.storage.journal, op)
    {
      assert InJournal(w.storage.journal, op);
    }
  }

  /** Publishing a manifest: what was read becomes the scope's snapshot. */
  lemma PutManifestSound(w: World)
    requires Sound(w) && Enabled(w, PutManifest)
    ensures Sound(After(w, PutManifest))
  {
    var c, w' := w.checkpoint.value, After(w, PutManifest);
    var scope := c.work.scope;
    var rows := Listed(w.storage.parts, scope, c.id, c.work.count);
    assert rows + [] == rows;
    assert Snapshot(w'.storage, scope) == rows;
    assert forall other | other != scope :: Snapshot(w'.storage, other) == Snapshot(w.storage, other);
    forall other | other in w'.storage.latest ensures ManifestGood(w'.mem, w'.shards, w'.storage, other) {
      assert other != scope ==> ManifestGood(w.mem, w.shards, w.storage, other);
    }
    forall op | op in w'.accepted && op.seqNo <= Covered(w'.storage, ScopeOf(op))
      ensures Keeps(Snapshot(w'.storage, ScopeOf(op)), op.key, op.ts)
    {
      if ScopeOf(op) == scope {
        assert Keeps(rows, op.key, op.ts);
      } else {
        assert Keeps(Snapshot(w.storage, ScopeOf(op)), op.key, op.ts);
      }
    }
    forall op | op in w'.durable && op.seqNo > Covered(w'.storage, ScopeOf(op))
      ensures InJournal(w'.storage.journal, op)
    {
      assert InJournal(w.storage.journal, op);
    }
    PutManifestKeepsRows(w);
  }

  lemma PutManifestKeepsRows(w: World)
    requires Sound(w) && Enabled(w, PutManifest)
    ensures var w' := After(w, PutManifest); RowsKept(w'.mem, w'.shards, w'.storage, w'.accepted)
  {
    var c, w' := w.checkpoint.value, After(w, PutManifest);
    var scope := c.work.scope;
    var rows := Listed(w.storage.parts, scope, c.id, c.work.count);
    assert rows + [] == rows;
    forall k | k in w'.mem.rows ensures RowKept(w'.mem, w'.shards, w'.storage, w'.accepted, k) {
      if Home(w.shards, k) != scope {
        assert RowKept(w.mem, w.shards, w.storage, w.accepted, k);
        assert Snapshot(w'.storage, Home(w.shards, k)) == Snapshot(w.storage, Home(w.shards, k));
      } else if Winner(w.mem.rows[k]).Some? && !OpHas(w.accepted, k, Winner(w.mem.rows[k]).value) {
        assert HasEvent(rows, k, Winner(w.mem.rows[k]).value);
      }
    }
  }

  lemma DeleteSegmentsSound(w: World, dead: set<nat>)
    requires Sound(w) && Enabled(w, DeleteSegments(dead))
    ensures Sound(After(w, DeleteSegments(dead)))
  {
    var w' := After(w, DeleteSegments(dead));
    JournalOnly(w, w');
    forall op | op in w'.durable && op.seqNo > Covered(w'.storage, ScopeOf(op))
      ensures InJournal(w'.storage.journal, op)
    {
      assert InJournal(w.storage.journal, op);
      var j :| j in w.storage.journal && op in w.storage.journal[j].ops;
      assert GoodSegment(w.storage.journal[j]);
      assert j in w'.storage.journal;
    }
  }

  lemma DeletePartsSound(w: World, ids: set<nat>)
    requires Sound(w) && Enabled(w, DeleteParts(ids))
    ensures Sound(After(w, DeleteParts(ids)))
  {
    PartsOnly(w, After(w, DeleteParts(ids)));
  }

  // Crash and restore.

  /** A write restore applies: a row of a latest snapshot, or a journaled op beyond it. */
  ghost predicate Replayed(st: Storage, w: Write) {
    match w
    case Restored(k, row) => exists scope :: scope in st.latest && Stored(k, row) in Snapshot(st, scope)
    case Applied(op) => exists j :: j in st.journal && op in st.journal[j].ops && op.seqNo > Covered(st, st.journal[j].scope)
  }

  lemma {:induction false} RowWritesMembers(rows: seq<Stored>)
    ensures forall w :: w in RowWrites(rows) <==> w.Restored? && Stored(w.key, w.row) in rows
  {
    if rows != [] {
      RowWritesMembers(rows[..|rows| - 1]);
      assert rows == rows[..|rows| - 1] + [rows[|rows| - 1]];
    }
  }

  lemma {:induction false} OpWritesMembers(ops: seq<Op>, covered: nat)
    ensures forall w :: w in OpWrites(ops, covered) <==> w.Applied? && w.op in ops && w.op.seqNo > covered
  {
    if ops != [] {
      OpWritesMembers(ops[..|ops| - 1], covered);
      assert ops == ops[..|ops| - 1] + [ops[|ops| - 1]];
    }
  }

  lemma {:induction false} SnapshotWritesMembers(st: Storage, scopes: seq<Scope>)
    ensures forall w :: w in SnapshotWrites(st, scopes) <==>
              w.Restored? && exists scope :: scope in scopes && Stored(w.key, w.row) in Snapshot(st, scope)
  {
    if scopes != [] {
      SnapshotWritesMembers(st, scopes[..|scopes| - 1]);
      RowWritesMembers(Snapshot(st, scopes[|scopes| - 1]));
      assert scopes == scopes[..|scopes| - 1] + [scopes[|scopes| - 1]];
    }
  }

  lemma {:induction false} JournalWritesMembers(st: Storage, keys: seq<nat>)
    ensures forall w :: w in JournalWrites(st, keys) <==>
              w.Applied? && exists j :: j in keys && j in st.journal && w.op in st.journal[j].ops
                                     && w.op.seqNo > Covered(st, st.journal[j].scope)
  {
    if keys != [] {
      var front, j := keys[..|keys| - 1], keys[|keys| - 1];
      JournalWritesMembers(st, front);
      if j in st.journal {
        OpWritesMembers(st.journal[j].ops, Covered(st, st.journal[j].scope));
      }
      assert keys == front + [j];
    }
  }

  lemma RestoreWritesMembers(st: Storage, scopes: seq<Scope>, keys: seq<nat>)
    requires Lists(st, scopes, keys)
    ensures forall w :: w in RestoreWrites(st, scopes, keys) <==> Replayed(st, w)
  {
    SnapshotWritesMembers(st, scopes);
    JournalWritesMembers(st, keys);
    forall w ensures w in RestoreWrites(st, scopes, keys) <==> Replayed(st, w) {
      if w.Restored? && Replayed(st, w) {
        var scope :| scope in st.latest && Stored(w.key, w.row) in Snapshot(st, scope);
        assert scope in scopes;
      }
    }
  }

  /** Every replayed write was issued here and is no newer than memory. */
  ghost predicate WriteKnown(mem: Memory, w: Write) {
    && ValidWrite(w)
    && Known(mem, w.Target(), EventOf(w))
    && Holds(mem.rows, w.Target(), EventOf(w).ts)
  }

  lemma ReplayedKnown(w: World, wr: Write)
    requires Sound(w) && Replayed(w.storage, wr)
    ensures WriteKnown(w.mem, wr)
  {
    match wr
    case Restored(k, row) =>
      var scope :| scope in w.storage.latest && Stored(k, row) in Snapshot(w.storage, scope);
      assert ManifestGood(w.mem, w.shards, w.storage, scope);
      assert StoredGood(w.mem, w.shards, scope, Stored(k, row));
    case Applied(op) =>
      var j :| j in w.storage.journal && op in w.storage.journal[j].ops && op.seqNo > Covered(w.storage, w.storage.journal[j].scope);
      assert OpGood(w.mem, w.shards, op);
  }

  lemma {:induction false} TouchWritesBound(ws: seq<Write>)
    requires forall w | w in ws :: ValidWrite(w)
    ensures forall w | w in ws :: EventOf(w).ts.c <= TouchWrites(ws)
  {
    if ws != [] {
      TouchWritesBound(ws[..|ws| - 1]);
      assert ws == ws[..|ws| - 1] + [ws[|ws| - 1]];
    }
  }

  lemma {:induction false} SeqAfterSnapshotsBound(st: Storage, scopes: seq<Scope>)
    ensures forall scope | scope in scopes :: Covered(st, scope) <= SeqAfterSnapshots(st, scopes)
  {
    if scopes != [] {
      SeqAfterSnapshotsBound(st, scopes[..|scopes| - 1]);
      assert scopes == scopes[..|scopes| - 1] + [scopes[|scopes| - 1]];
    }
  }

  lemma {:induction false} SeqAfterOpsBound(start: nat, ws: seq<Write>)
    ensures start <= SeqAfterOps(start, ws)
    ensures forall w | w in ws && w.Applied? :: w.op.seqNo <= SeqAfterOps(start, ws)
  {
    if ws != [] {
      SeqAfterOpsBound(start, ws[..|ws| - 1]);
      assert ws == ws[..|ws| - 1] + [ws[|ws| - 1]];
    }
  }

  predicate CarriesTick(w: Write, c: nat) {
    match w
    case Applied(op) => op.ts.c == c
    case Restored(_, r) => (r.ts.Some? && r.ts.value.c == c) || (r.deleted.Some? && r.deleted.value.c == c)
  }

  lemma {:induction false} TouchWritesAttained(ws: seq<Write>)
    ensures TouchWrites(ws) == 0 || exists w :: w in ws && CarriesTick(w, TouchWrites(ws))
  {
    if ws != [] {
      var front, last := ws[..|ws| - 1], ws[|ws| - 1];
      assert ws == front + [last];
      TouchWritesAttained(front);
      if TouchWrites(ws) == TouchWrites(front) != 0 {
        var w :| w in front && CarriesTick(w, TouchWrites(front));
        assert w in ws;
      } else if TouchWrites(ws) != 0 {
        assert last in ws && CarriesTick(last, TouchWrites(ws));
      }
    }
  }

  lemma {:induction false} SeqAfterSnapshotsAttained(st: Storage, scopes: seq<Scope>)
    ensures SeqAfterSnapshots(st, scopes) == 0 || exists scope :: scope in scopes && Covered(st, scope) == SeqAfterSnapshots(st, scopes)
  {
    if scopes != [] {
      SeqAfterSnapshotsAttained(st, scopes[..|scopes| - 1]);
      assert scopes == scopes[..|scopes| - 1] + [scopes[|scopes| - 1]];
    }
  }

  lemma {:induction false} SeqAfterOpsAttained(start: nat, ws: seq<Write>)
    ensures SeqAfterOps(start, ws) == start || exists w :: w in ws && w.Applied? && w.op.seqNo == SeqAfterOps(start, ws)
  {
    if ws != [] {
      SeqAfterOpsAttained(start, ws[..|ws| - 1]);
      assert ws == ws[..|ws| - 1] + [ws[|ws| - 1]];
    }
  }

  /**
   * The restored counters are the greatest that was stored: the clock of the stamps replayed, the
   * sequence counter of what the manifests cover and of the ops replayed beyond.
   */
  lemma RestoredCounters(st: Storage, id: NodeId, scopes: seq<Scope>, keys: seq<nat>, book: map<nat, Op>)
    requires forall w | w in RestoreWrites(st, scopes, keys) :: ValidWrite(w)
    ensures var r, ws := Restore(st, id, scopes, keys, book), RestoreWrites(st, scopes, keys);
            && (forall w | w in ws :: EventOf(w).ts.c <= r.clock)
            && (r.clock == 0 || exists w :: w in ws && CarriesTick(w, r.clock))
            && (forall scope | scope in scopes && scope in st.latest :: st.latest[scope].seqNo <= r.seqNo)
            && (forall w | w in ws && w.Applied? :: w.op.seqNo <= r.seqNo)
            && (r.seqNo == 0 || (exists scope :: scope in scopes && scope in st.latest && st.latest[scope].seqNo == r.seqNo)
                || exists w :: w in ws && w.Applied? && w.op.seqNo == r.seqNo)
  {
    var ws, start, more := RestoreWrites(st, scopes, keys), SeqAfterSnapshots(st, scopes), JournalWrites(st, keys);
    TouchWritesBound(ws);
    TouchWritesAttained(ws);
    SeqAfterSnapshotsBound(st, scopes);
    SeqAfterSnapshotsAttained(st, scopes);
    SeqAfterOpsBound(start, more);
    SeqAfterOpsAttained(start, more);
    SnapshotsApplyNothing(st, scopes);
    hide SeqAfterOps, SeqAfterSnapshots, SnapshotWrites, JournalWrites, TouchWrites, ValidWrite, EventOf, CarriesTick;
  }

  lemma {:induction false} SnapshotsApplyNothing(st: Storage, scopes: seq<Scope>)
    ensures forall w | w in SnapshotWrites(st, scopes) :: w.Restored?
  {
    if scopes != [] {
      SnapshotsApplyNothing(st, scopes[..|scopes| - 1]);
      RowsApplyNothing(Snapshot(st, scopes[|scopes| - 1]));
    }
  }

  lemma {:induction false} RowsApplyNothing(rows: seq<Stored>)
    ensures forall w | w in RowWrites(rows) :: w.Restored?
  {
    if rows != [] {
      RowsApplyNothing(rows[..|rows| - 1]);
    }
  }

  predicate Touches(ws: seq<Write>, k: Key) {
    exists w :: w in ws && w.Target() == k
  }

  lemma {:induction false} WrittenRows(ws: seq<Write>)
    ensures forall k {:trigger Touches(ws, k)} | k in ApplyWrites(map[], ws) :: Touches(ws, k)
  {
    if ws != [] {
      var front, last := ws[..|ws| - 1], ws[|ws| - 1];
      assert ws == front + [last];
      WrittenRows(front);
      forall k | k in ApplyWrites(map[], ws) ensures Touches(ws, k) {
        if k == last.Target() {
          assert last in ws;
        } else {
          assert k in ApplyWrites(map[], front);
          assert Touches(front, k);
        }
      }
    }
  }

  /** What restored memory says of one replayed write. */
  ghost predicate Regained(r: Memory, w: Write) {
    && ValidWrite(w)
    && EventOf(w).ts.c <= r.clock
    && Holds(r.rows, w.Target(), EventOf(w).ts)
    && (w.Applied? ==> w.op.seqNo <= r.seqNo)
  }

  /** Restored rows come from replayed writes and beat all of them. */
  lemma RestoreRegains(w: World, scopes: seq<Scope>, keys: seq<nat>)
    requires Sound(w) && Lists(w.storage, scopes, keys)
    ensures var r := Restore(w.storage, w.mem.id, scopes, keys, w.mem.book);
            && (forall wr {:trigger Regained(r, wr)} | Replayed(w.storage, wr) :: Regained(r, wr))
            && (forall scope | scope in w.storage.latest :: w.storage.latest[scope].seqNo <= r.seqNo)
            && (forall k {:trigger FromReplay(w.storage, r, k)} | k in r.rows :: FromReplay(w.storage, r, k))
  {
    var ws := RestoreWrites(w.storage, scopes, keys);
    var r := Restore(w.storage, w.mem.id, scopes, keys, w.mem.book);
    RestoreWritesMembers(w.storage, scopes, keys);
    forall wr | wr in ws ensures ValidWrite(wr) && WriteKnown(w.mem, wr) {
      ReplayedKnown(w, wr);
    }
    SeqAfterSnapshotsBound(w.storage, scopes);
    SeqAfterOpsBound(SeqAfterSnapshots(w.storage, scopes), JournalWrites(w.storage, keys));
    forall scope | scope in w.storage.latest ensures w.storage.latest[scope].seqNo <= r.seqNo {
      assert scope in scopes;
    }
    forall wr | Replayed(w.storage, wr) ensures Regained(r, wr) {
      assert wr in ws;
      assert wr.Applied? ==> wr in JournalWrites(w.storage, keys) by {
        SnapshotWritesMembers(w.storage, scopes);
      }
      FoldRegains(w.mem, ws, wr);
    }
    forall k | k in r.rows ensures FromReplay(w.storage, r, k) {
      FoldFrom(ws, k);
    }
  }

  lemma FoldRegains(mem: Memory, ws: seq<Write>, wr: Write)
    requires forall w | w in ws :: ValidWrite(w) && WriteKnown(mem, w)
    requires wr in ws
    ensures EventOf(wr).ts.c <= TouchWrites(ws) && Holds(ApplyWrites(map[], ws), wr.Target(), EventOf(wr).ts)
  {
    ApplyWritesMeans(ws);
    TouchWritesBound(ws);
    NewestIsGreatest(ws, wr.Target());
    StampCounters(mem, ws, wr);
  }

  lemma FoldFrom(ws: seq<Write>, k: Key)
    requires forall w | w in ws :: ValidWrite(w)
    requires k in ApplyWrites(map[], ws)
    ensures var rows := ApplyWrites(map[], ws);
            && ValidRow(rows[k]) && Winner(rows[k]).Some?
            && exists w :: w in ws && w.Target() == k && EventOf(w) == Winner(rows[k]).value
  {
    ApplyWritesMeans(ws);
    NewestIsGreatest(ws, k);
    WrittenRows(ws);
    assert Touches(ws, k);
    assert WinnerAt(ApplyWrites(map[], ws), k) == Newest(ws, k);
  }

  ghost predicate FromReplay(st: Storage, r: Memory, k: Key)
    requires k in r.rows
  {
    && ValidRow(r.rows[k]) && Winner(r.rows[k]).Some?
    && exists wr :: Replayed(st, wr) && ValidWrite(wr) && wr.Target() == k && EventOf(wr) == Winner(r.rows[k]).value
  }

  /** Stamps of one writer compare by their counters. */
  lemma StampCounters(mem: Memory, ws: seq<Write>, wr: Write)
    requires forall w | w in ws :: ValidWrite(w) && WriteKnown(mem, w)
    requires wr in ws && IsGreatest(ws, wr.Target(), Newest(ws, wr.Target()))
    ensures Newest(ws, wr.Target()).Some? && Newest(ws, wr.Target()).value.ts.c >= EventOf(wr).ts.c
  {
    var k := wr.Target();
    assert Newest(ws, k).Some?;
    var w :| w in ws && w.Target() == k && EventOf(w) == Newest(ws, k).value;
    assert WriteKnown(mem, w) && WriteKnown(mem, wr);
  }

  lemma RestoredOp(w: World, r: Memory, op: Op)
    requires Sound(w) && op in w.durable && r.id == w.mem.id && r.book == w.mem.book
    requires forall wr | Replayed(w.storage, wr) :: Regained(r, wr)
    requires forall scope | scope in w.storage.latest :: w.storage.latest[scope].seqNo <= r.seqNo
    ensures OpGood(r, w.shards, op)
  {
    var st := w.storage;
    assert OpGood(w.mem, w.shards, op);
    if op.seqNo <= Covered(st, ScopeOf(op)) {
      assert Keeps(Snapshot(st, ScopeOf(op)), op.key, op.ts);
      var row :| row in Snapshot(st, ScopeOf(op)) && row.key == op.key && ValidSnapshotRow(row.row) && SnapshotEvent(row.row).ts.c >= op.ts.c;
      var wr := Restored(row.key, row.row);
      assert Stored(wr.key, wr.row) == row;
      assert ScopeOf(op) in st.latest;
      assert Replayed(st, wr);
      assert Regained(r, wr);
    } else {
      assert InJournal(st.journal, op);
      var j :| j in st.journal && op in st.journal[j].ops;
      assert GoodSegment(st.journal[j]);
      assert Replayed(st, Applied(op));
      assert Regained(r, Applied(op));
    }
  }

  lemma RestoredRow(w: World, r: Memory, k: Key)
    requires Sound(w) && r.id == w.mem.id && r.book == w.mem.book && k in r.rows && FromReplay(w.storage, r, k)
    requires forall wr | Replayed(w.storage, wr) :: Regained(r, wr)
    ensures RowKnown(r, k) && RowKept(r, w.shards, w.storage, w.durable, k)
    ensures Holds(w.mem.rows, k, Winner(r.rows[k]).value.ts)
  {
    var e := Winner(r.rows[k]).value;
    var wr :| Replayed(w.storage, wr) && ValidWrite(wr) && wr.Target() == k && EventOf(wr) == e;
    assert Regained(r, wr);
    ReplayedKnown(w, wr);
    match wr
    case Restored(_, row) =>
      var scope :| scope in w.storage.latest && Stored(k, row) in Snapshot(w.storage, scope);
      assert ManifestGood(w.mem, w.shards, w.storage, scope);
      assert StoredGood(w.mem, w.shards, scope, Stored(k, row));
      assert HasEvent(Snapshot(w.storage, scope), k, e);
    case Applied(op) =>
      assert op in w.durable;
  }

  lemma RestoredSnapshots(w: World, r: Memory)
    requires Sound(w) && r.id == w.mem.id && r.book == w.mem.book
    requires forall wr | Replayed(w.storage, wr) :: Regained(r, wr)
    requires forall scope | scope in w.storage.latest :: w.storage.latest[scope].seqNo <= r.seqNo
    ensures SnapshotsGood(r, w.shards, w.storage)
  {
    forall scope | scope in w.storage.latest ensures ManifestGood(r, w.shards, w.storage, scope) {
      assert ManifestGood(w.mem, w.shards, w.storage, scope);
      forall row | row in Snapshot(w.storage, scope) ensures StoredGood(r, w.shards, scope, row) {
        assert StoredGood(w.mem, w.shards, scope, row);
        var wr := Restored(row.key, row.row);
        assert Stored(wr.key, wr.row) == row;
        assert Replayed(w.storage, wr);
        assert Regained(r, wr);
      }
    }
  }

  lemma CrashSound(w: World, scopes: seq<Scope>, keys: seq<nat>)
    requires Sound(w) && Lists(w.storage, scopes, keys)
    ensures Sound(After(w, CrashAndRestore(scopes, keys)))
  {
    var r := Restore(w.storage, w.mem.id, scopes, keys, w.mem.book);
    RestoreRegains(w, scopes, keys);
    forall k | k in r.rows ensures RowKnown(r, k) && RowKept(r, w.shards, w.storage, w.durable, k) {
      assert FromReplay(w.storage, r, k);
      RestoredRow(w, r, k);
    }
    forall op | op in w.durable ensures OpGood(r, w.shards, op) {
      RestoredOp(w, r, op);
    }
    RestoredSnapshots(w, r);
    assert CoveredGood(w.storage, w.durable) by {
      forall op | op in w.durable && op.seqNo <= Covered(w.storage, ScopeOf(op))
        ensures Keeps(Snapshot(w.storage, ScopeOf(op)), op.key, op.ts)
      {
        assert op in w.accepted;
      }
    }
  }

  lemma StepSound(w: World, step: Step)
    requires Sound(w) && Enabled(w, step)
    ensures Sound(After(w, step))
  {
    match step
    case Accept(r) => AcceptSound(w, r);
    case BeginFlush(segments) => BeginFlushSound(w, segments);
    case PutSegment(j) => PutSegmentSound(w, j);
    case FailFlush => FailFlushSound(w);
    case EndFlush => EndFlushSound(w);
    case BeginCheckpoint(id) => BeginCheckpointSound(w, id);
    case BeginScope(scope) => BeginScopeSound(w, scope);
    case ReadRow(k) => ReadRowSound(w, k);
    case PutPart(size) => PutPartSound(w, size);
    case PutManifest => PutManifestSound(w);
    case DeleteSegments(dead) => DeleteSegmentsSound(w, dead);
    case DeleteParts(ids) => DeletePartsSound(w, ids);
    case EndScope =>
    case StopCheckpoint =>
    case CrashAndRestore(scopes, keys) => CrashSound(w, scopes, keys);
  }

  // Whole runs.

  ghost predicate Next(w: World, w': World) {
    exists step :: Enabled(w, step) && w' == After(w, step)
  }

  ghost predicate IsRun(run: seq<World>) {
    run != [] && Initial(run[0]) && forall i | 0 <= i < |run| - 1 :: Next(run[i], run[i + 1])
  }

  ghost predicate Reachable(w: World) {
    exists run :: IsRun(run) && run[|run| - 1] == w
  }

  lemma NextSound(w: World, w': World)
    requires Sound(w) && Next(w, w')
    ensures Sound(w')
  {
    var step :| Enabled(w, step) && w' == After(w, step);
    StepSound(w, step);
  }

  lemma InitialSound(w: World)
    requires Initial(w)
    ensures Sound(w)
  {
  }

  lemma {:induction false} RunsAreSound(run: seq<World>)
    requires IsRun(run)
    ensures Sound(run[|run| - 1])
  {
    hide Sound, Initial;
    if |run| == 1 {
      InitialSound(run[0]);
    } else {
      var front, i := run[..|run| - 1], |run| - 2;
      forall k | 0 <= k < |front| - 1 ensures Next(front[k], front[k + 1]) {
        assert Next(run[k], run[k + 1]);
      }
      RunsAreSound(front);
      assert Next(run[i], run[i + 1]);
      NextSound(run[i], run[i + 1]);
    }
  }

  lemma ReachableIsSound(w: World)
    requires Reachable(w)
    ensures Sound(w)
  {
    var run :| IsRun(run) && run[|run| - 1] == w;
    RunsAreSound(run);
  }

  /**
   * Crash safety.  Stopping at any point of any run, whatever the order storage lists its keys in:
   * every snapshot segment restore needs is there; every journaled op is regained, with its number
   * and tick below the restored counters; and nothing is restored that was not written by this node,
   * or that is newer than what memory held.
   */
  lemma CrashSafety(w: World, scopes: seq<Scope>, keys: seq<nat>)
    requires Reachable(w) && Lists(w.storage, scopes, keys)
    ensures var r := Restore(w.storage, w.mem.id, scopes, keys, w.mem.book);
            && (forall scope | scope in w.storage.latest ::
                  Present(w.storage.parts, scope, w.storage.latest[scope].id, w.storage.latest[scope].count))
            && (forall op | op in w.durable ::
                  && Holds(r.rows, op.key, op.ts)
                  && op.seqNo <= r.seqNo && op.ts.c <= r.clock)
            && (forall k | k in r.rows ::
                  && WinnerAt(r.rows, k).Some?
                  && Known(r, k, WinnerAt(r.rows, k).value)
                  && Holds(w.mem.rows, k, WinnerAt(r.rows, k).value.ts))
  {
    ReachableIsSound(w);
    var r := Restore(w.storage, w.mem.id, scopes, keys, w.mem.book);
    RestoreRegains(w, scopes, keys);
    forall scope | scope in w.storage.latest
      ensures Present(w.storage.parts, scope, w.storage.latest[scope].id, w.storage.latest[scope].count)
    {
      assert ManifestGood(w.mem, w.shards, w.storage, scope);
    }
    forall op | op in w.durable ensures OpGood(r, w.shards, op) {
      RestoredOp(w, r, op);
    }
    forall k | k in r.rows
      ensures RowKnown(r, k) && Holds(w.mem.rows, k, WinnerAt(r.rows, k).value.ts)
    {
      assert FromReplay(w.storage, r, k);
      RestoredRow(w, r, k);
    }
  }

  /** Restored rows show what ops of the writer wrote, each under its own stamp. */
  lemma RestoredRowsShow(w: World, scopes: seq<Scope>, keys: seq<nat>, k: Key)
    requires Reachable(w) && Lists(w.storage, scopes, keys)
    requires k in Restore(w.storage, w.mem.id, scopes, keys, w.mem.book).rows
    ensures var row := Restore(w.storage, w.mem.id, scopes, keys, w.mem.book).rows[k];
            && LastStamp(row).Some? && LastStamp(row).value.c in w.mem.book
            && var op := w.mem.book[LastStamp(row).value.c]; op.key == k && Shows(row, op.kind, op.value)
  {
    CrashSafety(w, scopes, keys);
    var r := Restore(w.storage, w.mem.id, scopes, keys, w.mem.book);
    var e := Winner(r.rows[k]).value;
    WinnerShows(r.rows[k], r.book[e.ts.c].(ts := e.ts));
  }

  /** A journaled op that nothing newer on its object followed is what the restored row shows. */
  lemma JournaledOpShown(w: World, scopes: seq<Scope>, keys: seq<nat>, op: Op)
    requires Reachable(w) && Lists(w.storage, scopes, keys) && op in w.durable
    requires forall c | c in w.mem.book && w.mem.book[c].key == op.key :: c <= op.ts.c
    ensures var rows := Restore(w.storage, w.mem.id, scopes, keys, w.mem.book).rows;
            op.key in rows && Stores(rows[op.key], op)
  {
    CrashSafety(w, scopes, keys);
    ReachableIsSound(w);
    var rows := Restore(w.storage, w.mem.id, scopes, keys, w.mem.book).rows;
    assert op.key in rows;
    assert OpGood(w.mem, w.shards, op);
    var e := Winner(rows[op.key]).value;
    assert e.ts.c == op.ts.c && e == OpEvent(w.mem.book[op.ts.c]) == OpEvent(op);
    WinnerShows(rows[op.key], op);
  }

  /** With nothing left to flush, a crash loses nothing at all: restore rebuilds memory exactly. */
  lemma FlushedSurvives(w: World, scopes: seq<Scope>, keys: seq<nat>)
    requires Reachable(w) && Lists(w.storage, scopes, keys)
    requires w.queue == Queue(map[], None)
    ensures forall k :: WinnerAt(Restore(w.storage, w.mem.id, scopes, keys, w.mem.book).rows, k) == WinnerAt(w.mem.rows, k)
  {
    ReachableIsSound(w);
    var r := Restore(w.storage, w.mem.id, scopes, keys, w.mem.book);
    RestoreRegains(w, scopes, keys);
    forall k ensures WinnerAt(r.rows, k) == WinnerAt(w.mem.rows, k) {
      if k in r.rows {
        assert FromReplay(w.storage, r, k);
        RestoredRow(w, r, k);
      }
      if k in w.mem.rows {
        FlushedRow(w, r, k);
      }
      SameEvent(w.mem, r, k);
    }
  }

  /** Two memories of one book that hold each other's newest event agree on it. */
  lemma SameEvent(m: Memory, r: Memory, k: Key)
    requires m.id == r.id && m.book == r.book
    requires k in m.rows ==> RowKnown(m, k) && Holds(r.rows, k, Winner(m.rows[k]).value.ts)
    requires k in r.rows ==> RowKnown(r, k) && Holds(m.rows, k, Winner(r.rows[k]).value.ts)
    ensures WinnerAt(r.rows, k) == WinnerAt(m.rows, k)
  {
  }

  lemma FlushedRow(w: World, r: Memory, k: Key)
    requires Sound(w) && w.queue == Queue(map[], None) && r.id == w.mem.id && r.book == w.mem.book
    requires k in w.mem.rows
    requires forall wr | Replayed(w.storage, wr) :: Regained(r, wr)
    requires forall scope | scope in w.storage.latest :: w.storage.latest[scope].seqNo <= r.seqNo
    ensures RowKnown(w.mem, k) && Holds(r.rows, k, Winner(w.mem.rows[k]).value.ts)
  {
    assert RowKnown(w.mem, k) && RowKept(w.mem, w.shards, w.storage, w.accepted, k);
    var e := Winner(w.mem.rows[k]).value;
    if OpHas(w.accepted, k, e) {
      var op :| op in w.accepted && op.key == k && OpEvent(op) == e;
      assert op in w.durable || Queued(w.queue, op);
      RestoredOp(w, r, op);
      assert OpGood(r, w.shards, op);
    } else {
      var scope := Home(w.shards, k);
      var row :| row in Snapshot(w.storage, scope) && row.key == k && ValidSnapshotRow(row.row) && SnapshotEvent(row.row) == e;
      var wr := Restored(k, row.row);
      assert Stored(wr.key, wr.row) == row;
      assert scope in w.storage.latest;
      assert Replayed(w.storage, wr);
      assert Regained(r, wr);
    }
  }
}
