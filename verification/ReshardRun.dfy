/**
 * A whole resharding (src/persistence.js restore, checkpoint and reshardReadiness under a resharding
 * shard map; src/index.js): target nodes start and restart at any time, rebuild their shards from the
 * source scopes and checkpoint them, all against one object storage.  Once every expected manifest is
 * there, the target scopes restore to the source's rows.
 *
 * Target nodes serve nothing before the resharding is finalized, so they accept and flush no ops.
 */
module ReshardRuns {
  import opened Wrappers
  import opened Clocks
  import opened Rows
  import opened OpLogs
  import opened ShardMaps
  import opened Resharding
  import P = Persistence

  /** Who owns which target shards, and how storage lists the source scopes and their segments. */
  datatype Plan = Plan(sources: set<string>, targets: set<string>, owned: map<string, set<string>>, scopes: seq<Scope>, keys: seq<nat>)

  ghost predicate PlanOk(plan: Plan) {
    && plan.targets != {} && plan.targets !! plan.sources
    && (forall n | n in plan.owned :: plan.owned[n] <= plan.targets)
    && (forall a, b | a in plan.owned && b in plan.owned && a != b :: plan.owned[a] !! plan.owned[b])
  }

  datatype Node = Node(rows: Db, checkpoint: Option<P.Checkpoint>)

  datatype Cluster = Cluster(nodes: map<string, Node>, storage: P.Storage)

  function SourceWrites(plan: Plan, st: P.Storage): seq<Write> {
    P.RestoreWrites(st, plan.scopes, plan.keys)
  }

  ghost function Rebuilt(plan: Plan, n: string, ws: seq<Write>): Db
    requires n in plan.owned
  {
    ApplyWrites(map[], KeptFor(plan.targets, plan.owned[n], ws))
  }

  /** One node with the shared storage, as a writer that has issued nothing. */
  function WorldOf(plan: Plan, cl: Cluster, n: string): P.World
    requires n in cl.nodes
  {
    P.World(P.Memory(n, 0, 0, cl.nodes[n].rows, map[]), P.Queue(map[], None), cl.nodes[n].checkpoint, cl.storage, plan.targets, {}, {})
  }

  // Steps.

  datatype Step = Start(node: string) | Work(node: string, step: P.Step)

  predicate Checkpointing(step: P.Step) {
    !step.Accept? && !step.BeginFlush? && !step.PutSegment? && !step.FailFlush? && !step.EndFlush? && !step.CrashAndRestore?
  }

  ghost predicate Enabled(plan: Plan, cl: Cluster, step: Step) {
    match step
    case Start(n) => n in plan.owned
    case Work(n, s) =>
      && n in plan.owned && n in cl.nodes && Checkpointing(s) && P.Enabled(WorldOf(plan, cl, n), s)
      && (s.BeginScope? ==> s.scope.shard in plan.owned[n])
  }

  /** A start, or a restart after a crash, rebuilds the node's rows from what storage holds of the source. */
  ghost function After(plan: Plan, cl: Cluster, step: Step): Cluster
    requires Enabled(plan, cl, step)
  {
    match step
    case Start(n) => cl.(nodes := cl.nodes[n := Node(Rebuilt(plan, n, SourceWrites(plan, cl.storage)), None)])
    case Work(n, s) =>
      var w := P.After(WorldOf(plan, cl, n), s);
      Cluster(cl.nodes[n := Node(w.mem.rows, w.checkpoint)], w.storage)
  }

  // The invariant.

  ghost predicate RowExact(targets: set<string>, ws: seq<Write>, scope: Scope, r: P.Stored)
    requires AllValid(ws)
  {
    P.Home(targets, r.key) == scope && ValidSnapshotRow(r.row) && Newest(ws, r.key) == Some(SnapshotEvent(r.row))
  }

  ghost predicate RowsExact(targets: set<string>, ws: seq<Write>, scope: Scope, rows: seq<P.Stored>)
    requires AllValid(ws)
  {
    forall r {:trigger RowExact(targets, ws, scope, r)} | r in rows :: RowExact(targets, ws, scope, r)
  }

  predicate Names(rows: seq<P.Stored>, k: Key) {
    exists r :: r in rows && r.key == k
  }

  /** Every object of the scope that the source knows is listed, or still to be read. */
  ghost predicate Complete(targets: set<string>, ws: seq<Write>, scope: Scope, rows: seq<P.Stored>, remaining: set<Key>)
    requires AllValid(ws)
  {
    forall k {:trigger Names(rows, k)} | P.Home(targets, k) == scope && Newest(ws, k).Some? :: k in remaining || Names(rows, k)
  }

  ghost predicate SnapshotExact(targets: set<string>, ws: seq<Write>, st: P.Storage, scope: Scope)
    requires AllValid(ws) && scope in st.latest
  {
    && P.Present(st.parts, scope, st.latest[scope].id, st.latest[scope].count)
    && RowsExact(targets, ws, scope, P.Snapshot(st, scope)) && Complete(targets, ws, scope, P.Snapshot(st, scope), {})
  }

  ghost predicate SnapshotsExact(targets: set<string>, ws: seq<Write>, st: P.Storage)
    requires AllValid(ws)
  {
    forall scope {:trigger SnapshotExact(targets, ws, st, scope)} | scope in st.latest && scope.shard in targets :: SnapshotExact(targets, ws, st, scope)
  }

  ghost predicate WorkExact(targets: set<string>, owned: set<string>, ws: seq<Write>, st: P.Storage, c: P.Checkpoint)
    requires AllValid(ws)
  {
    && (c.work.Reading? ==>
          && c.work.scope.shard in owned
          && (c.work.scope in st.latest ==> st.latest[c.work.scope].id != c.id)
          && P.Present(st.parts, c.work.scope, c.id, c.work.count)
          && RowsExact(targets, ws, c.work.scope, P.Written(st.parts, c.id, c.work))
          && Complete(targets, ws, c.work.scope, P.Written(st.parts, c.id, c.work), c.work.remaining))
    && (c.work.Cleaning? ==>
          c.work.scope.shard in owned && c.work.scope in st.latest && st.latest[c.work.scope].id == c.id)
  }

  ghost predicate NodeExact(plan: Plan, ws: seq<Write>, cl: Cluster, n: string)
    requires AllValid(ws) && n in cl.nodes
  {
    && n in plan.owned && cl.nodes[n].rows == Rebuilt(plan, n, ws)
    && (cl.nodes[n].checkpoint.Some? ==> WorkExact(plan.targets, plan.owned[n], ws, cl.storage, cl.nodes[n].checkpoint.value))
  }

  ghost predicate NodesExact(plan: Plan, ws: seq<Write>, cl: Cluster)
    requires AllValid(ws)
  {
    forall n {:trigger NodeExact(plan, ws, cl, n)} | n in cl.nodes :: NodeExact(plan, ws, cl, n)
  }

  /** The source is as it was, and whatever is published for a target scope is the source's. */
  ghost predicate Inv(plan: Plan, ws: seq<Write>, cl: Cluster) {
    && PlanOk(plan) && AllValid(ws)
    && ListsSource(cl.storage, plan.sources, plan.scopes, plan.keys) && SourceWrites(plan, cl.storage) == ws
    && NodesExact(plan, ws, cl) && SnapshotsExact(plan.targets, ws, cl.storage)
    && (forall j | j in cl.storage.journal :: cl.storage.journal[j].scope.shard !in plan.targets)
  }

  // What a rebuilt node holds.

  lemma RebuiltRow(plan: Plan, n: string, ws: seq<Write>, k: Key)
    requires PlanOk(plan) && AllValid(ws) && n in plan.owned && ShardForObject(plan.targets, k.id) in plan.owned[n]
    ensures k in Rebuilt(plan, n, ws) <==> Newest(ws, k).Some?
    ensures k in Rebuilt(plan, n, ws) ==> ValidRow(Rebuilt(plan, n, ws)[k]) && Winner(Rebuilt(plan, n, ws)[k]) == Newest(ws, k)
  {
    var kept := KeptFor(plan.targets, plan.owned[n], ws);
    KeptValid(plan.targets, plan.owned[n], ws);
    NewestKept(plan.targets, plan.owned[n], ws, k);
    ApplyWritesMeans(kept);
    assert WinnerAt(ApplyWrites(map[], kept), k) == Newest(kept, k);
    if k in ApplyWrites(map[], kept) {
      P.WrittenRows(kept);
      assert P.Touches(kept, k);
      NewestIsGreatest(kept, k);
    }
  }

  /** What a node reads of one row for its snapshot is the source's newest event. */
  lemma ReadExact(plan: Plan, n: string, ws: seq<Write>, scope: Scope, k: Key)
    requires PlanOk(plan) && AllValid(ws) && n in plan.owned && scope.shard in plan.owned[n]
    requires P.Home(plan.targets, k) == scope && k in Rebuilt(plan, n, ws)
    ensures RowExact(plan.targets, ws, scope, P.Stored(k, SnapshotOf(Rebuilt(plan, n, ws)[k])))
  {
    RebuiltRow(plan, n, ws, k);
    SnapshotRoundTrip(Rebuilt(plan, n, ws)[k]);
  }

  // Storage outside a node's shards.

  ghost predicate SameOutside(a: P.Storage, b: P.Storage, shards: set<string>) {
    && (forall scope: Scope | scope.shard !in shards ::
          (scope in a.latest <==> scope in b.latest) && (scope in a.latest ==> a.latest[scope] == b.latest[scope]))
    && (forall p: P.Part | p.scope.shard !in shards ::
          (p in a.parts <==> p in b.parts) && (p in a.parts ==> a.parts[p] == b.parts[p]))
  }

  /** The parts of one snapshot are the same in both. */
  predicate SameParts(a: P.Storage, b: P.Storage, scope: Scope, id: nat, n: nat) {
    forall i {:trigger P.Part(scope, id, i)} | 0 <= i < n ::
      && (P.Part(scope, id, i) in a.parts <==> P.Part(scope, id, i) in b.parts)
      && (P.Part(scope, id, i) in a.parts ==> a.parts[P.Part(scope, id, i)] == b.parts[P.Part(scope, id, i)])
  }

  lemma SnapshotStays(targets: set<string>, ws: seq<Write>, a: P.Storage, b: P.Storage, scope: Scope)
    requires AllValid(ws) && scope in a.latest && scope in b.latest && a.latest[scope] == b.latest[scope]
    requires SameParts(a, b, scope, a.latest[scope].id, a.latest[scope].count) && SnapshotExact(targets, ws, a, scope)
    ensures SnapshotExact(targets, ws, b, scope)
  {
    P.ListedSame(a.parts, b.parts, scope, a.latest[scope].id, a.latest[scope].count);
  }

  lemma WorkStays(targets: set<string>, owned: set<string>, ws: seq<Write>, a: P.Storage, b: P.Storage, c: P.Checkpoint, shards: set<string>)
    requires AllValid(ws) && owned !! shards && SameOutside(a, b, shards) && WorkExact(targets, owned, ws, a, c)
    ensures WorkExact(targets, owned, ws, b, c)
  {
    if c.work.Reading? {
      P.ListedSame(a.parts, b.parts, c.work.scope, c.id, c.work.count);
      assert P.Written(a.parts, c.id, c.work) == P.Written(b.parts, c.id, c.work);
    }
  }

  // One step of one node.

  /** The rows a node holds of its own shards are the source's. */
  ghost predicate RowsRight(targets: set<string>, owned: set<string>, ws: seq<Write>, rows: Db)
    requires AllValid(ws)
  {
    && (forall k {:trigger k in rows} | k in rows && P.Home(targets, k).shard in owned ::
          RowExact(targets, ws, P.Home(targets, k), P.Stored(k, SnapshotOf(rows[k]))))
    && (forall k {:trigger Newest(ws, k)} | P.Home(targets, k).shard in owned && Newest(ws, k).Some? :: k in rows)
  }

  lemma RebuiltRight(plan: Plan, n: string, ws: seq<Write>)
    requires PlanOk(plan) && AllValid(ws) && n in plan.owned
    ensures RowsRight(plan.targets, plan.owned[n], ws, Rebuilt(plan, n, ws))
  {
    hide Rebuilt;
    forall k | P.Home(plan.targets, k).shard in plan.owned[n]
      ensures k in Rebuilt(plan, n, ws) ==> RowExact(plan.targets, ws, P.Home(plan.targets, k), P.Stored(k, SnapshotOf(Rebuilt(plan, n, ws)[k])))
      ensures Newest(ws, k).Some? ==> k in Rebuilt(plan, n, ws)
    {
      RebuiltRow(plan, n, ws, k);
      if k in Rebuilt(plan, n, ws) {
        ReadExact(plan, n, ws, P.Home(plan.targets, k), k);
      }
    }
  }

  /** A node's view: its world is right for its own shards. */
  ghost predicate WorldExact(owned: set<string>, ws: seq<Write>, w: P.World)
    requires AllValid(ws)
  {
    && RowsRight(w.shards, owned, ws, w.mem.rows) && SnapshotsExact(w.shards, ws, w.storage) && owned <= w.shards
    && (w.checkpoint.Some? ==> WorkExact(w.shards, owned, ws, w.storage, w.checkpoint.value))
  }

  /** What a checkpointing step does: it stays in the node's shards and keeps everything published exact. */
  ghost predicate Stays(owned: set<string>, ws: seq<Write>, w: P.World, w': P.World)
    requires AllValid(ws)
  {
    && WorldExact(owned, ws, w') && w'.mem == w.mem && SameOutside(w.storage, w'.storage, owned)
    && forall j | j in w'.storage.journal :: j in w.storage.journal && w'.storage.journal[j] == w.storage.journal[j]
  }

  lemma BeginScopeStays(owned: set<string>, ws: seq<Write>, w: P.World, scope: Scope)
    requires AllValid(ws) && WorldExact(owned, ws, w) && P.Enabled(w, P.BeginScope(scope)) && scope.shard in owned
    ensures Stays(owned, ws, w, P.After(w, P.BeginScope(scope)))
  {
    var w' := P.After(w, P.BeginScope(scope));
    var work := w'.checkpoint.value.work;
    assert P.Written(w'.storage.parts, w'.checkpoint.value.id, work) == [];
    forall k | P.Home(w.shards, k) == scope && Newest(ws, k).Some? ensures k in work.remaining {
      assert k in w.mem.rows;
    }
  }

  lemma ReadRowStays(owned: set<string>, ws: seq<Write>, w: P.World, k: Key)
    requires AllValid(ws) && WorldExact(owned, ws, w) && P.Enabled(w, P.ReadRow(k))
    ensures Stays(owned, ws, w, P.After(w, P.ReadRow(k)))
  {
    var c, w' := w.checkpoint.value, P.After(w, P.ReadRow(k));
    var r, before := P.Stored(k, SnapshotOf(w.mem.rows[k])), P.Written(w.storage.parts, c.id, c.work);
    var after := P.Written(w'.storage.parts, c.id, w'.checkpoint.value.work);
    assert after == before + [r];
    assert RowExact(w.shards, ws, c.work.scope, r);
    MoreRows(w.shards, ws, c.work.scope, before, r, c.work.remaining);
  }

  lemma MoreRows(targets: set<string>, ws: seq<Write>, scope: Scope, rows: seq<P.Stored>, r: P.Stored, remaining: set<Key>)
    requires AllValid(ws) && RowsExact(targets, ws, scope, rows) && Complete(targets, ws, scope, rows, remaining) && RowExact(targets, ws, scope, r)
    ensures RowsExact(targets, ws, scope, rows + [r]) && Complete(targets, ws, scope, rows + [r], remaining - {r.key})
  {
    forall k | P.Home(targets, k) == scope && Newest(ws, k).Some? ensures k in remaining - {r.key} || Names(rows + [r], k) {
      if k == r.key {
        assert r in rows + [r];
      } else if Names(rows, k) {
        var q :| q in rows && q.key == k;
        assert q in rows + [r];
      }
    }
  }

  lemma PutPartStays(owned: set<string>, ws: seq<Write>, w: P.World, size: nat)
    requires AllValid(ws) && WorldExact(owned, ws, w) && P.Enabled(w, P.PutPart(size))
    ensures Stays(owned, ws, w, P.After(w, P.PutPart(size)))
  {
    var c, w' := w.checkpoint.value, P.After(w, P.PutPart(size));
    var scope, n, b := c.work.scope, c.work.count, c.work.buffer;
    P.ListedSame(w.storage.parts, w'.storage.parts, scope, c.id, n);
    assert P.Written(w'.storage.parts, c.id, w'.checkpoint.value.work) == P.Written(w.storage.parts, c.id, c.work) by {
      assert b == b[..size] + b[size..];
      assert P.Listed(w'.storage.parts, scope, c.id, n + 1) == P.Listed(w.storage.parts, scope, c.id, n) + b[..size];
    }
    assert P.Present(w'.storage.parts, scope, c.id, n + 1);
    hide RowExact, RowsExact, Complete, RowsRight, P.Listed, P.Snapshot;
    forall other | other in w'.storage.latest && other.shard in w.shards ensures SnapshotExact(w.shards, ws, w'.storage, other) {
      assert SnapshotExact(w.shards, ws, w.storage, other);
      SnapshotStays(w.shards, ws, w.storage, w'.storage, other);
    }
  }

  lemma PutManifestStays(owned: set<string>, ws: seq<Write>, w: P.World)
    requires AllValid(ws) && WorldExact(owned, ws, w) && P.Enabled(w, P.PutManifest)
    ensures Stays(owned, ws, w, P.After(w, P.PutManifest))
  {
    var c, w' := w.checkpoint.value, P.After(w, P.PutManifest);
    var rows := P.Listed(w.storage.parts, c.work.scope, c.id, c.work.count);
    assert rows + [] == rows;
    assert P.Snapshot(w'.storage, c.work.scope) == rows == P.Written(w.storage.parts, c.id, c.work);
    hide RowExact, RowsExact, Complete, RowsRight, P.Listed, P.Snapshot;
    forall other | other in w'.storage.latest && other.shard in w.shards ensures SnapshotExact(w.shards, ws, w'.storage, other) {
      if other != c.work.scope {
        assert SnapshotExact(w.shards, ws, w.storage, other);
        SnapshotStays(w.shards, ws, w.storage, w'.storage, other);
      }
    }
  }

  lemma DeletePartsStays(owned: set<string>, ws: seq<Write>, w: P.World, ids: set<nat>)
    requires AllValid(ws) && WorldExact(owned, ws, w) && P.Enabled(w, P.DeleteParts(ids))
    ensures Stays(owned, ws, w, P.After(w, P.DeleteParts(ids)))
  {
    var w' := P.After(w, P.DeleteParts(ids));
    hide RowExact, RowsExact, Complete, RowsRight, P.Listed, P.Snapshot;
    forall other | other in w'.storage.latest && other.shard in w.shards ensures SnapshotExact(w.shards, ws, w'.storage, other) {
      assert SnapshotExact(w.shards, ws, w.storage, other);
      SnapshotStays(w.shards, ws, w.storage, w'.storage, other);
    }
  }

  lemma DeleteSegmentsStays(owned: set<string>, ws: seq<Write>, w: P.World, dead: set<nat>)
    requires AllValid(ws) && WorldExact(owned, ws, w) && P.Enabled(w, P.DeleteSegments(dead))
    ensures Stays(owned, ws, w, P.After(w, P.DeleteSegments(dead)))
  {
    var w' := P.After(w, P.DeleteSegments(dead));
    hide RowExact, RowsExact, Complete, RowsRight, P.Listed, P.Snapshot;
    forall other | other in w'.storage.latest && other.shard in w.shards ensures SnapshotExact(w.shards, ws, w'.storage, other) {
      assert SnapshotExact(w.shards, ws, w.storage, other);
      SnapshotStays(w.shards, ws, w.storage, w'.storage, other);
    }
  }

  lemma WorkStepStays(owned: set<string>, ws: seq<Write>, w: P.World, s: P.Step)
    requires AllValid(ws) && WorldExact(owned, ws, w) && P.Enabled(w, s) && Checkpointing(s)
    requires s.BeginScope? ==> s.scope.shard in owned
    ensures Stays(owned, ws, w, P.After(w, s))
  {
    match s
    case BeginCheckpoint(_) =>
    case BeginScope(scope) => BeginScopeStays(owned, ws, w, scope);
    case ReadRow(k) => ReadRowStays(owned, ws, w, k);
    case PutPart(size) => PutPartStays(owned, ws, w, size);
    case PutManifest => PutManifestStays(owned, ws, w);
    case DeleteSegments(dead) => DeleteSegmentsStays(owned, ws, w, dead);
    case DeleteParts(ids) => DeletePartsStays(owned, ws, w, ids);
    case EndScope =>
    case StopCheckpoint =>
  }

  // Whole runs.

  lemma NodeWorld(plan: Plan, ws: seq<Write>, cl: Cluster, n: string)
    requires Inv(plan, ws, cl) && n in cl.nodes
    ensures n in plan.owned && WorldExact(plan.owned[n], ws, WorldOf(plan, cl, n)) && Contained(WorldOf(plan, cl, n), plan.sources)
  {
    assert NodeExact(plan, ws, cl, n);
    RebuiltRight(plan, n, ws);
  }

  lemma SourceStays(plan: Plan, ws: seq<Write>, cl: Cluster, n: string, s: P.Step)
    requires Inv(plan, ws, cl) && Enabled(plan, cl, Work(n, s))
    ensures var st := After(plan, cl, Work(n, s)).storage;
            ListsSource(st, plan.sources, plan.scopes, plan.keys) && SourceWrites(plan, st) == ws
  {
    var w := WorldOf(plan, cl, n);
    NodeWorld(plan, ws, cl, n);
    StepKeepsSource(w, s, plan.sources);
    SameSnapshotWrites(w.storage, P.After(w, s).storage, plan.sources, plan.scopes);
    SameJournalWrites(w.storage, P.After(w, s).storage, plan.sources, plan.keys);
  }

  lemma {:induction false} OthersStay(plan: Plan, ws: seq<Write>, cl: Cluster, n: string, s: P.Step)
    requires Inv(plan, ws, cl) && Enabled(plan, cl, Work(n, s)) && Stays(plan.owned[n], ws, WorldOf(plan, cl, n), P.After(WorldOf(plan, cl, n), s))
    ensures NodesExact(plan, ws, After(plan, cl, Work(n, s)))
  {
    var cl', w' := After(plan, cl, Work(n, s)), P.After(WorldOf(plan, cl, n), s);
    assert WorldExact(plan.owned[n], ws, w') && w'.mem == WorldOf(plan, cl, n).mem && SameOutside(cl.storage, cl'.storage, plan.owned[n]);
    assert w'.shards == plan.targets && cl'.storage == w'.storage && cl'.nodes == cl.nodes[n := Node(w'.mem.rows, w'.checkpoint)];
    hide WorkExact, SameOutside, RowsRight, SnapshotsExact, Rebuilt, Stays, P.After, P.Enabled, ListsSource, SourceWrites;
    forall m | m in cl'.nodes ensures NodeExact(plan, ws, cl', m) {
      assert NodeExact(plan, ws, cl, m) && NodeExact(plan, ws, cl, n);
      if m == n {
        OwnStays(plan, ws, cl, cl', n, w');
      } else {
        OtherStays(plan, ws, cl, cl', m, plan.owned[n]);
      }
    }
  }

  lemma OwnStays(plan: Plan, ws: seq<Write>, cl: Cluster, cl': Cluster, n: string, w': P.World)
    requires AllValid(ws) && n in cl.nodes && NodeExact(plan, ws, cl, n) && n in cl'.nodes
    requires WorldExact(plan.owned[n], ws, w') && w'.mem.rows == cl.nodes[n].rows && w'.shards == plan.targets
    requires cl'.nodes[n] == Node(w'.mem.rows, w'.checkpoint) && cl'.storage == w'.storage
    ensures NodeExact(plan, ws, cl', n)
  {
    hide WorkExact, Rebuilt;
  }

  lemma OtherStays(plan: Plan, ws: seq<Write>, cl: Cluster, cl': Cluster, m: string, shards: set<string>)
    requires AllValid(ws) && m in cl.nodes && m in cl'.nodes && cl'.nodes[m] == cl.nodes[m] && NodeExact(plan, ws, cl, m)
    requires plan.owned[m] !! shards && SameOutside(cl.storage, cl'.storage, shards)
    ensures NodeExact(plan, ws, cl', m)
  {
    hide WorkExact, SameOutside, Rebuilt;
    if cl.nodes[m].checkpoint.Some? {
      WorkStays(plan.targets, plan.owned[m], ws, cl.storage, cl'.storage, cl.nodes[m].checkpoint.value, shards);
    }
  }

  /** Every step keeps the source and everything published. */
  lemma StepSound(plan: Plan, ws: seq<Write>, cl: Cluster, step: Step)
    requires Inv(plan, ws, cl) && Enabled(plan, cl, step)
    ensures Inv(plan, ws, After(plan, cl, step))
  {
    match step
    case Start(n) =>
      var cl' := After(plan, cl, step);
      forall m | m in cl'.nodes ensures NodeExact(plan, ws, cl', m) {
        assert m != n ==> NodeExact(plan, ws, cl, m);
      }
    case Work(n, s) =>
      NodeWorld(plan, ws, cl, n);
      WorkStepStays(plan.owned[n], ws, WorldOf(plan, cl, n), s);
      SourceStays(plan, ws, cl, n, s);
      OthersStay(plan, ws, cl, n, s);
  }

  /** Before the resharding nothing is stored under the target shards. */
  ghost predicate Initial(plan: Plan, cl: Cluster) {
    && PlanOk(plan) && cl.nodes == map[]
    && ListsSource(cl.storage, plan.sources, plan.scopes, plan.keys) && AllValid(SourceWrites(plan, cl.storage))
    && (forall scope | scope in cl.storage.latest :: scope.shard !in plan.targets)
    && (forall j | j in cl.storage.journal :: cl.storage.journal[j].scope.shard !in plan.targets)
  }

  ghost predicate Next(plan: Plan, cl: Cluster, cl': Cluster) {
    exists step :: Enabled(plan, cl, step) && cl' == After(plan, cl, step)
  }

  ghost predicate IsRun(plan: Plan, run: seq<Cluster>) {
    run != [] && Initial(plan, run[0]) && forall i {:trigger run[i + 1]} | 0 <= i < |run| - 1 :: Next(plan, run[i], run[i + 1])
  }

  lemma NextSound(plan: Plan, ws: seq<Write>, cl: Cluster, cl': Cluster)
    requires Inv(plan, ws, cl) && Next(plan, cl, cl')
    ensures Inv(plan, ws, cl')
  {
    var step :| Enabled(plan, cl, step) && cl' == After(plan, cl, step);
    StepSound(plan, ws, cl, step);
  }

  lemma {:induction false} RunsAreSound(plan: Plan, run: seq<Cluster>)
    requires IsRun(plan, run)
    ensures Inv(plan, SourceWrites(plan, run[0].storage), run[|run| - 1])
  {
    hide Inv, Next;
    if |run| == 1 {
      InitialSound(plan, run[0]);
    } else {
      var front, i := run[..|run| - 1], |run| - 2;
      RunsAreSound(plan, front);
      assert Next(plan, run[i], run[i + 1]);
      NextSound(plan, SourceWrites(plan, run[0].storage), run[i], run[i + 1]);
    }
  }

  lemma InitialSound(plan: Plan, cl: Cluster)
    requires Initial(plan, cl)
    ensures Inv(plan, SourceWrites(plan, cl.storage), cl)
  {
  }

  // The end.

  /** The manifests that storage holds of a topology's target scopes. */
  ghost predicate ManifestsOf(st: P.Storage, targets: set<string>, topologyId: string, found: map<Scope, TargetManifest>) {
    forall scope: Scope | scope.shard in targets && Completed(found, topologyId, scope) :: scope in st.latest
  }

  /** The restored rows of the listed target scopes are source rows. */
  lemma RestoredExact(plan: Plan, ws: seq<Write>, st: P.Storage, scopes: seq<Scope>, wr: Write)
    requires AllValid(ws) && SnapshotsExact(plan.targets, ws, st)
    requires (forall scope | scope in scopes :: scope.shard in plan.targets) && wr in P.SnapshotWrites(st, scopes)
    ensures wr.Restored? && ValidWrite(wr) && Newest(ws, wr.Target()) == Some(EventOf(wr))
  {
    P.SnapshotWritesMembers(st, scopes);
    var scope :| scope in scopes && P.Stored(wr.key, wr.row) in P.Snapshot(st, scope);
    assert SnapshotExact(plan.targets, ws, st, scope);
    assert RowExact(plan.targets, ws, scope, P.Stored(wr.key, wr.row));
  }

  lemma RestoredNewest(plan: Plan, ws: seq<Write>, st: P.Storage, scopes: seq<Scope>, k: Key)
    requires AllValid(ws) && SnapshotsExact(plan.targets, ws, st)
    requires forall scope | scope in scopes :: scope.shard in plan.targets
    ensures AllValid(P.SnapshotWrites(st, scopes))
    ensures Newest(P.SnapshotWrites(st, scopes), k).Some? ==> Newest(P.SnapshotWrites(st, scopes), k) == Newest(ws, k)
    ensures P.Home(plan.targets, k) in scopes && P.Home(plan.targets, k) in st.latest && P.Home(plan.targets, k).shard in plan.targets ==>
              Newest(P.SnapshotWrites(st, scopes), k) == Newest(ws, k)
  {
    var out, home := P.SnapshotWrites(st, scopes), P.Home(plan.targets, k);
    forall wr | wr in out ensures ValidWrite(wr) && Newest(ws, wr.Target()) == Some(EventOf(wr)) {
      RestoredExact(plan, ws, st, scopes, wr);
    }
    NewestIsGreatest(out, k);
    if home in scopes && home in st.latest && home.shard in plan.targets && Newest(ws, k).Some? {
      assert SnapshotExact(plan.targets, ws, st, home);
      assert Names(P.Snapshot(st, home), k);
      var r :| r in P.Snapshot(st, home) && r.key == k;
      P.SnapshotWritesMembers(st, scopes);
      assert P.Stored(r.key, r.row) == r;
      assert Restored(k, r.row) in out && Restored(k, r.row).Target() == k;
    }
  }

  lemma {:induction false} NoJournal(st: P.Storage, keys: seq<nat>)
    requires forall j | j in keys :: j !in st.journal
    ensures P.JournalWrites(st, keys) == []
  {
    if keys != [] {
      NoJournal(st, keys[..|keys| - 1]);
    }
  }

  /**
   * Once every expected manifest is there, at whatever point of whatever run of the target nodes,
   * restoring the target scopes gives the rows that restoring the source scopes gave before the
   * resharding: the newest event, tombstones included, of every object of the expected collections,
   * and no other event of any object.
   */
  lemma ReshardConserves(plan: Plan, run: seq<Cluster>, topologyId: string, found: map<Scope, TargetManifest>,
                         collections: seq<(string, string)>, shards: seq<string>, scopes: seq<Scope>, keys: seq<nat>, k: Key)
    requires IsRun(plan, run)
    requires forall shard :: shard in shards <==> shard in plan.targets
    requires ManifestsOf(run[|run| - 1].storage, plan.targets, topologyId, found)
    requires forall scope | Wants(collections, shards, scope) :: Completed(found, topologyId, scope)
    requires (forall scope | Wants(collections, shards, scope) :: scope in scopes) && forall scope | scope in scopes :: scope.shard in plan.targets
    requires forall j | j in keys && j in run[|run| - 1].storage.journal :: run[|run| - 1].storage.journal[j].scope.shard in plan.targets
    ensures var source := WinnerAt(ApplyWrites(map[], SourceWrites(plan, run[0].storage)), k);
            var target := WinnerAt(ApplyWrites(map[], P.RestoreWrites(run[|run| - 1].storage, scopes, keys)), k);
            && ((k.db, k.coll) in collections ==> target == source)
            && (target.Some? ==> target == source)
  {
    var ws, st := SourceWrites(plan, run[0].storage), run[|run| - 1].storage;
    RunsAreSound(plan, run);
    ApplyWritesMeans(ws);
    RestoredNewest(plan, ws, st, scopes, k);
    var out := P.SnapshotWrites(st, scopes);
    NoJournal(st, keys);
    assert P.RestoreWrites(st, scopes, keys) == out + [] == out;
    ApplyWritesMeans(out);
    ShardForObjectInRange(plan.targets, k.id);
    if (k.db, k.coll) in collections {
      var home := P.Home(plan.targets, k);
      assert Wants(collections, shards, home);
      assert Completed(found, topologyId, home);
    }
  }
}
