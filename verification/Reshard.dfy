/**
 * Changing the shard set (src/persistence.js, the restore filters and reshardReadiness): target
 * nodes rebuild their shards from the source scopes, each keeping what now routes to it.
 */
module Resharding {
  import opened Wrappers
  import opened Clocks
  import opened Rows
  import opened OpLogs
  import opened ShardMaps
  import P = Persistence

  ghost function Route(targets: set<string>, w: Write): string {
    ShardForObject(targets, w.Target().id)
  }

  /** A restored row or op carries the shard it routes to under the target shard set. */
  ghost function Rerouted(targets: set<string>, w: Write): Write {
    match w
    case Applied(op) => Applied(op.(shard := Route(targets, w)))
    case Restored(k, row) => Restored(k, row.(shard := Route(targets, w)))
  }

  /** What a node that owns the shards `mine` restores of the source writes. */
  ghost function KeptFor(targets: set<string>, mine: set<string>, ws: seq<Write>): seq<Write> {
    if ws == [] then []
    else
      var rest, w := KeptFor(targets, mine, ws[..|ws| - 1]), ws[|ws| - 1];
      if Route(targets, w) in mine then rest + [Rerouted(targets, w)] else rest
  }

  ghost predicate AllValid(ws: seq<Write>) {
    forall w | w in ws :: ValidWrite(w)
  }

  lemma {:induction false} KeptForMembers(targets: set<string>, mine: set<string>, ws: seq<Write>)
    ensures AllValid(ws) ==> AllValid(KeptFor(targets, mine, ws))
    ensures forall v | v in KeptFor(targets, mine, ws) :: exists w :: w in ws && Route(targets, w) in mine && v == Rerouted(targets, w)
    ensures forall w | w in ws && Route(targets, w) in mine :: Rerouted(targets, w) in KeptFor(targets, mine, ws)
  {
    if ws != [] {
      var front, last := ws[..|ws| - 1], ws[|ws| - 1];
      assert ws == front + [last];
      KeptForMembers(targets, mine, front);
      forall v | v in KeptFor(targets, mine, ws)
        ensures exists w :: w in ws && Route(targets, w) in mine && v == Rerouted(targets, w)
      {
        if v in KeptFor(targets, mine, front) {
          var w :| w in front && Route(targets, w) in mine && v == Rerouted(targets, w);
          assert w in ws;
        } else {
          assert last in ws && v == Rerouted(targets, last);
        }
      }
    }
  }

  lemma KeptValid(targets: set<string>, mine: set<string>, ws: seq<Write>)
    requires AllValid(ws)
    ensures AllValid(KeptFor(targets, mine, ws))
  {
    KeptForMembers(targets, mine, ws);
  }

  lemma NewestAppend(ws: seq<Write>, w: Write, k: Key)
    requires AllValid(ws) && ValidWrite(w)
    ensures AllValid(ws + [w])
    ensures Newest(ws + [w], k) == if w.Target() == k then Absorb(Newest(ws, k), EventOf(w)) else Newest(ws, k)
  {
    assert (ws + [w])[..|ws|] == ws;
  }

  lemma {:induction false} NewestKept(targets: set<string>, mine: set<string>, ws: seq<Write>, k: Key)
    requires AllValid(ws)
    ensures AllValid(KeptFor(targets, mine, ws))
    ensures Newest(KeptFor(targets, mine, ws), k) ==
            if ShardForObject(targets, k.id) in mine then Newest(ws, k) else None
  {
    KeptValid(targets, mine, ws);
    hide ShardForObject, ValidWrite;
    if ws != [] {
      var front, last := ws[..|ws| - 1], ws[|ws| - 1];
      NewestKept(targets, mine, front, k);
      if Route(targets, last) in mine {
        NewestAppend(KeptFor(targets, mine, front), Rerouted(targets, last), k);
      }
    }
  }

  /**
   * Conservation: under any ownership, a node ends with exactly the source's newest event, tombstones
   * included, for the objects routed to it, and with nothing for any other object.
   */
  lemma RowsConserved(targets: set<string>, mine: set<string>, ws: seq<Write>)
    requires AllValid(ws)
    ensures forall k :: WinnerAt(ApplyWrites(map[], KeptFor(targets, mine, ws)), k) ==
                        if ShardForObject(targets, k.id) in mine then WinnerAt(ApplyWrites(map[], ws), k) else None
  {
    KeptForMembers(targets, mine, ws);
    ApplyWritesMeans(ws);
    ApplyWritesMeans(KeptFor(targets, mine, ws));
    forall k {
      NewestKept(targets, mine, ws, k);
    }
  }

  /** Every source write is kept under one target shard and no other. */
  lemma ExactlyOneTarget(targets: set<string>, ws: seq<Write>, w: Write)
    requires targets != {} && w in ws
    ensures Route(targets, w) in targets
    ensures Rerouted(targets, w) in KeptFor(targets, {Route(targets, w)}, ws)
    ensures forall t, v | t != Route(targets, w) && v in KeptFor(targets, {t}, ws) :: v.Target() != w.Target()
  {
    ShardForObjectInRange(targets, w.Target().id);
    KeptForMembers(targets, {Route(targets, w)}, ws);
    forall t, v | t != Route(targets, w) && v in KeptFor(targets, {t}, ws) ensures v.Target() != w.Target() {
      KeptForMembers(targets, {t}, ws);
      var u :| u in ws && Route(targets, u) in {t} && v == Rerouted(targets, u);
    }
  }

  /** Splitting the targets among nodes splits the writes: the parts add up. */
  lemma {:induction false} KeptCounts(targets: set<string>, a: set<string>, b: set<string>, ws: seq<Write>)
    requires a !! b && targets != {}
    ensures |KeptFor(targets, a + b, ws)| == |KeptFor(targets, a, ws)| + |KeptFor(targets, b, ws)|
    ensures a + b == targets ==> |KeptFor(targets, a, ws)| + |KeptFor(targets, b, ws)| == |ws|
  {
    if ws != [] {
      KeptCounts(targets, a, b, ws[..|ws| - 1]);
      ShardForObjectInRange(targets, ws[|ws| - 1].Target().id);
    }
  }

  function ShardOf(w: Write): string {
    match w
    case Applied(op) => op.shard
    case Restored(_, row) => row.shard
  }

  ghost predicate Labelled(targets: set<string>, ws: seq<Write>) {
    forall w | w in ws :: ValidWrite(w) && ShardOf(w) == Route(targets, w)
  }

  lemma {:induction false} LabelledRows(targets: set<string>, ws: seq<Write>, k: Key)
    requires Labelled(targets, ws) && "" !in targets && targets != {}
    requires k in ApplyWrites(map[], ws)
    ensures ApplyWrites(map[], ws)[k].shard == ShardForObject(targets, k.id)
  {
    if ws != [] {
      var front, last := ws[..|ws| - 1], ws[|ws| - 1];
      var before := ApplyWrites(map[], front);
      if k in before {
        LabelledRows(targets, front, k);
      }
      if last.Target() == k {
        ShardForObjectInRange(targets, k.id);
        RowShard(RowAt(before, k), last, ShardForObject(targets, k.id));
      }
    }
  }

  /** Restored rows are stamped with the target shard they belong to. */
  lemma RowsRelabelled(targets: set<string>, mine: set<string>, ws: seq<Write>, k: Key)
    requires AllValid(ws) && "" !in targets && targets != {}
    requires k in ApplyWrites(map[], KeptFor(targets, mine, ws))
    ensures ApplyWrites(map[], KeptFor(targets, mine, ws))[k].shard == ShardForObject(targets, k.id)
  {
    KeptForMembers(targets, mine, ws);
    LabelledRows(targets, KeptFor(targets, mine, ws), k);
  }

  lemma RowShard(m: Row, w: Write, shard: string)
    requires ValidWrite(w) && shard != "" && (m.shard == shard || m == FRESH)
    requires ShardOf(w) == shard
    ensures StepRow(m, w).0.shard == shard
  {
  }

  // The source scopes are never written by target nodes.

  ghost predicate SameSource(a: P.Storage, b: P.Storage, sources: set<string>) {
    && (forall scope: Scope | scope.shard in sources ::
          && (scope in a.latest <==> scope in b.latest)
          && (scope in a.latest ==> a.latest[scope] == b.latest[scope]))
    && (forall p: P.Part | p.scope.shard in sources ::
          && (p in a.parts <==> p in b.parts)
          && (p in a.parts ==> a.parts[p] == b.parts[p]))
    && (forall j: nat :: (j in a.journal && a.journal[j].scope.shard in sources) <==> (j in b.journal && b.journal[j].scope.shard in sources))
    && (forall j: nat | j in a.journal && a.journal[j].scope.shard in sources :: j in b.journal && a.journal[j] == b.journal[j])
  }

  /** A listing of source scopes and of journal segments under them. */
  ghost predicate ListsSource(st: P.Storage, sources: set<string>, scopes: seq<Scope>, keys: seq<nat>) {
    && (forall scope | scope in scopes :: scope.shard in sources)
    && (forall j | j in keys :: j in st.journal && st.journal[j].scope.shard in sources)
  }

  lemma {:induction false} SameSnapshotWrites(a: P.Storage, b: P.Storage, sources: set<string>, scopes: seq<Scope>)
    requires SameSource(a, b, sources) && forall scope | scope in scopes :: scope.shard in sources
    ensures P.SnapshotWrites(a, scopes) == P.SnapshotWrites(b, scopes)
  {
    if scopes != [] {
      var last := scopes[|scopes| - 1];
      assert last in scopes;
      SameSnapshotWrites(a, b, sources, scopes[..|scopes| - 1]);
      if last in a.latest {
        P.ListedSame(a.parts, b.parts, last, a.latest[last].id, a.latest[last].count);
      }
    }
  }

  lemma {:induction false} SameJournalWrites(a: P.Storage, b: P.Storage, sources: set<string>, keys: seq<nat>)
    requires SameSource(a, b, sources) && forall j | j in keys :: j in a.journal && a.journal[j].scope.shard in sources
    ensures P.JournalWrites(a, keys) == P.JournalWrites(b, keys)
  {
    if keys != [] {
      assert keys[|keys| - 1] in keys;
      SameJournalWrites(a, b, sources, keys[..|keys| - 1]);
    }
  }

  /** A target node's world: everything it has queued or is checkpointing lies outside the source. */
  ghost predicate Contained(w: P.World, sources: set<string>) {
    && w.shards != {} && w.shards !! sources
    && (forall scope | scope in w.queue.pending :: scope.shard !in sources)
    && (w.queue.flush.Some? ==>
          && (forall scope | scope in w.queue.flush.value.batches :: scope.shard !in sources)
          && (forall g | g in w.queue.flush.value.todo :: g.scope.shard !in sources))
    && (w.checkpoint.Some? && !w.checkpoint.value.work.Between? ==> w.checkpoint.value.work.scope.shard !in sources)
  }

  /** A target node checkpoints only the scopes of its own shards. */
  ghost predicate TargetStep(w: P.World, step: P.Step) {
    P.Enabled(w, step) && (step.BeginScope? ==> step.scope.shard in w.shards)
  }

  lemma AcceptContained(w: P.World, step: P.Step, sources: set<string>)
    requires Contained(w, sources) && TargetStep(w, step) && step.Accept?
    ensures Contained(P.After(w, step), sources)
  {
    ShardForObjectInRange(w.shards, step.request.key.id);
  }

  lemma FlushContained(w: P.World, step: P.Step, sources: set<string>)
    requires Contained(w, sources) && TargetStep(w, step) && step.BeginFlush?
    ensures Contained(P.After(w, step), sources)
  {
    forall g | g in step.segments ensures g.scope.shard !in sources {
      assert g.ops[0] in P.Held(w.queue.pending, g.scope);
    }
  }

  lemma OtherContained(w: P.World, step: P.Step, sources: set<string>)
    requires Contained(w, sources) && TargetStep(w, step) && !step.Accept? && !step.BeginFlush?
    ensures Contained(P.After(w, step), sources)
  {
  }

  lemma StepKeepsSource(w: P.World, step: P.Step, sources: set<string>)
    requires Contained(w, sources) && TargetStep(w, step)
    ensures Contained(P.After(w, step), sources) && SameSource(w.storage, P.After(w, step).storage, sources)
  {
    if step.Accept? {
      AcceptContained(w, step, sources);
    } else if step.BeginFlush? {
      FlushContained(w, step, sources);
    } else {
      OtherContained(w, step, sources);
      StorageKept(w, step, sources);
    }
  }

  lemma {:induction false} StorageKept(w: P.World, step: P.Step, sources: set<string>)
    requires Contained(w, sources) && TargetStep(w, step)
    ensures SameSource(w.storage, P.After(w, step).storage, sources)
  {
    if step.PutSegment? {
      assert w.queue.flush.value.todo[0] in w.queue.flush.value.todo;
    } else if step.DeleteSegments? || step.DeleteParts? {
      DeletesKeepSource(w, step, sources);
    } else {
      assert P.After(w, step).storage.journal == w.storage.journal;
    }
  }

  lemma {:induction false} DeletesKeepSource(w: P.World, step: P.Step, sources: set<string>)
    requires Contained(w, sources) && TargetStep(w, step) && (step.DeleteSegments? || step.DeleteParts?)
    ensures SameSource(w.storage, P.After(w, step).storage, sources)
  {
  }

  ghost predicate TargetNext(w: P.World, w': P.World) {
    exists step :: TargetStep(w, step) && w' == P.After(w, step)
  }

  ghost predicate TargetRun(run: seq<P.World>, sources: set<string>) {
    && run != [] && Contained(run[0], sources)
    && forall i {:trigger run[i + 1]} | 0 <= i < |run| - 1 :: TargetNext(run[i], run[i + 1])
  }

  lemma NextKeepsSource(w: P.World, w': P.World, sources: set<string>)
    requires Contained(w, sources) && TargetNext(w, w')
    ensures Contained(w', sources) && SameSource(w.storage, w'.storage, sources)
  {
    var step :| TargetStep(w, step) && w' == P.After(w, step);
    StepKeepsSource(w, step, sources);
  }

  lemma {:induction false} RunKeepsSource(run: seq<P.World>, sources: set<string>)
    requires TargetRun(run, sources)
    ensures Contained(run[|run| - 1], sources) && SameSource(run[0].storage, run[|run| - 1].storage, sources)
  {
    hide TargetNext, Contained;
    if |run| == 1 {
      SameSourceReflexive(run[0].storage, sources);
    } else {
      hide SameSource;
      var front, i := run[..|run| - 1], |run| - 2;
      RunKeepsSource(front, sources);
      assert TargetNext(run[i], run[i + 1]);
      NextKeepsSource(run[i], run[i + 1], sources);
      SameSourceTransitive(run[0].storage, run[i].storage, run[i + 1].storage, sources);
    }
  }

  lemma SameSourceReflexive(a: P.Storage, sources: set<string>)
    ensures SameSource(a, a, sources)
  {
  }

  lemma SameSourceTransitive(a: P.Storage, b: P.Storage, c: P.Storage, sources: set<string>)
    requires SameSource(a, b, sources) && SameSource(b, c, sources)
    ensures SameSource(a, c, sources)
  {
  }

  /**
   * Resharding can be repeated: whatever target nodes write, checkpoint, compact or lose in crashes,
   * restoring from the source scopes again yields the same writes, hence the same target rows.
   */
  lemma ReshardIsRepeatable(run: seq<P.World>, sources: set<string>, scopes: seq<Scope>, keys: seq<nat>)
    requires TargetRun(run, sources) && ListsSource(run[0].storage, sources, scopes, keys)
    ensures ListsSource(run[|run| - 1].storage, sources, scopes, keys)
    ensures P.RestoreWrites(run[|run| - 1].storage, scopes, keys) == P.RestoreWrites(run[0].storage, scopes, keys)
  {
    RunKeepsSource(run, sources);
    SameSnapshotWrites(run[0].storage, run[|run| - 1].storage, sources, scopes);
    SameJournalWrites(run[0].storage, run[|run| - 1].storage, sources, keys);
  }

  // Readiness.

  datatype TargetManifest = TargetManifest(topologyId: string, db: string, coll: string, shard: string)

  predicate Completed(found: map<Scope, TargetManifest>, topologyId: string, scope: Scope) {
    scope in found && found[scope] == TargetManifest(topologyId, scope.db, scope.coll, scope.shard)
  }

  function Expected(collections: seq<(string, string)>, shards: seq<string>): seq<Scope> {
    if collections == [] then []
    else Expected(collections[..|collections| - 1], shards) + ScopesOf(collections[|collections| - 1], shards)
  }

  function ScopesOf(collection: (string, string), shards: seq<string>): seq<Scope> {
    if shards == [] then []
    else ScopesOf(collection, shards[..|shards| - 1]) + [Scope(collection.0, collection.1, shards[|shards| - 1])]
  }

  lemma {:induction false} ScopesOfMembers(collection: (string, string), shards: seq<string>)
    ensures |ScopesOf(collection, shards)| == |shards|
    ensures forall scope :: scope in ScopesOf(collection, shards) <==> (scope.db, scope.coll) == collection && scope.shard in shards
  {
    if shards != [] {
      ScopesOfMembers(collection, shards[..|shards| - 1]);
      assert shards == shards[..|shards| - 1] + [shards[|shards| - 1]];
    }
  }

  predicate Wants(collections: seq<(string, string)>, shards: seq<string>, scope: Scope) {
    (scope.db, scope.coll) in collections && scope.shard in shards
  }

  lemma {:induction false} ExpectedMembers(collections: seq<(string, string)>, shards: seq<string>, scope: Scope)
    ensures scope in Expected(collections, shards) <==> Wants(collections, shards, scope)
  {
    if collections != [] {
      var front, last := collections[..|collections| - 1], collections[|collections| - 1];
      assert collections == front + [last];
      ExpectedMembers(front, shards, scope);
      ScopesOfMembers(last, shards);
    }
  }

  lemma OneMore(n: nat, m: nat)
    ensures (n + 1) * m == n * m + m
  {
  }

  lemma {:induction false} ExpectedCount(collections: seq<(string, string)>, shards: seq<string>)
    ensures |Expected(collections, shards)| == |collections| * |shards|
  {
    if collections != [] {
      ExpectedCount(collections[..|collections| - 1], shards);
      ScopesOfMembers(collections[|collections| - 1], shards);
      OneMore(|collections| - 1, |shards|);
    }
  }

  /**
   * Ready exactly when every source collection has, in every target shard, a manifest written under
   * this topology; the rest are listed as missing.
   */
  method ReshardReadiness(found: map<Scope, TargetManifest>, topologyId: string, collections: seq<(string, string)>, shards: seq<string>)
    returns (ready: bool, completed: nat, missing: seq<Scope>)
    ensures ready <==> forall scope | Wants(collections, shards, scope) :: Completed(found, topologyId, scope)
    ensures completed + |missing| == |collections| * |shards|
    ensures forall scope :: scope in missing <==>
              Wants(collections, shards, scope) && !Completed(found, topologyId, scope)
  {
    var expected: seq<Scope> := [];
    for i := 0 to |collections|
      invariant expected == Expected(collections[..i], shards)
    {
      assert collections[..i + 1][..i] == collections[..i];
      ghost var earlier := expected;
      for j := 0 to |shards|
        invariant expected == earlier + ScopesOf(collections[i], shards[..j])
      {
        assert shards[..j + 1][..j] == shards[..j];
        expected := expected + [Scope(collections[i].0, collections[i].1, shards[j])];
      }
      assert shards[..|shards|] == shards;
    }
    assert collections[..|collections|] == collections;
    ExpectedCount(collections, shards);
    forall scope ensures scope in expected <==> Wants(collections, shards, scope) {
      ExpectedMembers(collections, shards, scope);
    }
    completed, missing := 0, [];
    for i := 0 to |expected|
      invariant completed + |missing| == i
      invariant forall scope :: scope in missing <==> scope in expected[..i] && !Completed(found, topologyId, scope)
    {
      if Completed(found, topologyId, expected[i]) {
        completed := completed + 1;
      } else {
        missing := missing + [expected[i]];
      }
    }
    ready := missing == [];
    assert missing != [] ==> missing[0] in missing;
  }
}
