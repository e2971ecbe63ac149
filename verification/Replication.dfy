/**
 * The replication protocol (src/crdt.js) as a step machine over any number of nodes and an
 * asynchronous network that may delay, reorder, repeat and lose messages.
 *
 * `history` and `gone` are history variables: every op a node issued, and which of them its log no
 * longer holds.
 */
module Replication {
  import opened Wrappers
  import opened Clocks
  import opened Rows
  import opened OpLogs
  import opened ShardMaps

  datatype Cursor = Cursor(peer: NodeId, scope: Option<Scope>)

  datatype NodeState = NodeState(
    id: NodeId, clock: nat, log: Log, retainOps: nat,
    lastSeen: map<Cursor, nat>, acks: map<Cursor, nat>,
    rows: Db, dropped: set<(string, string)>)

  datatype Request = Request(kind: Kind, key: Key, shard: string, value: Value)

  // What one node does.

  function IssuedOp(n: NodeState, r: Request): Op {
    Op(r.kind, r.key, r.shard, r.value, Stamp(n.clock + 1, n.id), n.id, n.log.seqNo + 1)
  }

  function ApplyOne(rows: Db, dropped: set<(string, string)>, op: Op): Db {
    if Skipped(dropped, op) then rows else ApplyWrite(rows, Applied(op))
  }

  /** A local write: stamp, number, log and apply. */
  function CommitOne(n: NodeState, r: Request): NodeState {
    var op := IssuedOp(n, r);
    n.(clock := n.clock + 1, log := Append(n.log, op), rows := ApplyOne(n.rows, n.dropped, op))
  }

  function Commit(n: NodeState, rs: seq<Request>): NodeState {
    if rs == [] then n else CommitOne(Commit(n, rs[..|rs| - 1]), rs[|rs| - 1])
  }

  function ReceiveOne(n: NodeState, op: Op): NodeState {
    n.(clock := Max(n.clock, op.ts.c), rows := ApplyOne(n.rows, n.dropped, op))
  }

  function Receive(n: NodeState, ops: seq<Op>): NodeState {
    if ops == [] then n else ReceiveOne(Receive(n, ops[..|ops| - 1]), ops[|ops| - 1])
  }

  function CursorAt(n: NodeState, c: Cursor): nat {
    if c in n.lastSeen then n.lastSeen[c] else 0
  }

  function Advance(n: NodeState, c: Cursor, seen: nat): NodeState {
    n.(lastSeen := n.lastSeen[c := Max(CursorAt(n, c), seen)])
  }

  ghost function Lowest(values: set<nat>): (low: nat)
    requires values != {}
    ensures low in values && forall v | v in values :: low <= v
  {
    var v :| v in values;
    if values == {v} then v
    else
      assert values == {v} + (values - {v});
      Min(v, Lowest(values - {v}))
  }

  ghost function Watermark(acks: map<Cursor, nat>): Option<nat> {
    if acks == map[] then None
    else
      assert acks.Values != {} by { var c :| c in acks; assert acks[c] in acks.Values; }
      Some(Lowest(acks.Values))
  }

  ghost function PruneNode(n: NodeState): NodeState {
    n.(log := Prune(n.log, Watermark(n.acks), n.retainOps))
  }

  /** The least acknowledgement is one of them, so an op above any stays. */
  lemma PruneNodeExact(n: NodeState)
    requires AboveTrim(n.log)
    ensures forall op :: op in PruneNode(n).log.ops <==>
                         op in n.log.ops && (n.acks != map[] ==> exists c :: c in n.acks && op.seqNo + n.retainOps > n.acks[c])
    ensures PruneNode(n) == n.(log := PruneNode(n).log)
  {
    PruneExact(n.log, Watermark(n.acks), n.retainOps);
    if n.acks != map[] {
      var low := Watermark(n.acks).value;
      var least :| least in n.acks && n.acks[least] == low;
      forall op | op in n.log.ops ensures op.seqNo + n.retainOps > low <==> exists c :: c in n.acks && op.seqNo + n.retainOps > n.acks[c] {
        if c :| c in n.acks && op.seqNo + n.retainOps > n.acks[c] {
          assert n.acks[c] in n.acks.Values;
        }
      }
    }
  }

  ghost function ReceiveAck(n: NodeState, c: Cursor, after: nat): NodeState {
    PruneNode(n.(acks := n.acks[c := Min(after, n.log.seqNo)]))
  }

  function DropCollection(n: NodeState, db: string, coll: string): NodeState {
    n.(log := Discard(n.log, db, coll),
       rows := map k | k in n.rows && (k.db, k.coll) != (db, coll) :: n.rows[k],
       dropped := n.dropped + {(db, coll)})
  }

  // The system.

  datatype Message =
    | PullRequest(to: NodeId, from: NodeId, scope: Option<Scope>, after: nat)
    | PullReply(to: NodeId, from: NodeId, scope: Option<Scope>, after: nat, ops: seq<Op>, lastSeq: nat)
    | Ack(to: NodeId, from: NodeId, scope: Option<Scope>, seen: nat)

  datatype System = System(
    nodes: map<NodeId, NodeState>, network: set<Message>, shards: set<string>,
    history: map<NodeId, seq<Op>>, gone: map<NodeId, set<nat>>)

  datatype Step =
    | LocalWrites(node: NodeId, requests: seq<Request>)
    | AskPull(node: NodeId, peer: NodeId, scope: Option<Scope>)
    | ServePull(message: Message, limit: nat)
    | TakeReply(message: Message)
    | TakeAck(message: Message)
    | DropLocal(node: NodeId, db: string, coll: string)

  ghost predicate Initial(s: System) {
    && s.network == {}
    && s.history.Keys == s.gone.Keys == s.nodes.Keys
    && (forall n | n in s.nodes ::
          && s.nodes[n] == NodeState(n, 0, EMPTY_LOG, s.nodes[n].retainOps, map[], map[], map[], {})
          && s.history[n] == [] && s.gone[n] == {})
  }

  predicate Known(s: System, n: NodeId) {
    n in s.nodes && n in s.history && n in s.gone
  }

  predicate WellFormed(s: System) {
    && s.history.Keys == s.gone.Keys == s.nodes.Keys
    && forall m | m in s.network :: m.to in s.nodes && m.from in s.nodes
  }

  predicate Writable(n: NodeState, r: Request) {
    (r.key.db, r.key.coll) !in n.dropped
  }

  ghost predicate Enabled(s: System, step: Step) {
    match step
    case LocalWrites(n, rs) =>
      Known(s, n) && forall r | r in rs :: Writable(s.nodes[n], r) && r.shard == ShardForObject(s.shards, r.key.id)
    case AskPull(n, p, _) => Known(s, n) && Known(s, p)
    case ServePull(m, _) => m in s.network && m.PullRequest?
    case TakeReply(m) => m in s.network && m.PullReply? && m.to != m.from
    case TakeAck(m) => m in s.network && m.Ack?
    case DropLocal(n, _, _) => Known(s, n)
  }

  function WriteOne(s: System, n: NodeId, r: Request): System
    requires Known(s, n)
  {
    s.(nodes := s.nodes[n := CommitOne(s.nodes[n], r)],
       history := s.history[n := s.history[n] + [IssuedOp(s.nodes[n], r)]])
  }

  function WriteAll(s: System, n: NodeId, rs: seq<Request>): System
    requires Known(s, n)
    ensures Known(WriteAll(s, n, rs), n)
    ensures WriteAll(s, n, rs).nodes == s.nodes[n := Commit(s.nodes[n], rs)]
  {
    if rs == [] then s else WriteOne(WriteAll(s, n, rs[..|rs| - 1]), n, rs[|rs| - 1])
  }

  function Send(s: System, m: Message): System {
    s.(network := s.network + {m})
  }

  function Put(s: System, n: NodeId, state: NodeState): System {
    s.(nodes := s.nodes[n := state])
  }

  /** A source that no longer holds everything after the cursor answers without ops (status 410). */
  ghost function Serve(s: System, m: Message, limit: nat): System
    requires m.PullRequest? && Known(s, m.to)
  {
    var log := s.nodes[m.to].log;
    if NeedsSnapshot(log, m.after, m.scope) then s
    else Send(s, PullReply(m.from, m.to, m.scope, m.after, OpsAfter(log, m.after, limit, m.scope), log.seqNo))
  }

  function Take(s: System, m: Message): System
    requires m.PullReply? && Known(s, m.to)
  {
    var c := Cursor(m.from, m.scope);
    var seen := SeenAfter(m.after, m.ops, m.lastSeq);
    Send(Put(s, m.to, Advance(Receive(s.nodes[m.to], m.ops), c, seen)), Ack(m.from, m.to, m.scope, seen))
  }

  ghost function Acked(s: System, m: Message): System
    requires m.Ack? && Known(s, m.to)
  {
    var n := s.nodes[m.to];
    var n' := ReceiveAck(n, Cursor(m.from, m.scope), m.seen);
    s.(nodes := s.nodes[m.to := n'], gone := s.gone[m.to := s.gone[m.to] + UpTo(n'.log.trimmed)])
  }

  function Dropped(s: System, n: NodeId, db: string, coll: string): System
    requires Known(s, n)
  {
    s.(nodes := s.nodes[n := DropCollection(s.nodes[n], db, coll)],
       gone := s.gone[n := s.gone[n] + NumbersOf(s.nodes[n].log.ops, db, coll)])
  }

  ghost function After(s: System, step: Step): System
    requires WellFormed(s) && Enabled(s, step)
  {
    match step
    case LocalWrites(n, rs) => WriteAll(s, n, rs)
    case AskPull(n, p, scope) => Send(s, PullRequest(p, n, scope, CursorAt(s.nodes[n], Cursor(p, scope))))
    case ServePull(m, limit) => Serve(s, m, limit)
    case TakeReply(m) => Take(s, m)
    case TakeAck(m) => Acked(s, m)
    case DropLocal(n, db, coll) => Dropped(s, n, db, coll)
  }

  // The invariant.

  predicate Issued(s: System, op: Op) {
    op.from in s.history && 1 <= op.seqNo <= |s.history[op.from]| && s.history[op.from][op.seqNo - 1] == op
  }

  predicate Absorbed(n: NodeState, op: Op) {
    || Skipped(n.dropped, op)
    || (WinnerAt(n.rows, op.key).Some? && StampGeq(WinnerAt(n.rows, op.key).value.ts, op.ts))
  }

  /** An unscoped pull cannot see ops of collections the source has dropped. */
  predicate Reached(s: System, n: NodeId, c: Cursor, op: Op)
    requires n in s.nodes && c.peer in s.nodes
  {
    Absorbed(s.nodes[n], op) || (c.scope.None? && Skipped(s.nodes[c.peer].dropped, op))
  }

  /** Every op of the cursor's source and scope up to `upto` has been absorbed. */
  ghost predicate CursorSound(s: System, n: NodeId, c: Cursor, upto: nat) {
    && Known(s, n) && Known(s, c.peer)
    && upto <= |s.history[c.peer]|
    && forall op {:trigger Reached(s, n, c, op)} | op in s.history[c.peer] && op.seqNo <= upto && Matches(op, c.scope) ::
         Reached(s, n, c, op)
  }

  ghost predicate MessageSound(s: System, m: Message) {
    && Known(s, m.to) && Known(s, m.from)
    && match m
       case PullRequest(to, from, scope, after) => CursorSound(s, from, Cursor(to, scope), after)
       case PullReply(to, from, scope, after, ops, lastSeq) =>
         && SeenAfter(after, ops, lastSeq) <= |s.history[from]|
         && (forall op | op in ops :: op.from == from && Issued(s, op))
         && (forall op {:trigger Reached(s, to, Cursor(from, scope), op)}
               | op in s.history[from] && op.seqNo <= SeenAfter(after, ops, lastSeq) && Matches(op, scope) ::
               op in ops || Reached(s, to, Cursor(from, scope), op))
       case Ack(_, _, _, _) => true
  }

  ghost predicate HistorySound(s: System, n: NodeId)
    requires Known(s, n)
  {
    var h := s.history[n];
    && (forall i | 0 <= i < |h| ::
          && h[i].from == n && h[i].seqNo == i + 1
          && h[i].ts.n == n && h[i].ts.c <= s.nodes[n].clock
          && h[i].shard == ShardForObject(s.shards, h[i].key.id))
    && (forall i, j | 0 <= i < j < |h| :: h[i].ts.c < h[j].ts.c)
  }

  ghost predicate FromHistory(s: System, k: Key, e: Event) {
    exists op :: Issued(s, op) && op.key == k && OpEvent(op) == e
  }

  /** Rows hold only issued writes, none from the future of the node's clock. */
  ghost predicate RowSound(s: System, n: NodeId, k: Key)
    requires n in s.nodes && k in s.nodes[n].rows
  {
    var m := s.nodes[n].rows[k];
    && ValidRow(m)
    && Winner(m).Some?
    && Winner(m).value.ts.c <= s.nodes[n].clock
    && FromHistory(s, k, Winner(m).value)
  }

  ghost predicate LogSound(s: System, n: NodeId)
    requires Known(s, n)
  {
    && Represents(s.nodes[n].log, s.history[n], s.gone[n])
    && forall i | i in s.gone[n] && i > s.nodes[n].log.trimmed :: Skipped(s.nodes[n].dropped, s.history[n][i - 1])
  }

  ghost predicate NodeSound(s: System, n: NodeId) {
    && Known(s, n)
    && s.nodes[n].id == n
    && LogSound(s, n)
    && HistorySound(s, n)
    && (forall k {:trigger RowSound(s, n, k)} | k in s.nodes[n].rows :: RowSound(s, n, k))
    && (forall op {:trigger Absorbed(s.nodes[n], op)} | op in s.history[n] :: Absorbed(s.nodes[n], op))
    && (forall c {:trigger CursorSound(s, n, c, s.nodes[n].lastSeen[c])} | c in s.nodes[n].lastSeen ::
          CursorSound(s, n, c, s.nodes[n].lastSeen[c]))
  }

  ghost predicate Sound(s: System) {
    && WellFormed(s)
    && (forall n {:trigger NodeSound(s, n)} | n in s.nodes :: NodeSound(s, n))
    && (forall m {:trigger MessageSound(s, m)} | m in s.network :: MessageSound(s, m))
  }

  // Growth: what every step keeps.

  ghost predicate Grows(a: NodeState, b: NodeState) {
    a.dropped <= b.dropped && forall op :: Absorbed(a, op) ==> Absorbed(b, op)
  }

  ghost predicate Extends(s: System, t: System) {
    && t.shards == s.shards
    && t.nodes.Keys == s.nodes.Keys && t.history.Keys == s.history.Keys && t.gone.Keys == s.gone.Keys
    && (forall n {:trigger Grows(s.nodes[n], t.nodes[n])} | n in s.nodes :: Grows(s.nodes[n], t.nodes[n]))
    && (forall n | n in s.history :: s.history[n] <= t.history[n])
  }

  lemma ExtendsTransitive(s: System, t: System, u: System)
    requires Extends(s, t) && Extends(t, u)
    ensures Extends(s, u)
  {
    forall n | n in s.nodes ensures Grows(s.nodes[n], u.nodes[n]) {
      assert Grows(s.nodes[n], t.nodes[n]) && Grows(t.nodes[n], u.nodes[n]);
    }
  }

  lemma CursorSoundExtends(s: System, t: System, n: NodeId, c: Cursor, upto: nat)
    requires Extends(s, t) && CursorSound(s, n, c, upto)
    requires forall i | 0 <= i < |t.history[c.peer]| :: t.history[c.peer][i].seqNo == i + 1
    ensures CursorSound(t, n, c, upto)
  {
    forall op | op in t.history[c.peer] && op.seqNo <= upto && Matches(op, c.scope)
      ensures Reached(t, n, c, op)
    {
      assert op == s.history[c.peer][op.seqNo - 1];
      assert Reached(s, n, c, op);
      assert Grows(s.nodes[n], t.nodes[n]) && Grows(s.nodes[c.peer], t.nodes[c.peer]);
    }
  }

  lemma MessageSoundExtends(s: System, t: System, m: Message)
    requires Extends(s, t) && MessageSound(s, m)
    requires forall n | n in t.history :: forall i | 0 <= i < |t.history[n]| :: t.history[n][i].seqNo == i + 1
    ensures MessageSound(t, m)
  {
    match m
    case PullRequest(to, from, scope, after) =>
      CursorSoundExtends(s, t, from, Cursor(to, scope), after);
    case PullReply(to, from, scope, after, ops, lastSeq) =>
      forall op | op in t.history[from] && op.seqNo <= SeenAfter(after, ops, lastSeq) && Matches(op, scope) && op !in ops
        ensures Reached(t, to, Cursor(from, scope), op)
      {
        assert op == s.history[from][op.seqNo - 1];
        assert Reached(s, to, Cursor(from, scope), op);
        assert Grows(s.nodes[to], t.nodes[to]) && Grows(s.nodes[from], t.nodes[from]);
      }
    case Ack(_, _, _, _) =>
  }

  lemma FromHistoryExtends(s: System, t: System, k: Key, e: Event)
    requires Extends(s, t) && FromHistory(s, k, e)
    ensures FromHistory(t, k, e)
  {
    var op :| Issued(s, op) && op.key == k && OpEvent(op) == e;
    assert Issued(t, op);
  }

  /** A node untouched by a step stays sound when the rest of the system only grows. */
  lemma NodeSoundExtends(s: System, t: System, n: NodeId)
    requires Extends(s, t) && NodeSound(s, n)
    requires t.nodes[n] == s.nodes[n] && t.history[n] == s.history[n] && t.gone[n] == s.gone[n]
    requires forall p | p in t.history :: forall i | 0 <= i < |t.history[p]| :: t.history[p][i].seqNo == i + 1
    ensures NodeSound(t, n)
  {
    forall k | k in t.nodes[n].rows ensures RowSound(t, n, k) {
      assert RowSound(s, n, k);
      FromHistoryExtends(s, t, k, Winner(s.nodes[n].rows[k]).value);
    }
    forall c | c in t.nodes[n].lastSeen ensures CursorSound(t, n, c, t.nodes[n].lastSeen[c]) {
      CursorSoundExtends(s, t, n, c, s.nodes[n].lastSeen[c]);
    }
  }

  /** The part of the argument shared by all steps that change one node. */
  lemma OneNodeStep(s: System, t: System, n: NodeId)
    requires Sound(s) && Extends(s, t) && WellFormed(t) && NodeSound(t, n)
    requires forall p | p in s.nodes && p != n :: t.nodes[p] == s.nodes[p] && t.history[p] == s.history[p] && t.gone[p] == s.gone[p]
    requires forall m | m in t.network :: m in s.network || MessageSound(t, m)
    ensures Sound(t)
  {
    forall p | p in t.history
      ensures forall i | 0 <= i < |t.history[p]| :: t.history[p][i].seqNo == i + 1
    {
      assert p in s.nodes;
      assert p != n ==> NodeSound(s, p) && HistorySound(s, p);
      assert p == n ==> HistorySound(t, p);
    }
    forall p | p in t.nodes ensures NodeSound(t, p) {
      if p != n {
        NodeSoundExtends(s, t, p);
      }
    }
    forall m | m in t.network ensures MessageSound(t, m) {
      if m in s.network {
        MessageSoundExtends(s, t, m);
      }
    }
  }

  // Rows under one applied op.

  lemma ApplyOneGrows(rows: Db, dropped: set<(string, string)>, op: Op)
    requires ValidDb(rows)
    ensures ValidDb(ApplyOne(rows, dropped, op))
    ensures forall k | WinnerAt(rows, k).Some? ::
              && WinnerAt(ApplyOne(rows, dropped, op), k).Some?
              && StampGeq(WinnerAt(ApplyOne(rows, dropped, op), k).value.ts, WinnerAt(rows, k).value.ts)
    ensures !Skipped(dropped, op) ==>
              && WinnerAt(ApplyOne(rows, dropped, op), op.key).Some?
              && StampGeq(WinnerAt(ApplyOne(rows, dropped, op), op.key).value.ts, op.ts)
    ensures forall k :: WinnerAt(ApplyOne(rows, dropped, op), k) == WinnerAt(rows, k)
                     || (k == op.key && WinnerAt(ApplyOne(rows, dropped, op), k) == Some(OpEvent(op)))
  {
    ApplyWriteAbsorbs(rows, Applied(op));
    if WinnerAt(rows, op.key).Some? {
      StampOrder(op.ts, WinnerAt(rows, op.key).value.ts, op.ts);
    }
  }

  lemma GrowsWhenApplied(n: NodeState, op: Op, n': NodeState)
    requires ValidDb(n.rows)
    requires n'.rows == ApplyOne(n.rows, n.dropped, op) && n'.dropped == n.dropped
    ensures Grows(n, n') && Absorbed(n', op)
  {
    ApplyOneGrows(n.rows, n.dropped, op);
    forall o | Absorbed(n, o) ensures Absorbed(n', o) {
      if !Skipped(n.dropped, o) {
        StampGeqTransitive(WinnerAt(n'.rows, o.key).value.ts, WinnerAt(n.rows, o.key).value.ts, o.ts);
      }
    }
  }

  lemma SoundRowsValid(s: System, n: NodeId)
    requires NodeSound(s, n)
    ensures ValidDb(s.nodes[n].rows)
  {
    forall k | k in s.nodes[n].rows ensures ValidRow(s.nodes[n].rows[k]) {
      assert RowSound(s, n, k);
    }
  }

  /** Rows stay sound when an issued op, not beyond the new clock, is applied. */
  lemma RowsSoundApplied(s: System, t: System, n: NodeId, op: Op)
    requires NodeSound(s, n) && Extends(s, t) && n in t.nodes && Issued(t, op)
    requires t.nodes[n].rows == ApplyOne(s.nodes[n].rows, s.nodes[n].dropped, op)
    requires t.nodes[n].clock >= s.nodes[n].clock && t.nodes[n].clock >= op.ts.c
    ensures forall k | k in t.nodes[n].rows :: RowSound(t, n, k)
  {
    SoundRowsValid(s, n);
    var before, after := s.nodes[n].rows, t.nodes[n].rows;
    ApplyOneGrows(before, s.nodes[n].dropped, op);
    forall k | k in after ensures RowSound(t, n, k) {
      if WinnerAt(after, k) == WinnerAt(before, k) && k in before {
        assert RowSound(s, n, k);
        FromHistoryExtends(s, t, k, Winner(before[k]).value);
      } else {
        assert WinnerAt(after, k) == Some(OpEvent(op)) && op.key == k;
      }
    }
  }

  // Each step keeps the invariant.

  /** A changed node is sound once its log, history and rows are, and its own new ops are absorbed. */
  lemma ChangedNodeSound(s: System, t: System, n: NodeId)
    requires Sound(s) && Extends(s, t) && WellFormed(t) && n in s.nodes
    requires t.nodes[n].id == n && t.nodes[n].lastSeen == s.nodes[n].lastSeen
    requires LogSound(t, n) && HistorySound(t, n)
    requires forall p | p in s.nodes && p != n :: t.history[p] == s.history[p]
    requires forall k | k in t.nodes[n].rows :: RowSound(t, n, k)
    requires forall op | op in t.history[n] && op !in s.history[n] :: Absorbed(t.nodes[n], op)
    ensures NodeSound(t, n)
  {
    assert NodeSound(s, n);
    forall c | c in t.nodes[n].lastSeen ensures CursorSound(t, n, c, t.nodes[n].lastSeen[c]) {
      assert CursorSound(s, n, c, s.nodes[n].lastSeen[c]);
      assert c.peer != n ==> NodeSound(s, c.peer) && HistorySound(s, c.peer);
      CursorSoundExtends(s, t, n, c, s.nodes[n].lastSeen[c]);
    }
    forall op | op in t.history[n] ensures Absorbed(t.nodes[n], op) {
      assert op in s.history[n] ==> Absorbed(s.nodes[n], op);
      assert Grows(s.nodes[n], t.nodes[n]);
    }
  }

  /** Logging the issued op keeps history and log sound. */
  lemma WriteOneLogged(s: System, n: NodeId, r: Request)
    requires NodeSound(s, n) && r.shard == ShardForObject(s.shards, r.key.id)
    ensures HistorySound(WriteOne(s, n, r), n) && LogSound(WriteOne(s, n, r), n)
  {
    var t, op := WriteOne(s, n, r), IssuedOp(s.nodes[n], r);
    assert HistorySound(s, n) && LogSound(s, n);
    AppendRepresents(s.nodes[n].log, s.history[n], s.gone[n], op);
    forall i | i in t.gone[n] && i > t.nodes[n].log.trimmed
      ensures Skipped(t.nodes[n].dropped, t.history[n][i - 1])
    {
      assert i in UpTo(|s.history[n]|);
      assert t.history[n][i - 1] == s.history[n][i - 1];
    }
  }

  /** A local write always becomes the row's newest event on its own node. */
  lemma WriteOneWins(s: System, n: NodeId, r: Request)
    requires NodeSound(s, n) && Writable(s.nodes[n], r)
    ensures WinnerAt(WriteOne(s, n, r).nodes[n].rows, r.key) == Some(OpEvent(IssuedOp(s.nodes[n], r)))
  {
    SoundRowsValid(s, n);
    ApplyWriteAbsorbs(s.nodes[n].rows, Applied(IssuedOp(s.nodes[n], r)));
    if r.key in s.nodes[n].rows {
      assert RowSound(s, n, r.key);
    }
  }

  /** Applying an issued op at one node keeps the system sound. */
  lemma AppliedSound(s: System, t: System, n: NodeId, op: Op)
    requires Sound(s) && Extends(s, t) && WellFormed(t) && n in s.nodes && Issued(t, op)
    requires t.network == s.network
    requires forall p | p in s.nodes && p != n :: t.nodes[p] == s.nodes[p] && t.history[p] == s.history[p] && t.gone[p] == s.gone[p]
    requires t.nodes[n].id == n && t.nodes[n].lastSeen == s.nodes[n].lastSeen
    requires t.nodes[n].rows == ApplyOne(s.nodes[n].rows, s.nodes[n].dropped, op)
    requires t.nodes[n].clock >= s.nodes[n].clock && t.nodes[n].clock >= op.ts.c
    requires LogSound(t, n) && HistorySound(t, n)
    requires forall o | o in t.history[n] && o !in s.history[n] :: Absorbed(t.nodes[n], o)
    ensures Sound(t)
  {
    assert NodeSound(s, n);
    RowsSoundApplied(s, t, n, op);
    ChangedNodeSound(s, t, n);
    OneNodeStep(s, t, n);
  }

  lemma {:induction false} WriteOneSound(s: System, n: NodeId, r: Request)
    requires Sound(s) && Known(s, n) && Writable(s.nodes[n], r) && r.shard == ShardForObject(s.shards, r.key.id)
    ensures var t := WriteOne(s, n, r);
            && Sound(t) && Extends(s, t)
            && WinnerAt(t.nodes[n].rows, r.key) == Some(OpEvent(IssuedOp(s.nodes[n], r)))
  {
    var t := WriteOne(s, n, r);
    var op := IssuedOp(s.nodes[n], r);
    assert NodeSound(s, n);
    SoundRowsValid(s, n);
    GrowsWhenApplied(s.nodes[n], op, t.nodes[n]);
    assert Extends(s, t);
    WriteOneLogged(s, n, r);
    assert Issued(t, op) by {
      assert LogSound(s, n);
    }
    AppliedSound(s, t, n, op);
    WriteOneWins(s, n, r);
  }

  lemma {:induction false} WriteAllSound(s: System, n: NodeId, rs: seq<Request>)
    requires Sound(s) && Enabled(s, LocalWrites(n, rs))
    ensures Sound(WriteAll(s, n, rs)) && Extends(s, WriteAll(s, n, rs))
    ensures WriteAll(s, n, rs).nodes[n].dropped == s.nodes[n].dropped
  {
    if rs == [] {
      assert Extends(s, s);
    } else {
      var front, last := rs[..|rs| - 1], rs[|rs| - 1];
      assert last in rs;
      WriteAllSound(s, n, front);
      var t := WriteAll(s, n, front);
      WriteOneSound(t, n, last);
      ExtendsTransitive(s, t, WriteOne(t, n, last));
    }
  }

  lemma AskSound(s: System, n: NodeId, p: NodeId, scope: Option<Scope>)
    requires Sound(s) && Known(s, n) && Known(s, p)
    ensures Sound(After(s, AskPull(n, p, scope)))
  {
    var c := Cursor(p, scope);
    assert CursorSound(s, n, c, CursorAt(s.nodes[n], c)) by {
      assert NodeSound(s, n) && NodeSound(s, p) && HistorySound(s, p);
      if c in s.nodes[n].lastSeen {
        assert CursorSound(s, n, c, s.nodes[n].lastSeen[c]);
      }
    }
    SendSound(s, PullRequest(p, n, scope, CursorAt(s.nodes[n], c)));
  }

  lemma NodeSoundSame(s: System, t: System, n: NodeId)
    requires Sound(s) && n in s.nodes && t == s.(network := t.network)
    ensures NodeSound(t, n) && Extends(s, t)
  {
    assert NodeSound(s, n);
    forall p | p in t.history ensures forall i | 0 <= i < |t.history[p]| :: t.history[p][i].seqNo == i + 1 {
      assert NodeSound(s, p) && HistorySound(s, p);
    }
    NodeSoundExtends(s, t, n);
  }

  /** What a granted reply leaves out up to its new cursor was reached before, or is dropped at the source. */
  lemma {:induction false} ReplyReaches(s: System, m: Message, limit: nat, op: Op)
    requires Sound(s) && m in s.network && m.PullRequest? && m.to in s.nodes
    requires !NeedsSnapshot(s.nodes[m.to].log, m.after, m.scope)
    requires op in s.history[m.to] && Matches(op, m.scope)
    requires var log := s.nodes[m.to].log; var ops := OpsAfter(log, m.after, limit, m.scope);
             op.seqNo <= SeenAfter(m.after, ops, log.seqNo) && op !in ops
    ensures m.from in s.nodes && Reached(s, m.from, Cursor(m.to, m.scope), op)
  {
    assert MessageSound(s, m) && NodeSound(s, m.to);
    var p, log := m.to, s.nodes[m.to].log;
    assert LogSound(s, p);
    if op.seqNo <= m.after {
      assert Reached(s, m.from, Cursor(m.to, m.scope), op);
    } else {
      PullCovers(log, s.history[p], s.gone[p], m.after, limit, m.scope);
      assert Wanted(op, m.after, m.scope) && op.seqNo in s.gone[p];
      if m.scope.Some? {
        ScopedTestIsExact(log, s.history[p], s.gone[p], m.after, m.scope.value);
        SelectPick(s.history[p], s.gone[p], m.after, m.scope);
      } else {
        assert Skipped(s.nodes[p].dropped, s.history[p][op.seqNo - 1]);
      }
    }
  }

  lemma ReplySound(s: System, m: Message, limit: nat)
    requires Sound(s) && m in s.network && m.PullRequest? && m.to in s.nodes && m.from in s.nodes
    requires !NeedsSnapshot(s.nodes[m.to].log, m.after, m.scope)
    ensures var log := s.nodes[m.to].log;
            MessageSound(s, PullReply(m.from, m.to, m.scope, m.after, OpsAfter(log, m.after, limit, m.scope), log.seqNo))
  {
    var p, log := m.to, s.nodes[m.to].log;
    var ops := OpsAfter(log, m.after, limit, m.scope);
    var seen := SeenAfter(m.after, ops, log.seqNo);
    assert NodeSound(s, p) && LogSound(s, p) && MessageSound(s, m);
    PullCovers(log, s.history[p], s.gone[p], m.after, limit, m.scope);
    forall op | op in ops ensures op.from == p && Issued(s, op) {
      assert HistorySound(s, p);
      assert op in s.history[p];
    }
    forall op | op in s.history[p] && op.seqNo <= seen && Matches(op, m.scope) && op !in ops
      ensures Reached(s, m.from, Cursor(p, m.scope), op)
    {
      ReplyReaches(s, m, limit, op);
    }
  }

  lemma ServeSound(s: System, m: Message, limit: nat)
    requires Sound(s) && m in s.network && m.PullRequest?
    ensures Sound(Serve(s, m, limit))
  {
    var log := s.nodes[m.to].log;
    if !NeedsSnapshot(log, m.after, m.scope) {
      var reply := PullReply(m.from, m.to, m.scope, m.after, OpsAfter(log, m.after, limit, m.scope), log.seqNo);
      SendSound(s, reply) by {
        ReplySound(s, m, limit);
      }
    }
  }

  /** Sending a sound message. */
  lemma SendSound(s: System, m: Message)
    requires Sound(s) && MessageSound(s, m)
    ensures Sound(Send(s, m))
  {
    var t := Send(s, m);
    NodeSoundSame(s, t, m.from);
    forall p | p in t.history ensures forall i | 0 <= i < |t.history[p]| :: t.history[p][i].seqNo == i + 1 {
      assert NodeSound(s, p) && HistorySound(s, p);
    }
    MessageSoundExtends(s, t, m);
    OneNodeStep(s, t, m.from);
  }

  lemma ReceiveOneSound(s: System, n: NodeId, op: Op)
    requires Sound(s) && Known(s, n) && Issued(s, op)
    ensures var t := Put(s, n, ReceiveOne(s.nodes[n], op));
            Sound(t) && Extends(s, t) && Absorbed(t.nodes[n], op)
  {
    assert NodeSound(s, n);
    var t := Put(s, n, ReceiveOne(s.nodes[n], op));
    SoundRowsValid(s, n);
    GrowsWhenApplied(s.nodes[n], op, t.nodes[n]);
    assert Extends(s, t);
    assert LogSound(t, n) && HistorySound(t, n) by {
      assert LogSound(s, n) && HistorySound(s, n);
    }
    AppliedSound(s, t, n, op);
  }

  ghost predicate AllAbsorbed(n: NodeState, ops: seq<Op>) {
    forall op {:trigger Absorbed(n, op)} | op in ops :: Absorbed(n, op)
  }

  lemma AllAbsorbedExtends(m: NodeState, n: NodeState, front: seq<Op>, last: Op)
    requires AllAbsorbed(m, front) && Grows(m, n) && Absorbed(n, last)
    ensures AllAbsorbed(n, front + [last])
  {
    forall op | op in front + [last] ensures Absorbed(n, op) {
      assert op in front ==> Absorbed(m, op);
    }
  }

  lemma PutTwice(s: System, n: NodeId, a: NodeState, b: NodeState)
    ensures Put(Put(s, n, a), n, b) == Put(s, n, b)
  {
  }

  lemma {:induction false} ReceiveSound(s: System, n: NodeId, ops: seq<Op>)
    requires Sound(s) && Known(s, n) && forall op | op in ops :: Issued(s, op)
    ensures var t := Put(s, n, Receive(s.nodes[n], ops));
            Sound(t) && Extends(s, t) && AllAbsorbed(t.nodes[n], ops)
  {
    if ops == [] {
      assert Put(s, n, s.nodes[n]) == s;
    } else {
      var front, last := ops[..|ops| - 1], ops[|ops| - 1];
      assert ops == front + [last];
      ReceiveSound(s, n, front);
      var m := Receive(s.nodes[n], front);
      var t := Put(s, n, m);
      assert Issued(t, last) by {
        assert last in ops && Issued(s, last);
      }
      ReceiveOneSound(t, n, last);
      PutTwice(s, n, m, ReceiveOne(m, last));
      var u := Put(s, n, ReceiveOne(m, last));
      ExtendsTransitive(s, t, u);
      assert Grows(m, u.nodes[n]);
      AllAbsorbedExtends(m, u.nodes[n], front, last);
    }
  }

  /** Moving a cursor keeps a system sound when the new cursor is. */
  lemma {:induction false} AdvanceSound(s: System, n: NodeId, c: Cursor, seen: nat, ack: Message)
    requires Sound(s) && Known(s, n) && CursorSound(s, n, c, seen)
    requires ack.Ack? && ack.to in s.nodes && ack.from in s.nodes
    ensures Sound(Send(Put(s, n, Advance(s.nodes[n], c, seen)), ack))
  {
    var u := Send(Put(s, n, Advance(s.nodes[n], c, seen)), ack);
    assert NodeSound(s, n) && HistorySound(s, n) && LogSound(s, n);
    assert Extends(s, u);
    assert LogSound(u, n) && HistorySound(u, n);
    assert NodeSound(u, n) by {
      forall k | k in u.nodes[n].rows ensures RowSound(u, n, k) {
        assert RowSound(s, n, k);
        FromHistoryExtends(s, u, k, Winner(s.nodes[n].rows[k]).value);
      }
      forall d | d in u.nodes[n].lastSeen ensures CursorSound(u, n, d, u.nodes[n].lastSeen[d]) {
        if d in s.nodes[n].lastSeen && s.nodes[n].lastSeen[d] == u.nodes[n].lastSeen[d] {
          assert CursorSound(s, n, d, s.nodes[n].lastSeen[d]);
        }
        assert CursorSound(s, n, d, u.nodes[n].lastSeen[d]);
        assert NodeSound(s, d.peer) && HistorySound(s, d.peer);
        CursorSoundExtends(s, u, n, d, u.nodes[n].lastSeen[d]);
      }
      forall op | op in u.history[n] ensures Absorbed(u.nodes[n], op) {
        assert Absorbed(s.nodes[n], op);
      }
    }
    OneNodeStep(s, u, n);
  }

  lemma TakeSound(s: System, m: Message)
    requires Sound(s) && m in s.network && m.PullReply?
    ensures Sound(Take(s, m))
  {
    assert MessageSound(s, m);
    var n, c := m.to, Cursor(m.from, m.scope);
    var seen := SeenAfter(m.after, m.ops, m.lastSeq);
    ReceiveSound(s, n, m.ops);
    var t := Put(s, n, Receive(s.nodes[n], m.ops));
    MessageSoundKept(s, t, m);
    assert CursorSound(t, n, c, seen) by {
      forall op | op in t.history[c.peer] && op.seqNo <= seen && Matches(op, c.scope) ensures Reached(t, n, c, op) {
        if op in m.ops {
          assert Absorbed(t.nodes[n], op);
        }
      }
    }
    AdvanceSound(t, n, c, seen, Ack(m.from, n, m.scope, seen));
    assert Put(t, n, Advance(t.nodes[n], c, seen)) == Put(s, n, Advance(Receive(s.nodes[n], m.ops), c, seen));
  }

  lemma MessageSoundKept(s: System, t: System, m: Message)
    requires Sound(t) && Extends(s, t) && MessageSound(s, m)
    ensures MessageSound(t, m)
  {
    forall p | p in t.history ensures forall i | 0 <= i < |t.history[p]| :: t.history[p][i].seqNo == i + 1 {
      assert NodeSound(t, p) && HistorySound(t, p);
    }
    MessageSoundExtends(s, t, m);
  }

  lemma AckSound(s: System, m: Message)
    requires Sound(s) && m in s.network && m.Ack?
    ensures Sound(Acked(s, m))
  {
    assert MessageSound(s, m);
    var n, t := m.to, Acked(s, m);
    assert NodeSound(s, n) && LogSound(s, n) && HistorySound(s, n);
    var acks := s.nodes[n].acks[Cursor(m.from, m.scope) := Min(m.seen, s.nodes[n].log.seqNo)];
    PruneRepresents(s.nodes[n].log, s.history[n], s.gone[n], Watermark(acks), s.nodes[n].retainOps);
    assert Extends(s, t);
    LocalLogStep(s, t, n);
  }

  /** Steps that touch only the log of `n` (and what it has dropped) keep the rest sound. */
  lemma LocalLogStep(s: System, t: System, n: NodeId)
    requires Sound(s) && Extends(s, t) && Known(s, n) && Known(t, n)
    requires t == s.(nodes := s.nodes[n := t.nodes[n]], gone := s.gone[n := t.gone[n]])
    requires t.nodes[n].id == n && t.nodes[n].clock == s.nodes[n].clock && t.nodes[n].lastSeen == s.nodes[n].lastSeen
    requires forall k | k in t.nodes[n].rows :: k in s.nodes[n].rows && t.nodes[n].rows[k] == s.nodes[n].rows[k]
    requires LogSound(t, n)
    ensures Sound(t)
  {
    assert NodeSound(s, n) && HistorySound(s, n);
    assert HistorySound(t, n);
    forall k | k in t.nodes[n].rows ensures RowSound(t, n, k) {
      assert RowSound(s, n, k);
      FromHistoryExtends(s, t, k, Winner(s.nodes[n].rows[k]).value);
    }
    ChangedNodeSound(s, t, n);
    OneNodeStep(s, t, n);
  }

  lemma DropLogSound(s: System, n: NodeId, db: string, coll: string)
    requires Known(s, n) && LogSound(s, n)
    ensures LogSound(Dropped(s, n, db, coll), n)
  {
    var log, t := s.nodes[n].log, Dropped(s, n, db, coll);
    var numbers := NumbersOf(log.ops, db, coll);
    DiscardRepresents(log, s.history[n], s.gone[n], db, coll);
    assert t.nodes[n].log == Discard(log, db, coll) && t.gone[n] == s.gone[n] + numbers;
    forall i | i in s.gone[n] + numbers && i > log.trimmed
      ensures Skipped(t.nodes[n].dropped, s.history[n][i - 1])
    {
      DroppedSkipped(s, n, db, coll, i);
    }
  }

  lemma DroppedSkipped(s: System, n: NodeId, db: string, coll: string, i: nat)
    requires Known(s, n) && LogSound(s, n) && i > s.nodes[n].log.trimmed
    requires i in s.gone[n] + NumbersOf(s.nodes[n].log.ops, db, coll)
    ensures 1 <= i <= |s.history[n]|
    ensures Skipped(s.nodes[n].dropped + {(db, coll)}, s.history[n][i - 1])
  {
    if i in s.gone[n] {
      assert i in UpTo(|s.history[n]|);
    } else {
      DroppedNumbers(s.nodes[n].log.ops, s.history[n], s.gone[n], db, coll, i);
    }
  }

  lemma DroppedNumbers(ops: seq<Op>, history: seq<Op>, gone: set<nat>, db: string, coll: string, i: nat)
    requires Numbered(history) && ops == Pick(history, gone, false)
    requires i in NumbersOf(ops, db, coll)
    ensures 1 <= i <= |history| && history[i - 1].key.db == db && history[i - 1].key.coll == coll
  {
    PickMembers(history, gone, false);
  }

  lemma DropGrows(n: NodeState, db: string, coll: string)
    ensures Grows(n, DropCollection(n, db, coll))
  {
  }

  lemma DropSound(s: System, n: NodeId, db: string, coll: string)
    requires Sound(s) && Known(s, n)
    ensures Sound(Dropped(s, n, db, coll))
  {
    var t := Dropped(s, n, db, coll);
    assert NodeSound(s, n);
    DropLogSound(s, n, db, coll);
    DropGrows(s.nodes[n], db, coll);
    assert Extends(s, t);
    LocalLogStep(s, t, n);
  }

  lemma StepSound(s: System, step: Step)
    requires Sound(s) && Enabled(s, step)
    ensures Sound(After(s, step))
  {
    match step
    case LocalWrites(n, rs) => WriteAllSound(s, n, rs);
    case AskPull(n, p, scope) => AskSound(s, n, p, scope);
    case ServePull(m, limit) => ServeSound(s, m, limit);
    case TakeReply(m) => TakeSound(s, m);
    case TakeAck(m) => AckSound(s, m);
    case DropLocal(n, db, coll) => DropSound(s, n, db, coll);
  }

  // What a step leaves alone.

  lemma {:induction false} ReceiveKeeps(n: NodeState, ops: seq<Op>)
    ensures var n' := Receive(n, ops);
            n'.id == n.id && n'.lastSeen == n.lastSeen && n'.acks == n.acks && n'.log == n.log && n'.dropped == n.dropped
  {
    if ops != [] {
      ReceiveKeeps(n, ops[..|ops| - 1]);
    }
  }

  lemma {:induction false} CommitKeeps(n: NodeState, rs: seq<Request>)
    ensures var n' := Commit(n, rs);
            n'.id == n.id && n'.lastSeen == n.lastSeen && n'.acks == n.acks && n'.dropped == n.dropped
  {
    if rs != [] {
      CommitKeeps(n, rs[..|rs| - 1]);
    }
  }

  /**
   * A cursor moves by a reply alone, to the last number of the reply or, when it is empty, to the
   * answerer's own, and never back.
   */
  lemma CursorsNeverGoBack(s: System, step: Step, n: NodeId, c: Cursor)
    requires WellFormed(s) && Enabled(s, step) && n in s.nodes
    ensures var before, after := CursorAt(s.nodes[n], c), CursorAt(After(s, step).nodes[n], c);
            if step.TakeReply? && step.message.to == n && c == Cursor(step.message.from, step.message.scope) then
              var m := step.message;
              var seen := if m.ops != [] then m.ops[|m.ops| - 1].seqNo else if m.lastSeq != 0 then m.lastSeq else m.after;
              after == if seen > before then seen else before
            else after == before
  {
    match step
    case LocalWrites(w, rs) => CommitKeeps(s.nodes[w], rs);
    case TakeReply(m) => ReceiveKeeps(s.nodes[m.to], m.ops);
    case _ =>
  }

  /** An acknowledgement is recorded as far as this node has numbered, and only the log is touched besides. */
  lemma AcksAreCapped(s: System, m: Message)
    requires Sound(s) && Enabled(s, Step.TakeAck(m))
    ensures var n, n' := s.nodes[m.to], After(s, Step.TakeAck(m)).nodes[m.to];
            && n'.acks == n.acks[Cursor(m.from, m.scope) := if m.seen <= n.log.seqNo then m.seen else n.log.seqNo]
            && n' == n.(acks := n'.acks, log := n'.log)
            && forall op :: op in n'.log.ops <==>
                 op in n.log.ops && exists c :: c in n'.acks && op.seqNo + n.retainOps > n'.acks[c]
  {
    var n := s.nodes[m.to];
    assert NodeSound(s, m.to);
    RepresentsAboveTrim(n.log, s.history[m.to], s.gone[m.to]);
    PruneNodeExact(n.(acks := n.acks[Cursor(m.from, m.scope) := Min(m.seen, n.log.seqNo)]));
    assert Cursor(m.from, m.scope) in After(s, Step.TakeAck(m)).nodes[m.to].acks;
  }

  /** Dropping a collection takes its rows and logged ops, every one and no other, and refuses it from then on. */
  lemma DropTakesOneCollection(s: System, n: NodeId, db: string, coll: string)
    requires Sound(s) && Known(s, n)
    ensures var before, after := s.nodes[n], After(s, DropLocal(n, db, coll)).nodes[n];
            && (forall k: Key :: k in after.rows <==> k in before.rows && !(k.db == db && k.coll == coll))
            && (forall k: Key | k in after.rows :: after.rows[k] == before.rows[k])
            && (forall op :: op in after.log.ops <==> op in before.log.ops && !(op.key.db == db && op.key.coll == coll))
            && after.dropped == before.dropped + {(db, coll)}
            && after == before.(rows := after.rows, log := after.log, dropped := after.dropped)
            && forall other | other in s.nodes && other != n :: After(s, DropLocal(n, db, coll)).nodes[other] == s.nodes[other]
  {
    assert NodeSound(s, n);
    PickAscends(s.history[n], s.gone[n], false);
    DiscardExact(s.nodes[n].log, db, coll);
    hide Sound, Discard, OpLogs.Ascending;
  }

  // Whole runs.

  ghost predicate Next(s: System, t: System) {
    && WellFormed(s)
    && exists step :: Enabled(s, step) && t == After(s, step)
  }

  ghost predicate IsRun(run: seq<System>) {
    run != [] && Initial(run[0]) && forall i | 0 <= i < |run| - 1 :: Next(run[i], run[i + 1])
  }

  ghost predicate Reachable(s: System) {
    exists run :: IsRun(run) && run[|run| - 1] == s
  }

  lemma {:induction false} RunsAreSound(run: seq<System>)
    requires IsRun(run)
    ensures Sound(run[|run| - 1])
  {
    if |run| == 1 {
      forall n | n in run[0].nodes ensures NodeSound(run[0], n) {
        EmptyRepresents();
      }
    } else {
      var front := run[..|run| - 1];
      forall i | 0 <= i < |front| - 1 ensures Next(front[i], front[i + 1]) {
        assert Next(run[i], run[i + 1]);
      }
      RunsAreSound(front);
      var s := run[|run| - 2];
      assert Next(run[|run| - 2], run[|run| - 2 + 1]);
      var step :| Enabled(s, step) && run[|run| - 1] == After(s, step);
      StepSound(s, step);
    }
  }

  lemma ReachableIsSound(s: System)
    requires Reachable(s)
    ensures Sound(s)
  {
    var run :| IsRun(run) && run[|run| - 1] == s;
    RunsAreSound(run);
  }

  /** In every reachable state each cursor is sound. */
  lemma CursorsAreSound(s: System, n: NodeId, c: Cursor)
    requires Reachable(s) && n in s.nodes && c in s.nodes[n].lastSeen
    ensures CursorSound(s, n, c, s.nodes[n].lastSeen[c])
  {
    ReachableIsSound(s);
    assert NodeSound(s, n);
  }

  /** No two issued ops of the whole system carry the same stamp. */
  lemma StampsAreUnique(s: System, a: Op, b: Op)
    requires Reachable(s) && Issued(s, a) && Issued(s, b) && a.ts == b.ts
    ensures a == b
  {
    ReachableIsSound(s);
    assert NodeSound(s, a.from) && NodeSound(s, b.from);
    assert HistorySound(s, a.from) && HistorySound(s, b.from);
    hide Sound, NodeSound, Reachable;
    assert s.history[a.from][a.seqNo - 1].ts.n == a.from;
    assert s.history[b.from][b.seqNo - 1].ts.n == b.from;
    HistoryStampsDiffer(s, a.from, a.seqNo - 1, b.seqNo - 1);
  }

  lemma HistoryStampsDiffer(s: System, n: NodeId, i: nat, j: nat)
    requires Known(s, n) && HistorySound(s, n) && i < |s.history[n]| && j < |s.history[n]|
    ensures s.history[n][i].ts == s.history[n][j].ts ==> i == j
  {
  }

  /** Nothing later in the list goes to the same object. */
  predicate LastRequest(rs: seq<Request>, i: nat)
    requires i < |rs|
  {
    forall j | i < j < |rs| :: rs[j].key != rs[i].key
  }

  lemma RowsWritten(s: System, n: NodeId, r: Request, k: Key)
    requires Sound(s) && Known(s, n) && Writable(s.nodes[n], r) && r.shard == ShardForObject(s.shards, r.key.id)
    ensures var rows := WriteOne(s, n, r).nodes[n].rows;
            if k == r.key then k in rows && Shows(rows[k], r.kind, r.value) else RowAt(rows, k) == RowAt(s.nodes[n].rows, k)
  {
    var rows := WriteOne(s, n, r).nodes[n].rows;
    WriteOneSound(s, n, r);
    assert Winner(RowAt(rows, r.key)) == WinnerAt(rows, r.key) == Some(OpEvent(IssuedOp(s.nodes[n], r)));
    WinnerShows(RowAt(rows, r.key), IssuedOp(s.nodes[n], r));
  }

  predicate Asked(rs: seq<Request>, k: Key) {
    exists i :: 0 <= i < |rs| && rs[i].key == k
  }

  /** The object shows the last request on it, or is as it was. */
  ghost predicate ShowsRequests(before: Db, after: Db, rs: seq<Request>, k: Key) {
    && (forall i | 0 <= i < |rs| && LastRequest(rs, i) && rs[i].key == k :: k in after && Shows(after[k], rs[i].kind, rs[i].value))
    && (!Asked(rs, k) ==> RowAt(after, k) == RowAt(before, k))
  }

  lemma ShowsMore(before: Db, mid: Db, after: Db, rs: seq<Request>, r: Request, k: Key)
    requires ShowsRequests(before, mid, rs, k)
    requires if k == r.key then k in after && Shows(after[k], r.kind, r.value) else RowAt(after, k) == RowAt(mid, k)
    ensures ShowsRequests(before, after, rs + [r], k)
  {
    var more := rs + [r];
    assert more[|rs|] == r && forall i | 0 <= i < |rs| :: more[i] == rs[i];
    forall i | 0 <= i < |more| && LastRequest(more, i) && more[i].key == k ensures k in after && Shows(after[k], more[i].kind, more[i].value) {
      if i < |rs| {
        assert r.key != k && LastRequest(rs, i);
        FreshShowsNothing(more[i].kind, more[i].value);
      }
    }
    if !Asked(more, k) {
      assert r.key != k && !Asked(rs, k);
    }
  }

  lemma {:induction false} WrittenRows(s: System, n: NodeId, rs: seq<Request>, k: Key)
    requires Sound(s) && Enabled(s, LocalWrites(n, rs))
    ensures ShowsRequests(s.nodes[n].rows, WriteAll(s, n, rs).nodes[n].rows, rs, k)
  {
    if rs != [] {
      var front, last := rs[..|rs| - 1], rs[|rs| - 1];
      assert last in rs && rs == front + [last];
      WriteAllSound(s, n, front);
      WrittenRows(s, n, front, k);
      var t := WriteAll(s, n, front);
      assert WriteAll(s, n, rs) == WriteOne(t, n, last);
      RowsWritten(t, n, last, k);
      hide *;
      ShowsMore(s.nodes[n].rows, t.nodes[n].rows, WriteOne(t, n, last).nodes[n].rows, front, last, k);
    }
  }

  lemma FreshShowsNothing(kind: Kind, value: Value)
    ensures !Shows(FRESH, kind, value)
  {
  }

  /**
   * In every reachable state local writes win on their own node: each object shows what the last request
   * on it asked for, a put its value, a touch the empty object, a delete none, and every other object is
   * as it was.
   */
  lemma LocalWriteWins(s: System, n: NodeId, rs: seq<Request>, k: Key)
    requires Reachable(s) && Enabled(s, LocalWrites(n, rs))
    ensures ShowsRequests(s.nodes[n].rows, WriteAll(s, n, rs).nodes[n].rows, rs, k)
  {
    ReachableIsSound(s);
    WrittenRows(s, n, rs, k);
  }

  /** The op carries the request out, under the node's name and the next number. */
  predicate CarriesOut(op: Op, r: Request, n: NodeId, seqNo: nat) {
    && op.kind == r.kind && op.key == r.key && op.shard == r.shard && op.value == r.value
    && op.from == n && op.ts.n == n && op.seqNo == seqNo
  }

  lemma OneIssued(s: System, n: NodeId, r: Request)
    requires Sound(s) && Known(s, n)
    ensures WriteOne(s, n, r).history[n] == s.history[n] + [IssuedOp(s.nodes[n], r)]
    ensures CarriesOut(IssuedOp(s.nodes[n], r), r, n, |s.history[n]| + 1)
  {
    assert NodeSound(s, n) && LogSound(s, n);
  }

  /** What was issued since carries the requests out in order, numbered on. */
  ghost predicate IssuedFor(before: seq<Op>, after: seq<Op>, rs: seq<Request>, n: NodeId) {
    && |after| == |before| + |rs| && before <= after
    && forall i | 0 <= i < |rs| :: CarriesOut(after[|before| + i], rs[i], n, |before| + i + 1)
  }

  lemma IssuedMore(before: seq<Op>, mid: seq<Op>, rs: seq<Request>, op: Op, r: Request, n: NodeId)
    requires IssuedFor(before, mid, rs, n) && CarriesOut(op, r, n, |mid| + 1)
    ensures IssuedFor(before, mid + [op], rs + [r], n)
  {
    hide CarriesOut;
  }

  lemma {:induction false} LocalWritesIssued(s: System, n: NodeId, rs: seq<Request>)
    requires Sound(s) && Enabled(s, LocalWrites(n, rs))
    ensures n in WriteAll(s, n, rs).history && IssuedFor(s.history[n], WriteAll(s, n, rs).history[n], rs, n)
  {
    if rs != [] {
      var front, last := rs[..|rs| - 1], rs[|rs| - 1];
      assert rs == front + [last];
      LocalWritesIssued(s, n, front);
      WriteAllSound(s, n, front);
      var t := WriteAll(s, n, front);
      assert WriteAll(s, n, rs) == WriteOne(t, n, last);
      hide *;
      OneIssued(t, n, last);
      IssuedMore(s.history[n], t.history[n], front, IssuedOp(t.nodes[n], last), last, n);
    } else {
      assert WriteAll(s, n, rs) == s;
    }
  }

  /** `n` has pulled everything of `scope` from every other node. */
  ghost predicate CaughtUp(s: System, n: NodeId, scope: Option<Scope>) {
    && n in s.nodes
    && forall p | p in s.history && p != n ::
         Cursor(p, scope) in s.nodes[n].lastSeen && s.nodes[n].lastSeen[Cursor(p, scope)] >= |s.history[p]|
  }

  ghost predicate InScope(s: System, k: Key, scope: Option<Scope>) {
    scope.Some? ==> ScopeMatches(Scope(k.db, k.coll, ShardForObject(s.shards, k.id)), scope.value)
  }

  ghost predicate NowhereDropped(s: System, k: Key) {
    forall n | n in s.nodes :: (k.db, k.coll) !in s.nodes[n].dropped
  }

  lemma CaughtUpAbsorbed(s: System, n: NodeId, scope: Option<Scope>, op: Op)
    requires Sound(s) && CaughtUp(s, n, scope) && Issued(s, op)
    requires InScope(s, op.key, scope) && NowhereDropped(s, op.key)
    ensures WinnerAt(s.nodes[n].rows, op.key).Some?
    ensures StampGeq(WinnerAt(s.nodes[n].rows, op.key).value.ts, op.ts)
  {
    assert NodeSound(s, n) && NodeSound(s, op.from) && HistorySound(s, op.from);
    assert op in s.history[op.from];
    if op.from != n {
      var c := Cursor(op.from, scope);
      assert CursorSound(s, n, c, s.nodes[n].lastSeen[c]);
      assert s.history[op.from][op.seqNo - 1].shard == ShardForObject(s.shards, op.key.id);
      assert Reached(s, n, c, op);
    }
    assert Absorbed(s.nodes[n], op);
  }

  /** No op issued on the same object is newer. */
  ghost predicate Greatest(s: System, op: Op) {
    Issued(s, op) && forall other | Issued(s, other) && other.key == op.key :: StampGeq(op.ts, other.ts)
  }


  /**
   * Convergence: in every reachable state, two nodes whose cursors have reached their sources hold
   * the same newest write or delete for every object of the scope, and it is the greatest issued.
   */
  lemma {:induction false} Convergence(s: System, a: NodeId, b: NodeId, scope: Option<Scope>, k: Key)
    requires Reachable(s) && CaughtUp(s, a, scope) && CaughtUp(s, b, scope)
    requires InScope(s, k, scope) && NowhereDropped(s, k)
    ensures WinnerAt(s.nodes[a].rows, k) == WinnerAt(s.nodes[b].rows, k)
    ensures forall op | Issued(s, op) && op.key == k ::
              WinnerAt(s.nodes[a].rows, k).Some? && StampGeq(WinnerAt(s.nodes[a].rows, k).value.ts, op.ts)
  {
    ReachableIsSound(s);
    forall op | Issued(s, op) && op.key == k
      ensures WinnerAt(s.nodes[a].rows, k).Some? && StampGeq(WinnerAt(s.nodes[a].rows, k).value.ts, op.ts)
    {
      CaughtUpAbsorbed(s, a, scope, op);
    }
    if k in s.nodes[a].rows {
      var op := WinnerWasIssued(s, a, k);
      CaughtUpAbsorbed(s, b, scope, op);
    }
    if k in s.nodes[b].rows {
      var op := WinnerWasIssued(s, b, k);
      CaughtUpAbsorbed(s, a, scope, op);
      var op' := WinnerWasIssued(s, a, k);
      CaughtUpAbsorbed(s, b, scope, op');
      StampGeqAntisymmetric(op.ts, op'.ts);
      StampsAreUnique(s, op, op');
    }
  }

  /** So a node that has caught up shows what the greatest op issued on an object wrote. */
  lemma CaughtUpShowsGreatest(s: System, n: NodeId, scope: Option<Scope>, op: Op)
    requires Reachable(s) && CaughtUp(s, n, scope) && InScope(s, op.key, scope) && NowhereDropped(s, op.key) && Greatest(s, op)
    ensures op.key in s.nodes[n].rows && Stores(s.nodes[n].rows[op.key], op)
  {
    ReachableIsSound(s);
    CaughtUpAbsorbed(s, n, scope, op);
    var shown := WinnerWasIssued(s, n, op.key);
    hide Sound, CaughtUp, InScope, NowhereDropped;
    StampGeqAntisymmetric(op.ts, shown.ts);
    StampsAreUnique(s, op, shown);
  }

  lemma WinnerWasIssued(s: System, n: NodeId, k: Key) returns (op: Op)
    requires Sound(s) && n in s.nodes && k in s.nodes[n].rows
    ensures Issued(s, op) && op.key == k && Winner(s.nodes[n].rows[k]) == Some(OpEvent(op)) && Stores(s.nodes[n].rows[k], op)
  {
    assert NodeSound(s, n) && RowSound(s, n, k);
    op :| Issued(s, op) && op.key == k && OpEvent(op) == Winner(s.nodes[n].rows[k]).value;
    WinnerShows(s.nodes[n].rows[k], op);
  }

  /** In every reachable state each row shows what some op issued on its object wrote, and bears its stamp. */
  lemma RowsShowIssuedOps(s: System, n: NodeId, k: Key) returns (op: Op)
    requires Reachable(s) && n in s.nodes && k in s.nodes[n].rows
    ensures Issued(s, op) && op.key == k && Stores(s.nodes[n].rows[k], op)
  {
    ReachableIsSound(s);
    op := WinnerWasIssued(s, n, k);
  }
}
