/** Object routing and shard-map publication (src/shard-map.js). */
module ShardMaps {
  import opened Wrappers
  import opened Clocks

  const DEFAULT_SHARD := "default"
  const PARTITIONER := "fnv1a32-mod-v1"
  const OFFSET_BASIS: nat := 0x811c9dc5
  const PRIME: nat := 0x01000193
  const WORD: nat := 0x1_0000_0000

  // Routing.

  function Xor(a: nat, b: nat): nat {
    if a == 0 && b == 0 then 0 else (if a % 2 == b % 2 then 0 else 1) + 2 * Xor(a / 2, b / 2)
  }

  lemma XorStep(a: nat, b: nat)
    ensures Xor(a, b) == (if a % 2 == b % 2 then 0 else 1) + 2 * Xor(a / 2, b / 2)
    ensures Xor(a, b) / 2 == Xor(a / 2, b / 2) && Xor(a, b) % 2 == if a % 2 == b % 2 then 0 else 1
  {
    if a == 0 && b == 0 {
      assert Xor(0, 0) == 0;
    }
    Parted(if a % 2 == b % 2 then 0 else 1, Xor(a / 2, b / 2));
  }

  lemma Parted(bit: nat, half: nat)
    requires bit < 2
    ensures (bit + 2 * half) / 2 == half && (bit + 2 * half) % 2 == bit
  {
  }

  /** Exclusive or is symmetric and undoes itself. */
  lemma {:induction false} XorUndoes(a: nat, b: nat)
    ensures Xor(Xor(a, b), b) == a && Xor(a, b) == Xor(b, a)
    decreases a + b
  {
    if a == 0 && b == 0 {
      assert Xor(0, 0) == 0;
    } else {
      XorUndoes(a / 2, b / 2);
      XorStep(a, b);
      XorStep(b, a);
      XorStep(Xor(a, b), b);
      hide Xor;
    }
  }

  /** One round of 32-bit FNV-1a; the product wraps as `Math.imul` does. */
  function Mix(h: nat, c: char): nat {
    (Xor(h, c as nat) * PRIME) % WORD
  }

  function HashFrom(s: string, h: nat): nat
    decreases |s|
  {
    if s == [] then h else HashFrom(s[1..], Mix(h, s[0]))
  }

  method HashString(s: string) returns (h: nat)
    ensures h == HashFrom(s, OFFSET_BASIS) && h < 0x1_0000_0000
  {
    h := OFFSET_BASIS;
    for i := 0 to |s|
      invariant h < 0x1_0000_0000 && HashFrom(s[i..], h) == HashFrom(s, OFFSET_BASIS)
    {
      h := Mix(h, s[i]);
      assert s[i..][1..] == s[i + 1..];
    }
  }

  lemma {:induction false} XorZero(a: nat)
    ensures Xor(a, 0) == a
  {
    XorStep(a, 0);
    if a != 0 {
      XorZero(a / 2);
    }
  }

  lemma XorOfA()
    ensures Xor(0x811c9dc5, 97) == 0x811c9da4
  {
    hide *;
    XorStep(2166136261, 97);
    XorStep(1083068130, 48);
    XorStep(541534065, 24);
    XorStep(270767032, 12);
    XorStep(135383516, 6);
    XorStep(67691758, 3);
    XorStep(33845879, 1);
    XorZero(16922939);
  }

  /** Known values of 32-bit FNV-1a. */
  lemma HashOfA()
    ensures HashFrom("", OFFSET_BASIS) == 0x811c9dc5 && HashFrom("a", OFFSET_BASIS) == 0xe40c292c
  {
    XorOfA();
    assert 0x811c9da4 * PRIME == 8461672 * WORD + 0xe40c292c;
    assert Mix(OFFSET_BASIS, 'a') == 0xe40c292c;
    hide Mix, Xor;
    assert "a"[1..] == "";
  }

  ghost function Least(names: set<string>): (least: string)
    requires names != {}
    ensures least in names
    ensures forall name | name in names :: name == least || StringGt(name, least)
  {
    var name :| name in names;
    if names == {name} then name
    else
      var rest := Least(names - {name});
      StringGtTotal(name, rest);
      assert forall other | other in names - {name} && StringGt(rest, name) && other != rest :: StringGt(other, name) by {
        forall other | other in names - {name} && StringGt(rest, name) && other != rest ensures StringGt(other, name) {
          StringGtTransitive(other, rest, name);
        }
      }
      if StringGt(name, rest) then rest else name
  }

  /** The names in the order of JavaScript's `sort()`. */
  ghost function Sorted(names: set<string>): (sorted: seq<string>)
    ensures forall name :: name in sorted <==> name in names
    ensures |sorted| == |names|
  {
    if names == {} then [] else [Least(names)] + Sorted(names - {Least(names)})
  }

  ghost function ShardForObject(names: set<string>, id: string): string {
    if names == {} then DEFAULT_SHARD
    else Sorted(names)[HashFrom(id, OFFSET_BASIS) % |names|]
  }

  predicate Ascending(names: seq<string>) {
    forall i, j | 0 <= i < j < |names| :: StringGt(names[j], names[i])
  }

  lemma {:induction false} SortedAscends(names: set<string>)
    ensures Ascending(Sorted(names))
  {
    if names != {} {
      var rest := Sorted(names - {Least(names)});
      SortedAscends(names - {Least(names)});
      forall j | 0 <= j < |rest| ensures StringGt(rest[j], Least(names)) {
        assert rest[j] in rest;
      }
    }
  }

  ghost predicate Listing(listed: seq<string>, names: set<string>) {
    forall name :: name in listed <==> name in names
  }

  lemma FirstIsLeast(names: set<string>, listed: seq<string>)
    requires listed != [] && Ascending(listed) && Listing(listed, names)
    ensures names != {} && listed[0] == Least(names)
  {
    assert listed[0] in listed;
    assert Least(names) in listed;
    if listed[0] != Least(names) {
      var i :| 0 <= i < |listed| && listed[i] == Least(names);
      StringGtTotal(listed[0], listed[i]);
      assert false;
    }
  }

  lemma RestAscends(names: set<string>, listed: seq<string>)
    requires listed != [] && Ascending(listed) && Listing(listed, names)
    ensures Ascending(listed[1..]) && Listing(listed[1..], names - {listed[0]})
  {
    var first, rest := listed[0], listed[1..];
    forall name ensures name in rest <==> name in names - {first} {
      if name in rest {
        var i :| 0 <= i < |rest| && rest[i] == name;
        assert listed[i + 1] == name && StringGt(name, first);
        StringGtTotal(name, first);
      }
      assert listed == [first] + rest;
    }
  }

  lemma SortedStep(names: set<string>)
    requires names != {}
    ensures Sorted(names) == [Least(names)] + Sorted(names - {Least(names)})
  {
  }

  /** A set of names has one ascending list. */
  lemma {:induction false} AscendingIsSorted(names: set<string>, listed: seq<string>)
    requires Ascending(listed) && Listing(listed, names)
    ensures listed == Sorted(names)
    decreases |listed|
  {
    if listed == [] {
      assert names == {};
    } else {
      FirstIsLeast(names, listed);
      RestAscends(names, listed);
      hide *;
      AscendingIsSorted(names - {listed[0]}, listed[1..]);
      SortedStep(names);
      assert listed == [listed[0]] + listed[1..];
    }
  }

  /** Routing an object: the name at its hash's place among the names in ascending order, round and round. */
  method RouteObject(names: set<string>, listed: seq<string>, id: string) returns (shard: string)
    requires Ascending(listed) && Listing(listed, names)
    ensures shard == if listed == [] then DEFAULT_SHARD else listed[HashFrom(id, OFFSET_BASIS) % |listed|]
    ensures shard == ShardForObject(names, id)
  {
    AscendingIsSorted(names, listed);
    if listed == [] {
      assert names == {};
      return DEFAULT_SHARD;
    }
    assert listed[0] in listed;
    var h := HashString(id);
    shard := listed[h % |listed|];
  }

  lemma ShardForObjectInRange(names: set<string>, id: string)
    ensures names != {} ==> ShardForObject(names, id) in names
  {
    if names != {} {
      assert Sorted(names)[HashFrom(id, OFFSET_BASIS) % |names|] in Sorted(names);
    }
  }

  // Topologies.

  type Peers = seq<string>

  datatype State = Active | Resharding | Unsupported

  datatype Source = Source(id: string, shards: set<string>)

  datatype Topology = Topology(id: string, state: State, partitioner: string, source: Option<Source>)

  datatype ShardMap = ShardMap(topology: Topology, shards: map<string, Peers>)

  datatype Result = Ok(shardMap: ShardMap) | Err(message: string)

  function Validate(m: ShardMap): Result {
    var t := m.topology;
    if t.id == "" then Err("topology id is required")
    else if t.partitioner != PARTITIONER then Err("unsupported partitioner")
    else if t.state.Unsupported? then Err("unsupported state")
    else if t.state.Active? && t.source.Some? then Err("active topology with a source")
    else if t.state.Active? then Ok(m)
    else if t.source.None? || t.source.value.id == "" || t.source.value.shards == {} then Err("missing source")
    else if t.source.value.shards !! m.shards.Keys then Ok(m)
    else Err("source and target shard names overlap")
  }

  function Signature(m: ShardMap): (string, nat) {
    (m.topology.partitioner, |m.shards|)
  }

  /** The digits of a shard index, padded to four. */
  function Pad(s: string): string
    decreases 4 - |s|
  {
    if |s| >= 4 then s else Pad("0" + s)
  }

  function Parse(s: string): int {
    if s == [] then 0 else Parse(s[..|s| - 1]) * 10 + (s[|s| - 1] as int - '0' as int)
  }

  lemma {:induction false} ParseDigits(n: nat)
    ensures Parse(Digits(n)) == n
  {
    if n >= 10 {
      ParseDigits(n / 10);
      assert Digits(n)[..|Digits(n)| - 1] == Digits(n / 10);
    } else {
      assert Digits(n)[..0] == [];
    }
  }

  lemma {:induction false} ParseZero(s: string)
    ensures Parse("0" + s) == Parse(s)
  {
    if s == [] {
      assert ("0" + s)[..0] == [];
    } else {
      ParseZero(s[..|s| - 1]);
      assert ("0" + s)[..|"0" + s| - 1] == "0" + s[..|s| - 1];
    }
  }

  lemma {:induction false} ParsePad(s: string)
    ensures Parse(Pad(s)) == Parse(s)
    decreases 4 - |s|
  {
    if |s| < 4 {
      ParsePad("0" + s);
      ParseZero(s);
    }
  }

  function TargetName(topologyId: string, index: nat): string {
    topologyId + "-s" + Pad(Digits(index))
  }

  lemma TargetNamesDiffer(topologyId: string, i: nat, j: nat)
    requires TargetName(topologyId, i) == TargetName(topologyId, j)
    ensures i == j
  {
    var prefix := topologyId + "-s";
    assert TargetName(topologyId, i)[|prefix|..] == Pad(Digits(i));
    assert TargetName(topologyId, j)[|prefix|..] == Pad(Digits(j));
    ParseDigits(i);
    ParseDigits(j);
    ParsePad(Digits(i));
    ParsePad(Digits(j));
  }

  function TargetNames(topologyId: string, count: nat): set<string> {
    set i | 0 <= i < count :: TargetName(topologyId, i)
  }

  lemma {:induction false} TargetNamesCount(topologyId: string, count: nat)
    ensures |TargetNames(topologyId, count)| == count
  {
    if count != 0 {
      TargetNamesCount(topologyId, count - 1);
      var last := TargetName(topologyId, count - 1);
      hide TargetName;
      assert TargetNames(topologyId, count) == TargetNames(topologyId, count - 1) + {last};
      if last in TargetNames(topologyId, count - 1) {
        var i :| 0 <= i < count - 1 && TargetName(topologyId, i) == last;
        TargetNamesDiffer(topologyId, i, count - 1);
      }
    }
  }

  lemma FreshNames(topologyId: string, count: nat, taken: set<string>)
    requires forall i: nat :: TargetName(topologyId, i) !in taken
    ensures TargetNames(topologyId, count) !! taken
  {
  }

  /** Peers by name when the two name sets agree, by position otherwise. */
  ghost function AssignPeers(names: set<string>, desired: map<string, Peers>, order: seq<string>): map<string, Peers> {
    if names == desired.Keys then desired else TurnsOf(Sorted(names), names, desired, order)
  }

  function TurnsOf(listed: seq<string>, names: set<string>, desired: map<string, Peers>, order: seq<string>): map<string, Peers> {
    map name | name in names :: Turn(desired, order, PlaceOf(listed, name))
  }

  function PlaceOf(listed: seq<string>, name: string): nat {
    if listed == [] || listed[0] == name then 0 else 1 + PlaceOf(listed[1..], name)
  }

  function Turn(desired: map<string, Peers>, order: seq<string>, i: nat): Peers {
    if i < |order| && order[i] in desired then desired[order[i]] else []
  }

  /**
   * `order` lists the desired names in the order the runtime's collation gives them and `freshId` is
   * the generated topology id.
   */
  /** Each name keeps the peers desired for it, or the names in order get the desired peers in order. */
  ghost predicate PeersAssigned(names: set<string>, desired: map<string, Peers>, order: seq<string>, given: map<string, Peers>) {
    && given.Keys == names
    && (names == desired.Keys ==> given == desired)
    && (names != desired.Keys ==> InTurn(Sorted(names), desired, order, given))
  }

  /** The listed names get the desired peers in turn, and the names left over none. */
  ghost predicate InTurn(listed: seq<string>, desired: map<string, Peers>, order: seq<string>, given: map<string, Peers>) {
    forall i {:trigger listed[i]} | 0 <= i < |listed| ::
      && listed[i] in given
      && given[listed[i]] == if i < |order| && order[i] in desired then desired[order[i]] else []
  }

  lemma {:induction false} PlaceFound(listed: seq<string>, i: nat)
    requires i < |listed| && forall j | 0 <= j < i :: listed[j] != listed[i]
    ensures PlaceOf(listed, listed[i]) == i
  {
    if i > 0 {
      assert listed[0] != listed[i] && listed[1..][i - 1] == listed[i];
      PlaceFound(listed[1..], i - 1);
    }
  }

  predicate NoRepeats(names: seq<string>) {
    forall i, j | 0 <= i < j < |names| :: names[i] != names[j]
  }

  lemma AscendingDiffer(names: seq<string>)
    requires Ascending(names)
    ensures NoRepeats(names)
  {
    forall i, j | 0 <= i < j < |names| ensures names[i] != names[j] {
      StringGtTotal(names[j], names[i]);
    }
  }

  lemma TurnsTaken(listed: seq<string>, names: set<string>, desired: map<string, Peers>, order: seq<string>)
    requires Listing(listed, names) && NoRepeats(listed)
    ensures InTurn(listed, desired, order, TurnsOf(listed, names, desired, order))
  {
    var given := TurnsOf(listed, names, desired, order);
    forall i | 0 <= i < |listed| ensures listed[i] in given && given[listed[i]] == Turn(desired, order, i) {
      assert listed[i] in listed;
      PlaceFound(listed, i);
    }
  }

  lemma AssignPeersMeans(names: set<string>, desired: map<string, Peers>, order: seq<string>)
    ensures PeersAssigned(names, desired, order, AssignPeers(names, desired, order))
  {
    var listed := Sorted(names);
    assert Listing(listed, names);
    assert TurnsOf(listed, names, desired, order).Keys == names;
    SortedAscends(names);
    hide *;
    AscendingDiffer(listed);
    TurnsTaken(listed, names, desired, order);
    AssignedOf(names, desired, order);
  }

  lemma AssignedOf(names: set<string>, desired: map<string, Peers>, order: seq<string>)
    requires InTurn(Sorted(names), desired, order, TurnsOf(Sorted(names), names, desired, order))
    ensures PeersAssigned(names, desired, order, AssignPeers(names, desired, order))
  {
    hide InTurn, Sorted, Turn;
  }

  ghost function Publish(current: ShardMap, desired: ShardMap, order: seq<string>, freshId: string): Result
    requires forall name :: name in order <==> name in desired.shards
  {
    if current.shards == map[] then Validate(desired)
    else if Validate(current).Err? then Validate(current)
    else if desired.topology.partitioner != PARTITIONER then Err("unsupported partitioner")
    else if Signature(current) == Signature(desired) then
      Ok(current.(shards := AssignPeers(current.shards.Keys, desired.shards, order)))
    else if current.topology.state.Resharding? then Err("resharding is unfinished")
    else
      var topology := Topology(freshId, Resharding, desired.topology.partitioner,
                               Some(Source(current.topology.id, current.shards.Keys)));
      Ok(ShardMap(topology, AssignPeers(TargetNames(freshId, |desired.shards|), desired.shards, order)))
  }

  function Finalize(m: ShardMap, expected: Option<string>): Result {
    if Validate(m).Err? then Validate(m)
    else if expected.Some? && m.topology.id != expected.value then Err("topology changed")
    else if !m.topology.state.Resharding? then Ok(m)
    else Ok(m.(topology := m.topology.(state := Active, source := None)))
  }

  ghost predicate SameRouting(a: ShardMap, b: ShardMap) {
    forall id :: ShardForObject(a.shards.Keys, id) == ShardForObject(b.shards.Keys, id)
  }

  /** A publish that keeps the partition count only edits peers: every object keeps its shard. */
  lemma PublishPeersOnly(current: ShardMap, desired: ShardMap, order: seq<string>, freshId: string)
    requires forall name :: name in order <==> name in desired.shards
    requires current.shards != map[] && Publish(current, desired, order, freshId).Ok?
    requires Signature(current) == Signature(desired)
    ensures var next := Publish(current, desired, order, freshId).shardMap;
            && Validate(next).Ok? && next.topology == current.topology
            && next.shards.Keys == current.shards.Keys && SameRouting(current, next)
            && PeersAssigned(current.shards.Keys, desired.shards, order, next.shards)
  {
    AssignPeersMeans(current.shards.Keys, desired.shards, order);
    hide PeersAssigned, AssignPeers, Sorted;
    SamePeersKeys(current.shards.Keys, desired.shards, order);
  }

  lemma SamePeersKeys(names: set<string>, desired: map<string, Peers>, order: seq<string>)
    ensures AssignPeers(names, desired, order).Keys == names
  {
  }

  /**
   * Any other publish on a non-empty map starts a reshard, and only from an active topology: fresh
   * target names, as many as desired, and the current shards recorded as its source.
   */
  lemma PublishStartsReshard(current: ShardMap, desired: ShardMap, order: seq<string>, freshId: string)
    requires forall name :: name in order <==> name in desired.shards
    requires current.shards != map[] && Publish(current, desired, order, freshId).Ok?
    requires Signature(current) != Signature(desired)
    requires freshId != ""
    requires forall i: nat :: TargetName(freshId, i) !in current.shards
    ensures var next := Publish(current, desired, order, freshId).shardMap;
            && Validate(next).Ok?
            && current.topology.state.Active? && next.topology.state.Resharding?
            && next.topology.source == Some(Source(current.topology.id, current.shards.Keys))
            && next.shards.Keys !! current.shards.Keys
            && next.shards.Keys == TargetNames(freshId, |desired.shards|) && |next.shards| == |desired.shards|
            && PeersAssigned(TargetNames(freshId, |desired.shards|), desired.shards, order, next.shards)
  {
    var names := TargetNames(freshId, |desired.shards|);
    TargetNamesCount(freshId, |desired.shards|);
    FreshNames(freshId, |desired.shards|, current.shards.Keys);
    hide *;
    StartedReshard(current, desired, order, freshId);
    AssignPeersMeans(names, desired.shards, order);
    SamePeersKeys(names, desired.shards, order);
    var next := Publish(current, desired, order, freshId).shardMap;
    assert |next.shards| == |next.shards.Keys|;
    ReshardValid(next);
  }

  lemma StartedReshard(current: ShardMap, desired: ShardMap, order: seq<string>, freshId: string)
    requires forall name :: name in order <==> name in desired.shards
    requires current.shards != map[] && Publish(current, desired, order, freshId).Ok? && Signature(current) != Signature(desired)
    ensures current.topology.state.Active? && current.topology.id != "" && current.shards.Keys != {}
    ensures Publish(current, desired, order, freshId).shardMap ==
            ShardMap(Topology(freshId, Resharding, PARTITIONER, Some(Source(current.topology.id, current.shards.Keys))),
                     AssignPeers(TargetNames(freshId, |desired.shards|), desired.shards, order))
  {
    hide AssignPeers, TargetNames;
  }

  lemma ReshardValid(m: ShardMap)
    requires m.topology.id != "" && m.topology.partitioner == PARTITIONER && m.topology.state.Resharding?
    requires m.topology.source.Some? && m.topology.source.value.id != "" && m.topology.source.value.shards != {}
    requires m.topology.source.value.shards !! m.shards.Keys
    ensures Validate(m).Ok?
  {
  }

  /** Finalizing ends a reshard, keeps every route, and is idempotent. */
  lemma FinalizeRouting(m: ShardMap, expected: Option<string>)
    requires Finalize(m, expected).Ok?
    ensures var final := Finalize(m, expected).shardMap;
            && Validate(final).Ok? && final.topology.state.Active?
            && final.topology.id == m.topology.id
            && SameRouting(m, final)
            && Finalize(final, expected) == Ok(final)
  {
    assert Finalize(m, expected).shardMap.shards == m.shards;
  }
}
