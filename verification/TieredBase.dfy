/**
 * The base rows of a collection in two parts (src/store.js, _tierBaseValue and _hydrateCompressedCold):
 * what stays in the row store and what is compressed beside it.  Whatever the tiering is or becomes,
 * the two parts are one plain map of rows.
 */
module TieredBases {
  import opened Wrappers
  import opened Layout

  /**
   * A row is in two parts if its tiering has something to compress and that is not too small: then
   * every leaf is in the part it belongs to, and else the row is whole.
   */
  ghost predicate Placed(parts: Tiers, base: Value, tiering: Option<Tiering>, forced: seq<string>, small: Value -> bool) {
    if parts.cold.Some? then
      tiering.Some? && Parted(base, parts.hot, parts.cold.value, tiering.value, forced) && !small(parts.cold.value)
    else
      && parts.hot == base
      && (tiering.Some? ==>
            || (forall p: Path | p != [] && LeafAt(base, p).Some? :: HotLeaf(tiering.value, forced, p))
            || (exists part, rest :: Parted(base, rest, part, tiering.value, forced) && small(part)))
  }

  lemma TierPlaces(base: Value, tiering: Option<Tiering>, forced: seq<string>, small: Value -> bool)
    requires base.Obj? && (tiering.Some? ==> PathsOk(base, tiering.value.keep + forced) && PathsOk(base, tiering.value.offload + forced))
    ensures var split := if tiering.Some? then SplitTiered(base, tiering.value, forced) else Tiers(base, None);
            var parts := Tier(base, tiering, forced, split.cold.Some? && small(split.cold.value));
            Placed(parts, base, tiering, forced, small) && Untier(parts) == base
  {
    if tiering.Some? {
      UntierSplit(base, tiering.value, forced);
      SplitParts(base, tiering.value, forced);
      hide SplitTiered, Parted, HotLeaf, LeafAt;
    }
  }

  class TieredBase {
    var hot: map<nat, Value>
    /** Compression itself is left out. */
    var cold: map<nat, Value>
    var tiering: Option<Tiering>
    /** Paths of indexes and columns, which stay hot. */
    var forced: seq<string>
    /** A cold part of less than the configured number of bytes is not split off. */
    const small: Value -> bool

    predicate Valid()
      reads this
    {
      cold.Keys <= hot.Keys
    }

    function PartsOf(rid: nat): Tiers
      reads this
      requires rid in hot
    {
      Tiers(hot[rid], if rid in cold then Some(cold[rid]) else None)
    }

    /** The plain map the two parts stand for. */
    function Contents(): (base: map<nat, Value>)
      reads this
      ensures base.Keys == hot.Keys
    {
      map rid | rid in hot :: Untier(PartsOf(rid))
    }

    /** The configured paths meet plain objects only, or nothing is tiered. */
    ghost predicate Tierable(v: Value)
      reads this
    {
      v.Obj? && (tiering.Some? ==> AllPlain(v, tiering.value.keep + forced) && AllPlain(v, tiering.value.offload + forced))
    }

    ghost predicate PlacedRight(rid: nat, base: Value)
      reads this
      requires rid in hot
    {
      Placed(PartsOf(rid), base, tiering, forced, small)
    }

    constructor (small: Value -> bool)
      ensures Valid() && Contents() == map[] && tiering == None && this.small == small
    {
      this.small := small;
      hot, cold, tiering, forced := map[], map[], None, [];
    }

    /** Another tiering leaves the rows as they are stored; each moves when it is next written. */
    method Configure(tiering: Option<Tiering>, forced: seq<string>)
      modifies `tiering, `forced
      ensures Contents() == old(Contents()) && this.tiering == tiering && this.forced == forced
    {
      this.tiering, this.forced := tiering, forced;
    }

    /** Write a row without some paths of its object. */
    method Write(rid: nat, v: Value, stripped: seq<string>)
      requires Valid() && Tierable(v)
      modifies `hot, `cold
      ensures Valid() && Contents() == old(Contents())[rid := UnsetPaths(v, stripped)]
      ensures rid in hot && PlacedRight(rid, UnsetPaths(v, stripped))
    {
      var base := UnsetPaths(v, stripped);
      UnsetPathsIsObject(v, stripped);
      if tiering.Some? {
        PlainPathsOk(v, stripped, tiering.value.keep + forced);
        PlainPathsOk(v, stripped, tiering.value.offload + forced);
      }
      TierPlaces(base, tiering, forced, small);
      hide Untier, Tier, Placed;
      var split := if tiering.Some? then SplitTiered(base, tiering.value, forced) else Tiers(base, None);
      var parts := Tier(base, tiering, forced, split.cold.Some? && small(split.cold.value));
      hot := hot[rid := parts.hot];
      cold := if parts.cold.Some? then cold[rid := parts.cold.value] else cold - {rid};
      assert PartsOf(rid) == parts;
    }

    method Remove(rid: nat)
      requires Valid()
      modifies `hot, `cold
      ensures Valid() && Contents() == old(Contents()) - {rid}
    {
      hot, cold := hot - {rid}, cold - {rid};
    }

    /** The cold part merged under the hot one. */
    method Read(rid: nat) returns (v: Option<Value>)
      ensures v == if rid in Contents() then Some(Contents()[rid]) else None
    {
      v := if rid in hot then Some(Untier(PartsOf(rid))) else None;
    }
  }
}
