/**
 * How one object is laid out in storage (src/store.js): column paths are stripped from the base
 * row, the rest is split into a hot and a compressed cold part, and reading merges it all back.
 *
 * The proof looks at a value as the set of its leaves.  Each operation shows or hides exactly the
 * leaves under its path, and an object is determined by its leaves.
 */
module Layout {
  import opened Wrappers

  type Path = seq<string>

  // Paths.

  predicate Blank(c: char) {
    c == ' ' || c == '\t' || c == '\n' || c == '\r'
  }

  function TrimStart(s: string): string {
    if s != [] && Blank(s[0]) then TrimStart(s[1..]) else s
  }

  function TrimEnd(s: string): string {
    if s != [] && Blank(s[|s| - 1]) then TrimEnd(s[..|s| - 1]) else s
  }

  function Trim(s: string): string {
    TrimEnd(TrimStart(s))
  }

  /** The segments between dots. */
  function Split(s: string): Path {
    if s == [] then [[]]
    else
      var rest := Split(s[1..]);
      if s[0] == '.' then [[]] + rest else [[s[0]] + (if rest == [] then [] else rest[0])] + (if rest == [] then [] else rest[1..])
  }

  function TrimAll(segments: Path): Path {
    if segments == [] then []
    else
      var part := Trim(segments[0]);
      if part == [] then TrimAll(segments[1..]) else [part] + TrimAll(segments[1..])
  }

  /** The parts by which a path is written and removed: segments trimmed, blank ones dropped. */
  function Parts(path: string): Path {
    TrimAll(Split(path))
  }

  // Reading by the raw segments, as queries do: this also looks into arrays.

  function Digit(c: char): Option<nat> {
    if '0' <= c <= '9' then Some(c as nat - '0' as nat) else None
  }

  /** The number a canonical array index spells. */
  function ArrayIndex(s: string): Option<nat> {
    if s == [] then None
    else if |s| == 1 then Digit(s[0])
    else
      var high, low := ArrayIndex(s[..|s| - 1]), Digit(s[|s| - 1]);
      if high.None? || low.None? || high.value == 0 then None else Some(high.value * 10 + low.value)
  }

  function Property(v: Value, part: string): Option<Value> {
    match v
    case Obj(fields) => if part in fields then Some(fields[part]) else None
    case Arr(items) =>
      if part == "length" then Some(Num(|items|))
      else
        var i := ArrayIndex(part);
        if i.Some? && i.value < |items| then Some(items[i.value]) else None
    case _ => None
  }

  function GetSegments(v: Value, segments: Path): Option<Value>
    decreases segments
  {
    if segments == [] then Some(v)
    else
      var next := Property(v, segments[0]);
      if next.None? then None else GetSegments(next.value, segments[1..])
  }

  function GetPath(v: Value, path: string): Option<Value> {
    GetSegments(v, Split(path))
  }

  // Reading through plain objects only.

  function GetPlain(v: Value, q: Path): Option<Value> {
    if q == [] then Some(v)
    else if v.Obj? && q[0] in v.fields then GetPlain(v.fields[q[0]], q[1..])
    else None
  }

  // Writing and removing.

  function SetParts(v: Value, q: Path, x: Value): Value
    requires q != []
    decreases |q|
  {
    var fields := if v.Obj? then v.fields else map[];
    if |q| == 1 then Obj(fields[q[0] := x])
    else
      var current := if q[0] in fields && fields[q[0]].Obj? then fields[q[0]] else EMPTY_OBJECT;
      Obj(fields[q[0] := SetParts(current, q[1..], x)])
  }

  function SetPath(v: Value, path: string, x: Value): Value {
    var q := Parts(path);
    if q == [] then v else SetParts(v, q, x)
  }

  /** The value without the parts, and whether anything was removed; parents left empty go too. */
  function UnsetParts(v: Value, q: Path): (Value, bool)
    requires q != []
  {
    if !v.Obj? || q[0] !in v.fields then (v, false)
    else if |q| == 1 then (Obj(v.fields - {q[0]}), true)
    else
      var (child, changed) := UnsetParts(v.fields[q[0]], q[1..]);
      if !changed then (v, false)
      else if child == EMPTY_OBJECT then (Obj(v.fields - {q[0]}), true)
      else (Obj(v.fields[q[0] := child]), true)
  }

  function UnsetPath(v: Value, path: string): Value {
    var q := Parts(path);
    if q == [] || !v.Obj? then v else UnsetParts(v, q).0
  }

  function UnsetPaths(v: Value, paths: seq<string>): Value {
    if paths == [] then v else UnsetPath(UnsetPaths(v, paths[..|paths| - 1]), paths[|paths| - 1])
  }

  function PickPaths(v: Value, paths: seq<string>): Value {
    if paths == [] then EMPTY_OBJECT
    else
      var path := paths[|paths| - 1];
      var out, current := PickPaths(v, paths[..|paths| - 1]), GetPath(v, path);
      if current.Some? then SetPath(out, path, current.value) else out
  }

  /** `over` wins, except that two plain objects are merged. */
  function Merge(base: Value, over: Value): Value {
    var fields := if base.Obj? then base.fields else map[];
    if !over.Obj? then Obj(fields)
    else
      Obj(map k | k in fields.Keys + over.fields.Keys ::
            if k !in over.fields then fields[k]
            else if over.fields[k].Obj? && k in fields && fields[k].Obj? then Merge(fields[k], over.fields[k])
            else over.fields[k])
  }

  // Tiering.

  datatype Tiering = Tiering(keep: seq<string>, offload: seq<string>)

  datatype Tiers = Tiers(hot: Value, cold: Option<Value>)

  /** Forced paths (indexes and columns) move from the cold part to the hot one. */
  function Force(v: Value, hot: Value, cold: Value, forced: seq<string>): (Value, Value) {
    if forced == [] then (hot, cold)
    else
      var path := forced[|forced| - 1];
      var (h, c) := Force(v, hot, cold, forced[..|forced| - 1]);
      var current := GetPath(v, path);
      if current.None? then (h, c) else (SetPath(h, path, current.value), UnsetPath(c, path))
  }

  function SplitTiered(v: Value, tiering: Tiering, forced: seq<string>): Tiers {
    if !v.Obj? then Tiers(v, None)
    else if tiering.keep != [] then
      var hotPaths := tiering.keep + forced;
      var cold := UnsetPaths(v, hotPaths);
      if cold == EMPTY_OBJECT then Tiers(v, None) else Tiers(PickPaths(v, hotPaths), Some(cold))
    else if tiering.offload == [] then Tiers(v, None)
    else
      var (hot, cold) := Force(v, UnsetPaths(v, tiering.offload), PickPaths(v, tiering.offload), forced);
      if cold == EMPTY_OBJECT then Tiers(v, None) else Tiers(hot, Some(cold))
  }

  /** A small cold part is not worth compressing: the value is stored whole. */
  function Tier(v: Value, tiering: Option<Tiering>, forced: seq<string>, small: bool): Tiers {
    if tiering.None? then Tiers(v, None)
    else
      var split := SplitTiered(v, tiering.value, forced);
      if split.cold.None? || small then Tiers(v, None) else split
  }

  function Untier(t: Tiers): Value {
    if t.cold.None? then t.hot else Merge(t.cold.value, t.hot)
  }

  /** Reading: each column that has a value for the row writes it back. */
  function SetColumns(base: Value, v: Value, columns: seq<string>): Value {
    if columns == [] then base
    else
      var path := columns[|columns| - 1];
      var out, current := SetColumns(base, v, columns[..|columns| - 1]), GetPath(v, path);
      if current.None? then out else SetPath(out, path, current.value)
  }

  function Store(v: Value, columns: seq<string>, tiering: Option<Tiering>, forced: seq<string>, small: bool): Tiers {
    Tier(UnsetPaths(v, columns), tiering, forced, small)
  }

  function Load(t: Tiers, v: Value, columns: seq<string>): Value {
    SetColumns(Untier(t), v, columns)
  }

  // Leaves.

  /** What is stored at `p` if that is a leaf: a scalar, an array or an empty object. */
  function LeafAt(v: Value, p: Path): Option<Value> {
    if p == [] then (if v.Obj? && v != EMPTY_OBJECT then None else Some(v))
    else if v.Obj? && p[0] in v.fields then LeafAt(v.fields[p[0]], p[1..])
    else None
  }

  /** Some leaf of a value. */
  ghost function AnyLeaf(v: Value): (p: Path)
    ensures LeafAt(v, p).Some?
    ensures v != EMPTY_OBJECT && v.Obj? ==> p != []
  {
    if v.Obj? && v != EMPTY_OBJECT then
      assert v.fields != map[];
      var k :| k in v.fields;
      [k] + AnyLeaf(v.fields[k])
    else []
  }

  /** A value is determined by its leaves. */
  lemma {:induction false} LeavesDetermine(a: Value, b: Value)
    requires forall p :: LeafAt(a, p) == LeafAt(b, p)
    ensures a == b
    decreases a, 1
  {
    assert LeafAt(a, []) == LeafAt(b, []);
    if a.Obj? && a != EMPTY_OBJECT {
      assert b.Obj?;
      SameFields(a, b);
    }
  }

  lemma {:induction false} SameFields(a: Value, b: Value)
    requires a.Obj? && b.Obj?
    requires forall p | p != [] :: LeafAt(a, p) == LeafAt(b, p)
    ensures a == b
    decreases a, 0
  {
    forall k ensures k in a.fields <==> k in b.fields {
      if k in a.fields {
        var p := [k] + AnyLeaf(a.fields[k]);
        assert LeafAt(a, p) == LeafAt(b, p);
      }
      if k in b.fields {
        var p := [k] + AnyLeaf(b.fields[k]);
        assert LeafAt(a, p) == LeafAt(b, p);
      }
    }
    forall k | k in a.fields ensures a.fields[k] == b.fields[k] {
      forall p ensures LeafAt(a.fields[k], p) == LeafAt(b.fields[k], p) {
        assert ([k] + p)[1..] == p;
        assert LeafAt(a, [k] + p) == LeafAt(b, [k] + p);
      }
      LeavesDetermine(a.fields[k], b.fields[k]);
    }
  }

  predicate Under(q: Path, p: Path) {
    q <= p
  }

  lemma {:induction false} LeafUnder(v: Value, q: Path, p: Path)
    requires Under(q, p)
    ensures LeafAt(v, p) == if GetPlain(v, q).Some? then LeafAt(GetPlain(v, q).value, p[|q|..]) else None
  {
    if q != [] && v.Obj? && q[0] in v.fields {
      assert p[1..][|q[1..]|..] == p[|q|..];
      LeafUnder(v.fields[q[0]], q[1..], p[1..]);
    }
  }

  /** Removing hides exactly the leaves under the path. */
  lemma {:induction false} UnsetLeaf(v: Value, q: Path, p: Path)
    requires v.Obj? && q != [] && p != []
    ensures UnsetParts(v, q).0.Obj?
    decreases v, 0
    ensures LeafAt(UnsetParts(v, q).0, p) == if Under(q, p) then None else LeafAt(v, p)
  {
    if q[0] in v.fields && p[0] == q[0] && |q| > 1 {
      var child := v.fields[q[0]];
      if child.Obj? {
        UnsetLeafInside(child, q[1..], p[1..]);
      }
      assert Under(q, p) <==> Under(q[1..], p[1..]);
    }
  }

  lemma {:induction false} UnsetLeafInside(v: Value, q: Path, p: Path)
    requires v.Obj? && q != []
    ensures UnsetParts(v, q).0.Obj?
    ensures UnsetParts(v, q).1 ==> v != EMPTY_OBJECT
    ensures !UnsetParts(v, q).1 ==> UnsetParts(v, q).0 == v
    ensures p != [] ==> LeafAt(UnsetParts(v, q).0, p) == if Under(q, p) then None else LeafAt(v, p)
    decreases v, 1
  {
    if p != [] {
      UnsetLeaf(v, q, p);
    }
    if q[0] in v.fields && |q| > 1 && v.fields[q[0]].Obj? {
      UnsetLeafInside(v.fields[q[0]], q[1..], []);
    }
  }

  // Views: the leaves of `v` on the paths `d`, and no others.

  ghost predicate Shows(o: Value, v: Value, d: iset<Path>) {
    && o.Obj? && v.Obj?
    && forall p {:trigger LeafAt(o, p)} | p != [] :: LeafAt(o, p) == if p in d then LeafAt(v, p) else None
  }

  ghost function Below(q: Path): iset<Path> {
    iset p: Path | Under(q, p)
  }

  lemma ShowsAll(o: Value, v: Value, d: iset<Path>)
    requires Shows(o, v, d) && forall p: Path | LeafAt(v, p).Some? && p != [] :: p in d
    ensures o == v
  {
    forall p | p != [] ensures LeafAt(o, p) == LeafAt(v, p) {}
    SameFields(o, v);
  }

  lemma UnsetShows(o: Value, v: Value, d: iset<Path>, q: Path)
    requires Shows(o, v, d) && q != []
    ensures Shows(UnsetParts(o, q).0, v, d - Below(q))
  {
    UnsetLeafInside(o, q, []);
    forall p | p != []
      ensures LeafAt(UnsetParts(o, q).0, p) == if p in d - Below(q) then LeafAt(v, p) else None
    {
      UnsetLeaf(o, q, p);
    }
  }

  /** Writing shows the new leaves under the path; a leaf at a parent gives way to an object. */
  lemma {:induction false} SetLeaf(o: Value, q: Path, x: Value, p: Path)
    requires q != [] && p != []
    ensures SetParts(o, q, x).Obj? && SetParts(o, q, x) != EMPTY_OBJECT
    ensures LeafAt(SetParts(o, q, x), p) ==
            if Under(q, p) then LeafAt(x, p[|q|..]) else if Under(p, q) then None else LeafAt(o, p)
    decreases |q|
  {
    var fields := if o.Obj? then o.fields else map[];
    var out := SetParts(o, q, x);
    assert q[0] in out.fields;
    if |q| > 1 {
      var current := if q[0] in fields && fields[q[0]].Obj? then fields[q[0]] else EMPTY_OBJECT;
      SetLeaf(current, q[1..], x, q[1..]);
      if p[0] == q[0] {
        assert Under(q, p) <==> Under(q[1..], p[1..]);
        assert Under(p, q) <==> Under(p[1..], q[1..]);
        if |p| > 1 {
          SetLeaf(current, q[1..], x, p[1..]);
          if Under(q, p) {
            assert p[1..][|q[1..]|..] == p[|q|..];
          }
        }
      }
    } else if p[0] == q[0] {
      assert p[1..] == p[|q|..];
    }
  }

  /** No leaf of `v` sits at a proper parent of something inside it. */
  lemma {:induction false} NoLeafAbove(v: Value, q: Path, p: Path)
    requires GetPlain(v, q).Some? && Under(p, q) && p != q
    ensures LeafAt(v, p) == None
  {
    if p != [] {
      NoLeafAbove(v.fields[q[0]], q[1..], p[1..]);
    }
  }

  lemma SetShows(o: Value, v: Value, d: iset<Path>, q: Path)
    requires Shows(o, v, d) && q != [] && GetPlain(v, q).Some?
    ensures Shows(SetParts(o, q, GetPlain(v, q).value), v, d + Below(q))
  {
    var x := GetPlain(v, q).value;
    SetLeaf(o, q, x, q);
    forall p | p != []
      ensures LeafAt(SetParts(o, q, x), p) == if p in d + Below(q) then LeafAt(v, p) else None
    {
      SetLeaf(o, q, x, p);
      if Under(q, p) {
        LeafUnder(v, q, p);
      } else if Under(p, q) {
        NoLeafAbove(v, q, p);
      }
    }
  }

  lemma AbsentShows(o: Value, v: Value, d: iset<Path>, q: Path)
    requires Shows(o, v, d) && GetPlain(v, q).None?
    ensures Shows(o, v, d + Below(q)) && Shows(o, v, d - Below(q))
  {
    forall p | p != [] && Under(q, p) ensures LeafAt(v, p) == None {
      LeafUnder(v, q, p);
    }
  }

  // Merging.

  ghost predicate Within(o: Value, v: Value) {
    forall p {:trigger LeafAt(o, p)} :: LeafAt(o, p).Some? ==> LeafAt(o, p) == LeafAt(v, p)
  }

  lemma WithinField(o: Value, v: Value, k: string)
    requires o.Obj? && k in o.fields && forall p {:trigger LeafAt(o, p)} | p != [] && LeafAt(o, p).Some? :: LeafAt(o, p) == LeafAt(v, p)
    ensures v.Obj? && k in v.fields && Within(o.fields[k], v.fields[k])
  {
    var any := AnyLeaf(o.fields[k]);
    assert ([k] + any)[1..] == any;
    assert LeafAt(o, [k] + any).Some?;
    forall p | LeafAt(o.fields[k], p).Some? ensures LeafAt(o.fields[k], p) == LeafAt(v.fields[k], p) {
      assert ([k] + p)[1..] == p;
      assert LeafAt(o, [k] + p) == LeafAt(o.fields[k], p);
    }
  }

  /** Two parts of one value: a leaf in either is all there is of the value at that place. */
  lemma WithinLeaf(o: Value, v: Value)
    requires Within(o, v)
    ensures !o.Obj? || o == EMPTY_OBJECT ==> v == o
    ensures o.Obj? && o != EMPTY_OBJECT ==> v.Obj? && v != EMPTY_OBJECT
  {
    if !o.Obj? || o == EMPTY_OBJECT {
      assert LeafAt(o, []) == Some(o);
    } else {
      var p := AnyLeaf(o);
      assert LeafAt(o, p).Some?;
    }
  }

  lemma {:induction false} MergeLeaf(c: Value, h: Value, v: Value, p: Path)
    requires c.Obj? && h.Obj? && Within(c, v) && Within(h, v)
    ensures LeafAt(Merge(c, h), p) == if LeafAt(h, p).Some? then LeafAt(h, p) else LeafAt(c, p)
    decreases p
  {
    WithinLeaf(c, v);
    WithinLeaf(h, v);
    if p == [] {
      if v == EMPTY_OBJECT {
        assert Merge(c, h).fields == map[];
      } else {
        MergeNotEmpty(c, h);
      }
    } else {
      MergeField(c, h, v, p);
    }
  }

  lemma MergeNotEmpty(c: Value, h: Value)
    requires c.Obj? && h.Obj? && h != EMPTY_OBJECT
    ensures Merge(c, h) != EMPTY_OBJECT
  {
    assert h.fields != map[];
    var k :| k in h.fields;
    assert k in Merge(c, h).fields;
  }

  lemma MergeField(c: Value, h: Value, v: Value, p: Path)
    requires c.Obj? && h.Obj? && p != []
    requires forall r {:trigger LeafAt(c, r)} | r != [] && LeafAt(c, r).Some? :: LeafAt(c, r) == LeafAt(v, r)
    requires forall r {:trigger LeafAt(h, r)} | r != [] && LeafAt(h, r).Some? :: LeafAt(h, r) == LeafAt(v, r)
    ensures LeafAt(Merge(c, h), p) == if LeafAt(h, p).Some? then LeafAt(h, p) else LeafAt(c, p)
    decreases p, 0
  {
    var k := p[0];
    if k in c.fields && k in h.fields {
      WithinField(c, v, k);
      WithinField(h, v, k);
      WithinLeaf(c.fields[k], v.fields[k]);
      WithinLeaf(h.fields[k], v.fields[k]);
      if h.fields[k].Obj? && c.fields[k].Obj? {
        MergeLeaf(c.fields[k], h.fields[k], v.fields[k], p[1..]);
      }
    }
  }

  lemma MergeShows(c: Value, h: Value, v: Value, cd: iset<Path>, hd: iset<Path>)
    requires Shows(c, v, cd) && Shows(h, v, hd)
    ensures Shows(Merge(c, h), v, cd + hd)
  {
    forall p | p != []
      ensures LeafAt(Merge(c, h), p) == if p in cd + hd then LeafAt(v, p) else None
    {
      MergeField(c, h, v, p);
    }
  }

  // Lists of paths.

  ghost function Cover(paths: seq<string>): iset<Path> {
    if paths == [] then iset{}
    else Cover(paths[..|paths| - 1]) + (if Parts(paths[|paths| - 1]) == [] then iset{} else Below(Parts(paths[|paths| - 1])))
  }

  /** Reading by raw segments finds what lies at the trimmed parts through plain objects. */
  predicate PathOk(v: Value, path: string) {
    Parts(path) == [] || GetPath(v, path) == GetPlain(v, Parts(path))
  }

  predicate PathsOk(v: Value, paths: seq<string>) {
    forall path | path in paths :: PathOk(v, path)
  }

  lemma LastOk(v: Value, paths: seq<string>)
    requires paths != [] && PathsOk(v, paths)
    ensures PathsOk(v, paths[..|paths| - 1]) && PathOk(v, paths[|paths| - 1])
  {
    assert paths[|paths| - 1] in paths;
  }

  lemma {:induction false} UnsetPathsShow(o: Value, v: Value, d: iset<Path>, paths: seq<string>)
    requires Shows(o, v, d)
    ensures Shows(UnsetPaths(o, paths), v, d - Cover(paths))
  {
    if paths != [] {
      var front, q := paths[..|paths| - 1], Parts(paths[|paths| - 1]);
      UnsetPathsShow(o, v, d, front);
      if q != [] {
        UnsetShows(UnsetPaths(o, front), v, d - Cover(front), q);
        assert d - Cover(front) - Below(q) == d - Cover(paths);
      } else {
        assert Cover(paths) == Cover(front);
      }
    } else {
      assert d - Cover(paths) == d;
    }
  }

  /** Writing a path of `v`, if `v` has one there, shows that path. */
  lemma SetPathShows(o: Value, v: Value, d: iset<Path>, path: string)
    requires Shows(o, v, d) && PathOk(v, path)
    ensures var current := GetPath(v, path);
            Shows(if current.Some? then SetPath(o, path, current.value) else o, v, d + Cover([path]))
  {
    var q := Parts(path);
    assert Cover([path]) == if q == [] then iset{} else Below(q) by {
      assert [path][..0] == [];
    }
    if q == [] {
      assert d + Cover([path]) == d;
    } else if GetPlain(v, q).Some? {
      SetShows(o, v, d, q);
    } else {
      AbsentShows(o, v, d, q);
    }
  }

  lemma CoverLast(paths: seq<string>)
    requires paths != []
    ensures Cover(paths) == Cover(paths[..|paths| - 1]) + Cover([paths[|paths| - 1]])
  {
    assert [paths[|paths| - 1]][..0] == [];
  }

  lemma {:induction false} SetColumnsShow(base: Value, v: Value, d: iset<Path>, columns: seq<string>)
    requires Shows(base, v, d) && PathsOk(v, columns)
    ensures Shows(SetColumns(base, v, columns), v, d + Cover(columns))
  {
    if columns != [] {
      var front, path := columns[..|columns| - 1], columns[|columns| - 1];
      LastOk(v, columns);
      SetColumnsShow(base, v, d, front);
      SetPathShows(SetColumns(base, v, front), v, d + Cover(front), path);
      CoverLast(columns);
      assert d + Cover(front) + Cover([path]) == d + Cover(columns);
    } else {
      assert d + Cover(columns) == d;
    }
  }

  lemma {:induction false} PickIsSet(v: Value, paths: seq<string>)
    ensures PickPaths(v, paths) == SetColumns(EMPTY_OBJECT, v, paths)
  {
    if paths != [] {
      PickIsSet(v, paths[..|paths| - 1]);
    }
  }

  lemma PickPathsShow(v: Value, paths: seq<string>)
    requires v.Obj? && PathsOk(v, paths)
    ensures Shows(PickPaths(v, paths), v, Cover(paths))
  {
    assert Shows(EMPTY_OBJECT, v, iset{});
    PickIsSet(v, paths);
    SetColumnsShow(EMPTY_OBJECT, v, iset{}, paths);
    assert iset{} + Cover(paths) == Cover(paths);
  }

  lemma {:induction false} ForceShows(v: Value, hot: Value, cold: Value, hd: iset<Path>, cd: iset<Path>, forced: seq<string>)
    requires Shows(hot, v, hd) && Shows(cold, v, cd) && PathsOk(v, forced)
    ensures Shows(Force(v, hot, cold, forced).0, v, hd + Cover(forced))
    ensures Shows(Force(v, hot, cold, forced).1, v, cd - Cover(forced))
  {
    if forced != [] {
      var front, path := forced[..|forced| - 1], forced[|forced| - 1];
      LastOk(v, forced);
      ForceShows(v, hot, cold, hd, cd, front);
      var (h, c) := Force(v, hot, cold, front);
      SetPathShows(h, v, hd + Cover(front), path);
      CoverLast(forced);
      assert hd + Cover(front) + Cover([path]) == hd + Cover(forced);
      HidePath(v, c, cd - Cover(front), path);
      assert cd - Cover(front) - Cover([path]) == cd - Cover(forced);
    } else {
      assert hd + Cover(forced) == hd && cd - Cover(forced) == cd;
    }
  }

  lemma HidePath(v: Value, c: Value, d: iset<Path>, path: string)
    requires Shows(c, v, d) && PathOk(v, path)
    ensures Shows(if GetPath(v, path).None? then c else UnsetPath(c, path), v, d - Cover([path]))
  {
    var q := Parts(path);
    assert Cover([path]) == if q == [] then iset{} else Below(q) by {
      assert [path][..0] == [];
    }
    if q == [] {
      assert d - Cover([path]) == d;
    } else if GetPath(v, path).None? {
      AbsentShows(c, v, d, q);
    } else {
      UnsetShows(c, v, d, q);
    }
  }

  ghost function Everything(): iset<Path> {
    iset p: Path | Under([], p)
  }

  lemma {:induction false} UnsetPathsIsObject(v: Value, paths: seq<string>)
    requires v.Obj?
    ensures UnsetPaths(v, paths).Obj?
  {
    if paths != [] {
      UnsetPathsIsObject(v, paths[..|paths| - 1]);
    }
  }

  /** Splitting and merging back is the identity, whatever the paths, overlapping or not. */
  lemma UntierSplit(v: Value, tiering: Tiering, forced: seq<string>)
    requires v.Obj? && PathsOk(v, tiering.keep + forced) && PathsOk(v, tiering.offload + forced)
    ensures Untier(SplitTiered(v, tiering, forced)) == v
  {
    var all := Everything();
    assert Shows(v, v, all);
    if tiering.keep != [] {
      var paths := tiering.keep + forced;
      UnsetPathsShow(v, v, all, paths);
      PickPathsShow(v, paths);
      MergeShows(UnsetPaths(v, paths), PickPaths(v, paths), v, all - Cover(paths), Cover(paths));
      ShowsAll(Merge(UnsetPaths(v, paths), PickPaths(v, paths)), v, all - Cover(paths) + Cover(paths));
    } else if tiering.offload != [] {
      var off := Cover(tiering.offload);
      assert PathsOk(v, tiering.offload) && PathsOk(v, forced);
      UnsetPathsShow(v, v, all, tiering.offload);
      PickPathsShow(v, tiering.offload);
      ForceShows(v, UnsetPaths(v, tiering.offload), PickPaths(v, tiering.offload), all - off, off, forced);
      var (hot, cold) := Force(v, UnsetPaths(v, tiering.offload), PickPaths(v, tiering.offload), forced);
      MergeShows(cold, hot, v, off - Cover(forced), all - off + Cover(forced));
      ShowsAll(Merge(cold, hot), v, off - Cover(forced) + (all - off + Cover(forced)));
    }
  }

  // What goes where.

  /** The leaf lies at or under one of the paths. */
  predicate Covered(paths: seq<string>, p: Path) {
    exists i {:trigger paths[i]} :: 0 <= i < |paths| && Parts(paths[i]) != [] && Parts(paths[i]) <= p
  }

  lemma {:induction false} CoverIs(paths: seq<string>, p: Path)
    ensures p in Cover(paths) <==> Covered(paths, p)
  {
    hide Parts;
    if paths != [] {
      var n := |paths| - 1;
      CoverIs(paths[..n], p);
      if i :| 0 <= i < n && Parts(paths[..n][i]) != [] && Parts(paths[..n][i]) <= p {
        assert paths[i] == paths[..n][i];
      }
      if i :| 0 <= i < |paths| && Parts(paths[i]) != [] && Parts(paths[i]) <= p {
        assert i < n ==> paths[..n][i] == paths[i];
      }
    }
  }

  /** Stripping leaves exactly the leaves that no path covers. */
  lemma StrippedLeaf(v: Value, paths: seq<string>, p: Path)
    requires v.Obj? && p != []
    ensures UnsetPaths(v, paths).Obj? && LeafAt(UnsetPaths(v, paths), p) == if Covered(paths, p) then None else LeafAt(v, p)
  {
    assert Shows(v, v, Everything());
    UnsetPathsShow(v, v, Everything(), paths);
    CoverIs(paths, p);
  }

  /** Kept and forced leaves stay hot; without a list of kept paths, so do all that are not offloaded. */
  predicate HotLeaf(tiering: Tiering, forced: seq<string>, p: Path) {
    if tiering.keep != [] then Covered(tiering.keep + forced, p)
    else !Covered(tiering.offload, p) || Covered(forced, p)
  }

  /** Every leaf is in its part and in no other. */
  ghost predicate Parted(v: Value, hot: Value, cold: Value, tiering: Tiering, forced: seq<string>) {
    && hot.Obj? && cold.Obj?
    && forall p: Path {:trigger LeafAt(hot, p)} {:trigger LeafAt(cold, p)} | p != [] ::
         if HotLeaf(tiering, forced, p) then LeafAt(hot, p) == LeafAt(v, p) && LeafAt(cold, p) == None
         else LeafAt(hot, p) == None && LeafAt(cold, p) == LeafAt(v, p)
  }

  lemma PartedBy(v: Value, hot: Value, cold: Value, tiering: Tiering, forced: seq<string>, hd: iset<Path>, cd: iset<Path>)
    requires Shows(hot, v, hd) && Shows(cold, v, cd)
    requires forall p: Path | p != [] :: (p in hd <==> HotLeaf(tiering, forced, p)) && (p in cd <==> !HotLeaf(tiering, forced, p))
    ensures Parted(v, hot, cold, tiering, forced)
  {
    hide HotLeaf, LeafAt;
  }

  /** A split parts the leaves; there is none when every leaf is hot. */
  lemma SplitParts(v: Value, tiering: Tiering, forced: seq<string>)
    requires v.Obj? && PathsOk(v, tiering.keep + forced) && PathsOk(v, tiering.offload + forced)
    ensures var split := SplitTiered(v, tiering, forced);
            if split.cold.Some? then Parted(v, split.hot, split.cold.value, tiering, forced) && split.cold.value != EMPTY_OBJECT
            else split.hot == v && forall p: Path | p != [] && LeafAt(v, p).Some? :: HotLeaf(tiering, forced, p)
  {
    var all := Everything();
    assert Shows(v, v, all);
    if tiering.keep != [] {
      var paths := tiering.keep + forced;
      UnsetPathsShow(v, v, all, paths);
      PickPathsShow(v, paths);
      forall p: Path ensures p in Cover(paths) <==> Covered(paths, p) {
        CoverIs(paths, p);
      }
      hide UnsetPaths, PickPaths, Cover, Covered, PathsOk;
      PartedBy(v, PickPaths(v, paths), UnsetPaths(v, paths), tiering, forced, Cover(paths), all - Cover(paths));
      EmptyPart(v, UnsetPaths(v, paths), tiering, forced, all - Cover(paths));
    } else if tiering.offload != [] {
      OffloadParts(v, tiering, forced);
    } else {
      forall p: Path ensures !Covered([], p) {}
    }
  }

  lemma EmptyPart(v: Value, cold: Value, tiering: Tiering, forced: seq<string>, cd: iset<Path>)
    requires Shows(cold, v, cd) && forall p: Path | p != [] :: (p in cd <==> !HotLeaf(tiering, forced, p))
    ensures cold == EMPTY_OBJECT ==> forall p: Path | p != [] && LeafAt(v, p).Some? :: HotLeaf(tiering, forced, p)
  {
    hide HotLeaf;
    if cold == EMPTY_OBJECT {
      forall p: Path | p != [] && LeafAt(v, p).Some? ensures HotLeaf(tiering, forced, p) {
        assert LeafAt(cold, p) == None;
      }
    }
  }

  lemma OffloadParts(v: Value, tiering: Tiering, forced: seq<string>)
    requires v.Obj? && PathsOk(v, tiering.offload + forced) && tiering.keep == [] && tiering.offload != []
    ensures var (hot, cold) := Force(v, UnsetPaths(v, tiering.offload), PickPaths(v, tiering.offload), forced);
            && Parted(v, hot, cold, tiering, forced)
            && (cold == EMPTY_OBJECT ==> forall p: Path | p != [] && LeafAt(v, p).Some? :: HotLeaf(tiering, forced, p))
  {
    var all, off := Everything(), Cover(tiering.offload);
    assert Shows(v, v, all);
    assert PathsOk(v, tiering.offload) && PathsOk(v, forced);
    UnsetPathsShow(v, v, all, tiering.offload);
    PickPathsShow(v, tiering.offload);
    ForceShows(v, UnsetPaths(v, tiering.offload), PickPaths(v, tiering.offload), all - off, off, forced);
    forall p: Path ensures (p in off <==> Covered(tiering.offload, p)) && (p in Cover(forced) <==> Covered(forced, p)) {
      CoverIs(tiering.offload, p);
      CoverIs(forced, p);
    }
    hide UnsetPaths, PickPaths, Cover, Covered, PathsOk, Force, Shows;
    var (hot, cold) := Force(v, UnsetPaths(v, tiering.offload), PickPaths(v, tiering.offload), forced);
    PartedBy(v, hot, cold, tiering, forced, all - off + Cover(forced), off - Cover(forced));
    EmptyPart(v, cold, tiering, forced, off - Cover(forced));
  }

  /**
   * The layout round trip: strip the columns, split hot from cold, merge, write the columns back.
   * Any object comes back unchanged, for any lists of paths that read what they name.
   */
  lemma LayoutRoundTrip(v: Value, columns: seq<string>, tiering: Option<Tiering>, forced: seq<string>, small: bool)
    requires v.Obj? && PathsOk(v, columns)
    requires var base := UnsetPaths(v, columns);
             tiering.Some? ==> PathsOk(base, tiering.value.keep + forced) && PathsOk(base, tiering.value.offload + forced)
    ensures Load(Store(v, columns, tiering, forced, small), v, columns) == v
  {
    var base, all := UnsetPaths(v, columns), Everything();
    assert Shows(v, v, all);
    UnsetPathsShow(v, v, all, columns);
    if tiering.Some? {
      UntierSplit(base, tiering.value, forced);
    }
    SetColumnsShow(base, v, all - Cover(columns), columns);
    ShowsAll(SetColumns(base, v, columns), v, all - Cover(columns) + Cover(columns));
  }

  /** A stored base: leaves of `v` only, and all of them outside the paths kept in columns. */
  ghost predicate Rest(base: Value, v: Value, paths: seq<string>) {
    exists d :: Shows(base, v, d) && Outside(v, d, paths)
  }

  /** Every leaf of `v` outside the paths is on `d`. */
  ghost predicate Outside(v: Value, d: iset<Path>, paths: seq<string>) {
    forall p: Path | p != [] && LeafAt(v, p).Some? && p !in Cover(paths) :: p in d
  }

  /** Columns that hold the rest bring the object back. */
  lemma RestLoads(base: Value, v: Value, paths: seq<string>)
    requires Rest(base, v, paths) && PathsOk(v, paths)
    ensures SetColumns(base, v, paths) == v
  {
    var d :| Shows(base, v, d) && Outside(v, d, paths);
    SetColumnsShow(base, v, d, paths);
    ShowsAll(SetColumns(base, v, paths), v, d + Cover(paths));
  }

  lemma {:induction false} CoverGrows(a: seq<string>, b: seq<string>)
    requires forall path | path in a :: path in b
    ensures Cover(a) <= Cover(b)
  {
    if a != [] {
      assert a == a[..|a| - 1] + [a[|a| - 1]];
      CoverGrows(a[..|a| - 1], b);
      CoverOne(a[|a| - 1], b);
    }
  }

  lemma {:induction false} CoverOne(path: string, b: seq<string>)
    requires path in b
    ensures Parts(path) != [] ==> Below(Parts(path)) <= Cover(b)
  {
    if b[|b| - 1] != path {
      assert b == b[..|b| - 1] + [b[|b| - 1]];
      CoverOne(path, b[..|b| - 1]);
    }
  }

  /** Removing some of the column paths, or none, leaves a rest. */
  lemma RestOfStripped(v: Value, stripped: seq<string>, paths: seq<string>)
    requires v.Obj? && forall path | path in stripped :: path in paths
    ensures Rest(UnsetPaths(v, stripped), v, paths)
  {
    var all := Everything();
    assert Shows(v, v, all);
    UnsetPathsShow(v, v, all, stripped);
    CoverGrows(stripped, paths);
    assert Outside(v, all - Cover(stripped), paths);
  }

  lemma RestWeakens(base: Value, v: Value, paths: seq<string>, more: seq<string>)
    requires Rest(base, v, paths) && forall path | path in paths :: path in more
    ensures Rest(base, v, more)
  {
    var d :| Shows(base, v, d) && Outside(v, d, paths);
    CoverGrows(paths, more);
    assert Outside(v, d, more);
  }

  // When paths read what they name.

  predicate Canonical(path: string) {
    Split(path) == Parts(path)
  }

  /** No array lies on the way along `q`. */
  predicate NoArrayOn(v: Value, q: Path)
    decreases q
  {
    q != [] ==> !v.Arr? && (v.Obj? && q[0] in v.fields ==> NoArrayOn(v.fields[q[0]], q[1..]))
  }

  lemma {:induction false} PlainReads(v: Value, q: Path)
    requires NoArrayOn(v, q)
    ensures GetSegments(v, q) == GetPlain(v, q)
    decreases q
  {
    if q != [] && v.Obj? && q[0] in v.fields {
      PlainReads(v.fields[q[0]], q[1..]);
    }
  }

  lemma {:induction false} UnsetKeepsPlain(v: Value, r: Path, q: Path)
    requires r != [] && NoArrayOn(v, q)
    ensures NoArrayOn(UnsetParts(v, r).0, q)
    decreases q
  {
    if q != [] && v.Obj? && q[0] == r[0] && q[0] in v.fields && |r| > 1 {
      UnsetKeepsPlain(v.fields[q[0]], r[1..], q[1..]);
    }
  }

  lemma {:induction false} UnsetPathsKeepsPlain(v: Value, paths: seq<string>, q: Path)
    requires NoArrayOn(v, q)
    ensures NoArrayOn(UnsetPaths(v, paths), q)
  {
    if paths != [] {
      UnsetPathsKeepsPlain(v, paths[..|paths| - 1], q);
      if Parts(paths[|paths| - 1]) != [] {
        UnsetKeepsPlain(UnsetPaths(v, paths[..|paths| - 1]), Parts(paths[|paths| - 1]), q);
      }
    }
  }

  ghost predicate Plain(v: Value, path: string) {
    Canonical(path) && NoArrayOn(v, Parts(path))
  }

  ghost predicate AllPlain(v: Value, paths: seq<string>) {
    forall path {:trigger Plain(v, path)} | path in paths :: Plain(v, path)
  }

  lemma PlainPathsOk(v: Value, stripped: seq<string>, paths: seq<string>)
    requires AllPlain(v, paths)
    ensures PathsOk(UnsetPaths(v, stripped), paths)
  {
    forall path | path in paths ensures PathOk(UnsetPaths(v, stripped), path) {
      assert Plain(v, path);
      UnsetPathsKeepsPlain(v, stripped, Parts(path));
      PlainReads(UnsetPaths(v, stripped), Parts(path));
    }
  }

  // Paths that columns cannot disturb.

  /** Neither path leads to the other. */
  predicate Apart(q: Path, c: Path) {
    !Under(q, c) && !Under(c, q)
  }

  lemma PrefixesMeet(a: Path, b: Path, p: Path)
    requires a <= p && b <= p
    ensures a <= b || b <= a
  {
    if |a| <= |b| {
      assert a == p[..|a|] && b[..|a|] == p[..|a|];
    } else {
      assert b == p[..|b|] && a[..|b|] == p[..|b|];
    }
  }

  /** Under `q` the two values have the same leaves; above it the first has none of its own. */
  ghost predicate Alike(o: Value, v: Value, q: Path) {
    && o.Obj?
    && (forall p {:trigger LeafAt(o, p)} | p != [] && Under(q, p) :: LeafAt(o, p) == LeafAt(v, p))
    && (forall a {:trigger LeafAt(o, a)} | a != [] && Under(a, q) && LeafAt(o, a).Some? :: LeafAt(o, a) == LeafAt(v, a))
  }

  /** Writing at a path apart, whatever the value, keeps two values alike. */
  lemma SetApart(o: Value, v: Value, q: Path, c: Path, x: Value)
    requires Alike(o, v, q) && c != [] && Apart(q, c)
    ensures Alike(SetParts(o, c, x), v, q)
  {
    var out := SetParts(o, c, x);
    SetLeaf(o, c, x, c);
    forall p | p != [] && Under(q, p) ensures LeafAt(out, p) == LeafAt(v, p) {
      SetLeaf(o, c, x, p);
      assert LeafAt(o, p) == LeafAt(v, p);
      if Under(c, p) {
        PrefixesMeet(q, c, p);
      }
    }
    forall a | a != [] && Under(a, q) && LeafAt(out, a).Some? ensures LeafAt(out, a) == LeafAt(v, a) {
      SetLeaf(o, c, x, a);
      assert LeafAt(o, a).Some? ==> LeafAt(o, a) == LeafAt(v, a);
    }
  }

  lemma {:induction false} UncoveredWhenApart(q: Path, paths: seq<string>, p: Path)
    requires Under(q, p) && forall path | path in paths :: Parts(path) == [] || Apart(q, Parts(path))
    ensures p !in Cover(paths)
  {
    if paths != [] {
      var n := |paths| - 1;
      assert paths[n] in paths;
      UncoveredWhenApart(q, paths[..n], p);
      if Parts(paths[n]) != [] && Under(Parts(paths[n]), p) {
        PrefixesMeet(q, Parts(paths[n]), p);
      }
    }
  }

  lemma RestAlike(base: Value, v: Value, paths: seq<string>, q: Path)
    requires Rest(base, v, paths) && forall path | path in paths :: Parts(path) == [] || Apart(q, Parts(path))
    ensures Alike(base, v, q)
  {
    var d :| Shows(base, v, d) && Outside(v, d, paths);
    forall p | p != [] && Under(q, p) ensures LeafAt(base, p) == LeafAt(v, p) {
      UncoveredWhenApart(q, paths, p);
    }
  }

  lemma LeafLeads(o: Value, v: Value, q: Path)
    requires GetPlain(o, q).Some? && forall p | Under(q, p) :: LeafAt(o, p) == LeafAt(v, p)
    ensures GetPlain(v, q).Some?
  {
    var p := AnyLeaf(GetPlain(o, q).value);
    assert (q + p)[|q|..] == p && Under(q, q + p);
    LeafUnder(o, q, q + p);
    LeafUnder(v, q, q + p);
  }

  lemma AlikePlain(o: Value, v: Value, q: Path)
    requires Alike(o, v, q) && q != []
    ensures GetPlain(o, q) == GetPlain(v, q)
  {
    if GetPlain(o, q).Some? {
      LeafLeads(o, v, q);
      forall p ensures LeafAt(GetPlain(o, q).value, p) == LeafAt(GetPlain(v, q).value, p) {
        assert (q + p)[|q|..] == p && Under(q, q + p);
        LeafUnder(o, q, q + p);
        LeafUnder(v, q, q + p);
        assert LeafAt(o, q + p) == LeafAt(v, q + p);
      }
      LeavesDetermine(GetPlain(o, q).value, GetPlain(v, q).value);
    } else if GetPlain(v, q).Some? {
      LeafLeads(v, o, q);
    }
  }

  predicate ArrayAt(v: Value, a: Path) {
    LeafAt(v, a).Some? && LeafAt(v, a).value.Arr?
  }

  lemma {:induction false} ArrayOnTheWay(v: Value, q: Path) returns (a: Path)
    requires !NoArrayOn(v, q)
    ensures a <= q && a != q && ArrayAt(v, a)
    decreases q
  {
    if v.Arr? {
      a := [];
    } else {
      var rest := ArrayOnTheWay(v.fields[q[0]], q[1..]);
      a := [q[0]] + rest;
      assert a[1..] == rest && q == [q[0]] + q[1..];
    }
  }

  lemma {:induction false} NoArrayAbove(v: Value, q: Path, a: Path)
    requires NoArrayOn(v, q) && a <= q && a != q
    ensures !ArrayAt(v, a)
    decreases a
  {
    if a != [] && v.Obj? && a[0] in v.fields {
      assert a == [a[0]] + a[1..] && q == [q[0]] + q[1..];
      assert a[1..] <= q[1..] && a[1..] != q[1..];
      NoArrayAbove(v.fields[a[0]], q[1..], a[1..]);
    }
  }

  /** Alike values read the same at a path that meets no array. */
  lemma AlikeReads(o: Value, v: Value, path: string)
    requires Plain(v, path) && Alike(o, v, Parts(path))
    ensures GetPath(o, path) == GetPath(v, path)
  {
    var q := Parts(path);
    SplitNotEmpty(path);
    if !NoArrayOn(o, q) {
      var a := ArrayOnTheWay(o, q);
      assert a != [];
      assert LeafAt(o, a) == LeafAt(v, a);
      NoArrayAbove(v, q, a);
    }
    AlikePlain(o, v, q);
    PlainReads(o, q);
    PlainReads(v, q);
  }

  lemma SplitNotEmpty(s: string)
    ensures Split(s) != []
  {
  }

  lemma RestOfNothing(base: Value, v: Value)
    requires Rest(base, v, [])
    ensures base == v
  {
    var d :| Shows(base, v, d) && Outside(v, d, []);
    ShowsAll(base, v, d);
  }

  /** In particular for all canonical paths that meet no array in the value. */
  lemma CanonicalRoundTrip(v: Value, columns: seq<string>, tiering: Option<Tiering>, forced: seq<string>, small: bool)
    requires v.Obj? && AllPlain(v, columns)
    requires tiering.Some? ==> AllPlain(v, tiering.value.keep + forced) && AllPlain(v, tiering.value.offload + forced)
    ensures Load(Store(v, columns, tiering, forced, small), v, columns) == v
  {
    PlainPathsOk(v, [], columns);
    if tiering.Some? {
      PlainPathsOk(v, columns, tiering.value.keep + forced);
      PlainPathsOk(v, columns, tiering.value.offload + forced);
    }
    LayoutRoundTrip(v, columns, tiering, forced, small);
  }

  /** For one column the condition is exact: the object survives if and only if the path reads what it names. */
  lemma ColumnRoundTripExact(v: Value, path: string)
    requires v.Obj?
    ensures Load(Store(v, [path], None, [], false), v, [path]) == v <==> PathOk(v, path)
  {
    var q := Parts(path);
    assert [path][..0] == [];
    var stripped := UnsetPath(v, path);
    assert UnsetPaths(v, [path]) == UnsetPath(UnsetPaths(v, []), path);
    assert SetColumns(stripped, v, []) == stripped;
    var current := GetPath(v, path);
    var loaded := if current.Some? then SetPath(stripped, path, current.value) else stripped;
    assert Load(Store(v, [path], None, [], false), v, [path]) == loaded;
    if PathOk(v, path) {
      assert PathsOk(v, [path]);
      LayoutRoundTrip(v, [path], None, [], false);
    } else {
      UnsetGone(v, q);
      if current.Some? {
        SetGets(stripped, q, current.value);
      }
    }
  }

  lemma {:induction false} SetElsewhere(o: Value, c: Path, x: Value, q: Path)
    requires c != [] && Apart(q, c)
    ensures GetPlain(SetParts(o, c, x), q) == GetPlain(o, q)
    decreases |c|
  {
    assert q != [];
    if q[0] == c[0] && |c| > 1 {
      var fields := if o.Obj? then o.fields else map[];
      ApartRest(q, c);
      SetElsewhere(if c[0] in fields && fields[c[0]].Obj? then fields[c[0]] else EMPTY_OBJECT, c[1..], x, q[1..]);
    }
  }

  lemma {:induction false} UnsetElsewhere(v: Value, c: Path, q: Path)
    requires c != [] && Apart(q, c)
    ensures GetPlain(UnsetParts(v, c).0, q) == GetPlain(v, q)
    decreases |c|
  {
    assert q != [];
    if q[0] == c[0] && |c| > 1 && v.Obj? && c[0] in v.fields {
      ApartRest(q, c);
      UnsetElsewhere(v.fields[c[0]], c[1..], q[1..]);
    }
  }

  lemma ApartRest(q: Path, c: Path)
    requires q != [] && c != [] && q[0] == c[0] && Apart(q, c)
    ensures Apart(q[1..], c[1..])
  {
    assert q == [q[0]] + q[1..] && c == [c[0]] + c[1..];
  }

  /** No column path lies under another. */
  ghost predicate PairwiseApart(columns: seq<string>) {
    forall i, j | 0 <= i < j < |columns| ::
      Parts(columns[i]) == [] || Parts(columns[j]) == [] || Apart(Parts(columns[i]), Parts(columns[j]))
  }

  ghost predicate ApartFrom(q: Path, columns: seq<string>) {
    forall path | path in columns :: Parts(path) == [] || Apart(q, Parts(path))
  }

  lemma LastApart(columns: seq<string>)
    requires columns != [] && PairwiseApart(columns)
    ensures PairwiseApart(columns[..|columns| - 1])
    ensures Parts(columns[|columns| - 1]) != [] ==> ApartFrom(Parts(columns[|columns| - 1]), columns[..|columns| - 1])
  {
  }

  /** The base shows nothing at a column path. */
  lemma {:induction false} UnsetColumns(v: Value, columns: seq<string>, i: nat)
    requires v.Obj? && PairwiseApart(columns) && i < |columns| && Parts(columns[i]) != []
    ensures GetPlain(UnsetPaths(v, columns), Parts(columns[i])) == None
  {
    var n := |columns| - 1;
    var front, q := columns[..n], Parts(columns[i]);
    UnsetPathsIsObject(v, front);
    LastApart(columns);
    if i == n {
      UnsetGone(UnsetPaths(v, front), q);
    } else {
      UnsetColumns(v, front, i);
      if Parts(columns[n]) != [] {
        UnsetElsewhere(UnsetPaths(v, front), Parts(columns[n]), q);
      }
    }
  }

  /** One column written back shows its value at its own path and changes nothing apart from it. */
  lemma WriteBack(base: Value, v: Value, columns: seq<string>, q: Path)
    requires columns != [] && Parts(columns[|columns| - 1]) != []
    ensures Apart(q, Parts(columns[|columns| - 1])) ==>
              GetPlain(SetColumns(base, v, columns), q) == GetPlain(SetColumns(base, v, columns[..|columns| - 1]), q)
    ensures q == Parts(columns[|columns| - 1]) && GetPath(v, columns[|columns| - 1]).Some? ==>
              GetPlain(SetColumns(base, v, columns), q) == GetPath(v, columns[|columns| - 1])
    ensures q == Parts(columns[|columns| - 1]) && GetPath(v, columns[|columns| - 1]).None? ==>
              GetPlain(SetColumns(base, v, columns), q) == GetPlain(SetColumns(base, v, columns[..|columns| - 1]), q)
  {
    hide GetPath, GetPlain, SetParts;
    var n := |columns| - 1;
    var out := SetColumns(base, v, columns[..n]);
    if GetPath(v, columns[n]).Some? {
      SetGets(out, Parts(columns[n]), GetPath(v, columns[n]).value);
      if Apart(q, Parts(columns[n])) {
        SetElsewhere(out, Parts(columns[n]), GetPath(v, columns[n]).value, q);
      }
    }
  }

  lemma NothingWritten(base: Value, v: Value, columns: seq<string>)
    requires columns != [] && Parts(columns[|columns| - 1]) == []
    ensures SetColumns(base, v, columns) == SetColumns(base, v, columns[..|columns| - 1])
  {
  }

  lemma {:induction false} SetColumnsElsewhere(base: Value, v: Value, columns: seq<string>, q: Path)
    requires ApartFrom(q, columns)
    ensures GetPlain(SetColumns(base, v, columns), q) == GetPlain(base, q)
  {
    hide GetPlain, GetPath, Apart, Parts;
    if columns != [] {
      var n := |columns| - 1;
      assert columns[n] in columns;
      SetColumnsElsewhere(base, v, columns[..n], q);
      if Parts(columns[n]) != [] {
        WriteBack(base, v, columns, q);
      } else {
        NothingWritten(base, v, columns);
      }
    }
  }

  lemma LastShows(base: Value, v: Value, columns: seq<string>)
    requires columns != [] && Parts(columns[|columns| - 1]) != [] && ApartFrom(Parts(columns[|columns| - 1]), columns[..|columns| - 1])
    requires GetPlain(base, Parts(columns[|columns| - 1])) == None
    ensures GetPlain(SetColumns(base, v, columns), Parts(columns[|columns| - 1])) == GetPath(v, columns[|columns| - 1])
  {
    hide *;
    SetColumnsElsewhere(base, v, columns[..|columns| - 1], Parts(columns[|columns| - 1]));
    WriteBack(base, v, columns, Parts(columns[|columns| - 1]));
  }

  /** After the columns are written back, the value shows at each path what its column kept. */
  lemma {:induction false} ColumnsShow(base: Value, v: Value, columns: seq<string>, i: nat)
    requires PairwiseApart(columns) && i < |columns| && Parts(columns[i]) != [] && GetPlain(base, Parts(columns[i])) == None
    ensures GetPlain(SetColumns(base, v, columns), Parts(columns[i])) == GetPath(v, columns[i])
  {
    var n := |columns| - 1;
    LastApart(columns);
    assert i < n && Parts(columns[n]) != [] ==> Apart(Parts(columns[i]), Parts(columns[n]));
    hide *;
    if i == n {
      LastShows(base, v, columns);
    } else {
      ColumnsShow(base, v, columns[..n], i);
      assert columns[..n][i] == columns[i];
      if Parts(columns[n]) != [] {
        WriteBack(base, v, columns, Parts(columns[i]));
      } else {
        NothingWritten(base, v, columns);
      }
    }
  }

  /**
   * For any number of columns of which none lies under another the condition is exact too, tiering
   * included: the object survives if and only if every column path reads what it names.
   */
  lemma ColumnsRoundTripExact(v: Value, columns: seq<string>, tiering: Option<Tiering>, forced: seq<string>, small: bool)
    requires v.Obj? && PairwiseApart(columns)
    requires var base := UnsetPaths(v, columns);
             tiering.Some? ==> PathsOk(base, tiering.value.keep + forced) && PathsOk(base, tiering.value.offload + forced)
    ensures Load(Store(v, columns, tiering, forced, small), v, columns) == v <==> PathsOk(v, columns)
  {
    var base := UnsetPaths(v, columns);
    UnsetPathsIsObject(v, columns);
    if tiering.Some? {
      UntierSplit(base, tiering.value, forced);
    }
    assert Untier(Store(v, columns, tiering, forced, small)) == base;
    if PathsOk(v, columns) {
      LayoutRoundTrip(v, columns, tiering, forced, small);
    } else {
      var path :| path in columns && !PathOk(v, path);
      var i :| 0 <= i < |columns| && columns[i] == path;
      hide UnsetPaths, Untier, SplitTiered, GetPath, GetPlain, SetColumns;
      UnsetColumns(v, columns, i);
      ColumnsShow(base, v, columns, i);
    }
  }

  lemma {:induction false} UnsetGone(v: Value, q: Path)
    requires q != []
    ensures GetPlain(UnsetParts(v, q).0, q) == None
  {
    if v.Obj? && q[0] in v.fields && |q| > 1 {
      UnsetGone(v.fields[q[0]], q[1..]);
    }
  }

  lemma {:induction false} SetGets(v: Value, q: Path, x: Value)
    requires q != []
    ensures GetPlain(SetParts(v, q, x), q) == Some(x)
    decreases |q|
  {
    if |q| > 1 {
      var fields := if v.Obj? then v.fields else map[];
      SetGets(if q[0] in fields && fields[q[0]].Obj? then fields[q[0]] else EMPTY_OBJECT, q[1..], x);
    }
  }

  /** Splitting `c.rest` and `c..rest` for one-letter names. */
  lemma SplitShort(c: char, d: char)
    requires c != '.' && d != '.'
    ensures Split([d]) == [[d]]
    ensures Split([c, '.', d]) == [[c], [d]]
    ensures Split([c, '.', '.', d]) == [[c], [], [d]]
  {
    assert [d][1..] == [] && Split([]) == [[]];
    assert [d] + [] == [d] && [c] + [] == [c];
    assert Split([d]) == [[d]];
    assert ['.', d][1..] == [d] && ['.', '.', d][1..] == ['.', d];
    assert Split(['.', d]) == [[], [d]];
    assert [c, '.', d][1..] == ['.', d] && [c, '.', '.', d][1..] == ['.', '.', d];
  }

  lemma TrimShort(c: char, d: char)
    requires !Blank(c) && !Blank(d)
    ensures TrimAll([[c], [d]]) == [[c], [d]] && TrimAll([[c], [], [d]]) == [[c], [d]]
  {
    var a, b: string := [c], [d];
    assert a[0] == a[|a| - 1] == c && b[0] == b[|b| - 1] == d;
    assert Trim(a) == a && Trim(b) == b && Trim([]) == [];
    assert [[d]][1..] == [] && TrimAll([[d]]) == [[d]];
    assert [[], [d]][1..] == [[d]] && TrimAll([[], [d]]) == [[d]];
    assert [[c], [d]][1..] == [[d]] && [[c], [], [d]][1..] == [[], [d]];
  }

  /** A doubled dot in a column path loses the value it strips. */
  lemma DoubledDotLosesValue()
    ensures var v := Obj(map["a" := Obj(map["b" := Num(1)])]);
            Load(Store(v, ["a..b"], None, [], false), v, ["a..b"]) != v
  {
    var v := Obj(map["a" := Obj(map["b" := Num(1)])]);
    SplitShort('a', 'b');
    TrimShort('a', 'b');
    assert Parts("a..b") == ["a", "b"];
    assert GetPlain(v, ["a", "b"]) == GetPlain(v.fields["a"], ["b"]);
    assert GetPlain(v.fields["a"], ["b"]) == Some(Num(1));
    assert GetSegments(v.fields["a"], ["", "b"]) == None;
    assert GetSegments(v, ["a", "", "b"]) == None;
    ColumnRoundTripExact(v, "a..b");
  }

  /** A column path that reaches into an array replaces the array by an object. */
  lemma ArrayPathLosesArray()
    ensures var v := Obj(map["a" := Arr([Num(1)])]);
            Load(Store(v, ["a.0"], None, [], false), v, ["a.0"]) != v
  {
    var v := Obj(map["a" := Arr([Num(1)])]);
    SplitShort('a', '0');
    TrimShort('a', '0');
    assert Parts("a.0") == ["a", "0"];
    assert GetPlain(v.fields["a"], ["0"]) == None;
    assert GetPlain(v, ["a", "0"]) == None;
    assert Property(v.fields["a"], "0") == Some(Num(1));
    assert GetSegments(v.fields["a"], ["0"]) == Some(Num(1));
    assert GetSegments(v, ["a", "0"]) == Some(Num(1));
    ColumnRoundTripExact(v, "a.0");
  }
}
