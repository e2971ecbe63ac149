/**
 * What an aggregate's answer says of the rows (src/aggregate.js): one row for each group that occurs,
 * holding the group's values and, for the rows of that group, sums, averages, extremes and counts.
 */
module AnswerMeanings {
  import opened Wrappers
  import opened Layout
  import opened Paging
  import opened Aggregates
  import opened Groups
  import opened Splits

  // What a cell should hold, from the rows alone.

  /** The numbers that rows hold at a path. */
  function Numbers(rows: seq<Value>, path: string): seq<int> {
    if rows == [] then []
    else
      var rest := Numbers(rows[..|rows| - 1], path);
      match GetPath(rows[|rows| - 1], path)
      case Some(Num(n)) => rest + [n]
      case _ => rest
  }

  function Total(numbers: seq<int>): int {
    if numbers == [] then 0 else Total(numbers[..|numbers| - 1]) + numbers[|numbers| - 1]
  }

  /** How many rows hold something other than null at a path. */
  function Holding(rows: seq<Value>, path: string): nat {
    if rows == [] then 0
    else
      var v := GetPath(rows[|rows| - 1], path);
      Holding(rows[..|rows| - 1], path) + if v.None? || v == Some(Null) then 0 else 1
  }

  /** Some row holds the number, text or boolean at the path. */
  predicate Occurs(rows: seq<Value>, path: string, v: Value) {
    && (v.Num? || v.Str? || v.Bool?)
    && exists i {:trigger rows[i]} :: 0 <= i < |rows| && GetPath(rows[i], path) == Some(v)
  }

  /** Numbers by size, texts and booleans by the collation; values of different types are not compared. */
  predicate Before(c: Collate, a: Value, b: Value) {
    || (a.Num? && b.Num? && a.n < b.n)
    || (((a.Str? && b.Str?) || (a.Bool? && b.Bool?)) && c(a) < c(b))
  }

  /** The least, or the greatest, of its type; null when the rows hold nothing to compare. */
  ghost predicate ExtremeMeans(c: Collate, rows: seq<Value>, path: string, least: bool, cell: Cell) {
    || (cell == Plain(Null) && forall v :: !Occurs(rows, path, v))
    || (cell.Plain? && Occurs(rows, path, cell.value)
        && forall v | Occurs(rows, path, v) :: if least then !Before(c, v, cell.value) else !Before(c, cell.value, v))
  }

  /** What a metric's cell holds for the rows of a group. */
  ghost predicate CellMeans(c: Collate, op: Operator, rows: seq<Value>, cell: Cell) {
    match op
    case Sum(path) => cell == Plain(Num(Total(Numbers(rows, path))))
    case Avg(path) =>
      var numbers := Numbers(rows, path);
      if numbers == [] then cell == Plain(Null) else cell.Ratio? && cell.ratio * |numbers| as real == Total(numbers) as real
    case Min(path) => ExtremeMeans(c, rows, path, true, cell)
    case Max(path) => ExtremeMeans(c, rows, path, false, cell)
    case CountRows => cell == Plain(Num(|rows|))
    case CountField(path) => cell == Plain(Num(Holding(rows, path)))
  }

  // The fold holds it.

  lemma Stepped(c: Collate, fields: seq<FieldSpec>, rows: seq<Value>, i: nat)
    requires i < |fields|
    ensures rows == [] ==> StatesOf(c, fields, rows)[i] == Init(fields[i])
    ensures rows != [] ==> StatesOf(c, fields, rows)[i] ==
                           StepField(c, StatesOf(c, fields, rows[..|rows| - 1])[i], fields[i], rows[|rows| - 1])
  {
  }

  lemma {:induction false} SumMeans(c: Collate, fields: seq<FieldSpec>, rows: seq<Value>, i: nat)
    requires i < |fields| && fields[i].op.Sum?
    ensures StatesOf(c, fields, rows)[i] == SumState(Total(Numbers(rows, fields[i].op.path)))
  {
    Stepped(c, fields, rows, i);
    hide StatesOf, GetPath, Comparable, Pick;
    if rows != [] {
      SumMeans(c, fields, rows[..|rows| - 1], i);
      TotalMore(Numbers(rows[..|rows| - 1], fields[i].op.path), NumberAt(rows[|rows| - 1], fields[i].op.path).GetOr(0));
    }
  }

  lemma TotalMore(numbers: seq<int>, n: int)
    ensures Total(numbers + [n]) == Total(numbers) + n
  {
    assert (numbers + [n])[..|numbers|] == numbers;
  }

  lemma {:induction false} AvgMeans(c: Collate, fields: seq<FieldSpec>, rows: seq<Value>, i: nat)
    requires i < |fields| && fields[i].op.Avg?
    ensures var numbers := Numbers(rows, fields[i].op.path); StatesOf(c, fields, rows)[i] == AvgState(Total(numbers), |numbers|)
  {
    Stepped(c, fields, rows, i);
    hide StatesOf, GetPath, Comparable, Pick;
    if rows != [] {
      AvgMeans(c, fields, rows[..|rows| - 1], i);
      TotalMore(Numbers(rows[..|rows| - 1], fields[i].op.path), NumberAt(rows[|rows| - 1], fields[i].op.path).GetOr(0));
    }
  }

  lemma {:induction false} RowCountMeans(c: Collate, fields: seq<FieldSpec>, rows: seq<Value>, i: nat)
    requires i < |fields| && fields[i].op.CountRows?
    ensures StatesOf(c, fields, rows)[i] == CountState(|rows|)
  {
    Stepped(c, fields, rows, i);
    hide StatesOf, GetPath, Comparable, Pick;
    if rows != [] {
      RowCountMeans(c, fields, rows[..|rows| - 1], i);
    }
  }

  lemma {:induction false} FieldCountMeans(c: Collate, fields: seq<FieldSpec>, rows: seq<Value>, i: nat)
    requires i < |fields| && fields[i].op.CountField?
    ensures StatesOf(c, fields, rows)[i] == CountState(Holding(rows, fields[i].op.path))
  {
    Stepped(c, fields, rows, i);
    hide StatesOf, GetPath, Comparable, Pick;
    if rows != [] {
      FieldCountMeans(c, fields, rows[..|rows| - 1], i);
    }
  }

  lemma {:induction false} ValuesOccur(rows: seq<Value>, path: string, v: Value)
    ensures v in ValuesAt(rows, path) <==> Occurs(rows, path, v)
  {
    if rows != [] {
      var front, last := rows[..|rows| - 1], rows[|rows| - 1];
      ValuesOccur(front, path, v);
      assert rows == front + [last];
      hide GetPath;
      if Occurs(front, path, v) {
        var i :| 0 <= i < |front| && GetPath(front[i], path) == Some(v);
        assert rows[i] == front[i];
      }
      if Occurs(rows, path, v) && GetPath(last, path) != Some(v) {
        var i :| 0 <= i < |rows| && GetPath(rows[i], path) == Some(v);
        assert front[i] == rows[i];
      }
    }
  }

  lemma {:induction false} StillBest(c: Collate, min: bool, xs: seq<Value>)
    requires Comparables(xs) && xs != []
    ensures Best(c, min, xs).Some? && Best(c, min, xs).value in xs
    ensures forall x | x in xs :: if min then !Before(c, x, Best(c, min, xs).value) else !Before(c, Best(c, min, xs).value, x)
  {
    BestOfType(c, min, xs);
    var best := Best(c, min, xs).value;
    forall x | x in xs ensures if min then !Before(c, x, best) else !Before(c, best, x) {
      if Tag(x) == Tag(xs[0]) {
        assert !Better(c, min, x, best);
      }
    }
  }

  lemma ExtremeMeant(c: Collate, fields: seq<FieldSpec>, rows: seq<Value>, i: nat)
    requires i < |fields| && Extremal(fields[i])
    ensures ExtremeMeans(c, rows, fields[i].op.path, fields[i].op.Min?, FinishField(fields[i], StatesOf(c, fields, rows)[i]))
  {
    var path, min := fields[i].op.path, fields[i].op.Min?;
    var xs := ValuesAt(rows, path);
    ExtremeIsBest(c, fields, rows, i);
    forall v ensures v in xs <==> Occurs(rows, path, v) {
      ValuesOccur(rows, path, v);
    }
    if xs != [] {
      StillBest(c, min, xs);
    }
  }

  /** Each metric's cell of the fold means what it should. */
  lemma FoldMeans(c: Collate, fields: seq<FieldSpec>, rows: seq<Value>, i: nat)
    requires i < |fields|
    ensures CellMeans(c, fields[i].op, rows, FinishField(fields[i], StatesOf(c, fields, rows)[i]))
  {
    hide StatesOf, Numbers, Total, Holding, ExtremeMeans, GetPath;
    match fields[i].op
    case Sum(_) => SumMeans(c, fields, rows, i);
    case Avg(_) =>
      AvgMeans(c, fields, rows, i);
      var numbers := Numbers(rows, fields[i].op.path);
      if numbers != [] {
        RatioTimes(Total(numbers) as real, |numbers| as real);
      }
    case CountRows => RowCountMeans(c, fields, rows, i);
    case CountField(_) => FieldCountMeans(c, fields, rows, i);
    case _ => ExtremeMeant(c, fields, rows, i);
  }

  lemma RatioTimes(sum: real, n: real)
    requires n != 0.0
    ensures (sum / n) * n == sum
  {
  }

  // Rows of the answer.

  predicate IsResult(fields: seq<FieldSpec>, name: string) {
    exists i :: 0 <= i < |fields| && fields[i].resultKey == name
  }

  /** Metrics are entries of one object, so their names differ. */
  predicate DistinctResults(fields: seq<FieldSpec>) {
    forall i, j | 0 <= i < j < |fields| :: fields[i].resultKey != fields[j].resultKey
  }

  /** A row of the answer: each metric over the group's rows, and each group path not named like a metric. */
  ghost predicate RowMeans(c: Collate, spec: Spec, group: seq<Value>, key: seq<Value>, row: ResultRow)
    requires |key| == |spec.groupBy|
  {
    && (forall name :: name in row <==> name in spec.groupBy || IsResult(spec.fields, name))
    && (forall i {:trigger spec.fields[i]} | 0 <= i < |spec.fields| ::
          spec.fields[i].resultKey in row && CellMeans(c, spec.fields[i].op, group, row[spec.fields[i].resultKey]))
    && (forall j {:trigger spec.groupBy[j]} | 0 <= j < |key| && !IsResult(spec.fields, spec.groupBy[j]) ::
          spec.groupBy[j] in row && row[spec.groupBy[j]] == Plain(key[j]))
  }

  lemma {:induction false} FinishFieldsAt(row: ResultRow, fields: seq<FieldSpec>, states: seq<FieldState>, name: string)
    requires |fields| == |states| && DistinctResults(fields)
    ensures name in FinishFields(row, fields, states) <==> name in row || IsResult(fields, name)
    ensures name in row && !IsResult(fields, name) ==> FinishFields(row, fields, states)[name] == row[name]
    ensures forall i | 0 <= i < |fields| && fields[i].resultKey == name ::
              name in FinishFields(row, fields, states) && FinishFields(row, fields, states)[name] == FinishField(fields[i], states[i])
  {
    if fields != [] {
      var n := |fields| - 1;
      FinishFieldsAt(row, fields[..n], states[..n], name);
      hide FinishField;
      assert fields[n].resultKey == name ==> IsResult(fields, name);
      if IsResult(fields[..n], name) {
        var i :| 0 <= i < n && fields[..n][i].resultKey == name;
        assert fields[i].resultKey == name;
      }
      if IsResult(fields, name) && fields[n].resultKey != name {
        var i :| 0 <= i < |fields| && fields[i].resultKey == name;
        assert fields[..n][i].resultKey == name;
      }
    }
  }

  lemma {:induction false} FinishGroupAt(groupBy: seq<string>, key: seq<Value>, name: string)
    requires |key| == |groupBy| && OneValueAPath(groupBy, key)
    ensures name in FinishGroup(groupBy, key) <==> name in groupBy
    ensures forall j | 0 <= j < |key| && groupBy[j] == name :: name in FinishGroup(groupBy, key) && FinishGroup(groupBy, key)[name] == Plain(key[j])
  {
    if key != [] {
      var n := |key| - 1;
      FinishGroupAt(groupBy[..n], key[..n], name);
      assert groupBy == groupBy[..n] + [groupBy[n]];
    }
  }

  lemma FinishedRowMeans(c: Collate, spec: Spec, group: seq<Value>, key: seq<Value>)
    requires OneValueAPath(spec.groupBy, key) && |key| == |spec.groupBy| && DistinctResults(spec.fields)
    ensures RowMeans(c, spec, group, key, FinishFields(FinishGroup(spec.groupBy, key), spec.fields, StatesOf(c, spec.fields, group)))
  {
    var start, states := FinishGroup(spec.groupBy, key), StatesOf(c, spec.fields, group);
    var row := FinishFields(start, spec.fields, states);
    hide StatesOf, FinishFields, FinishGroup, CellMeans, OneValueAPath;
    forall name ensures name in row <==> name in spec.groupBy || IsResult(spec.fields, name) {
      FinishGroupAt(spec.groupBy, key, name);
      FinishFieldsAt(start, spec.fields, states, name);
    }
    forall i | 0 <= i < |spec.fields| ensures spec.fields[i].resultKey in row && CellMeans(c, spec.fields[i].op, group, row[spec.fields[i].resultKey]) {
      FinishFieldsAt(start, spec.fields, states, spec.fields[i].resultKey);
      FoldMeans(c, spec.fields, group, i);
    }
    forall j | 0 <= j < |key| && !IsResult(spec.fields, spec.groupBy[j]) ensures spec.groupBy[j] in row && row[spec.groupBy[j]] == Plain(key[j]) {
      FinishGroupAt(spec.groupBy, key, spec.groupBy[j]);
      FinishFieldsAt(start, spec.fields, states, spec.groupBy[j]);
    }
  }

  // The groups.

  /** A row belongs to the group whose key holds its values at the group paths, null where it has none. */
  predicate InGroup(groupBy: seq<string>, row: Value, key: seq<Value>) {
    && |key| == |groupBy|
    && forall j | 0 <= j < |key| :: key[j] == match GetPath(row, groupBy[j]) case Some(v) => v case None => Null
  }

  function GroupRows(groupBy: seq<string>, rows: seq<Value>, key: seq<Value>): seq<Value> {
    if rows == [] then []
    else
      var rest, row := GroupRows(groupBy, rows[..|rows| - 1], key), rows[|rows| - 1];
      if InGroup(groupBy, row, key) then rest + [row] else rest
  }

  lemma InGroupIs(groupBy: seq<string>, row: Value, key: seq<Value>)
    ensures InGroup(groupBy, row, key) <==> GroupKey(groupBy, row) == key
  {
    if InGroup(groupBy, row, key) {
      assert GroupKey(groupBy, row) == key;
    }
  }

  lemma {:induction false} GroupRowsAre(groupBy: seq<string>, rows: seq<Value>, key: seq<Value>)
    ensures GroupRows(groupBy, rows, key) == Members(groupBy, rows, key)
  {
    if rows != [] {
      GroupRowsAre(groupBy, rows[..|rows| - 1], key);
      InGroupIs(groupBy, rows[|rows| - 1], key);
      hide InGroup, GroupKey;
    }
  }

  predicate Occupied(groupBy: seq<string>, rows: seq<Value>, key: seq<Value>) {
    exists i {:trigger rows[i]} :: 0 <= i < |rows| && InGroup(groupBy, rows[i], key)
  }

  lemma {:induction false} GroupRowsOccur(groupBy: seq<string>, rows: seq<Value>, key: seq<Value>)
    ensures GroupRows(groupBy, rows, key) != [] <==> Occupied(groupBy, rows, key)
  {
    hide InGroup;
    if rows != [] {
      var front := rows[..|rows| - 1];
      GroupRowsOccur(groupBy, front, key);
      if i :| 0 <= i < |front| && InGroup(groupBy, front[i], key) {
        assert rows[i] == front[i];
      }
      if i :| 0 <= i < |rows| && InGroup(groupBy, rows[i], key) {
        assert i < |front| ==> front[i] == rows[i];
      }
    }
  }

  /** One row for each group that occurs, in whatever order, each meaning what it should. */
  ghost predicate AnswersRows(c: Collate, spec: Spec, rows: seq<Value>, keys: seq<seq<Value>>, answer: seq<ResultRow>) {
    && |answer| == |keys|
    && (forall i, j | 0 <= i < j < |keys| :: keys[i] != keys[j])
    && (forall key :: key in keys <==> Occupied(spec.groupBy, rows, key))
    && (forall i {:trigger answer[i]} | 0 <= i < |answer| ::
          |keys[i]| == |spec.groupBy| && RowMeans(c, spec, GroupRows(spec.groupBy, rows, keys[i]), keys[i], answer[i]))
  }

  function KeysOf(bs: seq<Bucket>): (keys: seq<seq<Value>>)
    ensures |keys| == |bs| && forall i | 0 <= i < |keys| :: keys[i] == bs[i].key
  {
    if bs == [] then [] else KeysOf(bs[..|bs| - 1]) + [bs[|bs| - 1].key]
  }

  lemma {:induction false} FinishAllAt(spec: Spec, bs: seq<Bucket>)
    requires Sized(spec, bs) && forall i | 0 <= i < |bs| :: |bs[i].key| == |spec.groupBy|
    ensures |FinishAll(spec, bs)| == |bs|
    ensures forall i | 0 <= i < |bs| :: FinishAll(spec, bs)[i] == FinishFields(FinishGroup(spec.groupBy, bs[i].key), spec.fields, bs[i].states)
  {
    hide FinishFields, FinishGroup;
    if bs != [] {
      FinishAllAt(spec, bs[..|bs| - 1]);
    }
  }

  lemma KeyOccurs(c: Collate, spec: Spec, rows: seq<Value>, key: seq<Value>)
    ensures key in KeysOf(Partial(c, spec, rows)) <==> Occupied(spec.groupBy, rows, key)
  {
    PartialLook(c, spec, rows, key);
    GroupRowsAre(spec.groupBy, rows, key);
    GroupRowsOccur(spec.groupBy, rows, key);
    KeysHave(Partial(c, spec, rows), key);
  }

  lemma BucketMeans(c: Collate, spec: Spec, rows: seq<Value>, i: nat)
    requires DistinctResults(spec.fields) && i < |Partial(c, spec, rows)| && Keyed(spec, Partial(c, spec, rows))
    ensures var b := Partial(c, spec, rows)[i];
            && |b.key| == |spec.groupBy|
            && RowMeans(c, spec, GroupRows(spec.groupBy, rows, b.key), b.key, FinishFields(FinishGroup(spec.groupBy, b.key), spec.fields, b.states))
  {
    var bs := Partial(c, spec, rows);
    PartialDistinct(c, spec, rows);
    PartialLook(c, spec, rows, bs[i].key);
    GroupRowsAre(spec.groupBy, rows, bs[i].key);
    LookAt(spec, bs, i);
    hide Partial, RowMeans, FinishFields, FinishGroup, Look, Members, GroupRows;
    FinishedRowMeans(c, spec, Members(spec.groupBy, rows, bs[i].key), bs[i].key);
  }

  /** Finishing the fold of the rows answers them. */
  lemma {:induction false} FinishedAnswers(c: Collate, spec: Spec, rows: seq<Value>)
    requires DistinctResults(spec.fields)
    ensures Keyed(spec, Partial(c, spec, rows))
    ensures AnswersRows(c, spec, rows, KeysOf(Partial(c, spec, rows)), FinishAll(spec, Partial(c, spec, rows)))
  {
    PartialKeyed(c, spec, rows);
    PartialDistinct(c, spec, rows);
    var bs := Partial(c, spec, rows);
    FinishAllAt(spec, bs);
    hide Partial, FinishAll, RowMeans, FinishFields, FinishGroup, Occupied, GroupRows;
    forall key ensures key in KeysOf(bs) <==> Occupied(spec.groupBy, rows, key) {
      KeyOccurs(c, spec, rows, key);
    }
    forall i | 0 <= i < |bs|
      ensures |KeysOf(bs)[i]| == |spec.groupBy|
      ensures RowMeans(c, spec, GroupRows(spec.groupBy, rows, KeysOf(bs)[i]), KeysOf(bs)[i], FinishAll(spec, bs)[i])
    {
      BucketMeans(c, spec, rows, i);
    }
  }

  lemma KeysHave(bs: seq<Bucket>, key: seq<Value>)
    ensures key in KeysOf(bs) <==> HasKey(bs, key)
  {
    if HasKey(bs, key) {
      var i :| 0 <= i < |bs| && bs[i].key == key;
      assert KeysOf(bs)[i] == key;
    }
  }

  // The page that is answered.

  /** The groups' rows, in the order asked for if any. */
  ghost predicate ListsGroups(c: Collate, spec: Spec, rows: seq<Value>, order: Order<ResultRow>, keys: seq<seq<Value>>, listed: seq<ResultRow>) {
    && (exists whole :: AnswersRows(c, spec, rows, keys, whole) && multiset(listed) == multiset(whole) && (spec.sort == [] ==> listed == whole))
    && (spec.sort != [] && OrderedBy(order, listed) ==> Sorted(order, listed))
  }

  function Start(spec: Spec): nat
    requires spec.page >= 1
  {
    (spec.page - 1) * spec.pageSize
  }

  /** Such a listing cut to the page. */
  ghost predicate PageOfAnswer(c: Collate, spec: Spec, rows: seq<Value>, order: Order<ResultRow>, keys: seq<seq<Value>>,
                               listed: seq<ResultRow>, page: seq<ResultRow>)
    requires spec.page >= 1
  {
    && ListsGroups(c, spec, rows, order, keys, listed)
    && |page| == (if Start(spec) >= |listed| then 0 else Wrappers.Min(spec.pageSize, |listed| - Start(spec)))
    && forall i | 0 <= i < |page| :: page[i] == listed[Start(spec) + i]
  }

  /** The comparison orders these rows. */
  ghost predicate OrderedBy(order: Order<ResultRow>, rows: seq<ResultRow>) {
    PreorderOn(order, row => row in rows)
  }

  lemma SortPermutes(order: Order<ResultRow>, rows: seq<ResultRow>)
    ensures multiset(Sort(order, rows)) == multiset(rows)
    ensures OrderedBy(order, Sort(order, rows)) ==> Sorted(order, Sort(order, rows))
  {
    InsertAllMembers(order, [], rows);
    assert multiset([]) + multiset(rows) == multiset(rows);
    var listed := Sort(order, rows);
    if OrderedBy(order, listed) {
      forall i | 0 <= i < |rows| ensures rows[i] in listed {
        assert rows[i] in multiset(listed);
      }
      SortSorts(order, row => row in listed, rows);
    }
  }

  lemma {:induction false} InsertAllMembers(order: Order<ResultRow>, s: seq<ResultRow>, xs: seq<ResultRow>)
    ensures multiset(InsertAll(order, s, xs)) == multiset(s) + multiset(xs)
    decreases |xs|
  {
    if xs != [] {
      InsertMembers(order, s, xs[0]);
      InsertAllMembers(order, Insert(order, s, xs[0]), xs[1..]);
      assert xs == [xs[0]] + xs[1..];
    }
  }

  lemma ListedMeans(c: Collate, spec: Spec, rows: seq<Value>, order: Order<ResultRow>, whole: seq<ResultRow>, keys: seq<seq<Value>>)
    requires AnswersRows(c, spec, rows, keys, whole)
    ensures ListsGroups(c, spec, rows, order, keys, if spec.sort != [] then Sort(order, whole) else whole)
  {
    SortPermutes(order, whole);
    hide AnswersRows, Sort, OrderedBy, Sorted;
  }

  /** The finished groups, before sorting and paging. */
  ghost function Whole(c: Collate, spec: Spec, rows: seq<Value>): seq<ResultRow> {
    PartialKeyed(c, spec, rows);
    FinishAll(spec, Partial(c, spec, rows))
  }

  ghost function Listing(c: Collate, spec: Spec, rows: seq<Value>, order: Order<ResultRow>): seq<ResultRow> {
    if spec.sort != [] then Sort(order, Whole(c, spec, rows)) else Whole(c, spec, rows)
  }

  lemma AnswerIsPage(c: Collate, spec: Spec, rows: seq<Value>, order: Order<ResultRow>)
    requires spec.page >= 1
    ensures AnswerOf(c, spec, rows, order) == Page(Listing(c, spec, rows, order), Start(spec), spec.pageSize)
  {
    hide FinishAll, Partial, Sort, Page;
  }

  lemma WholeAnswers(c: Collate, spec: Spec, rows: seq<Value>)
    requires DistinctResults(spec.fields)
    ensures AnswersRows(c, spec, rows, KeysOf(Partial(c, spec, rows)), Whole(c, spec, rows))
  {
    FinishedAnswers(c, spec, rows);
    hide AnswersRows, FinishAll, Partial;
  }

  lemma PageOfListing(c: Collate, spec: Spec, rows: seq<Value>, order: Order<ResultRow>, keys: seq<seq<Value>>, listed: seq<ResultRow>)
    requires spec.page >= 1 && ListsGroups(c, spec, rows, order, keys, listed)
    ensures PageOfAnswer(c, spec, rows, order, keys, listed, Page(listed, Start(spec), spec.pageSize))
  {
    PageIs(listed, Start(spec), spec.pageSize);
    hide ListsGroups, Start, Page;
  }

  /** The answer over all rows on one node. */
  lemma AnswerMeans(c: Collate, spec: Spec, rows: seq<Value>, order: Order<ResultRow>) returns (keys: seq<seq<Value>>, listed: seq<ResultRow>)
    requires spec.page >= 1 && DistinctResults(spec.fields)
    ensures PageOfAnswer(c, spec, rows, order, keys, listed, AnswerOf(c, spec, rows, order))
  {
    keys, listed := KeysOf(Partial(c, spec, rows)), Listing(c, spec, rows, order);
    hide *;
    WholeAnswers(c, spec, rows);
    ListingLists(c, spec, rows, order, keys);
    PageOfListing(c, spec, rows, order, keys, listed);
    AnswerIsPage(c, spec, rows, order);
  }

  lemma ListingLists(c: Collate, spec: Spec, rows: seq<Value>, order: Order<ResultRow>, keys: seq<seq<Value>>)
    requires AnswersRows(c, spec, rows, keys, Whole(c, spec, rows))
    ensures ListsGroups(c, spec, rows, order, keys, Listing(c, spec, rows, order))
  {
    hide AnswersRows, ListsGroups, Whole, Sort;
    ListedMeans(c, spec, rows, order, Whole(c, spec, rows), keys);
  }

  /**
   * An aggregate over several shards: what is merged from their partial rows is the page of an answer
   * that means, group by group, what all the rows hold.
   */
  method AggregateShards(c: Collate, spec: Spec, ghost parts: seq<seq<Value>>, sent: seq<PartialRow>, order: Order<ResultRow>)
    returns (page: seq<ResultRow>, ghost keys: seq<seq<Value>>, ghost listed: seq<ResultRow>)
    requires NoClash(spec) && DistinctResults(spec.fields) && RowsSafe(c, spec, Concat(parts)) && spec.page >= 1
    requires SentBy(c, spec, parts, sent)
    ensures PageOfAnswer(c, spec, Concat(parts), order, keys, listed, page)
  {
    FanOutAnswer(c, spec, parts, order);
    keys, listed := AnswerMeans(c, spec, Concat(parts), order);
    hide PageOfAnswer, RowsSafe, NoClash, Answer, AbsorbAll, DecodeAll, EncodeAll, PartialsOf;
    page := MergeAggregatePartials(c, spec, sent, order);
  }

  /** The partial rows that the shards' folds encode to, shard by shard. */
  ghost predicate SentBy(c: Collate, spec: Spec, parts: seq<seq<Value>>, sent: seq<PartialRow>) {
    var bs := PartialsOf(c, spec, parts);
    Sized(spec, bs) && (forall i | 0 <= i < |bs| :: |bs[i].key| == |spec.groupBy|) && sent == EncodeAll(spec, bs)
  }
}
