/** Range queries over stored metrics: the longer the range, the wider the buckets values are
    averaged over. */
module Downsample {
  import opened Options

  /** A stored value of one metric of one member. */
  datatype Row = Row(ts: int, member: string, name: string, value: real)

  datatype DataPoint = DataPoint(ts: int, value: real)

  /** One row of the database's answer. */
  datatype Group = Group(ts: int, name: string, value: real)

  const NANO := 1_000_000_000

  /** The bucket width in seconds for a range given in nanoseconds; 0 asks for raw values. */
  function GroupInterval(start: int, end: int): (g: nat)
    ensures g == 0 || g == 30 || g == 120 || g == 300 || g == 600
  {
    var duration := end - start;
    if duration <= 30 * 60 * NANO then 0
    else if duration <= 2 * 3600 * NANO then 30
    else if duration <= 12 * 3600 * NANO then 120
    else if duration <= 48 * 3600 * NANO then 300
    else 600
  }

  /** SQL integer division, which truncates towards zero. */
  function Quotient(ts: int, g: nat): int
    requires g > 0
  {
    if ts >= 0 then ts / g else -((-ts) / g)
  }

  function BucketOf(ts: int, g: nat): int
    requires g > 0
  {
    Quotient(ts, g) * g
  }

  // -------------------------------------------------------- the SQL answer

  /** The rows a query selects, in stored order. */
  function Selected(rows: seq<Row>, member: string, names: seq<string>, from: int, to: int): seq<Row> {
    if rows == [] then []
    else
      var last := rows[|rows| - 1];
      Selected(rows[..|rows| - 1], member, names, from, to)
      + if last.member == member && from <= last.ts <= to && last.name in names then [last] else []
  }

  predicate InGroup(r: Row, name: string, bucket: int, g: nat)
    requires g > 0
  {
    r.name == name && BucketOf(r.ts, g) == bucket
  }

  /** COUNT and SUM over one group. */
  function CountIn(rows: seq<Row>, name: string, bucket: int, g: nat): nat
    requires g > 0
  {
    if rows == [] then 0
    else CountIn(rows[..|rows| - 1], name, bucket, g) + if InGroup(rows[|rows| - 1], name, bucket, g) then 1 else 0
  }

  function SumIn(rows: seq<Row>, name: string, bucket: int, g: nat): real
    requires g > 0
  {
    if rows == [] then 0.0
    else SumIn(rows[..|rows| - 1], name, bucket, g)
         + if InGroup(rows[|rows| - 1], name, bucket, g) then rows[|rows| - 1].value else 0.0
  }

  /** A value counted once for every row of its group. */
  function Weight(rows: seq<Row>, name: string, bucket: int, value: real, g: nat): real
    requires g > 0
  {
    value * (CountIn(rows, name, bucket, g) as real)
  }

  /** The value is the average of a group that has a member. */
  predicate IsAverage(rows: seq<Row>, a: Group, g: nat)
    requires g > 0
  {
    CountIn(rows, a.name, a.ts, g) > 0 && Weight(rows, a.name, a.ts, a.value, g) == SumIn(rows, a.name, a.ts, g)
  }

  predicate HasGroup(r: Row, answer: seq<Group>, g: nat)
    requires g > 0
  {
    exists k :: 0 <= k < |answer| && InGroup(r, answer[k].name, answer[k].ts, g)
  }

  /** What SELECT bucket, name, AVG(value) ... GROUP BY bucket, name ORDER BY bucket may return: one
      row for each group that has a member, with its average, by ascending bucket. */
  ghost predicate IsGrouping(rows: seq<Row>, g: nat, answer: seq<Group>)
    requires g > 0
  {
    && (forall i, j :: 0 <= i < j < |answer| ==>
          answer[i].ts <= answer[j].ts && (answer[i].ts, answer[i].name) != (answer[j].ts, answer[j].name))
    && (forall i :: 0 <= i < |answer| ==> IsAverage(rows, answer[i], g))
    && (forall i :: 0 <= i < |rows| ==> HasGroup(rows[i], answer, g))
  }

  function AsGroup(r: Row): Group {
    Group(r.ts, r.name, r.value)
  }

  function AsGroups(rows: seq<Row>): multiset<Group> {
    if rows == [] then multiset{} else AsGroups(rows[..|rows| - 1]) + multiset{AsGroup(rows[|rows| - 1])}
  }

  ghost predicate ByTime(answer: seq<Group>) {
    forall i, j :: 0 <= i < j < |answer| ==> answer[i].ts <= answer[j].ts
  }

  /** What the raw SELECT ... ORDER BY timestamp may return: every selected row, by ascending time. */
  ghost predicate IsRaw(rows: seq<Row>, answer: seq<Group>) {
    ByTime(answer) && multiset(answer) == AsGroups(rows)
  }

  // ------------------------------------------------------------ the query

  /** The points of one metric in an answer, in order. */
  function PointsOf(answer: seq<Group>, name: string): seq<DataPoint> {
    if answer == [] then []
    else
      var last := answer[|answer| - 1];
      PointsOf(answer[..|answer| - 1], name) + if last.name == name then [DataPoint(last.ts, last.value)] else []
  }

  lemma PointsSnoc(answer: seq<Group>, row: Group, name: string)
    ensures PointsOf(answer + [row], name)
            == PointsOf(answer, name) + if row.name == name then [DataPoint(row.ts, row.value)] else []
  {
    assert (answer + [row])[..|answer|] == answer;
  }

  /** Sorts the database's answer into one list of points per metric. */
  method CollectPoints(answer: seq<Group>) returns (result: map<string, seq<DataPoint>>)
    ensures forall name :: name in result <==> PointsOf(answer, name) != []
    ensures forall name :: name in result ==> result[name] == PointsOf(answer, name)
  {
    result := map[];
    for i := 0 to |answer|
      invariant forall name :: name in result <==> PointsOf(answer[..i], name) != []
      invariant forall name :: name in result ==> result[name] == PointsOf(answer[..i], name)
    {
      var row := answer[i];
      assert answer[..i + 1] == answer[..i] + [row];
      forall name ensures PointsOf(answer[..i + 1], name)
                          == PointsOf(answer[..i], name) + if row.name == name then [DataPoint(row.ts, row.value)] else []
      {
        PointsSnoc(answer[..i], row, name);
      }
      var points := if row.name in result then result[row.name] else [];
      result := result[row.name := points + [DataPoint(row.ts, row.value)]];
    }
    assert answer[..|answer|] == answer;
  }

  /** What the database may answer to a range query. */
  ghost predicate IsAnswer(table: seq<Row>, member: string, names: seq<string>, start: int, end: int, answer: seq<Group>) {
    var g, rows := GroupInterval(start, end), Selected(table, member, names, Seconds(start), Seconds(end));
    if g == 0 then IsRaw(rows, answer) else IsGrouping(rows, g, answer)
  }

  // --------------------------------------------------------- the statements

  method SelectRows(table: seq<Row>, member: string, names: seq<string>, from: int, to: int) returns (rows: seq<Row>)
    ensures rows == Selected(table, member, names, from, to)
  {
    rows := [];
    for n := 0 to |table|
      invariant rows == Selected(table[..n], member, names, from, to)
    {
      assert table[..n + 1][..n] == table[..n];
      var r := table[n];
      if r.member == member && from <= r.ts <= to && r.name in names {
        rows := rows + [r];
      }
    }
    assert table[..|table|] == table;
  }

  function Inserted(answer: seq<Group>, k: nat, x: Group): seq<Group>
    requires k <= |answer|
  {
    answer[..k] + [x] + answer[k..]
  }

  lemma InsertedIndex(answer: seq<Group>, k: nat, x: Group)
    requires k <= |answer|
    ensures forall i :: 0 <= i < |Inserted(answer, k, x)| ==>
              Inserted(answer, k, x)[i] == if i < k then answer[i] else if i == k then x else answer[i - 1]
    ensures multiset(Inserted(answer, k, x)) == multiset(answer) + multiset{x}
  {
    assert answer == answer[..k] + answer[k..];
    var longer := Inserted(answer, k, x);
    forall i | k < i < |longer| ensures longer[i] == answer[i - 1] {
      assert longer[i] == answer[k..][i - k - 1];
    }
  }

  lemma InsertedByTime(answer: seq<Group>, k: nat, x: Group)
    requires ByTime(answer) && FitsAt(answer, k, x.ts)
    ensures ByTime(Inserted(answer, k, x))
  {
    InsertedIndex(answer, k, x);
  }

  predicate FitsAt(answer: seq<Group>, k: nat, ts: int) {
    && k <= |answer|
    && (forall i :: 0 <= i < k ==> answer[i].ts <= ts)
    && (forall i :: k <= i < |answer| ==> ts < answer[i].ts)
  }

  /** Where a row goes among rows sorted by time: behind those not later. */
  method Place(answer: seq<Group>, ts: int) returns (k: nat)
    requires ByTime(answer)
    ensures FitsAt(answer, k, ts)
  {
    k := 0;
    while k < |answer| && answer[k].ts <= ts
      invariant k <= |answer|
      invariant forall i :: 0 <= i < k ==> answer[i].ts <= ts
    {
      k := k + 1;
    }
  }

  /** SELECT timestamp, name, value ... ORDER BY timestamp. */
  method SelectRaw(rows: seq<Row>) returns (answer: seq<Group>)
    ensures IsRaw(rows, answer)
  {
    answer := [];
    for n := 0 to |rows|
      invariant IsRaw(rows[..n], answer)
    {
      assert rows[..n + 1][..n] == rows[..n];
      var x := AsGroup(rows[n]);
      var k := Place(answer, x.ts);
      InsertedIndex(answer, k, x);
      InsertedByTime(answer, k, x);
      answer := Inserted(answer, k, x);
    }
    assert rows[..|rows|] == rows;
  }

  /** The groups of some rows, whatever values they carry: each once, by ascending bucket. */
  ghost predicate AreGroups(rows: seq<Row>, g: nat, answer: seq<Group>)
    requires g > 0
  {
    && ByTime(answer)
    && (forall i, j :: 0 <= i < j < |answer| ==> !SameGroup(answer[i], answer[j]))
    && (forall i :: 0 <= i < |answer| ==> CountIn(rows, answer[i].name, answer[i].ts, g) > 0)
    && (forall i :: 0 <= i < |rows| ==> HasGroup(rows[i], answer, g))
  }

  predicate SameGroup(a: Group, b: Group) {
    a.ts == b.ts && a.name == b.name
  }

  lemma RowGrows(rows: seq<Row>, r: Row, g: nat, answer: seq<Group>)
    requires g > 0 && AreGroups(rows, g, answer) && HasGroup(r, answer, g)
    ensures AreGroups(rows + [r], g, answer)
  {
    var all := rows + [r];
    assert all[..|rows|] == rows;
    forall i | 0 <= i < |all| ensures HasGroup(all[i], answer, g) {
      assert i < |rows| ==> all[i] == rows[i];
    }
  }

  lemma HasGroupInserted(r: Row, g: nat, answer: seq<Group>, k: nat, x: Group)
    requires g > 0 && k <= |answer| && HasGroup(r, answer, g)
    ensures HasGroup(r, Inserted(answer, k, x), g)
  {
    InsertedIndex(answer, k, x);
    var j :| 0 <= j < |answer| && InGroup(r, answer[j].name, answer[j].ts, g);
    var j' := if j < k then j else j + 1;
    assert Inserted(answer, k, x)[j'] == answer[j];
  }

  lemma NewGroup(answer: seq<Group>, k: nat, x: Group)
    requires k <= |answer| && forall i :: 0 <= i < |answer| ==> !SameGroup(answer[i], x)
    requires forall i, j :: 0 <= i < j < |answer| ==> !SameGroup(answer[i], answer[j])
    ensures var longer := Inserted(answer, k, x);
            forall i, j :: 0 <= i < j < |longer| ==> !SameGroup(longer[i], longer[j])
  {
    InsertedIndex(answer, k, x);
  }

  lemma CountsGrow(rows: seq<Row>, r: Row, g: nat, answer: seq<Group>, k: nat, x: Group)
    requires g > 0 && k <= |answer| && InGroup(r, x.name, x.ts, g)
    requires forall i :: 0 <= i < |answer| ==> CountIn(rows, answer[i].name, answer[i].ts, g) > 0
    ensures var longer := Inserted(answer, k, x);
            forall i :: 0 <= i < |longer| ==> CountIn(rows + [r], longer[i].name, longer[i].ts, g) > 0
  {
    InsertedIndex(answer, k, x);
    assert (rows + [r])[..|rows|] == rows;
  }

  lemma GroupGrows(rows: seq<Row>, r: Row, g: nat, answer: seq<Group>, k: nat, x: Group)
    requires g > 0 && AreGroups(rows, g, answer) && !HasGroup(r, answer, g)
    requires InGroup(r, x.name, x.ts, g) && FitsAt(answer, k, x.ts)
    ensures AreGroups(rows + [r], g, Inserted(answer, k, x))
  {
    var all, longer := rows + [r], Inserted(answer, k, x);
    forall i | 0 <= i < |answer| ensures !SameGroup(answer[i], x) {
      assert !InGroup(r, answer[i].name, answer[i].ts, g);
    }
    InsertedByTime(answer, k, x);
    NewGroup(answer, k, x);
    CountsGrow(rows, r, g, answer, k, x);
    forall i | 0 <= i < |all| ensures HasGroup(all[i], longer, g) {
      if i < |rows| {
        assert all[i] == rows[i];
        HasGroupInserted(rows[i], g, answer, k, x);
      } else {
        assert longer[k] == x && InGroup(all[i], longer[k].name, longer[k].ts, g);
      }
    }
  }

  method CollectGroups(rows: seq<Row>, g: nat) returns (answer: seq<Group>)
    requires g > 0
    ensures AreGroups(rows, g, answer)
  {
    answer := [];
    for n := 0 to |rows|
      invariant AreGroups(rows[..n], g, answer)
    {
      var r := rows[n];
      assert rows[..n + 1] == rows[..n] + [r];
      if HasGroup(r, answer, g) {
        RowGrows(rows[..n], r, g, answer);
      } else {
        var x := Group(BucketOf(r.ts, g), r.name, 0.0);
        var k := Place(answer, x.ts);
        GroupGrows(rows[..n], r, g, answer, k, x);
        answer := Inserted(answer, k, x);
      }
    }
    assert rows[..|rows|] == rows;
  }

  function Average(rows: seq<Row>, name: string, bucket: int, g: nat): (v: real)
    requires g > 0 && CountIn(rows, name, bucket, g) > 0
    ensures Weight(rows, name, bucket, v, g) == SumIn(rows, name, bucket, g)
  {
    SumIn(rows, name, bucket, g) / (CountIn(rows, name, bucket, g) as real)
  }

  predicate SameGroups(answer: seq<Group>, groups: seq<Group>) {
    |answer| == |groups| && forall i :: 0 <= i < |answer| ==> SameGroup(answer[i], groups[i])
  }

  lemma GroupsAveraged(rows: seq<Row>, g: nat, groups: seq<Group>, answer: seq<Group>)
    requires g > 0 && AreGroups(rows, g, groups) && SameGroups(answer, groups)
    requires forall i :: 0 <= i < |answer| ==> IsAverage(rows, answer[i], g)
    ensures IsGrouping(rows, g, answer)
  {
    forall i | 0 <= i < |rows| ensures HasGroup(rows[i], answer, g) {
      assert HasGroup(rows[i], groups, g);
      var k :| 0 <= k < |groups| && InGroup(rows[i], groups[k].name, groups[k].ts, g);
      assert InGroup(rows[i], answer[k].name, answer[k].ts, g);
    }
    forall i, j | 0 <= i < j < |answer|
      ensures answer[i].ts <= answer[j].ts && (answer[i].ts, answer[i].name) != (answer[j].ts, answer[j].name)
    {
      assert !SameGroup(groups[i], groups[j]);
    }
  }

  /** SELECT bucket, name, AVG(value) ... GROUP BY bucket, name ORDER BY bucket. */
  method SelectAverages(rows: seq<Row>, g: nat) returns (answer: seq<Group>)
    requires g > 0
    ensures IsGrouping(rows, g, answer)
  {
    var groups := CollectGroups(rows, g);
    answer := [];
    for n := 0 to |groups|
      invariant SameGroups(answer, groups[..n])
      invariant forall i :: 0 <= i < |answer| ==> IsAverage(rows, answer[i], g)
    {
      var a := groups[n];
      answer := answer + [Group(a.ts, a.name, Average(rows, a.name, a.ts, g))];
    }
    GroupsAveraged(rows, g, groups, answer);
  }

  // --------------------------------------------------------- time and size

  predicate IsTier(g: nat) {
    g == 30 || g == 120 || g == 300 || g == 600
  }

  /** Truncating division never reverses the order. */
  lemma QuotientMonotone(a: int, b: int, g: nat)
    requires IsTier(g) && a <= b
    ensures Quotient(a, g) <= Quotient(b, g)
  {
    if g == 30 {
    } else if g == 120 {
    } else if g == 300 {
    } else {
    }
  }

  /** Truncating division never spreads values further apart than their distance. */
  lemma QuotientSpread(a: int, b: int, g: nat, width: nat)
    requires IsTier(g) && a <= b <= a + g * width
    ensures Quotient(b, g) - Quotient(a, g) <= width
  {
    if g == 30 {
    } else if g == 120 {
    } else if g == 300 {
    } else {
    }
  }

  /** Whole seconds of a time in nanoseconds. */
  function Seconds(t: int): int {
    t / NANO
  }

  /** The second a time in nanoseconds falls in. */
  lemma SecondsExactly(t: int)
    ensures Seconds(t) * 1_000_000_000 <= t < (Seconds(t) + 1) * 1_000_000_000
  {
  }

  /** How many bucket widths the longest range of a tier spans. */
  function MaxWidths(g: nat): nat {
    if g == 30 then 240 else if g == 120 then 360 else 576
  }

  lemma WindowFits(start: int, end: int)
    requires start <= end && GroupInterval(start, end) in {30, 120, 300}
    ensures var g := GroupInterval(start, end);
            Seconds(start) <= Seconds(end) <= Seconds(start) + g * MaxWidths(g)
  {
    var g := GroupInterval(start, end);
    if g == 30 {
    } else if g == 120 {
    } else {
    }
  }

  // ------------------------------------------------------ points of a metric

  lemma {:induction false} PointIsGroup(answer: seq<Group>, name: string, i: nat) returns (k: nat)
    requires i < |PointsOf(answer, name)|
    ensures k < |answer| && answer[k] == Group(PointsOf(answer, name)[i].ts, name, PointsOf(answer, name)[i].value)
  {
    var init := answer[..|answer| - 1];
    if i < |PointsOf(init, name)| {
      k := PointIsGroup(init, name, i);
    } else {
      k := |answer| - 1;
    }
  }

  lemma {:induction false} GroupIsPoint(answer: seq<Group>, k: nat) returns (i: nat)
    requires k < |answer|
    ensures i < |PointsOf(answer, answer[k].name)|
    ensures PointsOf(answer, answer[k].name)[i] == DataPoint(answer[k].ts, answer[k].value)
  {
    var init := answer[..|answer| - 1];
    if k < |init| {
      i := GroupIsPoint(init, k);
    } else {
      i := |PointsOf(init, answer[k].name)|;
    }
  }

  predicate Ascending(points: seq<DataPoint>) {
    forall i, j :: 0 <= i < j < |points| ==> points[i].ts < points[j].ts
  }

  /** The bucket times of one metric are strictly ascending. */
  lemma {:induction false} PointsAscend(answer: seq<Group>, name: string)
    requires forall i, j :: 0 <= i < j < |answer| ==>
               answer[i].ts <= answer[j].ts && (answer[i].ts, answer[i].name) != (answer[j].ts, answer[j].name)
    ensures Ascending(PointsOf(answer, name))
  {
    if answer != [] {
      var init, last := answer[..|answer| - 1], answer[|answer| - 1];
      PointsAscend(init, name);
      if last.name == name {
        forall i | 0 <= i < |PointsOf(init, name)| ensures PointsOf(init, name)[i].ts < last.ts {
          var k := PointIsGroup(init, name, i);
          assert answer[k] == init[k];
        }
      }
    }
  }

  // ----------------------------------------------------------- conservation

  function Total(rows: seq<Row>, name: string): real {
    if rows == [] then 0.0
    else Total(rows[..|rows| - 1], name) + if rows[|rows| - 1].name == name then rows[|rows| - 1].value else 0.0
  }

  function Times(points: seq<DataPoint>): (ts: seq<int>)
    ensures |ts| == |points| && forall i :: 0 <= i < |ts| ==> ts[i] == points[i].ts
  {
    seq(|points|, i requires 0 <= i < |points| => points[i].ts)
  }

  /** The sums, and the numbers of rows, of some groups of a metric. */
  function SumOver(rows: seq<Row>, name: string, times: seq<int>, g: nat): real
    requires g > 0
  {
    if times == [] then 0.0 else SumIn(rows, name, times[0], g) + SumOver(rows, name, times[1..], g)
  }

  /** Averages times counts, added up. */
  function Weighted(rows: seq<Row>, name: string, points: seq<DataPoint>, g: nat): real
    requires g > 0
  {
    if points == [] then 0.0
    else Weight(rows, name, points[0].ts, points[0].value, g) + Weighted(rows, name, points[1..], g)
  }

  lemma {:induction false} OneMoreRow(rows: seq<Row>, r: Row, name: string, times: seq<int>, g: nat)
    requires g > 0 && forall i, j :: 0 <= i < j < |times| ==> times[i] != times[j]
    ensures SumOver(rows + [r], name, times, g)
            == SumOver(rows, name, times, g) + if r.name == name && BucketOf(r.ts, g) in times then r.value else 0.0
  {
    if times != [] {
      OneMoreRow(rows, r, name, times[1..], g);
      assert (rows + [r])[..|rows|] == rows;
      assert times == [times[0]] + times[1..];
      assert forall i :: 0 <= i < |times[1..]| ==> times[1..][i] == times[i + 1];
    }
  }

  lemma {:induction false} SumOverNothing(name: string, times: seq<int>, g: nat)
    requires g > 0
    ensures SumOver([], name, times, g) == 0.0
  {
    if times != [] {
      SumOverNothing(name, times[1..], g);
    }
  }

  /** Different buckets that cover every row of a metric share out its total. */
  lemma {:induction false} BucketsShareTotal(rows: seq<Row>, name: string, times: seq<int>, g: nat)
    requires g > 0 && forall i, j :: 0 <= i < j < |times| ==> times[i] != times[j]
    requires forall i :: 0 <= i < |rows| && rows[i].name == name ==> BucketOf(rows[i].ts, g) in times
    ensures SumOver(rows, name, times, g) == Total(rows, name)
  {
    if rows == [] {
      SumOverNothing(name, times, g);
    } else {
      var init, last := rows[..|rows| - 1], rows[|rows| - 1];
      assert rows == init + [last];
      BucketsShareTotal(init, name, times, g);
      OneMoreRow(init, last, name, times, g);
    }
  }

  lemma {:induction false} WeightedIsSum(rows: seq<Row>, name: string, points: seq<DataPoint>, g: nat)
    requires g > 0
    requires forall i :: 0 <= i < |points| ==>
               Weight(rows, name, points[i].ts, points[i].value, g) == SumIn(rows, name, points[i].ts, g)
    ensures Weighted(rows, name, points, g) == SumOver(rows, name, Times(points), g)
  {
    if points != [] {
      WeightedIsSum(rows, name, points[1..], g);
      assert Times(points)[1..] == Times(points[1..]);
    }
  }

  /** Every selected row falls into exactly one bucket of its metric. */
  lemma RowInExactlyOneBucket(rows: seq<Row>, g: nat, answer: seq<Group>, r: int) returns (i: nat)
    requires IsTier(g) && IsGrouping(rows, g, answer) && 0 <= r < |rows|
    ensures var points := PointsOf(answer, rows[r].name);
            i < |points| && points[i].ts == BucketOf(rows[r].ts, g)
            && forall j :: 0 <= j < |points| && j != i ==> points[j].ts != BucketOf(rows[r].ts, g)
  {
    assert HasGroup(rows[r], answer, g);
    var k :| 0 <= k < |answer| && InGroup(rows[r], answer[k].name, answer[k].ts, g);
    i := GroupIsPoint(answer, k);
    PointsAscend(answer, rows[r].name);
  }

  lemma PointsAreAverages(rows: seq<Row>, g: nat, answer: seq<Group>, name: string)
    requires IsTier(g) && IsGrouping(rows, g, answer)
    ensures Weighted(rows, name, PointsOf(answer, name), g) == SumOver(rows, name, Times(PointsOf(answer, name)), g)
  {
    var points := PointsOf(answer, name);
    forall i | 0 <= i < |points|
      ensures Weight(rows, name, points[i].ts, points[i].value, g) == SumIn(rows, name, points[i].ts, g)
    {
      var k := PointIsGroup(answer, name, i);
      assert IsAverage(rows, answer[k], g);
    }
    WeightedIsSum(rows, name, points, g);
  }

  lemma PointsCover(rows: seq<Row>, g: nat, answer: seq<Group>, name: string)
    requires IsTier(g) && IsGrouping(rows, g, answer)
    ensures forall r :: 0 <= r < |rows| && rows[r].name == name ==> BucketOf(rows[r].ts, g) in Times(PointsOf(answer, name))
  {
    forall r | 0 <= r < |rows| && rows[r].name == name
      ensures BucketOf(rows[r].ts, g) in Times(PointsOf(answer, name))
    {
      var i := RowInExactlyOneBucket(rows, g, answer, r);
      assert Times(PointsOf(answer, name))[i] == BucketOf(rows[r].ts, g);
    }
  }

  /** Downsampling conserves: averages times counts add up to the raw total of the metric. */
  lemma DownsamplingConserves(rows: seq<Row>, g: nat, answer: seq<Group>, name: string)
    requires IsTier(g) && IsGrouping(rows, g, answer)
    ensures Ascending(PointsOf(answer, name))
    ensures Weighted(rows, name, PointsOf(answer, name), g) == Total(rows, name)
  {
    PointsAscend(answer, name);
    PointsAreAverages(rows, g, answer, name);
    PointsCover(rows, g, answer, name);
    BucketsShareTotal(rows, name, Times(PointsOf(answer, name)), g);
  }

  // ------------------------------------------------------------------ size

  lemma {:induction false} CountedRow(rows: seq<Row>, name: string, bucket: int, g: nat) returns (r: nat)
    requires g > 0 && CountIn(rows, name, bucket, g) > 0
    ensures r < |rows| && InGroup(rows[r], name, bucket, g)
  {
    if InGroup(rows[|rows| - 1], name, bucket, g) {
      r := |rows| - 1;
    } else {
      r := CountedRow(rows[..|rows| - 1], name, bucket, g);
    }
  }

  lemma {:induction false} SelectedInRange(rows: seq<Row>, member: string, names: seq<string>, from: int, to: int)
    ensures forall r :: r in Selected(rows, member, names, from, to) ==> from <= r.ts <= to
  {
    if rows != [] {
      SelectedInRange(rows[..|rows| - 1], member, names, from, to);
    }
  }

  /** The times are these multiples of the bucket width. */
  predicate AreMultiples(points: seq<DataPoint>, qs: seq<int>, g: nat) {
    |qs| == |points| && forall i :: 0 <= i < |points| ==> points[i].ts == qs[i] * g
  }

  lemma {:induction false} AscendingMultiples(points: seq<DataPoint>, qs: seq<int>, g: nat)
    requires g > 0 && Ascending(points) && AreMultiples(points, qs, g) && points != []
    ensures qs[|qs| - 1] >= qs[0] + |qs| - 1
  {
    if |points| > 1 {
      var n := |points| - 1;
      AscendingMultiples(points[..n], qs[..n], g);
      if qs[n] <= qs[n - 1] {
        MultiplesKeepOrder(qs[n], qs[n - 1], g);
      }
      assert points[n - 1].ts < points[n].ts;
    }
  }

  lemma MultiplesKeepOrder(a: int, b: int, g: nat)
    requires a <= b
    ensures a * g <= b * g
  {
    assert (b - a) * g >= 0;
    assert (b - a) * g == b * g - a * g;
  }

  /** A range query returns at most 241, 361 and 577 points per metric in the 30 s, 120 s and 300 s tiers. */
  lemma TierSizes(table: seq<Row>, member: string, names: seq<string>, start: int, end: int, answer: seq<Group>, name: string)
    requires GroupInterval(start, end) in {30, 120, 300} && IsAnswer(table, member, names, start, end, answer)
    ensures var n, g := |PointsOf(answer, name)|, GroupInterval(start, end);
            (g == 30 ==> n <= 241) && (g == 120 ==> n <= 361) && (g == 300 ==> n <= 577)
  {
    var g, from, to := GroupInterval(start, end), Seconds(start), Seconds(end);
    var rows, points := Selected(table, member, names, from, to), PointsOf(answer, name);
    SelectedInRange(table, member, names, from, to);
    PointsAscend(answer, name);
    var qs: seq<int> := [];
    for n := 0 to |points|
      invariant |qs| == n
      invariant forall i :: 0 <= i < n ==> points[i].ts == qs[i] * g && Quotient(from, g) <= qs[i] <= Quotient(to, g)
    {
      var k := PointIsGroup(answer, name, n);
      assert IsAverage(rows, answer[k], g);
      var r := CountedRow(rows, name, points[n].ts, g);
      assert rows[r] in rows;
      QuotientMonotone(from, rows[r].ts, g);
      QuotientMonotone(rows[r].ts, to, g);
      qs := qs + [Quotient(rows[r].ts, g)];
    }
    WindowFits(start, end);
    QuotientSpread(from, to, g, MaxWidths(g));
    if points != [] {
      AscendingMultiples(points, qs, g);
    }
  }

  // --------------------------------------------------- back to the table

  /** A row is selected exactly when it is the member's, of an asked metric and in the window, as
      often as the table holds it. */
  lemma {:induction false} SelectedExactly(table: seq<Row>, member: string, names: seq<string>, from: int, to: int, r: Row)
    ensures multiset(Selected(table, member, names, from, to))[r]
            == if r.member == member && r.name in names && from <= r.ts <= to then multiset(table)[r] else 0
  {
    if table != [] {
      var init, last := table[..|table| - 1], table[|table| - 1];
      assert table == init + [last];
      SelectedExactly(init, member, names, from, to, r);
    }
  }

  /** How many rows of the table are the member's, of the metric and in a span of time, and their sum. */
  function WindowCount(table: seq<Row>, member: string, name: string, from: int, to: int): nat {
    if table == [] then 0
    else
      var last := table[|table| - 1];
      WindowCount(table[..|table| - 1], member, name, from, to)
      + if last.member == member && last.name == name && from <= last.ts <= to then 1 else 0
  }

  function WindowSum(table: seq<Row>, member: string, name: string, from: int, to: int): real {
    if table == [] then 0.0
    else
      var last := table[|table| - 1];
      WindowSum(table[..|table| - 1], member, name, from, to)
      + if last.member == member && last.name == name && from <= last.ts <= to then last.value else 0.0
  }

  function Later(a: int, b: int): int {
    if a < b then b else a
  }

  function Earlier(a: int, b: int): int {
    if a < b then a else b
  }

  /** The points of a metric without averaging: the member's rows in the window, each as often as
      the table holds it, by ascending time. */
  ghost predicate AreRows(table: seq<Row>, member: string, name: string, from: int, to: int, points: seq<DataPoint>) {
    && (forall i, j :: 0 <= i < j < |points| ==> points[i].ts <= points[j].ts)
    && (forall ts, v :: multiset(points)[DataPoint(ts, v)]
                        == if from <= ts <= to then multiset(table)[Row(ts, member, name, v)] else 0)
  }

  /** The point averages the member's rows of the metric in its span of the window, of which there is one. */
  ghost predicate IsMean(table: seq<Row>, member: string, name: string, from: int, to: int, width: nat, p: DataPoint)
    requires width > 0
  {
    var lo, hi := Later(from, p.ts), Earlier(to, p.ts + width - 1);
    && p.ts % width == 0
    && WindowCount(table, member, name, lo, hi) > 0
    && p.value * (WindowCount(table, member, name, lo, hi) as real) == WindowSum(table, member, name, lo, hi)
  }

  predicate Spans(points: seq<DataPoint>, width: nat, ts: int) {
    exists i :: 0 <= i < |points| && points[i].ts <= ts < points[i].ts + width
  }

  /** The points of a metric with averaging: means of spans of the given width, by ascending time,
      that together hold every row of the window. */
  ghost predicate AreMeans(table: seq<Row>, member: string, name: string, from: int, to: int, width: nat, points: seq<DataPoint>)
    requires width > 0
  {
    && (forall i, j :: 0 <= i < j < |points| ==> points[i].ts < points[j].ts)
    && (forall i :: 0 <= i < |points| ==> IsMean(table, member, name, from, to, width, points[i]))
    && (forall r :: r in table && r.member == member && r.name == name && from <= r.ts <= to ==> Spans(points, width, r.ts))
  }

  /** What a range query, in nanoseconds, shows of a metric. Up to half an hour it shows the rows
      themselves, up to two hours means over 30 s, up to twelve over 120 s, up to two days over
      300 s, beyond over 600 s. */
  ghost predicate ShowsMetric(table: seq<Row>, member: string, start: int, end: int, name: string, points: seq<DataPoint>) {
    var long, from, to := end - start, Seconds(start), Seconds(end);
    if long <= 1_800_000_000_000 then AreRows(table, member, name, from, to, points)
    else
      from >= 0 ==>
        AreMeans(table, member, name, from, to,
                 if long <= 7_200_000_000_000 then 30
                 else if long <= 43_200_000_000_000 then 120
                 else if long <= 172_800_000_000_000 then 300
                 else 600, points)
  }

  /** A range query shows the asked metrics and no others. */
  ghost predicate ShowsWindow(table: seq<Row>, member: string, names: seq<string>, start: int, end: int, result: map<string, seq<DataPoint>>) {
    && (forall name :: name in result ==> name in names && result[name] != [])
    && (forall name :: name in names ==>
          ShowsMetric(table, member, start, end, name, if name in result then result[name] else []))
  }

  lemma {:induction false} PointsCount(answer: seq<Group>, name: string, ts: int, v: real)
    ensures multiset(PointsOf(answer, name))[DataPoint(ts, v)] == multiset(answer)[Group(ts, name, v)]
  {
    if answer != [] {
      var init, last := answer[..|answer| - 1], answer[|answer| - 1];
      assert answer == init + [last];
      PointsCount(init, name, ts, v);
    }
  }

  lemma {:induction false} GroupsCount(table: seq<Row>, member: string, names: seq<string>, from: int, to: int,
                                       name: string, ts: int, v: real)
    ensures AsGroups(Selected(table, member, names, from, to))[Group(ts, name, v)]
            == if name in names && from <= ts <= to then multiset(table)[Row(ts, member, name, v)] else 0
  {
    if table != [] {
      var init, last := table[..|table| - 1], table[|table| - 1];
      assert table == init + [last];
      GroupsCount(init, member, names, from, to, name, ts, v);
      SelectedSnoc(init, last, member, names, from, to);
      GroupsSnoc(Selected(init, member, names, from, to), last);
      SameRow(last, member, name, ts, v);
      CountSnoc(init, last, Row(ts, member, name, v));
    }
  }

  lemma SameRow(r: Row, member: string, name: string, ts: int, v: real)
    ensures r == Row(ts, member, name, v) <==> r.member == member && AsGroup(r) == Group(ts, name, v)
  {
  }

  lemma CountSnoc(table: seq<Row>, last: Row, r: Row)
    ensures multiset(table + [last])[r] == multiset(table)[r] + if last == r then 1 else 0
  {
  }

  lemma GroupsSnoc(rows: seq<Row>, r: Row)
    ensures AsGroups(rows + [r]) == AsGroups(rows) + multiset{AsGroup(r)}
  {
    assert (rows + [r])[..|rows|] == rows;
  }

  lemma {:induction false} PointsByTime(answer: seq<Group>, name: string)
    requires ByTime(answer)
    ensures forall i, j :: 0 <= i < j < |PointsOf(answer, name)| ==> PointsOf(answer, name)[i].ts <= PointsOf(answer, name)[j].ts
    ensures answer != [] ==> forall i :: 0 <= i < |PointsOf(answer, name)| ==> PointsOf(answer, name)[i].ts <= answer[|answer| - 1].ts
  {
    if answer != [] {
      PointsByTime(answer[..|answer| - 1], name);
    }
  }

  lemma RawShowsRows(table: seq<Row>, member: string, names: seq<string>, from: int, to: int, answer: seq<Group>, name: string)
    requires IsRaw(Selected(table, member, names, from, to), answer)
    ensures name in names ==> AreRows(table, member, name, from, to, PointsOf(answer, name))
    ensures name !in names ==> PointsOf(answer, name) == []
  {
    var points := PointsOf(answer, name);
    assert points != [] ==> points[0] in points;
    PointsByTime(answer, name);
    forall ts, v
      ensures multiset(points)[DataPoint(ts, v)]
              == if name in names && from <= ts <= to then multiset(table)[Row(ts, member, name, v)] else 0
    {
      PointsCount(answer, name, ts, v);
      GroupsCount(table, member, names, from, to, name, ts, v);
    }
    if name !in names {
      forall p ensures p !in points {
        assert multiset(points)[DataPoint(p.ts, p.value)] == 0;
      }
    }
  }

  lemma DivideUp(t: int, g: nat)
    requires g > 0
    ensures t / g * g <= t < t / g * g + g
    ensures t % g == 0 <==> t == t / g * g
  {
    var q, m := t / g, t % g;
    assert t == q * g + m;
  }

  lemma {:induction false} MultipleOf(q: nat, g: nat)
    requires g > 0
    ensures (q * g) % g == 0 && q * g >= 0
  {
    DivideUp(q * g, g);
    SameMultiple(q * g / g, q, g, q * g);
  }

  lemma SameMultiple(q: int, k: int, g: nat, t: int)
    requires q * g <= t < q * g + g && k * g <= t < k * g + g
    ensures q == k
  {
    assert (k + 1) * g == k * g + g && (q + 1) * g == q * g + g;
    if q > k {
      MultiplesKeepOrder(k + 1, q, g);
    } else if q < k {
      MultiplesKeepOrder(q + 1, k, g);
    }
  }

  /** From 1970 on a bucket holds its own width of seconds. */
  lemma BucketSpan(ts: int, g: nat)
    requires g > 0 && ts >= 0
    ensures BucketOf(ts, g) <= ts < BucketOf(ts, g) + g && BucketOf(ts, g) % g == 0 && BucketOf(ts, g) >= 0
  {
    DivideUp(ts, g);
    assert ts / g >= 0;
    MultipleOf(ts / g, g);
  }

  /** A span of the width of a bucket that starts where one may is that bucket. */
  lemma SpanIsBucket(ts: int, start: int, g: nat)
    requires g > 0 && ts >= 0 && start % g == 0
    ensures BucketOf(ts, g) == start <==> start <= ts < start + g
  {
    BucketSpan(ts, g);
    DivideUp(start, g);
    DivideUp(ts, g);
    if start <= ts < start + g {
      SameMultiple(ts / g, start / g, g, ts);
    }
  }

  lemma WindowSnoc(table: seq<Row>, r: Row, member: string, name: string, from: int, to: int)
    ensures var hit := r.member == member && r.name == name && from <= r.ts <= to;
            && WindowCount(table + [r], member, name, from, to) == WindowCount(table, member, name, from, to) + (if hit then 1 else 0)
            && WindowSum(table + [r], member, name, from, to) == WindowSum(table, member, name, from, to) + if hit then r.value else 0.0
  {
    assert (table + [r])[..|table|] == table;
  }

  lemma GroupSnoc(rows: seq<Row>, r: Row, name: string, bucket: int, g: nat)
    requires g > 0
    ensures CountIn(rows + [r], name, bucket, g) == CountIn(rows, name, bucket, g) + if InGroup(r, name, bucket, g) then 1 else 0
    ensures SumIn(rows + [r], name, bucket, g) == SumIn(rows, name, bucket, g) + if InGroup(r, name, bucket, g) then r.value else 0.0
  {
    assert (rows + [r])[..|rows|] == rows;
  }

  lemma SelectedSnoc(table: seq<Row>, r: Row, member: string, names: seq<string>, from: int, to: int)
    ensures Selected(table + [r], member, names, from, to)
            == if r.member == member && r.name in names && from <= r.ts <= to
               then Selected(table, member, names, from, to) + [r] else Selected(table, member, names, from, to)
  {
    assert (table + [r])[..|table|] == table;
  }

  /** Counting and summing the group of a bucket is counting and summing its span of the table. */
  lemma {:induction false} GroupOfTable(table: seq<Row>, member: string, names: seq<string>, from: int, to: int, name: string, start: int, g: nat)
    requires IsTier(g) && from >= 0 && start % g == 0 && name in names
    ensures var rows, lo, hi := Selected(table, member, names, from, to), Later(from, start), Earlier(to, start + g - 1);
            && CountIn(rows, name, start, g) == WindowCount(table, member, name, lo, hi)
            && SumIn(rows, name, start, g) == WindowSum(table, member, name, lo, hi)
  {
    if table != [] {
      var init, last := table[..|table| - 1], table[|table| - 1];
      assert table == init + [last];
      GroupOfTable(init, member, names, from, to, name, start, g);
      if last.ts >= 0 {
        SpanIsBucket(last.ts, start, g);
      }
      SelectedSnoc(init, last, member, names, from, to);
      GroupSnoc(Selected(init, member, names, from, to), last, name, start, g);
      WindowSnoc(init, last, member, name, Later(from, start), Earlier(to, start + g - 1));
    }
  }

  lemma {:induction false} SelectedMembers(table: seq<Row>, member: string, names: seq<string>, from: int, to: int)
    ensures forall r :: r in Selected(table, member, names, from, to)
                        <==> r in table && r.member == member && r.name in names && from <= r.ts <= to
  {
    forall r ensures r in Selected(table, member, names, from, to)
                     <==> r in table && r.member == member && r.name in names && from <= r.ts <= to
    {
      SelectedExactly(table, member, names, from, to, r);
      assert r in multiset(Selected(table, member, names, from, to)) <==> r in Selected(table, member, names, from, to);
      assert r in multiset(table) <==> r in table;
    }
  }

  /** Behind every point stands a row of the window, of an asked metric. */
  lemma PointHasRow(table: seq<Row>, member: string, names: seq<string>, from: int, to: int, g: nat, answer: seq<Group>, name: string, i: nat)
    requires IsTier(g) && IsGrouping(Selected(table, member, names, from, to), g, answer)
    requires i < |PointsOf(answer, name)|
    ensures name in names
    ensures IsAverage(Selected(table, member, names, from, to), Group(PointsOf(answer, name)[i].ts, name, PointsOf(answer, name)[i].value), g)
    ensures from >= 0 ==> PointsOf(answer, name)[i].ts % g == 0
  {
    var rows := Selected(table, member, names, from, to);
    SelectedMembers(table, member, names, from, to);
    var k := PointIsGroup(answer, name, i);
    assert IsAverage(rows, answer[k], g);
    var r := CountedRow(rows, name, answer[k].ts, g);
    assert rows[r] in rows;
    if from >= 0 {
      BucketSpan(rows[r].ts, g);
    }
  }

  lemma MeanOf(table: seq<Row>, member: string, name: string, from: int, to: int, g: nat, p: DataPoint, rows: seq<Row>)
    requires g > 0 && p.ts % g == 0 && IsAverage(rows, Group(p.ts, name, p.value), g)
    requires CountIn(rows, name, p.ts, g) == WindowCount(table, member, name, Later(from, p.ts), Earlier(to, p.ts + g - 1))
    requires SumIn(rows, name, p.ts, g) == WindowSum(table, member, name, Later(from, p.ts), Earlier(to, p.ts + g - 1))
    ensures IsMean(table, member, name, from, to, g, p)
  {
  }

  lemma AverageOfTable(table: seq<Row>, member: string, names: seq<string>, from: int, to: int, g: nat, p: DataPoint, name: string)
    requires IsTier(g) && from >= 0 && p.ts % g == 0 && name in names
    requires IsAverage(Selected(table, member, names, from, to), Group(p.ts, name, p.value), g)
    ensures IsMean(table, member, name, from, to, g, p)
  {
    GroupOfTable(table, member, names, from, to, name, p.ts, g);
    MeanOf(table, member, name, from, to, g, p, Selected(table, member, names, from, to));
  }

  lemma PointIsMean(table: seq<Row>, member: string, names: seq<string>, from: int, to: int, g: nat, answer: seq<Group>, name: string, i: nat)
    requires IsTier(g) && from >= 0 && IsGrouping(Selected(table, member, names, from, to), g, answer)
    requires i < |PointsOf(answer, name)|
    ensures IsMean(table, member, name, from, to, g, PointsOf(answer, name)[i])
  {
    var p := PointsOf(answer, name)[i];
    PointHasRow(table, member, names, from, to, g, answer, name, i);
    AverageOfTable(table, member, names, from, to, g, p, name);
  }

  lemma MeansShowRows(table: seq<Row>, member: string, names: seq<string>, from: int, to: int, g: nat, answer: seq<Group>, name: string)
    requires IsTier(g) && from >= 0 && IsGrouping(Selected(table, member, names, from, to), g, answer) && name in names
    ensures AreMeans(table, member, name, from, to, g, PointsOf(answer, name))
  {
    var rows, points := Selected(table, member, names, from, to), PointsOf(answer, name);
    PointsAscend(answer, name);
    forall i | 0 <= i < |points| ensures IsMean(table, member, name, from, to, g, points[i]) {
      PointIsMean(table, member, names, from, to, g, answer, name, i);
    }
    SelectedMembers(table, member, names, from, to);
    forall r | r in table && r.member == member && r.name == name && from <= r.ts <= to ensures Spans(points, g, r.ts) {
      var j :| 0 <= j < |rows| && rows[j] == r;
      var i := RowInExactlyOneBucket(rows, g, answer, j);
      BucketSpan(r.ts, g);
    }
  }

  lemma TotalSnoc(rows: seq<Row>, r: Row, name: string)
    ensures Total(rows + [r], name) == Total(rows, name) + if r.name == name then r.value else 0.0
  {
    assert (rows + [r])[..|rows|] == rows;
  }

  lemma {:induction false} TotalIsWindow(table: seq<Row>, member: string, names: seq<string>, from: int, to: int, name: string)
    requires name in names
    ensures Total(Selected(table, member, names, from, to), name) == WindowSum(table, member, name, from, to)
  {
    if table != [] {
      var init, last := table[..|table| - 1], table[|table| - 1];
      assert table == init + [last];
      TotalIsWindow(init, member, names, from, to, name);
      SelectedSnoc(init, last, member, names, from, to);
      WindowSnoc(init, last, member, name, from, to);
      TotalSnoc(Selected(init, member, names, from, to), last, name);
    }
  }

  /** The means of an asked metric, each counted once for every row it stands for, add up to the sum
      of the member's rows in the window. */
  lemma TableIsConserved(table: seq<Row>, member: string, names: seq<string>, start: int, end: int, answer: seq<Group>, name: string)
    requires name in names && IsTier(GroupInterval(start, end)) && IsAnswer(table, member, names, start, end, answer)
    ensures Weighted(Selected(table, member, names, Seconds(start), Seconds(end)), name, PointsOf(answer, name), GroupInterval(start, end))
            == WindowSum(table, member, name, Seconds(start), Seconds(end))
  {
    var rows := Selected(table, member, names, Seconds(start), Seconds(end));
    DownsamplingConserves(rows, GroupInterval(start, end), answer, name);
    TotalIsWindow(table, member, names, Seconds(start), Seconds(end), name);
  }

  lemma NotAskedNotShown(table: seq<Row>, member: string, names: seq<string>, from: int, to: int, g: nat, answer: seq<Group>, name: string)
    requires IsTier(g) && IsGrouping(Selected(table, member, names, from, to), g, answer) && name !in names
    ensures PointsOf(answer, name) == []
  {
    if PointsOf(answer, name) != [] {
      PointHasRow(table, member, names, from, to, g, answer, name, 0);
    }
  }

  lemma MetricShown(table: seq<Row>, member: string, names: seq<string>, start: int, end: int, answer: seq<Group>, name: string)
    requires IsAnswer(table, member, names, start, end, answer)
    ensures name in names ==> ShowsMetric(table, member, start, end, name, PointsOf(answer, name))
    ensures name !in names ==> PointsOf(answer, name) == []
  {
    var g, from, to := GroupInterval(start, end), Seconds(start), Seconds(end);
    if g == 0 {
      RawShowsRows(table, member, names, from, to, answer, name);
    } else if name !in names {
      NotAskedNotShown(table, member, names, from, to, g, answer, name);
    } else if from >= 0 {
      MeansShowRows(table, member, names, from, to, g, answer, name);
    }
  }

  lemma AnswerShowsWindow(table: seq<Row>, member: string, names: seq<string>, start: int, end: int, answer: seq<Group>,
                          result: map<string, seq<DataPoint>>)
    requires IsAnswer(table, member, names, start, end, answer)
    requires forall name :: name in result <==> PointsOf(answer, name) != []
    requires forall name :: name in result ==> result[name] == PointsOf(answer, name)
    ensures ShowsWindow(table, member, names, start, end, result)
  {
    forall name
      ensures name in result ==> name in names && result[name] != []
      ensures name in names ==> ShowsMetric(table, member, start, end, name, if name in result then result[name] else [])
    {
      MetricShown(table, member, names, start, end, answer, name);
    }
  }

  /** The points of each metric in a range: the tier is chosen by the length of the range, the
      statement for it is put to the table, and its answer is filed by metric. */
  method QueryRange(table: seq<Row>, member: string, names: seq<string>, start: int, end: int)
    returns (result: Option<map<string, seq<DataPoint>>>, ghost answer: seq<Group>)
    ensures result.None? <==> names == []
    ensures result.Some? ==> ShowsWindow(table, member, names, start, end, result.value)
    ensures result.Some? ==> IsAnswer(table, member, names, start, end, answer)
    ensures result.Some? ==> forall name :: name in result.value <==> PointsOf(answer, name) != []
    ensures result.Some? ==> forall name :: name in result.value ==> result.value[name] == PointsOf(answer, name)
  {
    answer := [];
    if |names| == 0 {
      return None, answer;
    }
    var groupInterval := GroupInterval(start, end);
    var selected := SelectRows(table, member, names, Seconds(start), Seconds(end));
    var rows;
    if groupInterval == 0 {
      rows := SelectRaw(selected);
    } else {
      rows := SelectAverages(selected, groupInterval);
    }
    var points := CollectPoints(rows);
    AnswerShowsWindow(table, member, names, start, end, rows, points);
    return Some(points), rows;
  }
}
