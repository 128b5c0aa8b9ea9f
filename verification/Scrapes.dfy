/** What the collector remembers of a member between scrapes, and the rates that come of it. */
module Scrapes {
  import opened Options
  import opened Rates

  /** The names the collector works with: the counters given a rate, by name and by prefix, and the
      entries it treats on its own. */
  datatype Names = Names(exact: seq<string>, prefixes: seq<string>, failedTotal: string, failedRate: string,
                         cpuTotal: string, cpuPercent: string, collectorUp: string)

  function ValueOf(s: Snapshot, key: string): real {
    if key in s then s[key] else 0.0
  }

  /** What is remembered of a member between scrapes: two snapshots and one time. */
  datatype Memory = Memory(prev: Option<Snapshot>, prevTs: Option<real>, latest: Option<Snapshot>)

  /** The two rates with names of their own. */
  function NamedRates(scraped: Snapshot, prev: Snapshot, elapsed: real, names: Names): Snapshot
    requires elapsed != 0.0
  {
    var failed := ValueOf(scraped, names.failedTotal) - ValueOf(prev, names.failedTotal);
    var s := if failed >= 0.0 then scraped[names.failedRate := failed / elapsed] else scraped;
    var cpu := ValueOf(s, names.cpuTotal) - ValueOf(prev, names.cpuTotal);
    if cpu >= 0.0 then s[names.cpuPercent := cpu / elapsed * 100.0] else s
  }

  function Derived(scraped: Snapshot, prev: Snapshot, elapsed: real, names: Names): Snapshot
    requires elapsed != 0.0
  {
    WithRates(NamedRates(scraped, prev, elapsed, names), prev, elapsed, names.exact, names.prefixes)
  }

  method ComputeNamedRates(scraped: Snapshot, prevSnapshot: Snapshot, elapsed: real, names: Names) returns (snapshot: Snapshot)
    requires elapsed != 0.0
    ensures snapshot == NamedRates(scraped, prevSnapshot, elapsed, names)
  {
    snapshot := scraped;
    var prevFailed, curFailed := ValueOf(prevSnapshot, names.failedTotal), ValueOf(snapshot, names.failedTotal);
    if curFailed >= prevFailed {
      snapshot := snapshot[names.failedRate := (curFailed - prevFailed) / elapsed];
    }
    var prevCPU, curCPU := ValueOf(prevSnapshot, names.cpuTotal), ValueOf(snapshot, names.cpuTotal);
    if curCPU >= prevCPU {
      snapshot := snapshot[names.cpuPercent := (curCPU - prevCPU) / elapsed * 100.0];
    }
  }

  /** The snapshot with rates when there is a baseline and time has passed. */
  function RatedSince(scraped: Snapshot, prev: Snapshot, elapsed: real, names: Names): Snapshot {
    if elapsed > 0.0 then Derived(scraped, prev, elapsed, names) else scraped
  }

  /** The snapshot a scrape yields, against what is remembered. */
  function Yield(m: Memory, scraped: Snapshot, now: real, names: Names): Snapshot {
    if m.prevTs.Some? && m.prev.Some? then RatedSince(scraped, m.prev.value, now - m.prevTs.value, names) else scraped
  }

  /** After a scrape the baseline moves to the previous scrape's snapshot, the time to this one's. */
  function AfterScrape(m: Memory, scraped: Snapshot, now: real, names: Names): Memory {
    Memory(m.latest, Some(now), Some(Yield(m, scraped, now, names)))
  }

  method RatesSince(scraped: Snapshot, prevSnapshot: Snapshot, elapsed: real, names: Names)
    returns (snapshot: Snapshot)
    ensures snapshot == RatedSince(scraped, prevSnapshot, elapsed, names)
  {
    snapshot := scraped;
    if elapsed > 0.0 {
      snapshot := ComputeNamedRates(snapshot, prevSnapshot, elapsed, names);
      snapshot := ComputeRates(snapshot, prevSnapshot, elapsed, names.exact, names.prefixes);
    }
  }

  class Collector {
    var prev: map<string, Snapshot>
    var prevTs: map<string, real>
    var latest: map<string, Snapshot>
    const names: Names

    constructor (names: Names)
      ensures this.names == names && prev == map[] && prevTs == map[] && latest == map[]
    {
      this.names := names;
      prev, prevTs, latest := map[], map[], map[];
    }

    ghost function MemoryOf(member: string): Memory
      reads this
    {
      Memory(if member in prev then Some(prev[member]) else None,
             if member in prevTs then Some(prevTs[member]) else None,
             if member in latest then Some(latest[member]) else None)
    }

    /** The rates of a scrape against what is remembered of the member. */
    method DeriveRates(member: string, scraped: Snapshot, now: real) returns (snapshot: Snapshot)
      ensures snapshot == Yield(MemoryOf(member), scraped, now, names)
    {
      snapshot := scraped;
      ghost var m := MemoryOf(member);
      if member in prevTs && member in prev {
        assert m.prev == Some(prev[member]) && m.prevTs == Some(prevTs[member]);
        snapshot := RatesSince(snapshot, prev[member], now - prevTs[member], names);
      }
    }

    /** The end of parseMetrics: derives the rates of a scrape and moves the baseline. */
    method RecordScrape(member: string, scraped: Snapshot, now: real) returns (snapshot: Snapshot)
      modifies this
      ensures snapshot == Yield(old(MemoryOf(member)), scraped, now, names)
      ensures MemoryOf(member) == Memory(old(MemoryOf(member)).latest, Some(now), Some(snapshot))
      ensures MemoryOf(member) == AfterScrape(old(MemoryOf(member)), scraped, now, names)
      ensures forall other :: other != member ==> MemoryOf(other) == old(MemoryOf(other))
    {
      snapshot := DeriveRates(member, scraped, now);
      if member in latest {
        prev := prev[member := latest[member]];
      } else {
        prev := prev - {member};
      }
      prevTs := prevTs[member := now];
      latest := latest[member := snapshot];
    }

    /** A scrape that failed only marks the member as down. */
    method RecordFailure(member: string)
      modifies this
      ensures MemoryOf(member)
              == var m := old(MemoryOf(member)); m.(latest := Some(m.latest.GetOr(map[])[names.collectorUp := 0.0]))
      ensures forall other :: other != member ==> MemoryOf(other) == old(MemoryOf(other))
    {
      if member !in latest {
        latest := latest[member := map[]];
      }
      latest := latest[member := latest[member][names.collectorUp := 0.0]];
    }
  }

  /** A counter of the scrape: not a derived entry. */
  predicate IsCounterKey(key: string, names: Names) {
    !IsRateKey(key) && key != names.failedRate && key != names.cpuPercent && key != names.collectorUp
  }

  lemma NamedRatesKeepCounters(s: Snapshot, prev: Snapshot, elapsed: real, names: Names, key: string)
    requires elapsed != 0.0 && IsCounterKey(key, names) && key in s
    ensures var r := NamedRates(s, prev, elapsed, names); key in r && r[key] == s[key]
  {
  }

  /** Deriving rates keeps every counter. */
  lemma YieldKeepsCounters(m: Memory, scraped: Snapshot, now: real, names: Names, key: string)
    requires IsCounterKey(key, names) && key in scraped
    ensures var s := Yield(m, scraped, now, names); key in s && s[key] == scraped[key]
  {
    if m.prevTs.Some? && m.prev.Some? && now - m.prevTs.value > 0.0 {
      var prev, elapsed := m.prev.value, now - m.prevTs.value;
      NamedRatesKeepCounters(scraped, prev, elapsed, names, key);
      WithRatesKeepsCounters(NamedRates(scraped, prev, elapsed, names), prev, elapsed, names.exact, names.prefixes, key);
    }
  }

  /** Where an entry of its own name stands for a counter that has not fallen, a missing counter
      counting as 0: its growth per second, times a factor. */
  predicate IsNamedRate(scraped: Snapshot, prev: Snapshot, after: Snapshot, total: string, rate: string, elapsed: real, factor: real)
    requires elapsed != 0.0
  {
    var cur, was := if total in scraped then scraped[total] else 0.0, if total in prev then prev[total] else 0.0;
    if cur >= was then rate in after && after[rate] == (cur - was) / elapsed * factor else SameAt(scraped, after, rate)
  }

  /** The four names are used for four different things. */
  predicate Separate(names: Names) {
    && names.failedRate != names.cpuTotal && names.failedRate != names.cpuPercent
    && names.failedTotal != names.failedRate && names.cpuTotal != names.cpuPercent
  }

  lemma NamedRatesAre(scraped: Snapshot, prev: Snapshot, elapsed: real, names: Names)
    requires elapsed != 0.0 && Separate(names)
    ensures var after := NamedRates(scraped, prev, elapsed, names);
            && IsNamedRate(scraped, prev, after, names.failedTotal, names.failedRate, elapsed, 1.0)
            && IsNamedRate(scraped, prev, after, names.cpuTotal, names.cpuPercent, elapsed, 100.0)
            && forall key :: key != names.failedRate && key != names.cpuPercent ==> SameAt(scraped, after, key)
  {
  }

  /** No counter's derived entry has the name. */
  predicate NotDerived(key: string, names: Names) {
    && (forall i :: 0 <= i < |names.exact| ==> names.exact[i] + RATE != key)
    && (IsRateKey(key) ==> !HasPrefixIn(Base(key), names.prefixes))
  }

  lemma {:induction false} ExactElsewhere(s: Snapshot, prev: Snapshot, elapsed: real, keys: seq<string>, key: string)
    requires elapsed != 0.0 && forall i :: 0 <= i < |keys| ==> keys[i] + RATE != key
    ensures SameAt(s, ExactRates(s, prev, elapsed, keys), key)
  {
    if keys != [] {
      ExactElsewhere(s, prev, elapsed, keys[..|keys| - 1], key);
    }
  }

  lemma PrefixElsewhere(s: Snapshot, prev: Snapshot, elapsed: real, prefixes: seq<string>, key: string)
    requires elapsed != 0.0 && (IsRateKey(key) ==> !HasPrefixIn(Base(key), prefixes))
    ensures SameAt(s, PrefixRates(s, prev, elapsed, prefixes, s.Keys), key)
  {
    if key in RateKeys(s, prev, prefixes, s.Keys) {
      BaseIsRated(s, prev, prefixes, s.Keys, key);
    }
  }

  lemma DerivedElsewhere(s: Snapshot, prev: Snapshot, elapsed: real, names: Names, key: string)
    requires elapsed != 0.0 && NotDerived(key, names)
    ensures SameAt(s, WithRates(s, prev, elapsed, names.exact, names.prefixes), key)
  {
    ExactElsewhere(s, prev, elapsed, names.exact, key);
    PrefixElsewhere(ExactRates(s, prev, elapsed, names.exact), prev, elapsed, names.prefixes, key);
  }

  /** The two rates with names of their own: what a scrape reports under them, against the baseline
      and the time remembered; without a baseline, or when no time has passed, it adds nothing at all. */
  lemma NamedRatesExactly(m: Memory, scraped: Snapshot, now: real, names: Names)
    requires Separate(names) && NotDerived(names.failedRate, names) && NotDerived(names.cpuPercent, names)
    ensures var after := Yield(m, scraped, now, names);
            if m.prev.Some? && m.prevTs.Some? && now > m.prevTs.value then
              && IsNamedRate(scraped, m.prev.value, after, names.failedTotal, names.failedRate, now - m.prevTs.value, 1.0)
              && IsNamedRate(scraped, m.prev.value, after, names.cpuTotal, names.cpuPercent, now - m.prevTs.value, 100.0)
            else after == scraped
  {
    if m.prev.Some? && m.prevTs.Some? && now > m.prevTs.value {
      var prev, elapsed := m.prev.value, now - m.prevTs.value;
      NamedRatesAre(scraped, prev, elapsed, names);
      var named := NamedRates(scraped, prev, elapsed, names);
      DerivedElsewhere(named, prev, elapsed, names, names.failedRate);
      DerivedElsewhere(named, prev, elapsed, names, names.cpuPercent);
    }
  }

  // ------------------------------------------------------- rates over runs

  /** One attempt to scrape a member: when, and what was read, if anything. */
  datatype Scrape = Scrape(now: real, read: Option<Snapshot>)

  function Remember(run: seq<Scrape>, names: Names): Memory {
    if run == [] then Memory(None, None, None)
    else
      var m, last := Remember(run[..|run| - 1], names), run[|run| - 1];
      if last.read.Some? then AfterScrape(m, last.read.value, last.now, names)
      else m.(latest := Some(m.latest.GetOr(map[])[names.collectorUp := 0.0]))
  }

  /** A reading of one counter. */
  datatype Reading = Reading(now: real, x: real)

  /** The readings of a counter in a run, failed scrapes left out. */
  function Readings(run: seq<Scrape>, key: string): seq<Reading> {
    if run == [] then []
    else
      var last := run[|run| - 1];
      Readings(run[..|run| - 1], key)
      + if last.read.Some? && key in last.read.value then [Reading(last.now, last.read.value[key])] else []
  }

  /** The counter is in every snapshot that was read, and time goes on between them. */
  predicate Steady(run: seq<Scrape>, key: string) {
    && (forall i :: 0 <= i < |run| && run[i].read.Some? ==> key in run[i].read.value)
    && (forall i, j :: 0 <= i < j < |run| ==> run[i].now < run[j].now)
  }

  /** From the second reading on the remembered baseline is the last but one, the remembered time
      that of the last: the baseline lags behind. */
  lemma {:induction false} BaselineLags(run: seq<Scrape>, names: Names, key: string)
    requires Steady(run, key) && IsCounterKey(key, names)
    ensures var m, rs := Remember(run, names), Readings(run, key);
            && (|rs| >= 1 ==>
                  && m.prevTs == Some(rs[|rs| - 1].now)
                  && m.latest.Some? && key in m.latest.value && m.latest.value[key] == rs[|rs| - 1].x)
            && (|rs| >= 2 ==> m.prev.Some? && key in m.prev.value && m.prev.value[key] == rs[|rs| - 2].x)
  {
    if run != [] {
      var init, last := run[..|run| - 1], run[|run| - 1];
      BaselineLags(init, names, key);
      if last.read.Some? {
        YieldKeepsCounters(Remember(init, names), last.read.value, last.now, names, key);
      }
    }
  }

  /** Every reading was taken before a time that every scrape was. */
  lemma {:induction false} ReadingsBefore(run: seq<Scrape>, key: string, now: real)
    requires forall i :: 0 <= i < |run| ==> run[i].now < now
    ensures forall i :: 0 <= i < |Readings(run, key)| ==> Readings(run, key)[i].now < now
  {
    if run != [] {
      ReadingsBefore(run[..|run| - 1], key, now);
    }
  }

  lemma {:induction false} ReadingsAscend(run: seq<Scrape>, key: string)
    requires Steady(run, key)
    ensures forall i, j :: 0 <= i < j < |Readings(run, key)| ==> Readings(run, key)[i].now < Readings(run, key)[j].now
  {
    if run != [] {
      ReadingsAscend(run[..|run| - 1], key);
      ReadingsBefore(run[..|run| - 1], key, run[|run| - 1].now);
    }
  }

  lemma DerivedRate(scraped: Snapshot, prev: Snapshot, elapsed: real, names: Names, key: string)
    requires elapsed != 0.0 && IsCounterKey(key, names) && key in names.exact
    requires key in scraped && key in prev && scraped[key] >= prev[key]
    ensures var r := Derived(scraped, prev, elapsed, names);
            key + RATE in r && r[key + RATE] == RateOf(scraped[key], prev[key], elapsed)
  {
    NamedRatesKeepCounters(scraped, prev, elapsed, names, key);
    ExactKeyRated(NamedRates(scraped, prev, elapsed, names), prev, elapsed, names.exact, names.prefixes, key);
  }

  lemma YieldedRate(m: Memory, scraped: Snapshot, now: real, names: Names, key: string)
    requires IsCounterKey(key, names) && key in names.exact && key in scraped
    requires m.prev.Some? && m.prevTs.Some? && now > m.prevTs.value
    requires key in m.prev.value && scraped[key] >= m.prev.value[key]
    ensures var s := Yield(m, scraped, now, names);
            key + RATE in s && s[key + RATE] == RateOf(scraped[key], m.prev.value[key], now - m.prevTs.value)
  {
    var prev, elapsed := m.prev.value, now - m.prevTs.value;
    DerivedRate(scraped, prev, elapsed, names, key);
    assert Yield(m, scraped, now, names) == RatedSince(scraped, prev, elapsed, names) == Derived(scraped, prev, elapsed, names);
  }

  lemma LatestIsYield(init: seq<Scrape>, last: Scrape, names: Names)
    requires last.read.Some?
    ensures Remember(init + [last], names).latest == Some(Yield(Remember(init, names), last.read.value, last.now, names))
  {
    assert (init + [last])[..|init|] == init;
  }

  lemma ReadingsSnoc(init: seq<Scrape>, last: Scrape, key: string)
    requires last.read.Some? && key in last.read.value
    ensures Readings(init + [last], key) == Readings(init, key) + [Reading(last.now, last.read.value[key])]
  {
    assert (init + [last])[..|init|] == init;
  }

  /** What the third and every later reading reports for a counter that has not fallen: its growth
      over two intervals, divided by the length of the last one. */
  lemma ReportedRate(run: seq<Scrape>, names: Names, key: string)
    requires run != [] && run[|run| - 1].read.Some?
    requires Steady(run, key) && IsCounterKey(key, names) && key in names.exact
    requires var rs := Readings(run, key); |rs| >= 3 && rs[|rs| - 1].x >= rs[|rs| - 3].x
    ensures var rs, n := Readings(run, key), |Readings(run, key)|;
            var s := Remember(run, names).latest.GetOr(map[]);
            && rs[n - 1].now > rs[n - 2].now
            && key + RATE in s && s[key + RATE] == RateOf(rs[n - 1].x, rs[n - 3].x, rs[n - 1].now - rs[n - 2].now)
  {
    var init, last := run[..|run| - 1], run[|run| - 1];
    assert run == init + [last];
    BaselineLags(init, names, key);
    ReadingsAscend(run, key);
    ReadingsSnoc(init, last, key);
    LastThree(Readings(init, key), Reading(last.now, last.read.value[key]));
    var m, rs, n := Remember(init, names), Readings(run, key), |Readings(run, key)|;
    assert rs[n - 3].x == m.prev.value[key] && rs[n - 2].now == m.prevTs.value;
    assert rs[n - 1].x == last.read.value[key] && rs[n - 1].now == last.now;
    YieldedRate(m, last.read.value, last.now, names, key);
    LatestIsYield(init, last, names);
    var s := Yield(m, last.read.value, last.now, names);
    assert s[key + RATE] == RateOf(rs[n - 1].x, rs[n - 3].x, rs[n - 1].now - rs[n - 2].now);
  }

  lemma LastThree(before: seq<Reading>, last: Reading)
    requires |before| >= 2
    ensures var rs, n := before + [last], |before| + 1;
            rs[n - 1] == last && rs[n - 2] == before[n - 2] && rs[n - 3] == before[n - 3]
  {
  }

  lemma ShorterIsFaster(d: real, a: real, b: real)
    requires d > 0.0 && 0.0 < a < b
    ensures d / a > d / b
  {
    var r := d / b;
    assert r > 0.0 && r * b == d;
    assert r * a < r * b;
    assert d / a * a == d;
    assert (d / a - r) * a > 0.0;
  }

  lemma LaggingRate(x0: real, x2: real, t0: real, t1: real, t2: real)
    requires t0 < t1 < t2 && x0 <= x2
    ensures RateOf(x2, x0, t2 - t1) == RateOf(x2, x0, t2 - t0) <==> x2 == x0
    ensures RateOf(x2, x0, t2 - t1) == RateOf(x2, x0, t2 - t0) * ((t2 - t0) / (t2 - t1))
  {
    var d, a, b := x2 - x0, t2 - t1, t2 - t0;
    assert d / b * b == d;
    assert d / b * (b / a) == d / a;
    if d > 0.0 {
      ShorterIsFaster(d, a, b);
    }
  }

  /** In every run the rate reported is the counter's true mean rate since the baseline was read
      exactly when the counter has not moved: otherwise it is too high by the ratio of the spans. */
  lemma ReportedRateIsTrueExactly(run: seq<Scrape>, names: Names, key: string)
    requires run != [] && run[|run| - 1].read.Some?
    requires Steady(run, key) && IsCounterKey(key, names) && key in names.exact
    requires var rs := Readings(run, key); |rs| >= 3 && rs[|rs| - 1].x >= rs[|rs| - 3].x
    ensures var rs, n := Readings(run, key), |Readings(run, key)|;
            var s, from, mid, to := Remember(run, names).latest.GetOr(map[]), rs[n - 3], rs[n - 2], rs[n - 1];
            && from.now < mid.now < to.now && key + RATE in s
            && (s[key + RATE] == RateOf(to.x, from.x, to.now - from.now) <==> to.x == from.x)
            && s[key + RATE] == RateOf(to.x, from.x, to.now - from.now) * ((to.now - from.now) / (to.now - mid.now))
  {
    var rs, n := Readings(run, key), |Readings(run, key)|;
    ReportedRate(run, names, key);
    ReadingsAscend(run, key);
    LaggingRate(rs[n - 3].x, rs[n - 1].x, rs[n - 3].now, rs[n - 2].now, rs[n - 1].now);
  }

  /** Read at equal intervals, a counter growing at a steady rate is reported at twice that rate. */
  lemma SteadyCounterIsDoubled(run: seq<Scrape>, names: Names, key: string, rate: real, interval: real)
    requires run != [] && run[|run| - 1].read.Some?
    requires Steady(run, key) && IsCounterKey(key, names) && key in names.exact && |Readings(run, key)| >= 3
    requires rate >= 0.0 && interval > 0.0
    requires var rs := Readings(run, key); forall i :: 1 <= i < |rs| ==>
               rs[i].now == rs[i - 1].now + interval && rs[i].x == rs[i - 1].x + rate * interval
    ensures var s := Remember(run, names).latest.GetOr(map[]);
            key + RATE in s && s[key + RATE] == 2.0 * rate
  {
    var rs, n := Readings(run, key), |Readings(run, key)|;
    var step := rate * interval;
    assert step >= 0.0;
    assert rs[n - 1].x == rs[n - 2].x + step && rs[n - 2].x == rs[n - 3].x + step;
    ReportedRate(run, names, key);
    TwiceOver(rate, interval, step);
  }

  lemma TwiceOver(rate: real, interval: real, step: real)
    requires interval > 0.0 && step == rate * interval
    ensures (step + step) / interval == 2.0 * rate
  {
    assert 2.0 * rate * interval == step + step;
  }

  /** When the very first fetch of a member fails, the mark it leaves is taken for a baseline two
      scrapes later: the whole count of failed proposals is reported as if it had come since the
      scrape before. */
  lemma FailedStartIsABaseline(first: Scrape, second: Scrape, third: Scrape, names: Names)
    requires Separate(names) && NotDerived(names.failedRate, names) && NotDerived(names.cpuPercent, names)
    requires names.failedTotal != names.collectorUp
    requires first.read == None && second.read.Some? && third.read.Some? && second.now < third.now
    requires names.failedTotal in third.read.value && third.read.value[names.failedTotal] >= 0.0
    ensures var s := Remember([first, second, third], names).latest.GetOr(map[]);
            names.failedRate in s && s[names.failedRate] == third.read.value[names.failedTotal] / (third.now - second.now)
  {
    var m := Memory(Some(map[names.collectorUp := 0.0]), Some(second.now), Some(second.read.value));
    AfterFailedStart(first, second, names);
    ThirdYields([first, second], third, m, names);
    assert [first, second] + [third] == [first, second, third];
    ThirdReports(m, third.read.value, third.now, names);
  }

  lemma ThirdReports(m: Memory, scraped: Snapshot, now: real, names: Names)
    requires Separate(names) && NotDerived(names.failedRate, names) && NotDerived(names.cpuPercent, names)
    requires m.prev == Some(map[names.collectorUp := 0.0]) && m.prevTs.Some? && now > m.prevTs.value
    requires names.failedTotal != names.collectorUp && names.failedTotal in scraped && scraped[names.failedTotal] >= 0.0
    ensures var s := Yield(m, scraped, now, names);
            names.failedRate in s && s[names.failedRate] == scraped[names.failedTotal] / (now - m.prevTs.value)
  {
    NamedRatesExactly(m, scraped, now, names);
    WholeCount(m, scraped, now, names);
  }

  lemma ThirdYields(run: seq<Scrape>, last: Scrape, m: Memory, names: Names)
    requires Remember(run, names) == m && last.read.Some?
    ensures Remember(run + [last], names).latest.GetOr(map[]) == Yield(m, last.read.value, last.now, names)
  {
    LatestIsYield(run, last, names);
  }

  lemma WholeCount(m: Memory, scraped: Snapshot, now: real, names: Names)
    requires m.prev == Some(map[names.collectorUp := 0.0]) && m.prevTs.Some? && now > m.prevTs.value
    requires names.failedTotal != names.collectorUp && names.failedTotal in scraped && scraped[names.failedTotal] >= 0.0
    requires IsNamedRate(scraped, m.prev.value, Yield(m, scraped, now, names), names.failedTotal, names.failedRate, now - m.prevTs.value, 1.0)
    ensures var s := Yield(m, scraped, now, names);
            names.failedRate in s && s[names.failedRate] == scraped[names.failedTotal] / (now - m.prevTs.value)
  {
  }

  lemma AfterFailedStart(first: Scrape, second: Scrape, names: Names)
    requires first.read == None && second.read.Some?
    ensures Remember([first, second], names)
            == Memory(Some(map[names.collectorUp := 0.0]), Some(second.now), Some(second.read.value))
  {
    RememberSnoc([], first, names);
    RememberSnoc([first], second, names);
    assert [] + [first] == [first] && [first] + [second] == [first, second];
  }

  lemma RememberSnoc(run: seq<Scrape>, last: Scrape, names: Names)
    ensures var m := Remember(run, names);
            Remember(run + [last], names)
            == if last.read.Some? then AfterScrape(m, last.read.value, last.now, names)
               else m.(latest := Some(m.latest.GetOr(map[])[names.collectorUp := 0.0]))
  {
    assert (run + [last])[..|run|] == run;
  }
}
