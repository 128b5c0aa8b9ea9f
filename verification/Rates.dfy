/** Counter rates derived from successive scrapes. */
module Rates {
  import opened Options

  type Snapshot = map<string, real>

  const RATE := "_rate"

  predicate IsRateKey(key: string) {
    |key| >= 5 && key[|key| - 5..] == RATE
  }

  predicate HasPrefixIn(key: string, prefixes: seq<string>) {
    exists i :: 0 <= i < |prefixes| && prefixes[i] <= key
  }

  function RateOf(cur: real, prev: real, elapsed: real): real
    requires elapsed != 0.0
  {
    (cur - prev) / elapsed
  }

  // ---------------------------------------------------------- exact keys

  /** One round of the loop over exact keys. */
  function ExactStep(s: Snapshot, prev: Snapshot, elapsed: real, key: string): Snapshot
    requires elapsed != 0.0
  {
    if key in s && key in prev && s[key] >= prev[key]
    then s[key + RATE := RateOf(s[key], prev[key], elapsed)] else s
  }

  function ExactRates(s: Snapshot, prev: Snapshot, elapsed: real, keys: seq<string>): Snapshot
    requires elapsed != 0.0
  {
    if keys == [] then s
    else ExactStep(ExactRates(s, prev, elapsed, keys[..|keys| - 1]), prev, elapsed, keys[|keys| - 1])
  }

  // -------------------------------------------------------- prefixed keys

  /** The keys that get a rate from the prefix loop. */
  predicate IsRated(s: Snapshot, prev: Snapshot, prefixes: seq<string>, key: string) {
    key in s && HasPrefixIn(key, prefixes) && !IsRateKey(key) && key in prev && s[key] >= prev[key]
  }

  /** The rate keys of the rated keys among some visited ones. */
  function RateKeys(s: Snapshot, prev: Snapshot, prefixes: seq<string>, visited: set<string>): set<string> {
    set key | key in visited && IsRated(s, prev, prefixes, key) :: key + RATE
  }

  function Base(rateKey: string): string {
    if |rateKey| < 5 then rateKey else rateKey[..|rateKey| - 5]
  }

  /** A rate key leads back to its counter, and is no counter itself. */
  lemma RateKeyFacts(key: string)
    ensures Base(key + RATE) == key && IsRateKey(key + RATE)
  {
    assert (key + RATE)[|key|..] == RATE;
  }

  lemma BaseIsRated(s: Snapshot, prev: Snapshot, prefixes: seq<string>, visited: set<string>, k: string)
    requires k in RateKeys(s, prev, prefixes, visited)
    ensures Base(k) in visited && IsRated(s, prev, prefixes, Base(k)) && k == Base(k) + RATE && IsRateKey(k)
  {
    var key :| key in visited && IsRated(s, prev, prefixes, key) && k == key + RATE;
    RateKeyFacts(key);
  }

  /** The snapshot with a rate for each rated key among the visited ones. */
  function PrefixRates(s: Snapshot, prev: Snapshot, elapsed: real, prefixes: seq<string>, visited: set<string>): (r: Snapshot)
    requires elapsed != 0.0
    ensures r.Keys == s.Keys + RateKeys(s, prev, prefixes, visited)
  {
    s + map k | k in RateKeys(s, prev, prefixes, visited) ::
          BaseIsRated(s, prev, prefixes, visited, k); RateOf(s[Base(k)], prev[Base(k)], elapsed)
  }

  lemma VisitRated(s: Snapshot, prev: Snapshot, elapsed: real, prefixes: seq<string>, visited: set<string>, key: string)
    requires elapsed != 0.0
    ensures PrefixRates(s, prev, elapsed, prefixes, visited + {key})
            == if IsRated(s, prev, prefixes, key)
               then PrefixRates(s, prev, elapsed, prefixes, visited)[key + RATE := RateOf(s[key], prev[key], elapsed)]
               else PrefixRates(s, prev, elapsed, prefixes, visited)
  {
    RateKeyFacts(key);
    var a, b := RateKeys(s, prev, prefixes, visited), RateKeys(s, prev, prefixes, visited + {key});
    assert b == if IsRated(s, prev, prefixes, key) then a + {key + RATE} else a;
  }

  lemma CounterUntouched(s: Snapshot, prev: Snapshot, elapsed: real, prefixes: seq<string>, visited: set<string>, key: string)
    requires elapsed != 0.0 && key in s && key !in RateKeys(s, prev, prefixes, visited)
    ensures PrefixRates(s, prev, elapsed, prefixes, visited)[key] == s[key]
  {
  }

  /** Only rated keys matter, and those are no rate keys. */
  lemma VisitedEnough(s: Snapshot, prev: Snapshot, elapsed: real, prefixes: seq<string>, visited: set<string>)
    requires elapsed != 0.0 && visited <= s.Keys && forall key :: key in s && !IsRateKey(key) ==> key in visited
    ensures PrefixRates(s, prev, elapsed, prefixes, visited) == PrefixRates(s, prev, elapsed, prefixes, s.Keys)
  {
    assert RateKeys(s, prev, prefixes, visited) == RateKeys(s, prev, prefixes, s.Keys);
  }

  // --------------------------------------------------------------- loops

  method ComputeExactRates(s: Snapshot, prev: Snapshot, elapsed: real, keys: seq<string>) returns (snapshot: Snapshot)
    requires elapsed != 0.0
    ensures snapshot == ExactRates(s, prev, elapsed, keys)
  {
    snapshot := s;
    for i := 0 to |keys|
      invariant snapshot == ExactRates(s, prev, elapsed, keys[..i])
    {
      assert keys[..i + 1][..i] == keys[..i];
      var key := keys[i];
      if key in snapshot && key in prev && snapshot[key] >= prev[key] {
        snapshot := snapshot[key + RATE := (snapshot[key] - prev[key]) / elapsed];
      }
    }
    assert keys[..|keys|] == keys;
  }

  /** Adds a rate to one visited key. */
  method RateKey(before: Snapshot, prev: Snapshot, elapsed: real, prefixes: seq<string>, key: string, cur: real)
    returns (snapshot: Snapshot)
    requires elapsed != 0.0
    ensures snapshot == if HasPrefixIn(key, prefixes) && !IsRateKey(key) && key in prev && cur >= prev[key]
                        then before[key + RATE := RateOf(cur, prev[key], elapsed)] else before
  {
    snapshot := before;
    for i := 0 to |prefixes|
      invariant snapshot == before
      invariant forall j :: 0 <= j < i ==> !(prefixes[j] <= key && !IsRateKey(key))
    {
      if prefixes[i] <= key && !IsRateKey(key) {
        if key in prev && cur >= prev[key] {
          snapshot := snapshot[key + RATE := (cur - prev[key]) / elapsed];
        }
        return;
      }
    }
  }

  /** One round of the loop: a counter is added to the visited ones, a rate key changes nothing. */
  method VisitKey(before: Snapshot, prev: Snapshot, elapsed: real, prefixes: seq<string>, key: string,
                  ghost s: Snapshot, ghost visited: set<string>)
    returns (snapshot: Snapshot)
    requires elapsed != 0.0 && key in before && before == PrefixRates(s, prev, elapsed, prefixes, visited)
    requires !IsRateKey(key) ==> key in s
    ensures snapshot == PrefixRates(s, prev, elapsed, prefixes, if IsRateKey(key) then visited else visited + {key})
    ensures snapshot.Keys == before.Keys || snapshot.Keys == before.Keys + {key + RATE}
  {
    if !IsRateKey(key) {
      if key in RateKeys(s, prev, prefixes, visited) {
        BaseIsRated(s, prev, prefixes, visited, key);
      }
      CounterUntouched(s, prev, elapsed, prefixes, visited, key);
      VisitRated(s, prev, elapsed, prefixes, visited, key);
    }
    snapshot := RateKey(before, prev, elapsed, prefixes, key, before[key]);
  }

  ghost function Counters(keys: set<string>): set<string> {
    set key | key in keys && !IsRateKey(key)
  }

  lemma CountersLeft(before: set<string>, left: set<string>, key: string)
    requires key in before && (left == before - {key} || left == before - {key} + {key + RATE})
    ensures Counters(left) == Counters(before) - {key}
    ensures IsRateKey(key) ==> Counters(left) == Counters(before)
    ensures !IsRateKey(key) ==> Counters(left) < Counters(before)
    ensures forall k :: k in left && !IsRateKey(k) ==> k in before
  {
    RateKeyFacts(key);
    assert IsRateKey(key) ==> key !in Counters(before);
    assert !IsRateKey(key) ==> key in Counters(before);
  }

  /** What the loop over the map keeps: the rates of the visited keys are in place, and every counter
      not visited is still to come. */
  ghost predicate Underway(s: Snapshot, prev: Snapshot, elapsed: real, prefixes: seq<string>,
                           snapshot: Snapshot, left: set<string>, visited: set<string>)
    requires elapsed != 0.0
  {
    && visited <= s.Keys && left <= snapshot.Keys
    && snapshot == PrefixRates(s, prev, elapsed, prefixes, visited)
    && Counters(left) == Counters(s.Keys) - visited
  }

  /** One iteration over the map: any key still to come is visited; a key it inserts may be visited
      later or not. */
  method Iterate(before: Snapshot, todo: set<string>, prev: Snapshot, elapsed: real, prefixes: seq<string>,
                 ghost s: Snapshot, ghost visited: set<string>)
    returns (snapshot: Snapshot, left: set<string>, ghost visited': set<string>)
    requires elapsed != 0.0 && todo != {} && Underway(s, prev, elapsed, prefixes, before, todo, visited)
    ensures Underway(s, prev, elapsed, prefixes, snapshot, left, visited')
    ensures Counters(left) < Counters(todo) || (Counters(left) == Counters(todo) && left < todo)
  {
    var key :| key in todo;
    assert !IsRateKey(key) ==> key in Counters(todo);
    snapshot := VisitKey(before, prev, elapsed, prefixes, key, s, visited);
    visited' := if IsRateKey(key) then visited else visited + {key};
    var visitInserted: bool := *;
    left := todo - {key};
    if visitInserted && key + RATE in snapshot && key + RATE !in before {
      left := left + {key + RATE};
    }
    CountersLeft(todo, left, key);
  }

  /** The loop over the map it writes to: keys come in any order, each once, and a key inserted on
      the way may or may not be visited. The result never depends on that. */
  method ComputePrefixRates(s: Snapshot, prev: Snapshot, elapsed: real, prefixes: seq<string>) returns (snapshot: Snapshot)
    requires elapsed != 0.0
    ensures snapshot == PrefixRates(s, prev, elapsed, prefixes, s.Keys)
  {
    snapshot := s;
    var left := s.Keys;
    ghost var visited: set<string> := {};
    assert RateKeys(s, prev, prefixes, {}) == {};
    while left != {}
      invariant Underway(s, prev, elapsed, prefixes, snapshot, left, visited)
      decreases Counters(left), left
    {
      snapshot, left, visited := Iterate(snapshot, left, prev, elapsed, prefixes, s, visited);
    }
    forall key | key in s && !IsRateKey(key) ensures key in visited {
      assert key in Counters(s.Keys) && Counters(left) == {};
    }
    VisitedEnough(s, prev, elapsed, prefixes, visited);
  }

  /** All rates of a snapshot. */
  function WithRates(s: Snapshot, prev: Snapshot, elapsed: real, keys: seq<string>, prefixes: seq<string>): Snapshot
    requires elapsed != 0.0
  {
    var exact := ExactRates(s, prev, elapsed, keys);
    PrefixRates(exact, prev, elapsed, prefixes, exact.Keys)
  }

  method ComputeRates(s: Snapshot, prev: Snapshot, elapsed: real, keys: seq<string>, prefixes: seq<string>)
    returns (snapshot: Snapshot)
    requires elapsed != 0.0
    ensures snapshot == WithRates(s, prev, elapsed, keys, prefixes)
  {
    snapshot := ComputeExactRates(s, prev, elapsed, keys);
    snapshot := ComputePrefixRates(snapshot, prev, elapsed, prefixes);
  }

  // ---------------------------------------------------- what gets a rate

  predicate SameAt(before: Snapshot, after: Snapshot, key: string) {
    (key in after <==> key in before) && (key in before ==> after[key] == before[key])
  }

  /** The key was in both snapshots and has not fallen. */
  predicate HasGrown(s: Snapshot, prev: Snapshot, key: string) {
    key in s && key in prev && prev[key] <= s[key]
  }

  /** The prefix loop gives a rate, never negative, to exactly the keys that begin with one of the
      prefixes, do not end in _rate and have not fallen since the baseline. */
  lemma PrefixRatesExactly(s: Snapshot, prev: Snapshot, elapsed: real, prefixes: seq<string>, key: string)
    requires elapsed > 0.0
    ensures var r, rate := PrefixRates(s, prev, elapsed, prefixes, s.Keys), key + "_rate";
            var begins := exists i :: 0 <= i < |prefixes| && prefixes[i] <= key;
            var ends := |key| >= 5 && key[|key| - 5..] == "_rate";
            if begins && !ends && HasGrown(s, prev, key)
            then rate in r && r[rate] >= 0.0 && r[rate] == (s[key] - prev[key]) / elapsed
            else SameAt(s, r, rate)
  {
    RateKeyFacts(key);
    if key + RATE in RateKeys(s, prev, prefixes, s.Keys) {
      BaseIsRated(s, prev, prefixes, s.Keys, key + RATE);
    }
    if IsRated(s, prev, prefixes, key) {
      NonNegative(s[key] - prev[key], elapsed);
    }
  }

  /** Beside those rates the prefix loop changes nothing, and none of them is the rate of a rate. */
  lemma PrefixRatesOnlyRates(s: Snapshot, prev: Snapshot, elapsed: real, prefixes: seq<string>, key: string)
    requires elapsed != 0.0
    ensures var r := PrefixRates(s, prev, elapsed, prefixes, s.Keys);
            && (key in s && !IsRateKey(key) ==> key in r && r[key] == s[key])
            && (key in r && key !in s ==> IsRateKey(key) && !IsRateKey(Base(key)) && IsRated(s, prev, prefixes, Base(key)))
  {
    if key in RateKeys(s, prev, prefixes, s.Keys) {
      BaseIsRated(s, prev, prefixes, s.Keys, key);
    }
  }

  lemma NonNegative(a: real, b: real)
    requires a >= 0.0 && b > 0.0
    ensures a / b >= 0.0
  {
  }

  /** The loop over exact keys leaves counters alone. */
  lemma {:induction false} ExactKeepsCounters(s: Snapshot, prev: Snapshot, elapsed: real, keys: seq<string>, key: string)
    requires elapsed != 0.0 && !IsRateKey(key)
    ensures var r := ExactRates(s, prev, elapsed, keys);
            (key in r <==> key in s) && (key in s ==> r[key] == s[key])
  {
    if keys != [] {
      ExactKeepsCounters(s, prev, elapsed, keys[..|keys| - 1], key);
      RateKeyFacts(keys[|keys| - 1]);
    }
  }

  lemma {:induction false} ExactRateWritten(s: Snapshot, prev: Snapshot, elapsed: real, keys: seq<string>, key: string)
    requires elapsed != 0.0 && key in keys && !IsRateKey(key)
    requires key in s && key in prev && s[key] >= prev[key]
    ensures var r := ExactRates(s, prev, elapsed, keys);
            key + RATE in r && r[key + RATE] == RateOf(s[key], prev[key], elapsed)
  {
    var init, last := keys[..|keys| - 1], keys[|keys| - 1];
    assert keys == init + [last];
    ExactKeepsCounters(s, prev, elapsed, init, key);
    if last != key {
      ExactRateWritten(s, prev, elapsed, init, key);
      RateKeyFacts(key);
      RateKeyFacts(last);
    }
  }

  lemma ExactKeyRated(s: Snapshot, prev: Snapshot, elapsed: real, keys: seq<string>, prefixes: seq<string>, key: string)
    requires elapsed != 0.0 && key in keys && !IsRateKey(key)
    requires key in s && key in prev && s[key] >= prev[key]
    ensures var r := WithRates(s, prev, elapsed, keys, prefixes);
            && key + RATE in r && r[key + RATE] == RateOf(s[key], prev[key], elapsed)
            && key in r && r[key] == s[key]
  {
    var exact := ExactRates(s, prev, elapsed, keys);
    ExactRateWritten(s, prev, elapsed, keys, key);
    ExactKeepsCounters(s, prev, elapsed, keys, key);
    RateKeyFacts(key);
    if key in RateKeys(exact, prev, prefixes, exact.Keys) {
      BaseIsRated(exact, prev, prefixes, exact.Keys, key);
    }
    if key + RATE in RateKeys(exact, prev, prefixes, exact.Keys) {
      BaseIsRated(exact, prev, prefixes, exact.Keys, key + RATE);
    }
  }

  /** The exact loop gives a rate to exactly the listed keys that have not fallen. */
  lemma {:induction false} ExactRatesExactly(s: Snapshot, prev: Snapshot, elapsed: real, keys: seq<string>, key: string)
    requires elapsed != 0.0 && !IsRateKey(key) && forall i :: 0 <= i < |keys| ==> !IsRateKey(keys[i])
    ensures var r, rate := ExactRates(s, prev, elapsed, keys), key + "_rate";
            && SameAt(s, r, key)
            && if key in keys && HasGrown(s, prev, key) then rate in r && r[rate] == (s[key] - prev[key]) / elapsed
               else SameAt(s, r, rate)
  {
    if keys != [] {
      var init, last := keys[..|keys| - 1], keys[|keys| - 1];
      assert keys == init + [last];
      ExactRatesExactly(s, prev, elapsed, init, key);
      ExactRatesExactly(s, prev, elapsed, init, last);
      RateKeyFacts(key);
      RateKeyFacts(last);
      assert last != key ==> last + RATE != key + RATE;
    }
  }

  lemma PrefixKeepsCounter(s: Snapshot, prev: Snapshot, elapsed: real, prefixes: seq<string>, key: string)
    requires elapsed > 0.0 && !IsRateKey(key)
    ensures SameAt(s, PrefixRates(s, prev, elapsed, prefixes, s.Keys), key)
  {
    if key in RateKeys(s, prev, prefixes, s.Keys) {
      BaseIsRated(s, prev, prefixes, s.Keys, key);
    }
  }

  /** What is at a key's rate: its growth per second, or what was there. */
  predicate IsRateFor(s: Snapshot, prev: Snapshot, after: Snapshot, elapsed: real, key: string, wanted: bool)
    requires elapsed != 0.0
  {
    if wanted && HasGrown(s, prev, key) then key + "_rate" in after && after[key + "_rate"] == (s[key] - prev[key]) / elapsed
    else SameAt(s, after, key + "_rate")
  }

  lemma OneAfterOther(s: Snapshot, exact: Snapshot, after: Snapshot, prev: Snapshot, elapsed: real, key: string, first: bool, second: bool)
    requires elapsed != 0.0 && SameAt(s, exact, key)
    requires IsRateFor(s, prev, exact, elapsed, key, first) && IsRateFor(exact, prev, after, elapsed, key, second)
    ensures IsRateFor(s, prev, after, elapsed, key, first || second)
  {
  }

  /** Both loops together: a listed key that has not fallen ends up with its growth per second, and so
      does one that begins with one of the prefixes; any other gets no rate; and no counter changes. */
  lemma RatesExactly(s: Snapshot, prev: Snapshot, elapsed: real, keys: seq<string>, prefixes: seq<string>, key: string)
    requires elapsed > 0.0 && !IsRateKey(key) && forall i :: 0 <= i < |keys| ==> !IsRateKey(keys[i])
    ensures var after, begins := WithRates(s, prev, elapsed, keys, prefixes), exists i :: 0 <= i < |prefixes| && prefixes[i] <= key;
            SameAt(s, after, key) && IsRateFor(s, prev, after, elapsed, key, key in keys || begins)
  {
    var exact := ExactRates(s, prev, elapsed, keys);
    var begins := exists i :: 0 <= i < |prefixes| && prefixes[i] <= key;
    ExactRatesExactly(s, prev, elapsed, keys, key);
    PrefixRatesExactly(exact, prev, elapsed, prefixes, key);
    PrefixKeepsCounter(exact, prev, elapsed, prefixes, key);
    OneAfterOther(s, exact, WithRates(s, prev, elapsed, keys, prefixes), prev, elapsed, key, key in keys, begins);
  }

  /** All rates together leave counters alone. */
  lemma WithRatesKeepsCounters(s: Snapshot, prev: Snapshot, elapsed: real, keys: seq<string>, prefixes: seq<string>, key: string)
    requires elapsed != 0.0 && !IsRateKey(key) && key in s
    ensures var r := WithRates(s, prev, elapsed, keys, prefixes); key in r && r[key] == s[key]
  {
    ExactKeepsCounters(s, prev, elapsed, keys, key);
    var exact := ExactRates(s, prev, elapsed, keys);
    if key in RateKeys(exact, prev, prefixes, exact.Keys) {
      BaseIsRated(exact, prev, prefixes, exact.Keys, key);
    }
  }
}
