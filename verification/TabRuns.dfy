/** What holds in every state a sequence of tab requests, probes and marks can reach. */
module TabRuns {
  import opened Options
  import opened TabTable
  import opened TabRepo
  import opened TabSteps

  // --------------------------------------------------- limit and sort orders

  lemma OwnedAfterInsert(t: Table, tab: Tab, user: int)
    requires tab.id !in t
    ensures |Owned(t[tab.id := tab], user)| == |Owned(t, user)| + if tab.userId == user then 1 else 0
  {
    var after := Owned(t[tab.id := tab], user);
    if tab.userId == user {
      assert after == Owned(t, user) + {tab.id};
    } else {
      assert after == Owned(t, user);
    }
  }

  lemma OwnedShrinks(t: Table, t': Table, user: int)
    requires forall id :: id in t' ==> id in t && t'[id].userId == t[id].userId
    ensures |Owned(t', user)| <= |Owned(t, user)|
  {
    var a, b := Owned(t', user), Owned(t, user);
    assert b == a + (b - a);
  }

  /** Every step keeps rows under their own ids and at most ten of them per user. */
  lemma StepKeepsBound(s: TabState, e: Event)
    requires WellKeyed(s.rows) && Bounded(s.rows)
    ensures WellKeyed(Step(s, e).0.rows) && Bounded(Step(s, e).0.rows)
  {
    var t, t' := s.rows, Step(s, e).0.rows;
    match e
    case Create(_, _, _, _, _) =>
      if CreateStep(s, e).1 == Done {
        InsertKeepsBound(t, CreatedRow(s, e));
      }
    case Delete(_, _) => ShrinkKeepsBound(t, t');
    case Reorder(_, ids, now) =>
      if ReorderStep(s, e).1 == Done {
        forall id | id in t ensures t'[id].userId == t[id].userId && t'[id].id == id {
          RenumberedRow(t, ids[1..], now, id);
        }
      }
      ShrinkKeepsBound(t, t');
    case _ =>
      SlotStepShape(s, e);
      if e.id in t {
        SlotsKeepInvariants(t, t'[e.id]);
      }
  }

  lemma InsertKeepsBound(t: Table, tab: Tab)
    requires Bounded(t) && tab.id !in t && |Owned(t, tab.userId)| < MAX_TABS
    ensures Bounded(t[tab.id := tab])
  {
    var t' := t[tab.id := tab];
    forall user ensures |Owned(t', user)| <= MAX_TABS {
      OwnedAfterInsert(t, tab, user);
    }
  }

  lemma ShrinkKeepsBound(t: Table, t': Table)
    requires Bounded(t) && forall id :: id in t' ==> id in t && t'[id].userId == t[id].userId
    ensures Bounded(t')
  {
    forall user ensures |Owned(t', user)| <= MAX_TABS {
      OwnedShrinks(t, t', user);
    }
  }

  /** No user ever owns more than ten tabs, whatever the requests. */
  lemma {:induction false} NeverMoreThanTen(events: seq<Event>)
    ensures WellKeyed(Run(events).rows) && Bounded(Run(events).rows)
    ensures forall user :: |Owned(Run(events).rows, user)| <= 10
  {
    if events == [] {
      forall user ensures |Owned(map[], user)| <= MAX_TABS {
        assert Owned(map[], user) == {};
      }
    } else {
      NeverMoreThanTen(events[..|events| - 1]);
      StepKeepsBound(Run(events[..|events| - 1]), events[|events| - 1]);
    }
  }

  lemma StepKeepsOrders(s: TabState, e: Event)
    requires WellKeyed(s.rows) && DistinctOrders(s.rows) && NoRepeats(s, e)
    ensures DistinctOrders(Step(s, e).0.rows)
  {
    var t, t' := s.rows, Step(s, e).0.rows;
    match e
    case Create(_, _, _, _, _) =>
      if CreateStep(s, e).1 == Done {
        var tab := CreatedRow(s, e);
        assert forall id :: id in t && t[id].userId == tab.userId ==> id in Owned(t, tab.userId);
        assert t' == t[tab.id := tab];
      }
    case Delete(_, _) =>
    case Reorder(user, ids, now) =>
      if ReorderStep(s, e).1 == Done {
        AllListed(t, user, ids[1..]);
        ReorderKeepsOrdersDistinctExactly(t, user, ids[1..], now);
      }
    case Patch(_, _, _, _, _, _) => SlotStepKeepsOrders(s, e);
    case Ping(_, _, _, _) => SlotStepKeepsOrders(s, e);
    case Mark(_, _, _, _) => SlotStepKeepsOrders(s, e);
  }

  lemma SlotStepKeepsOrders(s: TabState, e: Event)
    requires (e.Patch? || e.Ping? || e.Mark?) && WellKeyed(s.rows) && DistinctOrders(s.rows)
    ensures DistinctOrders(Step(s, e).0.rows)
  {
    SlotStepShape(s, e);
    if e.id in s.rows {
      SlotsKeepInvariants(s.rows, Step(s, e).0.rows[e.id]);
    }
  }

  /** While no successful reorder names a tab twice, a user's sort orders never collide, so there is only one
      way to list a user's tabs: as the plain list the events produce. */
  lemma {:induction false} ListsAreUnambiguous(events: seq<Event>, user: int, rows: seq<Tab>)
    requires NeverRepeats(events)
    ensures DistinctOrders(Run(events).rows)
    ensures IsListing(Run(events).rows, user, rows) ==> Ids(rows) == ListOf(RunLists(events), user)
  {
    NeverMoreThanTen(events);
    if events != [] {
      var init := events[..|events| - 1];
      NeverRepeatsBefore(events);
      ListsAreUnambiguous(init, user, rows);
      NeverMoreThanTen(init);
      StepKeepsOrders(Run(init), events[|events| - 1]);
    }
    TableRefinesLists(events);
    var t, ids := Run(events).rows, ListOf(RunLists(events), user);
    assert ShowsList(t, user, ids);
    if IsListing(t, user, rows) {
      var other :| IsListing(t, user, other) && Ids(other) == ids;
      ListingUnique(t, user, rows, other);
    }
  }

  // -------------------------------------------------------- probes and marks

  /** A row apart from what probes and marks write. */
  function OwnerEdited(tab: Tab): Tab {
    tab.(lastStatus := "", lastError := "", lastCheckedAt := 0)
  }

  lemma ProbeKeepsTheTable(s: TabState, e: Event)
    requires e.Ping? || e.Mark?
    ensures Step(s, e).0.rows.Keys == s.rows.Keys
    ensures forall id :: id in s.rows ==> OwnerEdited(Step(s, e).0.rows[id]) == OwnerEdited(s.rows[id])
  {
  }

  /** However many probes and marks come after one another, no row is added or removed, and nothing
      an owner edits changes. */
  lemma {:induction false} ProbesKeepTheTable(events: seq<Event>, n: nat)
    requires n <= |events| && forall i :: n <= i < |events| ==> events[i].Ping? || events[i].Mark?
    ensures var before, after := Run(events[..n]).rows, Run(events).rows;
            && after.Keys == before.Keys
            && forall id :: id in before ==> OwnerEdited(after[id]) == OwnerEdited(before[id])
  {
    if n == |events| {
      assert events[..n] == events;
    } else {
      var init := events[..|events| - 1];
      ProbesKeepTheTable(init, n);
      assert init[..n] == events[..n];
      ProbeKeepsTheTable(Run(init), events[|events| - 1]);
    }
  }

  /** A success, probed or marked, leaves the tab ok with no failures counted. */
  lemma OkLeavesOk(s: TabState, e: Event, id: string)
    requires IsOkEvent(s, e, id)
    ensures FailuresOf(Step(s, e).0, id) == 0
    ensures id in s.rows ==> id in Step(s, e).0.rows && Step(s, e).0.rows[id].lastStatus == "ok"
  {
  }

  predicate HasStatus(s: TabState, id: string, status: string) {
    id in s.rows && s.rows[id].lastStatus == status
  }

  /** A probe turns a tab that is not in error into one that is exactly when it is a failing probe
      of that tab and brings the count to the threshold. */
  lemma PingTurnsToErrorExactly(s: TabState, e: Event, id: string)
    requires e.Ping? && id in s.rows && !HasStatus(s, id, "error")
    ensures HasStatus(Step(s, e).0, id, "error")
            <==> IsFailingPing(s, e, id) && FailuresOf(Step(s, e).0, id) >= FAILURE_THRESHOLD
  {
  }

  // --------------------------------------------------------- failure counts

  ghost predicate FailingAt(events: seq<Event>, i: int, id: string) {
    0 <= i < |events| && IsFailingPing(Run(events[..i]), events[i], id)
  }

  ghost predicate OkAt(events: seq<Event>, i: int, id: string) {
    0 <= i < |events| && IsOkEvent(Run(events[..i]), events[i], id)
  }

  ghost function FailuresFrom(events: seq<Event>, start: int, id: string): set<int> {
    set i | start <= i < |events| && FailingAt(events, i, id)
  }

  /** start is the beginning of the run or right after the last success. */
  ghost predicate SinceLastOk(events: seq<Event>, start: int, id: string) {
    && 0 <= start <= |events| && (start == 0 || OkAt(events, start - 1, id))
    && forall i :: start <= i < |events| ==> !OkAt(events, i, id)
  }

  lemma PrefixEvents(events: seq<Event>, i: int, id: string)
    requires 0 <= i < |events| - 1
    ensures FailingAt(events, i, id) <==> FailingAt(events[..|events| - 1], i, id)
    ensures OkAt(events, i, id) <==> OkAt(events[..|events| - 1], i, id)
  {
    assert events[..|events| - 1][..i] == events[..i];
  }

  lemma StepCount(s: TabState, e: Event, id: string)
    ensures FailuresOf(Step(s, e).0, id)
            == if IsOkEvent(s, e, id) then 0
               else if IsFailingPing(s, e, id) then FailuresOf(s, id) + 1
               else FailuresOf(s, id)
  {
  }

  /** What one more event does to the failures since the last success. */
  lemma FailuresSnoc(events: seq<Event>, start: int, id: string)
    requires events != [] && SinceLastOk(events[..|events| - 1], start, id)
    ensures !OkAt(events, |events| - 1, id) ==> SinceLastOk(events, start, id)
    ensures |FailuresFrom(events, start, id)|
            == |FailuresFrom(events[..|events| - 1], start, id)| + if FailingAt(events, |events| - 1, id) then 1 else 0
  {
    var n, init := |events| - 1, events[..|events| - 1];
    forall i | 0 <= i < n
      ensures FailingAt(events, i, id) <==> FailingAt(init, i, id)
      ensures OkAt(events, i, id) <==> OkAt(init, i, id)
    {
      PrefixEvents(events, i, id);
    }
    OneMore(FailuresFrom(init, start, id), FailuresFrom(events, start, id), n, FailingAt(events, n, id));
  }

  lemma OneMore(before: set<int>, after: set<int>, n: int, more: bool)
    requires n !in before && forall i :: i in after <==> i in before || (more && i == n)
    ensures |after| == |before| + if more then 1 else 0
  {
    var wanted := if more then before + {n} else before;
    forall i ensures i in after <==> i in wanted {
    }
    assert after == wanted;
  }

  /** The counter of a tab is, in every run, the number of failing probes since its last success. */
  lemma {:induction false} CounterCountsFailures(events: seq<Event>, id: string) returns (start: int)
    ensures SinceLastOk(events, start, id)
    ensures FailuresOf(Run(events), id) == |FailuresFrom(events, start, id)|
  {
    if events == [] {
      start := 0;
      assert FailuresFrom(events, start, id) == {};
    } else {
      var n := |events| - 1;
      start := CounterCountsFailures(events[..n], id);
      StepCount(Run(events[..n]), events[n], id);
      FailuresSnoc(events, start, id);
      if OkAt(events, n, id) {
        start := n + 1;
        assert FailuresFrom(events, start, id) == {};
      }
    }
  }

  lemma TwoAmong(s: set<int>, i: int, n: int)
    requires i in s && n in s && i != n
    ensures |s| >= 2
  {
    assert |{i, n}| <= |s| by {
      assert s == {i, n} + (s - {i, n});
    }
  }

  /** A counted failure has a place in the run. */
  lemma {:induction false} SomeFailure(events: seq<Event>, start: int, id: string) returns (i: int)
    requires SinceLastOk(events, start, id) && |FailuresFrom(events, start, id)| >= 1
    ensures start <= i < |events| && FailingAt(events, i, id)
  {
    var n := |events| - 1;
    assert start == |events| ==> FailuresFrom(events, start, id) == {};
    if FailingAt(events, n, id) {
      i := n;
    } else {
      WithoutLast(events, start, id);
      FailuresSnoc(events, start, id);
      i := SomeFailure(events[..n], start, id);
      PrefixEvents(events, i, id);
    }
  }

  lemma WithoutLast(events: seq<Event>, start: int, id: string)
    requires SinceLastOk(events, start, id) && start < |events|
    ensures SinceLastOk(events[..|events| - 1], start, id)
  {
    var init := events[..|events| - 1];
    forall i | 0 <= i < |events| - 1
      ensures OkAt(init, i, id) <==> OkAt(events, i, id)
    {
      PrefixEvents(events, i, id);
    }
    assert start > 0 ==> OkAt(events, start - 1, id);
    assert forall i :: start <= i < |init| ==> !OkAt(init, i, id);
  }

  /** A probe of the tab before the last event failed, with no success since. */
  ghost predicate FailedBefore(events: seq<Event>, id: string) {
    exists i :: 0 <= i < |events| - 1 && FailingAt(events, i, id)
                && forall j :: i <= j < |events| ==> !OkAt(events, j, id)
  }

  lemma SecondFailure(events: seq<Event>, start: int, id: string)
    requires SinceLastOk(events, start, id) && |FailuresFrom(events, start, id)| >= 2
    ensures FailedBefore(events, id)
  {
    var n := |events| - 1;
    assert start == |events| ==> FailuresFrom(events, start, id) == {};
    WithoutLast(events, start, id);
    FailuresSnoc(events, start, id);
    var i := SomeFailure(events[..n], start, id);
    PrefixEvents(events, i, id);
  }

  lemma TurnsAtThreshold(events: seq<Event>, id: string)
    requires events != [] && events[|events| - 1].Ping?
    requires id in Run(events[..|events| - 1]).rows && !HasStatus(Run(events[..|events| - 1]), id, "error")
    ensures HasStatus(Run(events), id, "error")
            <==> FailingAt(events, |events| - 1, id) && FailuresOf(Run(events), id) >= FAILURE_THRESHOLD
  {
    PingTurnsToErrorExactly(Run(events[..|events| - 1]), events[|events| - 1], id);
  }

  lemma EarlierFailureCounts(events: seq<Event>, start: int, id: string)
    requires SinceLastOk(events, start, id) && FailingAt(events, |events| - 1, id) && FailedBefore(events, id)
    ensures |FailuresFrom(events, start, id)| >= 2
  {
    var n := |events| - 1;
    var i :| 0 <= i < n && FailingAt(events, i, id) && forall j :: i <= j <= n ==> !OkAt(events, j, id);
    assert start > 0 ==> OkAt(events, start - 1, id);
    assert start <= i;
    TwoAmong(FailuresFrom(events, start, id), i, n);
  }

  /** Debounce over whole runs: a probe turns a tab that is not in error to error exactly when it
      fails and an earlier probe of the tab had failed too, with no success in between. */
  lemma ErrorExactlyAtSecondFailure(events: seq<Event>, id: string)
    requires events != [] && events[|events| - 1].Ping?
    requires id in Run(events[..|events| - 1]).rows && !HasStatus(Run(events[..|events| - 1]), id, "error")
    ensures HasStatus(Run(events), id, "error")
            <==> FailingAt(events, |events| - 1, id) && FailedBefore(events, id)
  {
    TurnsAtThreshold(events, id);
    var start := CounterCountsFailures(events, id);
    if HasStatus(Run(events), id, "error") {
      SecondFailure(events, start, id);
    }
    if FailingAt(events, |events| - 1, id) && FailedBefore(events, id) {
      EarlierFailureCounts(events, start, id);
    }
  }

  lemma CounterSince(events: seq<Event>, start: int, id: string)
    requires SinceLastOk(events, start, id)
    ensures FailuresOf(Run(events), id) == |FailuresFrom(events, start, id)|
  {
    var same := CounterCountsFailures(events, id);
    assert start > 0 ==> OkAt(events, start - 1, id);
    assert same > 0 ==> OkAt(events, same - 1, id);
    assert same == start;
  }

  /** From an event on, nothing but probes writes the tab's status. */
  ghost predicate OnlyProbed(events: seq<Event>, start: int, id: string) {
    forall i :: 0 <= start <= i < |events| ==>
                  !((events[i].Mark? || events[i].Patch? || events[i].Create?) && events[i].id == id)
  }

  function StatusAfter(failures: nat): string {
    if failures < FAILURE_THRESHOLD then "ok" else "error"
  }

  lemma StepStatus(s: TabState, e: Event, id: string)
    requires !((e.Mark? || e.Patch? || e.Create?) && e.id == id) && WellKeyed(s.rows)
    requires id in s.rows ==> s.rows[id].lastStatus == StatusAfter(FailuresOf(s, id))
    requires !IsOkEvent(s, e, id)
    ensures id in Step(s, e).0.rows ==> Step(s, e).0.rows[id].lastStatus == StatusAfter(FailuresOf(Step(s, e).0, id))
  {
    match e
    case Create(_, _, _, _, _) =>
    case Patch(_, _, _, _, _, _) =>
    case Delete(_, _) =>
    case Reorder(user, ids, now) =>
      if id in s.rows && ids != [] {
        RenumberedRow(s.rows, ids[1..], now, id);
      }
    case Ping(_, _, _, _) =>
    case Mark(_, _, _, _) =>
  }

  /** While only probes write a tab's status after a success, it reads ok until the second failing
      probe since that success and error from then on. */
  lemma {:induction false} StatusSinceOk(events: seq<Event>, start: int, id: string)
    requires SinceLastOk(events, start, id) && start > 0 && OnlyProbed(events, start, id)
    ensures id in Run(events).rows ==>
              Run(events).rows[id].lastStatus == StatusAfter(|FailuresFrom(events, start, id)|)
  {
    var n := |events| - 1;
    var init := events[..n];
    CounterSince(events, start, id);
    if start == |events| {
      assert OkAt(events, n, id);
      OkLeavesOk(Run(init), events[n], id);
    } else {
      WithoutLast(events, start, id);
      StatusSinceOk(init, start, id);
      CounterSince(init, start, id);
      NeverMoreThanTen(init);
      assert !OkAt(events, n, id);
      StepStatus(Run(init), events[n], id);
    }
  }
}
