/** Tab requests, probes and status marks as steps of one state machine, and what holds in every
    state a sequence of them can reach. */
module TabSteps {
  import opened Options
  import opened TabTable
  import opened TabRepo

  const MAX_TABS := 10
  const FAILURE_THRESHOLD := 2
  const DEFAULT_ID := "default"

  /** The table, and the consecutive failures counted per tab in memory. */
  datatype TabState = TabState(rows: Table, failures: map<string, nat>)

  datatype Code =
    | Unauthorized | InvalidScheme | LimitExceeded | Unreachable | AuthFailed | BelongsToDefault
    | EncryptFailed | Internal | NotFound | DefaultProtected | KekMissing
    | OrderMismatched | DefaultFirstRequired

  datatype Reply = Done | Refused(code: Code)

  /** What testing a connection reported: "ok", "unreachable", "auth_failed" or "unknown_error". */
  datatype Probe = Probe(status: string, msg: string)

  /** What the checks around a request found: the scheme, the connection test, the comparison with
      the default cluster's members, and the cipher text, absent when encryption fails. */
  datatype Checks = Checks(schemeOk: bool, decryptOk: bool, probe: Probe, isMember: bool, cipher: Option<string>)

  datatype CreateRequest = CreateRequest(name: string, endpoint: string, username: string)

  datatype PatchRequest = PatchRequest(endpoint: Option<string>, name: Option<string>,
                                       username: Option<string>, password: Option<string>)

  datatype Event =
    | Create(user: int, req: CreateRequest, checks: Checks, id: string, now: int)
    | Patch(user: int, id: string, patch: PatchRequest, trimmed: string, checks: Checks, now: int)
    | Delete(user: int, id: string)
    | Reorder(user: int, ids: seq<string>, now: int)
    | Ping(id: string, decryptOk: bool, probe: Probe, now: int)
    | Mark(id: string, status: string, msg: string, now: int)

  function ProbeCode(probe: Probe): Code {
    if probe.status == "auth_failed" then AuthFailed else Unreachable
  }

  function Requested(user: int, req: CreateRequest, cipher: string, now: int): Tab {
    Tab("", user, req.name, req.endpoint, req.username, cipher, 0, "ok", "", now, 0, 0)
  }

  ghost function CreatedRow(s: TabState, e: Event): Tab
    requires e.Create? && e.checks.cipher.Some?
  {
    NewRow(Requested(e.user, e.req, e.checks.cipher.value, e.now), e.id, NextOrder(s.rows, e.user), e.now)
  }

  ghost function CreateStep(s: TabState, e: Event): (TabState, Reply)
    requires e.Create?
  {
    if e.user <= 0 then (s, Refused(Unauthorized))
    else if !e.checks.schemeOk then (s, Refused(InvalidScheme))
    else if |Owned(s.rows, e.user)| >= MAX_TABS then (s, Refused(LimitExceeded))
    else if e.checks.probe.status != "ok" then (s, Refused(ProbeCode(e.checks.probe)))
    else if e.checks.isMember then (s, Refused(BelongsToDefault))
    else if e.checks.cipher.None? then (s, Refused(EncryptFailed))
    else
      var r := InsertRow(s.rows, CreatedRow(s, e));
      if r.1 == Ok then (s.(rows := r.0), Done) else (s, Refused(Internal))
  }

  /** The refusal a changed endpoint meets before anything is written. */
  function EndpointRefusal(e: Event): Option<Code>
    requires e.Patch?
  {
    if !e.checks.schemeOk then Some(InvalidScheme)
    else if (e.patch.password.None? || e.patch.password.value == "") && !e.checks.decryptOk then Some(KekMissing)
    else if e.checks.probe.status != "ok" then Some(ProbeCode(e.checks.probe))
    else if e.checks.isMember then Some(BelongsToDefault)
    else None
  }

  function PatchStep(s: TabState, e: Event): (TabState, Reply)
    requires e.Patch?
  {
    if e.user <= 0 then (s, Refused(Unauthorized))
    else if e.id == DEFAULT_ID then (s, Refused(DefaultProtected))
    else if !OwnedBy(s.rows, e.id, e.user) then (s, Refused(NotFound))
    else
      var moved := e.patch.endpoint.Some? && e.patch.endpoint.value != s.rows[e.id].endpoint;
      if moved && EndpointRefusal(e).Some? then (s, Refused(EndpointRefusal(e).value))
      else
        var rows := if moved then StatusRow(s.rows, e.id, "ok", "", e.now) else s.rows;
        var rekeyed := e.patch.password.Some? && e.patch.password.value != "";
        if rekeyed && e.checks.cipher.None? then (s.(rows := rows), Refused(EncryptFailed))
        else
          var fields := PatchFields(e.patch.name, if moved then Some(e.trimmed) else None, e.patch.username,
                                    if rekeyed then e.checks.cipher else None, None);
          (s.(rows := PatchRow(rows, e.id, e.user, fields, e.now).0), Done)
  }

  function DeleteStep(s: TabState, e: Event): (TabState, Reply)
    requires e.Delete?
  {
    if e.user <= 0 then (s, Refused(Unauthorized))
    else if e.id == DEFAULT_ID then (s, Refused(DefaultProtected))
    else
      var r := DeleteRow(s.rows, e.id, e.user);
      if r.1 == Ok then (s.(rows := r.0), Done) else (s, Refused(NotFound))
  }

  function ReorderStep(s: TabState, e: Event): (TabState, Reply)
    requires e.Reorder?
  {
    if e.user <= 0 then (s, Refused(Unauthorized))
    else if e.ids == [] || e.ids[0] != DEFAULT_ID then (s, Refused(DefaultFirstRequired))
    else
      var r := ReorderRows(s.rows, e.user, e.ids[1..], e.now);
      if r.1 == OrderMismatch then (s, Refused(OrderMismatched))
      else if r.1 == TabNotFound then (s, Refused(NotFound))
      else (s.(rows := r.0), Done)
  }

  function FailuresOf(s: TabState, id: string): nat {
    if id in s.failures then s.failures[id] else 0
  }

  /** A probe that reached the tab and failed. */
  predicate IsFailingPing(s: TabState, e: Event, id: string) {
    e.Ping? && e.id == id && id in s.rows && e.decryptOk && e.probe.status != "ok"
  }

  /** A probe that reached the tab and succeeded, or a mark that says ok. */
  predicate IsOkEvent(s: TabState, e: Event, id: string) {
    || (e.Ping? && e.id == id && id in s.rows && e.decryptOk && e.probe.status == "ok")
    || (e.Mark? && e.id == id && id != "" && id != DEFAULT_ID && e.status == "ok")
  }

  function PingStep(s: TabState, e: Event): (TabState, Reply)
    requires e.Ping?
  {
    if e.id !in s.rows || !e.decryptOk then (s, Done)
    else if e.probe.status == "ok" then
      (TabState(StatusRow(s.rows, e.id, "ok", "", e.now), s.failures - {e.id}), Done)
    else
      var count, row := FailuresOf(s, e.id) + 1, s.rows[e.id];
      var failures := s.failures[e.id := count];
      if count < FAILURE_THRESHOLD
      then (TabState(StatusRow(s.rows, e.id, row.lastStatus, row.lastError, e.now), failures), Done)
      else (TabState(StatusRow(s.rows, e.id, "error", e.probe.status + ": " + e.probe.msg, e.now), failures), Done)
  }

  function MarkStep(s: TabState, e: Event): (TabState, Reply)
    requires e.Mark?
  {
    if e.id == "" || e.id == DEFAULT_ID then (s, Done)
    else (TabState(StatusRow(s.rows, e.id, e.status, e.msg, e.now),
                   if e.status == "ok" then s.failures - {e.id} else s.failures), Done)
  }

  ghost function Step(s: TabState, e: Event): (TabState, Reply) {
    match e
    case Create(_, _, _, _, _) => CreateStep(s, e)
    case Patch(_, _, _, _, _, _) => PatchStep(s, e)
    case Delete(_, _) => DeleteStep(s, e)
    case Reorder(_, _, _) => ReorderStep(s, e)
    case Ping(_, _, _, _) => PingStep(s, e)
    case Mark(_, _, _, _) => MarkStep(s, e)
  }

  /** The state after a sequence of events, from an empty table. */
  ghost function Run(events: seq<Event>): TabState {
    if events == [] then TabState(map[], map[])
    else Step(Run(events[..|events| - 1]), events[|events| - 1]).0
  }

  // ------------------------------------------------- one list per user

  /** What users see: an ordered list of tab ids each. */
  type Lists = map<int, seq<string>>

  function ListOf(lists: Lists, user: int): seq<string> {
    if user in lists then lists[user] else []
  }

  predicate Taken(lists: Lists, id: string) {
    exists user :: user in lists && id in lists[user]
  }

  function Drop(ids: seq<string>, id: string): seq<string> {
    if ids == [] then [] else (if ids[0] == id then [] else [ids[0]]) + Drop(ids[1..], id)
  }

  /** Whether a create, delete or reorder goes through, told from the lists alone. */
  predicate Accepts(lists: Lists, e: Event)
    requires e.Create? || e.Delete? || e.Reorder?
  {
    && e.user > 0
    && (e.Create? ==>
          && e.checks.schemeOk && |ListOf(lists, e.user)| < MAX_TABS && e.checks.probe.status == "ok"
          && !e.checks.isMember && e.checks.cipher.Some? && !Taken(lists, e.id))
    && (e.Delete? ==> e.id != DEFAULT_ID && e.id in ListOf(lists, e.user))
    && (e.Reorder? ==>
          && e.ids != [] && e.ids[0] == DEFAULT_ID && |e.ids[1..]| == |ListOf(lists, e.user)|
          && (forall i :: 0 <= i < |e.ids[1..]| ==> e.ids[1..][i] in ListOf(lists, e.user)))
  }

  /** The same events on the lists alone: create appends, delete removes, a reorder installs the
      ids sent, everything else changes no list. */
  function ListStep(lists: Lists, e: Event): Lists {
    if (e.Create? || e.Delete? || e.Reorder?) && Accepts(lists, e) then
      var list := ListOf(lists, e.user);
      lists[e.user := if e.Create? then list + [e.id] else if e.Delete? then Drop(list, e.id) else e.ids[1..]]
    else lists
  }

  function RunLists(events: seq<Event>): Lists {
    if events == [] then map[] else ListStep(RunLists(events[..|events| - 1]), events[|events| - 1])
  }

  ghost predicate ShowsList(t: Table, user: int, ids: seq<string>) {
    exists rows :: IsListing(t, user, rows) && Ids(rows) == ids
  }

  ghost predicate Refines(t: Table, lists: Lists) {
    forall user :: ShowsList(t, user, ListOf(lists, user))
  }

  /** If the step is a reorder that goes through, it names no tab twice. */
  predicate NoRepeats(s: TabState, e: Event) {
    e.Reorder? && ReorderStep(s, e).1 == Done ==> Distinct(e.ids[1..])
  }

  /** No reorder that goes through names a tab twice. */
  ghost predicate NeverRepeats(events: seq<Event>) {
    forall i :: 0 <= i < |events| ==> NoRepeats(Run(events[..i]), events[i])
  }

  lemma NeverRepeatsBefore(events: seq<Event>)
    requires NeverRepeats(events) && events != []
    ensures NeverRepeats(events[..|events| - 1])
    ensures NoRepeats(Run(events[..|events| - 1]), events[|events| - 1])
  {
    var init := events[..|events| - 1];
    forall i | 0 <= i < |init| ensures NoRepeats(Run(init[..i]), init[i]) {
      assert init[..i] == events[..i];
    }
  }

  ghost predicate Bounded(t: Table) {
    forall user :: |Owned(t, user)| <= MAX_TABS
  }

  lemma ListMembers(t: Table, user: int, ids: seq<string>)
    requires WellKeyed(t) && ShowsList(t, user, ids)
    ensures |ids| == |Owned(t, user)|
    ensures forall id :: id in ids <==> OwnedBy(t, id, user)
  {
    var rows :| IsListing(t, user, rows) && Ids(rows) == ids;
    ListingCount(t, user, rows);
    forall id ensures id in ids <==> OwnedBy(t, id, user) {
      assert id in ids <==> id in (set x | x in ids);
    }
  }

  lemma TakenIsStored(t: Table, lists: Lists, id: string)
    requires WellKeyed(t) && Refines(t, lists)
    ensures Taken(lists, id) <==> id in t
  {
    if Taken(lists, id) {
      var user :| user in lists && id in lists[user];
      assert ShowsList(t, user, ListOf(lists, user));
      ListMembers(t, user, ListOf(lists, user));
    }
    if id in t {
      var user := t[id].userId;
      assert ShowsList(t, user, ListOf(lists, user));
      ListMembers(t, user, ListOf(lists, user));
      assert OwnedBy(t, id, user);
    }
  }

  lemma {:induction false} DropIsWithout(rows: seq<Tab>, id: string)
    ensures Ids(Without(rows, id)) == Drop(Ids(rows), id)
  {
    if rows != [] {
      assert Ids(rows)[1..] == Ids(rows[1..]);
      DropIsWithout(rows[1..], id);
    }
  }

  /** Replacing a row in its slot shows the same lists. */
  lemma SlotsKept(t: Table, tab: Tab, lists: Lists)
    requires WellKeyed(t) && tab.id in t && SameSlot(t[tab.id], tab) && Refines(t, lists)
    ensures Refines(t[tab.id := tab], lists)
  {
    forall user ensures ShowsList(t[tab.id := tab], user, ListOf(lists, user)) {
      assert ShowsList(t, user, ListOf(lists, user));
      var rows :| IsListing(t, user, rows) && Ids(rows) == ListOf(lists, user);
      ReplaceInPlace(t, tab, user, rows);
    }
  }

  lemma SlotsKeepInvariants(t: Table, tab: Tab)
    requires WellKeyed(t) && tab.id in t && SameSlot(t[tab.id], tab)
    ensures WellKeyed(t[tab.id := tab])
    ensures DistinctOrders(t) ==> DistinctOrders(t[tab.id := tab])
    ensures Bounded(t) ==> Bounded(t[tab.id := tab])
  {
    var t' := t[tab.id := tab];
    forall user ensures |Owned(t', user)| == |Owned(t, user)| {
      assert Owned(t', user) == Owned(t, user);
    }
    assert Bounded(t) ==> Bounded(t');
  }

  // ---------------------------------------------------- steps on the lists

  lemma CreateAccepted(s: TabState, e: Event, lists: Lists)
    requires e.Create? && WellKeyed(s.rows) && Refines(s.rows, lists)
    ensures CreateStep(s, e).1 == Done <==> Accepts(lists, e)
    ensures CreateStep(s, e).1 != Done ==> CreateStep(s, e).0 == s
  {
    assert ShowsList(s.rows, e.user, ListOf(lists, e.user));
    ListMembers(s.rows, e.user, ListOf(lists, e.user));
    TakenIsStored(s.rows, lists, e.id);
  }

  /** The table accepts exactly the requests the lists accept, and a refused one changes nothing. */
  lemma AcceptedAlike(s: TabState, e: Event, lists: Lists)
    requires (e.Create? || e.Delete? || e.Reorder?) && WellKeyed(s.rows) && Refines(s.rows, lists)
    ensures Step(s, e).1 == Done <==> Accepts(lists, e)
    ensures Step(s, e).1 != Done ==> Step(s, e).0 == s
  {
    if e.Create? {
      CreateAccepted(s, e, lists);
    } else {
      assert ShowsList(s.rows, e.user, ListOf(lists, e.user));
      ListMembers(s.rows, e.user, ListOf(lists, e.user));
    }
  }

  lemma InsertShows(t: Table, tab: Tab, user: int, ids: seq<string>)
    requires WellKeyed(t) && tab.userId > 0 && tab.id !in t
    requires IsMaxOrder(t, tab.userId, tab.sortOrder - 1) && ShowsList(t, user, ids)
    ensures ShowsList(t[tab.id := tab], user, if user == tab.userId then ids + [tab.id] else ids)
  {
    var rows :| IsListing(t, user, rows) && Ids(rows) == ids;
    InsertAppends(t, tab, tab.sortOrder - 1, user, rows);
    IdsSnoc(rows, tab);
    Shown(t[tab.id := tab], user, if user == tab.userId then rows + [tab] else rows);
  }

  lemma Shown(t: Table, user: int, rows: seq<Tab>)
    requires IsListing(t, user, rows)
    ensures ShowsList(t, user, Ids(rows))
  {
  }

  lemma IdsSnoc(rows: seq<Tab>, tab: Tab)
    ensures Ids(rows + [tab]) == Ids(rows) + [tab.id]
  {
  }

  lemma InsertRefines(t: Table, tab: Tab, lists: Lists)
    requires WellKeyed(t) && Refines(t, lists) && tab.userId > 0 && tab.id !in t
    requires IsMaxOrder(t, tab.userId, tab.sortOrder - 1)
    ensures Refines(t[tab.id := tab], lists[tab.userId := ListOf(lists, tab.userId) + [tab.id]])
  {
    var t', lists' := t[tab.id := tab], lists[tab.userId := ListOf(lists, tab.userId) + [tab.id]];
    forall user ensures ShowsList(t', user, ListOf(lists', user)) {
      assert ShowsList(t, user, ListOf(lists, user));
      InsertShows(t, tab, user, ListOf(lists, user));
    }
  }

  lemma CreateRefines(s: TabState, e: Event, lists: Lists)
    requires e.Create? && WellKeyed(s.rows) && Refines(s.rows, lists)
    ensures WellKeyed(Step(s, e).0.rows) && Refines(Step(s, e).0.rows, ListStep(lists, e))
  {
    CreateAccepted(s, e, lists);
    if CreateStep(s, e).1 == Done {
      InsertRefines(s.rows, CreatedRow(s, e), lists);
    }
  }

  lemma DeleteRefines(s: TabState, e: Event, lists: Lists)
    requires e.Delete? && WellKeyed(s.rows) && Refines(s.rows, lists)
    ensures WellKeyed(Step(s, e).0.rows) && Refines(Step(s, e).0.rows, ListStep(lists, e))
  {
    AcceptedAlike(s, e, lists);
    if Step(s, e).1 == Done {
      forall user ensures ShowsList(s.rows - {e.id}, user, ListOf(ListStep(lists, e), user)) {
        assert ShowsList(s.rows, user, ListOf(lists, user));
        var rows :| IsListing(s.rows, user, rows) && Ids(rows) == ListOf(lists, user);
        DeleteRemoves(s.rows, e.id, e.user, user, rows);
        DropIsWithout(rows, e.id);
      }
    }
  }

  lemma RenumberRefines(t: Table, owner: int, ids: seq<string>, now: int, lists: Lists)
    requires WellKeyed(t) && Refines(t, lists) && Distinct(ids) && ReorderRows(t, owner, ids, now).1 == Ok
    ensures WellKeyed(Renumber(t, ids, now)) && Refines(Renumber(t, ids, now), lists[owner := ids])
  {
    ReorderGivesIds(t, owner, ids, now);
    forall id | id in t ensures Renumber(t, ids, now)[id].id == id {
      RenumberedRow(t, ids, now, id);
    }
    var t', lists' := Renumber(t, ids, now), lists[owner := ids];
    forall user ensures ShowsList(t', user, ListOf(lists', user)) {
      assert ShowsList(t, user, ListOf(lists, user));
      if user != owner {
        var rows :| IsListing(t, user, rows) && Ids(rows) == ListOf(lists, user);
        ReorderKeepsOthers(t, owner, ids, now, user, rows);
      }
    }
  }

  lemma ReorderRefines(s: TabState, e: Event, lists: Lists)
    requires e.Reorder? && NoRepeats(s, e) && WellKeyed(s.rows) && Refines(s.rows, lists)
    ensures WellKeyed(Step(s, e).0.rows) && Refines(Step(s, e).0.rows, ListStep(lists, e))
  {
    AcceptedAlike(s, e, lists);
    if Step(s, e).1 == Done {
      RenumberRefines(s.rows, e.user, e.ids[1..], e.now, lists);
    }
  }

  /** Patches, probes and marks rewrite one row in its slot, if it is there. */
  lemma SlotStepShape(s: TabState, e: Event)
    requires (e.Patch? || e.Ping? || e.Mark?) && WellKeyed(s.rows)
    ensures var t, t' := s.rows, Step(s, e).0.rows;
            if e.id in t then e.id in t' && SameSlot(t[e.id], t'[e.id]) && t'[e.id].id == e.id && t' == t[e.id := t'[e.id]]
            else t' == t
  {
    if e.Patch? {
      assert Step(s, e) == PatchStep(s, e);
    } else if e.Ping? {
      assert Step(s, e) == PingStep(s, e);
    } else {
      assert Step(s, e) == MarkStep(s, e);
    }
  }

  /** So they change no list. */
  lemma SlotStepRefines(s: TabState, e: Event, lists: Lists)
    requires (e.Patch? || e.Ping? || e.Mark?) && WellKeyed(s.rows) && Refines(s.rows, lists)
    ensures WellKeyed(Step(s, e).0.rows) && Refines(Step(s, e).0.rows, ListStep(lists, e))
  {
    SlotStepShape(s, e);
    var t, t' := s.rows, Step(s, e).0.rows;
    if e.id in t {
      SlotsKept(t, t'[e.id], lists);
      SlotsKeepInvariants(t, t'[e.id]);
    }
  }

  /** The table refines the lists over every run in which no successful reorder names a tab twice:
      what a user is shown is always the list the same events produce on plain lists. */
  lemma {:induction false} TableRefinesLists(events: seq<Event>)
    requires NeverRepeats(events)
    ensures WellKeyed(Run(events).rows) && Refines(Run(events).rows, RunLists(events))
  {
    if events == [] {
      forall user ensures ShowsList(map[], user, []) {
        assert IsListing(map[], user, []) && Ids([]) == [];
      }
    } else {
      var init, e := events[..|events| - 1], events[|events| - 1];
      NeverRepeatsBefore(events);
      TableRefinesLists(init);
      var s, lists := Run(init), RunLists(init);
      match e
      case Create(_, _, _, _, _) => CreateRefines(s, e, lists);
      case Delete(_, _) => DeleteRefines(s, e, lists);
      case Reorder(_, _, _) => ReorderRefines(s, e, lists);
      case Patch(_, _, _, _, _, _) => SlotStepRefines(s, e, lists);
      case Ping(_, _, _, _) => SlotStepRefines(s, e, lists);
      case Mark(_, _, _, _) => SlotStepRefines(s, e, lists);
    }
  }
}
