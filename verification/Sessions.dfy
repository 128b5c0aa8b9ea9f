/** The in-memory session store: sessions expire lazily, on lookup and by an hourly cleanup, and
    lookups release the lock between reading, testing and deleting. */
module Sessions {
  import opened Options

  /** A session; no expiry means it never expires. */
  datatype Session = Session(token: string, userId: int, username: string, createdAt: int, expiresAt: Option<int>)

  predicate IsExpired(s: Session, now: int) {
    s.expiresAt.Some? && now > s.expiresAt.value
  }

  function NewSession(token: string, userId: int, username: string, timeout: int, now: int): Session {
    Session(token, userId, username, now, if timeout > 0 then Some(now + timeout) else None)
  }

  /** The sessions without the expired ones. */
  function Live(sessions: map<string, Session>, now: int): map<string, Session> {
    map token | token in sessions && !IsExpired(sessions[token], now) :: sessions[token]
  }

  class MemorySessionStore {
    var sessions: map<string, Session>

    constructor ()
      ensures sessions == map[]
    {
      sessions := map[];
    }

    /** Stores a session under a fresh token; a negative timeout is refused. */
    method Create(userId: int, username: string, timeout: int, token: string, now: int) returns (session: Option<Session>)
      modifies this
      ensures session.Some? <==> timeout >= 0
      ensures session.Some? ==>
                var s := session.value;
                && s.token == token && s.userId == userId && s.username == username && s.createdAt == now
                && s.expiresAt == if timeout == 0 then None else Some(now + timeout)
      ensures if timeout < 0 then session == None && sessions == old(sessions)
              else session == Some(NewSession(token, userId, username, timeout, now))
                   && sessions == old(sessions)[token := session.value]
    {
      if timeout < 0 {
        return None;
      }
      var s := Session(token, userId, username, now, None);
      if timeout > 0 {
        s := s.(expiresAt := Some(now + timeout));
      }
      sessions := sessions[token := s];
      session := Some(s);
    }

    /** A session that is there and not expired; an expired one is dropped on the way. */
    method Get(token: string, now: int) returns (session: Option<Session>)
      modifies this
      ensures session.Some? <==> token in old(sessions)
                                 && (old(sessions)[token].expiresAt == None || now <= old(sessions)[token].expiresAt.value)
      ensures session == if token in old(sessions) && !IsExpired(old(sessions)[token], now)
                         then Some(old(sessions)[token]) else None
      ensures sessions == if token in old(sessions) && IsExpired(old(sessions)[token], now)
                          then old(sessions) - {token} else old(sessions)
    {
      if token !in sessions {
        return None;
      }
      var s := sessions[token];
      if IsExpired(s, now) {
        sessions := sessions - {token};
        return None;
      }
      session := Some(s);
    }

    method Delete(token: string)
      modifies this
      ensures sessions == old(sessions) - {token}
    {
      sessions := sessions - {token};
    }

    method IsValid(token: string, now: int) returns (valid: bool)
      modifies this
      ensures valid <==> token in old(sessions) && !IsExpired(old(sessions)[token], now)
      ensures Live(sessions, now) == Live(old(sessions), now)
    {
      var s := Get(token, now);
      valid := s.Some?;
    }

    /** Removes every expired session, visiting the map in any order. */
    method Cleanup(now: int)
      modifies this
      ensures forall token :: token in sessions
                              <==> token in old(sessions)
                                   && (old(sessions)[token].expiresAt == None || now <= old(sessions)[token].expiresAt.value)
      ensures forall token :: token in sessions ==> sessions[token] == old(sessions)[token]
      ensures sessions == Live(old(sessions), now)
    {
      var left := sessions.Keys;
      while left != {}
        invariant left <= sessions.Keys <= old(sessions).Keys
        invariant forall token :: token in sessions ==> sessions[token] == old(sessions)[token]
        invariant forall token :: token in old(sessions) && token !in sessions ==> IsExpired(old(sessions)[token], now)
        invariant forall token :: token in sessions && token !in left ==> !IsExpired(sessions[token], now)
      {
        var token :| token in left;
        left := left - {token};
        if IsExpired(sessions[token], now) {
          sessions := sessions - {token};
        }
      }
    }
  }

  // ------------------------------------------------ interleaved requests

  /** A lookup in progress: what it read, or that it found an expired session and will delete it. */
  datatype Call = Looked(token: string, found: Option<Session>) | Stale(token: string)

  /** The store shared by requests: the map, the lookups in progress, every token and every lookup
      ever started, and the time. */
  datatype Store = Store(sessions: map<string, Session>, calls: map<int, Call>, used: set<string>,
                         started: set<int>, clock: int)

  /** One atomic action. A lookup by a request is three: reading under the read lock, testing the
      expiry without a lock, deleting under the write lock. */
  datatype Action =
    | Create(token: string, userId: int, username: string, timeout: int, now: int)
    | Delete(token: string)
    | Cleanup(now: int)
    | Lookup(call: int, token: string)
    | Test(call: int, now: int)
    | Evict(call: int)

  /** The time moves forward and a created token is fresh. */
  predicate Possible(s: Store, a: Action) {
    && (a.Create? || a.Cleanup? || a.Test? ==> s.clock <= a.now)
    && (a.Create? ==> a.token !in s.used)
    && (a.Lookup? ==> a.call !in s.started)
    && (a.Test? ==> a.call in s.calls && s.calls[a.call].Looked?)
    && (a.Evict? ==> a.call in s.calls && s.calls[a.call].Stale?)
  }

  /** What a test answers, given what was read. */
  function Tested(found: Option<Session>, now: int): Option<Session> {
    if found.Some? && !IsExpired(found.value, now) then found else None
  }

  function Find(sessions: map<string, Session>, token: string): Option<Session> {
    if token in sessions then Some(sessions[token]) else None
  }

  function Step(s: Store, a: Action): Store
    requires Possible(s, a)
  {
    match a
    case Create(token, userId, username, timeout, now) =>
      if timeout < 0 then s.(clock := now)
      else s.(sessions := s.sessions[token := NewSession(token, userId, username, timeout, now)],
              used := s.used + {token}, clock := now)
    case Delete(token) => s.(sessions := s.sessions - {token})
    case Cleanup(now) => s.(sessions := Live(s.sessions, now), clock := now)
    case Lookup(call, token) =>
      s.(calls := s.calls[call := Looked(token, Find(s.sessions, token))], started := s.started + {call})
    case Test(call, now) =>
      var looked := s.calls[call];
      s.(calls := if looked.found.Some? && IsExpired(looked.found.value, now)
                  then s.calls[call := Stale(looked.token)] else s.calls - {call}, clock := now)
    case Evict(call) => s.(sessions := s.sessions - {s.calls[call].token}, calls := s.calls - {call})
  }

  // ---------------------------------------------------------- never forgets

  /** A store that keeps every session until it is deleted by name: no cleanup, no eviction. */
  datatype Ideal = Ideal(kept: map<string, Session>, seen: map<int, Option<Session>>)

  function IdealStep(i: Ideal, a: Action): Ideal {
    match a
    case Create(token, userId, username, timeout, now) =>
      if timeout < 0 then i else i.(kept := i.kept[token := NewSession(token, userId, username, timeout, now)])
    case Delete(token) => i.(kept := i.kept - {token})
    case Lookup(call, token) => i.(seen := i.seen[call := Find(i.kept, token)])
    case Cleanup(_) => i
    case Test(_, _) => i
    case Evict(_) => i
  }

  /** The forgetting store lacks expired sessions only, and every lookup in progress read what the
      keeping store would have read, or missed a session that had expired. */
  ghost predicate Simulates(r: Store, i: Ideal) {
    && r.sessions.Keys <= i.kept.Keys <= r.used
    && (forall t :: t in r.sessions ==> r.sessions[t] == i.kept[t])
    && (forall t :: t in i.kept && t !in r.sessions ==> IsExpired(i.kept[t], r.clock))
    && (forall c :: c in r.calls ==> ReadAlike(r, i, c))
  }

  ghost predicate ReadAlike(r: Store, i: Ideal, c: int)
    requires c in r.calls
  {
    match r.calls[c]
    case Stale(token) => token in r.used && (token in i.kept ==> IsExpired(i.kept[token], r.clock))
    case Looked(token, found) =>
      && c in i.seen
      && (found.Some? ==> token in r.used && (token in i.kept ==> i.kept[token] == found.value))
      && (found == i.seen[c] || (found.None? && i.seen[c].Some? && IsExpired(i.seen[c].value, r.clock)))
  }

  lemma StepSimulates(r: Store, i: Ideal, a: Action)
    requires Possible(r, a) && Simulates(r, i)
    ensures Simulates(Step(r, a), IdealStep(i, a))
    ensures a.Test? ==> a.call in i.seen && Tested(r.calls[a.call].found, a.now) == Tested(i.seen[a.call], a.now)
  {
    var r', i' := Step(r, a), IdealStep(i, a);
    if a.Test? {
      assert ReadAlike(r, i, a.call);
    }
    if a.Evict? {
      assert ReadAlike(r, i, a.call);
    }
    forall c | c in r'.calls ensures ReadAlike(r', i', c) {
      assert c in r.calls ==> ReadAlike(r, i, c);
    }
  }

  // ---------------------------------------------------------------- runs

  ghost predicate PossibleRun(s: Store, actions: seq<Action>)
    decreases |actions|, 0
  {
    actions == [] ||
    (PossibleRun(s, actions[..|actions| - 1]) && Possible(Run(s, actions[..|actions| - 1]), actions[|actions| - 1]))
  }

  ghost function Run(s: Store, actions: seq<Action>): Store
    requires PossibleRun(s, actions)
    decreases |actions|, 1
  {
    if actions == [] then s else Step(Run(s, actions[..|actions| - 1]), actions[|actions| - 1])
  }

  function IdealRun(actions: seq<Action>): Ideal {
    if actions == [] then Ideal(map[], map[])
    else IdealStep(IdealRun(actions[..|actions| - 1]), actions[|actions| - 1])
  }

  const EMPTY := Store(map[], map[], {}, {}, 0)

  /** The answers the tests of a run gave, in order. */
  ghost function Answers(actions: seq<Action>): seq<Option<Session>>
    requires PossibleRun(EMPTY, actions)
  {
    if actions == [] then []
    else
      var init, last := actions[..|actions| - 1], actions[|actions| - 1];
      Answers(init) + if last.Test? then [Tested(Run(EMPTY, init).calls[last.call].found, last.now)] else []
  }

  /** The answers of the store that never forgets. */
  function IdealAnswers(actions: seq<Action>): seq<Option<Session>> {
    if actions == [] then []
    else
      var init, last := actions[..|actions| - 1], actions[|actions| - 1];
      var i := IdealRun(init);
      IdealAnswers(init)
      + if last.Test? then [if last.call in i.seen then Tested(i.seen[last.call], last.now) else None] else []
  }

  /** Under every interleaving the store answers as one that never forgets. */
  lemma {:induction false} AnswersAsIfNothingForgotten(actions: seq<Action>)
    requires PossibleRun(EMPTY, actions)
    ensures Simulates(Run(EMPTY, actions), IdealRun(actions))
    ensures Answers(actions) == IdealAnswers(actions)
  {
    if actions != [] {
      var init, last := actions[..|actions| - 1], actions[|actions| - 1];
      AnswersAsIfNothingForgotten(init);
      StepSimulates(Run(EMPTY, init), IdealRun(init), last);
    }
  }

  predicate IsKeptAfter(actions: seq<Action>, token: string, s: Session) {
    exists k :: 0 <= k < |actions| && Creates(actions[k], token, s)
                && forall j :: k < j < |actions| ==> actions[j] != Action.Delete(token)
  }

  predicate Creates(a: Action, token: string, s: Session) {
    a.Create? && a.token == token && a.timeout >= 0 && s == NewSession(token, a.userId, a.username, a.timeout, a.now)
  }

  lemma KeptSnoc(actions: seq<Action>, a: Action, token: string, s: Session)
    ensures IsKeptAfter(actions + [a], token, s)
            <==> Creates(a, token, s) || (IsKeptAfter(actions, token, s) && a != Action.Delete(token))
  {
    var all, n := actions + [a], |actions|;
    assert all[n] == a && forall j :: 0 <= j < n ==> all[j] == actions[j];
    if IsKeptAfter(actions, token, s) && a != Action.Delete(token) {
      var k :| 0 <= k < n && Creates(actions[k], token, s) && forall j :: k < j < n ==> actions[j] != Action.Delete(token);
      assert Creates(all[k], token, s);
    }
    if Creates(a, token, s) {
      assert Creates(all[n], token, s);
    }
  }

  lemma KeptWasUsed(actions: seq<Action>, token: string, s: Session)
    requires PossibleRun(EMPTY, actions) && IsKeptAfter(actions, token, s)
    ensures token in Run(EMPTY, actions).used
  {
    UsedWhenCreated(actions, token);
  }

  /** What the keeping store holds: the sessions created and not deleted since. */
  lemma {:induction false} KeptExactly(actions: seq<Action>, token: string, s: Session)
    requires PossibleRun(EMPTY, actions)
    ensures Find(IdealRun(actions).kept, token) == Some(s) <==> IsKeptAfter(actions, token, s)
  {
    if actions != [] {
      var init, last := actions[..|actions| - 1], actions[|actions| - 1];
      assert actions == init + [last];
      KeptExactly(init, token, s);
      KeptSnoc(init, last, token, s);
      if IsKeptAfter(init, token, s) {
        KeptWasUsed(init, token, s);
      }
    }
  }

  lemma {:induction false} UsedWhenCreated(actions: seq<Action>, token: string)
    requires PossibleRun(EMPTY, actions)
    ensures token in Run(EMPTY, actions).used
            <==> exists k :: 0 <= k < |actions| && actions[k].Create? && actions[k].token == token && actions[k].timeout >= 0
  {
    if actions != [] {
      var n := |actions| - 1;
      var init, last := actions[..n], actions[n];
      UsedWhenCreated(init, token);
      if exists k :: 0 <= k < n && init[k].Create? && init[k].token == token && init[k].timeout >= 0 {
        var k :| 0 <= k < n && init[k].Create? && init[k].token == token && init[k].timeout >= 0;
        assert actions[k].Create?;
      }
      if exists k :: 0 <= k <= n && actions[k].Create? && actions[k].token == token && actions[k].timeout >= 0 {
        var k :| 0 <= k <= n && actions[k].Create? && actions[k].token == token && actions[k].timeout >= 0;
        assert k < n ==> init[k] == actions[k];
      }
    }
  }

  /** A token is found at a time exactly when its session was created, not deleted since, and has
      not expired by then; whatever cleanups and evictions happened in between. */
  lemma FoundExactly(actions: seq<Action>, token: string, now: int, s: Session)
    requires PossibleRun(EMPTY, actions) && now >= Run(EMPTY, actions).clock
    ensures Tested(Find(Run(EMPTY, actions).sessions, token), now) == Some(s)
            <==> IsKeptAfter(actions, token, s) && !IsExpired(s, now)
  {
    AnswersAsIfNothingForgotten(actions);
    KeptExactly(actions, token, s);
  }

  /** A session created at a time and not deleted since is found until its timeout has passed, to the
      second, and for ever with a timeout of 0; and it is the session that was created. */
  lemma CreatedIsFoundExactly(actions: seq<Action>, k: nat, now: int)
    requires PossibleRun(EMPTY, actions) && now >= Run(EMPTY, actions).clock
    requires k < |actions| && actions[k].Create? && actions[k].timeout >= 0
    requires forall j :: k < j < |actions| ==> actions[j] != Action.Delete(actions[k].token)
    ensures var a, found := actions[k], Tested(Find(Run(EMPTY, actions).sessions, actions[k].token), now);
            && (found.Some? <==> a.timeout == 0 || now <= a.now + a.timeout)
            && (found.Some? ==>
                  && found.value.token == a.token && found.value.userId == a.userId && found.value.username == a.username
                  && found.value.createdAt == a.now
                  && found.value.expiresAt == if a.timeout == 0 then None else Some(a.now + a.timeout))
  {
    var a := actions[k];
    var s := NewSession(a.token, a.userId, a.username, a.timeout, a.now);
    assert Creates(actions[k], a.token, s);
    FoundExactly(actions, a.token, now, s);
    KeptExactly(actions, a.token, s);
    var found := Tested(Find(Run(EMPTY, actions).sessions, a.token), now);
    if found.Some? {
      FoundExactly(actions, a.token, now, found.value);
      KeptExactly(actions, a.token, found.value);
    }
  }

  function NoCleanups(actions: seq<Action>): seq<Action> {
    if actions == [] then []
    else
      var last := actions[|actions| - 1];
      NoCleanups(actions[..|actions| - 1]) + if last.Cleanup? then [] else [last]
  }

  lemma {:induction false} CleanupsDoNotMatter(actions: seq<Action>)
    ensures IdealRun(NoCleanups(actions)) == IdealRun(actions)
    ensures IdealAnswers(NoCleanups(actions)) == IdealAnswers(actions)
  {
    if actions != [] {
      var init, last := actions[..|actions| - 1], actions[|actions| - 1];
      CleanupsDoNotMatter(init);
      var kept := NoCleanups(init);
      assert (kept + [last])[..|kept|] == kept;
      assert kept + [] == kept;
    }
  }

  /** A run beside the same run without its cleanups. */
  ghost predicate Alongside(r: Store, n: Store) {
    && n.clock <= r.clock && n.used == r.used && n.started == r.started
    && (forall t :: t in r.sessions ==> t in n.sessions && n.sessions[t] == r.sessions[t])
    && (forall c :: c in r.calls ==> c in n.calls && CallAlongside(r.calls[c], n.calls[c]))
  }

  predicate CallAlongside(r: Call, n: Call) {
    r.token == n.token && r.Stale? == n.Stale? && (r.Looked? && r.found.Some? ==> n.found == r.found)
  }

  lemma StepAlongside(r: Store, n: Store, a: Action)
    requires Possible(r, a) && Alongside(r, n)
    ensures a.Cleanup? ==> Alongside(Step(r, a), n)
    ensures !a.Cleanup? ==> Possible(n, a) && Alongside(Step(r, a), Step(n, a))
  {
  }

  lemma {:induction false} PossibleWithoutCleanups(actions: seq<Action>)
    requires PossibleRun(EMPTY, actions)
    ensures PossibleRun(EMPTY, NoCleanups(actions))
    ensures Alongside(Run(EMPTY, actions), Run(EMPTY, NoCleanups(actions)))
  {
    if actions != [] {
      var init, last := actions[..|actions| - 1], actions[|actions| - 1];
      PossibleWithoutCleanups(init);
      var kept := NoCleanups(init);
      assert (kept + [last])[..|kept|] == kept && kept + [] == kept;
      StepAlongside(Run(EMPTY, init), Run(EMPTY, kept), last);
    }
  }

  /** Cleanup is unobservable: leaving every cleanup out of a run gives a possible run with the
      same answers. */
  lemma CleanupIsUnobservable(actions: seq<Action>)
    requires PossibleRun(EMPTY, actions)
    ensures PossibleRun(EMPTY, NoCleanups(actions))
    ensures Answers(actions) == Answers(NoCleanups(actions))
  {
    PossibleWithoutCleanups(actions);
    AnswersAsIfNothingForgotten(actions);
    AnswersAsIfNothingForgotten(NoCleanups(actions));
    CleanupsDoNotMatter(actions);
  }
}
