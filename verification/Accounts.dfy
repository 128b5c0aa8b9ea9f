/** User accounts: the row statements of the users table and the login and change-password handlers. */
module Accounts {
  import opened Options
  import opened Sessions

  datatype User = User(id: int, passwordHash: string, mustChange: bool, failedAttempts: int,
                       lockedUntil: int, lastLoginAt: int, updatedAt: int)

  type Users = map<string, User>

  /** The settings as configured; values that make no sense fall back to defaults. */
  datatype Config = Config(lockoutThreshold: int, lockoutDuration: int, minPasswordLength: int, sessionTimeout: int)
  {
    function Threshold(): (t: int)
      ensures t > 0
    {
      if lockoutThreshold <= 0 then 5 else lockoutThreshold
    }

    function Duration(): (d: int)
      ensures d > 0
    {
      if lockoutDuration <= 0 then 900 else lockoutDuration
    }

    function MinLength(): int {
      if minPasswordLength <= 0 then 8 else minPasswordLength
    }

    function Timeout(): int {
      if sessionTimeout < 0 then 3600 else sessionTimeout
    }
  }

  /** Whether a hash is of a password. */
  type Matcher = (string, string) -> bool

  datatype Reply = BadCredentials | Locked | MustChange | LoggedIn(session: Session) | TooShort | SamePassword
                 | HashFailed | Changed | Done

  predicate IsLocked(u: User, now: int) {
    u.lockedUntil > 0 && u.lockedUntil > now
  }

  // ---------------------------------------------------------- statements

  function Failed(users: Users, name: string, now: int): Users {
    if name in users
    then users[name := users[name].(failedAttempts := users[name].failedAttempts + 1, updatedAt := now)] else users
  }

  function LockedTo(users: Users, name: string, until: int, now: int): Users {
    if name in users then users[name := users[name].(lockedUntil := until, updatedAt := now)] else users
  }

  function Cleared(users: Users, name: string, now: int): Users {
    if name in users
    then users[name := users[name].(failedAttempts := 0, lockedUntil := 0, updatedAt := now)] else users
  }

  function LastLogin(users: Users, name: string, now: int): Users {
    if name in users then users[name := users[name].(lastLoginAt := now, updatedAt := now)] else users
  }

  function Rekeyed(users: Users, name: string, hash: string, mustChange: bool, now: int): Users {
    if name in users
    then users[name := users[name].(passwordHash := hash, mustChange := mustChange, failedAttempts := 0,
                                    lockedUntil := 0, updatedAt := now)]
    else users
  }

  // ------------------------------------------------------------ requests

  /** A request about one account. A login or change reads the clock at `at` for the lock test and
      at `later` when it writes; the administrator's commands need no password. */
  datatype Request =
    | Login(name: string, password: string, at: int, later: int)
    | Change(name: string, oldPassword: string, newPassword: string, newHash: Option<string>, at: int, later: int)
    | Unlock(name: string, at: int, later: int)
    | Reset(name: string, hash: string, at: int, later: int)

  function Secret(r: Request): string
    requires r.Login? || r.Change?
  {
    if r.Login? then r.password else r.oldPassword
  }

  /** The request gets as far as comparing the password with the stored hash. */
  predicate IsComparison(users: Users, r: Request) {
    (r.Login? || r.Change?) && r.name in users && !IsLocked(users[r.name], r.at)
  }

  predicate IsWrong(users: Users, r: Request, matches: Matcher) {
    IsComparison(users, r) && !matches(users[r.name].passwordHash, Secret(r))
  }

  /** A failed comparison counts, and from the threshold on it locks. */
  function FailedAttempt(users: Users, name: string, cfg: Config, later: int): Users {
    var counted := Failed(users, name, later);
    if name in users && counted[name].failedAttempts >= cfg.Threshold()
    then LockedTo(counted, name, later + cfg.Duration(), later) else counted
  }

  function ChangeRefusal(r: Request, cfg: Config): Option<Reply>
    requires r.Change?
  {
    if |r.newPassword| < cfg.MinLength() then Some(TooShort)
    else if r.newPassword == r.oldPassword then Some(SamePassword)
    else if r.newHash.None? then Some(HashFailed)
    else None
  }

  /** The account table after a request. */
  function AfterRequest(users: Users, r: Request, cfg: Config, matches: Matcher): Users {
    if r.Unlock? then Cleared(users, r.name, r.later)
    else if r.Reset? then Rekeyed(users, r.name, r.hash, true, r.later)
    else if !IsComparison(users, r) then users
    else if IsWrong(users, r, matches) then FailedAttempt(users, r.name, cfg, r.later)
    else if r.Login? then
      if users[r.name].mustChange then users
      else LastLogin(Cleared(users, r.name, r.later), r.name, r.later)
    else if ChangeRefusal(r, cfg).Some? then users
    else Rekeyed(users, r.name, r.newHash.value, false, r.later)
  }

  /** What a login is answered. */
  function LoginReply(users: Users, r: Request, token: string, cfg: Config, matches: Matcher): Reply
    requires r.Login?
  {
    if r.name !in users || IsWrong(users, r, matches) then BadCredentials
    else if !IsComparison(users, r) then Locked
    else if users[r.name].mustChange then MustChange
    else LoggedIn(NewSession(token, users[r.name].id, r.name, cfg.Timeout(), r.later))
  }

  /** What a change of password is answered. */
  function ChangeReply(users: Users, r: Request, cfg: Config, matches: Matcher): Reply
    requires r.Change?
  {
    if r.name !in users || IsWrong(users, r, matches) then BadCredentials
    else if !IsComparison(users, r) then Locked
    else ChangeRefusal(r, cfg).GetOr(Changed)
  }

  // -------------------------------------------------------- in plain terms

  /** The account is there and no lock of it lasts beyond the time. */
  predicate IsOpen(users: Users, name: string, at: int) {
    name in users && (users[name].lockedUntil <= 0 || users[name].lockedUntil <= at)
  }

  predicate Fits(users: Users, name: string, password: string, matches: Matcher) {
    name in users && matches(users[name].passwordHash, password)
  }

  /** A password is compared exactly when the account is there and its lock, if any, has run out; it
      is wrong exactly when it does not match the stored hash. */
  lemma ComparisonExactly(users: Users, r: Request, matches: Matcher)
    ensures IsComparison(users, r)
            <==> (r.Login? || r.Change?) && r.name in users
                 && (users[r.name].lockedUntil <= 0 || users[r.name].lockedUntil <= r.at)
    ensures IsWrong(users, r, matches)
            <==> (r.Login? || r.Change?) && r.name in users
                 && (users[r.name].lockedUntil <= 0 || users[r.name].lockedUntil <= r.at)
                 && !matches(users[r.name].passwordHash, if r.Login? then r.password else r.oldPassword)
  {
  }

  /** When a login is told what, and the session it hands out: without end for a timeout of 0, of an
      hour for a negative one. */
  lemma LoginReplies(users: Users, r: Request, token: string, cfg: Config, matches: Matcher)
    requires r.Login?
    ensures var reply, open, fits := LoginReply(users, r, token, cfg, matches), IsOpen(users, r.name, r.at), Fits(users, r.name, r.password, matches);
            && (reply == BadCredentials <==> r.name !in users || (open && !fits))
            && (reply == Locked <==> r.name in users && !open)
            && (reply == MustChange <==> open && fits && users[r.name].mustChange)
            && (reply.LoggedIn? <==> open && fits && !users[r.name].mustChange)
            && (reply.LoggedIn? ==>
                  var s := reply.session;
                  && s.token == token && s.userId == users[r.name].id && s.username == r.name && s.createdAt == r.later
                  && s.expiresAt == if cfg.sessionTimeout == 0 then None
                                    else if cfg.sessionTimeout < 0 then Some(r.later + 3600)
                                    else Some(r.later + cfg.sessionTimeout))
  {
  }

  /** No account but this one changes. */
  predicate OnlyAccount(before: Users, after: Users, name: string) {
    after.Keys == before.Keys && forall other :: other in before && other != name ==> after[other] == before[other]
  }

  /** A wrong password counts one more failure and, from the threshold on, locks for the duration;
      5 and 900 stand in for settings that are not positive. */
  predicate CountsFailure(before: User, after: User, cfg: Config, now: int) {
    var threshold, duration := if cfg.lockoutThreshold > 0 then cfg.lockoutThreshold else 5, if cfg.lockoutDuration > 0 then cfg.lockoutDuration else 900;
    && after == before.(failedAttempts := before.failedAttempts + 1, lockedUntil := after.lockedUntil, updatedAt := now)
    && after.lockedUntil == if before.failedAttempts + 1 >= threshold then now + duration else before.lockedUntil
  }

  /** What a login writes: a right password clears failures and lock and dates the login, unless it
      must be changed first; a wrong one counts; a locked or unknown account stays as it is. */
  lemma LoginWrites(users: Users, r: Request, cfg: Config, matches: Matcher)
    requires r.Login?
    ensures var after, open, fits := AfterRequest(users, r, cfg, matches), IsOpen(users, r.name, r.at), Fits(users, r.name, r.password, matches);
            && OnlyAccount(users, after, r.name)
            && (open && fits && !users[r.name].mustChange ==>
                  after[r.name] == users[r.name].(failedAttempts := 0, lockedUntil := 0, lastLoginAt := r.later, updatedAt := r.later))
            && (open && !fits ==> CountsFailure(users[r.name], after[r.name], cfg, r.later))
            && (!open || (fits && users[r.name].mustChange) ==> after == users)
  {
  }

  /** When a change of password is told what; 8 stands in for a least length that is not positive. */
  lemma ChangeReplies(users: Users, r: Request, cfg: Config, matches: Matcher)
    requires r.Change?
    ensures var reply, right := ChangeReply(users, r, cfg, matches), IsOpen(users, r.name, r.at) && Fits(users, r.name, r.oldPassword, matches);
            var long := |r.newPassword| >= if cfg.minPasswordLength > 0 then cfg.minPasswordLength else 8;
            && (reply == Locked <==> r.name in users && !IsOpen(users, r.name, r.at))
            && (reply == BadCredentials
                <==> r.name !in users || (IsOpen(users, r.name, r.at) && !Fits(users, r.name, r.oldPassword, matches)))
            && (reply == TooShort <==> right && !long)
            && (reply == SamePassword <==> right && long && r.newPassword == r.oldPassword)
            && (reply == HashFailed <==> right && long && r.newPassword != r.oldPassword && r.newHash == None)
            && (reply == Changed <==> right && long && r.newPassword != r.oldPassword && r.newHash != None)
  {
  }

  /** What a change of password writes: an accepted one the new hash, clearing the duty to change,
      failures and lock; a wrong old password counts; any other refusal writes nothing. */
  lemma ChangeWrites(users: Users, r: Request, cfg: Config, matches: Matcher)
    requires r.Change?
    ensures var after, reply := AfterRequest(users, r, cfg, matches), ChangeReply(users, r, cfg, matches);
            && OnlyAccount(users, after, r.name)
            && (reply == Changed ==>
                  r.name in users && r.newHash.Some?
                  && after[r.name] == users[r.name].(passwordHash := r.newHash.value, mustChange := false, failedAttempts := 0,
                                                     lockedUntil := 0, updatedAt := r.later))
            && (reply == BadCredentials && r.name in users ==> CountsFailure(users[r.name], after[r.name], cfg, r.later))
            && (reply != Changed && !(reply == BadCredentials && r.name in users) ==> after == users)
  {
  }

  /** What the administrator's commands write: both clear failures and lock, a reset also puts in a
      password that must be changed. */
  lemma AdminWrites(users: Users, r: Request, cfg: Config, matches: Matcher)
    requires (r.Unlock? || r.Reset?) && r.name in users
    ensures var after := AfterRequest(users, r, cfg, matches);
            && OnlyAccount(users, after, r.name)
            && (r.Unlock? ==> after[r.name] == users[r.name].(failedAttempts := 0, lockedUntil := 0, updatedAt := r.later))
            && (r.Reset? ==>
                  after[r.name] == users[r.name].(passwordHash := r.hash, mustChange := true, failedAttempts := 0, lockedUntil := 0,
                                                  updatedAt := r.later))
  {
  }

  // ------------------------------------------------------------- handlers

  class Storage {
    var users: Users

    constructor ()
      ensures users == map[]
    {
      users := map[];
    }

    method GetUserByUsername(name: string) returns (user: Option<User>)
      ensures user == if name in users then Some(users[name]) else None
    {
      user := if name in users then Some(users[name]) else None;
    }

    method IncrementFailedAttempts(name: string, now: int) returns (count: Option<int>)
      modifies this
      ensures users == Failed(old(users), name, now)
      ensures count == if name in users then Some(users[name].failedAttempts) else None
    {
      if name !in users {
        return None;
      }
      var u := users[name];
      users := users[name := u.(failedAttempts := u.failedAttempts + 1, updatedAt := now)];
      count := Some(u.failedAttempts + 1);
    }

    method SetLocked(name: string, until: int, now: int) returns (found: bool)
      modifies this
      ensures users == LockedTo(old(users), name, until, now)
      ensures found == (name in old(users))
    {
      found := name in users;
      if found {
        users := users[name := users[name].(lockedUntil := until, updatedAt := now)];
      }
    }

    method ResetLoginState(name: string, now: int) returns (found: bool)
      modifies this
      ensures users == Cleared(old(users), name, now)
      ensures found == (name in old(users))
    {
      found := name in users;
      if found {
        users := users[name := users[name].(failedAttempts := 0, lockedUntil := 0, updatedAt := now)];
      }
    }

    method UpdateLastLogin(name: string, now: int) returns (found: bool)
      modifies this
      ensures users == LastLogin(old(users), name, now)
      ensures found == (name in old(users))
    {
      found := name in users;
      if found {
        users := users[name := users[name].(lastLoginAt := now, updatedAt := now)];
      }
    }

    method UpdatePassword(name: string, hash: string, mustChange: bool, now: int) returns (found: bool)
      modifies this
      ensures users == Rekeyed(old(users), name, hash, mustChange, now)
      ensures found == (name in old(users))
    {
      found := name in users;
      if found {
        users := users[name := users[name].(passwordHash := hash, mustChange := mustChange, failedAttempts := 0,
                                            lockedUntil := 0, updatedAt := now)];
      }
    }
  }

  class AuthHandler {
    const cfg: Config
    const store: Storage
    const sessionStore: MemorySessionStore
    const matches: Matcher

    constructor (cfg: Config, store: Storage, sessionStore: MemorySessionStore, matches: Matcher)
      ensures this.cfg == cfg && this.store == store && this.sessionStore == sessionStore && this.matches == matches
    {
      this.cfg, this.store, this.sessionStore, this.matches := cfg, store, sessionStore, matches;
    }

    method HandleFailedAttempt(name: string, now: int)
      modifies store
      ensures store.users == FailedAttempt(old(store.users), name, cfg, now)
    {
      var n := store.IncrementFailedAttempts(name, now);
      if n.None? {
        return;
      }
      var threshold := cfg.lockoutThreshold;
      if threshold <= 0 {
        threshold := 5;
      }
      if n.value >= threshold {
        var duration := cfg.lockoutDuration;
        if duration <= 0 {
          duration := 900;
        }
        var _ := store.SetLocked(name, now + duration, now);
      }
    }

    /** Logs in with a password; token is the fresh token of the session handed out on success. */
    method HandleLogin(name: string, password: string, at: int, later: int, token: string) returns (reply: Reply)
      modifies store, sessionStore
      ensures store.users == AfterRequest(old(store.users), Request.Login(name, password, at, later), cfg, matches)
      ensures reply == LoginReply(old(store.users), Request.Login(name, password, at, later), token, cfg, matches)
      ensures sessionStore.sessions
              == if reply.LoggedIn? then old(sessionStore.sessions)[token := reply.session] else old(sessionStore.sessions)
    {
      var user := store.GetUserByUsername(name);
      if user.None? {
        return BadCredentials;
      }
      if IsLocked(user.value, at) {
        return Locked;
      }
      if !matches(user.value.passwordHash, password) {
        HandleFailedAttempt(name, later);
        return BadCredentials;
      }
      if user.value.mustChange {
        return MustChange;
      }
      var _ := store.ResetLoginState(name, later);
      var _ := store.UpdateLastLogin(name, later);
      var timeout := cfg.sessionTimeout;
      if cfg.sessionTimeout < 0 {
        timeout := 3600;
      }
      var session := sessionStore.Create(user.value.id, name, timeout, token, later);
      reply := LoggedIn(session.value);
    }

    /** Changes a password on the strength of the old one; shares the failure count with login. */
    method HandleChangePassword(name: string, oldPassword: string, newPassword: string, newHash: Option<string>,
                                at: int, later: int) returns (reply: Reply)
      modifies store
      ensures var r := Change(name, oldPassword, newPassword, newHash, at, later);
              && store.users == AfterRequest(old(store.users), r, cfg, matches)
              && reply == ChangeReply(old(store.users), r, cfg, matches)
    {
      var user := store.GetUserByUsername(name);
      if user.None? {
        return BadCredentials;
      }
      if IsLocked(user.value, at) {
        return Locked;
      }
      if !matches(user.value.passwordHash, oldPassword) {
        HandleFailedAttempt(name, later);
        return BadCredentials;
      }
      var minLen := cfg.minPasswordLength;
      if minLen <= 0 {
        minLen := 8;
      }
      if |newPassword| < minLen {
        return TooShort;
      }
      if newPassword == oldPassword {
        return SamePassword;
      }
      if newHash.None? {
        return HashFailed;
      }
      var _ := store.UpdatePassword(name, newHash.value, false, later);
      reply := Changed;
    }
  }
}
