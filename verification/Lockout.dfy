/** The lockout as a rate limit: how fast wrong passwords can be tried, over whole runs. */
module Lockout {
  import opened Options
  import opened Accounts

  /** The clock never goes back, within a request and from one to the next, and counts from 1970. */
  predicate Clocked(run: seq<Request>) {
    && (forall i :: 0 <= i < |run| ==> 0 <= run[i].at <= run[i].later)
    && (forall i, j :: 0 <= i < j < |run| ==> run[i].later <= run[j].at)
  }

  function Run(users: Users, run: seq<Request>, cfg: Config, matches: Matcher): Users {
    if run == [] then users
    else AfterRequest(Run(users, run[..|run| - 1], cfg, matches), run[|run| - 1], cfg, matches)
  }

  // ---------------------------------------------------- lock and count agree

  /** Locked-until is set exactly from the threshold on. */
  predicate Coherent(u: User, cfg: Config) {
    u.failedAttempts >= 0 && (u.lockedUntil > 0 <==> u.failedAttempts >= cfg.Threshold())
  }

  ghost predicate AllCoherent(users: Users, cfg: Config) {
    forall name :: name in users ==> Coherent(users[name], cfg)
  }

  lemma StepKeepsCoherent(users: Users, r: Request, cfg: Config, matches: Matcher)
    requires AllCoherent(users, cfg) && r.later >= 0
    ensures AllCoherent(AfterRequest(users, r, cfg, matches), cfg)
  {
  }

  /** In every run an account carries a lock time exactly when its failures have reached the threshold. */
  lemma {:induction false} LockedExactlyFromThreshold(users: Users, run: seq<Request>, cfg: Config, matches: Matcher)
    requires AllCoherent(users, cfg) && Clocked(run)
    ensures AllCoherent(Run(users, run, cfg, matches), cfg)
  {
    if run != [] {
      LockedExactlyFromThreshold(users, run[..|run| - 1], cfg, matches);
      StepKeepsCoherent(Run(users, run[..|run| - 1], cfg, matches), run[|run| - 1], cfg, matches);
    }
  }

  /** Every request of the run that names the account is a login or a change that finds it locked
      by the lock it has now. */
  predicate WithinLock(run: seq<Request>, name: string, until: int) {
    forall i :: 0 <= i < |run| && run[i].name == name ==> (run[i].Login? || run[i].Change?) && run[i].at < until
  }

  lemma OtherAccountKept(users: Users, r: Request, name: string, cfg: Config, matches: Matcher)
    requires name in users && (r.name != name || (!r.Unlock? && !r.Reset? && IsLocked(users[name], r.at)))
    ensures name in AfterRequest(users, r, cfg, matches) && AfterRequest(users, r, cfg, matches)[name] == users[name]
  {
  }

  /** A lock holds out over any run: until it expires, or the administrator lifts it, the account
      stays exactly as it is, however many logins and changes are tried, and none of them gets as
      far as comparing a password. */
  lemma {:induction false} LockHoldsOut(users: Users, run: seq<Request>, name: string, cfg: Config, matches: Matcher)
    requires name in users && users[name].lockedUntil > 0 && WithinLock(run, name, users[name].lockedUntil)
    ensures var after := Run(users, run, cfg, matches); name in after && after[name] == users[name]
    ensures forall i :: 0 <= i < |run| && run[i].name == name ==>
              !IsComparison(Run(users, run[..i], cfg, matches), run[i])
  {
    if run != [] {
      var n := |run| - 1;
      var init := run[..n];
      LockHoldsOut(users, init, name, cfg, matches);
      OtherAccountKept(Run(users, init, cfg, matches), run[n], name, cfg, matches);
      assert forall i :: 0 <= i < n ==> init[..i] == run[..i];
    }
  }

  // ------------------------------------------------------------- rate bound

  /** A request that puts the account's failures back to zero. */
  predicate Resets(users: Users, r: Request, name: string, cfg: Config, matches: Matcher) {
    && r.name == name && name in users
    && (r.Unlock? || r.Reset?
        || (IsComparison(users, r) && !IsWrong(users, r, matches)
            && (r.Login? ==> !users[name].mustChange) && (r.Change? ==> ChangeRefusal(r, cfg).None?)))
  }

  predicate NoReset(users: Users, run: seq<Request>, name: string, cfg: Config, matches: Matcher) {
    run == []
    || (NoReset(users, run[..|run| - 1], name, cfg, matches)
        && !Resets(Run(users, run[..|run| - 1], cfg, matches), run[|run| - 1], name, cfg, matches))
  }

  /** When the account's password was compared and found wrong, in order. */
  function WrongTimes(users: Users, run: seq<Request>, name: string, cfg: Config, matches: Matcher): seq<int> {
    if run == [] then []
    else
      var init, last := run[..|run| - 1], run[|run| - 1];
      WrongTimes(users, init, name, cfg, matches)
      + if TriedWrong(Run(users, init, cfg, matches), last, name, matches) then [last.at] else []
  }

  /** The account's password was compared, its lock having run out, and did not match. */
  predicate TriedWrong(users: Users, r: Request, name: string, matches: Matcher) {
    && r.name == name && (r.Login? || r.Change?)
    && name in users && (users[name].lockedUntil <= 0 || users[name].lockedUntil <= r.at)
    && !matches(users[name].passwordHash, if r.Login? then r.password else r.oldPassword)
  }

  /** Between two wrong comparisons from the threshold on there is at least the lock duration. */
  predicate Spaced(times: seq<int>, cfg: Config) {
    forall i :: cfg.Threshold() <= i < |times| ==> times[i] - times[i - 1] >= cfg.Duration()
  }

  /** What one request does to the account: wrong comparisons count and lock, nothing else but a
      reset touches the count and the lock. */
  lemma StepOnAccount(users: Users, r: Request, name: string, cfg: Config, matches: Matcher)
    requires name in users && !Resets(users, r, name, cfg, matches)
    ensures var users' := AfterRequest(users, r, cfg, matches);
            && name in users'
            && (if r.name == name && IsWrong(users, r, matches)
                then users'[name].failedAttempts == users[name].failedAttempts + 1
                     && (users'[name].failedAttempts >= cfg.Threshold() ==> users'[name].lockedUntil == r.later + cfg.Duration())
                     && (users'[name].failedAttempts < cfg.Threshold() ==> users'[name].lockedUntil == users[name].lockedUntil)
                else users'[name].failedAttempts == users[name].failedAttempts
                     && users'[name].lockedUntil == users[name].lockedUntil)
  {
  }

  /** What the account shows after some wrong comparisons. */
  predicate Counted(u: User, times: seq<int>, cfg: Config) {
    && u.failedAttempts == |times|
    && (|times| < cfg.Threshold() ==> u.lockedUntil == 0)
    && (|times| >= cfg.Threshold() ==> u.lockedUntil >= times[|times| - 1] + cfg.Duration() > 0)
    && Spaced(times, cfg)
    && (forall i :: 0 <= i < |times| ==> times[i] >= 0)
  }

  lemma CountStep(users: Users, r: Request, name: string, times: seq<int>, cfg: Config, matches: Matcher)
    requires name in users && Counted(users[name], times, cfg) && 0 <= r.at <= r.later
    requires !Resets(users, r, name, cfg, matches)
    ensures name in AfterRequest(users, r, cfg, matches)
    ensures Counted(AfterRequest(users, r, cfg, matches)[name],
                    times + if TriedWrong(users, r, name, matches) then [r.at] else [], cfg)
  {
    StepOnAccount(users, r, name, cfg, matches);
    if TriedWrong(users, r, name, matches) {
      SpacedSnoc(times, r.at, cfg);
    } else {
      assert times + [] == times;
    }
  }

  /** The count is the number of wrong comparisons; from the threshold on the lock outlasts the
      duration from the last of them, and they are spaced by it. */
  lemma {:induction false} CountAndLock(users: Users, run: seq<Request>, name: string, cfg: Config, matches: Matcher)
    requires name in users && users[name].failedAttempts == 0 && users[name].lockedUntil == 0
    requires Clocked(run) && NoReset(users, run, name, cfg, matches)
    ensures name in Run(users, run, cfg, matches)
    ensures Counted(Run(users, run, cfg, matches)[name], WrongTimes(users, run, name, cfg, matches), cfg)
  {
    if run != [] {
      var init, last := run[..|run| - 1], run[|run| - 1];
      CountAndLock(users, init, name, cfg, matches);
      CountStep(Run(users, init, cfg, matches), last, name, WrongTimes(users, init, name, cfg, matches), cfg, matches);
    }
  }

  lemma SpacedSnoc(times: seq<int>, at: int, cfg: Config)
    requires Spaced(times, cfg) && (|times| >= cfg.Threshold() ==> at - times[|times| - 1] >= cfg.Duration())
    ensures Spaced(times + [at], cfg)
  {
  }

  lemma {:induction false} SpacingAddsUp(times: seq<int>, k: nat, cfg: Config)
    requires Spaced(times, cfg) && cfg.Threshold() <= k <= |times|
    ensures times[k - 1] - times[cfg.Threshold() - 1] >= (k - cfg.Threshold()) * cfg.Duration()
  {
    var t, d := cfg.Threshold(), cfg.Duration();
    if k > t {
      SpacingAddsUp(times, k - 1, cfg);
      assert times[k - 1] - times[k - 2] >= d;
      assert (k - t) * d == (k - 1 - t) * d + d;
    }
  }

  /** With threshold T and duration D, in any run without a reset the k-th wrong comparison, counting
      logins and password changes together, comes at least (k - T) * D seconds after the T-th. */
  lemma WrongPasswordsAreRateLimited(users: Users, run: seq<Request>, name: string, cfg: Config, matches: Matcher, k: nat)
    requires name in users && users[name].failedAttempts == 0 && users[name].lockedUntil == 0
    requires Clocked(run) && NoReset(users, run, name, cfg, matches)
    requires cfg.Threshold() <= k <= |WrongTimes(users, run, name, cfg, matches)|
    ensures var times := WrongTimes(users, run, name, cfg, matches);
            times[k - 1] - times[cfg.Threshold() - 1] >= (k - cfg.Threshold()) * cfg.Duration()
  {
    CountAndLock(users, run, name, cfg, matches);
    SpacingAddsUp(WrongTimes(users, run, name, cfg, matches), k, cfg);
  }

  // ------------------------------------------------------------ locks run out

  /** When the failures of the account were written, in order. */
  function WrongWrites(users: Users, run: seq<Request>, name: string, cfg: Config, matches: Matcher): seq<int> {
    if run == [] then []
    else
      var init, last := run[..|run| - 1], run[|run| - 1];
      WrongWrites(users, init, name, cfg, matches)
      + if TriedWrong(Run(users, init, cfg, matches), last, name, matches) then [last.later] else []
  }

  /** The time the account is locked until: the duration after the last failure, from the threshold on. */
  function LockEnd(wrong: seq<int>, cfg: Config): int {
    if |wrong| < cfg.Threshold() then 0 else wrong[|wrong| - 1] + cfg.Duration()
  }

  lemma CredentialsKept(users: Users, r: Request, name: string, cfg: Config, matches: Matcher)
    requires name in users && !Resets(users, r, name, cfg, matches)
    ensures var after := AfterRequest(users, r, cfg, matches);
            name in after && after[name].passwordHash == users[name].passwordHash
            && after[name].mustChange == users[name].mustChange && after[name].id == users[name].id
  {
  }

  lemma {:induction false} LockIsExact(users: Users, run: seq<Request>, name: string, cfg: Config, matches: Matcher)
    requires name in users && users[name].failedAttempts == 0 && users[name].lockedUntil == 0
    requires Clocked(run) && NoReset(users, run, name, cfg, matches)
    ensures var wrong, after := WrongWrites(users, run, name, cfg, matches), Run(users, run, cfg, matches);
            && name in after && after[name].failedAttempts == |wrong| && after[name].lockedUntil == LockEnd(wrong, cfg)
            && (forall i :: 0 <= i < |wrong| ==> wrong[i] >= 0)
            && after[name].passwordHash == users[name].passwordHash && after[name].mustChange == users[name].mustChange
  {
    if run != [] {
      var init, last := run[..|run| - 1], run[|run| - 1];
      LockIsExact(users, init, name, cfg, matches);
      StepOnAccount(Run(users, init, cfg, matches), last, name, cfg, matches);
      CredentialsKept(Run(users, init, cfg, matches), last, name, cfg, matches);
    }
  }

  /** In any run without a reset a login finds the account locked exactly when there were as many wrong
      passwords as the threshold and the duration since the last of them is not over. Otherwise the
      right password, if it need not be changed, hands out a session and clears failures and lock. */
  lemma AdmittedExactly(users: Users, run: seq<Request>, login: Request, token: string, cfg: Config, matches: Matcher)
    requires login.Login? && login.name in users
    requires users[login.name].failedAttempts == 0 && users[login.name].lockedUntil == 0
    requires Clocked(run) && NoReset(users, run, login.name, cfg, matches)
    ensures var now, wrong := Run(users, run, cfg, matches), WrongWrites(users, run, login.name, cfg, matches);
            var locked := |wrong| >= cfg.Threshold() && login.at < wrong[|wrong| - 1] + cfg.Duration();
            var reply, after := LoginReply(now, login, token, cfg, matches), AfterRequest(now, login, cfg, matches);
            && (reply == Locked <==> locked)
            && (!locked && matches(users[login.name].passwordHash, login.password) && !users[login.name].mustChange ==>
                  reply.LoggedIn? && login.name in after
                  && after[login.name].failedAttempts == 0 && after[login.name].lockedUntil == 0)
  {
    var now := Run(users, run, cfg, matches);
    LockIsExact(users, run, login.name, cfg, matches);
    LoginReplies(now, login, token, cfg, matches);
    LoginWrites(now, login, cfg, matches);
  }

  /** After the wrong password that reaches the threshold, and with the account left alone, the right
      one is taken again once the lock has run out. */
  lemma LockRunsOut(users: Users, wrong: Request, others: seq<Request>, login: Request, token: string, cfg: Config, matches: Matcher)
    requires wrong.name in users && TriedWrong(users, wrong, wrong.name, matches) && wrong.later >= 0
    requires forall i :: 0 <= i < |others| ==> others[i].name != wrong.name
    requires login.Login? && login.name == wrong.name && matches(users[login.name].passwordHash, login.password)
    requires !users[login.name].mustChange && users[login.name].failedAttempts + 1 >= cfg.Threshold()
    ensures var now := Run(AfterRequest(users, wrong, cfg, matches), others, cfg, matches);
            var reply, after := LoginReply(now, login, token, cfg, matches), AfterRequest(now, login, cfg, matches);
            && (login.at < wrong.later + cfg.Duration() ==> reply == Locked && after == now)
            && (login.at >= wrong.later + cfg.Duration() ==>
                  reply.LoggedIn? && login.name in after && after[login.name].failedAttempts == 0 && after[login.name].lockedUntil == 0)
  {
    var locked := AfterRequest(users, wrong, cfg, matches);
    var now := Run(locked, others, cfg, matches);
    LeftAlone(locked, others, wrong.name, cfg, matches);
    LoginReplies(now, login, token, cfg, matches);
    LoginWrites(now, login, cfg, matches);
  }

  lemma {:induction false} LeftAlone(users: Users, run: seq<Request>, name: string, cfg: Config, matches: Matcher)
    requires name in users && forall i :: 0 <= i < |run| ==> run[i].name != name
    ensures var after := Run(users, run, cfg, matches); name in after && after[name] == users[name]
  {
    if run != [] {
      LeftAlone(users, run[..|run| - 1], name, cfg, matches);
      OtherAccountKept(Run(users, run[..|run| - 1], cfg, matches), run[|run| - 1], name, cfg, matches);
    }
  }
}
