/** The manager and the request handlers: each method takes exactly the step of the state machine. */
module TabHandlers {
  import opened Options
  import opened TabTable
  import opened TabRepo
  import opened TabSteps

  class Manager {
    const repo: SQLiteRepo
    const failureThreshold: nat := FAILURE_THRESHOLD
    var failureCount: map<string, nat>

    constructor (repo: SQLiteRepo)
      ensures this.repo == repo && failureCount == map[]
    {
      this.repo := repo;
      failureCount := map[];
    }

    ghost function State(): TabState
      reads this, repo
    {
      TabState(repo.rows, failureCount)
    }

    ghost predicate Valid()
      reads this, repo
    {
      repo.Valid()
    }

    method ResetFailureCount(tabID: string)
      modifies this
      ensures failureCount == old(failureCount) - {tabID}
    {
      failureCount := failureCount - {tabID};
    }

    method BumpFailureCount(tabID: string) returns (count: nat)
      modifies this
      ensures count == (if tabID in old(failureCount) then old(failureCount)[tabID] else 0) + 1
      ensures failureCount == old(failureCount)[tabID := count]
    {
      count := (if tabID in failureCount then failureCount[tabID] else 0) + 1;
      failureCount := failureCount[tabID := count];
    }

    /** Probes a tab: probe is what the connection test reports, if the password can be decrypted. */
    method Ping(tabID: string, decryptOk: bool, probe: Probe, checkedAt: int) returns (status: string, errMsg: string)
      requires Valid()
      modifies this, repo
      ensures Valid()
      ensures State() == PingStep(old(State()), Event.Ping(tabID, decryptOk, probe, checkedAt)).0
      ensures (status, errMsg) == if tabID !in old(repo.rows) then ("unknown_error", "tab not found")
                                  else if !decryptOk then ("unknown_error", "decrypt failed")
                                  else (probe.status, probe.msg)
    {
      var all := repo.ListAll();
      var target: Option<Tab> := None;
      for i := 0 to |all|
        invariant target.None? ==> forall j :: 0 <= j < i ==> all[j].id != tabID
        invariant target.Some? ==> target.value in all && target.value.id == tabID
      {
        if all[i].id == tabID {
          target := Some(all[i]);
          break;
        }
      }
      assert tabID in repo.rows ==> repo.rows[tabID] in all;
      if target.None? {
        return "unknown_error", "tab not found";
      }
      if !decryptOk {
        return "unknown_error", "decrypt failed";
      }
      status, errMsg := probe.status, probe.msg;
      if status == "ok" {
        ResetFailureCount(tabID);
        repo.UpdateStatus(tabID, "ok", "", checkedAt);
        return;
      }
      var count := BumpFailureCount(tabID);
      if count < failureThreshold {
        repo.UpdateStatus(tabID, target.value.lastStatus, target.value.lastError, checkedAt);
        return;
      }
      repo.UpdateStatus(tabID, "error", status + ": " + errMsg, checkedAt);
    }

    /** Records what a key-value request met. */
    method MarkStatus(tabID: string, status: string, errMsg: string, now: int)
      requires Valid()
      modifies this, repo
      ensures Valid()
      ensures State() == MarkStep(old(State()), Mark(tabID, status, errMsg, now)).0
    {
      if tabID == "" || tabID == DEFAULT_ID {
        return;
      }
      if status == "ok" {
        ResetFailureCount(tabID);
      }
      repo.UpdateStatus(tabID, status, errMsg, now);
    }
  }

  class TabHandler {
    const mgr: Manager

    constructor (mgr: Manager)
      ensures this.mgr == mgr
    {
      this.mgr := mgr;
    }

    /** Adds a tab once every check has passed. */
    method HandleCreate(user: int, req: CreateRequest, checks: Checks, id: string, now: int) returns (reply: Reply)
      requires mgr.Valid()
      modifies mgr.repo
      ensures mgr.Valid()
      ensures (mgr.State(), reply) == CreateStep(old(mgr.State()), Event.Create(user, req, checks, id, now))
    {
      if user <= 0 {
        return Refused(Unauthorized);
      }
      if !checks.schemeOk {
        return Refused(InvalidScheme);
      }
      var count := mgr.repo.CountByUser(user);
      if count >= MAX_TABS {
        return Refused(LimitExceeded);
      }
      if checks.probe.status != "ok" {
        return Refused(if checks.probe.status == "auth_failed" then AuthFailed else Unreachable);
      }
      if checks.isMember {
        return Refused(BelongsToDefault);
      }
      if checks.cipher.None? {
        return Refused(EncryptFailed);
      }
      ghost var before := mgr.repo.rows;
      var tab, result := mgr.repo.Create(Requested(user, req, checks.cipher.value, now), id, now);
      MaxOrderUnique(before, user, tab.sortOrder - 1, NextOrder(before, user) - 1);
      reply := if result == Ok then Done else Refused(Internal);
    }

    /** Changes an owner's tab; a changed endpoint is checked like a new one and clears the status. */
    method HandlePatch(user: int, id: string, patch: PatchRequest, trimmed: string, checks: Checks, now: int)
      returns (reply: Reply)
      requires mgr.Valid()
      modifies mgr.repo
      ensures mgr.Valid()
      ensures (mgr.State(), reply)
              == PatchStep(old(mgr.State()), Event.Patch(user, id, patch, trimmed, checks, now))
    {
      if user <= 0 {
        return Refused(Unauthorized);
      }
      if id == DEFAULT_ID {
        return Refused(DefaultProtected);
      }
      var existing := mgr.repo.Get(id, user);
      if existing.None? {
        return Refused(NotFound);
      }
      var fields := PatchFields(None, None, None, None, None);
      if patch.endpoint.Some? && patch.endpoint.value != existing.value.endpoint {
        if !checks.schemeOk {
          return Refused(InvalidScheme);
        }
        if !(patch.password.Some? && patch.password.value != "") && !checks.decryptOk {
          return Refused(KekMissing);
        }
        if checks.probe.status != "ok" {
          return Refused(if checks.probe.status == "auth_failed" then AuthFailed else Unreachable);
        }
        if checks.isMember {
          return Refused(BelongsToDefault);
        }
        fields := fields.(endpoint := Some(trimmed));
        mgr.repo.UpdateStatus(id, "ok", "", now);
      }
      if patch.name.Some? {
        fields := fields.(name := patch.name);
      }
      if patch.username.Some? {
        fields := fields.(username := patch.username);
      }
      if patch.password.Some? && patch.password.value != "" {
        if checks.cipher.None? {
          return Refused(EncryptFailed);
        }
        fields := fields.(passwordCipher := checks.cipher);
      }
      var result := mgr.repo.UpdateByUser(id, user, fields, now);
      reply := if result == Ok then Done else Refused(NotFound);
    }

    method HandleDelete(user: int, id: string) returns (reply: Reply)
      requires mgr.Valid()
      modifies mgr.repo
      ensures mgr.Valid()
      ensures (mgr.State(), reply) == DeleteStep(old(mgr.State()), Event.Delete(user, id))
    {
      if user <= 0 {
        return Refused(Unauthorized);
      }
      if id == DEFAULT_ID {
        return Refused(DefaultProtected);
      }
      var result := mgr.repo.DeleteByUser(id, user);
      reply := if result == Ok then Done else Refused(NotFound);
    }

    /** Reorders the user's tabs; the default tab is named first and left where it is. */
    method HandleReorder(user: int, ids: seq<string>, now: int) returns (reply: Reply)
      requires mgr.Valid()
      modifies mgr.repo
      ensures mgr.Valid()
      ensures (mgr.State(), reply) == ReorderStep(old(mgr.State()), Event.Reorder(user, ids, now))
    {
      if user <= 0 {
        return Refused(Unauthorized);
      }
      if |ids| == 0 || ids[0] != DEFAULT_ID {
        return Refused(DefaultFirstRequired);
      }
      var result := mgr.repo.UpdateOrderByUser(user, ids[1..], now);
      if result == OrderMismatch {
        return Refused(OrderMismatched);
      }
      reply := if result == TabNotFound then Refused(NotFound) else Done;
    }
  }

  lemma MaxOrderUnique(t: Table, user: int, m: int, n: int)
    requires IsMaxOrder(t, user, m) && IsMaxOrder(t, user, n)
    ensures m == n
  {
  }
}
