/** What each step on the tabs writes, field by field, and how each request is answered. */
module TabWrites {
  import opened Options
  import opened TabTable
  import opened TabRepo
  import opened TabSteps

  /** No row but this one is added, removed or changed. */
  predicate OnlyRow(before: Table, after: Table, id: string) {
    && before.Keys - {id} == after.Keys - {id}
    && forall other :: other in before && other != id ==> other in after && after[other] == before[other]
  }

  /** The row is the user's. */
  predicate IsOf(t: Table, id: string, user: int) {
    id in t && t[id].userId == user
  }

  // ---------------------------------------------------------------- create

  /** The order is one behind the largest the user has, and 0 for a first tab. */
  ghost predicate IsNextOrder(t: Table, user: int, order: int) {
    && (forall id :: IsOf(t, id, user) ==> t[id].sortOrder < order)
    && (if exists id :: IsOf(t, id, user) then exists id :: IsOf(t, id, user) && t[id].sortOrder == order - 1 else order == 0)
  }

  /** A created tab is as requested, encrypted, ok, last in its owner's order and dated now. */
  lemma CreateWrites(s: TabState, e: Event)
    requires e.Create? && WellKeyed(s.rows) && CreateStep(s, e).1 == Done
    ensures var s' := CreateStep(s, e).0;
            && s'.failures == s.failures && e.id !in s.rows && e.id in s'.rows && OnlyRow(s.rows, s'.rows, e.id)
            && var row := s'.rows[e.id];
               && row.id == e.id && row.userId == e.user
               && row.name == e.req.name && row.endpoint == e.req.endpoint && row.username == e.req.username
               && Some(row.passwordCipher) == e.checks.cipher
               && row.lastStatus == "ok" && row.lastError == "" && row.lastCheckedAt == e.now
               && row.createdAt == e.now && row.updatedAt == e.now
               && IsNextOrder(s.rows, e.user, row.sortOrder)
  {
    NextIsNext(s.rows, e.user);
  }

  lemma NextIsNext(t: Table, user: int)
    ensures IsNextOrder(t, user, NextOrder(t, user))
  {
    var m := NextOrder(t, user) - 1;
    assert IsMaxOrder(t, user, m);
    forall id ensures IsOf(t, id, user) <==> id in Owned(t, user) {
    }
    if Owned(t, user) != {} {
      var id :| id in Owned(t, user) && t[id].sortOrder == m;
      assert IsOf(t, id, user) && t[id].sortOrder == NextOrder(t, user) - 1;
    }
  }

  /** A create is answered by the first check that fails; a refused one writes nothing. */
  lemma CreateReplies(s: TabState, e: Event)
    requires e.Create?
    ensures var r, c := CreateStep(s, e).1, e.checks;
            var full := |set id | id in s.rows && s.rows[id].userId == e.user| >= 10;
            && (r == Refused(Unauthorized) <==> e.user <= 0)
            && (r == Refused(InvalidScheme) <==> e.user > 0 && !c.schemeOk)
            && (r == Refused(LimitExceeded) <==> e.user > 0 && c.schemeOk && full)
            && (r == Refused(AuthFailed) <==> e.user > 0 && c.schemeOk && !full && c.probe.status == "auth_failed")
            && (r == Refused(Unreachable)
                <==> e.user > 0 && c.schemeOk && !full && c.probe.status != "ok" && c.probe.status != "auth_failed")
            && (r == Refused(BelongsToDefault) <==> e.user > 0 && c.schemeOk && !full && c.probe.status == "ok" && c.isMember)
            && (r == Refused(EncryptFailed)
                <==> e.user > 0 && c.schemeOk && !full && c.probe.status == "ok" && !c.isMember && c.cipher == None)
            && (r == Refused(Internal)
                <==> e.user > 0 && c.schemeOk && !full && c.probe.status == "ok" && !c.isMember && c.cipher != None && e.id in s.rows)
            && (r == Done
                <==> e.user > 0 && c.schemeOk && !full && c.probe.status == "ok" && !c.isMember && c.cipher != None && e.id !in s.rows)
    ensures CreateStep(s, e).1 != Done ==> CreateStep(s, e).0 == s
  {
    assert Owned(s.rows, e.user) == set id | id in s.rows && s.rows[id].userId == e.user;
  }

  // ----------------------------------------------------------------- patch

  /** The patch asks for another endpoint. */
  predicate Moves(t: Table, e: Event)
    requires e.Patch? && e.id in t
  {
    e.patch.endpoint.Some? && e.patch.endpoint.value != t[e.id].endpoint
  }

  /** The patch brings a password. */
  predicate Rekeys(e: Event)
    requires e.Patch?
  {
    e.patch.password.Some? && e.patch.password.value != ""
  }

  /** An accepted patch writes exactly the fields it brings, the endpoint trimmed and the password
      encrypted, dates the row, and clears the status when the endpoint moved. */
  lemma PatchWrites(s: TabState, e: Event)
    requires e.Patch? && WellKeyed(s.rows) && PatchStep(s, e).1 == Done
    ensures var s' := PatchStep(s, e).0;
            && s'.failures == s.failures && e.id in s.rows && e.id in s'.rows && OnlyRow(s.rows, s'.rows, e.id)
            && var before, row := s.rows[e.id], s'.rows[e.id];
               && row.id == e.id && row.userId == before.userId == e.user && row.sortOrder == before.sortOrder
               && row.name == (if e.patch.name.Some? then e.patch.name.value else before.name)
               && row.username == (if e.patch.username.Some? then e.patch.username.value else before.username)
               && row.endpoint == (if Moves(s.rows, e) then e.trimmed else before.endpoint)
               && (if Rekeys(e) then Some(row.passwordCipher) == e.checks.cipher else row.passwordCipher == before.passwordCipher)
               && row.updatedAt == e.now && row.createdAt == before.createdAt
               && row.lastStatus == (if Moves(s.rows, e) then "ok" else before.lastStatus)
               && row.lastError == (if Moves(s.rows, e) then "" else before.lastError)
               && row.lastCheckedAt == (if Moves(s.rows, e) then e.now else before.lastCheckedAt)
  {
  }

  /** A patch is answered by the first check that fails. */
  lemma PatchReplies(s: TabState, e: Event)
    requires e.Patch?
    ensures var r, c := PatchStep(s, e).1, e.checks;
            var mine := e.user > 0 && e.id != "default" && IsOf(s.rows, e.id, e.user);
            var checked := mine && Moves(s.rows, e);
            var known := c.schemeOk && (Rekeys(e) || c.decryptOk);
            var passed := known && c.probe.status == "ok" && !c.isMember;
            && (r == Refused(Unauthorized) <==> e.user <= 0)
            && (r == Refused(DefaultProtected) <==> e.user > 0 && e.id == "default")
            && (r == Refused(NotFound) <==> e.user > 0 && e.id != "default" && !IsOf(s.rows, e.id, e.user))
            && (r == Refused(InvalidScheme) <==> checked && !c.schemeOk)
            && (r == Refused(KekMissing) <==> checked && c.schemeOk && !Rekeys(e) && !c.decryptOk)
            && (r == Refused(AuthFailed) <==> checked && known && c.probe.status == "auth_failed")
            && (r == Refused(Unreachable) <==> checked && known && c.probe.status != "ok" && c.probe.status != "auth_failed")
            && (r == Refused(BelongsToDefault) <==> checked && known && c.probe.status == "ok" && c.isMember)
            && (r == Refused(EncryptFailed) <==> mine && (checked ==> passed) && Rekeys(e) && c.cipher == None)
            && (r == Done <==> mine && (checked ==> passed) && !(Rekeys(e) && c.cipher == None))
  {
  }

  /** A refused patch writes nothing, but for the cleared status when the endpoint had passed its
      checks before encryption failed. */
  lemma RefusedPatchWrites(s: TabState, e: Event)
    requires e.Patch? && WellKeyed(s.rows) && PatchStep(s, e).1 != Done
    ensures var s' := PatchStep(s, e).0;
            if PatchStep(s, e).1 == Refused(EncryptFailed) && Moves(s.rows, e) then
              && s'.failures == s.failures && OnlyRow(s.rows, s'.rows, e.id) && e.id in s'.rows
              && s'.rows[e.id] == s.rows[e.id].(lastStatus := "ok", lastError := "", lastCheckedAt := e.now)
            else s' == s
  {
  }

  // ------------------------------------------------------ delete and reorder

  /** A delete removes the owner's row and nothing else, or says why not. */
  lemma DeleteWrites(s: TabState, e: Event)
    requires e.Delete?
    ensures var (s', r) := DeleteStep(s, e);
            && (r == Refused(Unauthorized) <==> e.user <= 0)
            && (r == Refused(DefaultProtected) <==> e.user > 0 && e.id == "default")
            && (r == Refused(NotFound) <==> e.user > 0 && e.id != "default" && !IsOf(s.rows, e.id, e.user))
            && (r == Done <==> e.user > 0 && e.id != "default" && IsOf(s.rows, e.id, e.user))
            && s'.failures == s.failures
            && s'.rows.Keys == (if r == Done then s.rows.Keys - {e.id} else s.rows.Keys)
            && forall id :: id in s'.rows ==> s'.rows[id] == s.rows[id]
  {
  }

  /** A reorder numbers each named row by its last position and dates it; it changes no other field
      and no other row. */
  lemma ReorderWrites(s: TabState, e: Event, id: string)
    requires e.Reorder? && ReorderStep(s, e).1 == Done
    ensures var s', ids := ReorderStep(s, e).0, e.ids[1..];
            && s'.failures == s.failures && s'.rows.Keys == s.rows.Keys
            && (id in s.rows && id !in ids ==> s'.rows[id] == s.rows[id])
            && (id in s.rows && id in ids ==>
                  var row := s'.rows[id];
                  && 0 <= row.sortOrder < |ids| && ids[row.sortOrder] == id
                  && (forall j :: row.sortOrder < j < |ids| ==> ids[j] != id)
                  && row == s.rows[id].(sortOrder := row.sortOrder, updatedAt := e.now))
  {
    if id in s.rows {
      RenumberedRow(s.rows, e.ids[1..], e.now, id);
    }
  }

  /** A reorder is answered by the first check that fails; a refused one writes nothing. */
  lemma ReorderReplies(s: TabState, e: Event)
    requires e.Reorder?
    ensures var r := ReorderStep(s, e).1;
            var named := e.user > 0 && e.ids != [] && e.ids[0] == "default";
            var fits := named && |set id | id in s.rows && s.rows[id].userId == e.user| == |e.ids| - 1;
            && (r == Refused(Unauthorized) <==> e.user <= 0)
            && (r == Refused(DefaultFirstRequired) <==> e.user > 0 && (e.ids == [] || e.ids[0] != "default"))
            && (r == Refused(OrderMismatched) <==> named && !fits)
            && (r == Refused(NotFound) <==> fits && exists i :: 0 < i < |e.ids| && !IsOf(s.rows, e.ids[i], e.user))
            && (r == Done <==> fits && forall i :: 0 < i < |e.ids| ==> IsOf(s.rows, e.ids[i], e.user))
    ensures ReorderStep(s, e).1 != Done ==> ReorderStep(s, e).0 == s
  {
    if e.user > 0 && e.ids != [] {
      assert Owned(s.rows, e.user) == set id | id in s.rows && s.rows[id].userId == e.user;
      NamedAll(s.rows, e.user, e.ids);
    }
  }

  lemma NamedAll(t: Table, user: int, ids: seq<string>)
    requires ids != []
    ensures (exists i :: 0 <= i < |ids[1..]| && !OwnedBy(t, ids[1..][i], user))
            <==> (exists i :: 0 < i < |ids| && !IsOf(t, ids[i], user))
  {
    if exists i :: 0 < i < |ids| && !IsOf(t, ids[i], user) {
      var i :| 0 < i < |ids| && !IsOf(t, ids[i], user);
      assert ids[1..][i - 1] == ids[i];
    }
  }

  // ------------------------------------------------------- probes and marks

  /** A probe that reaches its tab always dates the check; a success reads ok and forgets the
      failures, a first failure keeps the status and is counted, and any further one reads error,
      with what the connection test said. */
  lemma PingWrites(s: TabState, e: Event)
    requires e.Ping?
    ensures var s' := PingStep(s, e).0;
            if e.id !in s.rows || !e.decryptOk then s' == s
            else
              var row, count := s.rows[e.id], if e.id in s.failures then s.failures[e.id] else 0;
              && e.id in s'.rows && OnlyRow(s.rows, s'.rows, e.id)
              && (forall id :: id != e.id ==> (id in s'.failures <==> id in s.failures) && (id in s.failures ==> s'.failures[id] == s.failures[id]))
              && (e.probe.status == "ok" ==>
                    && e.id !in s'.failures
                    && s'.rows[e.id] == row.(lastStatus := "ok", lastError := "", lastCheckedAt := e.now))
              && (e.probe.status != "ok" ==>
                    && e.id in s'.failures && s'.failures[e.id] == count + 1
                    && s'.rows[e.id] == if count == 0 then row.(lastCheckedAt := e.now)
                                        else row.(lastStatus := "error", lastError := e.probe.status + ": " + e.probe.msg, lastCheckedAt := e.now))
  {
  }

  /** A mark writes what the request met; an ok also forgets the failures; the default tab is left alone. */
  lemma MarkWrites(s: TabState, e: Event)
    requires e.Mark?
    ensures var s' := MarkStep(s, e).0;
            if e.id == "" || e.id == "default" then s' == s
            else
              && OnlyRow(s.rows, s'.rows, e.id) && (e.id in s'.rows <==> e.id in s.rows)
              && (e.id in s.rows ==>
                    s'.rows[e.id] == s.rows[e.id].(lastStatus := e.status, lastError := e.msg, lastCheckedAt := e.now))
              && s'.failures.Keys == (if e.status == "ok" then s.failures.Keys - {e.id} else s.failures.Keys)
              && forall id :: id in s'.failures ==> s'.failures[id] == s.failures[id]
  {
  }
}
