/** The tab repository: one mutable table, changed statement by statement and, for a reorder,
    inside a transaction that is rolled back on the first failure. */
module TabRepo {
  import opened Options
  import opened TabTable

  class SQLiteRepo {
    var rows: Table

    ghost predicate Valid()
      reads this
    {
      WellKeyed(rows)
    }

    constructor ()
      ensures Valid() && rows == map[]
    {
      rows := map[];
    }

    /** Every row of the user, by ascending sort order. */
    method ListByUser(user: int) returns (tabs: seq<Tab>)
      requires Valid()
      ensures IsListing(rows, user, tabs)
    {
      tabs := [];
      var left := Owned(rows, user);
      while left != {}
        invariant left <= Owned(rows, user)
        invariant Distinct(Ids(tabs))
        invariant forall i, j :: 0 <= i < j < |tabs| ==> tabs[i].sortOrder <= tabs[j].sortOrder
        invariant forall tab :: tab in tabs <==> OwnedBy(rows, tab.id, user) && rows[tab.id] == tab && tab.id !in left
        invariant forall i, id :: 0 <= i < |tabs| && id in left ==> tabs[i].sortOrder <= rows[id].sortOrder
      {
        var id := LowestOrder(left);
        var tab := rows[id];
        forall i | 0 <= i < |tabs| ensures Ids(tabs)[i] != id {
          assert tabs[i] in tabs;
        }
        tabs := tabs + [tab];
        left := left - {id};
      }
    }

    /** Every row of every user, for the probes. */
    method ListAll() returns (tabs: seq<Tab>)
      requires Valid()
      ensures forall tab :: tab in tabs <==> tab.id in rows && rows[tab.id] == tab
      ensures Distinct(Ids(tabs))
    {
      tabs := [];
      var left := rows.Keys;
      while left != {}
        invariant left <= rows.Keys && Distinct(Ids(tabs))
        invariant forall tab :: tab in tabs <==> tab.id in rows && rows[tab.id] == tab && tab.id !in left
      {
        var id :| id in left;
        forall i | 0 <= i < |tabs| ensures Ids(tabs)[i] != id {
          assert tabs[i] in tabs;
        }
        tabs := tabs + [rows[id]];
        left := left - {id};
      }
    }

    /** The row the database hands out next. */
    method LowestOrder(ids: set<string>) returns (lowest: string)
      requires Valid() && ids <= rows.Keys && ids != {}
      ensures lowest in ids && forall id :: id in ids ==> rows[lowest].sortOrder <= rows[id].sortOrder
    {
      lowest :| lowest in ids;
      var left := ids - {lowest};
      while left != {}
        invariant lowest in ids && left <= ids
        invariant forall id :: id in ids && id !in left ==> rows[lowest].sortOrder <= rows[id].sortOrder
      {
        var id :| id in left;
        if rows[id].sortOrder < rows[lowest].sortOrder {
          lowest := id;
        }
        left := left - {id};
      }
    }

    /** A tab is visible only to its owner. */
    method Get(id: string, user: int) returns (tab: Option<Tab>)
      requires Valid()
      ensures tab == if OwnedBy(rows, id, user) then Some(rows[id]) else None
    {
      if id in rows && rows[id].userId == user {
        tab := Some(rows[id]);
      } else {
        tab := None;
      }
    }

    method CountByUser(user: int) returns (n: nat)
      requires Valid()
      ensures n == |Owned(rows, user)|
    {
      n := |Owned(rows, user)|;
    }

    /** COALESCE(MAX(sort_order), -1). */
    method MaxOrder(user: int) returns (m: int)
      requires Valid()
      ensures IsMaxOrder(rows, user, m)
    {
      m := -1;
      var left, any := Owned(rows, user), false;
      while left != {}
        invariant left <= Owned(rows, user)
        invariant any <==> left != Owned(rows, user)
        invariant forall id :: id in Owned(rows, user) && id !in left ==> rows[id].sortOrder <= m
        invariant if any then exists id :: id in Owned(rows, user) && rows[id].sortOrder == m else m == -1
      {
        var id :| id in left;
        if !any || rows[id].sortOrder > m {
          m, any := rows[id].sortOrder, true;
        }
        left := left - {id};
      }
    }

    /** Adds a row for a fresh id at the end of the owner's list. */
    method Create(t: Tab, id: string, now: int) returns (tab: Tab, result: Outcome)
      requires Valid()
      modifies this
      ensures Valid()
      ensures IsMaxOrder(old(rows), t.userId, tab.sortOrder - 1) || result == UserIdRequired
      ensures (rows, result) == InsertRow(old(rows), tab)
      ensures tab == NewRow(t, id, tab.sortOrder, now)
    {
      if t.userId <= 0 {
        return NewRow(t, id, t.sortOrder, now), UserIdRequired;
      }
      var maxOrder := MaxOrder(t.userId);
      tab := t.(id := id, sortOrder := maxOrder + 1);
      if tab.createdAt == 0 {
        tab := tab.(createdAt := now);
      }
      if tab.updatedAt == 0 {
        tab := tab.(updatedAt := now);
      }
      if tab.lastStatus == "" {
        tab := tab.(lastStatus := "unknown");
      }
      if id in rows {
        return tab, DuplicateKey;
      }
      rows := rows[id := tab];
      result := Ok;
    }

    method UpdateByUser(id: string, user: int, fields: PatchFields, now: int) returns (result: Outcome)
      requires Valid()
      modifies this
      ensures Valid()
      ensures (rows, result) == PatchRow(old(rows), id, user, fields, now)
    {
      if !(id in rows && rows[id].userId == user) {
        return TabNotFound;
      }
      var row := rows[id];
      if fields.name.Some? {
        row := row.(name := fields.name.value);
      }
      if fields.endpoint.Some? {
        row := row.(endpoint := fields.endpoint.value);
      }
      if fields.username.Some? {
        row := row.(username := fields.username.value);
      }
      if fields.passwordCipher.Some? {
        row := row.(passwordCipher := fields.passwordCipher.value);
      }
      var updatedAt := now;
      if fields.updatedAt.Some? {
        updatedAt := fields.updatedAt.value;
      }
      rows := rows[id := row.(updatedAt := updatedAt)];
      result := Ok;
    }

    /** All rows are renumbered, or none is. */
    method UpdateOrderByUser(user: int, orderedIDs: seq<string>, now: int) returns (result: Outcome)
      requires Valid()
      modifies this
      ensures Valid()
      ensures (rows, result) == ReorderRows(old(rows), user, orderedIDs, now)
      ensures result != Ok ==> rows == old(rows)
    {
      var saved := rows;
      var actual := CountByUser(user);
      if actual != |orderedIDs| {
        return OrderMismatch;
      }
      for i := 0 to |orderedIDs|
        invariant rows == Renumber(saved, orderedIDs[..i], now)
        invariant forall j :: 0 <= j < i ==> OwnedBy(saved, orderedIDs[j], user)
      {
        var id := orderedIDs[i];
        RenumberKeeps(saved, orderedIDs[..i], now);
        RenumberSnoc(saved, orderedIDs, i, now);
        assert OwnedBy(rows, id, user) <==> OwnedBy(saved, id, user);
        if !(id in rows && rows[id].userId == user) {
          ReorderRefused(saved, user, orderedIDs, i, now);
          rows := saved;
          return TabNotFound;
        }
        rows := rows[id := rows[id].(sortOrder := i, updatedAt := now)];
      }
      assert orderedIDs[..|orderedIDs|] == orderedIDs;
      RenumberKeeps(saved, orderedIDs, now);
      result := Ok;
    }

    /** Written by probes, whoever owns the tab; a tab that is gone is left gone. */
    method UpdateStatus(id: string, status: string, errMsg: string, checkedAt: int)
      requires Valid()
      modifies this
      ensures Valid() && rows == StatusRow(old(rows), id, status, errMsg, checkedAt)
    {
      if id in rows {
        rows := rows[id := rows[id].(lastStatus := status, lastError := errMsg, lastCheckedAt := checkedAt)];
      }
    }

    method DeleteByUser(id: string, user: int) returns (result: Outcome)
      requires Valid()
      modifies this
      ensures Valid()
      ensures (rows, result) == DeleteRow(old(rows), id, user)
    {
      if !(id in rows && rows[id].userId == user) {
        return TabNotFound;
      }
      rows := rows - {id};
      result := Ok;
    }
  }

  /** The row Create inserts: a fresh id, the given order, missing times and status filled in. */
  function NewRow(t: Tab, id: string, order: int, now: int): Tab {
    t.(id := id, sortOrder := order,
       createdAt := if t.createdAt == 0 then now else t.createdAt,
       updatedAt := if t.updatedAt == 0 then now else t.updatedAt,
       lastStatus := if t.lastStatus == "" then "unknown" else t.lastStatus)
  }
}
