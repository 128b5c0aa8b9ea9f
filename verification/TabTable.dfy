/** The kv_cluster_tabs table and the meaning of the SQL statements issued on it: each statement
    is a function on tables, and a user's view is the listing ORDER BY sort_order returns. */
module TabTable {
  import opened Options

  /** One remote-cluster tab of a user. */
  datatype Tab = Tab(id: string, userId: int, name: string, endpoint: string, username: string,
                     passwordCipher: string, sortOrder: int,
                     lastStatus: string, lastError: string, lastCheckedAt: int,
                     createdAt: int, updatedAt: int)

  /** Rows by primary key. */
  type Table = map<string, Tab>

  datatype Outcome = Ok | TabNotFound | UserIdRequired | OrderMismatch | DuplicateKey

  /** The fields a partial update may set; None leaves a field alone. */
  datatype PatchFields = PatchFields(name: Option<string>, endpoint: Option<string>,
                                     username: Option<string>, passwordCipher: Option<string>,
                                     updatedAt: Option<int>)

  ghost predicate WellKeyed(t: Table) {
    forall id :: id in t ==> t[id].id == id
  }

  predicate OwnedBy(t: Table, id: string, user: int) {
    id in t && t[id].userId == user
  }

  /** The ids of a user's rows. */
  function Owned(t: Table, user: int): set<string> {
    set id | id in t && t[id].userId == user
  }

  predicate Distinct<T(==)>(s: seq<T>) {
    forall i, j :: 0 <= i < j < |s| ==> s[i] != s[j]
  }

  function Ids(rows: seq<Tab>): (ids: seq<string>)
    ensures |ids| == |rows| && forall i :: 0 <= i < |ids| ==> ids[i] == rows[i].id
  {
    seq(|rows|, i requires 0 <= i < |rows| => rows[i].id)
  }

  /** What SELECT ... WHERE created_by_user_id = ? ORDER BY sort_order may return: every row of the
      user once, by ascending sort order; rows of equal order may come either way round. */
  ghost predicate IsListing(t: Table, user: int, rows: seq<Tab>) {
    && Distinct(Ids(rows))
    && (forall i, j :: 0 <= i < j < |rows| ==> rows[i].sortOrder <= rows[j].sortOrder)
    && (forall tab :: tab in rows <==> OwnedBy(t, tab.id, user) && t[tab.id] == tab)
  }

  /** No two rows of one user share a sort order. */
  ghost predicate DistinctOrders(t: Table) {
    forall a, b :: a in t && b in t && a != b && t[a].userId == t[b].userId ==> t[a].sortOrder != t[b].sortOrder
  }

  /** COALESCE(MAX(sort_order), -1) over the user's rows. */
  ghost predicate IsMaxOrder(t: Table, user: int, m: int) {
    && (forall id :: id in Owned(t, user) ==> t[id].sortOrder <= m)
    && (if Owned(t, user) == {} then m == -1 else exists id :: id in Owned(t, user) && t[id].sortOrder == m)
  }

  lemma {:induction false} MaxOrderExists(t: Table, user: int, ids: set<string>) returns (m: int)
    requires ids <= t.Keys && ids != {}
    ensures exists id :: id in ids && t[id].sortOrder == m
    ensures forall id :: id in ids ==> t[id].sortOrder <= m
  {
    var id :| id in ids;
    if ids == {id} {
      m := t[id].sortOrder;
    } else {
      m := MaxOrderExists(t, user, ids - {id});
      if t[id].sortOrder > m {
        m := t[id].sortOrder;
      }
    }
  }

  /** The sort order a new row of the user gets. */
  ghost function NextOrder(t: Table, user: int): (n: int)
    ensures IsMaxOrder(t, user, n - 1)
  {
    assert exists m :: IsMaxOrder(t, user, m) by {
      if Owned(t, user) == {} {
        assert IsMaxOrder(t, user, -1);
      } else {
        var m := MaxOrderExists(t, user, Owned(t, user));
        assert IsMaxOrder(t, user, m);
      }
    }
    var m :| IsMaxOrder(t, user, m);
    m + 1
  }

  // ---------------------------------------------------------- statements

  function InsertRow(t: Table, tab: Tab): (r: (Table, Outcome)) {
    if tab.userId <= 0 then (t, UserIdRequired)
    else if tab.id in t then (t, DuplicateKey)
    else (t[tab.id := tab], Ok)
  }

  function Patched(tab: Tab, f: PatchFields, now: int): Tab {
    tab.(name := f.name.GetOr(tab.name), endpoint := f.endpoint.GetOr(tab.endpoint),
         username := f.username.GetOr(tab.username),
         passwordCipher := f.passwordCipher.GetOr(tab.passwordCipher),
         updatedAt := f.updatedAt.GetOr(now))
  }

  function PatchRow(t: Table, id: string, user: int, f: PatchFields, now: int): (Table, Outcome) {
    if OwnedBy(t, id, user) then (t[id := Patched(t[id], f, now)], Ok) else (t, TabNotFound)
  }

  function DeleteRow(t: Table, id: string, user: int): (Table, Outcome) {
    if OwnedBy(t, id, user) then (t - {id}, Ok) else (t, TabNotFound)
  }

  function StatusRow(t: Table, id: string, status: string, err: string, at: int): Table {
    if id in t then t[id := t[id].(lastStatus := status, lastError := err, lastCheckedAt := at)] else t
  }

  /** The updates of a reorder, one id after the other: row ids[i] gets sort order i. */
  function Renumber(t: Table, ids: seq<string>, now: int): (r: Table)
    ensures r.Keys == t.Keys
  {
    if ids == [] then t
    else
      var n := |ids| - 1;
      var r := Renumber(t, ids[..n], now);
      if ids[n] in r then r[ids[n] := r[ids[n]].(sortOrder := n, updatedAt := now)] else r
  }

  /** The reorder transaction: the count must match, every id must be the user's, otherwise nothing
      is kept. */
  function ReorderRows(t: Table, user: int, ids: seq<string>, now: int): (Table, Outcome) {
    if |Owned(t, user)| != |ids| then (t, OrderMismatch)
    else if exists i :: 0 <= i < |ids| && !OwnedBy(t, ids[i], user) then (t, TabNotFound)
    else (Renumber(t, ids, now), Ok)
  }

  lemma RenumberSnoc(t: Table, ids: seq<string>, i: nat, now: int)
    requires i < |ids|
    ensures var r, r' := Renumber(t, ids[..i], now), Renumber(t, ids[..i + 1], now);
            r' == if ids[i] in r then r[ids[i] := r[ids[i]].(sortOrder := i, updatedAt := now)] else r
  {
    assert ids[..i + 1][..i] == ids[..i];
  }

  /** Renumbering keeps rows under their ids and with their owners. */
  lemma {:induction false} RenumberKeeps(t: Table, ids: seq<string>, now: int)
    requires WellKeyed(t)
    ensures WellKeyed(Renumber(t, ids, now))
    ensures forall id, user :: OwnedBy(Renumber(t, ids, now), id, user) <==> OwnedBy(t, id, user)
  {
    if ids != [] {
      RenumberKeeps(t, ids[..|ids| - 1], now);
    }
  }

  lemma ReorderRefused(t: Table, user: int, ids: seq<string>, i: nat, now: int)
    requires |Owned(t, user)| == |ids| && i < |ids| && !OwnedBy(t, ids[i], user)
    ensures ReorderRows(t, user, ids, now) == (t, TabNotFound)
  {
  }

  // ------------------------------------------------------------ listings

  lemma ListingRow(t: Table, user: int, rows: seq<Tab>, id: string)
    requires WellKeyed(t) && IsListing(t, user, rows) && OwnedBy(t, id, user)
    ensures exists i :: 0 <= i < |rows| && rows[i] == t[id]
  {
    assert t[id] in rows;
  }

  lemma {:induction false} DistinctCount(ids: seq<string>)
    requires Distinct(ids)
    ensures |set id | id in ids| == |ids|
  {
    if ids != [] {
      var init, last := ids[..|ids| - 1], ids[|ids| - 1];
      DistinctCount(init);
      assert (set id | id in ids) == (set id | id in init) + {last};
    }
  }

  /** A listing has as many rows as the user owns. */
  lemma ListingCount(t: Table, user: int, rows: seq<Tab>)
    requires WellKeyed(t) && IsListing(t, user, rows)
    ensures |rows| == |Owned(t, user)|
    ensures (set id | id in Ids(rows)) == Owned(t, user)
  {
    forall id ensures id in Ids(rows) <==> id in Owned(t, user) {
      if id in Ids(rows) {
        var i :| 0 <= i < |rows| && Ids(rows)[i] == id;
        assert rows[i] in rows;
      }
      if id in Owned(t, user) {
        ListingRow(t, user, rows, id);
        var i :| 0 <= i < |rows| && rows[i] == t[id];
        assert Ids(rows)[i] == id;
      }
    }
    assert (set id | id in Ids(rows)) == Owned(t, user);
    DistinctCount(Ids(rows));
  }

  lemma TailMembers(a: seq<Tab>)
    requires a != [] && forall i, j :: 0 <= i < j < |a| ==> a[i].sortOrder < a[j].sortOrder
    ensures forall x :: x in a[1..] <==> x in a && x != a[0]
  {
    forall x ensures x in a[1..] <==> x in a && x != a[0] {
      if x in a[1..] {
        var i :| 0 <= i < |a[1..]| && a[1..][i] == x;
        assert a[i + 1] == x && a[0].sortOrder < a[i + 1].sortOrder;
      }
      if x in a && x != a[0] {
        var i :| 0 <= i < |a| && a[i] == x;
        assert a[1..][i - 1] == x;
      }
    }
  }

  /** A strictly ascending list is determined by its members. */
  lemma {:induction false} AscendingUnique(a: seq<Tab>, b: seq<Tab>)
    requires forall i, j :: 0 <= i < j < |a| ==> a[i].sortOrder < a[j].sortOrder
    requires forall i, j :: 0 <= i < j < |b| ==> b[i].sortOrder < b[j].sortOrder
    requires forall x :: x in a <==> x in b
    ensures a == b
  {
    if b != [] {
      assert b[0] in b && b[0] in a;
    }
    if a != [] {
      assert a[0] in b;
      assert a[0] == b[0];
      TailMembers(a);
      TailMembers(b);
      AscendingUnique(a[1..], b[1..]);
    }
  }

  /** With distinct sort orders a user has exactly one listing. */
  lemma ListingUnique(t: Table, user: int, a: seq<Tab>, b: seq<Tab>)
    requires WellKeyed(t) && DistinctOrders(t) && IsListing(t, user, a) && IsListing(t, user, b)
    ensures a == b
  {
    ListingAscends(t, user, a);
    ListingAscends(t, user, b);
    AscendingUnique(a, b);
  }

  lemma ListingAscends(t: Table, user: int, rows: seq<Tab>)
    requires WellKeyed(t) && DistinctOrders(t) && IsListing(t, user, rows)
    ensures forall i, j :: 0 <= i < j < |rows| ==> rows[i].sortOrder < rows[j].sortOrder
  {
    forall i, j | 0 <= i < j < |rows| ensures rows[i].sortOrder < rows[j].sortOrder {
      assert rows[i] in rows && rows[j] in rows;
      assert Ids(rows)[i] != Ids(rows)[j];
    }
  }

  // -------------------------------------------- statements on the listings

  /** Inserting with the next sort order appends to the owner's list and leaves other lists alone. */
  lemma InsertAppends(t: Table, tab: Tab, m: int, user: int, rows: seq<Tab>)
    requires WellKeyed(t) && tab.userId > 0 && tab.id !in t
    requires IsMaxOrder(t, tab.userId, m) && tab.sortOrder == m + 1
    requires IsListing(t, user, rows)
    ensures IsListing(InsertRow(t, tab).0, user, if user == tab.userId then rows + [tab] else rows)
  {
    var t' := InsertRow(t, tab).0;
    if user == tab.userId {
      var rows' := rows + [tab];
      forall i | 0 <= i < |rows| ensures rows[i].sortOrder < tab.sortOrder && rows[i].id != tab.id {
        assert rows[i] in rows;
        assert rows[i].id in Owned(t, user);
      }
    }
  }

  /** The list without the row of one id. */
  function Without(rows: seq<Tab>, id: string): (r: seq<Tab>)
    ensures forall tab :: tab in r <==> tab in rows && tab.id != id
  {
    if rows == [] then []
    else (if rows[0].id == id then [] else [rows[0]]) + Without(rows[1..], id)
  }

  /** Different ids, by ascending sort order. */
  ghost predicate Ordered(rows: seq<Tab>) {
    forall i, j :: 0 <= i < j < |rows| ==> rows[i].id != rows[j].id && rows[i].sortOrder <= rows[j].sortOrder
  }

  lemma {:induction false} WithoutKeepsOrder(rows: seq<Tab>, id: string)
    requires Ordered(rows)
    ensures Ordered(Without(rows, id))
  {
    if rows != [] {
      var rest := Without(rows[1..], id);
      WithoutKeepsOrder(rows[1..], id);
      forall i | 0 <= i < |rest| ensures rows[0].id != rest[i].id && rows[0].sortOrder <= rest[i].sortOrder {
        assert rest[i] in rest;
        var j :| 0 <= j < |rows[1..]| && rows[1..][j] == rest[i];
        assert rows[j + 1] == rest[i];
      }
    }
  }

  /** Deleting removes the row from the owner's list and leaves other lists alone. */
  lemma DeleteRemoves(t: Table, id: string, owner: int, user: int, rows: seq<Tab>)
    requires WellKeyed(t) && OwnedBy(t, id, owner) && IsListing(t, user, rows)
    ensures IsListing(DeleteRow(t, id, owner).0, user, if user == owner then Without(rows, id) else rows)
  {
    if user == owner {
      assert forall i :: 0 <= i < |rows| ==> Ids(rows)[i] == rows[i].id;
      assert Ordered(rows);
      WithoutKeepsOrder(rows, id);
    }
  }

  /** Rows rewritten in place without touching id, owner and order. */
  predicate SameSlot(a: Tab, b: Tab) {
    a.id == b.id && a.userId == b.userId && a.sortOrder == b.sortOrder
  }

  /** Replacing a row in its slot replaces it in the owner's list, at the same position. */
  lemma ReplaceInPlace(t: Table, tab: Tab, user: int, rows: seq<Tab>)
    requires WellKeyed(t) && tab.id in t && SameSlot(t[tab.id], tab) && IsListing(t, user, rows)
    ensures exists rows' :: IsListing(t[tab.id := tab], user, rows') && Ids(rows') == Ids(rows)
  {
    var rows' := seq(|rows|, i requires 0 <= i < |rows| => if rows[i].id == tab.id then tab else rows[i]);
    assert Ids(rows') == Ids(rows);
    var t' := t[tab.id := tab];
    forall x ensures x in rows' <==> OwnedBy(t', x.id, user) && t'[x.id] == x {
      if x in rows' {
        var i :| 0 <= i < |rows| && rows'[i] == x;
        assert rows[i] in rows;
      }
      if OwnedBy(t', x.id, user) && t'[x.id] == x {
        ListingRow(t, user, rows, x.id);
        var i :| 0 <= i < |rows| && rows[i] == t[x.id];
        assert rows'[i] == x;
      }
    }
    forall i | 0 <= i < |rows| ensures rows'[i].sortOrder == rows[i].sortOrder {
      assert rows[i] in rows;
    }
    assert IsListing(t', user, rows');
  }

  // ------------------------------------------------------------- reorder

  /** What renumbering does to each row: its order becomes the last position of its id. */
  lemma {:induction false} RenumberedRow(t: Table, ids: seq<string>, now: int, id: string)
    requires id in t
    ensures id !in ids ==> Renumber(t, ids, now)[id] == t[id]
    ensures id in ids ==> Renumber(t, ids, now)[id] == t[id].(sortOrder := LastIndex(ids, id), updatedAt := now)
  {
    if ids != [] {
      var n := |ids| - 1;
      assert ids == ids[..n] + [ids[n]];
      RenumberedRow(t, ids[..n], now, id);
    }
  }

  /** The last position of a member. */
  function LastIndex(ids: seq<string>, id: string): (i: nat)
    requires id in ids
    ensures i < |ids| && ids[i] == id && forall j :: i < j < |ids| ==> ids[j] != id
  {
    if ids[|ids| - 1] == id then |ids| - 1 else LastIndex(ids[..|ids| - 1], id)
  }

  /** Pigeonhole: as many different ids as the user has rows, all of them the user's, are all of them. */
  lemma AllListed(t: Table, user: int, ids: seq<string>)
    requires Distinct(ids) && |ids| == |Owned(t, user)|
    requires forall i :: 0 <= i < |ids| ==> OwnedBy(t, ids[i], user)
    ensures (set id | id in ids) == Owned(t, user)
  {
    DistinctCount(ids);
    SubsetOfSameSize((set id | id in ids), Owned(t, user));
  }

  lemma SubsetOfSameSize(a: set<string>, b: set<string>)
    requires a <= b && |a| == |b|
    ensures a == b
  {
    assert b == a + (b - a);
    assert |b - a| == 0;
  }

  /** A successful reorder by different ids makes the owner's list exactly those ids. */
  lemma ReorderGivesIds(t: Table, user: int, ids: seq<string>, now: int)
    requires WellKeyed(t) && Distinct(ids) && ReorderRows(t, user, ids, now).1 == Ok
    ensures exists rows :: IsListing(ReorderRows(t, user, ids, now).0, user, rows) && Ids(rows) == ids
  {
    var t' := Renumber(t, ids, now);
    AllListed(t, user, ids);
    var rows := seq(|ids|, i requires 0 <= i < |ids| => t'[ids[i]]);
    forall i | 0 <= i < |ids| ensures rows[i] == t[ids[i]].(sortOrder := i, updatedAt := now) {
      RenumberedRow(t, ids, now, ids[i]);
    }
    assert Ids(rows) == ids;
    forall x ensures x in rows <==> OwnedBy(t', x.id, user) && t'[x.id] == x {
      if x.id in t {
        RenumberedRow(t, ids, now, x.id);
      }
      if OwnedBy(t', x.id, user) && t'[x.id] == x {
        assert x.id in Owned(t, user);
        var i :| 0 <= i < |ids| && ids[i] == x.id;
        assert rows[i] == x;
      }
    }
    assert IsListing(t', user, rows);
  }

  /** A reorder never touches another user's list. */
  lemma ReorderKeepsOthers(t: Table, owner: int, ids: seq<string>, now: int, user: int, rows: seq<Tab>)
    requires WellKeyed(t) && user != owner && IsListing(t, user, rows)
    ensures IsListing(ReorderRows(t, owner, ids, now).0, user, rows)
  {
    var r := ReorderRows(t, owner, ids, now);
    if r.1 == Ok {
      forall id | id in t ensures r.0[id].userId == t[id].userId && (t[id].userId == user ==> r.0[id] == t[id]) {
        RenumberedRow(t, ids, now, id);
      }
    }
  }

  /** The list becomes the ids sent exactly when no id was sent twice. */
  lemma ReorderGivesIdsExactly(t: Table, user: int, ids: seq<string>, now: int)
    requires WellKeyed(t) && ReorderRows(t, user, ids, now).1 == Ok
    ensures (exists rows :: IsListing(ReorderRows(t, user, ids, now).0, user, rows) && Ids(rows) == ids)
            <==> Distinct(ids)
  {
    if Distinct(ids) {
      ReorderGivesIds(t, user, ids, now);
    }
  }

  /** After a successful reorder the user's sort orders are distinct exactly when no row left out
      of the request keeps an order the request gave to a row. */
  lemma ReorderKeepsOrdersDistinctExactly(t: Table, user: int, ids: seq<string>, now: int)
    requires WellKeyed(t) && DistinctOrders(t) && ReorderRows(t, user, ids, now).1 == Ok
    ensures DistinctOrders(ReorderRows(t, user, ids, now).0)
            <==> (forall left, id :: left in Owned(t, user) && left !in ids && id in ids
                    ==> t[left].sortOrder != LastIndex(ids, id))
  {
    var t' := Renumber(t, ids, now);
    forall id | id in t
      ensures t'[id].userId == t[id].userId
      ensures t'[id].sortOrder == if id in ids then LastIndex(ids, id) else t[id].sortOrder
    {
      RenumberedRow(t, ids, now, id);
    }
    assert forall id :: id in ids ==> OwnedBy(t, id, user);
    if DistinctOrders(t') {
      forall left, id | left in Owned(t, user) && left !in ids && id in ids
        ensures t[left].sortOrder != LastIndex(ids, id)
      {
        assert t'[left].sortOrder != t'[id].sortOrder;
      }
    }
    if forall left, id :: left in Owned(t, user) && left !in ids && id in ids ==> t[left].sortOrder != LastIndex(ids, id) {
      forall a, b | a in t' && b in t' && a != b && t'[a].userId == t'[b].userId
        ensures t'[a].sortOrder != t'[b].sortOrder
      {
        if a in ids && b in ids {
          assert ids[LastIndex(ids, a)] == a && ids[LastIndex(ids, b)] == b;
        }
      }
    }
  }

  /** A request naming one id twice is accepted and can leave two rows with one sort order. */
  lemma DuplicateIdsCollide(a: Tab, b: Tab, now: int)
    requires a.id != b.id && a.userId == b.userId && a.sortOrder == 0 && b.sortOrder == 1
    ensures var t := map[a.id := a, b.id := b];
            && WellKeyed(t) && DistinctOrders(t)
            && ReorderRows(t, a.userId, [a.id, a.id], now).1 == Ok
            && !DistinctOrders(ReorderRows(t, a.userId, [a.id, a.id], now).0)
  {
    var t: Table := map[a.id := a, b.id := b];
    var ids := [a.id, a.id];
    assert Owned(t, a.userId) == {a.id, b.id};
    RenumberedRow(t, ids, now, a.id);
    RenumberedRow(t, ids, now, b.id);
    var t' := Renumber(t, ids, now);
    assert LastIndex(ids, a.id) == 1;
    assert t'[a.id].sortOrder == t'[b.id].sortOrder;
  }
}
