/** What a key tree is, without saying how it is built.

    A query turns the flat, sorted key list into items, each a path below the query key with the
    data stored there. The node at a path then has a reference definition of its own: its data is
    that of the last item at the path, its children are named by the next segments of the items
    passing through it, in first-seen order, and its key is the stored key or, for a directory
    that is no key, the path as first seen. */
module KeyTree {
  import opened Options
  import opened KeyPath

  /** One key-value pair as etcd returns it. */
  datatype Kv = Kv(key: string, value: string, lease: int,
                   createRevision: int, modRevision: int, version: int)

  /** A node of the tree sent to the browser. */
  datatype Node = Node(key: string, value: string, dir: bool, ttl: int,
                       createRevision: int, modRevision: int, version: int, nodes: seq<Node>)

  /** What a tree is asked for: the key, whether values are wanted, and the lease answers at hand. */
  datatype Query = Query(key: string, sep: char, keysOnly: bool, leases: map<int, int>)

  /** The data a stored key leaves on its tree entry. */
  datatype Stamp = Stamp(realKey: string, value: string, ttl: int,
                         createRevision: int, modRevision: int, version: int)

  /** A stored key as seen from the query key: the segments the query key accounts for, the path
      below it, and the data, absent while a path is only being walked. */
  datatype Item = Item(pre: Path, path: Path, stamp: Option<Stamp>)

  const NO_STAMP := Stamp("", "", 0, 0, 0, 0)

  // ---------------------------------------------------------- from keys to items

  /** The remaining time of a lease: 0 for no lease, for a failed lookup and for an expired one. */
  function GetTtl(leases: map<int, int>, lease: int): int {
    if lease == 0 || lease !in leases || leases[lease] == -1 then 0 else leases[lease]
  }

  function StampOf(kv: Kv, q: Query): Stamp {
    Stamp(kv.key, if q.keysOnly then "" else kv.value,
          if q.keysOnly then 0 else GetTtl(q.leases, kv.lease),
          kv.createRevision, kv.modRevision, kv.version)
  }

  /** The prefix sent to etcd: the key, or everything when the key is the separator. */
  function PrefixKey(q: Query): string {
    if q.key == [q.sep] then "" else q.key
  }

  function PrefixSegCount(q: Query): nat {
    if q.key == [q.sep] || q.key == "" then 0 else |Segments(q.key, q.sep)|
  }

  /** Every key of an answer has the prefix it was asked with. */
  predicate Answers(kvs: seq<Kv>, q: Query) {
    forall i :: 0 <= i < |kvs| ==> StartsWith(kvs[i].key, PrefixKey(q))
  }

  /** Cutting off the query's own segments never runs past the end of a key the query returned. */
  lemma PrefixSegmentsInRange(key: string, q: Query)
    requires StartsWith(key, PrefixKey(q))
    ensures PrefixSegCount(q) <= |Segments(key, q.sep)|
  {
    if PrefixSegCount(q) > 0 {
      SegmentsGrow(q.key, key[|q.key|..], q.sep);
      assert key == q.key + key[|q.key|..];
    }
  }

  /** The item of one stored key; a key with no segment of its own below the query key has none. */
  function ItemsOf(kv: Kv, q: Query): seq<Item>
    requires StartsWith(kv.key, PrefixKey(q))
  {
    var segs, n := Segments(kv.key, q.sep), PrefixSegCount(q);
    PrefixSegmentsInRange(kv.key, q);
    if segs == [] || kv.key == q.key then [Item([], [], Some(StampOf(kv, q)))]
    else if |segs| == n then []
    else [Item(segs[..n], segs[n..], Some(StampOf(kv, q)))]
  }

  function Items(kvs: seq<Kv>, q: Query): seq<Item>
    requires Answers(kvs, q)
  {
    if kvs == [] then []
    else Items(kvs[..|kvs| - 1], q) + ItemsOf(kvs[|kvs| - 1], q)
  }

  // ------------------------------------------------------- from items to nodes

  /** Some item lies at the path or below it. */
  predicate Passes(items: seq<Item>, p: Path) {
    exists i :: 0 <= i < |items| && p <= items[i].path
  }

  /** The segments that follow p among the items, in the order they are first seen. */
  function ChildNames(items: seq<Item>, p: Path): seq<string> {
    if items == [] then []
    else
      var names, last := ChildNames(items[..|items| - 1], p), items[|items| - 1].path;
      if p < last && last[|p|] !in names then names + [last[|p|]] else names
  }

  /** The data of the last item at the path. */
  function StampAt(items: seq<Item>, p: Path): Option<Stamp> {
    if items == [] then None
    else
      var last := items[|items| - 1];
      if last.path == p && last.stamp.Some? then last.stamp else StampAt(items[..|items| - 1], p)
  }

  /** The query segments of the first item passing through the path. */
  function FirstPre(items: seq<Item>, p: Path): Option<Path> {
    if items == [] then None
    else
      var init, last := items[..|items| - 1], items[|items| - 1];
      if FirstPre(init, p).Some? then FirstPre(init, p)
      else if p <= last.path then Some(last.pre) else None
  }

  /** The length of the longest path. */
  function Depth(items: seq<Item>): nat {
    if items == [] then 0
    else
      var d, last := Depth(items[..|items| - 1]), |items[|items| - 1].path|;
      if d < last then last else d
  }

  function Room(items: seq<Item>, p: Path): nat {
    if |p| < Depth(items) then Depth(items) - |p| else 0
  }

  /** The path key of a directory, as built from the first key seen below it. */
  function DirKey(items: seq<Item>, p: Path, sep: char): string {
    Render(FirstPre(items, p).GetOr([]) + p, sep)
  }

  function NodeKey(items: seq<Item>, p: Path, sep: char): string {
    var stamp := StampAt(items, p);
    if stamp.Some? && stamp.value.realKey != "" then stamp.value.realKey else DirKey(items, p, sep)
  }

  /** The node at a path. */
  function NodeAt(items: seq<Item>, p: Path, sep: char): Node
    decreases Room(items, p), |ChildNames(items, p)| + 1
  {
    var names, stamp := ChildNames(items, p), StampAt(items, p);
    var data := stamp.GetOr(NO_STAMP);
    Node(NodeKey(items, p, sep), data.value, names != [] || stamp.None?, data.ttl,
         data.createRevision, data.modRevision, data.version, NodesAt(items, p, names, sep))
  }

  /** The nodes one segment below a path, for some of its child names. */
  function NodesAt(items: seq<Item>, p: Path, names: seq<string>, sep: char): (nodes: seq<Node>)
    requires forall s :: s in names ==> s in ChildNames(items, p)
    ensures |nodes| == |names|
    decreases Room(items, p), |names|
  {
    if names == [] then []
    else
      assert names[0] in ChildNames(items, p);
      ChildIsDeeper(items, p, names[0]);
      [NodeAt(items, p + [names[0]], sep)] + NodesAt(items, p, names[1..], sep)
  }

  function ChildrenAt(items: seq<Item>, p: Path, sep: char): seq<Node> {
    NodesAt(items, p, ChildNames(items, p), sep)
  }

  /** The whole answer: the query key's own node above the nodes of its items. */
  function Tree(kvs: seq<Kv>, q: Query): Node
    requires Answers(kvs, q)
  {
    var items := Items(kvs, q);
    var data := StampAt(items, []).GetOr(NO_STAMP);
    Node(q.key, data.value, true, data.ttl, data.createRevision, data.modRevision, data.version,
         ChildrenAt(items, [], q.sep))
  }

  // -------------------------------------------------------- basic facts

  lemma {:induction false} ChildIsDeeper(items: seq<Item>, p: Path, s: string)
    requires s in ChildNames(items, p)
    ensures |p| < Depth(items)
  {
    if items != [] {
      var init := items[..|items| - 1];
      if s in ChildNames(init, p) {
        ChildIsDeeper(init, p, s);
      }
    }
  }

  lemma PassesSnoc(items: seq<Item>, x: Item, p: Path)
    ensures Passes(items + [x], p) <==> Passes(items, p) || p <= x.path
  {
    var all := items + [x];
    assert all[|items|] == x;
    if Passes(items, p) {
      var i :| 0 <= i < |items| && p <= items[i].path;
      assert all[i] == items[i];
    }
    if Passes(all, p) {
      var i :| 0 <= i < |all| && p <= all[i].path;
      assert i < |items| ==> all[i] == items[i];
    }
  }

  /** A segment names a child exactly when some item passes through it. */
  lemma {:induction false} ChildNamesArePassed(items: seq<Item>, p: Path, s: string)
    ensures s in ChildNames(items, p) <==> Passes(items, p + [s])
  {
    if items != [] {
      var init, last := items[..|items| - 1], items[|items| - 1];
      ChildNamesArePassed(init, p, s);
      assert items == init + [last];
      PassesSnoc(init, last, p + [s]);
      assert p + [s] <= last.path <==> p < last.path && last.path[|p|] == s;
    }
  }

  lemma {:induction false} FirstPreWhenPassed(items: seq<Item>, p: Path)
    ensures FirstPre(items, p).Some? <==> Passes(items, p)
  {
    if items != [] {
      var init, last := items[..|items| - 1], items[|items| - 1];
      FirstPreWhenPassed(init, p);
      assert items == init + [last];
      PassesSnoc(init, last, p);
    }
  }

  lemma {:induction false} NothingBelow(items: seq<Item>, p: Path)
    requires !Passes(items, p)
    ensures ChildNames(items, p) == [] && StampAt(items, p) == None
  {
    if items != [] {
      var init, last := items[..|items| - 1], items[|items| - 1];
      assert items == init + [last];
      PassesSnoc(init, last, p);
      NothingBelow(init, p);
    }
  }

  lemma PassesUpTo(items: seq<Item>, p: Path, r: Path)
    requires p <= r
    ensures Passes(items, r) ==> Passes(items, p)
  {
    if Passes(items, r) {
      var i :| 0 <= i < |items| && r <= items[i].path;
      assert p <= items[i].path;
    }
  }

  /** How each part of the reference definition changes when one more item arrives. */
  lemma Snoc(items: seq<Item>, x: Item, p: Path)
    ensures ChildNames(items + [x], p)
            == if p < x.path && x.path[|p|] !in ChildNames(items, p)
               then ChildNames(items, p) + [x.path[|p|]] else ChildNames(items, p)
    ensures StampAt(items + [x], p) == if x.path == p && x.stamp.Some? then x.stamp else StampAt(items, p)
    ensures FirstPre(items + [x], p)
            == if FirstPre(items, p).Some? then FirstPre(items, p)
               else if p <= x.path then Some(x.pre) else None
    ensures Passes(items + [x], p) <==> Passes(items, p) || p <= x.path
  {
    assert (items + [x])[..|items|] == items;
    PassesSnoc(items, x, p);
  }

  /** Sibling names never repeat. */
  lemma {:induction false} ChildNamesDistinct(items: seq<Item>, p: Path)
    ensures forall i, j :: 0 <= i < j < |ChildNames(items, p)| ==> ChildNames(items, p)[i] != ChildNames(items, p)[j]
  {
    if items != [] {
      ChildNamesDistinct(items[..|items| - 1], p);
    }
  }

  /** The nodes of a list of names are the nodes of the names, one by one. */
  lemma {:induction false} NodesAtIndex(items: seq<Item>, p: Path, names: seq<string>, sep: char)
    requires forall s :: s in names ==> s in ChildNames(items, p)
    ensures forall i :: 0 <= i < |names| ==>
              NodesAt(items, p, names, sep)[i] == NodeAt(items, p + [names[i]], sep)
  {
    if names != [] {
      NodesAtIndex(items, p, names[1..], sep);
    }
  }

  lemma ChildAtIndex(items: seq<Item>, p: Path, i: nat, sep: char)
    requires i < |ChildNames(items, p)|
    ensures |ChildrenAt(items, p, sep)| == |ChildNames(items, p)|
    ensures ChildrenAt(items, p, sep)[i] == NodeAt(items, p + [ChildNames(items, p)[i]], sep)
  {
    NodesAtIndex(items, p, ChildNames(items, p), sep);
  }
}
