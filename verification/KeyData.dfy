/** Which stored key each node of an answer shows, spelled out field by field. */
module KeyData {
  import opened Options
  import opened KeyPath
  import opened KeyTree
  import opened EtcdStore

  // ------------------------------------------------- where a key comes from

  /** Items with data, each of a key that cuts into the query's number of segments and its path. */
  ghost predicate Honest(items: seq<Item>, n: nat, sep: char) {
    forall i :: 0 <= i < |items| && items[i].path != [] ==>
      && |items[i].pre| == n && IsPath(items[i].pre + items[i].path, sep)
      && items[i].stamp.Some? && Segments(items[i].stamp.value.realKey, sep) == items[i].pre + items[i].path
  }

  lemma {:induction false} ItemsAreHonest(kvs: seq<Kv>, q: Query)
    requires Answers(kvs, q)
    ensures Honest(Items(kvs, q), PrefixSegCount(q), q.sep)
  {
    if kvs != [] {
      var init, last := kvs[..|kvs| - 1], kvs[|kvs| - 1];
      ItemsAreHonest(init, q);
      var segs, n := Segments(last.key, q.sep), PrefixSegCount(q);
      SegmentsArePath(last.key, q.sep);
      PrefixSegmentsInRange(last.key, q);
      assert segs[..n] + segs[n..] == segs;
    }
  }

  lemma {:induction false} StampFrom(items: seq<Item>, p: Path) returns (i: nat)
    requires StampAt(items, p).Some?
    ensures i < |items| && items[i].path == p && items[i].stamp == StampAt(items, p)
  {
    var last := items[|items| - 1];
    if last.path == p && last.stamp.Some? {
      i := |items| - 1;
    } else {
      i := StampFrom(items[..|items| - 1], p);
    }
  }

  lemma {:induction false} FirstPreFrom(items: seq<Item>, p: Path) returns (i: nat)
    requires FirstPre(items, p).Some?
    ensures i < |items| && p <= items[i].path && items[i].pre == FirstPre(items, p).value
  {
    if FirstPre(items[..|items| - 1], p).Some? {
      i := FirstPreFrom(items[..|items| - 1], p);
    } else {
      i := |items| - 1;
    }
  }

  /** The key of a node cuts into the query's segments of some item passing through and the node's path. */
  lemma KeyFrom(items: seq<Item>, n: nat, p: Path, sep: char) returns (i: nat)
    requires Honest(items, n, sep) && p != [] && Passes(items, p)
    ensures i < |items| && p <= items[i].path && items[i].path != []
    ensures Segments(NodeKey(items, p, sep), sep) == items[i].pre + p
  {
    SplitEmpty(sep);
    if StampAt(items, p).Some? {
      i := StampFrom(items, p);
    } else {
      FirstPreWhenPassed(items, p);
      i := FirstPreFrom(items, p);
      var whole, part := items[i].pre + items[i].path, items[i].pre + p;
      assert forall j :: 0 <= j < |part| ==> part[j] == whole[j];
      SegmentsOfRender(part, sep);
    }
  }

  // -------------------------------------------------------- looking nodes up

  /** The first of some nodes whose key, beyond the query's n segments, cuts into the path. */
  function ShownChild(nodes: seq<Node>, n: nat, path: Path, sep: char): Option<Node> {
    if nodes == [] then None
    else
      var segs := Segments(nodes[0].key, sep);
      if |segs| >= n && segs[n..] == path then Some(nodes[0]) else ShownChild(nodes[1..], n, path, sep)
  }

  /** Walks down an answer by key, one segment of the target at a time. */
  function FindShown(nodes: seq<Node>, n: nat, above: Path, target: Path, sep: char): Option<Node>
    decreases |target|
  {
    if target == [] then None
    else
      var here := above + [target[0]];
      var child := ShownChild(nodes, n, here, sep);
      if child.None? || |target| == 1 then child else FindShown(child.value.nodes, n, here, target[1..], sep)
  }

  lemma {:induction false} ShownChildAmong(items: seq<Item>, n: nat, p: Path, names: seq<string>, s: string, sep: char)
    requires Honest(items, n, sep) && forall x :: x in names ==> x in ChildNames(items, p)
    ensures ShownChild(NodesAt(items, p, names, sep), n, p + [s], sep)
            == if s in names then Some(NodeAt(items, p + [s], sep)) else None
  {
    if names != [] {
      ChildNamesArePassed(items, p, names[0]);
      var i := KeyFrom(items, n, p + [names[0]], sep);
      ShownChildAmong(items, n, p, names[1..], s, sep);
      var nodes := NodesAt(items, p, names, sep);
      assert nodes[1..] == NodesAt(items, p, names[1..], sep);
      assert (items[i].pre + (p + [names[0]]))[n..] == p + [names[0]];
      assert (p + [names[0]])[|p|] == names[0] && (p + [s])[|p|] == s;
    }
  }

  lemma ChildShown(items: seq<Item>, n: nat, p: Path, s: string, sep: char)
    requires Honest(items, n, sep)
    ensures ShownChild(ChildrenAt(items, p, sep), n, p + [s], sep)
            == if Passes(items, p + [s]) then Some(NodeAt(items, p + [s], sep)) else None
  {
    ShownChildAmong(items, n, p, ChildNames(items, p), s, sep);
    ChildNamesArePassed(items, p, s);
  }

  /** Looking a path up finds its node, if any key passes through it. */
  lemma {:induction false} FindShownReaches(items: seq<Item>, n: nat, p: Path, target: Path, sep: char)
    requires Honest(items, n, sep) && target != []
    ensures FindShown(ChildrenAt(items, p, sep), n, p, target, sep)
            == if Passes(items, p + target) then Some(NodeAt(items, p + target, sep)) else None
    decreases |target|
  {
    var s, next := target[0], p + [target[0]];
    ChildShown(items, n, p, s, sep);
    if |target| == 1 {
      assert p + target == next;
    } else {
      assert next + target[1..] == p + target;
      FindShownReaches(items, n, next, target[1..], sep);
      PassesUpTo(items, next, p + target);
    }
  }

  // ---------------------------------------------------- which key is shown

  /** The key fills the answer's own top node: it is the query key, or nothing but separators. */
  predicate IsTop(kv: Kv, q: Query) {
    kv.key == q.key || Segments(kv.key, q.sep) == []
  }

  /** The query shows the key at or below a relative path. */
  predicate Reaches(kv: Kv, q: Query, r: Path) {
    var segs, n := Segments(kv.key, q.sep), PrefixSegCount(q);
    !IsTop(kv, q) && |segs| > n && r <= segs[n..]
  }

  /** The query shows the key at a relative path. */
  predicate IsShown(kv: Kv, q: Query, r: Path) {
    Reaches(kv, q, r) && Segments(kv.key, q.sep)[PrefixSegCount(q)..] == r
  }

  predicate LastShown(kvs: seq<Kv>, i: int, q: Query, r: Path) {
    0 <= i < |kvs| && IsShown(kvs[i], q, r) && forall j :: i < j < |kvs| ==> !IsShown(kvs[j], q, r)
  }

  predicate LastTop(kvs: seq<Kv>, i: int, q: Query) {
    0 <= i < |kvs| && IsTop(kvs[i], q) && forall j :: i < j < |kvs| ==> !IsTop(kvs[j], q)
  }

  predicate FirstReaching(kvs: seq<Kv>, i: int, q: Query, r: Path) {
    0 <= i < |kvs| && Reaches(kvs[i], q, r) && forall j :: 0 <= j < i ==> !Reaches(kvs[j], q, r)
  }

  lemma ItemOfKey(kv: Kv, q: Query)
    requires StartsWith(kv.key, PrefixKey(q))
    ensures var segs, n := Segments(kv.key, q.sep), PrefixSegCount(q);
            ItemsOf(kv, q)
            == if IsTop(kv, q) then [Item([], [], Some(StampOf(kv, q)))]
               else if |segs| > n then [Item(segs[..n], segs[n..], Some(StampOf(kv, q)))]
               else []
  {
    PrefixSegmentsInRange(kv.key, q);
  }

  lemma AnswersSnoc(kvs: seq<Kv>, kv: Kv, q: Query)
    requires Answers(kvs, q) && StartsWith(kv.key, PrefixKey(q))
    ensures Answers(kvs + [kv], q) && Items(kvs + [kv], q) == Items(kvs, q) + ItemsOf(kv, q)
  {
    assert (kvs + [kv])[..|kvs|] == kvs;
  }

  /** How the data and the first passing key of a path change when one more key arrives. */
  lemma KeySnoc(items: seq<Item>, kv: Kv, q: Query, r: Path)
    requires StartsWith(kv.key, PrefixKey(q))
    ensures var items' := items + ItemsOf(kv, q);
            && (r != [] ==> StampAt(items', r) == if IsShown(kv, q, r) then Some(StampOf(kv, q)) else StampAt(items, r))
            && StampAt(items', []) == (if IsTop(kv, q) then Some(StampOf(kv, q)) else StampAt(items, []))
            && (r != [] ==> FirstPre(items', r)
                            == if FirstPre(items, r).Some? then FirstPre(items, r)
                               else if Reaches(kv, q, r) then Some(Segments(kv.key, q.sep)[..PrefixSegCount(q)]) else None)
  {
    ItemOfKey(kv, q);
    if ItemsOf(kv, q) == [] {
      assert items + [] == items;
    } else {
      Snoc(items, ItemsOf(kv, q)[0], r);
      Snoc(items, ItemsOf(kv, q)[0], []);
      assert ItemsOf(kv, q) == [ItemsOf(kv, q)[0]];
    }
  }

  /** i is the last key shown at the path, or -1 when there is none. */
  predicate IsLastShown(kvs: seq<Kv>, i: int, q: Query, r: Path) {
    LastShown(kvs, i, q, r) || (i == -1 && forall j :: 0 <= j < |kvs| ==> !IsShown(kvs[j], q, r))
  }

  lemma LastShownSnoc(init: seq<Kv>, last: Kv, i: int, q: Query, r: Path)
    requires IsLastShown(init + [last], i, q, r)
    ensures if IsShown(last, q, r) then i == |init| else i < |init| && IsLastShown(init, i, q, r)
  {
    var kvs := init + [last];
    assert kvs[|init|] == last && forall j :: 0 <= j < |init| ==> kvs[j] == init[j];
  }

  lemma {:induction false} LastShownStamp(kvs: seq<Kv>, q: Query, r: Path, i: int)
    requires Answers(kvs, q) && r != [] && IsLastShown(kvs, i, q, r)
    ensures StampAt(Items(kvs, q), r) == if i == -1 then None else Some(StampOf(kvs[i], q))
  {
    if kvs != [] {
      var init, last := kvs[..|kvs| - 1], kvs[|kvs| - 1];
      assert kvs == init + [last];
      AnswersSnoc(init, last, q);
      KeySnoc(Items(init, q), last, q, r);
      LastShownSnoc(init, last, i, q, r);
      if !IsShown(last, q, r) {
        LastShownStamp(init, q, r, i);
      }
    }
  }

  lemma {:induction false} LastTopStamp(kvs: seq<Kv>, q: Query, i: int)
    requires Answers(kvs, q)
    requires LastTop(kvs, i, q) || (i == -1 && forall j :: 0 <= j < |kvs| ==> !IsTop(kvs[j], q))
    ensures StampAt(Items(kvs, q), []) == if i == -1 then None else Some(StampOf(kvs[i], q))
  {
    if kvs != [] {
      var init, last := kvs[..|kvs| - 1], kvs[|kvs| - 1];
      assert kvs == init + [last];
      AnswersSnoc(init, last, q);
      KeySnoc(Items(init, q), last, q, []);
      if i < |init| {
        assert !IsTop(kvs[|kvs| - 1], q);
        LastTopStamp(init, q, i);
      }
    }
  }

  lemma {:induction false} FirstReachingPre(kvs: seq<Kv>, q: Query, r: Path, i: int)
    requires Answers(kvs, q) && r != []
    requires FirstReaching(kvs, i, q, r) || (i == -1 && forall j :: 0 <= j < |kvs| ==> !Reaches(kvs[j], q, r))
    ensures FirstPre(Items(kvs, q), r) == if i == -1 then None else Some(Segments(kvs[i].key, q.sep)[..PrefixSegCount(q)])
  {
    if kvs != [] {
      var init, last := kvs[..|kvs| - 1], kvs[|kvs| - 1];
      assert kvs == init + [last];
      AnswersSnoc(init, last, q);
      KeySnoc(Items(init, q), last, q, r);
      assert forall j :: 0 <= j < |init| ==> init[j] == kvs[j];
      FirstReachingPre(init, q, r, if i < |init| then i else -1);
    }
  }

  // ------------------------------------------------------------ field by field

  /** The node carries the pair's data. Without values it carries neither value nor TTL; with them
      the TTL is the time its lease has left, 0 without a lease, when the lookup failed and when the
      lease has expired. */
  predicate Carries(node: Node, kv: Kv, q: Query) {
    && node.createRevision == kv.createRevision
    && node.modRevision == kv.modRevision
    && node.version == kv.version
    && (q.keysOnly ==> node.value == "" && node.ttl == 0)
    && (!q.keysOnly ==> node.value == kv.value)
    && (!q.keysOnly && kv.lease != 0 && kv.lease in q.leases && q.leases[kv.lease] != -1 ==> node.ttl == q.leases[kv.lease])
    && (kv.lease == 0 || kv.lease !in q.leases || q.leases[kv.lease] == -1 ==> node.ttl == 0)
  }

  predicate CarriesNothing(node: Node) {
    node.value == "" && node.ttl == 0 && node.createRevision == 0 && node.modRevision == 0 && node.version == 0
  }

  /** A directory that is no key. */
  predicate IsDirectory(node: Node, key: string) {
    CarriesNothing(node) && node.dir && node.key == key
  }

  function Shown(kvs: seq<Kv>, q: Query, r: Path): Option<Node>
    requires Answers(kvs, q)
  {
    FindShown(Tree(kvs, q).nodes, PrefixSegCount(q), [], r, q.sep)
  }

  lemma ShownIsNode(kvs: seq<Kv>, q: Query, r: Path)
    requires Answers(kvs, q) && r != []
    ensures Shown(kvs, q, r) == if Passes(Items(kvs, q), r) then Some(NodeAt(Items(kvs, q), r, q.sep)) else None
  {
    var none: Path := [];
    ItemsAreHonest(kvs, q);
    FindShownReaches(Items(kvs, q), PrefixSegCount(q), none, r, q.sep);
    assert none + r == r;
  }

  /** Whatever was asked for, the node at a path is that of the last key shown there: its key, its
      revisions and version and, with values, its value and the time left of its lease. */
  lemma NodeShowsItsKey(kvs: seq<Kv>, q: Query, i: int, r: Path)
    requires Answers(kvs, q) && r != [] && LastShown(kvs, i, q, r)
    ensures Shown(kvs, q, r).Some?
    ensures Shown(kvs, q, r).value.key == kvs[i].key && Carries(Shown(kvs, q, r).value, kvs[i], q)
  {
    LastShownStamp(kvs, q, r, i);
    ShownIsNode(kvs, q, r);
    var j := StampFrom(Items(kvs, q), r);
    SplitEmpty(q.sep);
  }

  lemma BareNode(items: seq<Item>, p: Path, pre: Path, sep: char)
    requires StampAt(items, p) == None && FirstPre(items, p) == Some(pre)
    ensures IsDirectory(NodeAt(items, p, sep), Render(pre + p, sep))
  {
  }

  lemma NoStamp(kvs: seq<Kv>, q: Query, r: Path)
    requires Answers(kvs, q) && r != [] && forall j :: 0 <= j < |kvs| ==> !IsShown(kvs[j], q, r)
    ensures StampAt(Items(kvs, q), r) == None
  {
    LastShownStamp(kvs, q, r, -1);
  }

  lemma FirstPasses(kvs: seq<Kv>, q: Query, i: int, r: Path)
    requires Answers(kvs, q) && r != [] && FirstReaching(kvs, i, q, r)
    ensures FirstPre(Items(kvs, q), r) == Some(Segments(kvs[i].key, q.sep)[..PrefixSegCount(q)]) && Passes(Items(kvs, q), r)
  {
    FirstReachingPre(kvs, q, r, i);
    FirstPreWhenPassed(Items(kvs, q), r);
  }

  lemma DirectoryShown(kvs: seq<Kv>, q: Query, segs: Path, r: Path)
    requires Answers(kvs, q) && r != [] && StampAt(Items(kvs, q), r) == None && Passes(Items(kvs, q), r)
    requires PrefixSegCount(q) <= |segs| && r <= segs[PrefixSegCount(q)..]
    requires FirstPre(Items(kvs, q), r) == Some(segs[..PrefixSegCount(q)])
    ensures PrefixSegCount(q) + |r| <= |segs| && Shown(kvs, q, r).Some?
    ensures IsDirectory(Shown(kvs, q, r).value, Render(segs[..PrefixSegCount(q) + |r|], q.sep))
  {
    ShownIsNode(kvs, q, r);
    BareNode(Items(kvs, q), r, segs[..PrefixSegCount(q)], q.sep);
    CutThrough(segs, PrefixSegCount(q), r);
  }

  /** A path some key passes and none is shown at has a bare directory, named by the segments of the
      first key that passes. */
  lemma DirectoryCarriesNothing(kvs: seq<Kv>, q: Query, i: int, r: Path)
    requires Answers(kvs, q) && r != [] && FirstReaching(kvs, i, q, r)
    requires forall j :: 0 <= j < |kvs| ==> !IsShown(kvs[j], q, r)
    ensures var segs, depth := Segments(kvs[i].key, q.sep), PrefixSegCount(q) + |r|;
            && depth <= |segs| && Shown(kvs, q, r).Some?
            && IsDirectory(Shown(kvs, q, r).value, Render(segs[..depth], q.sep))
  {
    NoStamp(kvs, q, r);
    FirstPasses(kvs, q, i, r);
    DirectoryShown(kvs, q, Segments(kvs[i].key, q.sep), r);
  }

  lemma CutThrough(segs: Path, n: nat, r: Path)
    requires n <= |segs| && r <= segs[n..]
    ensures n + |r| <= |segs| && segs[..n] + r == segs[..n + |r|]
  {
    assert r == segs[n..][..|r|];
  }

  /** A path no key passes has no node. */
  lemma NothingShown(kvs: seq<Kv>, q: Query, r: Path)
    requires Answers(kvs, q) && r != [] && forall j :: 0 <= j < |kvs| ==> !Reaches(kvs[j], q, r)
    ensures Shown(kvs, q, r) == None
  {
    FirstReachingPre(kvs, q, r, -1);
    FirstPreWhenPassed(Items(kvs, q), r);
    ShownIsNode(kvs, q, r);
  }

  /** The top node is named by the query and carries the data of the query key, or of a key of nothing
      but separators, if one was returned. */
  lemma TopShowsItsKey(kvs: seq<Kv>, q: Query, i: int)
    requires Answers(kvs, q)
    requires LastTop(kvs, i, q) || (i == -1 && forall j :: 0 <= j < |kvs| ==> !IsTop(kvs[j], q))
    ensures Tree(kvs, q).key == q.key && Tree(kvs, q).dir
    ensures if i == -1 then CarriesNothing(Tree(kvs, q)) else Carries(Tree(kvs, q), kvs[i], q)
  {
    LastTopStamp(kvs, q, i);
  }
}
