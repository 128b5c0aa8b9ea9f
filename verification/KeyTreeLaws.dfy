/** What the key tree promises about the flat keyspace it was built from. */
module KeyTreeLaws {
  import opened Options
  import opened KeyPath
  import opened KeyTree
  import opened EtcdStore

  /** A query for the whole keyspace. */
  predicate IsRoot(q: Query) {
    q.key == [q.sep] || q.key == ""
  }

  /** Items whose data lies where their paths say, below the segments of one query key. */
  ghost predicate Uniform(items: seq<Item>, above: Path, sep: char) {
    && IsPath(above, sep)
    && forall i :: 0 <= i < |items| && items[i].path != [] ==>
         && items[i].pre == above && IsPath(items[i].path, sep)
         && (items[i].stamp.Some? ==> Segments(items[i].stamp.value.realKey, sep) == above + items[i].path)
  }

  lemma {:induction false} RootItems(kvs: seq<Kv>, q: Query)
    requires IsRoot(q)
    ensures Answers(kvs, q) && Uniform(Items(kvs, q), [], q.sep)
  {
    if kvs != [] {
      var init, last := kvs[..|kvs| - 1], kvs[|kvs| - 1];
      RootItems(init, q);
      SegmentsArePath(last.key, q.sep);
      var segs := Segments(last.key, q.sep);
      assert segs[..0] == [] && segs[0..] == segs && [] + segs == segs;
    }
  }

  lemma {:induction false} FirstPreIsAbove(items: seq<Item>, above: Path, p: Path, sep: char)
    requires Uniform(items, above, sep) && p != []
    ensures FirstPre(items, p).Some? ==> FirstPre(items, p).value == above && IsPath(p, sep)
  {
    if items != [] {
      var init, last := items[..|items| - 1], items[|items| - 1];
      FirstPreIsAbove(init, above, p, sep);
      if p <= last.path {
        assert last.path[..|p|] == p;
      }
    }
  }

  lemma {:induction false} StampIsInPlace(items: seq<Item>, above: Path, p: Path, sep: char)
    requires Uniform(items, above, sep) && p != []
    ensures StampAt(items, p).Some? ==>
              Segments(StampAt(items, p).value.realKey, sep) == above + p && Passes(items, p)
  {
    if items != [] {
      var init, last := items[..|items| - 1], items[|items| - 1];
      StampIsInPlace(init, above, p, sep);
      assert items == init + [last];
      PassesSnoc(init, last, p);
    }
  }

  /** The key of a node always cuts into the path of the node. */
  lemma NodeKeyIsPath(items: seq<Item>, above: Path, p: Path, sep: char)
    requires Uniform(items, above, sep) && p != [] && Passes(items, p)
    ensures Segments(NodeAt(items, p, sep).key, sep) == above + p
  {
    FirstPreWhenPassed(items, p);
    FirstPreIsAbove(items, above, p, sep);
    StampIsInPlace(items, above, p, sep);
    SegmentsOfRender(above + p, sep);
  }

  // ---------------------------------------------------------------- lookup

  /** The first of some nodes whose key cuts into the given path. */
  function ChildWithPath(nodes: seq<Node>, path: Path, sep: char): Option<Node> {
    if nodes == [] then None
    else if Segments(nodes[0].key, sep) == path then Some(nodes[0])
    else ChildWithPath(nodes[1..], path, sep)
  }

  /** Walks down a tree of nodes by key, one segment of the target at a time. */
  function Find(nodes: seq<Node>, above: Path, target: Path, sep: char): Option<Node>
    decreases |target|
  {
    if target == [] then None
    else
      var here := above + [target[0]];
      var child := ChildWithPath(nodes, here, sep);
      if child.None? || |target| == 1 then child else Find(child.value.nodes, here, target[1..], sep)
  }

  lemma {:induction false} ChildWithPathAmong(items: seq<Item>, above: Path, p: Path, names: seq<string>, s: string, sep: char)
    requires Uniform(items, above, sep)
    requires forall x :: x in names ==> x in ChildNames(items, p)
    ensures ChildWithPath(NodesAt(items, p, names, sep), above + p + [s], sep)
            == if s in names then Some(NodeAt(items, p + [s], sep)) else None
  {
    if names != [] {
      ChildNamesArePassed(items, p, names[0]);
      NodeKeyIsPath(items, above, p + [names[0]], sep);
      ChildWithPathAmong(items, above, p, names[1..], s, sep);
      var nodes := NodesAt(items, p, names, sep);
      assert nodes[1..] == NodesAt(items, p, names[1..], sep);
      assert above + (p + [names[0]]) == above + p + [names[0]];
      assert (above + p + [names[0]])[|above + p|] == names[0] && (above + p + [s])[|above + p|] == s;
    }
  }

  lemma {:induction false} FindReaches(items: seq<Item>, above: Path, p: Path, target: Path, sep: char)
    requires Uniform(items, above, sep) && target != []
    ensures Find(ChildrenAt(items, p, sep), above + p, target, sep)
            == if Passes(items, p + target) then Some(NodeAt(items, p + target, sep)) else None
    decreases |target|
  {
    var s, next := target[0], p + [target[0]];
    ChildWithPathAmong(items, above, p, ChildNames(items, p), s, sep);
    ChildNamesArePassed(items, p, s);
    assert above + p + [s] == above + next;
    if |target| == 1 {
      assert p + target == next;
    } else {
      assert next + target[1..] == p + target;
      FindReaches(items, above, next, target[1..], sep);
      PassesUpTo(items, next, p + target);
    }
  }

  /** Whether some stored key lies at the path or below it. */
  predicate AnyBelow(kvs: seq<Kv>, path: Path, sep: char) {
    exists i :: 0 <= i < |kvs| && path <= Segments(kvs[i].key, sep)
  }

  /** kvs[i] is the last stored key that cuts into the path. */
  predicate LastAt(kvs: seq<Kv>, i: int, path: Path, sep: char) {
    && 0 <= i < |kvs| && Segments(kvs[i].key, sep) == path
    && forall j :: i < j < |kvs| ==> Segments(kvs[j].key, sep) != path
  }

  lemma SegmentsOfSep(q: Query)
    requires IsRoot(q)
    ensures Segments(q.key, q.sep) == []
  {
    SplitEmpty(q.sep);
    if q.key != "" {
      SegmentsAcrossSep("", "", q.sep);
      assert "" + [q.sep] + "" == q.key;
    }
  }

  /** For the whole keyspace the item of a key is its path with its data. */
  lemma RootItem(kv: Kv, q: Query)
    requires IsRoot(q)
    ensures StartsWith(kv.key, PrefixKey(q))
    ensures ItemsOf(kv, q) == [Item([], Segments(kv.key, q.sep), Some(StampOf(kv, q)))]
  {
    SegmentsOfSep(q);
    var segs := Segments(kv.key, q.sep);
    assert segs[..0] == [] && segs[0..] == segs;
  }

  lemma {:induction false} PassedWhenStored(kvs: seq<Kv>, q: Query, path: Path)
    requires IsRoot(q)
    ensures Answers(kvs, q)
    ensures Passes(Items(kvs, q), path) <==> AnyBelow(kvs, path, q.sep)
  {
    if kvs != [] {
      var init, last := kvs[..|kvs| - 1], kvs[|kvs| - 1];
      PassedWhenStored(init, q, path);
      RootItem(last, q);
      PassesSnoc(Items(init, q), ItemsOf(last, q)[0], path);
      assert kvs == init + [last];
      if AnyBelow(init, path, q.sep) {
        var i :| 0 <= i < |init| && path <= Segments(init[i].key, q.sep);
        assert kvs[i] == init[i];
      }
    }
  }

  lemma RootStampSnoc(kvs: seq<Kv>, kv: Kv, q: Query, path: Path)
    requires IsRoot(q)
    ensures Answers(kvs, q) && Answers(kvs + [kv], q)
    ensures StampAt(Items(kvs + [kv], q), path)
            == if Segments(kv.key, q.sep) == path then Some(StampOf(kv, q)) else StampAt(Items(kvs, q), path)
  {
    assert (kvs + [kv])[..|kvs|] == kvs;
    RootItem(kv, q);
    Snoc(Items(kvs, q), ItemsOf(kv, q)[0], path);
  }

  lemma {:induction false} StampWhenStored(kvs: seq<Kv>, q: Query, path: Path, i: int)
    requires IsRoot(q)
    requires LastAt(kvs, i, path, q.sep)
             || (i == -1 && forall j :: 0 <= j < |kvs| ==> Segments(kvs[j].key, q.sep) != path)
    ensures Answers(kvs, q)
    ensures StampAt(Items(kvs, q), path) == if i == -1 then None else Some(StampOf(kvs[i], q))
  {
    if kvs != [] {
      var init, last := kvs[..|kvs| - 1], kvs[|kvs| - 1];
      assert kvs == init + [last];
      RootStampSnoc(init, last, q, path);
      if i < |init| {
        assert Segments(kvs[|kvs| - 1].key, q.sep) != path;
        StampWhenStored(init, q, path, i);
      }
    }
  }

  /** The data of a node is that of the last item there, or a bare directory's. */
  lemma DataAtPath(items: seq<Item>, p: Path, sep: char)
    requires Uniform(items, [], sep) && p != [] && Passes(items, p)
    ensures DataOf(NodeAt(items, p, sep)) == StampAt(items, p).GetOr(NO_STAMP.(realKey := Render(p, sep)))
    ensures Segments(NodeAt(items, p, sep).key, sep) == p
  {
    NodeKeyIsPath(items, [], p, sep);
    FirstPreWhenPassed(items, p);
    FirstPreIsAbove(items, [], p, sep);
    StampIsInPlace(items, [], p, sep);
    SplitEmpty(sep);
    assert [] + p == p;
  }

  /** The tree of the whole keyspace agrees with the flat keys: a path leads to a node exactly
      when some stored key lies at it or below it, and that node carries the key, the value and
      the revisions of the last stored key with exactly those segments. */
  lemma TreeAgreesWithStore(kvs: seq<Kv>, q: Query, path: Path)
    requires IsRoot(q) && path != []
    ensures Answers(kvs, q)
    ensures var found := Find(Tree(kvs, q).nodes, [], path, q.sep);
            && (found.Some? <==> AnyBelow(kvs, path, q.sep))
            && (found.Some? ==> Segments(found.value.key, q.sep) == path)
            && (forall i :: LastAt(kvs, i, path, q.sep) ==>
                  found.Some? && DataOf(found.value) == StampOf(kvs[i], q))
            && (found.Some? && (forall i :: 0 <= i < |kvs| ==> Segments(kvs[i].key, q.sep) != path) ==>
                  DataOf(found.value) == NO_STAMP.(realKey := Render(path, q.sep)))
  {
    RootItems(kvs, q);
    PassedWhenStored(kvs, q, path);
    var items := Items(kvs, q);
    var none: Path := [];
    FindReaches(items, [], [], path, q.sep);
    assert none + path == path && none + none == none;
    if Passes(items, path) {
      DataAtPath(items, path, q.sep);
    }
    forall i | LastAt(kvs, i, path, q.sep)
      ensures AnyBelow(kvs, path, q.sep) && StampAt(items, path) == Some(StampOf(kvs[i], q))
    {
      assert path <= Segments(kvs[i].key, q.sep);
      StampWhenStored(kvs, q, path, i);
    }
    if forall i :: 0 <= i < |kvs| ==> Segments(kvs[i].key, q.sep) != path {
      StampWhenStored(kvs, q, path, -1);
    }
  }

  /** The stored part of a node. */
  function DataOf(node: Node): Stamp {
    Stamp(node.key, node.value, node.ttl, node.createRevision, node.modRevision, node.version)
  }
}
