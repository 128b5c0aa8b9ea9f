/** Flattening a key tree gives the stored keys back, and deleting a directory removes exactly
    the entries at or below its path. */
module KeyTreeFlatten {
  import opened Options
  import opened KeyPath
  import opened KeyTree
  import opened EtcdStore
  import opened KeyTreeLaws

  /** Stored keys have a revision, bare directories do not. */
  predicate IsStored(node: Node) {
    node.modRevision > 0
  }

  /** The stored keys of a tree, each node before the nodes below it. */
  function Flatten(node: Node): seq<Stamp>
    decreases node
  {
    (if IsStored(node) then [DataOf(node)] else []) + FlattenAll(node.nodes)
  }

  function FlattenAll(nodes: seq<Node>): seq<Stamp>
    decreases nodes
  {
    if nodes == [] then [] else Flatten(nodes[0]) + FlattenAll(nodes[1..])
  }

  /** A node is shown as a directory exactly when it has children, and every childless node is a stored key. */
  predicate Tidy(node: Node)
    decreases node
  {
    && (node.dir <==> node.nodes != [])
    && (node.nodes == [] ==> IsStored(node))
    && forall i :: 0 <= i < |node.nodes| ==> Tidy(node.nodes[i])
  }

  /** The data of the stored keys, in key order. */
  function Stamps(kvs: seq<Kv>, q: Query): seq<Stamp> {
    if kvs == [] then [] else Stamps(kvs[..|kvs| - 1], q) + [StampOf(kvs[|kvs| - 1], q)]
  }

  // ------------------------------------------------ counting data by path

  /** Items with data, stored at some revision under a key, no two at one path. */
  ghost predicate Stored(items: seq<Item>) {
    && (forall i :: 0 <= i < |items| ==>
          items[i].stamp.Some? && items[i].stamp.value.realKey != "" && items[i].stamp.value.modRevision > 0)
    && (forall i, j :: 0 <= i < j < |items| ==> items[i].path != items[j].path)
  }

  /** The data of the items at the path, at or below it, and below it through one of some names. */
  function DataAt(items: seq<Item>, p: Path): multiset<Stamp> {
    if items == [] then multiset{}
    else
      var last := items[|items| - 1];
      DataAt(items[..|items| - 1], p)
      + if last.path == p && last.stamp.Some? then multiset{last.stamp.value} else multiset{}
  }

  function DataBelow(items: seq<Item>, p: Path): multiset<Stamp> {
    if items == [] then multiset{}
    else
      var last := items[|items| - 1];
      DataBelow(items[..|items| - 1], p)
      + if p <= last.path && last.stamp.Some? then multiset{last.stamp.value} else multiset{}
  }

  function DataThrough(items: seq<Item>, p: Path, names: seq<string>): multiset<Stamp> {
    if items == [] then multiset{}
    else
      var last := items[|items| - 1];
      DataThrough(items[..|items| - 1], p, names)
      + if p < last.path && last.path[|p|] in names && last.stamp.Some? then multiset{last.stamp.value} else multiset{}
  }

  lemma {:induction false} BelowSplits(items: seq<Item>, p: Path, names: seq<string>)
    requires forall i :: 0 <= i < |items| && p < items[i].path ==> items[i].path[|p|] in names
    ensures DataBelow(items, p) == DataAt(items, p) + DataThrough(items, p, names)
  {
    if items != [] {
      BelowSplits(items[..|items| - 1], p, names);
      var last := items[|items| - 1];
      assert p <= last.path <==> p < last.path || p == last.path;
    }
  }

  lemma {:induction false} ThroughSplits(items: seq<Item>, p: Path, name: string, names: seq<string>)
    requires name !in names
    ensures DataThrough(items, p, [name] + names) == DataBelow(items, p + [name]) + DataThrough(items, p, names)
  {
    if items != [] {
      ThroughSplits(items[..|items| - 1], p, name, names);
      OneStepBelow(p, name, items[|items| - 1].path);
      if p < items[|items| - 1].path {
        InCons(items[|items| - 1].path[|p|], name, names);
      }
    }
  }

  lemma OneStepBelow(p: Path, name: string, path: Path)
    ensures p + [name] <= path <==> p < path && path[|p|] == name
  {
  }

  lemma InCons(x: string, name: string, names: seq<string>)
    ensures x in [name] + names <==> x == name || x in names
  {
  }

  lemma {:induction false} ThroughNothing(items: seq<Item>, p: Path)
    ensures DataThrough(items, p, []) == multiset{}
  {
    if items != [] {
      ThroughNothing(items[..|items| - 1], p);
    }
  }

  lemma {:induction false} DataAtIsStamp(items: seq<Item>, p: Path)
    requires Stored(items)
    ensures DataAt(items, p) == if StampAt(items, p).Some? then multiset{StampAt(items, p).value} else multiset{}
    ensures StampAt(items, p).Some? <==> exists i :: 0 <= i < |items| && items[i].path == p
    ensures StampAt(items, p).Some? ==> StampAt(items, p).value.realKey != "" && StampAt(items, p).value.modRevision > 0
  {
    if items != [] {
      var init := items[..|items| - 1];
      DataAtIsStamp(init, p);
      if StampAt(init, p).Some? {
        var i :| 0 <= i < |init| && init[i].path == p;
        assert items[i].path == p;
      }
    }
  }

  // ------------------------------------------------------------- flatten

  /** Flattening the node at a path gives the data of the items at or below the path. */
  lemma {:induction false} FlattenNode(items: seq<Item>, p: Path, sep: char)
    requires Stored(items)
    ensures multiset(Flatten(NodeAt(items, p, sep))) == DataBelow(items, p)
    decreases Room(items, p), |ChildNames(items, p)| + 1
  {
    var names := ChildNames(items, p);
    NamesCover(items, p);
    BelowSplits(items, p, names);
    DataAtIsStamp(items, p);
    ChildNamesDistinct(items, p);
    FlattenNodes(items, p, names, sep);
    var node := NodeAt(items, p, sep);
    assert IsStored(node) <==> StampAt(items, p).Some?;
    assert multiset(Flatten(node)) == multiset(if IsStored(node) then [DataOf(node)] else []) + multiset(FlattenAll(node.nodes));
  }

  lemma {:induction false} FlattenNodes(items: seq<Item>, p: Path, names: seq<string>, sep: char)
    requires Stored(items)
    requires forall s :: s in names ==> s in ChildNames(items, p)
    requires forall i, j :: 0 <= i < j < |names| ==> names[i] != names[j]
    ensures multiset(FlattenAll(NodesAt(items, p, names, sep))) == DataThrough(items, p, names)
    decreases Room(items, p), |names|
  {
    if names == [] {
      ThroughNothing(items, p);
    } else {
      var name, rest := names[0], names[1..];
      ChildIsDeeper(items, p, name);
      FlattenNode(items, p + [name], sep);
      FlattenNodes(items, p, rest, sep);
      NotAmongRest(names);
      ThroughSplits(items, p, name, rest);
      FlattenCons(NodeAt(items, p + [name], sep), NodesAt(items, p, rest, sep));
    }
  }

  lemma NotAmongRest(names: seq<string>)
    requires names != [] && forall i, j :: 0 <= i < j < |names| ==> names[i] != names[j]
    ensures names[0] !in names[1..] && names == [names[0]] + names[1..]
  {
  }

  lemma FlattenCons(node: Node, nodes: seq<Node>)
    ensures multiset(FlattenAll([node] + nodes)) == multiset(Flatten(node)) + multiset(FlattenAll(nodes))
  {
    assert ([node] + nodes)[1..] == nodes;
  }

  lemma NamesCover(items: seq<Item>, p: Path)
    ensures forall i :: 0 <= i < |items| && p < items[i].path ==> items[i].path[|p|] in ChildNames(items, p)
  {
    forall i | 0 <= i < |items| && p < items[i].path ensures items[i].path[|p|] in ChildNames(items, p) {
      assert p + [items[i].path[|p|]] <= items[i].path;
      ChildNamesArePassed(items, p, items[i].path[|p|]);
    }
  }

  /** Canonical keys of a keyspace become stored items, one per key, at distinct non-empty paths. */
  lemma {:induction false} CanonicalItems(kvs: seq<Kv>, q: Query)
    requires IsRoot(q) && ValidStore(kvs) && CanonicalKeys(kvs, q.sep)
    ensures Answers(kvs, q) && |Items(kvs, q)| == |kvs|
    ensures forall i :: 0 <= i < |kvs| ==>
              Items(kvs, q)[i] == Item([], Segments(kvs[i].key, q.sep), Some(StampOf(kvs[i], q)))
  {
    if kvs != [] {
      CanonicalItems(kvs[..|kvs| - 1], q);
      RootItem(kvs[|kvs| - 1], q);
    }
  }

  lemma CanonicalItemsAreStored(kvs: seq<Kv>, q: Query)
    requires IsRoot(q) && ValidStore(kvs) && CanonicalKeys(kvs, q.sep)
    ensures Answers(kvs, q) && Stored(Items(kvs, q))
    ensures StampAt(Items(kvs, q), []) == None
  {
    CanonicalItems(kvs, q);
    ValidStoreHasDistinctKeys(kvs);
    var items := Items(kvs, q);
    forall i | 0 <= i < |items| ensures items[i].path != [] && kvs[i].key == Render(items[i].path, q.sep) {
      CanonicalIsRender(kvs[i].key, q.sep);
    }
    DataAtIsStamp(items, []);
  }

  lemma {:induction false} DataBelowTop(kvs: seq<Kv>, q: Query)
    requires IsRoot(q)
    ensures Answers(kvs, q) && DataBelow(Items(kvs, q), []) == multiset(Stamps(kvs, q))
  {
    if kvs != [] {
      var init, last := kvs[..|kvs| - 1], kvs[|kvs| - 1];
      DataBelowTop(init, q);
      RootItem(last, q);
      var items := Items(kvs, q);
      assert items[..|items| - 1] == Items(init, q);
    }
  }

  /** Flattening the tree of a canonical keyspace gives exactly the stored keys with their data, each once. */
  lemma FlattenGivesStore(kvs: seq<Kv>, q: Query)
    requires IsRoot(q) && ValidStore(kvs) && CanonicalKeys(kvs, q.sep)
    ensures Answers(kvs, q)
    ensures multiset(FlattenAll(Tree(kvs, q).nodes)) == multiset(Stamps(kvs, q))
  {
    CanonicalItemsAreStored(kvs, q);
    var items, none: Path := Items(kvs, q), [];
    ChildNamesDistinct(items, none);
    FlattenNodes(items, none, ChildNames(items, none), q.sep);
    DataBelowTop(kvs, q);
    NamesCover(items, none);
    BelowSplits(items, none, ChildNames(items, none));
    DataAtIsStamp(items, none);
  }

  // --------------------------------------------------------------- shape

  lemma {:induction false} NodeIsTidy(items: seq<Item>, p: Path, sep: char)
    requires forall i :: 0 <= i < |items| ==> items[i].stamp.Some? && items[i].stamp.value.modRevision > 0
    requires Passes(items, p)
    ensures Tidy(NodeAt(items, p, sep))
    decreases Room(items, p)
  {
    var names, node := ChildNames(items, p), NodeAt(items, p, sep);
    NodesAtIndex(items, p, names, sep);
    forall i | 0 <= i < |names| ensures Tidy(node.nodes[i]) {
      ChildIsDeeper(items, p, names[i]);
      ChildNamesArePassed(items, p, names[i]);
      NodeIsTidy(items, p + [names[i]], sep);
    }
    StampWhenReached(items, p);
    if names == [] {
      var i :| 0 <= i < |items| && p <= items[i].path;
      NamesCover(items, p);
      assert items[i].path == p;
    }
  }

  lemma {:induction false} StampWhenReached(items: seq<Item>, p: Path)
    requires forall i :: 0 <= i < |items| ==> items[i].stamp.Some? && items[i].stamp.value.modRevision > 0
    ensures StampAt(items, p).Some? <==> exists i :: 0 <= i < |items| && items[i].path == p
    ensures StampAt(items, p).Some? ==> StampAt(items, p).value.modRevision > 0
  {
    if items != [] {
      var init := items[..|items| - 1];
      StampWhenReached(init, p);
      if StampAt(init, p).Some? {
        var i :| 0 <= i < |init| && init[i].path == p;
        assert items[i].path == p;
      }
    }
  }

  /** Whatever the keys look like, every node below the root of an answer is tidy. */
  lemma TreeIsTidy(kvs: seq<Kv>, q: Query, i: nat)
    requires ValidStore(kvs) && Answers(kvs, q) && i < |Tree(kvs, q).nodes|
    ensures Tidy(Tree(kvs, q).nodes[i])
  {
    var items, none: Path := Items(kvs, q), [];
    ItemsHaveData(kvs, q);
    ChildAtIndex(items, none, i, q.sep);
    ChildNamesArePassed(items, none, ChildNames(items, none)[i]);
    NodeIsTidy(items, none + [ChildNames(items, none)[i]], q.sep);
  }

  lemma {:induction false} ItemsHaveData(kvs: seq<Kv>, q: Query)
    requires ValidStore(kvs) && Answers(kvs, q)
    ensures forall i :: 0 <= i < |Items(kvs, q)| ==>
              Items(kvs, q)[i].stamp.Some? && Items(kvs, q)[i].stamp.value.modRevision > 0
  {
    if kvs != [] {
      ItemsHaveData(kvs[..|kvs| - 1], q);
    }
  }

  /** Siblings stand in the order they were first seen: at some moment the earlier one had been
      passed and the later one had not. */
  lemma {:induction false} SiblingsInFirstSeenOrder(items: seq<Item>, p: Path, i: nat, j: nat) returns (m: nat)
    requires i < j < |ChildNames(items, p)|
    ensures m <= |items|
    ensures Passes(items[..m], p + [ChildNames(items, p)[i]]) && !Passes(items[..m], p + [ChildNames(items, p)[j]])
  {
    var init := items[..|items| - 1];
    var names := ChildNames(init, p);
    if j < |names| {
      m := SiblingsInFirstSeenOrder(init, p, i, j);
      assert items[..m] == init[..m];
    } else {
      m := |init|;
      ChildNamesArePassed(init, p, names[i]);
      ChildNamesArePassed(init, p, ChildNames(items, p)[j]);
    }
  }

  // -------------------------------------------------------------- delete

  lemma StampsSnoc(kvs: seq<Kv>, last: Kv, q: Query, e: Stamp)
    ensures multiset(Stamps(kvs + [last], q))[e] == multiset(Stamps(kvs, q))[e] + if StampOf(last, q) == e then 1 else 0
  {
    assert (kvs + [last])[..|kvs|] == kvs;
  }

  lemma SelectedStep(init: seq<Kv>, last: Kv, keep: Kv -> bool, q: Query, e: Stamp)
    requires StampOf(last, q) == e ==> keep(last)
    requires multiset(Stamps(Select(init, keep), q))[e] == multiset(Stamps(init, q))[e]
    ensures multiset(Stamps(Select(init + [last], keep), q))[e] == multiset(Stamps(init + [last], q))[e]
  {
    SelectSnoc(init, last, keep);
    StampsSnoc(init, last, q, e);
    StampsSnoc(Select(init, keep), last, q, e);
  }

  lemma {:induction false} SelectedStamps(kvs: seq<Kv>, keep: Kv -> bool, q: Query, e: Stamp)
    requires forall kv :: kv in kvs && StampOf(kv, q) == e ==> keep(kv)
    ensures multiset(Stamps(Select(kvs, keep), q))[e] == multiset(Stamps(kvs, q))[e]
  {
    if kvs != [] {
      var init, last := kvs[..|kvs| - 1], kvs[|kvs| - 1];
      assert kvs == init + [last];
      SelectedStamps(init, keep, q, e);
      SelectedStep(init, last, keep, q, e);
    }
  }

  lemma {:induction false} StampsAreOfKeys(kvs: seq<Kv>, q: Query, e: Stamp)
    requires e in Stamps(kvs, q)
    ensures exists kv :: kv in kvs && StampOf(kv, q) == e
  {
    var init, last := kvs[..|kvs| - 1], kvs[|kvs| - 1];
    assert kvs == init + [last];
    if e == StampOf(last, q) {
      assert last in kvs;
    } else {
      StampsAreOfKeys(init, q, e);
    }
  }

  /** After a directory delete the rebuilt tree holds the old entries minus exactly those whose
      path is the deleted path or lies below it. */
  lemma DirectoryDeleteIsExact(kvs: seq<Kv>, q: Query, key: string, e: Stamp)
    requires IsRoot(q) && ValidStore(kvs) && CanonicalKeys(kvs, q.sep)
    requires key == "" || key == [q.sep] || Canonical(key, q.sep)
    ensures Answers(kvs, q) && Answers(AfterDelete(kvs, key, true, q.sep), q)
    ensures var before := multiset(FlattenAll(Tree(kvs, q).nodes));
            var after := multiset(FlattenAll(Tree(AfterDelete(kvs, key, true, q.sep), q).nodes));
            after[e] == if Segments(key, q.sep) <= Segments(e.realKey, q.sep) then 0 else before[e]
  {
    var keep := (kv: Kv) => !UnderKey(key, kv.key, q.sep);
    var left := AfterDelete(kvs, key, true, q.sep);
    DeleteKeepsStore(kvs, key, true, q.sep);
    FlattenGivesStore(kvs, q);
    FlattenGivesStore(left, q);
    if Segments(key, q.sep) <= Segments(e.realKey, q.sep) {
      if e in Stamps(left, q) {
        StampsAreOfKeys(left, q, e);
        var kv :| kv in left && StampOf(kv, q) == e;
        UnderKeyIsPathPrefix(key, kv.key, q.sep);
        assert false;
      }
    } else {
      forall kv | kv in kvs && StampOf(kv, q) == e ensures keep(kv) {
        UnderKeyIsPathPrefix(key, kv.key, q.sep);
      }
      SelectedStamps(kvs, keep, q, e);
    }
  }

  lemma DeleteKeepsStore(kvs: seq<Kv>, key: string, dir: bool, sep: char)
    requires ValidStore(kvs)
    ensures ValidStore(AfterDelete(kvs, key, dir, sep))
    ensures CanonicalKeys(kvs, sep) ==> CanonicalKeys(AfterDelete(kvs, key, dir, sep), sep)
  {
    SelectKeepsStore(kvs, (kv: Kv) => !UnderKey(key, kv.key, sep));
    SelectKeepsStore(kvs, (kv: Kv) => kv.key != key);
    var left := AfterDelete(kvs, key, dir, sep);
    if CanonicalKeys(kvs, sep) {
      forall i | 0 <= i < |left| ensures Canonical(left[i].key, sep) {
        assert left[i] in left;
      }
    }
  }
}
