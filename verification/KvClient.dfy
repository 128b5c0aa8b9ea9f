/** The v3 client: getTree builds shared, mutable entries linked by children maps, one insertion
    per stored key, then converts them. Each step is proved to keep the heap equal to the
    reference tree of the keys seen so far. */
module KvClient {
  import opened Options
  import opened Text
  import opened KeyPath
  import opened KeyTree
  import opened EtcdStore

  /** One entry of the tree under construction. */
  class NodeEntry {
    var key: string
    var realKey: string
    var value: string
    var ttl: int
    var createRevision: int
    var modRevision: int
    var version: int
    var isRealKey: bool
    var children: map<string, NodeEntry>
    var childOrder: seq<string>

    constructor (key: string)
      ensures this.key == key && Holds(None) && children == map[] && childOrder == []
    {
      this.key := key;
      realKey, value, ttl := "", "", 0;
      createRevision, modRevision, version := 0, 0, 0;
      isRealKey := false;
      children, childOrder := map[], [];
    }

    /** The entry carries exactly this data. */
    predicate Holds(stamp: Option<Stamp>)
      reads this
    {
      && isRealKey == stamp.Some?
      && Stamp(realKey, value, ttl, createRevision, modRevision, version) == stamp.GetOr(NO_STAMP)
    }

    /** Marks the entry as a stored key; without values the value and the TTL are not touched. */
    method Mark(kv: Kv, q: Query, ghost before: Option<Stamp>)
      requires Holds(before) && (q.keysOnly && before.Some? ==> before.value.value == "" && before.value.ttl == 0)
      modifies this
      ensures isRealKey && realKey == kv.key
      ensures createRevision == kv.createRevision && modRevision == kv.modRevision && version == kv.version
      ensures q.keysOnly ==> value == old(value) && ttl == old(ttl)
      ensures !q.keysOnly ==> value == kv.value
      ensures !q.keysOnly ==> ttl == if kv.lease != 0 && kv.lease in q.leases && q.leases[kv.lease] != -1 then q.leases[kv.lease] else 0
      ensures Holds(Some(StampOf(kv, q)))
      ensures key == old(key) && children == old(children) && childOrder == old(childOrder)
    {
      isRealKey := true;
      realKey := kv.key;
      if !q.keysOnly {
        value := kv.value;
        ttl := GetTtl(q.leases, kv.lease);
      }
      createRevision := kv.createRevision;
      modRevision := kv.modRevision;
      version := kv.version;
    }
  }

  /** The entry of a path agrees with the reference definition, and its child links lead to the
      entries one segment further down. */
  ghost predicate Linked(nodes: map<Path, NodeEntry>, items: seq<Item>, p: Path, sep: char)
    requires p in nodes
    reads nodes.Values
  {
    var e := nodes[p];
    && e.Holds(StampAt(items, p))
    && e.childOrder == ChildNames(items, p)
    && (p != [] ==> e.key == DirKey(items, p, sep))
    && (forall s :: s in e.children <==> s in e.childOrder)
    && (forall s :: s in e.children ==> p + [s] in nodes && e.children[s] == nodes[p + [s]])
  }

  ghost predicate Apart(nodes: map<Path, NodeEntry>, p: Path, p': Path) {
    p in nodes && p' in nodes && nodes[p] == nodes[p'] ==> p == p'
  }

  /** The whole heap stands for the items: one entry per path passed, never shared by two paths. */
  ghost predicate Represents(nodes: map<Path, NodeEntry>, items: seq<Item>, sep: char)
    reads nodes.Values
  {
    && (forall p :: p in nodes <==> p == [] || Passes(items, p))
    && (forall p, p' {:trigger Apart(nodes, p, p')} :: Apart(nodes, p, p'))
    && (forall p {:trigger Linked(nodes, items, p, sep)} :: p in nodes ==> Linked(nodes, items, p, sep))
  }

  /** Data written without values has none. */
  predicate Bare(items: seq<Item>, q: Query) {
    q.keysOnly ==> forall i :: 0 <= i < |items| && items[i].stamp.Some? ==>
                       items[i].stamp.value.value == "" && items[i].stamp.value.ttl == 0
  }

  lemma {:induction false} BareStamp(items: seq<Item>, q: Query, p: Path)
    requires Bare(items, q) && q.keysOnly
    ensures var s := StampAt(items, p); s.Some? ==> s.value.value == "" && s.value.ttl == 0
  {
    if items != [] {
      BareStamp(items[..|items| - 1], q, p);
    }
  }

  method PathSegments(key: string, sep: char) returns (segments: Path)
    ensures segments == Segments(key, sep)
  {
    var rawParts := Split(key, sep);
    segments := [];
    for i := 0 to |rawParts|
      invariant segments == NonEmpty(rawParts[..i])
    {
      assert rawParts[..i + 1] == rawParts[..i] + [rawParts[i]];
      NonEmptyConcat(rawParts[..i], [rawParts[i]]);
      if rawParts[i] != "" {
        segments := segments + [rawParts[i]];
      }
    }
    assert rawParts[..|rawParts|] == rawParts;
  }

  /** Where a walk steps from a path to one of its segments, only those two paths can change. */
  lemma StepElsewhere(items: seq<Item>, pre: Path, at: Path, seg: string, p: Path)
    requires p != at && p != at + [seg]
    ensures var x, y := items + [Item(pre, at, None)], items + [Item(pre, at + [seg], None)];
            && ChildNames(x, p) == ChildNames(y, p)
            && StampAt(x, p) == StampAt(y, p)
            && FirstPre(x, p) == FirstPre(y, p)
            && (Passes(x, p) <==> Passes(y, p))
  {
    var next := at + [seg];
    Snoc(items, Item(pre, at, None), p);
    Snoc(items, Item(pre, next, None), p);
    assert p <= next <==> p <= at;
    assert p < next <==> p < at;
    if p < at {
      assert next[|p|] == at[|p|];
    }
  }

  lemma StepFrom(items: seq<Item>, pre: Path, at: Path, seg: string)
    ensures var x, y := items + [Item(pre, at, None)], items + [Item(pre, at + [seg], None)];
            && ChildNames(y, at) == (if seg in ChildNames(x, at) then ChildNames(x, at) else ChildNames(x, at) + [seg])
            && StampAt(x, at) == StampAt(y, at)
            && FirstPre(x, at) == FirstPre(y, at)
            && Passes(x, at) && Passes(y, at)
  {
    Snoc(items, Item(pre, at, None), at);
    Snoc(items, Item(pre, at + [seg], None), at);
    assert at < at + [seg];
  }

  lemma StepTo(items: seq<Item>, pre: Path, at: Path, seg: string)
    ensures var x, y, next := items + [Item(pre, at, None)], items + [Item(pre, at + [seg], None)], at + [seg];
            && ChildNames(y, next) == ChildNames(x, next)
            && StampAt(y, next) == StampAt(x, next)
            && Passes(y, next)
            && (seg in ChildNames(x, at) <==> Passes(x, next))
            && (seg in ChildNames(x, at) ==> FirstPre(y, next) == FirstPre(x, next))
            && (seg !in ChildNames(x, at) ==>
                  FirstPre(y, next) == Some(pre) && ChildNames(x, next) == [] && StampAt(x, next) == None)
  {
    var next := at + [seg];
    var x := items + [Item(pre, at, None)];
    Snoc(items, Item(pre, at, None), next);
    Snoc(items, Item(pre, next, None), next);
    ChildNamesArePassed(x, at, seg);
    FirstPreWhenPassed(items, next);
    if seg !in ChildNames(x, at) {
      NothingBelow(x, next);
    }
  }

  /** A step along a child that is there already changes nothing. */
  lemma KnownStep(nodes: map<Path, NodeEntry>, items: seq<Item>, pre: Path, at: Path, seg: string, sep: char)
    requires at in nodes && Represents(nodes, items + [Item(pre, at, None)], sep)
    requires seg in ChildNames(items + [Item(pre, at, None)], at)
    ensures at + [seg] in nodes && Represents(nodes, items + [Item(pre, at + [seg], None)], sep)
  {
    var x, y, next := items + [Item(pre, at, None)], items + [Item(pre, at + [seg], None)], at + [seg];
    StepFrom(items, pre, at, seg);
    StepTo(items, pre, at, seg);
    forall p ensures p in nodes <==> p == [] || Passes(y, p)
             ensures p in nodes ==> Linked(nodes, y, p, sep)
    {
      if p != at && p != next {
        StepElsewhere(items, pre, at, seg, p);
      }
      if p in nodes {
        assert Linked(nodes, x, p, sep);
      }
    }
  }

  /** A step along a missing child makes and links it. */
  method AddChild(current: NodeEntry, seg: string, childKey: string, sep: char,
                  ghost nodes: map<Path, NodeEntry>, ghost items: seq<Item>, ghost pre: Path, ghost at: Path)
    returns (child: NodeEntry, ghost nodes': map<Path, NodeEntry>)
    requires at in nodes && nodes[at] == current
    requires Represents(nodes, items + [Item(pre, at, None)], sep)
    requires seg !in ChildNames(items + [Item(pre, at, None)], at)
    requires childKey == Render(pre + (at + [seg]), sep)
    modifies current
    ensures fresh(child) && nodes' == nodes[at + [seg] := child]
    ensures current.children == old(current.children)[seg := child]
    ensures Represents(nodes', items + [Item(pre, at + [seg], None)], sep)
  {
    ghost var x, y, next := items + [Item(pre, at, None)], items + [Item(pre, at + [seg], None)], at + [seg];
    assert Linked(nodes, x, at, sep);
    StepFrom(items, pre, at, seg);
    StepTo(items, pre, at, seg);
    child := new NodeEntry(childKey);
    current.children := current.children[seg := child];
    current.childOrder := current.childOrder + [seg];
    nodes' := nodes[next := child];
    assert Linked(nodes', y, next, sep);
    assert Linked(nodes', y, at, sep);
    forall p | p != at && p != next
      ensures p in nodes' <==> p == [] || Passes(y, p)
      ensures p in nodes' ==> Linked(nodes', y, p, sep)
    {
      StepElsewhere(items, pre, at, seg, p);
      if p in nodes {
        assert old(Linked(nodes, x, p, sep)) && Apart(nodes, p, at);
      }
    }
    StillApart(nodes, next, child);
  }

  lemma StillApart(nodes: map<Path, NodeEntry>, next: Path, child: NodeEntry)
    requires child !in nodes.Values && forall p, p' {:trigger Apart(nodes, p, p')} :: Apart(nodes, p, p')
    ensures forall p, p' {:trigger Apart(nodes[next := child], p, p')} :: Apart(nodes[next := child], p, p')
  {
    var grown := nodes[next := child];
    forall p, p' ensures Apart(grown, p, p') {
      assert Apart(nodes, p, p');
    }
  }

  /** One step of a walk: the child of an entry, created and linked when it is missing. */
  method Descend(current: NodeEntry, seg: string, childKey: string, sep: char,
                 ghost nodes: map<Path, NodeEntry>, ghost items: seq<Item>, ghost pre: Path, ghost at: Path)
    returns (child: NodeEntry, ghost nodes': map<Path, NodeEntry>)
    requires at in nodes && nodes[at] == current
    requires Represents(nodes, items + [Item(pre, at, None)], sep)
    requires childKey == Render(pre + (at + [seg]), sep)
    modifies current
    ensures fresh(nodes'.Values - nodes.Values)
    ensures at + [seg] in nodes' && nodes'[at + [seg]] == child
    ensures [] in nodes ==> [] in nodes' && nodes'[[]] == nodes[[]]
    ensures Represents(nodes', items + [Item(pre, at + [seg], None)], sep)
  {
    assert Linked(nodes, items + [Item(pre, at, None)], at, sep);
    nodes' := nodes;
    if seg !in current.children {
      child, nodes' := AddChild(current, seg, childKey, sep, nodes, items, pre, at);
    } else {
      KnownStep(nodes, items, pre, at, seg, sep);
      child := current.children[seg];
    }
  }

  lemma TakeThrough(p: Path, n: nat, i: nat)
    requires n + i < |p|
    ensures p[n..][..i + 1] == p[n..][..i] + [p[n..][i]]
    ensures p[..n + i + 1] == p[..n] + p[n..][..i + 1]
  {
  }

  /** Walks from the root along the path, creating the entries that are missing, and returns the
      last one. The heap then stands for the items with the path walked but carrying no data. */
  method Walk(root: NodeEntry, segments: Path, n: nat, sep: char,
              ghost nodes: map<Path, NodeEntry>, ghost items: seq<Item>)
    returns (current: NodeEntry, ghost nodes': map<Path, NodeEntry>)
    requires n < |segments| && [] in nodes && nodes[[]] == root && Represents(nodes, items, sep)
    modifies nodes.Values
    ensures [] in nodes' && nodes'[[]] == root && fresh(nodes'.Values - nodes.Values)
    ensures Represents(nodes', items + [Item(segments[..n], segments[n..], None)], sep)
    ensures segments[n..] in nodes' && nodes'[segments[n..]] == current
  {
    var relSegs := segments[n..];
    ghost var pre := segments[..n];
    current, nodes' := root, nodes;
    StartWalk(nodes, items, pre, sep);
    assert relSegs[..0] == [];
    for i := 0 to |relSegs|
      invariant [] in nodes' && nodes'[[]] == root && fresh(nodes'.Values - nodes.Values)
      invariant relSegs[..i] in nodes' && nodes'[relSegs[..i]] == current
      invariant Represents(nodes', items + [Item(pre, relSegs[..i], None)], sep)
    {
      ghost var before := nodes';
      assert current in before.Values;
      TakeThrough(segments, n, i);
      SepJoinIsRender(segments[..n + i + 1], sep);
      current, nodes' := Descend(current, relSegs[i], [sep] + Join(segments[..n + i + 1], [sep]), sep,
                                 before, items, pre, relSegs[..i]);
    }
    assert relSegs[..|relSegs|] == relSegs;
  }

  lemma StartWalk(nodes: map<Path, NodeEntry>, items: seq<Item>, pre: Path, sep: char)
    requires Represents(nodes, items, sep)
    ensures Represents(nodes, items + [Item(pre, [], None)], sep)
  {
    forall p ensures ChildNames(items + [Item(pre, [], None)], p) == ChildNames(items, p)
             ensures p in nodes <==> p == [] || Passes(items + [Item(pre, [], None)], p)
             ensures p in nodes ==> Linked(nodes, items + [Item(pre, [], None)], p, sep)
    {
      Snoc(items, Item(pre, [], None), p);
      assert p in nodes ==> Linked(nodes, items, p, sep);
    }
  }

  lemma {:induction false} MarkChangesOnlyData(items: seq<Item>, pre: Path, path: Path, stamp: Stamp, p: Path)
    ensures var x, y := items + [Item(pre, path, None)], items + [Item(pre, path, Some(stamp))];
            && ChildNames(x, p) == ChildNames(y, p)
            && FirstPre(x, p) == FirstPre(y, p)
            && (Passes(x, p) <==> Passes(y, p))
            && StampAt(y, p) == if p == path then Some(stamp) else StampAt(x, p)
  {
    Snoc(items, Item(pre, path, None), p);
    Snoc(items, Item(pre, path, Some(stamp)), p);
  }

  /** Marking the entry a walk ended at completes the insertion of a key. */
  method MarkWalked(current: NodeEntry, kv: Kv, q: Query,
                    ghost nodes: map<Path, NodeEntry>, ghost items: seq<Item>, ghost pre: Path, ghost path: Path)
    requires path in nodes && nodes[path] == current
    requires Represents(nodes, items + [Item(pre, path, None)], q.sep)
    requires Bare(items, q)
    modifies current
    ensures Represents(nodes, items + [Item(pre, path, Some(StampOf(kv, q)))], q.sep)
  {
    ghost var x, y := items + [Item(pre, path, None)], items + [Item(pre, path, Some(StampOf(kv, q)))];
    assert Linked(nodes, x, path, q.sep);
    if q.keysOnly {
      BareStamp(x, q, path);
    }
    current.Mark(kv, q, StampAt(x, path));
    forall p ensures p in nodes <==> p == [] || Passes(y, p)
             ensures p in nodes ==> Linked(nodes, y, p, q.sep)
    {
      MarkChangesOnlyData(items, pre, path, StampOf(kv, q), p);
      if p in nodes {
        assert old(Linked(nodes, x, p, q.sep)) && Apart(nodes, p, path);
      }
    }
  }

  /** Turns an entry and everything below it into nodes. */
  method ConvertEntry(e: NodeEntry, sep: char, ghost nodes: map<Path, NodeEntry>, ghost items: seq<Item>, ghost p: Path)
    returns (node: Node)
    requires Represents(nodes, items, sep)
    requires p in nodes && nodes[p] == e && p != []
    ensures node == NodeAt(items, p, sep)
    decreases Room(items, p), 2
  {
    assert Linked(nodes, items, p, sep);
    SomeName(e.children, e.childOrder);
    var nodeKey := e.key;
    if e.isRealKey && e.realKey != "" {
      nodeKey := e.realKey;
    }
    var dir, children := false, [];
    if |e.children| > 0 {
      dir := true;
      children := ConvertChildren(e, sep, nodes, items, p);
    } else if !e.isRealKey {
      dir := true;
    }
    node := Node(nodeKey, e.value, dir, e.ttl, e.createRevision, e.modRevision, e.version, children);
  }

  method ConvertChildren(e: NodeEntry, sep: char, ghost nodes: map<Path, NodeEntry>, ghost items: seq<Item>, ghost p: Path)
    returns (children: seq<Node>)
    requires Represents(nodes, items, sep)
    requires p in nodes && nodes[p] == e
    ensures children == ChildrenAt(items, p, sep)
    decreases Room(items, p), 1
  {
    children := [];
    assert Linked(nodes, items, p, sep);
    for i := 0 to |e.childOrder|
      invariant children == ChildrenAt(items, p, sep)[..i]
    {
      var name := e.childOrder[i];
      if name in e.children {
        var child := ConvertChild(e, i, sep, nodes, items, p);
        children := children + [child];
      }
    }
  }

  method ConvertChild(e: NodeEntry, i: nat, sep: char, ghost nodes: map<Path, NodeEntry>, ghost items: seq<Item>, ghost p: Path)
    returns (child: Node)
    requires Represents(nodes, items, sep)
    requires p in nodes && nodes[p] == e && i < |e.childOrder|
    ensures i < |ChildrenAt(items, p, sep)| && child == ChildrenAt(items, p, sep)[i]
    ensures e.childOrder[i] in e.children
    decreases Room(items, p), 0
  {
    assert Linked(nodes, items, p, sep);
    LinkedChild(nodes, items, p, i, sep);
    var name := e.childOrder[i];
    child := ConvertEntry(e.children[name], sep, nodes, items, p + [name]);
  }

  lemma LinkedChild(nodes: map<Path, NodeEntry>, items: seq<Item>, p: Path, i: nat, sep: char)
    requires p in nodes && Linked(nodes, items, p, sep) && i < |nodes[p].childOrder|
    ensures var name := nodes[p].childOrder[i];
            && name in nodes[p].children && p + [name] in nodes && nodes[p].children[name] == nodes[p + [name]]
            && Room(items, p + [name]) < Room(items, p)
            && i < |ChildrenAt(items, p, sep)|
            && ChildrenAt(items, p, sep)[i] == NodeAt(items, p + [name], sep)
  {
    ChildIsDeeper(items, p, nodes[p].childOrder[i]);
    ChildAtIndex(items, p, i, sep);
  }

  lemma SomeName<T>(m: map<string, T>, names: seq<string>)
    requires forall s :: s in m <==> s in names
    ensures |m| > 0 <==> names != []
  {
    if names != [] {
      assert names[0] in m;
    } else {
      assert m == map[];
    }
  }

  /** The client: the separator, and the cluster it talks to. */
  class ClientV3 {
    const separator: char
    var kvs: seq<Kv>
    var leases: map<int, int>

    constructor (separator: char)
      ensures this.separator == separator && kvs == [] && leases == map[]
    {
      this.separator := separator;
      kvs, leases := [], map[];
    }

    /** The tree below a key is the reference tree of the keys etcd returns for its prefix. */
    method GetTree(key: string, keysOnly: bool) returns (rootNode: Node)
      ensures rootNode == Tree(GetPrefix(kvs, if key == [separator] then "" else key), Query(key, separator, keysOnly, leases))
    {
      var q := Query(key, separator, keysOnly, leases);
      var resp := GetPrefix(kvs, if key == [separator] then "" else key);
      if |resp| == 0 {
        return Node(key, "", true, 0, 0, 0, 0, []);
      }
      var root := new NodeEntry(key);
      var prefixSegCount := 0;
      if key != [separator] && key != "" {
        prefixSegCount := CountSegments(key, separator);
      }
      ghost var nodes := InsertAll(root, resp, prefixSegCount, q);
      ghost var items := Items(resp, q);
      assert Linked(nodes, items, [], separator);
      var children := ConvertChildren(root, separator, nodes, items, []);
      rootNode := Node(key, "", true, 0, 0, 0, 0, children);
      if root.isRealKey {
        rootNode := rootNode.(value := root.value, ttl := root.ttl, createRevision := root.createRevision,
                              modRevision := root.modRevision, version := root.version);
      }
    }

    method GetPath(key: string) returns (node: Node)
      ensures node == Tree(GetPrefix(kvs, if key == [separator] then "" else key), Query(key, separator, false, leases))
    {
      node := GetTree(key, false);
    }

    method Keys() returns (node: Node)
      ensures node == Tree(GetPrefix(kvs, ""), Query([separator], separator, true, leases))
    {
      node := GetTree([separator], true);
    }

    /** Deletes a key and, for a directory, everything the prefix request reaches. */
    method Delete(key: string, dir: bool)
      modifies this`kvs
      ensures kvs == AfterDelete(old(kvs), key, dir, separator)
    {
      kvs := DeleteKey(kvs, key);
      if dir {
        var prefix := key + [separator];
        if key == [separator] {
          prefix := [separator];
        }
        kvs := DeletePrefix(kvs, prefix);
        DeleteTwice(old(kvs), key, prefix, separator);
      }
    }
  }

  method CountSegments(key: string, sep: char) returns (count: nat)
    ensures count == |Segments(key, sep)|
  {
    var parts := Split(key, sep);
    count := 0;
    for i := 0 to |parts|
      invariant count == |NonEmpty(parts[..i])|
    {
      assert parts[..i + 1] == parts[..i] + [parts[i]];
      NonEmptyConcat(parts[..i], [parts[i]]);
      if parts[i] != "" {
        count := count + 1;
      }
    }
    assert parts[..|parts|] == parts;
  }

  lemma BareGrows(items: seq<Item>, kv: Kv, q: Query)
    requires Bare(items, q) && StartsWith(kv.key, PrefixKey(q))
    ensures Bare(items + ItemsOf(kv, q), q)
  {
  }

  /** One round of the build: the key's entry is reached or made, and takes the key's data. */
  method InsertKey(root: NodeEntry, kv: Kv, prefixSegCount: nat, q: Query,
                   ghost nodes: map<Path, NodeEntry>, ghost items: seq<Item>)
    returns (ghost nodes': map<Path, NodeEntry>)
    requires [] in nodes && nodes[[]] == root && Represents(nodes, items, q.sep) && Bare(items, q)
    requires StartsWith(kv.key, PrefixKey(q)) && prefixSegCount == PrefixSegCount(q)
    modifies nodes.Values
    ensures [] in nodes' && nodes'[[]] == root && fresh(nodes'.Values - nodes.Values)
    ensures Represents(nodes', items + ItemsOf(kv, q), q.sep)
  {
    var segments := PathSegments(kv.key, q.sep);
    nodes' := nodes;
    if |segments| == 0 || kv.key == q.key {
      StartWalk(nodes, items, [], q.sep);
      MarkWalked(root, kv, q, nodes, items, [], []);
    } else {
      PrefixSegmentsInRange(kv.key, q);
      var relSegs := segments[prefixSegCount..];
      if |relSegs| > 0 {
        var current;
        current, nodes' := Walk(root, segments, prefixSegCount, q.sep, nodes, items);
        MarkWalked(current, kv, q, nodes', items, segments[..prefixSegCount], relSegs);
      } else {
        assert items + [] == items;
      }
    }
  }

  /** Inserts the answer key by key into a fresh root entry. */
  method InsertAll(root: NodeEntry, resp: seq<Kv>, prefixSegCount: nat, q: Query)
    returns (ghost nodes: map<Path, NodeEntry>)
    requires root.Holds(None) && root.children == map[] && root.childOrder == []
    requires Answers(resp, q) && prefixSegCount == PrefixSegCount(q)
    modifies root
    ensures [] in nodes && nodes[[]] == root && fresh(nodes.Values - {root})
    ensures Represents(nodes, Items(resp, q), q.sep)
  {
    nodes := map[[] := root];
    ghost var items: seq<Item> := [];
    for n := 0 to |resp|
      invariant fresh(nodes.Values - {root}) && [] in nodes && nodes[[]] == root
      invariant items == Items(resp[..n], q)
      invariant Represents(nodes, items, q.sep) && Bare(items, q)
    {
      assert resp[..n + 1][..n] == resp[..n];
      nodes := InsertKey(root, resp[n], prefixSegCount, q, nodes, items);
      BareGrows(items, resp[n], q);
      items := items + ItemsOf(resp[n], q);
    }
    assert resp[..|resp|] == resp;
  }
}
