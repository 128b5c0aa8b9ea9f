/** Two builds of the same keyspace compared: a subtree against the same place in the full tree,
    and a tree without values against the tree with them. */
module KeySubtree {
  import opened Options
  import opened KeyPath
  import opened KeyTree
  import opened EtcdStore
  import opened KeyTreeLaws

  // ------------------------------------------------------ subtree agreement

  /** A stored key is no stray for a query: if the query returns it and it has segments of its
      own, it lies under the query's path, and if it lies strictly under, the query returns it. */
  predicate InPlace(kv: Kv, q: Query) {
    var k, segs := Segments(q.key, q.sep), Segments(kv.key, q.sep);
    if StartsWith(kv.key, q.key) then |segs| > |k| ==> k <= segs else !(k < segs)
  }

  function FullQuery(q: Query): Query {
    q.(key := [q.sep])
  }

  /** The items of the full tree strictly below the query's path are described as the query's own. */
  ghost predicate Matches(full: seq<Item>, sub: seq<Item>, k: Path, p: Path) {
    && ChildNames(full, k + p) == ChildNames(sub, p)
    && (p != [] ==>
          && StampAt(full, k + p) == StampAt(sub, p)
          && FirstPre(full, k + p).Some? == FirstPre(sub, p).Some?
          && (FirstPre(sub, p).Some? ==> FirstPre(sub, p).value == k && FirstPre(full, k + p).value == []))
  }

  /** An item that is not strictly below k changes nothing there. */
  lemma OutsideChangesNothing(items: seq<Item>, x: Item, k: Path, p: Path)
    requires !(k < x.path)
    ensures ChildNames(items + [x], k + p) == ChildNames(items, k + p)
    ensures p != [] ==> StampAt(items + [x], k + p) == StampAt(items, k + p)
                        && FirstPre(items + [x], k + p) == FirstPre(items, k + p)
  {
    Snoc(items, x, k + p);
    if k + p <= x.path {
      assert k <= k + p;
      assert k <= x.path;
    }
  }

  lemma CutPrefix(k: Path, p: Path, segs: Path)
    requires k <= segs
    ensures segs[..|k|] == k
    ensures k + p <= segs <==> p <= segs[|k|..]
    ensures k + p < segs <==> p < segs[|k|..]
    ensures k + p == segs <==> p == segs[|k|..]
    ensures k + p < segs ==> segs[|k + p|] == segs[|k|..][|p|]
  {
    assert segs == k + segs[|k|..];
    assert k + p <= segs ==> segs[|k|..][..|p|] == p;
  }

  lemma InsideMatches(full: seq<Item>, sub: seq<Item>, k: Path, segs: Path, stamp: Option<Stamp>, p: Path)
    requires k <= segs && Matches(full, sub, k, p)
    ensures Matches(full + [Item([], segs, stamp)], sub + [Item(segs[..|k|], segs[|k|..], stamp)], k, p)
  {
    Snoc(full, Item([], segs, stamp), k + p);
    Snoc(sub, Item(segs[..|k|], segs[|k|..], stamp), p);
    CutPrefix(k, p, segs);
  }

  /** The query's answer to a keyspace of one more key. */
  function SubItems(sub: seq<Item>, kv: Kv, q: Query): seq<Item>
    requires q.key != [q.sep]
  {
    if StartsWith(kv.key, q.key) then sub + ItemsOf(kv, q) else sub
  }

  lemma MatchSnoc(full: seq<Item>, sub: seq<Item>, kv: Kv, q: Query, p: Path)
    requires q.key != [q.sep] && q.key != "" && InPlace(kv, q)
    requires Matches(full, sub, Segments(q.key, q.sep), p)
    ensures StartsWith(kv.key, PrefixKey(FullQuery(q)))
    ensures Matches(full + ItemsOf(kv, FullQuery(q)), SubItems(sub, kv, q), Segments(q.key, q.sep), p)
  {
    var k, segs, stamp := Segments(q.key, q.sep), Segments(kv.key, q.sep), Some(StampOf(kv, q));
    RootItem(kv, FullQuery(q));
    assert StampOf(kv, FullQuery(q)) == StampOf(kv, q);
    var x := Item([], segs, stamp);
    if !StartsWith(kv.key, q.key) {
      OutsideChangesNothing(full, x, k, p);
    } else if segs == [] || kv.key == q.key {
      OutsideChangesNothing(full, x, k, p);
      OutsideChangesNothing(sub, Item([], [], stamp), [], p);
      assert [] + p == p;
    } else if |segs| == |k| {
      OutsideChangesNothing(full, x, k, p);
      assert sub + [] == sub;
    } else {
      PrefixSegmentsInRange(kv.key, q);
      InsideMatches(full, sub, k, segs, stamp, p);
    }
  }

  lemma AnswerSnoc(kvs: seq<Kv>, kv: Kv, q: Query)
    requires q.key != [q.sep]
    ensures Answers(GetPrefix(kvs, q.key), q) && Answers(GetPrefix(kvs + [kv], q.key), q)
    ensures Items(GetPrefix(kvs + [kv], q.key), q) == SubItems(Items(GetPrefix(kvs, q.key), q), kv, q)
  {
    assert (kvs + [kv])[..|kvs|] == kvs;
    var returned := GetPrefix(kvs, q.key);
    assert (returned + [kv])[..|returned|] == returned;
    assert returned + [] == returned;
  }

  lemma {:induction false} AllMatch(kvs: seq<Kv>, q: Query, p: Path)
    requires q.key != [q.sep] && q.key != ""
    requires forall kv :: kv in kvs ==> InPlace(kv, q)
    ensures Answers(kvs, FullQuery(q)) && Answers(GetPrefix(kvs, q.key), q)
    ensures Matches(Items(kvs, FullQuery(q)), Items(GetPrefix(kvs, q.key), q), Segments(q.key, q.sep), p)
  {
    if kvs != [] {
      var init, last := kvs[..|kvs| - 1], kvs[|kvs| - 1];
      assert kvs == init + [last];
      AllMatch(init, q, p);
      AnswerSnoc(init, last, q);
      MatchSnoc(Items(init, FullQuery(q)), Items(GetPrefix(init, q.key), q), last, q, p);
    }
  }

  lemma NodeMatches(full: seq<Item>, sub: seq<Item>, k: Path, p: Path, sep: char)
    requires Matches(full, sub, k, p) && p != [] && Passes(sub, p)
    requires ChildrenAt(full, k + p, sep) == ChildrenAt(sub, p, sep)
    ensures NodeAt(full, k + p, sep) == NodeAt(sub, p, sep)
  {
    FirstPreWhenPassed(sub, p);
    assert [] + (k + p) == k + p;
  }

  /** Where the items match, so do the nodes, all the way down. */
  lemma {:induction false} NodesMatch(full: seq<Item>, sub: seq<Item>, k: Path, p: Path, sep: char)
    requires forall r :: Matches(full, sub, k, r)
    ensures ChildrenAt(full, k + p, sep) == ChildrenAt(sub, p, sep)
    decreases Room(sub, p)
  {
    assert Matches(full, sub, k, p);
    var names := ChildNames(sub, p);
    forall i | 0 <= i < |names|
      ensures NodeAt(full, k + p + [names[i]], sep) == NodeAt(sub, p + [names[i]], sep)
    {
      var next := p + [names[i]];
      ChildIsDeeper(sub, p, names[i]);
      NodesMatch(full, sub, k, next, sep);
      assert Matches(full, sub, k, next);
      ChildNamesArePassed(sub, p, names[i]);
      NodeMatches(full, sub, k, next, sep);
      assert k + p + [names[i]] == k + next;
    }
    NodesAtIndex(full, k + p, names, sep);
    NodesAtIndex(sub, p, names, sep);
  }

  /** Asking for a path gives, node for node and in order, the children of the node found at that
      path in the full tree, when no stored key is a stray for the query. */
  lemma SubtreeAgrees(kvs: seq<Kv>, q: Query)
    requires q.key != "" && q.key != [q.sep] && Segments(q.key, q.sep) != []
    requires forall kv :: kv in kvs ==> InPlace(kv, q)
    ensures Answers(kvs, FullQuery(q)) && Answers(GetPrefix(kvs, q.key), q)
    ensures var found := Find(Tree(kvs, FullQuery(q)).nodes, [], Segments(q.key, q.sep), q.sep);
            Tree(GetPrefix(kvs, q.key), q).nodes == if found.Some? then found.value.nodes else []
  {
    var k, full, none: Path := Segments(q.key, q.sep), FullQuery(q), [];
    forall p ensures Matches(Items(kvs, full), Items(GetPrefix(kvs, q.key), q), k, p) {
      AllMatch(kvs, q, p);
    }
    AllMatch(kvs, q, none);
    RootItems(kvs, full);
    var items, sub := Items(kvs, full), Items(GetPrefix(kvs, q.key), q);
    NodesMatch(items, sub, k, none, q.sep);
    FindReaches(items, none, none, k, q.sep);
    assert none + k == k && k + none == k && none + none == none;
    if !Passes(items, k) && ChildNames(items, k) != [] {
      var s := ChildNames(items, k)[0];
      ChildNamesArePassed(items, k, s);
      PassesShorter(items, k, s);
    }
  }

  lemma PassesShorter(items: seq<Item>, p: Path, s: string)
    requires Passes(items, p + [s])
    ensures Passes(items, p)
  {
    var i :| 0 <= i < |items| && p + [s] <= items[i].path;
    assert p <= p + [s];
    assert p <= items[i].path;
  }

  /** For a canonical key the hypothesis is about string prefixes alone: every returned key with
      more segments than the query is below key + separator. */
  lemma InPlaceForCanonical(kv: Kv, q: Query)
    requires Canonical(q.key, q.sep) && Canonical(kv.key, q.sep)
    ensures InPlace(kv, q) <==>
              (StartsWith(kv.key, q.key) && |Segments(kv.key, q.sep)| > |Segments(q.key, q.sep)|
               ==> UnderKey(q.key, kv.key, q.sep))
  {
    UnderKeyIsPathPrefix(q.key, kv.key, q.sep);
    SplitEmpty(q.sep);
    if q.key == [q.sep] {
      SegmentsAcrossSep("", "", q.sep);
      CanonicalIsRender(q.key, q.sep);
    }
    if Segments(q.key, q.sep) <= Segments(kv.key, q.sep) {
      assert StartsWith(kv.key, q.key);
    }
  }

  /** Asked with a trailing separator, a path never picks up a stray: the query's answer agrees
      with the full tree on every canonical keyspace. */
  lemma SubtreeWithTrailingSeparatorAgrees(kvs: seq<Kv>, q: Query, key: string)
    requires Canonical(key, q.sep) && q.key == key + [q.sep]
    requires CanonicalKeys(kvs, q.sep)
    ensures Answers(kvs, FullQuery(q)) && Answers(GetPrefix(kvs, q.key), q)
    ensures var found := Find(Tree(kvs, FullQuery(q)).nodes, [], Segments(key, q.sep), q.sep);
            Tree(GetPrefix(kvs, q.key), q).nodes == if found.Some? then found.value.nodes else []
  {
    SplitEmpty(q.sep);
    SegmentsAcrossSep(key, "", q.sep);
    assert key + [q.sep] + "" == q.key;
    assert Segments(key, q.sep) + [] == Segments(key, q.sep);
    CanonicalIsRender(key, q.sep);
    SegmentsAcrossSep("", "", q.sep);
    assert "" + [q.sep] + "" == [q.sep];
    forall kv | kv in kvs ensures InPlace(kv, q) {
      UnderKeyIsPathPrefix(key, kv.key, q.sep);
    }
    SubtreeAgrees(kvs, q);
  }

  lemma OneItemOneChild(x: Item, sep: char)
    requires x.path != []
    ensures |ChildrenAt([x], [], sep)| == 1
  {
    var none: Path := [];
    Snoc([], x, none);
    assert [] + [x] == [x];
    assert none < x.path;
  }

  lemma RenderTwo(a: string, b: string, sep: char)
    ensures Render([a], sep) == [sep] + a && Render([a, b], sep) == [sep] + a + ([sep] + b)
  {
    assert [a, b][1..] == [b] && [b][1..] == [] && [a][1..] == [];
    assert Render([b], sep) == [sep] + b + "";
  }

  lemma StrayPaths()
    ensures Segments("/app2/x", '/') == ["app2", "x"] && Segments("/app", '/') == ["app"]
    ensures StartsWith("/app2/x", "/app")
  {
    RenderTwo("app2", "x", '/');
    RenderTwo("app", "x", '/');
    assert ['/'] + "app2" + (['/'] + "x") == "/app2/x" && ['/'] + "app" == "/app";
    SegmentsOfRender(["app2", "x"], '/');
    SegmentsOfRender(["app"], '/');
    assert "/app2/x"[..4] == "/app";
  }

  /** Without that hypothesis the agreement fails: /app2/x is returned for /app and shown below it,
      while the full tree has nothing at /app. */
  lemma StrayIsSwallowed(value: string)
    ensures var kvs, q := [Kv("/app2/x", value, 0, 1, 1, 1)], Query("/app", '/', false, map[]);
            && Answers(kvs, FullQuery(q)) && Answers(GetPrefix(kvs, q.key), q)
            && Find(Tree(kvs, FullQuery(q)).nodes, [], Segments(q.key, q.sep), q.sep) == None
            && |Tree(GetPrefix(kvs, q.key), q).nodes| == 1
  {
    var kv, q := Kv("/app2/x", value, 0, 1, 1, 1), Query("/app", '/', false, map[]);
    StrayPaths();
    TreeAgreesWithStore([kv], FullQuery(q), ["app"]);
    assert !(["app"] <= ["app2", "x"]);
    AnswerSnoc([], kv, q);
    assert [] + [kv] == [kv];
    OneItemOneChild(ItemsOf(kv, q)[0], '/');
    assert [] + ItemsOf(kv, q) == [ItemsOf(kv, q)[0]];
  }

  /** The query returns the key and shows it below its own. */
  predicate IsReturned(kv: Kv, q: Query) {
    StartsWith(kv.key, q.key) && |Segments(kv.key, q.sep)| > |Segments(q.key, q.sep)|
  }

  /** The query shows the key at or below a relative path. */
  predicate ShowsAt(kv: Kv, q: Query, r: Path) {
    IsReturned(kv, q) && r <= Segments(kv.key, q.sep)[|Segments(q.key, q.sep)|..]
  }

  lemma ShowsItsItem(kv: Kv, q: Query, r: Path)
    requires Canonical(q.key, q.sep) && Canonical(kv.key, q.sep) && r != []
    requires StartsWith(kv.key, q.key)
    ensures ShowsAt(kv, q, r) <==> ItemsOf(kv, q) != [] && r <= ItemsOf(kv, q)[0].path
    ensures |ItemsOf(kv, q)| <= 1
  {
    CanonicalIsRender(q.key, q.sep);
    CanonicalIsRender(kv.key, q.sep);
    SegmentsOfSep(q.(key := [q.sep]));
    PrefixSegmentsInRange(kv.key, q);
  }

  lemma {:induction false} PassesReturned(returned: seq<Kv>, q: Query, r: Path)
    requires Canonical(q.key, q.sep) && CanonicalKeys(returned, q.sep) && r != []
    requires forall i :: 0 <= i < |returned| ==> StartsWith(returned[i].key, q.key)
    ensures Answers(returned, q)
    ensures Passes(Items(returned, q), r) <==> exists kv :: kv in returned && ShowsAt(kv, q, r)
  {
    CanonicalIsRender(q.key, q.sep);
    SegmentsOfSep(q.(key := [q.sep]));
    if returned != [] {
      var init, last := returned[..|returned| - 1], returned[|returned| - 1];
      assert returned == init + [last];
      PassesReturned(init, q, r);
      ShowsItsItem(last, q, r);
      if ItemsOf(last, q) != [] {
        PassesSnoc(Items(init, q), ItemsOf(last, q)[0], r);
      } else {
        assert Items(init, q) + [] == Items(init, q);
      }
      assert last in returned && forall kv :: kv in init ==> kv in returned;
    }
  }

  lemma PassesAnswer(kvs: seq<Kv>, q: Query, r: Path)
    requires Canonical(q.key, q.sep) && CanonicalKeys(kvs, q.sep) && r != []
    ensures Answers(GetPrefix(kvs, q.key), q)
    ensures Passes(Items(GetPrefix(kvs, q.key), q), r) <==> exists kv :: kv in kvs && ShowsAt(kv, q, r)
  {
    var returned := GetPrefix(kvs, q.key);
    forall i | 0 <= i < |returned| ensures Canonical(returned[i].key, q.sep) {
      assert returned[i] in returned;
    }
    PassesReturned(returned, q, r);
    assert forall kv :: kv in returned && ShowsAt(kv, q, r) ==> kv in kvs;
    assert forall kv :: kv in kvs && ShowsAt(kv, q, r) ==> kv in returned;
  }

  /** Stored keys below the query's path are shown where the full tree has them. */
  lemma StoredIsShown(kvs: seq<Kv>, q: Query, r: Path)
    requires Canonical(q.key, q.sep) && CanonicalKeys(kvs, q.sep) && r != []
    requires AnyBelow(kvs, Segments(q.key, q.sep) + r, q.sep)
    ensures exists kv :: kv in kvs && ShowsAt(kv, q, r)
  {
    var k := Segments(q.key, q.sep);
    var j :| 0 <= j < |kvs| && k + r <= Segments(kvs[j].key, q.sep);
    var segs := Segments(kvs[j].key, q.sep);
    assert k <= k + r;
    CutPrefix(k, r, segs);
    CanonicalIsRender(q.key, q.sep);
    CanonicalIsRender(kvs[j].key, q.sep);
    assert segs == k + segs[|k|..];
    RenderConcat(k, segs[|k|..], q.sep);
    assert kvs[j] in kvs && ShowsAt(kvs[j], q, r);
  }

  lemma ShownIsStored(kvs: seq<Kv>, q: Query, kv: Kv, r: Path)
    requires ShowsAt(kv, q, r)
    requires AnyBelow(kvs, Segments(q.key, q.sep) + Segments(kv.key, q.sep)[|Segments(q.key, q.sep)|..], q.sep)
    ensures AnyBelow(kvs, Segments(q.key, q.sep) + r, q.sep)
  {
    var k := Segments(q.key, q.sep);
    var rel := Segments(kv.key, q.sep)[|k|..];
    assert k + r <= k + rel by {
      assert rel == r + rel[|r|..];
      assert k + rel == k + r + rel[|r|..];
    }
    var j :| 0 <= j < |kvs| && k + rel <= Segments(kvs[j].key, q.sep);
    assert k + r <= Segments(kvs[j].key, q.sep);
  }

  /** Which paths a query shows below its key: exactly those of the full tree if and only if each
      returned key with segments of its own has its relative path stored under the query as well. */
  lemma SubtreePathsAgreeExactly(kvs: seq<Kv>, q: Query)
    requires Canonical(q.key, q.sep) && CanonicalKeys(kvs, q.sep)
    ensures Answers(GetPrefix(kvs, q.key), q)
    ensures var k, sub := Segments(q.key, q.sep), Items(GetPrefix(kvs, q.key), q);
            (forall r :: r != [] ==> (Passes(sub, r) <==> AnyBelow(kvs, k + r, q.sep)))
            <==> (forall kv :: kv in kvs && IsReturned(kv, q) ==> AnyBelow(kvs, k + Segments(kv.key, q.sep)[|k|..], q.sep))
  {
    var k := Segments(q.key, q.sep);
    PassesAnswer(kvs, q, ["any"]);
    var sub := Items(GetPrefix(kvs, q.key), q);
    if forall kv :: kv in kvs && IsReturned(kv, q) ==> AnyBelow(kvs, k + Segments(kv.key, q.sep)[|k|..], q.sep) {
      forall r | r != [] ensures Passes(sub, r) <==> AnyBelow(kvs, k + r, q.sep) {
        PassesAnswer(kvs, q, r);
        if Passes(sub, r) {
          var kv :| kv in kvs && ShowsAt(kv, q, r);
          ShownIsStored(kvs, q, kv, r);
        } else if AnyBelow(kvs, k + r, q.sep) {
          StoredIsShown(kvs, q, r);
        }
      }
    }
    if forall r :: r != [] ==> (Passes(sub, r) <==> AnyBelow(kvs, k + r, q.sep)) {
      forall kv | kv in kvs && IsReturned(kv, q)
        ensures AnyBelow(kvs, k + Segments(kv.key, q.sep)[|k|..], q.sep)
      {
        var r := Segments(kv.key, q.sep)[|k|..];
        PassesAnswer(kvs, q, r);
        assert ShowsAt(kv, q, r);
        assert Passes(sub, r);
      }
    }
  }

  // --------------------------------------------------------- value erasure

  /** A node with every value and TTL below it blanked. */
  function Blank(node: Node): Node
    decreases node
  {
    node.(value := "", ttl := 0, nodes := BlankAll(node.nodes))
  }

  function BlankAll(nodes: seq<Node>): (r: seq<Node>)
    ensures |r| == |nodes|
    decreases nodes
  {
    if nodes == [] then [] else [Blank(nodes[0])] + BlankAll(nodes[1..])
  }

  lemma {:induction false} BlankAllIndex(nodes: seq<Node>)
    ensures forall i :: 0 <= i < |nodes| ==> BlankAll(nodes)[i] == Blank(nodes[i])
  {
    if nodes != [] {
      BlankAllIndex(nodes[1..]);
    }
  }

  function BlankStamp(stamp: Option<Stamp>): Option<Stamp> {
    if stamp.None? then None else Some(stamp.value.(value := "", ttl := 0))
  }

  /** Two lists of items that differ in values and TTLs only. */
  ghost predicate ErasedAt(items: seq<Item>, bare: seq<Item>, p: Path) {
    && ChildNames(bare, p) == ChildNames(items, p)
    && FirstPre(bare, p) == FirstPre(items, p)
    && StampAt(bare, p) == BlankStamp(StampAt(items, p))
  }

  lemma ErasedSnoc(items: seq<Item>, bare: seq<Item>, x: Item, p: Path)
    requires ErasedAt(items, bare, p)
    ensures ErasedAt(items + [x], bare + [x.(stamp := BlankStamp(x.stamp))], p)
  {
    Snoc(items, x, p);
    Snoc(bare, x.(stamp := BlankStamp(x.stamp)), p);
  }

  lemma ItemErased(kv: Kv, q: Query)
    requires StartsWith(kv.key, PrefixKey(q)) && !q.keysOnly
    ensures var x, y := ItemsOf(kv, q), ItemsOf(kv, q.(keysOnly := true));
            if x == [] then y == [] else |x| == 1 && y == [x[0].(stamp := BlankStamp(x[0].stamp))]
  {
  }

  lemma {:induction false} ItemsErased(kvs: seq<Kv>, q: Query, p: Path)
    requires Answers(kvs, q) && !q.keysOnly
    ensures Answers(kvs, q.(keysOnly := true))
    ensures ErasedAt(Items(kvs, q), Items(kvs, q.(keysOnly := true)), p)
  {
    if kvs != [] {
      var erased, init, last := q.(keysOnly := true), kvs[..|kvs| - 1], kvs[|kvs| - 1];
      ItemsErased(init, q, p);
      ItemErased(last, q);
      if ItemsOf(last, q) != [] {
        ErasedSnoc(Items(init, q), Items(init, erased), ItemsOf(last, q)[0], p);
        assert ItemsOf(last, q) == [ItemsOf(last, q)[0]];
      } else {
        assert Items(init, q) + [] == Items(init, q) && Items(init, erased) + [] == Items(init, erased);
      }
    }
  }

  lemma NodeErased(items: seq<Item>, bare: seq<Item>, p: Path, sep: char)
    requires ErasedAt(items, bare, p) && ChildrenAt(bare, p, sep) == BlankAll(ChildrenAt(items, p, sep))
    ensures NodeAt(bare, p, sep) == Blank(NodeAt(items, p, sep))
  {
  }

  lemma {:induction false} NodesErased(kvs: seq<Kv>, q: Query, p: Path)
    requires Answers(kvs, q) && !q.keysOnly
    ensures Answers(kvs, q.(keysOnly := true))
    ensures ChildrenAt(Items(kvs, q.(keysOnly := true)), p, q.sep) == BlankAll(ChildrenAt(Items(kvs, q), p, q.sep))
    decreases Room(Items(kvs, q), p)
  {
    ItemsErased(kvs, q, p);
    var items, bare := Items(kvs, q), Items(kvs, q.(keysOnly := true));
    var names := ChildNames(items, p);
    NodesAtIndex(items, p, names, q.sep);
    NodesAtIndex(bare, p, names, q.sep);
    BlankAllIndex(ChildrenAt(items, p, q.sep));
    forall i | 0 <= i < |names|
      ensures NodeAt(bare, p + [names[i]], q.sep) == Blank(NodeAt(items, p + [names[i]], q.sep))
    {
      ChildIsDeeper(items, p, names[i]);
      NodesErased(kvs, q, p + [names[i]]);
      ItemsErased(kvs, q, p + [names[i]]);
      NodeErased(items, bare, p + [names[i]], q.sep);
    }
  }

  /** Building without values is building with them and then blanking every value and TTL. */
  lemma KeysOnlyIsErasure(kvs: seq<Kv>, q: Query)
    requires Answers(kvs, q) && !q.keysOnly
    ensures Answers(kvs, q.(keysOnly := true))
    ensures Tree(kvs, q.(keysOnly := true)) == Blank(Tree(kvs, q))
  {
    NodesErased(kvs, q, []);
    ItemsErased(kvs, q, []);
  }
}
