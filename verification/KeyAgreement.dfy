/** When a path's answer agrees with the full tree, decided exactly: every stray must be overwritten
    by keys that do lie under the path. */
module KeyAgreement {
  import opened Options
  import opened KeyPath
  import opened KeyTree
  import opened EtcdStore
  import opened KeyTreeLaws
  import opened KeySubtree
  import opened KeyStrays
  import opened KeyData

  // ------------------------------------------------------- keys under a path

  /** The node and all below it have keys at or below the path. */
  predicate Under(node: Node, k: Path, sep: char)
    decreases node
  {
    k <= Segments(node.key, sep) && forall i :: 0 <= i < |node.nodes| ==> Under(node.nodes[i], k, sep)
  }

  predicate AllUnder(nodes: seq<Node>, k: Path, sep: char) {
    forall i :: 0 <= i < |nodes| ==> Under(nodes[i], k, sep)
  }

  /** Items of one query path only give nodes under it. */
  lemma {:induction false} OwnUnder(own: seq<Item>, k: Path, p: Path, sep: char)
    requires Uniform(own, k, sep)
    ensures AllUnder(ChildrenAt(own, p, sep), k, sep)
    decreases Room(own, p)
  {
    var names := ChildNames(own, p);
    NodesAtIndex(own, p, names, sep);
    forall i | 0 <= i < |names| ensures Under(ChildrenAt(own, p, sep)[i], k, sep) {
      ChildIsDeeper(own, p, names[i]);
      ChildNamesArePassed(own, p, names[i]);
      NodeKeyIsPath(own, k, p + [names[i]], sep);
      OwnUnder(own, k, p + [names[i]], sep);
    }
  }

  /** Where all nodes are under a path, so is the one shown at any relative path. */
  lemma {:induction false} ShownUnder(items: seq<Item>, k: Path, p: Path, r: Path, sep: char)
    requires AllUnder(ChildrenAt(items, p, sep), k, sep) && p < r && Passes(items, r)
    ensures k <= Segments(NodeKey(items, r, sep), sep)
    decreases |r| - |p|
  {
    var next := r[..|p| + 1];
    assert next == p + [r[|p|]];
    var j :| 0 <= j < |items| && r <= items[j].path;
    assert next <= items[j].path;
    ChildNamesArePassed(items, p, r[|p|]);
    var i :| 0 <= i < |ChildNames(items, p)| && ChildNames(items, p)[i] == r[|p|];
    ChildAtIndex(items, p, i, sep);
    assert Under(ChildrenAt(items, p, sep)[i], k, sep);
    if next != r {
      ShownUnder(items, k, next, r, sep);
    }
  }

  // ------------------------------------------------- agreement hides strays

  /** The data at a path is that of a key which is not under the query. */
  ghost predicate HasForeignData(items: seq<Item>, rel: Path, q: Query) {
    var stamp := StampAt(items, rel);
    stamp.Some? && stamp.value.realKey != "" && !(Segments(q.key, q.sep) <= Segments(stamp.value.realKey, q.sep))
  }

  lemma ForeignDataStays(items: seq<Item>, kv: Kv, rel: Path, q: Query)
    requires Canonical(q.key, q.sep) && Canonical(kv.key, q.sep) && q.key != [q.sep] && rel != []
    requires HasForeignData(items, rel, q) && (IsReturned(kv, q) ==> IsStray(kv, q))
    ensures HasForeignData(SubItems(items, kv, q), rel, q)
  {
    if IsReturned(kv, q) {
      StrayOrUnder(kv, q);
      Snoc(items, ItemsOf(kv, q)[0], rel);
      assert ItemsOf(kv, q) == [ItemsOf(kv, q)[0]];
    } else if StartsWith(kv.key, q.key) {
      NotShown(kv, q);
      if ItemsOf(kv, q) == [] {
        assert items + [] == items;
      } else {
        Snoc(items, ItemsOf(kv, q)[0], rel);
      }
    }
  }

  lemma ForeignDataArrives(items: seq<Item>, h: Kv, q: Query)
    requires Canonical(q.key, q.sep) && Canonical(h.key, q.sep) && q.key != [q.sep] && IsStray(h, q)
    ensures HasForeignData(SubItems(items, h, q), Segments(h.key, q.sep)[|Segments(q.key, q.sep)|..], q)
  {
    CanonicalQuery(q);
    StrayOrUnder(h, q);
    Snoc(items, ItemsOf(h, q)[0], ItemsOf(h, q)[0].path);
    assert ItemsOf(h, q) == [ItemsOf(h, q)[0]];
  }

  /** A stray behind the keys under the query keeps its data at its node, or passes it to another such stray. */
  lemma {:induction false} LateStrayStays(kvs: seq<Kv>, q: Query, h: Kv)
    requires Canonical(q.key, q.sep) && ValidStore(kvs) && CanonicalKeys(kvs, q.sep)
    requires h in kvs && IsStray(h, q) && !Early(h, q)
    ensures HasForeignData(Items(GetPrefix(kvs, q.key), q), Segments(h.key, q.sep)[|Segments(q.key, q.sep)|..], q)
  {
    var init, last := kvs[..|kvs| - 1], kvs[|kvs| - 1];
    CanonicalQuery(q);
    StoreInit(kvs);
    AnswerSnoc(init, last, q);
    var before := Items(GetPrefix(init, q.key), q);
    if h in init {
      LateStrayStays(init, q, h);
      if IsReturned(last, q) {
        StrayBehind(h, last, q);
      }
      ForeignDataStays(before, last, Segments(h.key, q.sep)[|Segments(q.key, q.sep)|..], q);
    } else {
      ForeignDataArrives(before, h, q);
    }
  }

  lemma StrayBehind(h: Kv, last: Kv, q: Query)
    requires Canonical(q.key, q.sep) && Canonical(h.key, q.sep) && Canonical(last.key, q.sep)
    requires IsStray(h, q) && !Early(h, q) && IsReturned(last, q) && Before(h.key, last.key)
    ensures IsStray(last, q)
  {
    StrayOrUnder(h, q);
    StrayOrUnder(last, q);
    if StartsWith(last.key, q.key + [q.sep]) {
      BehindPrefix(q.key + [q.sep], h.key, last.key);
      BeforeTransitive(h.key, last.key, h.key);
      BeforeIsStrict(h.key);
    }
  }

  lemma UniformSnoc(items: seq<Item>, kv: Kv, q: Query)
    requires Canonical(q.key, q.sep) && Canonical(kv.key, q.sep) && q.key != [q.sep] && !IsStray(kv, q)
    requires Uniform(items, Segments(q.key, q.sep), q.sep)
    ensures Uniform(SubItems(items, kv, q), Segments(q.key, q.sep), q.sep)
  {
    if IsReturned(kv, q) {
      StrayOrUnder(kv, q);
      CanonicalQuery(q);
      var segs, n := Segments(kv.key, q.sep), |Segments(q.key, q.sep)|;
      SegmentsArePath(kv.key, q.sep);
      assert segs == segs[..n] + segs[n..];
    } else if StartsWith(kv.key, q.key) {
      NotShown(kv, q);
    }
  }

  lemma {:induction false} OwnIsUniform(kvs: seq<Kv>, q: Query)
    requires Canonical(q.key, q.sep) && CanonicalKeys(kvs, q.sep)
    ensures q.key != [q.sep] && Uniform(OwnItems(kvs, q), Segments(q.key, q.sep), q.sep)
  {
    CanonicalQuery(q);
    SegmentsArePath(q.key, q.sep);
    if kvs != [] {
      var init, last := kvs[..|kvs| - 1], kvs[|kvs| - 1];
      assert kvs == init + [last];
      OwnIsUniform(init, q);
      PartsSnoc(init, last, q);
      if !IsStray(last, q) {
        UniformSnoc(OwnItems(init, q), last, q);
      }
    }
  }

  /** Strays bring other query segments than the query's own. */
  ghost predicate Foreign(items: seq<Item>, k: Path) {
    forall i :: 0 <= i < |items| ==> items[i].path != [] && items[i].pre != k
  }

  lemma ForeignSnoc(items: seq<Item>, kv: Kv, q: Query)
    requires Canonical(q.key, q.sep) && Canonical(kv.key, q.sep) && IsStray(kv, q)
    requires Foreign(items, Segments(q.key, q.sep))
    ensures StartsWith(kv.key, PrefixKey(q)) && Foreign(items + ItemsOf(kv, q), Segments(q.key, q.sep))
  {
    CanonicalQuery(q);
    StrayOrUnder(kv, q);
    var k, segs := Segments(q.key, q.sep), Segments(kv.key, q.sep);
    assert segs[..|k|] <= segs;
  }

  lemma {:induction false} StraysAreForeign(kvs: seq<Kv>, q: Query)
    requires Canonical(q.key, q.sep) && CanonicalKeys(kvs, q.sep)
    ensures q.key != [q.sep] && Foreign(StrayItems(kvs, q), Segments(q.key, q.sep))
  {
    CanonicalQuery(q);
    if kvs != [] {
      var init, last := kvs[..|kvs| - 1], kvs[|kvs| - 1];
      assert kvs == init + [last];
      StraysAreForeign(init, q);
      PartsSnoc(init, last, q);
      if IsStray(last, q) {
        ForeignSnoc(StrayItems(init, q), last, q);
      }
    }
  }

  /** In an answer that agrees, no stray comes late. */
  lemma AgreementHasNoLateStray(kvs: seq<Kv>, q: Query, h: Kv)
    requires Canonical(q.key, q.sep) && ValidStore(kvs) && CanonicalKeys(kvs, q.sep)
    requires AllUnder(ChildrenAt(Items(GetPrefix(kvs, q.key), q), [], q.sep), Segments(q.key, q.sep), q.sep)
    requires h in kvs && IsStray(h, q)
    ensures Early(h, q)
  {
    if !Early(h, q) {
      var all, rel := Items(GetPrefix(kvs, q.key), q), Segments(h.key, q.sep)[|Segments(q.key, q.sep)|..];
      LateStrayStays(kvs, q, h);
      var i := StampFrom(all, rel);
      assert Passes(all, rel);
      ShownUnder(all, Segments(q.key, q.sep), [], rel, q.sep);
    }
  }

  /** In an answer that agrees, every node a stray passes is a stored key's. */
  lemma AgreementCovers(all: seq<Item>, strays: seq<Item>, own: seq<Item>, k: Path, r: Path, sep: char)
    requires AllUnder(ChildrenAt(all, [], sep), k, sep) && Combined(all, strays, own, r)
    requires Honest(strays, |k|, sep) && Foreign(strays, k) && r != [] && Passes(strays, r)
    ensures StampAt(own, r).Some?
  {
    FirstPreWhenPassed(strays, r);
    FirstPreWhenPassed(all, r);
    ShownUnder(all, k, [], r, sep);
    var i := KeyFrom(strays, |k|, r, sep);
    assert (strays[i].pre + r)[..|k|] == strays[i].pre;
    assert StampAt(own, r).None? ==> NodeKey(all, r, sep) == NodeKey(strays, r, sep);
  }

  /** The nodes of two answers agree only if their names do. */
  lemma NamesFromNodes(all: seq<Item>, own: seq<Item>, n: nat, p: Path, sep: char)
    requires Honest(all, n, sep) && Honest(own, n, sep) && ChildrenAt(all, p, sep) == ChildrenAt(own, p, sep)
    ensures ChildNames(all, p) == ChildNames(own, p)
  {
    var a, b := ChildNames(all, p), ChildNames(own, p);
    assert |a| == |ChildrenAt(all, p, sep)| == |b|;
    forall i | 0 <= i < |a| ensures a[i] == b[i] {
      ChildAtIndex(all, p, i, sep);
      ChildAtIndex(own, p, i, sep);
      ChildNamesArePassed(all, p, a[i]);
      ChildNamesArePassed(own, p, b[i]);
      var x := KeyFrom(all, n, p + [a[i]], sep);
      var y := KeyFrom(own, n, p + [b[i]], sep);
      assert (all[x].pre + (p + [a[i]]))[n + |p|] == a[i];
      assert (own[y].pre + (p + [b[i]]))[n + |p|] == b[i];
    }
  }

  /** Answers that agree at the top have the same names everywhere. */
  lemma {:induction false} NamesAgree(all: seq<Item>, own: seq<Item>, n: nat, p: Path, sep: char)
    requires Honest(all, n, sep) && Honest(own, n, sep) && ChildrenAt(all, [], sep) == ChildrenAt(own, [], sep)
    ensures ChildrenAt(all, p, sep) == ChildrenAt(own, p, sep) && ChildNames(all, p) == ChildNames(own, p)
    decreases |p|
  {
    if p != [] {
      var init, s := p[..|p| - 1], p[|p| - 1];
      assert p == init + [s];
      NamesAgree(all, own, n, init, sep);
      ChildNamesArePassed(all, init, s);
      ChildNamesArePassed(own, init, s);
      if Passes(all, p) {
        var i :| 0 <= i < |ChildNames(all, init)| && ChildNames(all, init)[i] == s;
        ChildAtIndex(all, init, i, sep);
        ChildAtIndex(own, init, i, sep);
        assert NodeAt(all, p, sep).nodes == NodeAt(own, p, sep).nodes;
      } else {
        NothingBelow(all, p);
        NothingBelow(own, p);
      }
    }
    NamesFromNodes(all, own, n, p, sep);
  }

  // --------------------------------------------- hidden strays leave no trace

  lemma NodeUnchanged(all: seq<Item>, strays: seq<Item>, own: seq<Item>, k: Path, p: Path, sep: char)
    requires Combined(all, strays, own, p) && p != [] && Uniform(own, k, sep)
    requires Passes(strays, p) ==> StampAt(own, p).Some?
    requires ChildNames(all, p) == ChildNames(own, p) && ChildrenAt(all, p, sep) == ChildrenAt(own, p, sep)
    ensures NodeAt(all, p, sep) == NodeAt(own, p, sep)
  {
    SplitEmpty(sep);
    StampIsInPlace(own, k, p, sep);
    FirstPreWhenPassed(strays, p);
    if !Passes(strays, p) {
      NothingBelow(strays, p);
    }
  }

  lemma {:induction false} NodesUnchanged(all: seq<Item>, strays: seq<Item>, own: seq<Item>, k: Path, p: Path, sep: char)
    requires forall r :: Combined(all, strays, own, r)
    requires forall r :: r != [] && Passes(strays, r) ==> StampAt(own, r).Some?
    requires forall r :: ChildNames(strays, r) <= ChildNames(own, r)
    requires Uniform(own, k, sep)
    ensures ChildrenAt(all, p, sep) == ChildrenAt(own, p, sep) && ChildNames(all, p) == ChildNames(own, p)
    decreases Room(own, p)
  {
    var names := ChildNames(own, p);
    assert Combined(all, strays, own, p);
    ChildNamesDistinct(own, p);
    ExtendByLonger(ChildNames(strays, p), names);
    forall i | 0 <= i < |names|
      ensures NodeAt(all, p + [names[i]], sep) == NodeAt(own, p + [names[i]], sep)
    {
      var next := p + [names[i]];
      ChildIsDeeper(own, p, names[i]);
      NodesUnchanged(all, strays, own, k, next, sep);
      assert Combined(all, strays, own, next);
      NodeUnchanged(all, strays, own, k, next, sep);
    }
    NodesAtIndex(all, p, names, sep);
    NodesAtIndex(own, p, names, sep);
  }

  // ------------------------------------------------------------ exactly when

  /** Every node the strays pass is one of a stored key under the query. */
  ghost predicate Overwritten(kvs: seq<Kv>, q: Query)
    requires q.key != [q.sep]
  {
    forall r :: r != [] && Passes(StrayItems(kvs, q), r) ==> StampAt(OwnItems(kvs, q), r).Some?
  }

  lemma CoveredIsStored(kvs: seq<Kv>, kv: Kv, q: Query, r: Path)
    requires IsReturned(kv, q) && Covered(kvs, kv, q) && r != [] && ShowsAt(kv, q, r)
    ensures StoredAt(kvs, Segments(q.key, q.sep) + r, q.sep)
  {
    var n, segs := |Segments(q.key, q.sep)|, Segments(kv.key, q.sep);
    assert r == segs[n..n + |r|];
  }

  lemma CoveredIsOverwritten(kvs: seq<Kv>, q: Query)
    requires Canonical(q.key, q.sep) && CanonicalKeys(kvs, q.sep) && q.key != [q.sep]
    requires forall kv :: kv in kvs && IsStray(kv, q) ==> Covered(kvs, kv, q)
    ensures Overwritten(kvs, q)
  {
    forall r | r != [] && Passes(StrayItems(kvs, q), r) ensures StampAt(OwnItems(kvs, q), r).Some? {
      StraysPass(kvs, q, r);
      OwnStampIffStored(kvs, q, r);
      var kv :| kv in Strays(kvs, q) && ShowsAt(kv, q, r);
      CoveredIsStored(kvs, kv, q, r);
    }
  }

  lemma OverwrittenIsCovered(kvs: seq<Kv>, q: Query, kv: Kv)
    requires Canonical(q.key, q.sep) && CanonicalKeys(kvs, q.sep) && q.key != [q.sep]
    requires Overwritten(kvs, q) && kv in kvs && IsStray(kv, q)
    ensures Covered(kvs, kv, q)
  {
    var k, n, segs := Segments(q.key, q.sep), |Segments(q.key, q.sep)|, Segments(kv.key, q.sep);
    forall m | n < m <= |segs| ensures StoredAt(kvs, k + segs[n..m], q.sep) {
      var r := segs[n..m];
      assert r == segs[n..][..m - n];
      StrayAmong(kvs, kv, q);
      StraysPass(kvs, q, r);
      OwnStampIffStored(kvs, q, r);
    }
  }

  lemma StrayAmong(kvs: seq<Kv>, kv: Kv, q: Query)
    requires kv in kvs && IsStray(kv, q)
    ensures kv in Strays(kvs, q)
  {
  }

  lemma StraysPass(kvs: seq<Kv>, q: Query, r: Path)
    requires Canonical(q.key, q.sep) && CanonicalKeys(kvs, q.sep) && q.key != [q.sep] && r != []
    ensures Passes(StrayItems(kvs, q), r) <==> exists kv :: kv in Strays(kvs, q) && ShowsAt(kv, q, r)
  {
    PassesReturned(Strays(kvs, q), q, r);
  }

  lemma AgreementHides(kvs: seq<Kv>, q: Query)
    requires Canonical(q.key, q.sep) && ValidStore(kvs) && CanonicalKeys(kvs, q.sep) && q.key != [q.sep]
    requires ChildrenAt(Items(GetPrefix(kvs, q.key), q), [], q.sep) == ChildrenAt(OwnItems(kvs, q), [], q.sep)
    ensures Hidden(kvs, q)
  {
    var k, all, strays, own := Segments(q.key, q.sep), Items(GetPrefix(kvs, q.key), q), StrayItems(kvs, q), OwnItems(kvs, q);
    CanonicalQuery(q);
    OwnIsUniform(kvs, q);
    OwnUnder(own, k, [], q.sep);
    forall h | h in kvs && IsStray(h, q) ensures Early(h, q) {
      AgreementHasNoLateStray(kvs, q, h);
    }
    StraysAreForeign(kvs, q);
    ItemsAreHonest(Strays(kvs, q), q);
    ItemsAreHonest(GetPrefix(kvs, q.key), q);
    ItemsAreHonest(GetPrefix(Others(kvs, q), q.key), q);
    forall r | r != [] && Passes(strays, r) ensures StampAt(own, r).Some? {
      AllCombined(kvs, q, r);
      AgreementCovers(all, strays, own, k, r, q.sep);
    }
    forall kv | kv in kvs && IsStray(kv, q) ensures Covered(kvs, kv, q) {
      OverwrittenIsCovered(kvs, q, kv);
    }
    forall p ensures ChildNames(strays, p) <= ChildNames(own, p) {
      AllCombined(kvs, q, p);
      NamesAgree(all, own, |k|, p, q.sep);
    }
  }

  lemma HiddenAgrees(kvs: seq<Kv>, q: Query)
    requires Canonical(q.key, q.sep) && ValidStore(kvs) && CanonicalKeys(kvs, q.sep) && q.key != [q.sep]
    requires Hidden(kvs, q)
    ensures ChildrenAt(Items(GetPrefix(kvs, q.key), q), [], q.sep) == ChildrenAt(OwnItems(kvs, q), [], q.sep)
  {
    var all, strays, own := Items(GetPrefix(kvs, q.key), q), StrayItems(kvs, q), OwnItems(kvs, q);
    forall p ensures Combined(all, strays, own, p) {
      AllCombined(kvs, q, p);
    }
    CoveredIsOverwritten(kvs, q);
    OwnIsUniform(kvs, q);
    NodesUnchanged(all, strays, own, Segments(q.key, q.sep), [], q.sep);
  }

  /** Asking for a path gives, node for node and in order, the children the full tree has there if
      and only if the strays the request picks up are hidden. */
  lemma SubtreeAgreesExactly(kvs: seq<Kv>, q: Query)
    requires Canonical(q.key, q.sep) && ValidStore(kvs) && CanonicalKeys(kvs, q.sep)
    ensures q.key != [q.sep] && Answers(kvs, FullQuery(q)) && Answers(GetPrefix(kvs, q.key), q)
    ensures var found := Find(Tree(kvs, FullQuery(q)).nodes, [], Segments(q.key, q.sep), q.sep);
            Tree(GetPrefix(kvs, q.key), q).nodes == (if found.Some? then found.value.nodes else [])
            <==> Hidden(kvs, q)
  {
    CanonicalQuery(q);
    FoundChildren(kvs, q);
    if Hidden(kvs, q) {
      HiddenAgrees(kvs, q);
    }
    if ChildrenAt(Items(GetPrefix(kvs, q.key), q), [], q.sep) == ChildrenAt(OwnItems(kvs, q), [], q.sep) {
      AgreementHides(kvs, q);
    }
  }

  // ------------------------------------------------------------ two keyspaces

  lemma {:induction false} BehindLaterChar(pre: string, sep: char, t: string)
    requires pre <= t && |t| > |pre| && t[|pre|] > sep
    ensures !Before(t, pre + [sep])
  {
    if pre != "" {
      assert pre[1..] <= t[1..];
      assert (pre + [sep])[1..] == pre[1..] + [sep];
      BehindLaterChar(pre[1..], sep, t[1..]);
    }
  }

  /** The keys that continue the query's text do so with the separator or a character behind it. */
  predicate ContinuesBehind(kvs: seq<Kv>, q: Query) {
    forall kv :: kv in kvs && StartsWith(kv.key, q.key) && |kv.key| > |q.key| ==> kv.key[|q.key|] >= q.sep
  }

  lemma StrayIsLate(kvs: seq<Kv>, kv: Kv, q: Query)
    requires Canonical(q.key, q.sep) && Canonical(kv.key, q.sep)
    requires ContinuesBehind(kvs, q) && kv in kvs && IsStray(kv, q)
    ensures !Early(kv, q)
  {
    StrayOrUnder(kv, q);
    assert kv.key != q.key;
    assert kv.key[..|q.key| + 1] == q.key + [kv.key[|q.key|]];
    BehindLaterChar(q.key, q.sep, kv.key);
  }

  lemma {:induction false} NoStrays(kvs: seq<Kv>, q: Query)
    requires forall kv :: kv in kvs ==> !IsStray(kv, q)
    ensures Strays(kvs, q) == []
  {
    if kvs != [] {
      var init, last := kvs[..|kvs| - 1], kvs[|kvs| - 1];
      assert kvs == init + [last];
      NoStrays(init, q);
      SelectSnoc(init, last, (kv: Kv) => IsStray(kv, q));
    }
  }

  lemma HiddenWithoutEarly(kvs: seq<Kv>, q: Query)
    requires q.key != [q.sep] && forall kv :: kv in kvs && IsStray(kv, q) ==> !Early(kv, q)
    ensures Hidden(kvs, q) <==> forall kv :: kv in kvs ==> !IsStray(kv, q)
  {
    if forall kv :: kv in kvs ==> !IsStray(kv, q) {
      NoStrays(kvs, q);
    }
  }

  /** Where no stored key continues the query's text with a character before the separator, nothing
      hides a stray: the subtree agrees with the full tree if and only if there is none. */
  lemma SubtreeAgreesWithoutStraysExactly(kvs: seq<Kv>, q: Query)
    requires Canonical(q.key, q.sep) && ValidStore(kvs) && CanonicalKeys(kvs, q.sep) && ContinuesBehind(kvs, q)
    ensures Answers(kvs, FullQuery(q)) && Answers(GetPrefix(kvs, q.key), q)
    ensures var found := Find(Tree(kvs, FullQuery(q)).nodes, [], Segments(q.key, q.sep), q.sep);
            Tree(GetPrefix(kvs, q.key), q).nodes == (if found.Some? then found.value.nodes else [])
            <==> forall kv :: kv in kvs ==> !IsStray(kv, q)
  {
    SubtreeAgreesExactly(kvs, q);
    forall kv | kv in kvs && IsStray(kv, q) ensures !Early(kv, q) {
      StrayIsLate(kvs, kv, q);
    }
    HiddenWithoutEarly(kvs, q);
  }

  lemma HiddenPaths()
    ensures Segments("/app-/x", '/') == ["app-", "x"] && Segments("/app/x", '/') == ["app", "x"] && Segments("/app", '/') == ["app"]
    ensures Canonical("/app-/x", '/') && Canonical("/app/x", '/') && Canonical("/app", '/')
  {
    RenderTwo("app-", "x", '/');
    RenderTwo("app", "x", '/');
    assert ['/'] + "app-" + (['/'] + "x") == "/app-/x" && ['/'] + "app" + (['/'] + "x") == "/app/x" && ['/'] + "app" == "/app";
    SegmentsOfRender(["app-", "x"], '/');
    SegmentsOfRender(["app", "x"], '/');
    SegmentsOfRender(["app"], '/');
    CanonicalIsRender("/app-/x", '/');
    CanonicalIsRender("/app/x", '/');
    CanonicalIsRender("/app", '/');
  }

  lemma {:induction false} BeforeBehind(pre: string, a: string, b: string)
    ensures Before(pre + a, pre + b) <==> Before(a, b)
  {
    if pre == "" {
      assert pre + a == a && pre + b == b;
    } else {
      BeforeBehind(pre[1..], a, b);
      assert (pre + a)[1..] == pre[1..] + a && (pre + b)[1..] == pre[1..] + b;
    }
  }

  lemma HiddenOrder()
    ensures Before("/app-/x", "/app/x") && Before("/app-/x", "/app/")
    ensures StartsWith("/app-/x", "/app") && StartsWith("/app/x", "/app") && "/app" + ['/'] == "/app/"
  {
    var pre, a, b, c := "/app", "-/x", "/x", "/";
    assert pre + a == "/app-/x" && pre + b == "/app/x" && pre + c == "/app/";
    BeforeBehind(pre, a, b);
    BeforeBehind(pre, a, c);
    assert a[0] < b[0] && a[0] < c[0];
  }

  lemma OneName(x: Item, p: Path)
    ensures ChildNames([x], p) == if p < x.path then [x.path[|p|]] else []
  {
    Snoc([], x, p);
    assert [] + [x] == [x];
  }

  lemma OnePart(a: Kv, q: Query)
    requires Canonical(q.key, q.sep) && Canonical(a.key, q.sep) && q.key != [q.sep] && IsStray(a, q)
    ensures ItemsOf(a, q) != [] && StrayItems([a], q) == [ItemsOf(a, q)[0]] && OwnItems([a], q) == []
  {
    StrayOrUnder(a, q);
    assert [] + [a] == [a];
    PartsSnoc([], a, q);
  }

  /** The parts of a keyspace of a stray and a key under the query. */
  lemma StrayAndOwn(a: Kv, b: Kv, q: Query)
    requires Canonical(q.key, q.sep) && Canonical(a.key, q.sep) && Canonical(b.key, q.sep) && q.key != [q.sep]
    requires IsStray(a, q) && IsReturned(b, q) && !IsStray(b, q)
    ensures ItemsOf(a, q) != [] && ItemsOf(b, q) != []
    ensures StrayItems([a, b], q) == [ItemsOf(a, q)[0]] && OwnItems([a, b], q) == [ItemsOf(b, q)[0]]
  {
    OnePart(a, q);
    StrayOrUnder(b, q);
    assert [a] + [b] == [a, b];
    PartsSnoc([a], b, q);
    FirstItem(b, q);
  }

  lemma FirstItem(kv: Kv, q: Query)
    requires q.key != [q.sep] && StartsWith(kv.key, q.key)
    ensures SubItems([], kv, q) == ItemsOf(kv, q)
  {
  }

  lemma OneStrayOrder(a: Kv, b: Kv, q: Query, p: Path)
    requires Canonical(q.key, q.sep) && Canonical(a.key, q.sep) && Canonical(b.key, q.sep) && q.key != [q.sep]
    requires IsStray(a, q) && IsReturned(b, q) && !IsStray(b, q)
    requires Segments(a.key, q.sep)[|Segments(q.key, q.sep)|..] == Segments(b.key, q.sep)[|Segments(q.key, q.sep)|..]
    ensures ChildNames(StrayItems([a, b], q), p) == ChildNames(OwnItems([a, b], q), p)
  {
    CanonicalQuery(q);
    StrayAndOwn(a, b, q);
    StrayOrUnder(a, q);
    StrayOrUnder(b, q);
    OneName(ItemsOf(a, q)[0], p);
    OneName(ItemsOf(b, q)[0], p);
  }

  lemma OneStrayCovered(a: Kv, b: Kv, q: Query, name: string)
    requires IsReturned(a, q) && Segments(b.key, q.sep) == Segments(q.key, q.sep) + [name]
    requires Segments(a.key, q.sep)[|Segments(q.key, q.sep)|..] == [name]
    ensures Covered([a, b], a, q)
  {
    var k, segs := Segments(q.key, q.sep), Segments(a.key, q.sep);
    assert |segs| == |k| + 1 && segs[|k|..|k| + 1] == segs[|k|..];
    assert Segments([a, b][1].key, q.sep) == k + [name];
    assert StoredAt([a, b], k + [name], q.sep);
  }

  /** A stray whose only node belongs to a key under the query is hidden. */
  lemma OneStrayHidden(a: Kv, b: Kv, q: Query, name: string)
    requires Canonical(q.key, q.sep) && Canonical(a.key, q.sep) && Canonical(b.key, q.sep) && q.key != [q.sep]
    requires IsStray(a, q) && Early(a, q) && IsReturned(b, q) && !IsStray(b, q)
    requires Segments(b.key, q.sep) == Segments(q.key, q.sep) + [name]
    requires Segments(a.key, q.sep)[|Segments(q.key, q.sep)|..] == [name]
    ensures Hidden([a, b], q)
  {
    OneStrayCovered(a, b, q, name);
    forall p ensures ChildNames(StrayItems([a, b], q), p) <= ChildNames(OwnItems([a, b], q), p) {
      OneStrayOrder(a, b, q, p);
    }
  }

  lemma OneStrayAgrees(a: Kv, b: Kv, q: Query, name: string)
    requires Canonical(q.key, q.sep) && ValidStore([a, b]) && CanonicalKeys([a, b], q.sep)
    requires Canonical(a.key, q.sep) && Canonical(b.key, q.sep)
    requires IsStray(a, q) && Early(a, q) && IsReturned(b, q) && !IsStray(b, q)
    requires Segments(b.key, q.sep) == Segments(q.key, q.sep) + [name]
    requires Segments(a.key, q.sep)[|Segments(q.key, q.sep)|..] == [name]
    ensures Answers([a, b], FullQuery(q)) && Answers(GetPrefix([a, b], q.key), q)
    ensures var found := Find(Tree([a, b], FullQuery(q)).nodes, [], Segments(q.key, q.sep), q.sep);
            Tree(GetPrefix([a, b], q.key), q).nodes == (if found.Some? then found.value.nodes else [])
  {
    CanonicalQuery(q);
    OneStrayHidden(a, b, q, name);
    SubtreeAgreesExactly([a, b], q);
  }

  lemma ShadowedFacts(a: Kv, b: Kv, q: Query)
    requires a.key == "/app-/x" && b.key == "/app/x" && q.key == "/app" && q.sep == '/'
    requires a.modRevision > 0 && b.modRevision > 0
    ensures IsStray(a, q) && Early(a, q) && IsReturned(b, q) && !IsStray(b, q)
    ensures ValidStore([a, b]) && CanonicalKeys([a, b], q.sep)
    ensures Canonical(q.key, q.sep) && Canonical(a.key, q.sep) && Canonical(b.key, q.sep)
  {
    HiddenPaths();
    HiddenOrder();
    assert ["app"] <= ["app", "x"] && !(["app"] <= ["app-", "x"]);
  }

  lemma ShadowedPaths(a: Kv, b: Kv, q: Query)
    requires a.key == "/app-/x" && b.key == "/app/x" && q.key == "/app" && q.sep == '/'
    ensures var k := Segments(q.key, q.sep);
            && Segments(b.key, q.sep) == k + ["x"]
            && |k| <= |Segments(a.key, q.sep)| && Segments(a.key, q.sep)[|k|..] == ["x"]
  {
    HiddenPaths();
    assert ["app"] + ["x"] == ["app", "x"] && ["app-", "x"][1..] == ["x"];
  }

  /** A stray that leaves no trace: asked for /app, the answer picks up /app-/x, and /app/x, which
      comes later, overwrites it. */
  lemma ShadowedStrayAgrees(stray: string, value: string)
    ensures var kvs := [Kv("/app-/x", stray, 0, 1, 1, 1), Kv("/app/x", value, 0, 2, 2, 1)];
            var q := Query("/app", '/', false, map[]);
            && IsStray(kvs[0], q) && Answers(kvs, FullQuery(q)) && Answers(GetPrefix(kvs, q.key), q)
            && var found := Find(Tree(kvs, FullQuery(q)).nodes, [], Segments(q.key, q.sep), q.sep);
               Tree(GetPrefix(kvs, q.key), q).nodes == (if found.Some? then found.value.nodes else [])
  {
    var a, b, q := Kv("/app-/x", stray, 0, 1, 1, 1), Kv("/app/x", value, 0, 2, 2, 1), Query("/app", '/', false, map[]);
    ShadowedFacts(a, b, q);
    ShadowedPaths(a, b, q);
    OneStrayAgrees(a, b, q, "x");
  }
}
