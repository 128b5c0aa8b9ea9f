/** The keys a path's prefix request picks up: those under the path, and strays, which only share its
    first characters and are shown below it all the same. While strays come first, the answer is
    theirs overwritten by the others', and the others' alone is what the full tree has at the path. */
module KeyStrays {
  import opened Options
  import opened KeyPath
  import opened KeyTree
  import opened EtcdStore
  import opened KeyTreeLaws
  import opened KeySubtree

  /** The query shows the key below its own, although the key does not lie under it. */
  predicate IsStray(kv: Kv, q: Query) {
    IsReturned(kv, q) && !(Segments(q.key, q.sep) <= Segments(kv.key, q.sep))
  }

  /** The key comes before all keys that lie under the query. */
  predicate Early(kv: Kv, q: Query) {
    Before(kv.key, q.key + [q.sep])
  }

  predicate StoredAt(kvs: seq<Kv>, path: Path, sep: char) {
    exists i :: 0 <= i < |kvs| && Segments(kvs[i].key, sep) == path
  }

  /** Every node a stray is shown at, on the way to its own included, is a stored key under the query. */
  predicate Covered(kvs: seq<Kv>, kv: Kv, q: Query)
    requires IsReturned(kv, q)
  {
    var n, segs := |Segments(q.key, q.sep)|, Segments(kv.key, q.sep);
    forall m :: n < m <= |segs| ==> StoredAt(kvs, Segments(q.key, q.sep) + segs[n..m], q.sep)
  }

  function Strays(kvs: seq<Kv>, q: Query): (r: seq<Kv>)
    ensures forall i :: 0 <= i < |r| ==> r[i] in kvs && IsStray(r[i], q)
  {
    var r := Select(kvs, (kv: Kv) => IsStray(kv, q));
    assert forall i :: 0 <= i < |r| ==> r[i] in r;
    r
  }

  function Others(kvs: seq<Kv>, q: Query): seq<Kv> {
    Select(kvs, (kv: Kv) => !IsStray(kv, q))
  }

  function StrayItems(kvs: seq<Kv>, q: Query): seq<Item>
    requires q.key != [q.sep]
  {
    Items(Strays(kvs, q), q)
  }

  function OwnItems(kvs: seq<Kv>, q: Query): seq<Item>
    requires q.key != [q.sep]
  {
    Items(GetPrefix(Others(kvs, q), q.key), q)
  }

  /** The strays leave no trace: they come first, are overwritten at every node, and bring names in
      no other order than the keys under the query do. */
  ghost predicate Hidden(kvs: seq<Kv>, q: Query)
    requires q.key != [q.sep]
  {
    && (forall kv :: kv in kvs && IsStray(kv, q) ==> Early(kv, q) && Covered(kvs, kv, q))
    && (forall p :: ChildNames(StrayItems(kvs, q), p) <= ChildNames(OwnItems(kvs, q), p))
  }

  // ---------------------------------------------------------------- order

  lemma {:induction false} BeforeTransitive(a: string, b: string, c: string)
    requires Before(a, b) && Before(b, c)
    ensures Before(a, c)
  {
    if a != "" && a[0] == b[0] && b[0] == c[0] {
      BeforeTransitive(a[1..], b[1..], c[1..]);
    }
  }

  lemma {:induction false} NotBeforePrefix(pre: string, t: string)
    requires pre <= t
    ensures !Before(t, pre)
  {
    if pre != "" {
      assert pre[1..] <= t[1..];
      NotBeforePrefix(pre[1..], t[1..]);
    }
  }

  /** A key that is neither before a prefix nor has it is behind all that have it. */
  lemma {:induction false} BehindPrefix(pre: string, h: string, t: string)
    requires !Before(h, pre) && !(pre <= h) && pre <= t
    ensures Before(t, h)
  {
    if h != "" && pre[0] == h[0] {
      assert pre[1..] <= t[1..];
      assert pre[1..] <= h[1..] ==> pre <= h;
      BehindPrefix(pre[1..], h[1..], t[1..]);
    }
  }

  lemma CanonicalQuery(q: Query)
    requires Canonical(q.key, q.sep)
    ensures q.key != "" && q.key != [q.sep] && Segments(q.key, q.sep) != []
    ensures PrefixKey(q) == q.key && PrefixSegCount(q) == |Segments(q.key, q.sep)|
  {
    CanonicalIsRender(q.key, q.sep);
    SegmentsOfSep(q.(key := [q.sep]));
  }

  /** A returned key with segments of its own is either a stray or has the query and a separator in front. */
  lemma StrayOrUnder(kv: Kv, q: Query)
    requires Canonical(q.key, q.sep) && Canonical(kv.key, q.sep) && IsReturned(kv, q)
    ensures IsStray(kv, q) <==> !StartsWith(kv.key, q.key + [q.sep])
    ensures ItemsOf(kv, q)
            == [Item(Segments(kv.key, q.sep)[..PrefixSegCount(q)], Segments(kv.key, q.sep)[PrefixSegCount(q)..], Some(StampOf(kv, q)))]
  {
    CanonicalQuery(q);
    UnderKeyIsPathPrefix(q.key, kv.key, q.sep);
  }

  /** A key the query does not show below its own adds at most data for the query key itself. */
  lemma NotShown(kv: Kv, q: Query)
    requires Canonical(q.key, q.sep) && StartsWith(kv.key, q.key) && !IsReturned(kv, q)
    ensures ItemsOf(kv, q) == [] || ItemsOf(kv, q) == [Item([], [], Some(StampOf(kv, q)))]
  {
    CanonicalQuery(q);
    PrefixSegmentsInRange(kv.key, q);
  }

  // ------------------------------------------------- strays and the others

  lemma PartsSnoc(kvs: seq<Kv>, kv: Kv, q: Query)
    requires q.key != [q.sep]
    ensures IsStray(kv, q) ==>
              && StrayItems(kvs + [kv], q) == StrayItems(kvs, q) + ItemsOf(kv, q)
              && OwnItems(kvs + [kv], q) == OwnItems(kvs, q)
    ensures !IsStray(kv, q) ==>
              && StrayItems(kvs + [kv], q) == StrayItems(kvs, q)
              && OwnItems(kvs + [kv], q) == SubItems(OwnItems(kvs, q), kv, q)
  {
    SelectSnoc(kvs, kv, (x: Kv) => IsStray(x, q));
    SelectSnoc(kvs, kv, (x: Kv) => !IsStray(x, q));
    if IsStray(kv, q) {
      assert (Strays(kvs, q) + [kv])[..|Strays(kvs, q)|] == Strays(kvs, q);
    } else {
      AnswerSnoc(Others(kvs, q), kv, q);
    }
  }

  /** The names already there, then those that are new, in order. */
  function Extend(a: seq<string>, b: seq<string>): (r: seq<string>)
    ensures a <= r && forall s :: s in r <==> s in a || s in b
  {
    if b == [] then a
    else
      var r, last := Extend(a, b[..|b| - 1]), b[|b| - 1];
      assert b == b[..|b| - 1] + [last];
      if last in a then r else r + [last]
  }

  lemma ExtendSnoc(a: seq<string>, b: seq<string>, s: string)
    ensures Extend(a, b + [s]) == if s in a then Extend(a, b) else Extend(a, b) + [s]
  {
    assert (b + [s])[..|b|] == b;
  }

  lemma {:induction false} ExtendInside(a: seq<string>, b: seq<string>)
    requires forall s :: s in b ==> s in a
    ensures Extend(a, b) == a
  {
    if b != [] {
      assert b == b[..|b| - 1] + [b[|b| - 1]];
      ExtendInside(a, b[..|b| - 1]);
    }
  }

  /** Extending by names that start with the same ones gives those names. */
  lemma {:induction false} ExtendByLonger(a: seq<string>, b: seq<string>)
    requires a <= b && forall i, j :: 0 <= i < j < |b| ==> b[i] != b[j]
    ensures Extend(a, b) == b
    decreases |b|
  {
    if a == b {
      ExtendInside(a, b);
    } else {
      ExtendByLonger(a, b[..|b| - 1]);
    }
  }

  /** The answer's items, described by those of the strays and those of the other keys. */
  ghost predicate Combined(all: seq<Item>, strays: seq<Item>, own: seq<Item>, p: Path) {
    && ChildNames(all, p) == Extend(ChildNames(strays, p), ChildNames(own, p))
    && (p != [] ==>
          && StampAt(all, p) == (if StampAt(own, p).Some? then StampAt(own, p) else StampAt(strays, p))
          && FirstPre(all, p) == (if FirstPre(strays, p).Some? then FirstPre(strays, p) else FirstPre(own, p)))
  }

  lemma CombinedOwn(all: seq<Item>, strays: seq<Item>, own: seq<Item>, x: Item, p: Path)
    requires Combined(all, strays, own, p)
    ensures Combined(all + [x], strays, own + [x], p)
  {
    Snoc(all, x, p);
    Snoc(own, x, p);
    if p < x.path {
      ExtendSnoc(ChildNames(strays, p), ChildNames(own, p), x.path[|p|]);
    }
  }

  lemma CombinedStray(all: seq<Item>, strays: seq<Item>, own: seq<Item>, x: Item, p: Path)
    requires Combined(all, strays, own, p)
    requires ChildNames(own, p) == [] && (p != [] ==> StampAt(own, p) == None && FirstPre(own, p) == None)
    ensures Combined(all + [x], strays + [x], own, p)
  {
    Snoc(all, x, p);
    Snoc(strays, x, p);
  }

  predicate RootOnly(items: seq<Item>) {
    forall i :: 0 <= i < |items| ==> items[i].path == []
  }

  lemma NothingUnderRoot(items: seq<Item>, p: Path)
    requires RootOnly(items)
    ensures ChildNames(items, p) == [] && (p != [] ==> StampAt(items, p) == None && FirstPre(items, p) == None)
  {
    if ChildNames(items, p) != [] {
      ChildNamesArePassed(items, p, ChildNames(items, p)[0]);
    }
    if p != [] {
      NothingBelow(items, p);
      FirstPreWhenPassed(items, p);
    }
  }

  lemma RootOnlySnoc(items: seq<Item>, kv: Kv, q: Query)
    requires Canonical(q.key, q.sep) && Canonical(kv.key, q.sep) && q.key != [q.sep]
    requires RootOnly(items) && Early(kv, q) && !IsStray(kv, q)
    ensures RootOnly(SubItems(items, kv, q))
  {
    if IsReturned(kv, q) {
      StrayOrUnder(kv, q);
      NotBeforePrefix(q.key + [q.sep], kv.key);
    } else if StartsWith(kv.key, q.key) {
      NotShown(kv, q);
    }
  }

  /** Before the keys under the query come none that give it nodes of its own. */
  lemma {:induction false} NothingOwnYet(kvs: seq<Kv>, q: Query)
    requires Canonical(q.key, q.sep) && CanonicalKeys(kvs, q.sep)
    requires forall kv :: kv in kvs ==> Early(kv, q)
    ensures q.key != [q.sep] && RootOnly(OwnItems(kvs, q))
  {
    CanonicalQuery(q);
    if kvs != [] {
      var init, last := kvs[..|kvs| - 1], kvs[|kvs| - 1];
      assert kvs == init + [last] && last in kvs && forall kv :: kv in init ==> kv in kvs;
      NothingOwnYet(init, q);
      PartsSnoc(init, last, q);
      if !IsStray(last, q) {
        RootOnlySnoc(OwnItems(init, q), last, q);
      }
    }
  }

  /** While strays come first, the answer is the strays' and then the others'. */
  lemma {:induction false} AllCombined(kvs: seq<Kv>, q: Query, p: Path)
    requires Canonical(q.key, q.sep) && ValidStore(kvs) && CanonicalKeys(kvs, q.sep)
    requires forall kv :: kv in kvs && IsStray(kv, q) ==> Early(kv, q)
    ensures q.key != [q.sep] && Combined(Items(GetPrefix(kvs, q.key), q), StrayItems(kvs, q), OwnItems(kvs, q), p)
  {
    CanonicalQuery(q);
    if kvs != [] {
      var init, last := kvs[..|kvs| - 1], kvs[|kvs| - 1];
      StoreInit(kvs);
      AllCombined(init, q, p);
      AnswerSnoc(init, last, q);
      PartsSnoc(init, last, q);
      CombinedSnoc(init, last, q, p);
    }
  }

  lemma CombinedSnoc(init: seq<Kv>, last: Kv, q: Query, p: Path)
    requires Canonical(q.key, q.sep) && CanonicalKeys(init, q.sep) && Canonical(last.key, q.sep) && q.key != [q.sep]
    requires forall kv :: kv in init ==> Before(kv.key, last.key)
    requires IsStray(last, q) ==> Early(last, q)
    requires Combined(Items(GetPrefix(init, q.key), q), StrayItems(init, q), OwnItems(init, q), p)
    ensures var all := SubItems(Items(GetPrefix(init, q.key), q), last, q);
            if IsStray(last, q) then Combined(all, StrayItems(init, q) + ItemsOf(last, q), OwnItems(init, q), p)
            else Combined(all, StrayItems(init, q), SubItems(OwnItems(init, q), last, q), p)
  {
    var all, strays, own := Items(GetPrefix(init, q.key), q), StrayItems(init, q), OwnItems(init, q);
    if IsStray(last, q) {
      forall kv | kv in init ensures Early(kv, q) {
        BeforeTransitive(kv.key, last.key, q.key + [q.sep]);
      }
      NothingOwnYet(init, q);
      NothingUnderRoot(own, p);
      StrayOrUnder(last, q);
      CombinedStray(all, strays, own, ItemsOf(last, q)[0], p);
    } else {
      CombinedOther(all, strays, own, last, q, p);
    }
  }

  lemma CombinedOther(all: seq<Item>, strays: seq<Item>, own: seq<Item>, kv: Kv, q: Query, p: Path)
    requires Canonical(q.key, q.sep) && Canonical(kv.key, q.sep) && q.key != [q.sep]
    requires Combined(all, strays, own, p)
    ensures Combined(SubItems(all, kv, q), strays, SubItems(own, kv, q), p)
  {
    if StartsWith(kv.key, q.key) {
      AtMostOneItem(kv, q);
      if ItemsOf(kv, q) == [] {
        assert all + [] == all && own + [] == own;
      } else {
        CombinedOwn(all, strays, own, ItemsOf(kv, q)[0], p);
      }
    }
  }

  lemma AtMostOneItem(kv: Kv, q: Query)
    requires StartsWith(kv.key, PrefixKey(q))
    ensures ItemsOf(kv, q) == [] || ItemsOf(kv, q) == [ItemsOf(kv, q)[0]]
  {
  }

  // ---------------------------------------------- the full tree at the path

  lemma OwnIsInPlace(kv: Kv, q: Query)
    requires Canonical(q.key, q.sep) && Canonical(kv.key, q.sep) && !IsStray(kv, q)
    ensures InPlace(kv, q)
  {
    InPlaceForCanonical(kv, q);
    UnderKeyIsPathPrefix(q.key, kv.key, q.sep);
  }

  lemma StrayOutside(full: seq<Item>, own: seq<Item>, kv: Kv, q: Query, p: Path)
    requires IsStray(kv, q) && Matches(full, own, Segments(q.key, q.sep), p)
    ensures StartsWith(kv.key, PrefixKey(FullQuery(q)))
    ensures Matches(full + ItemsOf(kv, FullQuery(q)), own, Segments(q.key, q.sep), p)
  {
    RootItem(kv, FullQuery(q));
    OutsideChangesNothing(full, ItemsOf(kv, FullQuery(q))[0], Segments(q.key, q.sep), p);
  }

  lemma FullSnoc(init: seq<Kv>, last: Kv, q: Query)
    requires IsRoot(q)
    ensures Answers(init, q) && Answers(init + [last], q) && StartsWith(last.key, PrefixKey(q))
    ensures Items(init + [last], q) == Items(init, q) + ItemsOf(last, q)
  {
    assert (init + [last])[..|init|] == init;
  }

  lemma OwnMatchSnoc(full: seq<Item>, own: seq<Item>, kv: Kv, q: Query, p: Path)
    requires Canonical(q.key, q.sep) && Canonical(kv.key, q.sep) && q.key != [q.sep]
    requires Matches(full, own, Segments(q.key, q.sep), p)
    ensures StartsWith(kv.key, PrefixKey(FullQuery(q)))
    ensures Matches(full + ItemsOf(kv, FullQuery(q)), if IsStray(kv, q) then own else SubItems(own, kv, q), Segments(q.key, q.sep), p)
  {
    CanonicalQuery(q);
    if IsStray(kv, q) {
      StrayOutside(full, own, kv, q, p);
    } else {
      OwnIsInPlace(kv, q);
      MatchSnoc(full, own, kv, q, p);
    }
  }

  /** The full tree below the query's path is that of the keys which are no strays. */
  lemma {:induction false} OwnMatches(kvs: seq<Kv>, q: Query, p: Path)
    requires Canonical(q.key, q.sep) && CanonicalKeys(kvs, q.sep)
    ensures q.key != [q.sep] && Answers(kvs, FullQuery(q))
    ensures Matches(Items(kvs, FullQuery(q)), OwnItems(kvs, q), Segments(q.key, q.sep), p)
  {
    CanonicalQuery(q);
    if kvs != [] {
      var init, last := kvs[..|kvs| - 1], kvs[|kvs| - 1];
      assert kvs == init + [last];
      OwnMatches(init, q, p);
      PartsSnoc(init, last, q);
      FullSnoc(init, last, FullQuery(q));
      OwnMatchSnoc(Items(init, FullQuery(q)), OwnItems(init, q), last, q, p);
    }
  }

  lemma OwnChildren(kvs: seq<Kv>, q: Query)
    requires Canonical(q.key, q.sep) && CanonicalKeys(kvs, q.sep)
    ensures q.key != [q.sep] && Answers(kvs, FullQuery(q))
    ensures ChildrenAt(OwnItems(kvs, q), [], q.sep) == ChildrenAt(Items(kvs, FullQuery(q)), Segments(q.key, q.sep), q.sep)
  {
    var k, none: Path := Segments(q.key, q.sep), [];
    CanonicalQuery(q);
    OwnMatches(kvs, q, none);
    forall p ensures Matches(Items(kvs, FullQuery(q)), OwnItems(kvs, q), k, p) {
      OwnMatches(kvs, q, p);
    }
    NodesMatch(Items(kvs, FullQuery(q)), OwnItems(kvs, q), k, none, q.sep);
    assert k + none == k;
  }

  lemma ChildrenFound(items: seq<Item>, k: Path, sep: char)
    requires Uniform(items, [], sep) && k != []
    ensures var found := Find(ChildrenAt(items, [], sep), [], k, sep);
            ChildrenAt(items, k, sep) == if found.Some? then found.value.nodes else []
  {
    var none: Path := [];
    FindReaches(items, none, none, k, sep);
    assert none + k == k && none + none == none;
    if !Passes(items, k) {
      NothingBelow(items, k);
    }
  }

  /** The children the full tree has at the query's path. */
  lemma FoundChildren(kvs: seq<Kv>, q: Query)
    requires Canonical(q.key, q.sep) && CanonicalKeys(kvs, q.sep)
    ensures q.key != [q.sep] && Answers(kvs, FullQuery(q))
    ensures var found := Find(Tree(kvs, FullQuery(q)).nodes, [], Segments(q.key, q.sep), q.sep);
            ChildrenAt(OwnItems(kvs, q), [], q.sep) == if found.Some? then found.value.nodes else []
  {
    CanonicalQuery(q);
    OwnChildren(kvs, q);
    RootItems(kvs, FullQuery(q));
    ChildrenFound(Items(kvs, FullQuery(q)), Segments(q.key, q.sep), q.sep);
  }

  lemma {:induction false} StampIffStored(kvs: seq<Kv>, q: Query, path: Path)
    requires IsRoot(q)
    ensures Answers(kvs, q)
    ensures StampAt(Items(kvs, q), path).Some? <==> StoredAt(kvs, path, q.sep)
  {
    if kvs != [] {
      var init, last := kvs[..|kvs| - 1], kvs[|kvs| - 1];
      assert kvs == init + [last];
      StampIffStored(init, q, path);
      RootStampSnoc(init, last, q, path);
      assert forall i :: 0 <= i < |init| ==> init[i] == kvs[i];
      assert kvs[|kvs| - 1] == last;
    }
  }

  lemma OwnStampIffStored(kvs: seq<Kv>, q: Query, r: Path)
    requires Canonical(q.key, q.sep) && CanonicalKeys(kvs, q.sep) && r != []
    ensures q.key != [q.sep]
    ensures StampAt(OwnItems(kvs, q), r).Some? <==> StoredAt(kvs, Segments(q.key, q.sep) + r, q.sep)
  {
    OwnMatches(kvs, q, r);
    StampIffStored(kvs, FullQuery(q), Segments(q.key, q.sep) + r);
  }
}
