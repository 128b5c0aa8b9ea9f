/** Merging a user's saved dashboard panels with the built-in ones. */
module PanelPrefs {

  datatype PanelItem = PanelItem(id: string, visible: bool, order: int)

  predicate HasId(items: seq<PanelItem>, id: string) {
    exists i :: 0 <= i < |items| && items[i].id == id
  }

  predicate DistinctIds(items: seq<PanelItem>) {
    forall i, j :: 0 <= i < j < |items| ==> items[i].id != items[j].id
  }

  /** The first item of each known panel, in the user's order. */
  function Kept(panels: seq<PanelItem>, defaults: seq<PanelItem>): seq<PanelItem> {
    if panels == [] then []
    else
      var kept, last := Kept(panels[..|panels| - 1], defaults), panels[|panels| - 1];
      if HasId(defaults, last.id) && !HasId(kept, last.id) then kept + [last] else kept
  }

  /** The panels the user has not got, numbered on from the user's. */
  function Missing(kept: seq<PanelItem>, defaults: seq<PanelItem>): seq<PanelItem> {
    if defaults == [] then []
    else
      var missing, last := Missing(kept, defaults[..|defaults| - 1]), defaults[|defaults| - 1];
      if HasId(kept, last.id) then missing else missing + [PanelItem(last.id, last.visible, |kept| + |missing|)]
  }

  function Merged(panels: seq<PanelItem>, defaults: seq<PanelItem>): seq<PanelItem> {
    var kept := Kept(panels, defaults);
    kept + Missing(kept, defaults)
  }

  method MergeWithDefaults(panels: seq<PanelItem>, defaults: seq<PanelItem>, validIds: set<string>)
    returns (result: seq<PanelItem>)
    requires forall id :: id in validIds <==> HasId(defaults, id)
    ensures result == Merged(panels, defaults)
  {
    var seen: set<string> := {};
    result := [];
    for i := 0 to |panels|
      invariant result == Kept(panels[..i], defaults)
      invariant forall id :: id in seen <==> HasId(result, id)
    {
      assert panels[..i + 1][..i] == panels[..i];
      var p := panels[i];
      if p.id in validIds && p.id !in seen {
        HasIdSnoc(result, p);
        seen := seen + {p.id};
        result := result + [p];
      }
    }
    assert panels[..|panels|] == panels;
    ghost var kept := result;
    var nextOrder := |result|;
    for i := 0 to |defaults|
      invariant result == kept + Missing(kept, defaults[..i]) && nextOrder == |result|
    {
      assert defaults[..i + 1][..i] == defaults[..i];
      var dp := defaults[i];
      if dp.id !in seen {
        result := result + [PanelItem(dp.id, dp.visible, nextOrder)];
        nextOrder := nextOrder + 1;
      }
    }
    assert defaults[..|defaults|] == defaults;
  }

  lemma HasIdSnoc(items: seq<PanelItem>, p: PanelItem)
    ensures forall id :: HasId(items + [p], id) <==> HasId(items, id) || id == p.id
  {
    forall id ensures HasId(items + [p], id) <==> HasId(items, id) || id == p.id {
      assert (items + [p])[|items|] == p;
      if HasId(items, id) {
        var i :| 0 <= i < |items| && items[i].id == id;
        assert (items + [p])[i] == items[i];
      }
    }
  }

  lemma HasIdConcat(a: seq<PanelItem>, b: seq<PanelItem>, id: string)
    ensures HasId(a + b, id) <==> HasId(a, id) || HasId(b, id)
  {
    var s := a + b;
    if HasId(a, id) {
      var i :| 0 <= i < |a| && a[i].id == id;
      assert s[i] == a[i];
    }
    if HasId(b, id) {
      var i :| 0 <= i < |b| && b[i].id == id;
      assert s[|a| + i] == b[i];
    }
  }

  lemma {:induction false} KeptIds(panels: seq<PanelItem>, defaults: seq<PanelItem>)
    ensures DistinctIds(Kept(panels, defaults))
    ensures forall id :: HasId(Kept(panels, defaults), id) <==> HasId(panels, id) && HasId(defaults, id)
  {
    if panels != [] {
      var init, last := panels[..|panels| - 1], panels[|panels| - 1];
      KeptIds(init, defaults);
      assert panels == init + [last];
      HasIdSnoc(init, last);
      HasIdSnoc(Kept(init, defaults), last);
      var kept := Kept(init, defaults);
      assert forall i :: 0 <= i < |kept| ==> HasId(kept, kept[i].id);
    }
  }

  lemma {:induction false} MissingIds(kept: seq<PanelItem>, defaults: seq<PanelItem>)
    requires DistinctIds(defaults)
    ensures DistinctIds(Missing(kept, defaults))
    ensures forall id :: HasId(Missing(kept, defaults), id) <==> HasId(defaults, id) && !HasId(kept, id)
  {
    if defaults != [] {
      var init, last := defaults[..|defaults| - 1], defaults[|defaults| - 1];
      MissingIds(kept, init);
      assert defaults == init + [last];
      HasIdSnoc(init, last);
      var missing := Missing(kept, init);
      HasIdSnoc(missing, PanelItem(last.id, last.visible, |kept| + |missing|));
      assert forall i :: 0 <= i < |missing| ==> HasId(missing, missing[i].id);
      assert !HasId(init, last.id) by {
        assert forall i :: 0 <= i < |init| ==> init[i] == defaults[i];
      }
    }
  }

  /** However the saved list looks, the merged list holds each built-in panel exactly once and no
      other, and starts with the user's. */
  lemma MergedHoldsEachOnce(panels: seq<PanelItem>, defaults: seq<PanelItem>)
    requires DistinctIds(defaults)
    ensures DistinctIds(Merged(panels, defaults))
    ensures forall id :: HasId(Merged(panels, defaults), id) <==> HasId(defaults, id)
    ensures Kept(panels, defaults) <= Merged(panels, defaults)
  {
    var kept := Kept(panels, defaults);
    var missing := Missing(kept, defaults);
    KeptIds(panels, defaults);
    MissingIds(kept, defaults);
    forall id ensures HasId(kept + missing, id) <==> HasId(defaults, id) {
      HasIdConcat(kept, missing, id);
    }
    assert forall i :: 0 <= i < |kept| ==> HasId(kept, kept[i].id);
    assert forall i :: 0 <= i < |missing| ==> HasId(missing, missing[i].id);
  }

  /** A list of different known panels is kept as it is. */
  lemma {:induction false} KeptWhole(panels: seq<PanelItem>, defaults: seq<PanelItem>)
    requires DistinctIds(panels) && forall i :: 0 <= i < |panels| ==> HasId(defaults, panels[i].id)
    ensures Kept(panels, defaults) == panels
  {
    if panels != [] {
      var init, last := panels[..|panels| - 1], panels[|panels| - 1];
      KeptWhole(init, defaults);
      assert panels == init + [last];
      assert forall i :: 0 <= i < |init| ==> init[i] == panels[i];
      assert !HasId(init, last.id);
    }
  }

  lemma {:induction false} NothingMissing(kept: seq<PanelItem>, defaults: seq<PanelItem>)
    requires forall i :: 0 <= i < |defaults| ==> HasId(kept, defaults[i].id)
    ensures Missing(kept, defaults) == []
  {
    if defaults != [] {
      NothingMissing(kept, defaults[..|defaults| - 1]);
    }
  }

  /** Merging a merged list changes nothing. */
  lemma MergeIsIdempotent(panels: seq<PanelItem>, defaults: seq<PanelItem>)
    requires DistinctIds(defaults)
    ensures Merged(Merged(panels, defaults), defaults) == Merged(panels, defaults)
  {
    var merged := Merged(panels, defaults);
    MergedHoldsEachOnce(panels, defaults);
    forall i | 0 <= i < |merged| ensures HasId(defaults, merged[i].id) {
      assert HasId(merged, merged[i].id);
    }
    KeptWhole(merged, defaults);
    forall i | 0 <= i < |defaults| ensures HasId(merged, defaults[i].id) {
      assert HasId(defaults, defaults[i].id);
    }
    NothingMissing(merged, defaults);
  }

  /** The item at a position is the first of its id. */
  predicate IsFirst(items: seq<PanelItem>, j: nat)
    requires j < |items|
  {
    forall i :: 0 <= i < j ==> items[i].id != items[j].id
  }

  predicate Increasing(at: seq<nat>, limit: nat) {
    && (forall i :: 0 <= i < |at| ==> at[i] < limit)
    && (forall i, j :: 0 <= i < j < |at| ==> at[i] < at[j])
  }

  /** The items at some positions. */
  function At(items: seq<PanelItem>, at: seq<nat>): seq<PanelItem>
    requires Increasing(at, |items|)
  {
    seq(|at|, k requires 0 <= k < |at| => items[at[k]])
  }

  lemma AtSnoc(init: seq<PanelItem>, last: PanelItem, at: seq<nat>)
    requires Increasing(at, |init|)
    ensures At(init + [last], at) == At(init, at)
    ensures At(init + [last], at + [|init|]) == At(init, at) + [last]
  {
  }

  lemma FirstSnoc(init: seq<PanelItem>, last: PanelItem)
    ensures IsFirst(init + [last], |init|) <==> !HasId(init, last.id)
    ensures forall j :: 0 <= j < |init| ==> (IsFirst(init + [last], j) <==> IsFirst(init, j))
  {
    var items, n := init + [last], |init|;
    assert forall i :: 0 <= i < n ==> items[i] == init[i];
    if HasId(init, last.id) {
      var i :| 0 <= i < n && init[i].id == last.id;
      assert items[i].id == items[n].id;
    }
    forall j | 0 <= j < n ensures IsFirst(items, j) <==> IsFirst(init, j) {
      if IsFirst(items, j) {
        forall i | 0 <= i < j ensures init[i].id != init[j].id {
          assert items[i].id != items[j].id;
        }
      }
    }
  }

  /** Positions of items that are kept, in order and all of them. */
  predicate AreKept(at: seq<nat>, panels: seq<PanelItem>, defaults: seq<PanelItem>) {
    && Increasing(at, |panels|)
    && forall j :: 0 <= j < |panels| ==> (j in at <==> HasId(defaults, panels[j].id) && IsFirst(panels, j))
  }

  lemma AreKeptSnoc(at: seq<nat>, init: seq<PanelItem>, last: PanelItem, defaults: seq<PanelItem>)
    requires AreKept(at, init, defaults)
    ensures AreKept(if HasId(defaults, last.id) && !HasId(init, last.id) then at + [|init|] else at, init + [last], defaults)
  {
    FirstSnoc(init, last);
    var panels, at' := init + [last], if HasId(defaults, last.id) && !HasId(init, last.id) then at + [|init|] else at;
    forall j | 0 <= j < |panels| ensures j in at' <==> HasId(defaults, panels[j].id) && IsFirst(panels, j) {
      assert j < |init| ==> panels[j] == init[j];
    }
  }

  /** The kept items are exactly the first items of known panels, in the user's order. */
  lemma {:induction false} KeptInOrder(panels: seq<PanelItem>, defaults: seq<PanelItem>) returns (at: seq<nat>)
    ensures AreKept(at, panels, defaults)
    ensures Kept(panels, defaults) == At(panels, at)
  {
    if panels == [] {
      at := [];
    } else {
      var init, last := panels[..|panels| - 1], panels[|panels| - 1];
      assert panels == init + [last];
      at := KeptInOrder(init, defaults);
      KeptIds(init, defaults);
      AreKeptSnoc(at, init, last, defaults);
      AtSnoc(init, last, at);
      if HasId(defaults, last.id) && !HasId(init, last.id) {
        at := at + [|init|];
      }
    }
  }

  /** Positions of default panels that are missing, in order and all of them. */
  predicate AreMissing(at: seq<nat>, kept: seq<PanelItem>, defaults: seq<PanelItem>) {
    && Increasing(at, |defaults|)
    && forall j :: 0 <= j < |defaults| ==> (j in at <==> !HasId(kept, defaults[j].id))
  }

  /** Default panels as they are appended: visible as by default, numbered on from the user's. */
  function Appended(defaults: seq<PanelItem>, at: seq<nat>, first: nat): (r: seq<PanelItem>)
    requires Increasing(at, |defaults|)
    ensures |r| == |at|
  {
    seq(|at|, k requires 0 <= k < |at| => PanelItem(defaults[at[k]].id, defaults[at[k]].visible, first + k))
  }

  lemma AreMissingSnoc(at: seq<nat>, kept: seq<PanelItem>, init: seq<PanelItem>, last: PanelItem)
    requires AreMissing(at, kept, init)
    ensures AreMissing(if HasId(kept, last.id) then at else at + [|init|], kept, init + [last])
  {
    var defaults, at' := init + [last], if HasId(kept, last.id) then at else at + [|init|];
    forall j | 0 <= j < |defaults| ensures j in at' <==> !HasId(kept, defaults[j].id) {
      assert j < |init| ==> defaults[j] == init[j];
    }
  }

  lemma AppendedSnoc(init: seq<PanelItem>, last: PanelItem, at: seq<nat>, first: nat)
    requires Increasing(at, |init|)
    ensures Appended(init + [last], at, first) == Appended(init, at, first)
    ensures Appended(init + [last], at + [|init|], first)
            == Appended(init, at, first) + [PanelItem(last.id, last.visible, first + |at|)]
  {
  }

  lemma MissingSnoc(kept: seq<PanelItem>, init: seq<PanelItem>, last: PanelItem)
    ensures Missing(kept, init + [last])
            == if HasId(kept, last.id) then Missing(kept, init)
               else Missing(kept, init) + [PanelItem(last.id, last.visible, |kept| + |Missing(kept, init)|)]
  {
    assert (init + [last])[..|init|] == init;
  }

  function MissingAt(kept: seq<PanelItem>, defaults: seq<PanelItem>): (at: seq<nat>)
    ensures Increasing(at, |defaults|)
  {
    if defaults == [] then []
    else
      var n := |defaults| - 1;
      MissingAt(kept, defaults[..n]) + if HasId(kept, defaults[n].id) then [] else [n]
  }

  lemma MissingAtSnoc(kept: seq<PanelItem>, init: seq<PanelItem>, last: PanelItem)
    ensures MissingAt(kept, init + [last])
            == if HasId(kept, last.id) then MissingAt(kept, init) else MissingAt(kept, init) + [|init|]
  {
    assert (init + [last])[..|init|] == init;
  }

  lemma {:induction false} MissingAreAppended(kept: seq<PanelItem>, defaults: seq<PanelItem>)
    ensures Missing(kept, defaults) == Appended(defaults, MissingAt(kept, defaults), |kept|)
  {
    if defaults != [] {
      var init, last := defaults[..|defaults| - 1], defaults[|defaults| - 1];
      assert defaults == init + [last];
      MissingAreAppended(kept, init);
      MissingSnoc(kept, init, last);
      MissingAtSnoc(kept, init, last);
      AppendedSnoc(init, last, MissingAt(kept, init), |kept|);
    }
  }

  lemma {:induction false} MissingAtExactly(kept: seq<PanelItem>, defaults: seq<PanelItem>)
    ensures AreMissing(MissingAt(kept, defaults), kept, defaults)
  {
    if defaults != [] {
      var init, last := defaults[..|defaults| - 1], defaults[|defaults| - 1];
      assert defaults == init + [last];
      MissingAtExactly(kept, init);
      MissingAtSnoc(kept, init, last);
      AreMissingSnoc(MissingAt(kept, init), kept, init, last);
    }
  }

  /** The appended items are exactly the default panels the user lacks, in default order, with the
      default visibility, numbered on from the user's. */
  lemma MissingInOrder(kept: seq<PanelItem>, defaults: seq<PanelItem>) returns (at: seq<nat>)
    ensures AreMissing(at, kept, defaults)
    ensures Missing(kept, defaults) == Appended(defaults, at, |kept|)
  {
    at := MissingAt(kept, defaults);
    MissingAreAppended(kept, defaults);
    MissingAtExactly(kept, defaults);
  }
}
