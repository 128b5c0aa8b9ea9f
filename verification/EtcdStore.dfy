/** The flat etcd keyspace: pairs in strictly ascending key order, and the range and delete
    requests the client sends. */
module EtcdStore {
  import opened KeyPath
  import opened KeyTree

  /** Byte order on keys. */
  predicate Before(a: string, b: string) {
    b != "" && (a == "" || a[0] < b[0] || (a[0] == b[0] && Before(a[1..], b[1..])))
  }

  /** A keyspace: ascending keys, each once and non-empty, each stored at some revision. */
  predicate ValidStore(kvs: seq<Kv>) {
    && (forall i, j :: 0 <= i < j < |kvs| ==> Before(kvs[i].key, kvs[j].key))
    && (forall i :: 0 <= i < |kvs| ==> kvs[i].key != "" && kvs[i].modRevision > 0)
  }

  predicate DistinctKeys(kvs: seq<Kv>) {
    forall i, j :: 0 <= i < j < |kvs| ==> kvs[i].key != kvs[j].key
  }

  predicate CanonicalKeys(kvs: seq<Kv>, sep: char) {
    forall i :: 0 <= i < |kvs| ==> Canonical(kvs[i].key, sep)
  }

  /** The pairs that pass a test, in order. */
  function Select(kvs: seq<Kv>, keep: Kv -> bool): (r: seq<Kv>)
    ensures forall kv :: kv in r <==> kv in kvs && keep(kv)
  {
    if kvs == [] then []
    else
      var init, last := kvs[..|kvs| - 1], kvs[|kvs| - 1];
      assert kvs == init + [last];
      Select(init, keep) + if keep(last) then [last] else []
  }

  /** A sorted range request for a prefix. */
  function GetPrefix(kvs: seq<Kv>, prefix: string): (r: seq<Kv>)
    ensures forall i :: 0 <= i < |r| ==> StartsWith(r[i].key, prefix)
  {
    var r := Select(kvs, (kv: Kv) => StartsWith(kv.key, prefix));
    assert forall i :: 0 <= i < |r| ==> r[i] in r;
    r
  }

  function DeleteKey(kvs: seq<Kv>, key: string): seq<Kv> {
    Select(kvs, (kv: Kv) => kv.key != key)
  }

  function DeletePrefix(kvs: seq<Kv>, prefix: string): seq<Kv> {
    Select(kvs, (kv: Kv) => !StartsWith(kv.key, prefix))
  }

  /** The keyspace after the client's Delete. */
  function AfterDelete(kvs: seq<Kv>, key: string, dir: bool, sep: char): seq<Kv> {
    if dir then Select(kvs, (kv: Kv) => !UnderKey(key, kv.key, sep)) else DeleteKey(kvs, key)
  }

  lemma {:induction false} BeforeIsStrict(a: string)
    ensures !Before(a, a)
  {
    if a != "" {
      BeforeIsStrict(a[1..]);
    }
  }

  lemma ValidStoreHasDistinctKeys(kvs: seq<Kv>)
    requires ValidStore(kvs)
    ensures DistinctKeys(kvs)
  {
    forall i, j | 0 <= i < j < |kvs| ensures kvs[i].key != kvs[j].key {
      BeforeIsStrict(kvs[i].key);
    }
  }

  lemma SelectSnoc(init: seq<Kv>, last: Kv, keep: Kv -> bool)
    ensures Select(init + [last], keep) == if keep(last) then Select(init, keep) + [last] else Select(init, keep)
  {
    assert (init + [last])[..|init|] == init;
  }

  lemma StoreSnoc(kvs: seq<Kv>, last: Kv)
    requires ValidStore(kvs) && last.key != "" && last.modRevision > 0
    requires forall kv :: kv in kvs ==> Before(kv.key, last.key)
    ensures ValidStore(kvs + [last])
  {
    var all := kvs + [last];
    forall i, j | 0 <= i < j < |all| ensures Before(all[i].key, all[j].key) {
      assert all[i] == kvs[i] && kvs[i] in kvs;
    }
  }

  lemma StoreInit(kvs: seq<Kv>)
    requires ValidStore(kvs) && kvs != []
    ensures var init, last := kvs[..|kvs| - 1], kvs[|kvs| - 1];
            ValidStore(init) && kvs == init + [last] && forall kv :: kv in init ==> Before(kv.key, last.key)
  {
  }

  /** Selecting from a keyspace gives a keyspace. */
  lemma {:induction false} SelectKeepsStore(kvs: seq<Kv>, keep: Kv -> bool)
    requires ValidStore(kvs)
    ensures ValidStore(Select(kvs, keep))
  {
    if kvs != [] {
      var init, last := kvs[..|kvs| - 1], kvs[|kvs| - 1];
      StoreInit(kvs);
      SelectKeepsStore(init, keep);
      if keep(last) {
        StoreSnoc(Select(init, keep), last);
      } else {
        assert Select(init, keep) + [] == Select(init, keep);
      }
    }
  }

  /** The two delete requests of a directory delete remove what the combined test names. */
  lemma {:induction false} DeleteTwice(kvs: seq<Kv>, key: string, prefix: string, sep: char)
    requires prefix == if key == [sep] then [sep] else key + [sep]
    ensures DeletePrefix(DeleteKey(kvs, key), prefix) == AfterDelete(kvs, key, true, sep)
  {
    if kvs != [] {
      var init, last := kvs[..|kvs| - 1], kvs[|kvs| - 1];
      DeleteTwice(init, key, prefix, sep);
      if last.key != key {
        assert (DeleteKey(init, key) + [last])[..|DeleteKey(init, key)|] == DeleteKey(init, key);
      } else {
        assert DeleteKey(init, key) + [] == DeleteKey(init, key);
      }
    }
  }

  /** A prefix request returns exactly the pairs whose key has the prefix. */
  lemma {:induction false} PrefixReturnsExactly(kvs: seq<Kv>, prefix: string, kv: Kv)
    ensures multiset(GetPrefix(kvs, prefix))[kv] == if prefix <= kv.key then multiset(kvs)[kv] else 0
  {
    if kvs != [] {
      var init, last := kvs[..|kvs| - 1], kvs[|kvs| - 1];
      assert kvs == init + [last];
      PrefixReturnsExactly(init, prefix, kv);
      SelectSnoc(init, last, (x: Kv) => StartsWith(x.key, prefix));
    }
  }

  /** What a delete leaves, for all keys and whatever they look like: exactly the pairs whose key is
      not the deleted one and, for a directory, does not have it with a separator in front; for the
      bare separator, does not start with that. */
  lemma {:induction false} DeleteLeavesExactly(kvs: seq<Kv>, key: string, dir: bool, sep: char, kv: Kv)
    ensures multiset(AfterDelete(kvs, key, dir, sep))[kv]
            == if kv.key == key || (dir && (if key == [sep] then [sep] else key + [sep]) <= kv.key) then 0
               else multiset(kvs)[kv]
  {
    if kvs != [] {
      var init, last := kvs[..|kvs| - 1], kvs[|kvs| - 1];
      assert kvs == init + [last];
      DeleteLeavesExactly(init, key, dir, sep, kv);
      if dir {
        SelectSnoc(init, last, (x: Kv) => !UnderKey(key, x.key, sep));
      } else {
        SelectSnoc(init, last, (x: Kv) => x.key != key);
      }
    }
  }
}
