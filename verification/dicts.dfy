/**
 * A Python `dict` built by a loop of `d[key] = value` assignments, some
 * iterations assigning nothing: the key set is every key assigned, and a
 * later assignment to a key replaces an earlier one.
 */
module Dicts {
  import opened Wrappers

  /** One iteration: `d[k] = v` for `Some((k, v))`, nothing for `None`. */
  function Put<K, V>(m: map<K, V>, e: Option<(K, V)>): map<K, V> {
    match e
    case None => m
    case Some(kv) => m[kv.0 := kv.1]
  }

  /** The dict after assigning `entries` in order, starting from `{}`. */
  function Build<K, V>(entries: seq<Option<(K, V)>>): map<K, V> {
    if entries == [] then map[]
    else Put(Build(entries[..|entries| - 1]), entries[|entries| - 1])
  }

  /** The entry assigns key `k`. */
  predicate Assigns<K(==), V>(e: Option<(K, V)>, k: K) {
    e.Some? && e.value.0 == k
  }

  /** A key is in the built dict exactly when some entry assigns it. */
  lemma {:induction false} BuildKeys<K, V>(entries: seq<Option<(K, V)>>, k: K)
    ensures k in Build(entries) <==> exists i :: 0 <= i < |entries| && Assigns(entries[i], k)
  {
    if entries != [] {
      var n := |entries| - 1;
      var prefix := entries[..n];
      BuildKeys(prefix, k);
      assert forall i :: 0 <= i < n ==> prefix[i] == entries[i];
      if k in Build(entries) && !Assigns(entries[n], k) {
        var i :| 0 <= i < n && Assigns(prefix[i], k);
        assert Assigns(entries[i], k);
      }
    }
  }

  /** The last entry assigning a key decides its value. */
  lemma {:induction false} BuildLastWins<K, V>(entries: seq<Option<(K, V)>>, i: nat)
    requires i < |entries| && entries[i].Some?
    requires forall j :: i < j < |entries| ==> !Assigns(entries[j], entries[i].value.0)
    ensures entries[i].value.0 in Build(entries)
    ensures Build(entries)[entries[i].value.0] == entries[i].value.1
    decreases |entries|
  {
    var n := |entries| - 1;
    if i < n {
      BuildLastWins(entries[..n], i);
    }
  }

  /** Assigning one more entry extends the loop by one iteration. */
  lemma BuildSnoc<K, V>(entries: seq<Option<(K, V)>>, e: Option<(K, V)>)
    ensures Build(entries + [e]) == Put(Build(entries), e)
  {
    assert (entries + [e])[..|entries|] == entries;
  }
}
