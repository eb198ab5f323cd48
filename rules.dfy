/** The records the plugin passes between its parts, and the "fill a map
    entry by entry, later entries overwrite earlier ones" loop that both the
    locale loader and the rule editor's save use. */
module Rules {
  import opened Wrappers

  /** `RewardRule` (src/core/reward_rule.hpp). The `enabled` flag is read and
      written by the rule editor although the header does not declare it. */
  datatype RewardRule = RewardRule(
    sourceScene: string,
    rewardId: string,
    rewardTitle: string,
    targetScene: string,
    revertSeconds: int,
    enabled: bool)

  /** A channel-points reward as fetched from the provider: id and title. */
  datatype RewardInfo = RewardInfo(id: string, title: string)

  /** The map obtained by inserting every present entry in order, so that a
      later entry with the same key replaces an earlier one. */
  function Collect<K(==), V>(entries: seq<Option<(K, V)>>): (m: map<K, V>)
    ensures forall k :: k in m ==> exists i :: HasKeyAt(entries, i, k) && entries[i].value.1 == m[k]
  {
    if entries == [] then map[]
    else
      var n := |entries| - 1;
      var m := Collect(entries[..n]);
      assert forall i :: 0 <= i < n ==> entries[..n][i] == entries[i];
      match entries[n]
      case None => m
      case Some(kv) =>
        assert HasKeyAt(entries, n, kv.0);
        m[kv.0 := kv.1]
  }

  /** True when entry `i` is present and carries key `k`. */
  predicate HasKeyAt<K(==), V>(entries: seq<Option<(K, V)>>, i: int, k: K) {
    0 <= i < |entries| && entries[i].Some? && entries[i].value.0 == k
  }

  /** Appending one entry extends the fold by that one insertion. */
  lemma CollectSnoc<K, V>(entries: seq<Option<(K, V)>>, e: Option<(K, V)>)
    ensures Collect(entries + [e]) ==
      match e case None => Collect(entries) case Some(kv) => Collect(entries)[kv.0 := kv.1]
  {
    assert (entries + [e])[..|entries|] == entries;
  }

  /** The keys of the result are exactly the keys of the present entries. */
  lemma {:induction false} CollectKeys<K, V>(entries: seq<Option<(K, V)>>, k: K)
    ensures k in Collect(entries) <==> exists i :: HasKeyAt(entries, i, k)
  {
    if entries != [] {
      var n := |entries| - 1;
      var init := entries[..n];
      assert entries == init + [entries[n]];
      CollectSnoc(init, entries[n]);
      CollectKeys(init, k);
      if entries[n].Some? && entries[n].value.0 == k {
        assert HasKeyAt(entries, n, k);
      }
      if exists i :: HasKeyAt(init, i, k) {
        var i :| HasKeyAt(init, i, k);
        assert HasKeyAt(entries, i, k);
      }
      if exists i :: HasKeyAt(entries, i, k) {
        var i :| HasKeyAt(entries, i, k);
        if i < n {
          assert HasKeyAt(init, i, k);
        }
      }
    }
  }

  /** A present entry with no later entry for the same key decides that
      key's value: the last one wins. */
  lemma {:induction false} CollectLastWins<K, V>(entries: seq<Option<(K, V)>>, i: nat, k: K, v: V)
    requires i < |entries| && entries[i] == Some((k, v))
    requires forall j :: i < j < |entries| ==> !HasKeyAt(entries, j, k)
    ensures k in Collect(entries) && Collect(entries)[k] == v
  {
    var n := |entries| - 1;
    if i < n {
      var init := entries[..n];
      forall j | i < j < |init| ensures !HasKeyAt(init, j, k) {
        assert !HasKeyAt(entries, j, k);
      }
      CollectLastWins(init, i, k, v);
      assert !HasKeyAt(entries, n, k);
    }
  }
}
