/** A dict filled by `d[key] = value` for each entry of a list in turn,
    starting from `{}`: the last assignment to a key wins. */
module KeyedMap {

  function Assign<V>(entries: seq<(string, V)>): (m: map<string, V>)
    ensures m.Keys == set i | 0 <= i < |entries| :: entries[i].0
    decreases |entries|
  {
    if entries == [] then map[]
    else
      var init := entries[..|entries| - 1];
      var last := entries[|entries| - 1];
      var m := Assign(init);
      assert forall i | 0 <= i < |init| :: init[i] == entries[i];
      m[last.0 := last.1]
  }

  /** Index `i` holds the last entry whose key is `k`. */
  predicate IsLastFor<V>(entries: seq<(string, V)>, k: string, i: int)
  {
    && 0 <= i < |entries|
    && entries[i].0 == k
    && forall j | i < j < |entries| :: entries[j].0 != k
  }

  /** Each key holds the value of the last entry that assigned it. */
  lemma {:induction false} AssignLastWins<V>(entries: seq<(string, V)>, k: string)
    requires k in Assign(entries)
    ensures exists i :: IsLastFor(entries, k, i) && Assign(entries)[k] == entries[i].1
    decreases |entries|
  {
    var n := |entries|;
    var init := entries[..n - 1];
    if entries[n - 1].0 == k {
      assert IsLastFor(entries, k, n - 1);
    } else {
      assert k in Assign(init);
      AssignLastWins(init, k);
      var i :| IsLastFor(init, k, i) && Assign(init)[k] == init[i].1;
      assert IsLastFor(entries, k, i);
    }
  }

  /** An entry followed by no other entry with its key is the one its key holds. */
  lemma AssignAt<V>(entries: seq<(string, V)>, i: int)
    requires 0 <= i < |entries| && IsLastFor(entries, entries[i].0, i)
    ensures Assign(entries)[entries[i].0] == entries[i].1
  {
    var k := entries[i].0;
    AssignLastWins(entries, k);
    var i' :| IsLastFor(entries, k, i') && Assign(entries)[k] == entries[i'].1;
    assert i' == i;
  }
}
