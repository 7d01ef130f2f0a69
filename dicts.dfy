/**
 * Python's `dict` built from a sequence of key/value assignments, as both
 * `dict(pairs)` and a loop of `d[k] = v` statements build it: later
 * assignments to the same key overwrite earlier ones.
 */
module Dicts {

  /** The dictionary left by assigning `d[k] = v` for each `(k, v)` of `ps` in order. */
  function FromPairs<K, V>(ps: seq<(K, V)>): map<K, V>
    decreases |ps|
  {
    if ps == [] then map[]
    else FromPairs(ps[..|ps| - 1])[ps[|ps| - 1].0 := ps[|ps| - 1].1]
  }

  /** The key `k` is assigned by `ps` at index `i` and never again afterwards. */
  ghost predicate LastAssignment<K, V>(ps: seq<(K, V)>, k: K, i: int)
  {
    0 <= i < |ps| && ps[i].0 == k && forall j :: i < j < |ps| ==> ps[j].0 != k
  }

  /** A key is present exactly when some pair assigns it, and its value is that of its last assignment. */
  lemma {:induction false} FromPairsSpec<K, V>(ps: seq<(K, V)>)
    ensures forall k :: k in FromPairs(ps) <==> exists i :: 0 <= i < |ps| && ps[i].0 == k
    ensures forall k :: k in FromPairs(ps) ==>
      exists i :: LastAssignment(ps, k, i) && ps[i].1 == FromPairs(ps)[k]
    decreases |ps|
  {
    if ps != [] {
      var init, last := ps[..|ps| - 1], ps[|ps| - 1];
      FromPairsSpec(init);
      var m := FromPairs(ps);
      assert m == FromPairs(init)[last.0 := last.1];
      forall k | k in m
        ensures exists i :: LastAssignment(ps, k, i) && ps[i].1 == m[k]
      {
        if k == last.0 {
          assert LastAssignment(ps, k, |ps| - 1);
        } else {
          var i :| LastAssignment(init, k, i) && init[i].1 == FromPairs(init)[k];
          assert LastAssignment(ps, k, i);
        }
      }
      forall k | exists i :: 0 <= i < |ps| && ps[i].0 == k
        ensures k in m
      {
        var i :| 0 <= i < |ps| && ps[i].0 == k;
        if i < |ps| - 1 { assert init[i].0 == k; }
      }
    }
  }

  /** Appending one more assignment is one more dictionary update. */
  lemma FromPairsSnoc<K, V>(ps: seq<(K, V)>, p: (K, V))
    ensures FromPairs(ps + [p]) == FromPairs(ps)[p.0 := p.1]
  {
    assert (ps + [p])[..|ps|] == ps;
  }
}
