/** The `ToDictionary` helper that both editor windows define: it inserts the pairs of an
    enumeration one by one into a fresh dictionary, and calls `onDuplicate` on a key it has
    already seen before overwriting that key's value. In both windows the callback throws,
    so `throwOnDuplicate` stands for it; a callback that returns (or none at all) gives
    last-wins overwriting. */
module Dictionaries {
  import opened Wrappers

  /** The set of keys of a pair sequence. */
  function KeySet<K, V>(ps: seq<(K, V)>): set<K>
  {
    set i | 0 <= i < |ps| :: ps[i].0
  }

  /** No key occurs twice. */
  predicate DistinctKeys<K(==), V>(ps: seq<(K, V)>)
  {
    forall i, j :: 0 <= i < j < |ps| ==> ps[i].0 != ps[j].0
  }

  /** The dictionary built from `ps`, pair by pair from the left; with `throwOnDuplicate`,
      the first key met a second time is the failure. */
  function Fold<K(==), V>(ps: seq<(K, V)>, throwOnDuplicate: bool): Result<map<K, V>, K>
  {
    if |ps| == 0 then Success(map[])
    else
      match Fold(ps[..|ps| - 1], throwOnDuplicate)
      case Failure(k) => Failure(k)
      case Success(d) =>
        var (k, v) := ps[|ps| - 1];
        if throwOnDuplicate && k in d then Failure(k) else Success(d[k := v])
  }

  /** The foreach loop of `ToDictionary`. */
  method ToDictionary<K(==), V>(ps: seq<(K, V)>, throwOnDuplicate: bool) returns (r: Result<map<K, V>, K>)
    ensures r == Fold(ps, throwOnDuplicate)
  {
    var dict: map<K, V> := map[];
    var i := 0;
    while i < |ps|
      invariant 0 <= i <= |ps|
      invariant Fold(ps[..i], throwOnDuplicate) == Success(dict)
    {
      var (key, value) := ps[i];
      assert ps[..i + 1][..i] == ps[..i];
      if throwOnDuplicate && key in dict {
        FailureSticks(ps, i + 1, throwOnDuplicate);
        return Failure(key);
      }
      dict := dict[key := value];
      i := i + 1;
    }
    assert ps[..i] == ps;
    return Success(dict);
  }

  /** Once a prefix has failed, every longer prefix fails with the same key. */
  lemma {:induction false} FailureSticks<K, V>(ps: seq<(K, V)>, n: nat, t: bool)
    requires n <= |ps| && Fold(ps[..n], t).Failure?
    ensures Fold(ps, t) == Fold(ps[..n], t)
    decreases |ps| - n
  {
    if n < |ps| {
      assert ps[..n + 1][..n] == ps[..n];
      FailureSticks(ps, n + 1, t);
    } else {
      assert ps[..n] == ps;
    }
  }

  /** A successful fold has exactly the input keys. */
  lemma {:induction false} FoldKeys<K, V>(ps: seq<(K, V)>, t: bool)
    requires Fold(ps, t).Success?
    ensures Fold(ps, t).value.Keys == KeySet(ps)
  {
    if |ps| > 0 {
      var init := ps[..|ps| - 1];
      FoldKeys(init, t);
      assert KeySet(ps) == KeySet(init) + {ps[|ps| - 1].0} by {
        forall k | k in KeySet(ps) ensures k in KeySet(init) + {ps[|ps| - 1].0} {
          var i :| 0 <= i < |ps| && ps[i].0 == k;
          if i < |ps| - 1 { assert init[i] == ps[i]; }
        }
        forall k | k in KeySet(init) ensures k in KeySet(ps) {
          var i :| 0 <= i < |init| && init[i].0 == k;
          assert ps[i] == init[i];
        }
      }
    }
  }

  /** Last wins: a key is bound to the value of its last occurrence. */
  lemma {:induction false} FoldLastWins<K, V>(ps: seq<(K, V)>, t: bool, i: nat)
    requires Fold(ps, t).Success? && i < |ps|
    requires forall j :: i < j < |ps| ==> ps[j].0 != ps[i].0
    ensures ps[i].0 in Fold(ps, t).value && Fold(ps, t).value[ps[i].0] == ps[i].1
  {
    var init := ps[..|ps| - 1];
    if i < |ps| - 1 {
      assert init[i] == ps[i];
      FoldLastWins(init, t, i);
    }
  }

  /** With a throwing callback the fold succeeds exactly when no key repeats. */
  lemma {:induction false} FoldThrowingSucceedsIffDistinct<K, V>(ps: seq<(K, V)>)
    ensures Fold(ps, true).Success? <==> DistinctKeys(ps)
  {
    if |ps| > 0 {
      var init := ps[..|ps| - 1];
      var last := ps[|ps| - 1];
      FoldThrowingSucceedsIffDistinct(init);
      if Fold(init, true).Success? {
        FoldKeys(init, true);
        if last.0 in KeySet(init) {
          var i :| 0 <= i < |init| && init[i].0 == last.0;
          assert ps[i].0 == ps[|ps| - 1].0;
        } else {
          forall i, j | 0 <= i < j < |ps| ensures ps[i].0 != ps[j].0 {
            if j < |ps| - 1 {
              assert init[i] == ps[i] && init[j] == ps[j];
            } else {
              assert init[i] == ps[i];
            }
          }
        }
      } else {
        var i, j :| 0 <= i < j < |init| && init[i].0 == init[j].0;
        assert ps[i] == init[i] && ps[j] == init[j];
      }
    }
  }

  /** With a callback that returns, the fold never fails. */
  lemma {:induction false} FoldIgnoringNeverFails<K, V>(ps: seq<(K, V)>)
    ensures Fold(ps, false).Success?
  {
    if |ps| > 0 {
      FoldIgnoringNeverFails(ps[..|ps| - 1]);
    }
  }

  /** The key a throwing fold fails with is the first repetition: it occurs at some
      position `i` after an earlier occurrence, and the keys before `i` are distinct. */
  lemma {:induction false} FoldFailureIsFirstRepeat<K, V>(ps: seq<(K, V)>, t: bool)
    requires Fold(ps, t).Failure?
    ensures t
    ensures exists i :: 0 <= i < |ps| && ps[i].0 == Fold(ps, t).error
                        && ps[i].0 in KeySet(ps[..i]) && DistinctKeys(ps[..i])
  {
    var n := |ps| - 1;
    var init := ps[..n];
    if Fold(init, t).Failure? {
      FoldFailureIsFirstRepeat(init, t);
      var i :| 0 <= i < |init| && init[i].0 == Fold(init, t).error
               && init[i].0 in KeySet(init[..i]) && DistinctKeys(init[..i]);
      assert init[..i] == ps[..i] && init[i] == ps[i];
    } else {
      FoldKeys(init, t);
      FoldThrowingSucceedsIffDistinct(init);
      assert init == ps[..n];
    }
  }
  /** Every value of a successful fold comes from a pair with that key. */
  lemma {:induction false} FoldValuesFromPairs<K, V>(ps: seq<(K, V)>, t: bool, k: K)
    requires Fold(ps, t).Success? && k in Fold(ps, t).value
    ensures exists i :: 0 <= i < |ps| && ps[i] == (k, Fold(ps, t).value[k])
  {
    var init := ps[..|ps| - 1];
    if ps[|ps| - 1].0 != k {
      FoldValuesFromPairs(init, t, k);
      var i :| 0 <= i < |init| && init[i] == (k, Fold(init, t).value[k]);
      assert ps[i] == init[i];
    }
  }
}
