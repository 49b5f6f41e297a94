/** `std::map` iteration: begin, successor and last of a key set, and the ascending list they enumerate. */
module OrderedKeys {
  import opened Bytes

  /** The least key in `from .. bound`: `begin()` from 0, `++` behind a key from that key plus one. */
  function FirstFrom(keys: set<int>, from: nat, bound: nat): (r: Option<nat>)
    ensures r.Some? ==> from <= r.value < bound && r.value in keys
    decreases bound - from, keys
  {
    if from >= bound then None
    else if from in keys then Some(from)
    else FirstFrom(keys, from + 1, bound)
  }

  /** The greatest key below `bound`: `rbegin()`. */
  function LastBelow(keys: set<int>, bound: nat): (r: Option<nat>)
    ensures r.Some? ==> r.value < bound && r.value in keys
    decreases bound, keys
  {
    if bound == 0 then None
    else if bound - 1 in keys then Some(bound - 1)
    else LastBelow(keys, bound - 1)
  }

  /** The keys of `from .. bound` in iteration order. */
  function Ascending(keys: set<int>, from: nat, bound: nat): (r: seq<nat>)
    decreases bound - from, keys
  {
    match FirstFrom(keys, from, bound)
    case None => []
    case Some(k) => [k] + Ascending(keys, k + 1, bound)
  }

  lemma {:induction false} FirstIsLeast(keys: set<int>, from: nat, bound: nat)
    ensures FirstFrom(keys, from, bound) == None <==> forall k | k in keys :: k < from || k >= bound
    ensures FirstFrom(keys, from, bound).Some? ==>
              forall k | k in keys && from <= k :: FirstFrom(keys, from, bound).value <= k
    decreases bound - from
  {
    if from < bound && from !in keys {
      FirstIsLeast(keys, from + 1, bound);
    }
  }

  lemma {:induction false} LastIsGreatest(keys: set<int>, bound: nat)
    ensures LastBelow(keys, bound) == None <==> forall k | k in keys :: k < 0 || k >= bound
    ensures LastBelow(keys, bound).Some? ==> forall k | k in keys && k < bound :: k <= LastBelow(keys, bound).value
  {
    if bound > 0 && bound - 1 !in keys {
      LastIsGreatest(keys, bound - 1);
    }
  }

  predicate StrictlyAscending(s: seq<nat>) {
    forall i, j | 0 <= i < j < |s| :: s[i] < s[j]
  }

  /** Iteration visits exactly the keys in range, each once, in ascending order. */
  lemma {:induction false} AscendingMeaning(keys: set<int>, from: nat, bound: nat)
    ensures StrictlyAscending(Ascending(keys, from, bound))
    ensures forall k: int :: k in Ascending(keys, from, bound) <==> k in keys && from <= k < bound
    decreases bound - from
  {
    FirstIsLeast(keys, from, bound);
    match FirstFrom(keys, from, bound) {
      case None =>
      case Some(k) =>
        var rest := Ascending(keys, k + 1, bound);
        AscendingMeaning(keys, k + 1, bound);
        assert forall i | 0 <= i < |rest| :: rest[i] in rest;
    }
  }

  lemma {:induction false} DistinctElementsCount(s: seq<nat>, keys: set<int>)
    requires StrictlyAscending(s)
    requires forall k: int :: k in s <==> k in keys
    ensures |s| == |keys|
    decreases |s|
  {
    if s == [] {
      forall k: int ensures k !in keys { assert k !in s; }
      assert keys == {};
    } else {
      var n := |s| - 1;
      var rest := s[..n];
      assert forall k: int | k in rest :: k in s && k != s[n];
      assert forall k: int | k in s && k != s[n] :: k in rest;
      DistinctElementsCount(rest, keys - {s[n]});
    }
  }

  /** A walk visits as many keys as the map has. */
  lemma WalkLength(keys: set<int>, bound: nat)
    requires forall k | k in keys :: 0 <= k < bound
    ensures |Ascending(keys, 0, bound)| == |keys|
  {
    AscendingMeaning(keys, 0, bound);
    DistinctElementsCount(Ascending(keys, 0, bound), keys);
  }

  lemma {:induction false} CountBounded(keys: set<int>, n: nat)
    requires forall k | k in keys :: 0 <= k < n
    ensures |keys| <= n
  {
    if n == 0 {
      forall k: int ensures k !in keys {}
      assert keys == {};
    } else {
      CountBounded(keys - {n - 1}, n - 1);
    }
  }
}
