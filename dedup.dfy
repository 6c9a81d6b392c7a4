/**
 * Keep-first deduplication of a sequence by a key: what pandas'
 * `drop_duplicates(subset=[...])` does with its default `keep='first'`, and
 * also the order in which a Python dict (so a `Counter`) remembers its keys.
 */
module Dedup {

  /** The key of every element, in order. */
  function Keys<T, K>(s: seq<T>, key: T -> K): (ks: seq<K>)
    ensures |ks| == |s|
    ensures forall i :: 0 <= i < |s| ==> ks[i] == key(s[i])
  {
    seq(|s|, i requires 0 <= i < |s| => key(s[i]))
  }

  /** No two elements of `s` share a key. */
  predicate KeysDistinct<T, K(==)>(s: seq<T>, key: T -> K) {
    forall i, j :: 0 <= i < j < |s| ==> key(s[i]) != key(s[j])
  }

  /** The position of the first element of `s` whose key is `k`. */
  function FirstIndex<T, K(==)>(s: seq<T>, key: T -> K, k: K): (i: nat)
    requires k in Keys(s, key)
    ensures i < |s| && key(s[i]) == k
    ensures forall j :: 0 <= j < i ==> key(s[j]) != k
  {
    if key(s[0]) == k then 0
    else
      assert k in Keys(s[1..], key) by {
        var j :| 0 <= j < |s| && Keys(s, key)[j] == k;
        assert j > 0 && Keys(s[1..], key)[j - 1] == k;
      }
      1 + FirstIndex(s[1..], key, k)
  }

  /**
   * `s` with every element dropped whose key already occurred earlier:
   * an element survives exactly when it is the first with its key.
   */
  function KeepFirst<T, K(==)>(s: seq<T>, key: T -> K): (r: seq<T>)
    ensures |r| <= |s|
  {
    if s == [] then []
    else
      var init := s[..|s| - 1];
      if key(s[|s| - 1]) in Keys(init, key) then KeepFirst(init, key)
      else KeepFirst(init, key) + [s[|s| - 1]]
  }

  lemma KeysAppend<T, K>(s: seq<T>, x: T, key: T -> K)
    ensures Keys(s + [x], key) == Keys(s, key) + [key(x)]
  {
  }

  /** Appending an element moves no first occurrence, and a new key is found at the end. */
  lemma {:induction false} FirstIndexAppend<T, K>(s: seq<T>, x: T, key: T -> K, k: K)
    requires k in Keys(s + [x], key)
    ensures k in Keys(s, key) ==> FirstIndex(s + [x], key, k) == FirstIndex(s, key, k)
    ensures k !in Keys(s, key) ==> FirstIndex(s + [x], key, k) == |s|
  {
    KeysAppend(s, x, key);
    if k in Keys(s, key) {
      var i := FirstIndex(s, key, k);
      var i' := FirstIndex(s + [x], key, k);
      assert (s + [x])[i] == s[i];
      assert !(i' < i);
      assert !(i < i');
    }
  }

  /** The first occurrence of an old key is unchanged by appending. */
  lemma FirstIndexStable<T, K>(s: seq<T>, x: T, key: T -> K)
    ensures forall k :: k in Keys(s, key) ==>
              k in Keys(s + [x], key) && FirstIndex(s + [x], key, k) == FirstIndex(s, key, k)
  {
    KeysAppend(s, x, key);
    forall k | k in Keys(s, key)
      ensures FirstIndex(s + [x], key, k) == FirstIndex(s, key, k)
    {
      FirstIndexAppend(s, x, key, k);
    }
  }

  /** Every survivor is the first element of `s` with its key. */
  lemma {:induction false} KeepFirstSurvivors<T, K>(s: seq<T>, key: T -> K)
    ensures forall k :: 0 <= k < |KeepFirst(s, key)| ==>
              key(KeepFirst(s, key)[k]) in Keys(s, key) &&
              KeepFirst(s, key)[k] == s[FirstIndex(s, key, key(KeepFirst(s, key)[k]))]
    decreases |s|
  {
    if s != [] {
      var init, x := s[..|s| - 1], s[|s| - 1];
      assert s == init + [x];
      KeepFirstSurvivors(init, key);
      FirstIndexStable(init, x, key);
      if key(x) !in Keys(init, key) {
        KeysAppend(init, x, key);
        FirstIndexAppend(init, x, key, key(x));
      }
    }
  }

  /** Every key of `s` survives. */
  lemma {:induction false} KeepFirstCovers<T, K>(s: seq<T>, key: T -> K)
    ensures forall i :: 0 <= i < |s| ==> key(s[i]) in Keys(KeepFirst(s, key), key)
    decreases |s|
  {
    if s != [] {
      var init, x := s[..|s| - 1], s[|s| - 1];
      KeepFirstCovers(init, key);
      var r0 := KeepFirst(init, key);
      if key(x) in Keys(init, key) {
        var j :| 0 <= j < |init| && Keys(init, key)[j] == key(x);
        assert key(init[j]) in Keys(r0, key);
      } else {
        KeysAppend(r0, x, key);
      }
      forall i | 0 <= i < |init|
        ensures key(s[i]) in Keys(KeepFirst(s, key), key)
      {
        assert s[i] == init[i];
        assert key(init[i]) in Keys(r0, key);
        if key(x) !in Keys(init, key) {
          KeysAppend(r0, x, key);
        }
      }
    }
  }

  /** Survivors keep the order of their first occurrences. */
  lemma {:induction false} KeepFirstOrdered<T, K>(s: seq<T>, key: T -> K)
    ensures forall a, b :: 0 <= a < b < |KeepFirst(s, key)| ==>
              key(KeepFirst(s, key)[a]) in Keys(s, key) &&
              key(KeepFirst(s, key)[b]) in Keys(s, key) &&
              FirstIndex(s, key, key(KeepFirst(s, key)[a])) < FirstIndex(s, key, key(KeepFirst(s, key)[b]))
    decreases |s|
  {
    KeepFirstSurvivors(s, key);
    if s != [] {
      var init, x := s[..|s| - 1], s[|s| - 1];
      assert s == init + [x];
      KeepFirstOrdered(init, key);
      KeepFirstSurvivors(init, key);
      FirstIndexStable(init, x, key);
      if key(x) !in Keys(init, key) {
        KeysAppend(init, x, key);
        FirstIndexAppend(init, x, key, key(x));
      }
    }
  }

  /**
   * What keep-first deduplication means:
   *  - every survivor is the first element of `s` with its key;
   *  - every key of `s` survives;
   *  - survivors keep the order of their first occurrences, so their keys are
   *    pairwise distinct and the result is a subsequence of `s`.
   */
  lemma KeepFirstSpec<T, K>(s: seq<T>, key: T -> K)
    ensures forall k :: 0 <= k < |KeepFirst(s, key)| ==>
              key(KeepFirst(s, key)[k]) in Keys(s, key) &&
              KeepFirst(s, key)[k] == s[FirstIndex(s, key, key(KeepFirst(s, key)[k]))]
    ensures forall i :: 0 <= i < |s| ==> key(s[i]) in Keys(KeepFirst(s, key), key)
    ensures forall a, b :: 0 <= a < b < |KeepFirst(s, key)| ==>
              key(KeepFirst(s, key)[a]) in Keys(s, key) &&
              key(KeepFirst(s, key)[b]) in Keys(s, key) &&
              FirstIndex(s, key, key(KeepFirst(s, key)[a])) < FirstIndex(s, key, key(KeepFirst(s, key)[b]))
    ensures KeysDistinct(KeepFirst(s, key), key)
  {
    KeepFirstSurvivors(s, key);
    KeepFirstCovers(s, key);
    KeepFirstOrdered(s, key);
  }

  /** Deduplicating a sequence whose keys are already distinct changes nothing. */
  lemma {:induction false} KeepFirstDistinct<T, K>(s: seq<T>, key: T -> K)
    requires KeysDistinct(s, key)
    ensures KeepFirst(s, key) == s
    decreases |s|
  {
    if s != [] {
      var init, x := s[..|s| - 1], s[|s| - 1];
      KeepFirstDistinct(init, key);
      assert s == init + [x];
    }
  }

  /** Deduplication is idempotent. */
  lemma KeepFirstIdempotent<T, K>(s: seq<T>, key: T -> K)
    ensures KeepFirst(KeepFirst(s, key), key) == KeepFirst(s, key)
  {
    KeepFirstSpec(s, key);
    KeepFirstDistinct(KeepFirst(s, key), key);
  }

  /** Every survivor is an element of the input. */
  lemma KeepFirstElements<T, K>(s: seq<T>, key: T -> K)
    ensures forall k :: 0 <= k < |KeepFirst(s, key)| ==> KeepFirst(s, key)[k] in s
  {
    KeepFirstSpec(s, key);
  }
}
