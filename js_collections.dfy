/**
 * The JavaScript collections the game code relies on.  A `Map` keeps its
 * entries in insertion order and holds at most one entry per key; a `Set`
 * keeps its members in insertion order without repetition.  Both are modelled
 * as sequences: a `Map<K, V>` as `Entries<K, V>`, a `Set<T>` as `seq<T>`.
 */
module JsCollections {
  import opened Wrappers

  type Entries<K, V> = seq<(K, V)>

  ghost predicate Distinct<T>(s: seq<T>) {
    forall i, j :: 0 <= i < j < |s| ==> s[i] != s[j]
  }

  /** Number of occurrences of `x` in `s`. */
  function Count<T(==)>(s: seq<T>, x: T): nat {
    if s == [] then 0 else (if s[0] == x then 1 else 0) + Count(s[1..], x)
  }

  /** The first position of `x` in `s`, or -1 when `x` does not occur. */
  function FirstIndex<T(==)>(s: seq<T>, x: T): (i: int)
    ensures -1 <= i < |s|
    ensures i == -1 <==> x !in s
    ensures 0 <= i ==> s[i] == x && x !in s[..i]
  {
    if s == [] then -1
    else if s[0] == x then 0
    else
      var j := FirstIndex(s[1..], x);
      if j < 0 then -1
      else
        assert s[..j + 1] == [s[0]] + s[1..][..j];
        j + 1
  }

  /** A position holding `x` with no `x` before it is the first position of `x`. */
  lemma FirstIndexAt<T>(s: seq<T>, x: T, i: int)
    requires 0 <= i < |s| && s[i] == x && x !in s[..i]
    ensures FirstIndex(s, x) == i
  {
    assert forall t :: 0 <= t < i ==> s[t] != x by {
      forall t | 0 <= t < i ensures s[t] != x { assert s[..i][t] == s[t]; }
    }
    var f := FirstIndex(s, x);
    assert 0 <= f;
    assert forall t :: 0 <= t < f ==> s[t] != x by {
      forall t | 0 <= t < f ensures s[t] != x { assert s[..f][t] == s[t]; }
    }
  }

  /** In a sequence without repetition, an element's first position is its only one. */
  lemma FirstIndexOfDistinct<T>(s: seq<T>, j: int)
    requires Distinct(s) && 0 <= j < |s|
    ensures FirstIndex(s, s[j]) == j
  {
    assert forall t :: 0 <= t < j ==> s[..j][t] == s[t];
    FirstIndexAt(s, s[j], j);
  }

  /** `Set.prototype.add`: a member already present keeps its place. */
  function SetAdd<T(==)>(s: seq<T>, x: T): seq<T> {
    if x in s then s else s + [x]
  }

  /** `Set.prototype.delete`. */
  function SetDelete<T(==)>(s: seq<T>, x: T): seq<T> {
    var i := FirstIndex(s, x);
    if i < 0 then s else s[..i] + s[i + 1..]
  }

  lemma SetAddMembers<T>(s: seq<T>, x: T)
    requires Distinct(s)
    ensures Distinct(SetAdd(s, x))
    ensures forall y :: y in SetAdd(s, x) <==> y in s || y == x
  {
  }

  /** After `delete(x)`, `x` is gone and every other member is kept. */
  lemma SetDeleteMembers<T>(s: seq<T>, x: T)
    requires Distinct(s)
    ensures Distinct(SetDelete(s, x))
    ensures x !in SetDelete(s, x)
    ensures forall y :: y != x ==> (y in SetDelete(s, x) <==> y in s)
  {
    var i := FirstIndex(s, x);
    if 0 <= i {
      var r := s[..i] + s[i + 1..];
      forall y | y in s && y != x
        ensures y in r
      {
        var k :| 0 <= k < |s| && s[k] == y;
        if k < i { assert r[k] == y; } else { assert r[k - 1] == y; }
      }
      forall k | 0 <= k < |r|
        ensures r[k] != x
      {
        if k < i { assert r[k] == s[k]; } else { assert r[k] == s[k + 1]; }
      }
    }
  }

  /**
   * `delete` keeps the order of the other members: an absent member leaves the
   * set as it is, and putting a deleted member back at its old position gives
   * the old set.
   */
  lemma SetDeleteOrder<T>(s: seq<T>, x: T)
    ensures x !in s ==> SetDelete(s, x) == s
    ensures x in s ==> |SetDelete(s, x)| == |s| - 1
    ensures x in s ==>
              s == SetDelete(s, x)[..FirstIndex(s, x)] + [x] + SetDelete(s, x)[FirstIndex(s, x)..]
  {
    var i := FirstIndex(s, x);
    if 0 <= i {
      ReinsertAt(s, i);
    }
  }

  /** Cutting out the element at `i` and putting it back gives the sequence again. */
  lemma ReinsertAt<T>(s: seq<T>, i: int)
    requires 0 <= i < |s|
    ensures var r := s[..i] + s[i + 1..]; |r| == |s| - 1 && s == r[..i] + [s[i]] + r[i..]
  {
    var r := s[..i] + s[i + 1..];
    assert r[..i] == s[..i];
    assert r[i..] == s[i + 1..];
    assert s == s[..i] + [s[i]] + s[i + 1..];
  }

  /** Iterating a sequence without repetition visits each member exactly once. */
  lemma {:induction false} CountDistinct<T>(s: seq<T>, x: T)
    requires Distinct(s)
    ensures Count(s, x) == if x in s then 1 else 0
  {
    if s != [] {
      CountDistinct(s[1..], x);
      if s[0] == x {
        assert x !in s[1..] by {
          forall k | 0 <= k < |s[1..]|
            ensures s[1..][k] != x
          {
            assert s[1..][k] == s[k + 1];
          }
        }
      }
    }
  }

  // ---------------------------------------------------------------- Map

  function Keys<K, V>(m: Entries<K, V>): seq<K> {
    seq(|m|, i requires 0 <= i < |m| => m[i].0)
  }

  function Values<K, V>(m: Entries<K, V>): seq<V> {
    seq(|m|, i requires 0 <= i < |m| => m[i].1)
  }

  ghost predicate DistinctKeys<K, V>(m: Entries<K, V>) {
    Distinct(Keys(m))
  }

  /** `Map.prototype.has`. */
  function Has<K(==), V>(m: Entries<K, V>, k: K): bool {
    k in Keys(m)
  }

  /** `Map.prototype.get`; `None` is JavaScript's `undefined`. */
  function Get<K(==), V>(m: Entries<K, V>, k: K): Option<V> {
    var i := FirstIndex(Keys(m), k);
    if i < 0 then None else Some(m[i].1)
  }

  /** `Map.prototype.set`: an existing key keeps its place, a new key goes last. */
  function Set<K(==), V>(m: Entries<K, V>, k: K, v: V): Entries<K, V> {
    var i := FirstIndex(Keys(m), k);
    if i < 0 then m + [(k, v)] else m[i := (k, v)]
  }

  /** `Map.prototype.delete`. */
  function Delete<K(==), V>(m: Entries<K, V>, k: K): Entries<K, V> {
    var i := FirstIndex(Keys(m), k);
    if i < 0 then m else m[..i] + m[i + 1..]
  }

  lemma KeysValuesAgree<K, V>(m: Entries<K, V>)
    ensures |Keys(m)| == |Values(m)| == |m|
    ensures forall i :: 0 <= i < |m| ==> m[i] == (Keys(m)[i], Values(m)[i])
  {
  }

  /** After `set(k, v)`, `get(k)` is `v` and every other key reads as before. */
  lemma SetGet<K, V>(m: Entries<K, V>, k: K, v: V, k': K)
    ensures Get(Set(m, k, v), k') == if k' == k then Some(v) else Get(m, k')
  {
    var ks := Keys(m);
    var i := FirstIndex(ks, k);
    var r := Set(m, k, v);
    if i < 0 {
      assert Keys(r) == ks + [k];
      if k' != k {
        var j := FirstIndex(ks, k');
        if j >= 0 {
          assert (ks + [k])[..j] == ks[..j];
          FirstIndexAt(ks + [k], k', j);
        }
      }
    } else {
      assert Keys(r) == ks;
    }
  }

  /** `set` keeps the key order, appending a new key at the end. */
  lemma SetKeys<K, V>(m: Entries<K, V>, k: K, v: V)
    ensures Keys(Set(m, k, v)) == if Has(m, k) then Keys(m) else Keys(m) + [k]
    ensures DistinctKeys(m) ==> DistinctKeys(Set(m, k, v))
  {
    var r := Set(m, k, v);
    if Has(m, k) {
      assert Keys(r) == Keys(m);
    } else {
      assert Keys(r) == Keys(m) + [k];
    }
  }

  /** `set` on a key that is present replaces the value at that key's position. */
  lemma SetExisting<K, V>(m: Entries<K, V>, j: int, v: V)
    requires DistinctKeys(m) && 0 <= j < |m|
    ensures Set(m, m[j].0, v) == m[j := (m[j].0, v)]
  {
    assert Keys(m)[j] == m[j].0;
    FirstIndexOfDistinct(Keys(m), j);
  }

  /** After `delete(k)`, `get(k)` is undefined and every other key reads as before. */
  lemma DeleteGet<K, V>(m: Entries<K, V>, k: K, k': K)
    requires DistinctKeys(m)
    ensures Get(Delete(m, k), k') == if k' == k then None else Get(m, k')
  {
    var ks := Keys(m);
    var i := FirstIndex(ks, k);
    if 0 <= i {
      var r := Delete(m, k);
      assert Keys(r) == ks[..i] + ks[i + 1..];
      assert Keys(r) == SetDelete(ks, k);
      SetDeleteMembers(ks, k);
      var j := FirstIndex(Keys(r), k');
      if 0 <= j {
        var jm := if j < i then j else j + 1;
        assert ks[jm] == Keys(r)[j];
        FirstIndexOfDistinct(ks, jm);
        FirstIndexOfDistinct(Keys(r), j);
      }
    }
  }

  /** `delete` removes exactly that key and keeps the other keys in order. */
  lemma DeleteKeys<K, V>(m: Entries<K, V>, k: K)
    requires DistinctKeys(m)
    ensures Keys(Delete(m, k)) == SetDelete(Keys(m), k)
    ensures DistinctKeys(Delete(m, k))
    ensures !Has(Delete(m, k), k)
    ensures forall k' :: k' != k ==> (Has(Delete(m, k), k') <==> Has(m, k'))
  {
    var i := FirstIndex(Keys(m), k);
    if 0 <= i {
      assert Keys(Delete(m, k)) == Keys(m)[..i] + Keys(m)[i + 1..];
    }
    SetDeleteMembers(Keys(m), k);
  }
}
