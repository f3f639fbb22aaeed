/**
 Insertion-ordered maps, the way the components use JavaScript objects and `Map`s:
 a sequence of key/value pairs whose keys are, in a well-formed map, pairwise different.
 `Put` is `obj[k] = v` / `Map.prototype.set` (an existing key keeps its position),
 `Remove` is `Map.prototype.delete`.
 */
module OrderedMap {
  import opened Base

  type Key = string

  type OMap<V> = seq<(Key, V)>

  function Keys<V>(m: OMap<V>): (ks: seq<Key>)
    ensures |ks| == |m|
    ensures forall i :: 0 <= i < |m| ==> ks[i] == m[i].0
  {
    seq(|m|, i requires 0 <= i < |m| => m[i].0)
  }

  function Values<V>(m: OMap<V>): (vs: seq<V>)
    ensures |vs| == |m|
    ensures forall i :: 0 <= i < |m| ==> vs[i] == m[i].1
  {
    seq(|m|, i requires 0 <= i < |m| => m[i].1)
  }

  /** No key occurs twice. */
  predicate Wf<V>(m: OMap<V>) {
    Distinct(Keys(m))
  }

  predicate HasKey<V>(m: OMap<V>, k: Key) {
    k in Keys(m)
  }

  /** The value stored under `k` (at the first occurrence of the key). */
  function Get<V>(m: OMap<V>, k: Key): (r: Option<V>)
    ensures r.Some? <==> HasKey(m, k)
    ensures Wf(m) ==> forall i :: 0 <= i < |m| && m[i].0 == k ==> r == Some(m[i].1)
  {
    if HasKey(m, k) then
      var i := IndexOf(Keys(m), k);
      assert Wf(m) ==> forall j :: 0 <= j < |m| && m[j].0 == k ==> j == i;
      Some(m[i].1)
    else None
  }

  /** `obj[k] = v`: an existing key is updated in place, a new key is appended. */
  function Put<V>(m: OMap<V>, k: Key, v: V): (r: OMap<V>)
    ensures HasKey(m, k) ==> Keys(r) == Keys(m)
    ensures !HasKey(m, k) ==> r == m + [(k, v)]
    ensures Wf(m) ==> Wf(r)
    ensures Get(r, k) == Some(v)
    ensures forall k' | k' != k :: Get(r, k') == Get(m, k')
    ensures forall p :: p in r ==> p in m || p == (k, v)
  {
    if HasKey(m, k) then
      var i := IndexOf(Keys(m), k);
      var r := m[i := (k, v)];
      assert Keys(r) == Keys(m);
      r
    else
      var r := m + [(k, v)];
      assert Keys(r) == Keys(m) + [k];
      assert forall k' | k' != k && HasKey(m, k') :: IndexOf(Keys(r), k') == IndexOf(Keys(m), k') by {
        forall k' | k' != k && HasKey(m, k') ensures IndexOf(Keys(r), k') == IndexOf(Keys(m), k') {
          IndexOfAppend(Keys(m), k, k');
        }
      }
      r
  }

  /** `Map.prototype.delete(k)`. */
  function Remove<V>(m: OMap<V>, k: Key): (r: OMap<V>)
    ensures Keys(r) == RemoveAll(Keys(m), k)
    ensures !HasKey(r, k)
    ensures Wf(m) ==> Wf(r)
    ensures Wf(m) ==> forall k' | k' != k :: Get(r, k') == Get(m, k')
  {
    if |m| == 0 then []
    else
      var t := Remove(m[1..], k);
      if m[0].0 == k then
        RemoveHead(m, k, t);
        t
      else
        RemoveCons(m, k, t);
        [m[0]] + t
  }

  /** Dropping the head pair when it holds the removed key. */
  lemma RemoveHead<V>(m: OMap<V>, k: Key, t: OMap<V>)
    requires |m| > 0 && m[0].0 == k
    requires Keys(t) == RemoveAll(Keys(m[1..]), k)
    requires Wf(m[1..]) ==> forall k' | k' != k :: Get(t, k') == Get(m[1..], k')
    ensures Keys(t) == RemoveAll(Keys(m), k)
    ensures Wf(m) ==> forall k' | k' != k :: Get(t, k') == Get(m, k')
  {
    assert Keys(m) == [m[0].0] + Keys(m[1..]);
    if Wf(m) {
      WfTail(m);
    }
  }

  /** Keeping the head pair when it holds another key. */
  lemma RemoveCons<V>(m: OMap<V>, k: Key, t: OMap<V>)
    requires |m| > 0 && m[0].0 != k
    requires Keys(t) == RemoveAll(Keys(m[1..]), k)
    requires Wf(m[1..]) ==> Wf(t) && forall k' | k' != k :: Get(t, k') == Get(m[1..], k')
    ensures Keys([m[0]] + t) == RemoveAll(Keys(m), k)
    ensures Wf(m) ==> forall k' | k' != k :: Get([m[0]] + t, k') == Get(m, k')
  {
    assert Keys(m) == [m[0].0] + Keys(m[1..]);
    assert Keys([m[0]] + t) == [m[0].0] + Keys(t);
    if Wf(m) {
      WfTail(m);
      WfCons(m[0], t);
    }
  }

  /** The sequence `s` with every occurrence of `x` taken out. */
  function RemoveAll(s: seq<Key>, x: Key): (r: seq<Key>)
    ensures x !in r
    ensures |r| <= |s|
    ensures forall y | y != x :: y in r <==> y in s
    ensures Distinct(s) ==> Distinct(r)
  {
    if |s| == 0 then []
    else
      var t := RemoveAll(s[1..], x);
      if s[0] == x then t
      else
        assert Distinct(s) ==> Distinct(s[1..]) && s[0] !in s[1..] by {
          if Distinct(s) {
            assert forall i :: 0 <= i < |s[1..]| ==> s[1..][i] == s[i + 1];
          }
        }
        [s[0]] + t
  }

  lemma IndexOfAppend(s: seq<Key>, x: Key, y: Key)
    requires y in s
    ensures IndexOf(s + [x], y) == IndexOf(s, y)
  {
    var i := IndexOf(s, y);
    assert (s + [x])[i] == y;
    IndexOfFirst(s + [x], y, i);
  }

  /** The tail of a well-formed map is well formed and does not hold the head's key. */
  lemma WfTail<V>(m: OMap<V>)
    requires Wf(m) && |m| > 0
    ensures Wf(m[1..])
    ensures !HasKey(m[1..], m[0].0)
    ensures forall k | k != m[0].0 :: Get(m, k) == Get(m[1..], k)
  {
    assert Keys(m) == [m[0].0] + Keys(m[1..]);
    forall k | k != m[0].0 ensures Get(m, k) == Get(m[1..], k) {
      if HasKey(m[1..], k) {
        var i := IndexOf(Keys(m[1..]), k);
        assert m[i + 1].0 == k;
      }
    }
  }

  /** Putting a pair with a fresh key in front of a well-formed map. */
  lemma WfCons<V>(p: (Key, V), t: OMap<V>)
    requires Wf(t) && !HasKey(t, p.0)
    ensures Wf([p] + t)
    ensures Get([p] + t, p.0) == Some(p.1)
    ensures forall k | k != p.0 :: Get([p] + t, k) == Get(t, k)
  {
    var m := [p] + t;
    assert Keys(m) == [p.0] + Keys(t);
    assert m[1..] == t;
    WfTail(m);
  }

  /** A run of `Put`s in order: a later pair overwrites an earlier one with the same key. */
  function PutAll<V>(m: OMap<V>, kvs: seq<(Key, V)>): OMap<V>
    decreases |kvs|
  {
    if |kvs| == 0 then m
    else Put(PutAll(m, kvs[..|kvs| - 1]), kvs[|kvs| - 1].0, kvs[|kvs| - 1].1)
  }

  /** Well-formedness is kept. */
  lemma {:induction false} PutAllWf<V>(m: OMap<V>, kvs: seq<(Key, V)>)
    requires Wf(m)
    ensures Wf(PutAll(m, kvs))
    decreases |kvs|
  {
    if |kvs| > 0 {
      PutAllWf(m, kvs[..|kvs| - 1]);
    }
  }

  /** A key is in the result exactly when it was in the map or is put. */
  lemma {:induction false} PutAllHasKey<V>(m: OMap<V>, kvs: seq<(Key, V)>, k: Key)
    ensures HasKey(PutAll(m, kvs), k) <==> HasKey(m, k) || HasKey(kvs, k)
    decreases |kvs|
  {
    if |kvs| > 0 {
      var n := |kvs| - 1;
      PutAllHasKey(m, kvs[..n], k);
      assert Keys(kvs) == Keys(kvs[..n]) + [kvs[n].0];
      var p := PutAll(m, kvs[..n]);
      assert Get(Put(p, kvs[n].0, kvs[n].1), k).Some? <==> k == kvs[n].0 || Get(p, k).Some?;
    }
  }

  /** The value under a key is the last one put under it. */
  lemma {:induction false} PutAllGetLast<V>(m: OMap<V>, kvs: seq<(Key, V)>, i: int)
    requires 0 <= i < |kvs|
    requires forall j | i < j < |kvs| :: kvs[j].0 != kvs[i].0
    ensures Get(PutAll(m, kvs), kvs[i].0) == Some(kvs[i].1)
    decreases |kvs|
  {
    var n := |kvs| - 1;
    if i < n {
      var front := kvs[..n];
      assert forall j | 0 <= j < n :: front[j] == kvs[j];
      PutAllGetLast(m, front, i);
    }
  }

  /** A key that is never put keeps the map's own value. */
  lemma {:induction false} PutAllGetUntouched<V>(m: OMap<V>, kvs: seq<(Key, V)>, k: Key)
    requires forall i | 0 <= i < |kvs| :: kvs[i].0 != k
    ensures Get(PutAll(m, kvs), k) == Get(m, k)
    decreases |kvs|
  {
    if |kvs| > 0 {
      var n := |kvs| - 1;
      var front := kvs[..n];
      assert forall j | 0 <= j < n :: front[j] == kvs[j];
      PutAllGetUntouched(m, front, k);
    }
  }

  /** Every entry comes from the map or from the pairs put. */
  lemma {:induction false} PutAllEntries<V>(m: OMap<V>, kvs: seq<(Key, V)>)
    ensures forall p :: p in PutAll(m, kvs) ==> p in m || p in kvs
    decreases |kvs|
  {
    if |kvs| > 0 {
      var n := |kvs| - 1;
      PutAllEntries(m, kvs[..n]);
      assert forall p :: p in kvs[..n] ==> p in kvs;
    }
  }
}
