/**
 * A Python `dict` with string keys, as an insertion-ordered association list.
 * Iteration order is insertion order; assigning to a key that is already
 * present replaces its value and keeps its position.
 */
module PyDict {
  import opened Wrappers

  /** Entries in iteration order. */
  type Dict<V> = seq<(string, V)>

  /** The keys of `d` in iteration order (`list(d)`). */
  function Keys<V>(d: Dict<V>): seq<string>
  {
    seq(|d|, k requires 0 <= k < |d| => d[k].0)
  }

  ghost predicate Distinct(s: seq<string>)
  {
    forall i, j :: 0 <= i < j < |s| ==> s[i] != s[j]
  }

  /** Position of `key` in `d`: its first occurrence, or None when it is absent. */
  function Find<V>(d: Dict<V>, key: string): (r: Option<nat>)
    ensures r.Some? ==> r.value < |d| && d[r.value].0 == key
    ensures r.Some? ==> forall j :: 0 <= j < r.value ==> d[j].0 != key
    ensures r.None? <==> key !in Keys(d)
  {
    if d == [] then None
    else if d[0].0 == key then (assert Keys(d)[0] == key; Some(0))
    else match Find(d[1..], key)
      case None => (assert Keys(d) == [d[0].0] + Keys(d[1..]); None)
      case Some(j) => (assert Keys(d) == [d[0].0] + Keys(d[1..]); Some(j + 1))
  }

  /** With distinct keys, the entry at position `k` is the one stored under its key. */
  lemma GetAt<V>(d: Dict<V>, k: nat)
    requires Distinct(Keys(d)) && k < |d|
    ensures Get(d, d[k].0) == Some(d[k].1)
  {
    assert forall j :: 0 <= j < k ==> d[j].0 == Keys(d)[j] != Keys(d)[k];
    assert Find(d, d[k].0) == Some(k);
  }

  /** `d.get(key)`: the value stored under `key`, or None. */
  function Get<V>(d: Dict<V>, key: string): Option<V>
  {
    match Find(d, key)
    case None => None
    case Some(j) => Some(d[j].1)
  }

  /** `d[key] = v`: replace in place when present, append otherwise. */
  function Set<V>(d: Dict<V>, key: string, v: V): (r: Dict<V>)
    ensures Keys(r) == if key in Keys(d) then Keys(d) else Keys(d) + [key]
    ensures Get(r, key) == Some(v)
    ensures forall k :: k != key ==> Get(r, k) == Get(d, k)
    ensures Distinct(Keys(d)) ==> Distinct(Keys(r))
  {
    match Find(d, key)
    case None => (SetAbsent(d, key, v); d + [(key, v)])
    case Some(j) => (SetPresent(d, key, v, j); d[j := (key, v)])
  }

  lemma SetAbsent<V>(d: Dict<V>, key: string, v: V)
    requires key !in Keys(d)
    ensures var r := d + [(key, v)];
      && Keys(r) == Keys(d) + [key]
      && Get(r, key) == Some(v)
      && (forall k :: k != key ==> Get(r, k) == Get(d, k))
      && (Distinct(Keys(d)) ==> Distinct(Keys(r)))
  {
    var r := d + [(key, v)];
    assert Keys(r) == Keys(d) + [key];
    forall k | k != key ensures Get(r, k) == Get(d, k) {
      var fr, fd := Find(r, k), Find(d, k);
      if fd.Some? {
        assert r[fd.value].0 == k;
        assert fr.Some? && fr.value <= fd.value;
        assert d[fr.value].0 == k;
      } else {
        assert k !in Keys(r);
      }
    }
    var fr := Find(r, key);
    assert r[|d|].0 == key;
    assert forall i :: 0 <= i < |d| ==> Keys(d)[i] == d[i].0 == r[i].0;
    assert fr.Some? && fr.value == |d|;
  }

  lemma SetPresent<V>(d: Dict<V>, key: string, v: V, j: nat)
    requires Find(d, key) == Some(j)
    ensures var r := d[j := (key, v)];
      && Keys(r) == Keys(d)
      && Get(r, key) == Some(v)
      && (forall k :: k != key ==> Get(r, k) == Get(d, k))
  {
    var r := d[j := (key, v)];
    assert Keys(r) == Keys(d);
    forall k | k != key ensures Get(r, k) == Get(d, k) {
      var fr, fd := Find(r, k), Find(d, k);
      if fd.Some? {
        assert r[fd.value].0 == k;
        assert fr.Some? && fr.value <= fd.value;
        assert d[fr.value].0 == k;
      }
    }
    var fr := Find(r, key);
    assert r[j].0 == key;
    assert forall i :: 0 <= i < j ==> r[i].0 == d[i].0 != key;
    assert fr.Some? && fr.value == j;
  }
}
