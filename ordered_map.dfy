/**
 * `std::map<std::string, V>` as the sequence of its entries in iteration order.
 *
 * A `std::map` keeps its entries sorted by key and iterates them in that order;
 * the model is a sequence of entries whose keys strictly increase (`Sorted`).
 * `Find` is `map::find`, `Put` is `m[key] = value`, `Erase` is `map::erase(key)`.
 */
module OrderedMap {
  import opened Wrappers
  import opened StringOrder

  datatype Entry<V> = Entry(key: string, value: V)

  /** Keys strictly increase along the sequence: the iteration order of `std::map`. */
  predicate Sorted<V>(m: seq<Entry<V>>)
  {
    forall i, j :: 0 <= i < j < |m| ==> Less(m[i].key, m[j].key)
  }

  /** Every key of `m` is above `lo`. */
  predicate Above<V>(lo: string, m: seq<Entry<V>>)
  {
    forall i :: 0 <= i < |m| ==> Less(lo, m[i].key)
  }

  /** The keys in iteration order. */
  function Keys<V>(m: seq<Entry<V>>): (r: seq<string>)
    ensures |r| == |m|
    ensures forall i :: 0 <= i < |m| ==> r[i] == m[i].key
  {
    if m == [] then [] else [m[0].key] + Keys(m[1..])
  }

  /** The values in iteration order. */
  function Values<V>(m: seq<Entry<V>>): (r: seq<V>)
    ensures |r| == |m|
    ensures forall i :: 0 <= i < |m| ==> r[i] == m[i].value
  {
    if m == [] then [] else [m[0].value] + Values(m[1..])
  }

  /** `map::find`: the value stored under `key`, if any. */
  function Find<V>(m: seq<Entry<V>>, key: string): (r: Option<V>)
    ensures r.None? <==> forall i :: 0 <= i < |m| ==> m[i].key != key
    ensures r.Some? ==> exists i :: 0 <= i < |m| && m[i] == Entry(key, r.value)
  {
    if m == [] then None
    else if m[0].key == key then Some(m[0].value)
    else Find(m[1..], key)
  }

  /** The value under `key`, or `default` when `key` is absent (what `m[key]` reads). */
  function GetOr<V>(m: seq<Entry<V>>, key: string, default: V): V
  {
    match Find(m, key)
    case Some(v) => v
    case None => default
  }

  /** In a sorted map, the entry at index `i` is the one `find` returns for its key. */
  lemma {:induction false} FindAt<V>(m: seq<Entry<V>>, i: nat)
    requires Sorted(m) && i < |m|
    ensures Find(m, m[i].key) == Some(m[i].value)
  {
    if i > 0 {
      assert Less(m[0].key, m[i].key);
      LessIrreflexive(m[i].key);
      assert m[1..][i - 1] == m[i];
      FindAt(m[1..], i - 1);
    }
  }

  /** `m[key] = value`: overwrite the entry for `key`, or insert it at its sorted place. */
  function Put<V>(m: seq<Entry<V>>, key: string, value: V): (r: seq<Entry<V>>)
    requires Sorted(m)
    ensures Sorted(r)
    ensures Find(r, key) == Some(value)
    ensures forall k :: k != key ==> Find(r, k) == Find(m, k)
    ensures |r| == if Find(m, key).Some? then |m| else |m| + 1
    ensures forall lo :: Above(lo, m) && Less(lo, key) ==> Above(lo, r)
  {
    if m == [] then [Entry(key, value)]
    else if m[0].key == key then
      PutHead(m, value);
      [Entry(key, value)] + m[1..]
    else if Less(key, m[0].key) then
      PutFront(m, key, value);
      [Entry(key, value)] + m
    else
      var tail := Put(m[1..], key, value);
      LessTotal(key, m[0].key);
      PutCons(m, key, value, tail);
      [m[0]] + tail
  }

  /** `Put` on the first key replaces its value. */
  lemma PutHead<V>(m: seq<Entry<V>>, value: V)
    requires Sorted(m) && m != []
    ensures Sorted([Entry(m[0].key, value)] + m[1..])
    ensures forall k :: k != m[0].key ==> Find([Entry(m[0].key, value)] + m[1..], k) == Find(m, k)
    ensures forall lo :: Above(lo, m) ==> Above(lo, [Entry(m[0].key, value)] + m[1..])
  {
    var r := [Entry(m[0].key, value)] + m[1..];
    assert forall k :: k != m[0].key ==> Find(r, k) == Find(r[1..], k);
    assert r[1..] == m[1..];
  }

  /** `Put` of a key below every key of `m` inserts it in front. */
  lemma PutFront<V>(m: seq<Entry<V>>, key: string, value: V)
    requires Sorted(m) && m != [] && Less(key, m[0].key)
    ensures Sorted([Entry(key, value)] + m)
    ensures Find(m, key).None?
    ensures forall lo :: Above(lo, m) && Less(lo, key) ==> Above(lo, [Entry(key, value)] + m)
  {
    assert forall j :: 0 <= j < |m| ==> Less(key, m[j].key) by {
      forall j | 0 <= j < |m| ensures Less(key, m[j].key) {
        if j > 0 { LessTransitive(key, m[0].key, m[j].key); }
      }
    }
    LessIrreflexive(key);
  }

  /** `Put` of a key above the first key keeps the first entry and puts into the rest. */
  lemma PutCons<V>(m: seq<Entry<V>>, key: string, value: V, tail: seq<Entry<V>>)
    requires Sorted(m) && m != [] && Less(m[0].key, key)
    requires Sorted(tail)
    requires forall lo :: Above(lo, m[1..]) && Less(lo, key) ==> Above(lo, tail)
    ensures Sorted([m[0]] + tail)
    ensures forall lo :: Above(lo, m) && Less(lo, key) ==> Above(lo, [m[0]] + tail)
  {
    assert Above(m[0].key, m[1..]);
    assert Above(m[0].key, tail);
    forall lo | Above(lo, m) && Less(lo, key) ensures Above(lo, [m[0]] + tail) {
      assert Less(lo, m[0].key);
      assert Above(lo, m[1..]);
    }
  }

  /** `map::erase(key)`: the map without `key`, and how many entries went (0 or 1). */
  function Erase<V>(m: seq<Entry<V>>, key: string): (r: (seq<Entry<V>>, nat))
    requires Sorted(m)
    ensures Sorted(r.0)
    ensures Find(r.0, key).None?
    ensures forall k :: k != key ==> Find(r.0, k) == Find(m, k)
    ensures r.1 == if Find(m, key).Some? then 1 else 0
    ensures |r.0| == |m| - r.1
    ensures forall lo :: Above(lo, m) ==> Above(lo, r.0)
  {
    if m == [] then ([], 0)
    else if m[0].key == key then
      assert Above(key, m[1..]);
      forall i | 0 <= i < |m[1..]| ensures m[1..][i].key != key {
        LessIrreflexive(key);
      }
      (m[1..], 1)
    else
      var (tail, n) := Erase(m[1..], key);
      assert Above(m[0].key, m[1..]);
      assert forall lo :: Above(lo, m) ==> Above(lo, [m[0]] + tail) by {
        forall lo | Above(lo, m) ensures Above(lo, [m[0]] + tail) {
          assert Above(lo, m[1..]);
        }
      }
      ([m[0]] + tail, n)
  }

  /** In a sorted map, the entries after the first hold every key but the first one. */
  lemma FindTail<V>(m: seq<Entry<V>>, k: string)
    requires Sorted(m) && m != []
    ensures Find(m[1..], k) == if k == m[0].key then None else Find(m, k)
  {
    if k == m[0].key {
      LessIrreflexive(k);
      assert forall i :: 0 <= i < |m[1..]| ==> Less(k, m[1..][i].key);
    }
  }

  /** The first entry is found under its key. */
  lemma FindFirst<V>(m: seq<Entry<V>>)
    requires m != []
    ensures Find(m, m[0].key) == Some(m[0].value)
  {
  }

  /** A sorted map is determined by what `find` answers for every key. */
  lemma {:induction false} Extensionality<V>(m1: seq<Entry<V>>, m2: seq<Entry<V>>)
    requires Sorted(m1) && Sorted(m2)
    requires forall k :: Find(m1, k) == Find(m2, k)
    ensures m1 == m2
    decreases |m1|
  {
    if m1 == [] {
      if m2 != [] {
        FindFirst(m2);
        assert false;
      }
    } else {
      assert m2 != [] by { assert Find(m1, m1[0].key).Some?; }
      var k1, k2 := m1[0].key, m2[0].key;
      assert Find(m2, k1).Some?;
      var j :| 0 <= j < |m2| && m2[j].key == k1;
      assert Find(m1, k2).Some?;
      var i :| 0 <= i < |m1| && m1[i].key == k2;
      if j > 0 {
        LessIrreflexive(k1);
        if i > 0 {
          LessAsymmetric(k1, k2);
          assert false;
        }
        assert false;
      }
      assert m1[0] == m2[0] by { assert Find(m1, k1) == Some(m1[0].value); }
      forall k ensures Find(m1[1..], k) == Find(m2[1..], k) {
        FindTail(m1, k);
        FindTail(m2, k);
      }
      Extensionality(m1[1..], m2[1..]);
      assert m1 == [m1[0]] + m1[1..] && m2 == [m2[0]] + m2[1..];
    }
  }

  /** A second `m[key] = value` overwrites the first. */
  lemma PutPut<V>(m: seq<Entry<V>>, key: string, v1: V, v2: V)
    requires Sorted(m)
    ensures Put(Put(m, key, v1), key, v2) == Put(m, key, v2)
  {
    Extensionality(Put(Put(m, key, v1), key, v2), Put(m, key, v2));
  }

  /** Storing the value a key already holds changes nothing. */
  lemma PutFound<V>(m: seq<Entry<V>>, key: string)
    requires Sorted(m) && Find(m, key).Some?
    ensures Put(m, key, Find(m, key).value) == m
  {
    Extensionality(Put(m, key, Find(m, key).value), m);
  }
}
