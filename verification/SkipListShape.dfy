/** The mathematics of a skip list, free of the heap: ordered entries, the tower that a pointer at a
    given level leads to, and the abstract meaning of insert, remove and find. */
module SkipListShape {
  import opened Options

  /** What one node carries: its key, its value, and how many `d_nextNode` slots it uses. */
  datatype Entry<K, V> = Entry(key: K, value: V, level: nat)

  ghost predicate StrictTotalOrder<K(!new)>(less: (K, K) -> bool) {
    && (forall a :: !less(a, a))
    && (forall a, b, c :: less(a, b) && less(b, c) ==> less(a, c))
    && (forall a, b :: less(a, b) || a == b || less(b, a))
  }

  /** Keys never decrease; equal keys are allowed, because `insert` does not look for the key first. */
  ghost predicate Sorted<K, V>(es: seq<Entry<K, V>>, less: (K, K) -> bool) {
    forall i, j :: 0 <= i < j < |es| ==> !less(es[j].key, es[i].key)
  }

  ghost predicate DistinctKeys<K, V>(es: seq<Entry<K, V>>) {
    forall i, j :: 0 <= i < j < |es| ==> es[i].key != es[j].key
  }

  ghost predicate HasKey<K, V>(es: seq<Entry<K, V>>, key: K) {
    exists i :: 0 <= i < |es| && es[i].key == key
  }

  /** The number of leading entries whose key is smaller than `key`. */
  ghost function LowerBound<K(!new), V>(es: seq<Entry<K, V>>, key: K, less: (K, K) -> bool): (p: nat)
    ensures p <= |es|
    ensures forall i :: 0 <= i < p ==> less(es[i].key, key)
    ensures p < |es| ==> !less(es[p].key, key)
  {
    if es == [] || !less(es[0].key, key) then 0 else 1 + LowerBound(es[1..], key, less)
  }

  lemma LowerBoundSplits<K(!new), V>(es: seq<Entry<K, V>>, key: K, less: (K, K) -> bool)
    requires StrictTotalOrder(less) && Sorted(es, less)
    ensures forall i :: LowerBound(es, key, less) <= i < |es| ==> !less(es[i].key, key)
    ensures HasKey(es, key) <==>
            var p := LowerBound(es, key, less); p < |es| && es[p].key == key
  {
    var p := LowerBound(es, key, less);
    if p < |es| {
      assert less(key, es[p].key) || es[p].key == key;
    }
  }

  lemma LowerBoundIs<K(!new), V>(es: seq<Entry<K, V>>, key: K, less: (K, K) -> bool, p: nat)
    requires p <= |es|
    requires forall i :: 0 <= i < p ==> less(es[i].key, key)
    requires p < |es| ==> !less(es[p].key, key)
    ensures LowerBound(es, key, less) == p
  {
  }

  ghost function InsertAt<T>(s: seq<T>, p: nat, x: T): (r: seq<T>)
    requires p <= |s|
    ensures |r| == |s| + 1
    ensures forall m :: 0 <= m < |r| ==> r[m] == if m < p then s[m] else if m == p then x else s[m - 1]
  {
    s[..p] + [x] + s[p..]
  }

  lemma InsertAtMultiset<T>(s: seq<T>, p: nat, x: T)
    requires p <= |s|
    ensures multiset(InsertAt(s, p, x)) == multiset(s) + multiset{x}
  {
    assert s == s[..p] + s[p..];
  }

  ghost function RemoveAt<T>(s: seq<T>, p: nat): (r: seq<T>)
    requires p < |s|
    ensures |r| == |s| - 1
    ensures forall m :: 0 <= m < |r| ==> r[m] == if m < p then s[m] else s[m + 1]
  {
    s[..p] + s[p + 1..]
  }

  lemma RemoveAtMultiset<T>(s: seq<T>, p: nat)
    requires p < |s|
    ensures multiset(RemoveAt(s, p)) == multiset(s) - multiset{s[p]}
  {
    assert s == s[..p] + [s[p]] + s[p + 1..];
  }

  ghost function InsertEntry<K(!new), V>(es: seq<Entry<K, V>>, e: Entry<K, V>, less: (K, K) -> bool)
    : seq<Entry<K, V>>
  {
    InsertAt(es, LowerBound(es, e.key, less), e)
  }

  lemma InsertKeepsSorted<K(!new), V>(es: seq<Entry<K, V>>, e: Entry<K, V>, less: (K, K) -> bool)
    requires StrictTotalOrder(less) && Sorted(es, less)
    ensures Sorted(InsertEntry(es, e, less), less)
  {
    LowerBoundSplits(es, e.key, less);
  }

  /** Drops the first entry bound to `key`; an absent key leaves the entries alone. */
  ghost function RemoveEntry<K(!new), V>(es: seq<Entry<K, V>>, key: K, less: (K, K) -> bool): seq<Entry<K, V>> {
    var p := LowerBound(es, key, less);
    if p < |es| && es[p].key == key then RemoveAt(es, p) else es
  }

  lemma RemoveKeepsSorted<K(!new), V>(es: seq<Entry<K, V>>, p: nat, less: (K, K) -> bool)
    requires p < |es| && Sorted(es, less)
    ensures Sorted(RemoveAt(es, p), less)
  {
  }

  /** Within the run of entries bound to `key` that starts at `i`: the first one of greatest level. */
  ghost function TallestInRun<K, V>(es: seq<Entry<K, V>>, key: K, i: nat): (b: nat)
    requires i < |es| && es[i].key == key
    ensures i <= b < |es| && es[b].key == key
    ensures forall m :: i <= m < b ==> es[m].level < es[b].level
    decreases |es| - i
  {
    if i + 1 < |es| && es[i + 1].key == key then
      var b := TallestInRun(es, key, i + 1);
      if es[b].level > es[i].level then b else i
    else i
  }

  /** The value `find` answers with: that of the first entry, among the tallest ones bound to `key`. */
  ghost function FindEntry<K(!new), V>(es: seq<Entry<K, V>>, key: K, less: (K, K) -> bool): Option<V> {
    var p := LowerBound(es, key, less);
    if p < |es| && es[p].key == key then Some(es[TallestInRun(es, key, p)].value) else None
  }

  // ---------------------------------------------------------------- the finite map behind the entries

  ghost function ToMap<K, V>(es: seq<Entry<K, V>>): map<K, V> {
    if es == [] then map[] else ToMap(es[1..])[es[0].key := es[0].value]
  }

  lemma {:induction false} ToMapBinds<K, V>(es: seq<Entry<K, V>>, key: K)
    requires DistinctKeys(es)
    ensures key in ToMap(es) <==> HasKey(es, key)
    ensures forall i :: 0 <= i < |es| && es[i].key == key ==> ToMap(es)[key] == es[i].value
  {
    if es != [] {
      var rest := es[1..];
      assert forall i :: 0 <= i < |rest| ==> rest[i] == es[i + 1];
      assert DistinctKeys(rest);
      ToMapBinds(rest, key);
      if HasKey(es, key) {
        var i :| 0 <= i < |es| && es[i].key == key;
        assert i == 0 || rest[i - 1].key == key;
      } else {
        assert es[0].key != key;
      }
      if HasKey(rest, key) {
        var i :| 0 <= i < |rest| && rest[i].key == key;
        assert es[i + 1].key == key;
      }
    }
  }

  /** Inserting an absent key adds exactly that binding. */
  lemma InsertRefinesMap<K(!new), V>(es: seq<Entry<K, V>>, e: Entry<K, V>, less: (K, K) -> bool)
    requires DistinctKeys(es) && !HasKey(es, e.key)
    ensures DistinctKeys(InsertEntry(es, e, less))
    ensures ToMap(InsertEntry(es, e, less)) == ToMap(es)[e.key := e.value]
  {
    hide ToMap, LowerBound;
    var p := LowerBound(es, e.key, less);
    var now := InsertEntry(es, e, less);
    assert now[p] == e;
    forall k
      ensures k in ToMap(now) <==> k == e.key || k in ToMap(es)
      ensures k in ToMap(now) ==> ToMap(now)[k] == ToMap(es)[e.key := e.value][k]
    {
      ToMapBinds(es, k);
      ToMapBinds(now, k);
      assert forall i :: 0 <= i < |es| ==> es[i] == now[if i < p then i else i + 1];
    }
  }

  lemma KeysAfterRemove<K, V>(es: seq<Entry<K, V>>, p: nat, k: K)
    requires p < |es| && DistinctKeys(es)
    ensures HasKey(RemoveAt(es, p), k) <==> k != es[p].key && HasKey(es, k)
  {
    var now := RemoveAt(es, p);
    if HasKey(now, k) {
      var i :| 0 <= i < |now| && now[i].key == k;
      assert es[if i < p then i else i + 1].key == k;
    }
    if HasKey(es, k) && k != es[p].key {
      var i :| 0 <= i < |es| && es[i].key == k;
      assert now[if i < p then i else i - 1].key == k;
    }
  }

  /** Removing a present key deletes exactly that binding; removing an absent one changes nothing. */
  lemma RemoveRefinesMap<K(!new), V>(es: seq<Entry<K, V>>, key: K, less: (K, K) -> bool)
    requires StrictTotalOrder(less) && Sorted(es, less) && DistinctKeys(es)
    ensures DistinctKeys(RemoveEntry(es, key, less))
    ensures ToMap(RemoveEntry(es, key, less)) == ToMap(es) - {key}
  {
    hide ToMap, LowerBound;
    LowerBoundSplits(es, key, less);
    ToMapBinds(es, key);
    var p := LowerBound(es, key, less);
    if HasKey(es, key) {
      var now := RemoveAt(es, p);
      assert DistinctKeys(now);
      hide RemoveAt;
      forall k
        ensures k in ToMap(now) <==> k != key && k in ToMap(es)
        ensures k in ToMap(now) ==> ToMap(now)[k] == ToMap(es)[k]
      {
        KeysAfterRemove(es, p, k);
        ToMapBinds(es, k);
        ToMapBinds(now, k);
        if HasKey(now, k) {
          var i :| 0 <= i < |now| && now[i].key == k;
          assert now[i] == es[if i < p then i else i + 1];
        }
      }
      assert ToMap(now) == ToMap(es) - {key};
    }
  }

  /** `find` answers exactly what the map binds, whatever levels the nodes were given. */
  lemma {:induction false} FindRefinesMap<K(!new), V>(es: seq<Entry<K, V>>, key: K, less: (K, K) -> bool)
    requires StrictTotalOrder(less) && Sorted(es, less) && DistinctKeys(es)
    ensures FindEntry(es, key, less) == if key in ToMap(es) then Some(ToMap(es)[key]) else None
  {
    LowerBoundSplits(es, key, less);
    ToMapBinds(es, key);
  }

  /** A remove takes back the latest insert of the same key, duplicates or not. */
  lemma RemoveUndoesInsert<K(!new), V>(es: seq<Entry<K, V>>, e: Entry<K, V>, less: (K, K) -> bool)
    requires StrictTotalOrder(less) && Sorted(es, less)
    ensures RemoveEntry(InsertEntry(es, e, less), e.key, less) == es
  {
    var now := InsertEntry(es, e, less);
    var p := LowerBound(es, e.key, less);
    LowerBoundIs(now, e.key, less, p);
  }

  /** `insert` never overwrites: on a key already bound, `find` turns to the new value exactly when the new
      tower is at least as tall as the old one. */
  lemma FindAfterSecondInsert<K(!new), V>(es: seq<Entry<K, V>>, e: Entry<K, V>, less: (K, K) -> bool, was: nat)
    requires StrictTotalOrder(less) && Sorted(es, less) && DistinctKeys(es)
    requires was < |es| && es[was].key == e.key
    ensures FindEntry(InsertEntry(es, e, less), e.key, less) ==
            Some(if e.level >= es[was].level then e.value else es[was].value)
  {
    LowerBoundSplits(es, e.key, less);
    var now := InsertEntry(es, e, less);
    var p := LowerBound(es, e.key, less);
    assert HasKey(es, e.key);
    assert was == p && now[p] == e && now[p + 1] == es[p];
    LowerBoundIs(now, e.key, less, p);
    if p + 2 < |now| {
      assert now[p + 2] == es[p + 1];
    }
  }
}
