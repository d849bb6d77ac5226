/** Insertion-ordered maps, as JavaScript's `Map`: a list of entries whose keys are distinct. */
module JsMap {
  import opened Wrappers

  datatype Entry<+K, +V> = Entry(key: K, value: V)

  predicate UniqueKeys<K(==), V>(m: seq<Entry<K, V>>) {
    forall i, j :: 0 <= i < j < |m| ==> m[i].key != m[j].key
  }

  predicate Has<K(==), V>(m: seq<Entry<K, V>>, key: K) {
    exists i :: 0 <= i < |m| && m[i].key == key
  }

  function Get<K(==), V>(m: seq<Entry<K, V>>, key: K): Option<V> {
    if m == [] then None
    else if m[0].key == key then Some(m[0].value)
    else Get(m[1..], key)
  }

  function Set<K(==), V>(m: seq<Entry<K, V>>, key: K, value: V): seq<Entry<K, V>> {
    if m == [] then [Entry(key, value)]
    else if m[0].key == key then [Entry(key, value)] + m[1..]
    else [m[0]] + Set(m[1..], key, value)
  }

  function Delete<K(==), V>(m: seq<Entry<K, V>>, key: K): seq<Entry<K, V>> {
    if m == [] then []
    else if m[0].key == key then m[1..]
    else [m[0]] + Delete(m[1..], key)
  }

  lemma {:induction false} GetSomeIff<K, V>(m: seq<Entry<K, V>>, key: K)
    ensures Get(m, key).Some? <==> Has(m, key)
    ensures Get(m, key).Some? ==> Entry(key, Get(m, key).value) in m
  {
    if m != [] {
      GetSomeIff(m[1..], key);
      assert m == [m[0]] + m[1..];
      if Has(m, key) && m[0].key != key {
        var i :| 0 <= i < |m| && m[i].key == key;
        assert m[1..][i - 1].key == key;
      }
    }
  }

  /** A key that is not there yet goes to the end. */
  lemma {:induction false} SetNew<K, V>(m: seq<Entry<K, V>>, key: K, value: V)
    requires !Has(m, key)
    ensures Set(m, key, value) == m + [Entry(key, value)]
    ensures UniqueKeys(m) ==> UniqueKeys(Set(m, key, value))
  {
    if m != [] {
      assert m[0].key != key;
      forall i | 0 <= i < |m[1..]| ensures m[1..][i].key != key {
        assert m[i + 1].key != key;
      }
      SetNew(m[1..], key, value);
      assert m == [m[0]] + m[1..];
    }
    assert forall i :: 0 <= i < |m| ==> m[i].key != key;
  }

  lemma {:induction false} SetKeys<K, V>(m: seq<Entry<K, V>>, key: K, value: V, e: Entry<K, V>)
    requires e in Set(m, key, value)
    ensures e.key == key || e in m
  {
    if m != [] {
      assert m == [m[0]] + m[1..];
      if m[0].key != key && e != m[0] {
        SetKeys(m[1..], key, value, e);
      }
    }
  }

  lemma {:induction false} SetUnique<K, V>(m: seq<Entry<K, V>>, key: K, value: V)
    requires UniqueKeys(m)
    ensures UniqueKeys(Set(m, key, value))
  {
    if m != [] && m[0].key != key {
      SetUnique(m[1..], key, value);
      var rest := Set(m[1..], key, value);
      forall i | 0 <= i < |rest| ensures rest[i].key != m[0].key {
        SetKeys(m[1..], key, value, rest[i]);
      }
    }
  }

  /** Deleting the key of one entry closes the gap and keeps every other entry in place. */
  lemma {:induction false} DeleteAt<K, V>(m: seq<Entry<K, V>>, i: nat)
    requires UniqueKeys(m) && i < |m|
    ensures Delete(m, m[i].key) == m[..i] + m[i + 1..]
  {
    if i > 0 {
      assert m[0].key != m[i].key && m[1..][i - 1] == m[i];
      DeleteAt(m[1..], i - 1);
      assert m[..i] == [m[0]] + m[1..][..i - 1] && m[1..][i..] == m[i + 1..];
    }
  }
}
