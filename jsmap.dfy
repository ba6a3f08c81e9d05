/**
 * A JavaScript `Map` as the store uses it: an insertion-ordered association
 * list. `Set` on a key that is present replaces the value in place (the key
 * keeps its position), `Set` on a new key appends, `Delete` removes the
 * entry; iteration (`forEach`, `entries()`, `values()`) follows the order of
 * the list, and `size` is its length.
 */
module JsMap {
  import opened Common

  datatype Entry<K, V> = Entry(key: K, value: V)

  type OrderedMap<K, V> = seq<Entry<K, V>>

  /** No key occurs twice: what a JavaScript `Map` guarantees of itself. */
  ghost predicate DistinctKeys<K, V>(m: OrderedMap<K, V>) {
    forall i, j :: 0 <= i < j < |m| ==> m[i].key != m[j].key
  }

  predicate Has<K(==), V>(m: OrderedMap<K, V>, k: K) {
    exists i :: 0 <= i < |m| && m[i].key == k
  }

  function KeySet<K(==), V>(m: OrderedMap<K, V>): set<K> {
    set i | 0 <= i < |m| :: m[i].key
  }

  /** `m.get(k)`: the value of the first entry with key `k`. */
  function Get<K(==), V>(m: OrderedMap<K, V>, k: K): (r: Option<V>)
    ensures r.Some? <==> Has(m, k)
  {
    if |m| == 0 then None
    else if m[0].key == k then Some(m[0].value)
    else
      HasTail(m, k);
      Get(m[1..], k)
  }

  /** `m.set(k, v)`. */
  function Set<K(==,!new), V>(m: OrderedMap<K, V>, k: K, v: V): (r: OrderedMap<K, V>)
    ensures Get(r, k) == Some(v)
    ensures forall k' :: k' != k ==> Get(r, k') == Get(m, k')
    ensures |r| == if Has(m, k) then |m| else |m| + 1
    ensures KeySet(r) == KeySet(m) + {k}
    ensures DistinctKeys(m) ==> DistinctKeys(r)
  {
    if |m| == 0 then
      GetCons(Entry(k, v), []);
      assert [Entry(k, v)] + [] == [Entry(k, v)];
      [Entry(k, v)]
    else if m[0].key == k then
      SetAtHead(m, k, v);
      [Entry(k, v)] + m[1..]
    else
      var t := Set(m[1..], k, v);
      SetBehindHead(m, k, v, t);
      [m[0]] + t
  }

  /** `Set` when the head carries the key: the head is overwritten. */
  lemma SetAtHead<K(!new), V>(m: OrderedMap<K, V>, k: K, v: V)
    requires |m| > 0 && m[0].key == k
    ensures Get([Entry(k, v)] + m[1..], k) == Some(v)
    ensures forall k' :: k' != k ==> Get([Entry(k, v)] + m[1..], k') == Get(m, k')
    ensures Has(m, k) && |[Entry(k, v)] + m[1..]| == |m|
    ensures KeySet([Entry(k, v)] + m[1..]) == KeySet(m) + {k}
    ensures DistinctKeys(m) ==> DistinctKeys([Entry(k, v)] + m[1..])
  {
    HeadTail(m);
    GetCons(Entry(k, v), m[1..]);
    GetCons(m[0], m[1..]);
  }

  /** `Set` past a head with another key: the head stays in front of the
      updated rest. */
  lemma SetBehindHead<K(!new), V>(m: OrderedMap<K, V>, k: K, v: V, t: OrderedMap<K, V>)
    requires |m| > 0 && m[0].key != k
    requires Get(t, k) == Some(v)
    requires forall k' :: k' != k ==> Get(t, k') == Get(m[1..], k')
    requires |t| == if Has(m[1..], k) then |m[1..]| else |m[1..]| + 1
    requires KeySet(t) == KeySet(m[1..]) + {k}
    requires DistinctKeys(m[1..]) ==> DistinctKeys(t)
    ensures Get([m[0]] + t, k) == Some(v)
    ensures forall k' :: k' != k ==> Get([m[0]] + t, k') == Get(m, k')
    ensures |[m[0]] + t| == if Has(m, k) then |m| else |m| + 1
    ensures KeySet([m[0]] + t) == KeySet(m) + {k}
    ensures DistinctKeys(m) ==> DistinctKeys([m[0]] + t)
  {
    HasTail(m, k);
    HeadTail(m);
    GetCons(m[0], t);
    GetCons(m[0], m[1..]);
    HasIffInKeySet(t, m[0].key);
    HasIffInKeySet(m[1..], m[0].key);
  }

  /** `m.delete(k)`: a no-op when `k` is absent. */
  function Delete<K(==,!new), V>(m: OrderedMap<K, V>, k: K): (r: OrderedMap<K, V>)
    ensures forall k' :: k' != k ==> Get(r, k') == Get(m, k')
    ensures DistinctKeys(m) ==> !Has(r, k)
    ensures !Has(m, k) ==> r == m
    ensures |r| == if Has(m, k) then |m| - 1 else |m|
    ensures KeySet(r) <= KeySet(m)
    ensures DistinctKeys(m) ==> KeySet(r) == KeySet(m) - {k}
    ensures DistinctKeys(m) ==> DistinctKeys(r)
    ensures forall e :: e in r ==> e in m
  {
    if |m| == 0 then []
    else if m[0].key == k then
      HeadTail(m);
      GetCons(m[0], m[1..]);
      m[1..]
    else
      var t := Delete(m[1..], k);
      HasTail(m, k);
      HeadTail(m);
      GetCons(m[0], t);
      GetCons(m[0], m[1..]);
      [m[0]] + t
  }

  /** `delete` removes the entry where it stands: the entries before and
      after it keep their order. */
  lemma {:induction false} DeleteKeepsOrder<K(!new), V>(m: OrderedMap<K, V>, i: nat)
    requires DistinctKeys(m) && i < |m|
    ensures Delete(m, m[i].key) == m[..i] + m[i + 1..]
  {
    if i == 0 {
      assert Delete(m, m[0].key) == m[1..];
    } else {
      assert m[0].key != m[i].key;
      TailDistinct(m);
      DeleteKeepsOrder(m[1..], i - 1);
      DeleteKeepsOrderStep(m, i);
    }
  }

  /** The inductive step of `DeleteKeepsOrder`, kept apart so that the
      recursive proof only has to combine facts. */
  lemma DeleteKeepsOrderStep<K(!new), V>(m: OrderedMap<K, V>, i: nat)
    requires 0 < i < |m| && m[0].key != m[i].key
    requires Delete(m[1..], m[1..][i - 1].key) == m[1..][..i - 1] + m[1..][i..]
    ensures Delete(m, m[i].key) == m[..i] + m[i + 1..]
  {
    assert m[1..][i - 1] == m[i];
    DeletePastHead(m, m[i].key);
    assert m[..i] == [m[0]] + m[1..][..i - 1];
    assert m[i + 1..] == m[1..][i..];
  }

  /** Past a first entry with another key, `Delete` leaves that entry first.
      One unfolding of `Delete`, named so that the order proofs can cite it. */
  lemma DeletePastHead<K(!new), V>(m: OrderedMap<K, V>, k: K)
    requires |m| > 0 && m[0].key != k
    ensures Delete(m, k) == [m[0]] + Delete(m[1..], k)
  {
  }

  /** Every entry after `Set` is an old entry or the written one. */
  lemma {:induction false} SetEntries<K(!new), V>(m: OrderedMap<K, V>, k: K, v: V)
    ensures forall e :: e in Set(m, k, v) ==> e in m || e == Entry(k, v)
  {
    if |m| > 0 && m[0].key != k {
      SetEntries(m[1..], k, v);
      assert Set(m, k, v) == [m[0]] + Set(m[1..], k, v);
      assert forall e :: e in m[1..] ==> e in m;
    } else if |m| > 0 {
      assert Set(m, k, v) == [Entry(k, v)] + m[1..];
      assert forall e :: e in m[1..] ==> e in m;
    }
  }

  /** `Set` on a present key overwrites it where it stands: every key keeps its
      position. */
  lemma {:induction false} SetInPlace<K(!new), V>(m: OrderedMap<K, V>, k: K, v: V)
    requires DistinctKeys(m) && Has(m, k)
    ensures |Set(m, k, v)| == |m|
    ensures forall i :: 0 <= i < |m| ==> Set(m, k, v)[i] == (if m[i].key == k then Entry(k, v) else m[i])
  {
    if m[0].key != k {
      var tail := m[1..];
      HasTail(m, k);
      TailDistinct(m);
      SetInPlace(tail, k, v);
      SetInPlaceStep(m, k, v, Set(tail, k, v));
    } else {
      SetInPlaceAtHead(m, k, v);
    }
  }

  /** The inductive step of `SetInPlace`, kept apart so that the recursive
      proof only has to combine facts. */
  lemma SetInPlaceStep<K(!new), V>(m: OrderedMap<K, V>, k: K, v: V, t: OrderedMap<K, V>)
    requires |m| > 0 && m[0].key != k && t == Set(m[1..], k, v)
    requires |t| == |m| - 1
    requires forall i :: 0 <= i < |t| ==> t[i] == (if m[1..][i].key == k then Entry(k, v) else m[1..][i])
    ensures |Set(m, k, v)| == |m|
    ensures forall i :: 0 <= i < |m| ==> Set(m, k, v)[i] == (if m[i].key == k then Entry(k, v) else m[i])
  {
    var r := Set(m, k, v);
    assert r == [m[0]] + t;
    forall i | 0 <= i < |m| ensures r[i] == (if m[i].key == k then Entry(k, v) else m[i]) {
      if i > 0 {
        assert m[i] == m[1..][i - 1] && r[i] == t[i - 1];
      }
    }
  }

  /** The base case of `SetInPlace`: the key is the first one. Distinct keys
      mean no later entry is touched. */
  lemma SetInPlaceAtHead<K(!new), V>(m: OrderedMap<K, V>, k: K, v: V)
    requires DistinctKeys(m) && |m| > 0 && m[0].key == k
    ensures |Set(m, k, v)| == |m|
    ensures forall i :: 0 <= i < |m| ==> Set(m, k, v)[i] == (if m[i].key == k then Entry(k, v) else m[i])
  {
    var r := Set(m, k, v);
    assert r == [Entry(k, v)] + m[1..];
    forall i | 0 <= i < |m| ensures r[i] == (if m[i].key == k then Entry(k, v) else m[i]) {
      if i > 0 {
        assert r[i] == m[i] && m[i].key != m[0].key;
      }
    }
  }

  /** Distinct keys survive dropping the first entry; every inductive proof
      over a `Map` with distinct keys needs it for the rest of the list. */
  lemma TailDistinct<K, V>(m: OrderedMap<K, V>)
    requires |m| > 0 && DistinctKeys(m)
    ensures DistinctKeys(m[1..])
  {
    var tail := m[1..];
    forall i, j | 0 <= i < j < |tail| ensures tail[i].key != tail[j].key {
      assert tail[i] == m[i + 1] && tail[j] == m[j + 1];
    }
  }

  /** `Set` on a new key appends it at the end. */
  lemma {:induction false} SetAppends<K(!new), V>(m: OrderedMap<K, V>, k: K, v: V)
    requires !Has(m, k)
    ensures Set(m, k, v) == m + [Entry(k, v)]
  {
    if |m| > 0 {
      var t := m[1..];
      assert m[0].key != k;
      HasTail(m, k);
      SetAppends(t, k, v);
      SetPastHead(m, k, v);
      HeadTailSnoc(m, Entry(k, v));
    }
  }

  /** Appending behind a non-empty list appends behind its tail. A lemma of
      its own keeps this sequence identity out of `SetAppends`'s context. */
  lemma HeadTailSnoc<K, V>(m: OrderedMap<K, V>, e: Entry<K, V>)
    requires |m| > 0
    ensures m + [e] == [m[0]] + (m[1..] + [e])
  {
    assert m == [m[0]] + m[1..];
  }

  /** Past a first entry with another key, `Set` leaves that entry first.
      One unfolding of `Set`, named so that `SetAppends` can cite it. */
  lemma SetPastHead<K(!new), V>(m: OrderedMap<K, V>, k: K, v: V)
    requires |m| > 0 && m[0].key != k
    ensures Set(m, k, v) == [m[0]] + Set(m[1..], k, v)
  {
  }

  /** Past a first entry with another key, `Has` looks at the rest; the
      recursive proofs use it to carry `Has` facts to the rest of the list. */
  lemma HasTail<K, V>(m: OrderedMap<K, V>, k: K)
    requires |m| > 0 && m[0].key != k
    ensures Has(m, k) <==> Has(m[1..], k)
  {
    if Has(m, k) {
      var i :| 0 <= i < |m| && m[i].key == k;
      assert m[1..][i - 1].key == k;
    }
    if Has(m[1..], k) {
      var i :| 0 <= i < |m[1..]| && m[1..][i].key == k;
      assert m[i + 1].key == k;
    }
  }

  /** A list with `e` in front: its lookups, key set, membership and distinctness
      in terms of the rest. */
  lemma GetCons<K, V>(e: Entry<K, V>, t: OrderedMap<K, V>)
    ensures ([e] + t)[1..] == t
    ensures forall k :: Get([e] + t, k) == if e.key == k then Some(e.value) else Get(t, k)
    ensures forall k :: Has([e] + t, k) <==> e.key == k || Has(t, k)
    ensures KeySet([e] + t) == {e.key} + KeySet(t)
    ensures DistinctKeys([e] + t) <==> DistinctKeys(t) && !Has(t, e.key)
  {
    var m := [e] + t;
    assert m[1..] == t;
    forall k ensures Has(m, k) <==> e.key == k || Has(t, k) {
      if Has(t, k) {
        var i :| 0 <= i < |t| && t[i].key == k;
        assert m[i + 1].key == k;
      }
      if e.key == k {
        assert m[0].key == k;
      }
      if Has(m, k) && e.key != k {
        var i :| 0 <= i < |m| && m[i].key == k;
        assert t[i - 1].key == k;
      }
    }
    forall x | x in KeySet(m) ensures x in {e.key} + KeySet(t) {
      var i :| 0 <= i < |m| && m[i].key == x;
      if i > 0 { assert t[i - 1].key == x; }
    }
    forall x | x in KeySet(t) ensures x in KeySet(m) {
      var i :| 0 <= i < |t| && t[i].key == x;
      assert m[i + 1].key == x;
    }
    if DistinctKeys(m) {
      forall i | 0 <= i < |t| ensures t[i].key != e.key {
        assert m[i + 1] == t[i] && m[0] == e;
        assert m[0].key != m[i + 1].key;
      }
      forall i, j | 0 <= i < j < |t| ensures t[i].key != t[j].key {
        assert m[i + 1] == t[i] && m[j + 1] == t[j];
      }
    }
    if DistinctKeys(t) && !Has(t, e.key) {
      forall i, j | 0 <= i < j < |m| ensures m[i].key != m[j].key {
        if i == 0 {
          assert m[j] == t[j - 1];
        } else {
          assert m[i] == t[i - 1] && m[j] == t[j - 1];
        }
      }
    }
  }

  /** A non-empty list is its head in front of its tail; `Set`, `Delete` and
      their helpers cite it to rebuild the list after recursing. */
  lemma HeadTail<K, V>(m: OrderedMap<K, V>)
    requires |m| > 0
    ensures m == [m[0]] + m[1..]
  {
  }

  /** A present key's value sits in an entry of the list. */
  lemma {:induction false} GetFound<K, V>(m: OrderedMap<K, V>, k: K)
    requires Get(m, k).Some?
    ensures exists i :: 0 <= i < |m| && m[i] == Entry(k, Get(m, k).value)
  {
    if m[0].key != k {
      GetFound(m[1..], k);
      var i :| 0 <= i < |m[1..]| && m[1..][i] == Entry(k, Get(m[1..], k).value);
      assert m[i + 1] == m[1..][i];
    } else {
      assert m[0] == Entry(k, Get(m, k).value);
    }
  }

  /** `Has` is membership of the key set. */
  lemma HasIffInKeySet<K, V>(m: OrderedMap<K, V>, k: K)
    ensures Has(m, k) <==> k in KeySet(m)
  {
    if Has(m, k) {
      var i :| 0 <= i < |m| && m[i].key == k;
      assert m[i].key in KeySet(m);
    }
  }

  /** With distinct keys, `size` is the number of distinct keys. */
  lemma {:induction false} SizeIsKeyCount<K, V>(m: OrderedMap<K, V>)
    requires DistinctKeys(m)
    ensures |KeySet(m)| == |m|
  {
    if |m| > 0 {
      var last := |m| - 1;
      var init := m[..last];
      assert m == init + [m[last]];
      assert DistinctKeys(init);
      SizeIsKeyCount(init);
      KeySetSnoc(init, m[last]);
      assert m[last].key !in KeySet(init) by {
        forall i | 0 <= i < |init| ensures init[i].key != m[last].key {
          assert init[i] == m[i];
        }
      }
    }
  }

  /** How a lookup in `m + [e]` goes: the earlier entry wins if there is one. */
  lemma {:induction false} GetSnoc<K, V>(m: OrderedMap<K, V>, e: Entry<K, V>, k: K)
    ensures Get(m + [e], k) ==
      if Has(m, k) then Get(m, k) else if e.key == k then Some(e.value) else None
  {
    if |m| > 0 {
      assert (m + [e])[1..] == m[1..] + [e];
      if m[0].key != k {
        GetSnoc(m[1..], e, k);
        HasTail(m, k);
        HasTail(m + [e], k);
      } else {
        assert Has(m, k) by { assert m[0].key == k; }
      }
    } else {
      assert [e][1..] == [];
    }
  }

  /** The key set of `m + [e]`. */
  lemma KeySetSnoc<K, V>(m: OrderedMap<K, V>, e: Entry<K, V>)
    ensures KeySet(m + [e]) == KeySet(m) + {e.key}
  {
    var after := m + [e];
    forall x | x in KeySet(after) ensures x in KeySet(m) + {e.key} {
      var i :| 0 <= i < |after| && after[i].key == x;
      if i < |m| { assert m[i].key == x; }
    }
    forall x | x in KeySet(m) ensures x in KeySet(after) {
      var i :| 0 <= i < |m| && m[i].key == x;
      assert after[i].key == x;
    }
    assert after[|m|].key == e.key;
  }
}
