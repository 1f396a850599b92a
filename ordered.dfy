/**
 * Insertion-ordered collections: the value semantics of a LinkedHashSet and of a
 * LinkedHashMap, and the two classes that hold them and are updated in place.
 */
module Ordered {

  ghost predicate NoDup<T>(xs: seq<T>)
  {
    forall i, j :: 0 <= i < j < |xs| ==> xs[i] != xs[j]
  }

  /** Set.add on an insertion-ordered set: a new element goes last, a known one changes nothing. */
  function Insert<T(==)>(xs: seq<T>, x: T): seq<T>
  {
    if x in xs then xs else xs + [x]
  }

  /** Adding every element of `ys`, in order. */
  function InsertAll<T(==)>(xs: seq<T>, ys: seq<T>): seq<T>
    decreases |ys|
  {
    if ys == [] then xs else InsertAll(Insert(xs, ys[0]), ys[1..])
  }

  lemma {:induction false} InsertAllAppend<T>(xs: seq<T>, ys: seq<T>, zs: seq<T>)
    ensures InsertAll(xs, ys + zs) == InsertAll(InsertAll(xs, ys), zs)
    decreases |ys|
  {
    if ys == [] {
      assert ys + zs == zs;
    } else {
      var ws := ys + zs;
      assert ws[0] == ys[0] && ws[1..] == ys[1..] + zs;
      calc {
        InsertAll(xs, ws);
        InsertAll(Insert(xs, ys[0]), ys[1..] + zs);
        { InsertAllAppend(Insert(xs, ys[0]), ys[1..], zs); }
        InsertAll(InsertAll(Insert(xs, ys[0]), ys[1..]), zs);
        InsertAll(InsertAll(xs, ys), zs);
      }
    }
  }

  lemma InsertAllOne<T>(xs: seq<T>, y: T)
    ensures InsertAll(xs, [y]) == Insert(xs, y)
  {
    assert [y][1..] == [];
  }

  /**
   * Adding keeps every earlier element where it was, never creates a duplicate, and
   * leaves exactly the elements of `xs` and `ys`.
   */
  lemma {:induction false} InsertAllProperties<T>(xs: seq<T>, ys: seq<T>)
    requires NoDup(xs)
    ensures NoDup(InsertAll(xs, ys))
    ensures |xs| <= |InsertAll(xs, ys)| && InsertAll(xs, ys)[..|xs|] == xs
    ensures forall z :: z in InsertAll(xs, ys) <==> z in xs || z in ys
    decreases |ys|
  {
    if ys != [] {
      var xs' := Insert(xs, ys[0]);
      InsertAllProperties(xs', ys[1..]);
      assert xs'[..|xs|] == xs;
      var r := InsertAll(xs', ys[1..]);
      assert r[..|xs|] == r[..|xs'|][..|xs|];
      assert forall z :: z in ys <==> z == ys[0] || z in ys[1..];
    }
  }

  /**
   * The membership clause of InsertAllProperties for one element, without its NoDup
   * precondition: adding never loses or invents an element.
   */
  lemma {:induction false} InsertAllMember<T>(xs: seq<T>, ys: seq<T>, z: T)
    ensures z in InsertAll(xs, ys) <==> z in xs || z in ys
    decreases |ys|
  {
    if ys != [] {
      InsertAllMember(Insert(xs, ys[0]), ys[1..], z);
      assert z in ys <==> z == ys[0] || z in ys[1..];
    }
  }

  /** Adding only elements that are already present changes nothing. */
  lemma {:induction false} InsertAllKnown<T>(xs: seq<T>, ys: seq<T>)
    requires forall k :: 0 <= k < |ys| ==> ys[k] in xs
    ensures InsertAll(xs, ys) == xs
    decreases |ys|
  {
    if ys != [] {
      InsertAllKnown(xs, ys[1..]);
    }
  }

  /** The index at which `z` first occurs in `ys`. */
  function FirstIndex<T(==)>(ys: seq<T>, z: T): (k: nat)
    requires z in ys
    ensures k < |ys| && ys[k] == z && z !in ys[..k]
  {
    if ys[0] == z then 0 else 1 + FirstIndex(ys[1..], z)
  }

  /** The first occurrence is the one with no earlier occurrence. */
  lemma {:induction false} FirstIndexUnique<T>(ys: seq<T>, z: T, k: nat)
    requires k < |ys| && ys[k] == z && z !in ys[..k]
    ensures FirstIndex(ys, z) == k
  {
    if k != 0 {
      assert ys[0] != z by {
        assert ys[..k][0] == ys[0];
      }
      assert ys[1..][..k - 1] == ys[..k][1..];
      FirstIndexUnique(ys[1..], z, k - 1);
    }
  }

  lemma FirstIndexSnoc<T>(ys: seq<T>, y: T, z: T)
    requires z in ys
    ensures FirstIndex(ys + [y], z) == FirstIndex(ys, z)
  {
    var k := FirstIndex(ys, z);
    assert (ys + [y])[..k] == ys[..k];
    FirstIndexUnique(ys + [y], z, k);
  }

  /**
   * The reference reading of an insertion-ordered set filled from `ys`: its elements are
   * distinct, they are exactly those of `ys`, and they stand in the order in which each
   * first occurs in `ys`.
   */
  lemma {:induction false} InsertAllFirstSeenOrder<T>(ys: seq<T>)
    ensures var r := InsertAll([], ys);
      && NoDup(r)
      && (forall z :: z in r <==> z in ys)
      && forall i, j :: 0 <= i < j < |r| ==> FirstIndex(ys, r[i]) < FirstIndex(ys, r[j])
    decreases |ys|
  {
    InsertAllProperties([], ys);
    if ys != [] {
      var init, y := ys[..|ys| - 1], ys[|ys| - 1];
      assert ys == init + [y];
      InsertAllFirstSeenOrder(init);
      InsertAllAppend([], init, [y]);
      InsertAllOne(InsertAll([], init), y);
      FirstSeenStep(init, y, InsertAll([], init));
    }
  }

  /** One more element keeps the first-seen order. */
  lemma FirstSeenStep<T>(init: seq<T>, y: T, r0: seq<T>)
    requires forall z :: z in r0 <==> z in init
    requires forall i, j :: 0 <= i < j < |r0| ==> FirstIndex(init, r0[i]) < FirstIndex(init, r0[j])
    ensures var r, ys := Insert(r0, y), init + [y];
      forall i, j :: 0 <= i < j < |r| ==> FirstIndex(ys, r[i]) < FirstIndex(ys, r[j])
  {
    var r, ys := Insert(r0, y), init + [y];
    forall i | 0 <= i < |r0|
      ensures FirstIndex(ys, r0[i]) == FirstIndex(init, r0[i])
    {
      assert r0[i] in r0;
      FirstIndexSnoc(init, y, r0[i]);
    }
    if y !in init {
      assert r == r0 + [y];
      assert ys[..|init|] == init;
      FirstIndexUnique(ys, y, |init|);
      forall i, j | 0 <= i < j < |r|
        ensures FirstIndex(ys, r[i]) < FirstIndex(ys, r[j])
      {
        assert r[i] == r0[i] && r0[i] in r0;
        if j < |r0| {
          assert r[j] == r0[j];
        } else {
          assert r[j] == y;
        }
      }
    }
  }

  // ---------------------------------------------------------------------------
  // Insertion-ordered map

  /** A LinkedHashMap's value: the keys in insertion order and the current value of each. */
  datatype OrderedMap<K(==), V> = OrderedMap(keys: seq<K>, values: map<K, V>)
  {
    ghost predicate Valid()
    {
      NoDup(keys) && (forall k :: k in values ==> k in keys) && (forall k :: k in keys ==> k in values)
    }
  }

  /** Map.put on a LinkedHashMap: the value is replaced, the key keeps its first position. */
  function MapPut<K(==), V>(m: OrderedMap<K, V>, k: K, v: V): OrderedMap<K, V>
  {
    OrderedMap(Insert(m.keys, k), m.values[k := v])
  }

  function PutAll<K(==), V>(m: OrderedMap<K, V>, es: seq<(K, V)>): OrderedMap<K, V>
    decreases |es|
  {
    if es == [] then m else PutAll(MapPut(m, es[0].0, es[0].1), es[1..])
  }

  /** The keys of `es`, in order. */
  function KeysOf<K, V>(es: seq<(K, V)>): seq<K>
  {
    seq(|es|, i requires 0 <= i < |es| => es[i].0)
  }

  /** The value of the last entry of `es` whose key is `k`. */
  function LastValue<K(==), V>(es: seq<(K, V)>, k: K): V
    requires k in KeysOf(es)
  {
    var last := es[|es| - 1];
    if last.0 == k then last.1
    else
      assert k in KeysOf(es[..|es| - 1]) by {
        var i :| 0 <= i < |es| && KeysOf(es)[i] == k;
        assert KeysOf(es[..|es| - 1])[i] == k;
      }
      LastValue(es[..|es| - 1], k)
  }

  lemma {:induction false} PutAllAppend<K, V>(m: OrderedMap<K, V>, es: seq<(K, V)>, fs: seq<(K, V)>)
    ensures PutAll(m, es + fs) == PutAll(PutAll(m, es), fs)
    decreases |es|
  {
    if es == [] {
      assert es + fs == fs;
    } else {
      var ws := es + fs;
      assert ws[0] == es[0] && ws[1..] == es[1..] + fs;
      calc {
        PutAll(m, ws);
        PutAll(MapPut(m, es[0].0, es[0].1), es[1..] + fs);
        { PutAllAppend(MapPut(m, es[0].0, es[0].1), es[1..], fs); }
        PutAll(PutAll(MapPut(m, es[0].0, es[0].1), es[1..]), fs);
        PutAll(PutAll(m, es), fs);
      }
    }
  }

  lemma {:induction false} PutAllKeys<K, V>(m: OrderedMap<K, V>, es: seq<(K, V)>)
    ensures PutAll(m, es).keys == InsertAll(m.keys, KeysOf(es))
    decreases |es|
  {
    if es != [] {
      KeysOfCons(es);
      PutAllKeys(MapPut(m, es[0].0, es[0].1), es[1..]);
    }
  }

  /** Putting the last entry of `es` after all the others. */
  lemma PutAllSnoc<K, V>(m: OrderedMap<K, V>, es: seq<(K, V)>)
    requires es != []
    ensures PutAll(m, es) == MapPut(PutAll(m, es[..|es| - 1]), es[|es| - 1].0, es[|es| - 1].1)
  {
    var init, e := es[..|es| - 1], es[|es| - 1];
    assert es == init + [e];
    PutAllAppend(m, init, [e]);
    assert [e][1..] == [];
  }

  lemma KeysOfCons<K, V>(es: seq<(K, V)>)
    requires es != []
    ensures KeysOf(es) == [es[0].0] + KeysOf(es[1..])
  {
    assert KeysOf(es)[1..] == KeysOf(es[1..]);
  }

  lemma KeysOfSnoc<K, V>(es: seq<(K, V)>)
    requires es != []
    ensures KeysOf(es) == KeysOf(es[..|es| - 1]) + [es[|es| - 1].0]
  {
    assert KeysOf(es)[..|es| - 1] == KeysOf(es[..|es| - 1]);
  }

  /**
   * Filling a map from `es`: it stays a valid ordered map, its keys keep the position of
   * their first put, and it holds exactly the old keys and those of `es`.
   */
  lemma PutAllShape<K, V>(m: OrderedMap<K, V>, es: seq<(K, V)>)
    requires m.Valid()
    ensures PutAll(m, es).Valid()
    ensures PutAll(m, es).keys == InsertAll(m.keys, KeysOf(es))
    ensures forall k :: k in PutAll(m, es).values <==> k in m.values || k in KeysOf(es)
  {
    PutAllKeys(m, es);
    InsertAllProperties(m.keys, KeysOf(es));
    var r := PutAll(m, es);
    forall k | k in r.values
      ensures k in r.keys && (k in m.values || k in KeysOf(es))
    {
      PutAllValues(m, es, k);
      if k in m.values {
        assert k in m.keys;
      }
    }
    forall k | k in r.keys
      ensures k in r.values
    {
      PutAllValues(m, es, k);
      InsertAllMember(m.keys, KeysOf(es), k);
      if k in m.keys {
        assert k in m.values;
      }
    }
    forall k | k in m.values || k in KeysOf(es)
      ensures k in r.values
    {
      PutAllValues(m, es, k);
    }
  }

  /** A repeated key holds the value of its last entry; keys never put keep their old value. */
  lemma {:induction false} PutAllValues<K, V>(m: OrderedMap<K, V>, es: seq<(K, V)>, k: K)
    ensures k in PutAll(m, es).values ==> k in m.values || k in KeysOf(es)
    ensures k in KeysOf(es) ==> k in PutAll(m, es).values && PutAll(m, es).values[k] == LastValue(es, k)
    ensures k in m.values && k !in KeysOf(es) ==> k in PutAll(m, es).values && PutAll(m, es).values[k] == m.values[k]
    decreases |es|
  {
    if es != [] {
      var init, e := es[..|es| - 1], es[|es| - 1];
      PutAllSnoc(m, es);
      KeysOfSnoc(es);
      PutAllValues(m, init, k);
    }
  }

  // ---------------------------------------------------------------------------
  // The mutable collections

  /** A LinkedHashSet: the elements in insertion order, backed by the set of those seen. */
  class LinkedSet<T(==)> {
    var items: seq<T>
    var seen: set<T>

    ghost predicate Valid()
      reads this
    {
      NoDup(items) && (forall x :: x in seen ==> x in items) && (forall x :: x in items ==> x in seen)
    }

    constructor ()
      ensures Valid() && items == []
    {
      items := [];
      seen := {};
    }

    /** Set.add: only an element not seen before is appended. */
    method Add(x: T)
      requires Valid()
      modifies this
      ensures Valid()
      ensures items == Insert(old(items), x)
    {
      if x !in seen {
        items := items + [x];
        seen := seen + {x};
      }
    }
  }

  /** A LinkedHashMap: the keys in insertion order and the value each one holds. */
  class LinkedMap<K(==), V> {
    var keys: seq<K>
    var values: map<K, V>

    ghost predicate Valid()
      reads this
    {
      Model().Valid()
    }

    function Model(): OrderedMap<K, V>
      reads this
    {
      OrderedMap(keys, values)
    }

    constructor ()
      ensures Valid() && Model() == OrderedMap([], map[])
    {
      keys := [];
      values := map[];
    }

    /** Map.put: the new value replaces the old; a new key goes last, a known one stays in place. */
    method Put(k: K, v: V)
      requires Valid()
      modifies this
      ensures Valid()
      ensures Model() == MapPut(old(Model()), k, v)
    {
      if k !in values {
        keys := keys + [k];
      }
      values := values[k := v];
    }
  }
}
