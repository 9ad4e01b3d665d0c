/**
  Flattened iteration: `iteritems_flat`, `iterkeys_flat` and
  `itervalues_flat` of `_recursive_dict`.

  The generators become the sequence of everything they yield, in order.
  Only `_recursive_dict` values are descended into; every other value is a
  leaf and yields one item, whatever its Python type.
 */
module Flatten {
  import opened Keys
  import opened Outcomes
  import opened Tree

  /** One `(key_tuple, value)` pair of `iteritems_flat`. */
  datatype Item<V> = Item(path: seq<Key>, value: V)

  /** `(key,) + keykey` applied to every item of a nested flattening. */
  function Prefix<V>(k: Key, items: seq<Item<V>>): (r: seq<Item<V>>)
    ensures |r| == |items|
    ensures forall i :: 0 <= i < |r| ==> r[i] == Item([k] + items[i].path, items[i].value)
  {
    seq(|items|, i requires 0 <= i < |items| => Item([k] + items[i].path, items[i].value))
  }

  /** The loop of `iteritems_flat` over the entries of one dictionary, in iteration order. */
  function ItemsOf<V>(es: seq<Entry<V>>): seq<Item<V>>
  {
    if es == [] then []
    else
      (match es[0].child
       case Branch(_, sub) => Prefix(es[0].key, ItemsOf(sub))
       case Leaf(v) => [Item([es[0].key], v)])
      + ItemsOf(es[1..])
  }

  /**
    `iteritems_flat`: every item's key tuple is non-empty and leads from the
    root to a leaf holding the item's value, and no key tuple is yielded twice.
   */
  function ItemsFlat<V>(t: Node<V>): (r: seq<Item<V>>)
    requires t.Branch?
    ensures UniqueKeys(t) ==> forall i :: 0 <= i < |r| ==>
      r[i].path != [] && Find(t, r[i].path) == Some(Leaf(r[i].value))
    ensures UniqueKeys(t) ==> forall i, j :: 0 <= i < j < |r| ==> r[i].path != r[j].path
  {
    var r := ItemsOf(t.entries);
    if UniqueKeys(t) then
      ItemsSound(t.factory, t.entries);
      ItemsDistinct(t.factory, t.entries);
      assert forall i :: 0 <= i < |r| ==> r[i] in r;
      r
    else
      r
  }

  /** `iterkeys_flat`: the key tuples of `iteritems_flat`, each leading to a leaf, none twice. */
  function KeysFlat<V>(t: Node<V>): (r: seq<seq<Key>>)
    requires t.Branch?
    ensures |r| == |ItemsFlat(t)|
    ensures forall i :: 0 <= i < |r| ==> r[i] == ItemsFlat(t)[i].path
    ensures UniqueKeys(t) ==> forall i :: 0 <= i < |r| ==>
      r[i] != [] && Find(t, r[i]).Some? && Find(t, r[i]).value.Leaf?
    ensures UniqueKeys(t) ==> forall i, j :: 0 <= i < j < |r| ==> r[i] != r[j]
  {
    var items := ItemsFlat(t);
    seq(|items|, i requires 0 <= i < |items| => items[i].path)
  }

  /**
    `itervalues_flat`: the values of `iteritems_flat`, in step with
    `iterkeys_flat`: the i-th value is the leaf the i-th key tuple leads to.
   */
  function ValuesFlat<V>(t: Node<V>): (r: seq<V>)
    requires t.Branch?
    ensures |r| == |KeysFlat(t)|
    ensures forall i :: 0 <= i < |r| ==> ItemsFlat(t)[i] == Item(KeysFlat(t)[i], r[i])
    ensures UniqueKeys(t) ==> forall i :: 0 <= i < |r| ==> Find(t, KeysFlat(t)[i]) == Some(Leaf(r[i]))
  {
    var items := ItemsFlat(t);
    seq(|items|, i requires 0 <= i < |items| => items[i].value)
  }

  /** Below a key other than the first, the rest of the entries answer for the whole dictionary. */
  lemma LookupTail<V>(es: seq<Entry<V>>, k: Key)
    requires es != [] && es[0].key != k
    ensures Lookup(es, k) == Lookup(es[1..], k)
  {
  }

  lemma {:induction false} ItemsSound<V>(f: Factories.Factory<V>, es: seq<Entry<V>>)
    requires UniqueKeys(Branch(f, es))
    ensures forall it :: it in ItemsOf(es) ==>
      it.path != [] && Find(Branch(f, es), it.path) == Some(Leaf(it.value))
    decreases es
  {
    if es != [] {
      var k := es[0].key;
      var head := match es[0].child
        case Branch(_, sub) => Prefix(k, ItemsOf(sub))
        case Leaf(v) => [Item([k], v)];
      assert ItemsOf(es) == head + ItemsOf(es[1..]);
      assert Lookup(es, k) == Some(es[0].child);
      match es[0].child {
        case Leaf(v) =>
          assert Find(Leaf(v), []) == Some(Leaf(v));
        case Branch(g, sub) =>
          ItemsSound(g, sub);
          forall i | 0 <= i < |head|
            ensures head[i].path != [] && Find(Branch(f, es), head[i].path) == Some(Leaf(head[i].value))
          {
            var it := ItemsOf(sub)[i];
            assert it in ItemsOf(sub);
            assert head[i].path[1..] == it.path;
          }
      }
      ItemsSound(f, es[1..]);
      forall it | it in ItemsOf(es[1..])
        ensures Find(Branch(f, es), it.path) == Some(Leaf(it.value))
      {
        assert Lookup(es[1..], it.path[0]).Some?;
        LookupTail(es, it.path[0]);
      }
    }
  }

  /** Every leaf reachable by a non-empty chain of keys is yielded, with that key tuple. */
  lemma {:induction false} ItemsFlatComplete<V>(t: Node<V>, p: seq<Key>, v: V)
    requires t.Branch?
    requires p != [] && Find(t, p) == Some(Leaf(v))
    ensures Item(p, v) in ItemsFlat(t)
    decreases t.entries
  {
    var es := t.entries;
    var k := es[0].key;
    var head := match es[0].child
      case Branch(_, sub) => Prefix(k, ItemsOf(sub))
      case Leaf(w) => [Item([k], w)];
    assert ItemsOf(es) == head + ItemsOf(es[1..]);
    if p[0] == k {
      assert Lookup(es, k) == Some(es[0].child);
      match es[0].child {
        case Leaf(w) =>
          assert p == [k];
          assert head == [Item(p, v)];
        case Branch(g, sub) =>
          ItemsFlatComplete(es[0].child, p[1..], v);
          var i :| 0 <= i < |ItemsOf(sub)| && ItemsOf(sub)[i] == Item(p[1..], v);
          assert head[i] == Item(p, v);
      }
    } else {
      LookupTail(es, p[0]);
      ItemsFlatComplete(Branch(t.factory, es[1..]), p, v);
    }
  }

  /** No key tuple occurs twice among the items. */
  predicate PathsDistinct<V>(items: seq<Item<V>>)
  {
    forall i, j :: 0 <= i < j < |items| ==> items[i].path != items[j].path
  }

  lemma {:induction false} ItemsDistinct<V>(f: Factories.Factory<V>, es: seq<Entry<V>>)
    requires UniqueKeys(Branch(f, es))
    ensures PathsDistinct(ItemsOf(es))
    decreases es
  {
    if es != [] {
      var k := es[0].key;
      var head := match es[0].child
        case Branch(_, sub) => Prefix(k, ItemsOf(sub))
        case Leaf(v) => [Item([k], v)];
      assert ItemsOf(es) == head + ItemsOf(es[1..]);
      if es[0].child.Branch? {
        ItemsDistinct(es[0].child.factory, es[0].child.entries);
        PrefixDistinct(k, ItemsOf(es[0].child.entries));
      }
      ItemsDistinct(f, es[1..]);
      TailAvoidsFirst(f, es);
      JoinDistinct(k, head, ItemsOf(es[1..]));
    }
  }

  /** Prefixing one key keeps distinct key tuples distinct. */
  lemma PrefixDistinct<V>(k: Key, items: seq<Item<V>>)
    requires PathsDistinct(items)
    ensures PathsDistinct(Prefix(k, items))
  {
    var r := Prefix(k, items);
    forall i, j | 0 <= i < j < |r|
      ensures r[i].path != r[j].path
    {
      assert r[i].path[1..] == items[i].path;
      assert r[j].path[1..] == items[j].path;
    }
  }

  /** No item yielded by the later entries starts with the first entry's key. */
  lemma TailAvoidsFirst<V>(f: Factories.Factory<V>, es: seq<Entry<V>>)
    requires es != [] && UniqueKeys(Branch(f, es))
    ensures forall j :: 0 <= j < |ItemsOf(es[1..])| ==>
      ItemsOf(es[1..])[j].path != [] && ItemsOf(es[1..])[j].path[0] != es[0].key
  {
    var tail := ItemsOf(es[1..]);
    ItemsSound(f, es[1..]);
    forall j | 0 <= j < |tail|
      ensures tail[j].path != [] && tail[j].path[0] != es[0].key
    {
      assert tail[j] in tail;
      assert Lookup(es[1..], tail[j].path[0]).Some?;
      var m := IndexOf(es[1..], tail[j].path[0]);
      assert es[1 + m].key == tail[j].path[0];
    }
  }

  /** Items under the first key followed by items under other keys: still no tuple twice. */
  lemma JoinDistinct<V>(k: Key, head: seq<Item<V>>, tail: seq<Item<V>>)
    requires PathsDistinct(head) && PathsDistinct(tail)
    requires forall i :: 0 <= i < |head| ==> head[i].path != [] && head[i].path[0] == k
    requires forall j :: 0 <= j < |tail| ==> tail[j].path != [] && tail[j].path[0] != k
    ensures PathsDistinct(head + tail)
  {
  }
}
