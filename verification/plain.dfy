/**
  Conversion to plain dictionaries: `_recursive_dict.to_dict` of the package,
  and nested-mapping equality between a nested dictionary and a plain one.

  A plain dictionary has no default factory; its values are plain
  dictionaries (converted branches) or leaf values copied unchanged.
 */
module Plain {
  import opened Keys
  import opened Outcomes
  import opened Tree

  datatype Plain<V> = PDict(items: seq<PEntry<V>>) | PLeaf(value: V)

  datatype PEntry<V> = PEntry(key: Key, val: Plain<V>)

  /** `d[k]` on a plain dictionary, `None` when the key is absent. */
  function PLookup<V>(ps: seq<PEntry<V>>, k: Key): (r: Option<Plain<V>>)
    ensures r.Some? <==> exists j :: 0 <= j < |ps| && ps[j].key == k
    ensures r.Some? ==> PEntry(k, r.value) in ps
  {
    if ps == [] then None
    else if ps[0].key == k then Some(ps[0].val)
    else PLookup(ps[1..], k)
  }

  /** Keys in strictly ascending order (so also pairwise distinct). */
  predicate Ascending<V>(ps: seq<PEntry<V>>)
  {
    forall i, j :: 0 <= i < j < |ps| ==> Below(ps[i].key, ps[j].key)
  }

  /** Ascending at every level of nesting. */
  predicate DeepAscending<V>(p: Plain<V>)
  {
    match p
    case PLeaf(_) => true
    case PDict(ps) => Ascending(ps) && forall i :: 0 <= i < |ps| ==> DeepAscending(ps[i].val)
  }

  lemma AscendingCons<V>(h: PEntry<V>, t: seq<PEntry<V>>)
    requires Ascending(t)
    requires forall j :: 0 <= j < |t| ==> Below(h.key, t[j].key)
    ensures Ascending([h] + t)
  {
    assert forall j :: 0 < j <= |t| ==> ([h] + t)[j] == t[j - 1];
  }

  /** Same elements, same number of them. */
  lemma PermutationFacts<T>(a: seq<T>, b: seq<T>)
    requires multiset(a) == multiset(b)
    ensures |a| == |b|
    ensures forall x :: x in a <==> x in b
    ensures forall i :: 0 <= i < |a| ==> a[i] in b
    ensures forall i :: 0 <= i < |b| ==> b[i] in a
  {
    assert |multiset(a)| == |multiset(b)|;
    forall x
      ensures x in a <==> x in b
    {
      assert x in a <==> x in multiset(a);
      assert x in b <==> x in multiset(b);
    }
  }

  function Insert<V>(e: PEntry<V>, ps: seq<PEntry<V>>): (r: seq<PEntry<V>>)
    requires Ascending(ps)
    requires forall i :: 0 <= i < |ps| ==> ps[i].key != e.key
    ensures Ascending(r)
    ensures multiset(r) == multiset(ps) + multiset{e}
  {
    if ps == [] then [e]
    else if Below(e.key, ps[0].key) then
      InsertFront(e, ps);
      [e] + ps
    else
      var rest := Insert(e, ps[1..]);
      InsertBehind(e, ps, rest);
      [ps[0]] + rest
  }

  lemma InsertFront<V>(e: PEntry<V>, ps: seq<PEntry<V>>)
    requires Ascending(ps) && ps != [] && Below(e.key, ps[0].key)
    ensures Ascending([e] + ps)
  {
    forall j | 0 <= j < |ps|
      ensures Below(e.key, ps[j].key)
    {
      BelowTransitive(e.key, ps[0].key, ps[j].key);
    }
    AscendingCons(e, ps);
  }

  lemma InsertBehind<V>(e: PEntry<V>, ps: seq<PEntry<V>>, rest: seq<PEntry<V>>)
    requires Ascending(ps) && ps != [] && !Below(e.key, ps[0].key) && ps[0].key != e.key
    requires Ascending(rest) && multiset(rest) == multiset(ps[1..]) + multiset{e}
    ensures Ascending([ps[0]] + rest)
    ensures multiset([ps[0]] + rest) == multiset(ps) + multiset{e}
  {
    BelowTotal(e.key, ps[0].key);
    forall j | 0 <= j < |rest|
      ensures Below(ps[0].key, rest[j].key)
    {
      assert rest[j] in multiset(rest);
      if rest[j] != e {
        assert rest[j] in multiset(ps[1..]);
        assert rest[j] in ps[1..];
      }
    }
    AscendingCons(ps[0], rest);
    assert ps == [ps[0]] + ps[1..];
  }

  /** The keys of a plain dictionary are pairwise distinct. */
  predicate DistinctPKeys<V>(ps: seq<PEntry<V>>)
  {
    forall i, j :: 0 <= i < j < |ps| ==> ps[i].key != ps[j].key
  }

  /** `sorted` over the keys of a dictionary, carrying each key's value along. */
  function SortByKey<V>(ps: seq<PEntry<V>>): (r: seq<PEntry<V>>)
    requires DistinctPKeys(ps)
    ensures Ascending(r)
    ensures multiset(r) == multiset(ps)
  {
    if ps == [] then []
    else
      var rest := SortByKey(ps[1..]);
      SortStep(ps, rest);
      Insert(ps[0], rest)
  }

  lemma SortStep<V>(ps: seq<PEntry<V>>, rest: seq<PEntry<V>>)
    requires ps != [] && DistinctPKeys(ps)
    requires multiset(rest) == multiset(ps[1..])
    ensures forall i :: 0 <= i < |rest| ==> rest[i].key != ps[0].key
    ensures multiset(ps[1..]) + multiset{ps[0]} == multiset(ps)
  {
    forall i | 0 <= i < |rest|
      ensures rest[i].key != ps[0].key
    {
      assert rest[i] in multiset(ps[1..]);
      var j :| 0 <= j < |ps[1..]| && ps[1..][j] == rest[i];
      assert ps[1 + j] == rest[i];
    }
    assert ps == [ps[0]] + ps[1..];
  }

  /**
    `to_dict`: a plain dictionary with exactly the keys of the nested one, in
    ascending key order, each holding its value converted: branches
    recursively, leaves as they are.
   */
  function ToDict<V>(n: Node<V>): (r: Plain<V>)
    requires UniqueKeys(n)
    ensures n.Leaf? ==> r == PLeaf(n.value)
    ensures n.Branch? ==> r.PDict? && Ascending(r.items) && |r.items| == |n.entries|
    ensures n.Branch? ==> forall i :: 0 <= i < |n.entries| ==>
      PEntry(n.entries[i].key, ToDict(n.entries[i].child)) in r.items
    ensures n.Branch? ==> forall j :: 0 <= j < |r.items| ==> r.items[j].key in KeysOf(n.entries)
    ensures DeepAscending(r)
  {
    match n
    case Leaf(v) => PLeaf(v)
    case Branch(_, es) =>
      var cs := seq(|es|, i requires 0 <= i < |es| => PEntry(es[i].key, ToDict(es[i].child)));
      assert forall i :: 0 <= i < |es| ==> cs[i].key == es[i].key && DeepAscending(cs[i].val);
      var sorted := SortByKey(cs);
      SortedConversion(es, cs, sorted);
      PDict(sorted)
  }

  lemma SortedConversion<V>(es: seq<Entry<V>>, cs: seq<PEntry<V>>, sorted: seq<PEntry<V>>)
    requires |cs| == |es|
    requires forall i :: 0 <= i < |es| ==> cs[i].key == es[i].key && DeepAscending(cs[i].val)
    requires multiset(sorted) == multiset(cs)
    ensures |sorted| == |es|
    ensures forall i :: 0 <= i < |cs| ==> cs[i] in sorted
    ensures forall j :: 0 <= j < |sorted| ==> sorted[j].key in KeysOf(es) && DeepAscending(sorted[j].val)
  {
    PermutationFacts(sorted, cs);
    forall j | 0 <= j < |sorted|
      ensures sorted[j].key in KeysOf(es) && DeepAscending(sorted[j].val)
    {
      var i :| 0 <= i < |cs| && cs[i] == sorted[j];
      assert KeysOf(es)[i] == sorted[j].key;
    }
  }

  /**
    Python's `==` between a nested dictionary and a plain nested structure:
    the same set of keys, and under every key equal values, branch for branch.
   */
  ghost predicate Equiv<V>(n: Node<V>, q: Plain<V>)
  {
    match n
    case Leaf(v) => q == PLeaf(v)
    case Branch(_, es) =>
      && q.PDict?
      && (forall j :: 0 <= j < |q.items| ==> q.items[j].key in KeysOf(es))
      && (forall i :: 0 <= i < |es| ==>
            PLookup(q.items, es[i].key).Some? && Equiv(es[i].child, PLookup(q.items, es[i].key).value))
  }

  lemma {:induction false} PLookupAscending<V>(ps: seq<PEntry<V>>, x: PEntry<V>)
    requires Ascending(ps) && x in ps
    ensures PLookup(ps, x.key) == Some(x.val)
  {
    if ps[0] != x {
      assert x in ps[1..];
      var j :| 0 <= j < |ps[1..]| && ps[1..][j] == x;
      assert Below(ps[0].key, ps[1 + j].key);
      BelowIrreflexive(x.key);
      PLookupAscending(ps[1..], x);
    }
  }

  /** `to_dict()` compares equal to the nested dictionary it was made from. */
  lemma {:induction false} ToDictEquiv<V>(n: Node<V>)
    requires UniqueKeys(n)
    ensures Equiv(n, ToDict(n))
  {
    match n
    case Leaf(_) =>
    case Branch(_, es) =>
      var q := ToDict(n);
      forall i | 0 <= i < |es|
        ensures PLookup(q.items, es[i].key) == Some(ToDict(es[i].child))
        ensures Equiv(es[i].child, ToDict(es[i].child))
      {
        PLookupAscending(q.items, PEntry(es[i].key, ToDict(es[i].child)));
        ToDictEquiv(es[i].child);
      }
  }

  /** Two strictly ascending sequences with the same elements are the same sequence. */
  lemma {:induction false} AscendingUnique<V>(a: seq<PEntry<V>>, b: seq<PEntry<V>>)
    requires Ascending(a) && Ascending(b)
    requires forall x :: x in a <==> x in b
    ensures a == b
  {
    assert a != [] ==> a[0] in a;
    assert b != [] ==> b[0] in b;
    if a != [] && b != [] {
      if a[0] != b[0] {
        var i :| 0 <= i < |a| && a[i] == b[0];
        var j :| 0 <= j < |b| && b[j] == a[0];
        BelowIrreflexive(a[0].key);
        BelowIrreflexive(b[0].key);
        BelowAsymmetric(a[0].key, b[0].key);
        assert false;
      }
      forall x
        ensures x in a[1..] <==> x in b[1..]
      {
        if x in a[1..] {
          var i :| 0 <= i < |a[1..]| && a[1..][i] == x;
          assert Below(a[0].key, a[1 + i].key);
          BelowIrreflexive(x.key);
          assert x in b;
        }
        if x in b[1..] {
          var i :| 0 <= i < |b[1..]| && b[1..][i] == x;
          assert Below(b[0].key, b[1 + i].key);
          BelowIrreflexive(x.key);
          assert x in a;
        }
      }
      AscendingUnique(a[1..], b[1..]);
      assert a == [a[0]] + a[1..] && b == [b[0]] + b[1..];
    }
  }

  /**
    `to_dict` is canonical: two nested dictionaries equal to the same plain
    structure, whatever order their keys were inserted in, give the very same
    result.
   */
  lemma {:induction false} ToDictCanonical<V>(n1: Node<V>, n2: Node<V>, q: Plain<V>)
    requires UniqueKeys(n1) && UniqueKeys(n2)
    requires Equiv(n1, q) && Equiv(n2, q)
    ensures ToDict(n1) == ToDict(n2)
    decreases n1
  {
    match n1
    case Leaf(_) =>
    case Branch(_, es1) =>
      var es2 := n2.entries;
      forall i1, i2 | 0 <= i1 < |es1| && 0 <= i2 < |es2| && es1[i1].key == es2[i2].key
        ensures ToDict(es1[i1].child) == ToDict(es2[i2].child)
      {
        ToDictCanonical(es1[i1].child, es2[i2].child, PLookup(q.items, es1[i1].key).value);
      }
      SameItems(n1, n2, q);
      AscendingUnique(ToDict(n1).items, ToDict(n2).items);
  }

  /**
    `to_dict` is the only plain structure that is sorted at every level and
    equal to the nested dictionary: any such structure is exactly what
    `to_dict` returns.
   */
  lemma {:induction false} ToDictUnique<V>(n: Node<V>, q: Plain<V>)
    requires UniqueKeys(n) && Equiv(n, q) && DeepAscending(q)
    ensures ToDict(n) == q
    decreases n
  {
    match n
    case Leaf(_) =>
    case Branch(_, es) =>
      forall i | 0 <= i < |es|
        ensures ToDict(es[i].child) == PLookup(q.items, es[i].key).value
      {
        var v := PLookup(q.items, es[i].key).value;
        assert PEntry(es[i].key, v) in q.items;
        var j :| 0 <= j < |q.items| && q.items[j] == PEntry(es[i].key, v);
        ToDictUnique(es[i].child, v);
      }
      UniqueItems(n, q);
      AscendingUnique(ToDict(n).items, q.items);
  }

  /** The step of `ToDictUnique` once every value is known to be the converted child. */
  lemma UniqueItems<V>(n: Node<V>, q: Plain<V>)
    requires n.Branch? && UniqueKeys(n) && Equiv(n, q) && DeepAscending(q)
    requires forall i :: 0 <= i < |n.entries| ==>
      ToDict(n.entries[i].child) == PLookup(q.items, n.entries[i].key).value
    ensures forall x :: x in ToDict(n).items <==> x in q.items
  {
    forall x | x in q.items
      ensures x in ToDict(n).items
    {
      PlainInConverted(n, q, x);
    }
    forall y | y in ToDict(n).items
      ensures y in q.items
    {
      ConvertedInPlain(n, q, y);
    }
  }

  /** An item of the sorted plain structure is among the converted entries. */
  lemma PlainInConverted<V>(n: Node<V>, q: Plain<V>, x: PEntry<V>)
    requires n.Branch? && UniqueKeys(n) && Equiv(n, q) && DeepAscending(q) && x in q.items
    requires forall i :: 0 <= i < |n.entries| ==>
      ToDict(n.entries[i].child) == PLookup(q.items, n.entries[i].key).value
    ensures x in ToDict(n).items
  {
    var es := n.entries;
    var j :| 0 <= j < |q.items| && q.items[j] == x;
    assert x.key in KeysOf(es);
    var i :| 0 <= i < |es| && KeysOf(es)[i] == x.key;
    PLookupAscending(q.items, x);
    assert PEntry(es[i].key, ToDict(es[i].child)) in ToDict(n).items;
  }

  /** A converted entry is an item of the sorted plain structure. */
  lemma ConvertedInPlain<V>(n: Node<V>, q: Plain<V>, y: PEntry<V>)
    requires n.Branch? && UniqueKeys(n) && Equiv(n, q) && DeepAscending(q) && y in ToDict(n).items
    requires forall i :: 0 <= i < |n.entries| ==>
      ToDict(n.entries[i].child) == PLookup(q.items, n.entries[i].key).value
    ensures y in q.items
  {
    var i := ConvertedEntry(n, y);
    assert PLookup(q.items, y.key).Some?;
    assert PEntry(y.key, PLookup(q.items, y.key).value) in q.items;
  }

  /** In a strictly ascending sequence an element is determined by its key. */
  lemma AscendingSameKey<V>(a: seq<PEntry<V>>, i: nat, j: nat)
    requires Ascending(a) && i < |a| && j < |a| && a[i].key == a[j].key
    ensures i == j
  {
    BelowIrreflexive(a[i].key);
  }

  /** The step of `ToDictCanonical` once the values under equal keys are known to agree. */
  lemma SameItems<V>(n1: Node<V>, n2: Node<V>, q: Plain<V>)
    requires n1.Branch? && n2.Branch? && UniqueKeys(n1) && UniqueKeys(n2)
    requires Equiv(n1, q) && Equiv(n2, q)
    requires forall i1, i2 ::
      (0 <= i1 < |n1.entries| && 0 <= i2 < |n2.entries| && n1.entries[i1].key == n2.entries[i2].key) ==>
      ToDict(n1.entries[i1].child) == ToDict(n2.entries[i2].child)
    ensures forall x :: x in ToDict(n1).items <==> x in ToDict(n2).items
  {
    ItemsIncluded(n1, n2, q);
    ItemsIncluded(n2, n1, q);
  }

  lemma ItemsIncluded<V>(n1: Node<V>, n2: Node<V>, q: Plain<V>)
    requires n1.Branch? && n2.Branch? && UniqueKeys(n1) && UniqueKeys(n2)
    requires Equiv(n1, q) && Equiv(n2, q)
    requires forall i1, i2 ::
      (0 <= i1 < |n1.entries| && 0 <= i2 < |n2.entries| && n1.entries[i1].key == n2.entries[i2].key) ==>
      ToDict(n1.entries[i1].child) == ToDict(n2.entries[i2].child)
    ensures forall x :: x in ToDict(n1).items ==> x in ToDict(n2).items
  {
    forall x | x in ToDict(n1).items
      ensures x in ToDict(n2).items
    {
      var i1 := ConvertedEntry(n1, x);
      var k := x.key;
      assert PLookup(q.items, k).Some?;
      var jq :| 0 <= jq < |q.items| && q.items[jq].key == k;
      assert k in KeysOf(n2.entries);
      var i2 :| 0 <= i2 < |n2.entries| && KeysOf(n2.entries)[i2] == k;
      assert PEntry(n2.entries[i2].key, ToDict(n2.entries[i2].child)) in ToDict(n2).items;
    }
  }

  /** An item of `to_dict()` is the conversion of the entry with its key. */
  lemma ConvertedEntry<V>(n: Node<V>, x: PEntry<V>) returns (i: nat)
    requires n.Branch? && UniqueKeys(n) && x in ToDict(n).items
    ensures i < |n.entries| && n.entries[i].key == x.key && x.val == ToDict(n.entries[i].child)
  {
    var a := ToDict(n).items;
    var j :| 0 <= j < |a| && a[j] == x;
    assert x.key in KeysOf(n.entries);
    i :| 0 <= i < |n.entries| && KeysOf(n.entries)[i] == x.key;
    var y := PEntry(x.key, ToDict(n.entries[i].child));
    assert y in a;
    var jy :| 0 <= jy < |a| && a[jy] == y;
    AscendingSameKey(a, j, jy);
  }
}
