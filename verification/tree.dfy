/**
  The nested dictionary as an immutable tree.

  A `_recursive_dict` is a `Branch`: its default factory and its entries in
  insertion order (Python dictionaries iterate in insertion order). Every
  other value stored in it is a `Leaf`, whatever its Python type: lists,
  sets and plain `dict`s included.
 */
module Tree {
  import opened Keys
  import opened Outcomes
  import opened Factories

  datatype Node<V> = Branch(factory: Factory<V>, entries: seq<Entry<V>>) | Leaf(value: V)

  datatype Entry<V> = Entry(key: Key, child: Node<V>)

  function KeysOf<V>(es: seq<Entry<V>>): (ks: seq<Key>)
    ensures |ks| == |es|
    ensures forall i :: 0 <= i < |es| ==> ks[i] == es[i].key
  {
    seq(|es|, i requires 0 <= i < |es| => es[i].key)
  }

  predicate DistinctKeys<V>(es: seq<Entry<V>>)
  {
    forall i, j :: 0 <= i < j < |es| ==> es[i].key != es[j].key
  }

  /** Position of `k` among the entries, `|es|` when it is absent. */
  function IndexOf<V>(es: seq<Entry<V>>, k: Key): (i: nat)
    ensures i <= |es|
    ensures i < |es| ==> es[i].key == k
    ensures forall j :: 0 <= j < i ==> es[j].key != k
  {
    if es == [] then 0
    else if es[0].key == k then 0
    else 1 + IndexOf(es[1..], k)
  }

  /** `k in d and d[k]` on a plain dictionary: a read that never creates. */
  function Lookup<V>(es: seq<Entry<V>>, k: Key): (r: Option<Node<V>>)
    ensures r.Some? <==> k in KeysOf(es)
    ensures DistinctKeys(es) ==> forall i :: 0 <= i < |es| && es[i].key == k ==> r == Some(es[i].child)
  {
    var i := IndexOf(es, k);
    if i < |es| then Some(es[i].child) else None
  }

  /**
    `d[k] = n` on a dictionary: an existing key keeps its position and gets
    the new value, a new key is appended at the end.
   */
  function Put<V>(es: seq<Entry<V>>, k: Key, n: Node<V>): (r: seq<Entry<V>>)
    ensures Lookup(r, k) == Some(n)
    ensures forall k' :: k' != k ==> Lookup(r, k') == Lookup(es, k')
    ensures KeysOf(r) == if k in KeysOf(es) then KeysOf(es) else KeysOf(es) + [k]
    ensures DistinctKeys(es) ==> DistinctKeys(r)
    ensures |r| >= |es|
    ensures forall i :: 0 <= i < |r| ==> r[i] == Entry(k, n) || (i < |es| && r[i] == es[i])
    ensures Lookup(es, k) == Some(n) ==> r == es
  {
    var i := IndexOf(es, k);
    if i < |es| then
      var r := es[i := Entry(k, n)];
      assert forall k' :: k' != k ==> IndexOf(r, k') == IndexOf(es, k') by {
        forall k' | k' != k
          ensures IndexOf(r, k') == IndexOf(es, k')
        {
          IndexOfUpdate(es, i, Entry(k, n), k');
        }
      }
      IndexOfAt(r, i, k);
      r
    else
      var r := es + [Entry(k, n)];
      assert forall k' :: k' != k ==> Lookup(r, k') == Lookup(es, k') by {
        forall k' | k' != k
          ensures Lookup(r, k') == Lookup(es, k')
        {
          IndexOfAppend(es, Entry(k, n), k');
        }
      }
      IndexOfAppend(es, Entry(k, n), k);
      r
  }

  /** The first position holding `k` is the one `IndexOf` finds. */
  lemma {:induction false} IndexOfAt<V>(es: seq<Entry<V>>, i: nat, k: Key)
    requires i < |es| && es[i].key == k
    requires forall j :: 0 <= j < i ==> es[j].key != k
    ensures IndexOf(es, k) == i
  {
    if i > 0 {
      IndexOfAt(es[1..], i - 1, k);
    }
  }

  lemma {:induction false} IndexOfUpdate<V>(es: seq<Entry<V>>, i: nat, e: Entry<V>, k': Key)
    requires i < |es| && e.key == es[i].key && k' != e.key
    ensures IndexOf(es[i := e], k') == IndexOf(es, k')
  {
    if es != [] && es[0].key != k' {
      if i > 0 {
        assert es[i := e][1..] == es[1..][i - 1 := e];
        IndexOfUpdate(es[1..], i - 1, e, k');
      } else {
        assert es[i := e][1..] == es[1..];
      }
    }
  }

  lemma {:induction false} IndexOfAppend<V>(es: seq<Entry<V>>, e: Entry<V>, k': Key)
    ensures IndexOf(es, k') < |es| ==> IndexOf(es + [e], k') == IndexOf(es, k')
    ensures IndexOf(es, k') == |es| ==> IndexOf(es + [e], k') == if k' == e.key then |es| else |es| + 1
  {
    if es != [] && es[0].key != k' {
      assert (es + [e])[1..] == es[1..] + [e];
      IndexOfAppend(es[1..], e, k');
    }
  }

  /** Chained subscripts `n[p0][p1]...` that only read: no default factory is called. */
  function Find<V>(n: Node<V>, path: seq<Key>): Option<Node<V>>
    decreases path
  {
    if path == [] then Some(n)
    else match n
      case Leaf(_) => None
      case Branch(_, es) =>
        match Lookup(es, path[0])
        case None => None
        case Some(c) => Find(c, path[1..])
  }

  /** Every dictionary in the tree has distinct keys, as Python dictionaries do. */
  predicate UniqueKeys<V>(n: Node<V>)
  {
    match n
    case Leaf(_) => true
    case Branch(_, es) => DistinctKeys(es) && forall i :: 0 <= i < |es| ==> UniqueKeys(es[i].child)
  }

  /**
    The trees a nested dictionary can be: distinct keys everywhere, and no
    branch holding a non-callable default factory (`defaultdict` refuses it).
   */
  predicate WellFormed<V>(n: Node<V>)
  {
    match n
    case Leaf(_) => true
    case Branch(f, es) =>
      && !f.FInvalid?
      && DistinctKeys(es)
      && forall i :: 0 <= i < |es| ==> WellFormed(es[i].child)
  }

  lemma {:induction false} WellFormedUniqueKeys<V>(n: Node<V>)
    requires WellFormed(n)
    ensures UniqueKeys(n)
  {
    match n
    case Leaf(_) =>
    case Branch(_, es) =>
      forall i | 0 <= i < |es|
        ensures UniqueKeys(es[i].child)
      {
        WellFormedUniqueKeys(es[i].child);
      }
  }
}
