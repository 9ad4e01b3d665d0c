/**
  `nested_dict.__init__` of the package (nested_dict/implementation.py) and
  what the dictionary it builds does under chains of subscripts.

  `nested_dict()` nests without limit; `nested_dict(n)` allows exactly `n`
  levels of keys, the last of which must be assigned; `nested_dict(n, T)`
  has `n` levels of keys above values created by `T()`.
 */
module Construct {
  import opened Keys
  import opened Outcomes
  import opened Factories
  import opened Tree
  import opened Access
  import opened Flatten

  /** A positional argument of the constructor: an `int`, or any other object. */
  datatype Arg<V> = IntArg(n: int) | Obj(spec: LeafSpec<V>)

  /** The second argument as a factory sees it: an `int` is just an object that cannot be called. */
  function LeafArg<V>(a: Arg<V>): LeafSpec<V>
  {
    match a
    case IntArg(_) => Given(FInvalid)
    case Obj(s) => s
  }

  /** `defaultdict.__init__(self, f)`: the empty dictionary, unless `f` cannot be called. */
  function Install<V>(f: Factory<V>): (r: Result<Node<V>>)
    ensures r.Ok? <==> !f.FInvalid?
    ensures r.Ok? ==> WellFormed(r.value) && Fresh(r.value) && r.value.Branch? && r.value.factory == f
    ensures r.Err? ==> r.error == TypeError
  {
    if f.FInvalid? then Err(TypeError) else Ok(Branch(f, []))
  }

  /** `nested_dict(*param)`. */
  function Init<V>(params: seq<Arg<V>>): (r: Result<Node<V>>)
    ensures |params| == 0 ==> r == Ok(Branch(FNested, []))
    ensures r == Err(ConfigError) <==> |params| > 2 || (|params| >= 1 && !params[0].IntArg?)
    ensures r.Ok? ==> WellFormed(r.value) && r.value.Branch? && r.value.entries == []
    ensures 1 <= |params| <= 2 && params[0].IntArg? ==>
      var n := params[0].n;
      var spec := if |params| == 2 then LeafArg(params[1]) else AnyType;
      r == if n >= 2 then Ok(Branch(Wrap(n - 1, if spec.AnyType? then FNone else spec.f), []))
           else Install(AsFactory(spec))
  {
    if |params| == 0 then Ok(Branch(FNested, []))
    else if |params| <= 2 then
      var spec := if |params| == 2 then LeafArg(params[1]) else AnyType;
      if !params[0].IntArg? then Err(ConfigError)
      else
        NestedLevelsClosedForm(params[0].n, spec);
        Install(NestedLevels(params[0].n, spec))
    else Err(ConfigError)
  }

  /** A missing key in an empty dictionary calls its factory. */
  lemma GetFresh<V>(f: Factory<V>, k: Key)
    ensures GetOut(Branch(f, []), k) == Make(f)
  {
    assert Lookup<V>([], k).None?;
  }

  /** Peeling one branch wrapper off a factory that is not callable-invalid. */
  lemma WrapStep<V>(m: nat, g: Factory<V>)
    requires !g.FInvalid? && m > 0
    ensures Make(Wrap(m, g)) == Ok(Branch(Wrap(m - 1, g), []))
  {
    assert Wrap(m, g) == FBranch(Wrap(m - 1, g));
    if m == 1 {
      assert Wrap(m - 1, g) == g;
    }
  }

  /**
    Reading a chain of keys from an empty dictionary whose factory is `m`
    branch wrappers around `g`: the first `m` keys each create an empty
    dictionary one wrapper down, the next calls `g` itself, and beyond that
    whatever `g` made or refused decides.
   */
  lemma {:induction false} FreshRead<V>(m: nat, g: Factory<V>, path: seq<Key>)
    requires !g.FInvalid?
    ensures |path| <= m ==> ReadOut(Branch(Wrap(m, g), []), path) == Ok(Branch(Wrap(m - |path|, g), []))
    ensures |path| == m + 1 ==> ReadOut(Branch(Wrap(m, g), []), path) == Make(g)
    ensures |path| > m + 1 && g.FLeaf? ==> ReadOut(Branch(Wrap(m, g), []), path) == Err(LeafAccess)
    ensures |path| > m + 1 && Make(g).Err? ==> ReadOut(Branch(Wrap(m, g), []), path) == Make(g)
    decreases path
  {
    if path != [] {
      GetFresh(Wrap(m, g), path[0]);
      if m == 0 {
        assert Wrap(m, g) == g;
        if g.FLeaf? && |path| > 1 {
          assert ReadOut(Leaf(g.default), path[1..]) == Err(LeafAccess);
        }
      } else {
        WrapStep(m, g);
        FreshRead(m - 1, g, path[1..]);
      }
    }
  }

  /**
    Assigning through a chain of keys into an empty dictionary whose
    factory is `m` branch wrappers around `g`: up to `m + 1` keys the value
    lands; deeper, the object `g` made or refused is in the way.
   */
  lemma {:induction false} FreshAssign<V>(m: nat, g: Factory<V>, path: seq<Key>, v: Node<V>)
    requires !g.FInvalid? && path != []
    ensures |path| <= m + 1 ==> AssignOut(Branch(Wrap(m, g), []), path, v) == Ok(v)
    ensures |path| > m + 1 && g.FLeaf? ==> AssignOut(Branch(Wrap(m, g), []), path, v) == Err(LeafAccess)
    ensures |path| > m + 1 && Make(g).Err? ==> AssignOut(Branch(Wrap(m, g), []), path, v) == Make(g)
    decreases path
  {
    if |path| > 1 {
      GetFresh(Wrap(m, g), path[0]);
      if m == 0 {
        assert Wrap(m, g) == g;
        if g.FLeaf? {
          assert AssignOut(Leaf(g.default), path[1..], v) == Err(LeafAccess);
        }
      } else {
        WrapStep(m, g);
        FreshAssign(m - 1, g, path[1..], v);
      }
    }
  }

  /** `nested_dict(n, T)` is empty and its factory is `n - 1` branch wrappers around `T`. */
  lemma InitTyped<V>(n: int, d: V)
    requires n >= 1
    ensures Init([IntArg(n), Obj(Given(FLeaf(d)))]) == Ok(Branch(Wrap(n - 1, FLeaf(d)), []))
  {
  }

  /**
    `nested_dict(n, T)` for a leaf constructor `T`: fewer than `n` keys give
    a nested dictionary, exactly `n` keys give `T()`, and one more key
    subscripts that leaf.
   */
  lemma TypedDepth<V>(n: int, d: V, path: seq<Key>)
    requires n >= 1
    ensures |path| < n ==> ReadOut(Branch(Wrap(n - 1, FLeaf(d)), []), path) == Ok(Branch(Wrap(n - 1 - |path|, FLeaf(d)), []))
    ensures |path| == n ==> ReadOut(Branch(Wrap(n - 1, FLeaf(d)), []), path) == Ok(Leaf(d))
    ensures |path| > n ==> ReadOut(Branch(Wrap(n - 1, FLeaf(d)), []), path) == Err(LeafAccess)
  {
    FreshRead(n - 1, FLeaf(d), path);
  }

  /**
    Reading a path from a fresh dictionary leaves it holding one key, the
    path's first, bound to whatever the rest of the read left in the new
    child.
   */
  lemma FreshReadTree<V>(f: Factory<V>, path: seq<Key>)
    requires path != [] && Make(f).Ok?
    ensures ReadTree(Branch(f, []), path) ==
      Branch(f, [Entry(path[0], ReadTree(Make(f).value, path[1..]))])
  {
    var c := Make(f).value;
    assert Lookup<V>([], path[0]).None?;
    PutSingle([], path[0], c);
    PutSingle([Entry(path[0], c)], path[0], ReadTree(c, path[1..]));
  }

  /**
    The dictionary `nested_dict(m + 1, T)` becomes after reading a chain
    of `m + 1` keys into it: one key per level, `T()` at the bottom.
   */
  function TypedChain<V>(m: nat, d: V, path: seq<Key>): Node<V>
    requires |path| == m + 1
    decreases m
  {
    Branch(Wrap(m, FLeaf(d)), [Entry(path[0], if m == 0 then Leaf(d) else TypedChain(m - 1, d, path[1..]))])
  }

  /** Reading `m + 1` keys from a fresh typed dictionary builds the typed chain. */
  lemma {:induction false} TypedChainRead<V>(m: nat, d: V, path: seq<Key>)
    requires |path| == m + 1
    ensures ReadTree(Branch(Wrap(m, FLeaf(d)), []), path) == TypedChain(m, d, path)
    decreases m
  {
    if m == 0 {
      assert Make(FLeaf(d)) == Ok(Leaf(d));
      FreshReadTree(FLeaf(d), path);
    } else {
      var rest := path[1..];
      TypedChainRead(m - 1, d, rest);
      TypedReadStep(m, d, path);
    }
  }

  /** One level of `TypedChainRead`: the first key gets the chain the rest of the read builds. */
  lemma TypedReadStep<V>(m: nat, d: V, path: seq<Key>)
    requires m > 0 && |path| == m + 1
    requires ReadTree(Branch(Wrap(m - 1, FLeaf(d)), []), path[1..]) == TypedChain(m - 1, d, path[1..])
    ensures ReadTree(Branch(Wrap(m, FLeaf(d)), []), path) == TypedChain(m, d, path)
  {
    WrapStep(m, FLeaf(d));
    FreshReadTree(Wrap(m, FLeaf(d)), path);
  }

  /** The typed chain holds one flat item: `T()` under the whole chain of keys. */
  lemma {:induction false} TypedChainItems<V>(m: nat, d: V, path: seq<Key>)
    requires |path| == m + 1
    ensures ItemsOf(TypedChain(m, d, path).entries) == [Item(path, d)]
    decreases m
  {
    var es := TypedChain(m, d, path).entries;
    assert es[1..] == [];
    if m == 0 {
      assert [path[0]] == path;
    } else {
      TypedChainItems(m - 1, d, path[1..]);
      assert [path[0]] + path[1..] == path;
    }
  }

  /**
    After `d[p0]...[pn-1]` on a fresh `nested_dict(n, T)`, the dictionary
    holds exactly one value: `T()` under the key tuple `(p0, ..., pn-1)`.
   */
  lemma TypedDepthFlat<V>(m: nat, d: V, path: seq<Key>)
    requires |path| == m + 1
    ensures ReadPath(Branch(Wrap(m, FLeaf(d)), []), path).tree.Branch?
    ensures ItemsFlat(ReadPath(Branch(Wrap(m, FLeaf(d)), []), path).tree) == [Item(path, d)]
  {
    TypedChainRead(m, d, path);
    TypedChainItems(m, d, path);
    var t := TypedChain(m, d, path);
    assert ReadPath(Branch(Wrap(m, FLeaf(d)), []), path).tree == t;
    assert ItemsFlat(t) == ItemsOf(t.entries);
  }

  /**
    `nested_dict(n)` is empty and its factory is `n - 1` branch wrappers
    around "no factory"; with `n <= 1` it is refused, since the `any_type`
    marker it would install cannot be called.
   */
  lemma InitUntyped<V>(n: int)
    ensures n >= 2 ==> Init<V>([IntArg(n)]) == Ok(Branch(Wrap<V>(n - 1, FNone), []))
    ensures n <= 1 ==> Init<V>([IntArg(n)]) == Err(TypeError)
  {
  }

  /**
    `nested_dict(n)` with `n >= 2`: the first `n - 1` keys create nested
    dictionaries, the last of which has no default factory, so reading `n`
    keys raises `KeyError` while assigning through `n` keys stores the value;
    any deeper chain raises `KeyError`.
   */
  lemma UntypedCap<V>(n: int, path: seq<Key>, v: Node<V>)
    requires n >= 2
    ensures |path| == n - 1 ==> ReadOut(Branch(Wrap<V>(n - 1, FNone), []), path) == Ok(Branch(FNone, []))
    ensures |path| < n ==> ReadOut(Branch(Wrap<V>(n - 1, FNone), []), path).Ok?
    ensures |path| >= n ==> ReadOut(Branch(Wrap<V>(n - 1, FNone), []), path) == Err(KeyError)
    ensures path != [] && |path| <= n ==> AssignOut(Branch(Wrap<V>(n - 1, FNone), []), path, v) == Ok(v)
    ensures |path| > n ==> AssignOut(Branch(Wrap<V>(n - 1, FNone), []), path, v) == Err(KeyError)
  {
    FreshRead<V>(n - 1, FNone, path);
    if path != [] {
      FreshAssign(n - 1, FNone, path, v);
    }
  }

  /** Every dictionary in the tree creates a fresh `nested_dict` for a missing key. */
  predicate AllNested<V>(n: Node<V>)
  {
    match n
    case Leaf(_) => true
    case Branch(f, es) => f == FNested && forall i :: 0 <= i < |es| ==> AllNested(es[i].child)
  }

  /** No leaf stands where a key of `path` is still to be applied. */
  predicate Open<V>(n: Node<V>, path: seq<Key>)
    decreases path
  {
    path == [] ||
    (n.Branch? &&
      match Lookup(n.entries, path[0])
      case None => true
      case Some(c) => Open(c, path[1..]))
  }

  lemma {:induction false} AllNestedChild<V>(n: Node<V>, k: Key)
    requires AllNested(n) && n.Branch?
    ensures Lookup(n.entries, k).Some? ==> AllNested(Lookup(n.entries, k).value)
  {
    if Lookup(n.entries, k).Some? {
      var i := IndexOf(n.entries, k);
      assert Lookup(n.entries, k).value == n.entries[i].child;
    }
  }

  lemma {:induction false} AllNestedPut<V>(f: Factory<V>, es: seq<Entry<V>>, k: Key, c: Node<V>)
    requires AllNested(Branch(f, es)) && AllNested(c)
    ensures AllNested(Branch(f, Put(es, k, c)))
  {
    var r := Put(es, k, c);
    forall i | 0 <= i < |r|
      ensures AllNested(r[i].child)
    {
    }
  }

  /** In an unlimited dictionary a subscript never fails, and what it returns is unlimited. */
  lemma UnlimitedGet<V>(n: Node<V>, k: Key)
    requires AllNested(n) && n.Branch?
    ensures GetOut(n, k).Ok? && AllNested(GetOut(n, k).value)
    ensures Lookup(n.entries, k).None? ==> GetOut(n, k) == Ok(Branch(FNested, []))
    ensures Lookup(n.entries, k).Some? ==> GetOut(n, k) == Ok(Lookup(n.entries, k).value)
  {
    AllNestedChild(n, k);
  }

  /** What a chain of reads in an unlimited dictionary returns: it fails only on a stored leaf. */
  lemma {:induction false} UnlimitedReadOut<V>(n: Node<V>, path: seq<Key>)
    requires AllNested(n)
    ensures ReadOut(n, path).Ok? <==> Open(n, path)
    ensures ReadOut(n, path).Ok? ==> AllNested(ReadOut(n, path).value)
    ensures ReadOut(n, path).Err? ==> ReadOut(n, path).error == LeafAccess
    decreases path
  {
    if path != [] && n.Branch? {
      UnlimitedGet(n, path[0]);
      var c := GetOut(n, path[0]).value;
      if Lookup(n.entries, path[0]).None? {
        OpenFresh(c, path[1..]);
      }
      UnlimitedReadOut(c, path[1..]);
    }
  }

  /** A chain of reads in an unlimited dictionary leaves it unlimited. */
  lemma {:induction false} UnlimitedReadTree<V>(n: Node<V>, path: seq<Key>)
    requires AllNested(n)
    ensures AllNested(ReadPath(n, path).tree)
    decreases path
  {
    if path != [] && n.Branch? {
      UnlimitedGet(n, path[0]);
      var a := Get(n, path[0]);
      var c := a.out.value;
      UnlimitedReadTree(c, path[1..]);
      if a.tree != n {
        AllNestedPut(n.factory, n.entries, path[0], c);
      }
      AllNestedPut(a.tree.factory, a.tree.entries, path[0], ReadPath(c, path[1..]).tree);
    }
  }

  /**
    In an unlimited `nested_dict()` a chain of reads succeeds exactly when
    it never has to subscript a stored leaf, and what it creates is
    unlimited again.
   */
  lemma UnlimitedRead<V>(n: Node<V>, path: seq<Key>)
    requires AllNested(n)
    ensures ReadPath(n, path).out.Ok? <==> Open(n, path)
    ensures AllNested(ReadPath(n, path).tree)
    ensures ReadPath(n, path).out.Ok? ==> AllNested(ReadPath(n, path).out.value)
    ensures ReadPath(n, path).out.Err? ==> ReadPath(n, path).out.error == LeafAccess
  {
    UnlimitedReadOut(n, path);
    UnlimitedReadTree(n, path);
  }

  /** Nothing stands in the way in a dictionary that has no keys yet. */
  lemma OpenFresh<V>(n: Node<V>, path: seq<Key>)
    requires n.Branch? && n.entries == []
    ensures Open(n, path)
  {
    if path != [] {
      assert Lookup(n.entries, path[0]).None?;
    }
  }

  /** What an assignment in an unlimited dictionary evaluates to: it fails only on a stored leaf. */
  lemma {:induction false} UnlimitedAssignOut<V>(n: Node<V>, path: seq<Key>, v: Node<V>)
    requires AllNested(n) && path != []
    ensures AssignOut(n, path, v) == (if Open(n, path) then Ok(v) else Err(LeafAccess))
    decreases path
  {
    if n.Branch? && |path| > 1 {
      UnlimitedGet(n, path[0]);
      var c := GetOut(n, path[0]).value;
      if Lookup(n.entries, path[0]).None? {
        OpenFresh(c, path[1..]);
      }
      UnlimitedAssignOut(c, path[1..], v);
    }
  }

  /** Assigning a leaf or an unlimited dictionary keeps the whole tree unlimited. */
  lemma {:induction false} UnlimitedAssignTree<V>(n: Node<V>, path: seq<Key>, v: Node<V>)
    requires AllNested(n) && AllNested(v) && path != []
    ensures AllNested(AssignPath(n, path, v).tree)
    decreases path
  {
    if n.Branch? {
      if |path| == 1 {
        AllNestedPut(n.factory, n.entries, path[0], v);
      } else {
        UnlimitedGet(n, path[0]);
        var a := Get(n, path[0]);
        var c := a.out.value;
        UnlimitedAssignTree(c, path[1..], v);
        if a.tree != n {
          AllNestedPut(n.factory, n.entries, path[0], c);
        }
        AllNestedPut(a.tree.factory, a.tree.entries, path[0], AssignPath(c, path[1..], v).tree);
      }
    }
  }

  /**
    In an unlimited `nested_dict()` an assignment through a chain of keys
    succeeds exactly when no stored leaf is in its way, and assigning a leaf
    or an unlimited dictionary keeps the whole tree unlimited.
   */
  lemma UnlimitedAssign<V>(n: Node<V>, path: seq<Key>, v: Node<V>)
    requires AllNested(n) && AllNested(v) && path != []
    ensures AssignPath(n, path, v).out == (if Open(n, path) then Ok(v) else Err(LeafAccess))
    ensures AllNested(AssignPath(n, path, v).tree)
  {
    UnlimitedAssignOut(n, path, v);
    UnlimitedAssignTree(n, path, v);
  }

  /** The chain of single-key unlimited dictionaries that ends in `v` under the keys of `path`. */
  function Chain<V>(path: seq<Key>, v: Node<V>): Node<V>
    requires path != []
    decreases path
  {
    Branch(FNested, [Entry(path[0], if |path| == 1 then v else Chain(path[1..], v))])
  }

  /** Putting into a dictionary with at most one entry, under that entry's key or into an empty one. */
  lemma PutSingle<V>(es: seq<Entry<V>>, k: Key, c: Node<V>)
    requires es == [] || (|es| == 1 && es[0].key == k)
    ensures Put(es, k, c) == [Entry(k, c)]
  {
    var r := Put(es, k, c);
    assert KeysOf(r) == [k];
    assert Lookup(r, k) == Some(r[0].child);
  }

  /**
    `d[p0]...[pk] = v` on an empty `nested_dict()`: the dictionary is then
    exactly the chain of one-key dictionaries leading to `v`.
   */
  lemma {:induction false} AssignIntoEmpty<V>(path: seq<Key>, v: Node<V>)
    requires path != []
    ensures AssignPath(Branch(FNested, []), path, v) == Access(Chain(path, v), Ok(v))
    decreases path
  {
    var e: Node<V> := Branch(FNested, []);
    var k := path[0];
    if |path| == 1 {
      PutSingle([], k, v);
    } else {
      PutSingle([], k, e);
      assert Get(e, k) == Access(Branch(FNested, [Entry(k, e)]), Ok(e));
      AssignIntoEmpty(path[1..], v);
      PutSingle([Entry(k, e)], k, Chain(path[1..], v));
    }
  }
}
