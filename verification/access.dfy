/**
  Item access on a nested dictionary: `d[k]` with auto-vivification, a chain
  of such reads, and an assignment through a chain of keys
  (`collections.defaultdict` semantics as the package relies on them).

  Each operation returns the whole tree afterwards together with the value
  read or the exception raised. Python evaluates `d[a][b][c]` one subscript
  at a time, so branches created before a failing subscript stay in the tree;
  the model keeps them too.

  `GetOut`, `ReadOut` and `AssignOut` give only what an operation returns
  or raises, and `GetTree` and `ReadTree` only the tree it leaves. They
  are the same definitions split in two halves, and `Get`, `ReadPath` and
  `AssignPath` promise to agree with them. They exist so that lemmas about
  one half do not have to unfold the other: this keeps proofs small.
 */
module Access {
  import opened Keys
  import opened Outcomes
  import opened Factories
  import opened Tree

  /** The tree after an operation, and what the operation returned or raised. */
  datatype Access<V> = Access(tree: Node<V>, out: Result<Node<V>>)

  /** A node no key has been put into yet: what a default factory creates. */
  predicate Fresh<V>(n: Node<V>)
  {
    n.Leaf? || n.entries == []
  }

  /** Calling a default factory from `defaultdict.__missing__`. */
  function Make<V>(f: Factory<V>): (r: Result<Node<V>>)
    ensures r.Ok? ==> WellFormed(r.value) && Fresh(r.value)
    ensures r == Err(KeyError) <==> f.FNone?
    ensures r.Err? <==> f.FNone? || f.FInvalid? || (f.FBranch? && f.inner.FInvalid?)
    ensures r.Err? && !f.FNone? ==> r.error == TypeError
    ensures f.FBranch? && !f.inner.FInvalid? ==> r == Ok(Branch(f.inner, []))
    ensures f == FNested ==> r == Ok(Branch(FNested, []))
    ensures f.FLeaf? ==> r == Ok(Leaf(f.default))
  {
    match f
    case FNested => Ok(Branch(FNested, []))
    case FBranch(inner) => if inner.FInvalid? then Err(TypeError) else Ok(Branch(inner, []))
    case FLeaf(d) => Ok(Leaf(d))
    case FNone => Err(KeyError)
    case FInvalid => Err(TypeError)
  }

  /** What `n[k]` returns or raises, leaving aside what it does to the tree. */
  function GetOut<V>(n: Node<V>, k: Key): Result<Node<V>>
  {
    match n
    case Leaf(_) => Err(LeafAccess)
    case Branch(f, es) =>
      match Lookup(es, k)
      case Some(c) => Ok(c)
      case None => Make(f)
  }

  /** What the chain `n[p0][p1]...[pk]` returns or raises: each subscript applied to the previous result. */
  function ReadOut<V>(n: Node<V>, path: seq<Key>): Result<Node<V>>
    decreases path
  {
    if path == [] then Ok(n)
    else
      match GetOut(n, path[0])
      case Err(e) => Err(e)
      case Ok(c) => ReadOut(c, path[1..])
  }

  /** The tree after `n[k]`, leaving aside what it returns. */
  function GetTree<V>(n: Node<V>, k: Key): Node<V>
  {
    match n
    case Leaf(_) => n
    case Branch(f, es) =>
      match Lookup(es, k)
      case Some(_) => n
      case None =>
        match Make(f)
        case Err(_) => n
        case Ok(c) => Branch(f, Put(es, k, c))
  }

  /** The tree after the chain `n[p0][p1]...[pk]`, leaving aside what it returns. */
  function ReadTree<V>(n: Node<V>, path: seq<Key>): Node<V>
    decreases path
  {
    if path == [] then n
    else
      match GetTree(n, path[0])
      case Leaf(_) => n
      case Branch(f, es) =>
        match GetOut(n, path[0])
        case Err(_) => n
        case Ok(c) => Branch(f, Put(es, path[0], ReadTree(c, path[1..])))
  }

  /** What `n[p0]...[pk-1][pk] = v` evaluates to or raises: the reads, then a store that fails only on a leaf. */
  function AssignOut<V>(n: Node<V>, path: seq<Key>, v: Node<V>): Result<Node<V>>
    requires path != []
    decreases path
  {
    if |path| == 1 then (if n.Leaf? then Err(LeafAccess) else Ok(v))
    else
      match GetOut(n, path[0])
      case Err(e) => Err(e)
      case Ok(c) => AssignOut(c, path[1..], v)
  }

  /**
    `n[k]`: a present key is read without any change; a missing key calls the
    default factory once and stores its result under `k`, at the end of the
    insertion order. A leaf has no such subscript.
   */
  function Get<V>(n: Node<V>, k: Key): (r: Access<V>)
    ensures r.out == GetOut(n, k) && r.tree == GetTree(n, k)
    ensures n.Leaf? ==> r == Access(n, Err(LeafAccess))
    ensures Find(n, [k]).Some? ==> r == Access(n, Ok(Find(n, [k]).value))
    ensures n.Branch? && Find(n, [k]).None? ==> r.out == Make(n.factory)
    ensures r.out.Err? ==> r.tree == n
    ensures r.out.Ok? ==> Find(r.tree, [k]) == Some(r.out.value)
    ensures r.out.Ok? && r.tree != n ==> r.tree.entries == n.entries + [Entry(k, r.out.value)]
    ensures n.Branch? ==> r.tree.Branch? && r.tree.factory == n.factory
    ensures n.Branch? ==> forall k' :: k' != k ==> Lookup(r.tree.entries, k') == Lookup(n.entries, k')
    ensures WellFormed(n) ==> WellFormed(r.tree) && (r.out.Ok? ==> WellFormed(r.out.value))
  {
    assert [k][1..] == [];
    match n
    case Leaf(_) => Access(n, Err(LeafAccess))
    case Branch(f, es) =>
      match Lookup(es, k)
      case Some(c) => assert Find(c, []) == Some(c); Access(n, Ok(c))
      case None =>
        match Make(f)
        case Err(e) => Access(n, Err(e))
        case Ok(c) => Access(Branch(f, Put(es, k, c)), Ok(c))
  }

  /** `n[p0][p1]...[pk]`, each subscript a `Get` on the value the previous one returned. */
  function ReadPath<V>(n: Node<V>, path: seq<Key>): (r: Access<V>)
    ensures r.out == ReadOut(n, path) && r.tree == ReadTree(n, path)
    ensures n.Leaf? ==> r.tree == n
    ensures n.Branch? ==> r.tree.Branch? && r.tree.factory == n.factory
    ensures r.out.Ok? ==> Find(r.tree, path) == Some(r.out.value)
    ensures WellFormed(n) ==> WellFormed(r.tree) && (r.out.Ok? ==> WellFormed(r.out.value))
    decreases path
  {
    if path == [] then Access(n, Ok(n))
    else
      var a := Get(n, path[0]);
      match a.out
      case Err(_) => a
      case Ok(c) =>
        var b := ReadPath(c, path[1..]);
        StoreBack(n, path, b.tree);
        Access(Branch(a.tree.factory, Put(a.tree.entries, path[0], b.tree)), b.out)
  }

  /**
    The last step of a chain through `n`: the child `b` built below the
    first key is stored back under it. Whatever `b` holds along the rest
    of the chain is then reachable along the whole chain, and well-formed
    parts give a well-formed whole.
   */
  lemma StoreBack<V>(n: Node<V>, path: seq<Key>, b: Node<V>)
    requires path != [] && Get(n, path[0]).out.Ok?
    ensures forall x :: Find(b, path[1..]) == Some(x) ==>
      Find(Branch(n.factory, Put(Get(n, path[0]).tree.entries, path[0], b)), path) == Some(x)
    ensures WellFormed(n) && WellFormed(b) ==>
      WellFormed(Branch(n.factory, Put(Get(n, path[0]).tree.entries, path[0], b)))
  {
    var es := Get(n, path[0]).tree.entries;
    var r := Put(es, path[0], b);
    assert Lookup(r, path[0]) == Some(b);
    if WellFormed(n) && WellFormed(b) {
      assert WellFormed(Get(n, path[0]).tree);
      forall i | 0 <= i < |r|
        ensures WellFormed(r[i].child)
      {
        if r[i] != Entry(path[0], b) {
          assert r[i] == es[i];
        }
      }
    }
  }

  /** `n[k] = v`: `dict.__setitem__`; a leaf has no such subscript. */
  function SetItem<V>(n: Node<V>, k: Key, v: Node<V>): (r: Access<V>)
    ensures n.Leaf? ==> r == Access(n, Err(LeafAccess))
    ensures n.Branch? ==> r.out == Ok(v) && Find(r.tree, [k]) == Some(v)
    ensures n.Branch? ==> r.tree.Branch? && r.tree.factory == n.factory
    ensures n.Branch? ==> forall k' :: k' != k ==> Lookup(r.tree.entries, k') == Lookup(n.entries, k')
  {
    match n
    case Leaf(_) => Access(n, Err(LeafAccess))
    case Branch(f, es) => Access(Branch(f, Put(es, k, v)), Ok(v))
  }

  /**
    `n[p0]...[pk-1][pk] = v`: the reads `n[p0]...[pk-1]`, then `__setitem__`
    with the last key. An assignment statement always has a subscript.
   */
  function AssignPath<V>(n: Node<V>, path: seq<Key>, v: Node<V>): (r: Access<V>)
    requires path != []
    ensures r.out == AssignOut(n, path, v)
    ensures n.Leaf? ==> r.tree == n && r.out == Err(LeafAccess)
    ensures n.Branch? ==> r.tree.Branch? && r.tree.factory == n.factory
    ensures r.out.Ok? ==> r.out.value == v && Find(r.tree, path) == Some(v)
    ensures WellFormed(n) && WellFormed(v) ==> WellFormed(r.tree)
    decreases path
  {
    if |path| == 1 then SetItem(n, path[0], v)
    else
      var a := Get(n, path[0]);
      match a.out
      case Err(_) => a
      case Ok(c) =>
        var b := AssignPath(c, path[1..], v);
        StoreBack(n, path, b.tree);
        Access(Branch(a.tree.factory, Put(a.tree.entries, path[0], b.tree)), b.out)
  }

  /** Reading a chain of keys that already exists returns what is there and changes nothing. */
  lemma {:induction false} ReadPresent<V>(n: Node<V>, path: seq<Key>, x: Node<V>)
    requires Find(n, path) == Some(x)
    ensures ReadPath(n, path) == Access(n, Ok(x))
    decreases path
  {
    if path != [] {
      var c := Lookup(n.entries, path[0]).value;
      assert Find(c, []) == Some(c);
      assert Get(n, path[0]) == Access(n, Ok(c));
      ReadPresent(c, path[1..], x);
    }
  }

  /** Two key chains that part ways at some position: neither is a prefix of the other. */
  predicate Diverges(p: seq<Key>, q: seq<Key>)
  {
    p != [] && q != [] && (p[0] != q[0] || Diverges(p[1..], q[1..]))
  }

  /**
    One subscript step of a chain: storing a child `b` back under `k` after
    `n[k]` changes nothing under any other chain of keys, provided `b`
    agrees with what `n[k]` returned below `k`.
   */
  lemma FrameStep<V>(n: Node<V>, k: Key, b: Node<V>, q: seq<Key>)
    requires Get(n, k).out.Ok? && q != []
    requires q[0] == k ==> |q| > 1 && Find(b, q[1..]) == Find(Get(n, k).out.value, q[1..])
    ensures Find(Branch(n.factory, Put(Get(n, k).tree.entries, k, b)), q) == Find(n, q)
  {
    var a := Get(n, k);
    if q[0] == k {
      var c := a.out.value;
      if Lookup(n.entries, k).None? {
        assert Fresh(c);
      } else {
        assert Find(Lookup(n.entries, k).value, []) == Some(Lookup(n.entries, k).value);
      }
    }
  }

  /**
    Reading through `p` only creates entries along `p`: whatever lies under a
    chain of keys that parts from `p` is as it was, including its absence.
   */
  lemma {:induction false} ReadFrame<V>(n: Node<V>, p: seq<Key>, q: seq<Key>)
    requires Diverges(p, q)
    ensures Find(ReadPath(n, p).tree, q) == Find(n, q)
    decreases p
  {
    var a := Get(n, p[0]);
    if a.out.Ok? {
      var c := a.out.value;
      if p[0] == q[0] {
        ReadFrame(c, p[1..], q[1..]);
      }
      FrameStep(n, p[0], ReadPath(c, p[1..]).tree, q);
    }
  }

  /**
    An assignment through `p` leaves everything under a chain of keys that
    parts from `p` as it was: earlier entries survive later assignments.
   */
  lemma {:induction false} AssignFrame<V>(n: Node<V>, p: seq<Key>, v: Node<V>, q: seq<Key>)
    requires Diverges(p, q)
    ensures Find(AssignPath(n, p, v).tree, q) == Find(n, q)
    decreases p
  {
    if |p| > 1 {
      var a := Get(n, p[0]);
      if a.out.Ok? {
        var c := a.out.value;
        if p[0] == q[0] {
          AssignFrame(c, p[1..], v, q[1..]);
        }
        FrameStep(n, p[0], AssignPath(c, p[1..], v).tree, q);
      }
    }
  }
}
