/**
  The single-file module nested_dict.py: its `_nested_levels`, its
  `nested_dict.__init__` and its `to_dict`. Its `iteritems_flat`,
  `iterkeys_flat` and `itervalues_flat` walk the tree exactly as the
  package's do and share their model (module `Flatten`).

  The file is Python 2 code, so a level that is not an `int` is compared
  with `1` by Python 2's rules: `None` is below every number, any other
  object above.
 */
module Legacy {
  import opened Keys
  import opened Outcomes
  import opened Factories
  import opened Tree
  import opened Access
  import opened Construct
  import opened Plain

  /** `_nested_levels(level, nested_type)` of the single-file module. */
  function LegacyNestedLevels<V>(level: int, f: Factory<V>): Factory<V>
    decreases level
  {
    if level > 1 then FBranch(LegacyNestedLevels(level - 1, f)) else f
  }

  /**
    The single-file `_nested_levels` builds the same chain as the package's
    for every integer level and every leaf constructor: `level - 1` branch
    wrappers around the constructor, or the constructor itself at level 1
    or below.
   */
  lemma {:induction false} LegacyLevelsAgree<V>(level: int, f: Factory<V>)
    ensures LegacyNestedLevels(level, f) == NestedLevels(level, Given(f))
    ensures LegacyNestedLevels(level, f) == if level >= 2 then Wrap(level - 1, f) else f
    decreases level
  {
    if level > 1 {
      LegacyLevelsAgree(level - 1, f);
    }
  }

  /** The object `nested_type` as a default factory. */
  function ObjFactory<V>(a: Arg<V>): Factory<V>
  {
    AsFactory(LeafArg(a))
  }

  /**
    `_nested_levels(level, f)` for any `level` object under Python 2:
    `None > 1` is false, so `f` itself is returned; any other non-number
    compares above `1`, so a factory is returned whose call evaluates
    `level - 1` and raises `TypeError`, which is what calling a wrapper
    around a non-callable object does.
   */
  function LevelFactory<V>(level: Arg<V>, f: Factory<V>): Factory<V>
  {
    match level
    case IntArg(n) => LegacyNestedLevels(n, f)
    case Obj(Given(FNone)) => f
    case Obj(_) => FBranch(FInvalid)
  }

  /**
    `nested_dict(*param)` of the single-file module: no arguments give an
    unlimited dictionary, two arguments install `_nested_levels`, and any
    other count builds an exception object without raising it, leaving a
    dictionary with no default factory. It never raises the bare
    `Exception` the package raises.
   */
  function LegacyInit<V>(params: seq<Arg<V>>): (r: Result<Node<V>>)
    ensures |params| == 0 ==> r == Ok(Branch(FNested, []))
    ensures |params| != 0 && |params| != 2 ==> r == Ok(Branch(FNone, []))
    ensures r.Err? ==> r.error == TypeError
    ensures r.Ok? ==> WellFormed(r.value) && r.value.Branch? && r.value.entries == []
    ensures |params| == 2 && params[0].IntArg? ==>
      r == Install(if params[0].n >= 2 then Wrap(params[0].n - 1, ObjFactory(params[1])) else ObjFactory(params[1]))
    ensures |params| == 2 && params[0] == Obj(Given(FNone)) ==> r == Install(ObjFactory(params[1]))
    ensures |params| == 2 && params[0].Obj? && params[0] != Obj(Given(FNone)) ==> r == Ok(Branch(FBranch(FInvalid), []))
  {
    if |params| == 0 then Ok(Branch(FNested, []))
    else if |params| == 2 then
      if params[0].IntArg? then
        LegacyLevelsAgree(params[0].n, ObjFactory(params[1]));
        Install(LevelFactory(params[0], ObjFactory(params[1])))
      else Install(LevelFactory(params[0], ObjFactory(params[1])))
    else Ok(Branch(FNone, []))
  }

  /**
    With an integer level and a second argument other than the package's
    `any_type` marker (which the single-file module does not know), both
    constructors build the same dictionary.
   */
  lemma LegacyInitAgrees<V>(params: seq<Arg<V>>)
    requires |params| == 2 && params[0].IntArg? && params[1] != Obj(AnyType)
    ensures LegacyInit(params) == Init(params)
  {
    var n := params[0].n;
    if n <= 1 {
      assert LegacyInit(params) == Install(ObjFactory(params[1]));
    }
  }

  /**
    One argument, or three and more: the single-file constructor returns a
    dictionary with no default factory, where every read of a missing key
    raises `KeyError` and assigning one key works, whereas the package
    raises the bare `Exception` for three and more.
   */
  lemma LegacyIgnoredArgs<V>(params: seq<Arg<V>>, path: seq<Key>, v: Node<V>)
    requires |params| == 1 || |params| > 2
    ensures LegacyInit(params) == Ok(Branch(FNone, []))
    ensures path != [] ==> ReadOut<V>(Branch(FNone, []), path) == Err(KeyError)
    ensures |path| == 1 ==> AssignOut(Branch(FNone, []), path, v) == Ok(v)
    ensures |params| > 2 ==> Init(params) == Err(ConfigError)
  {
    FreshRead<V>(0, FNone, path);
    if path != [] {
      FreshAssign(0, FNone, path, v);
    }
  }

  /**
    The single-file constructor with its argument-count error raised, as
    the message it builds says it should be: any count other than none or
    two is refused, and the accepted counts behave as before.
   */
  function CorrectedInit<V>(params: seq<Arg<V>>): (r: Result<Node<V>>)
    ensures r == Err(ConfigError) <==> |params| != 0 && |params| != 2
    ensures |params| == 0 || |params| == 2 ==> r == LegacyInit(params)
  {
    if |params| == 0 || |params| == 2 then LegacyInit(params) else Err(ConfigError)
  }

  /**
    Once the error is raised, the single-file constructor agrees with the
    package's on every argument list both accept the same way: none, three
    or more, and an integer level with a second argument other than the
    `any_type` marker.
   */
  lemma CorrectedInitAgrees<V>(params: seq<Arg<V>>)
    requires |params| != 1
    requires |params| == 2 ==> params[0].IntArg? && params[1] != Obj(AnyType)
    ensures CorrectedInit(params) == Init(params)
  {
    if |params| == 2 {
      LegacyInitAgrees(params);
    }
  }

  /**
    A level that is an object other than `None`: the single-file
    constructor succeeds, and the first missing-key read raises `TypeError`;
    the package refuses the same arguments with the bare `Exception`.
   */
  lemma LegacyObjectLevel<V>(params: seq<Arg<V>>, path: seq<Key>)
    requires |params| == 2 && params[0].Obj? && params[0] != Obj(Given(FNone))
    ensures LegacyInit(params) == Ok(Branch(FBranch(FInvalid), []))
    ensures path != [] ==> ReadOut<V>(Branch(FBranch(FInvalid), []), path) == Err(TypeError)
    ensures Init(params) == Err(ConfigError)
  {
    if path != [] {
      GetFresh<V>(FBranch(FInvalid), path[0]);
    }
  }

  /**
    `to_dict` of the single-file module: the same keys in the dictionary's
    own iteration order, branches converted, leaves copied.
   */
  function LegacyToDict<V>(n: Node<V>): (r: Plain<V>)
    ensures n.Leaf? ==> r == PLeaf(n.value)
    ensures n.Branch? ==> r.PDict? && |r.items| == |n.entries|
    ensures n.Branch? ==> forall i :: 0 <= i < |n.entries| ==> r.items[i].key == n.entries[i].key
  {
    match n
    case Leaf(v) => PLeaf(v)
    case Branch(_, es) => PDict(seq(|es|, i requires 0 <= i < |es| => PEntry(es[i].key, LegacyToDict(es[i].child))))
  }

  /** On distinct keys the first entry with a key is the only one. */
  lemma {:induction false} PLookupFirst<V>(ps: seq<PEntry<V>>, i: nat)
    requires i < |ps| && forall j :: 0 <= j < i ==> ps[j].key != ps[i].key
    ensures PLookup(ps, ps[i].key) == Some(ps[i].val)
  {
    if i > 0 {
      PLookupFirst(ps[1..], i - 1);
    }
  }

  /** The single-file `to_dict` holds the same nested mapping as the tree. */
  lemma {:induction false} LegacyToDictEquiv<V>(n: Node<V>)
    requires UniqueKeys(n)
    ensures Equiv(n, LegacyToDict(n))
  {
    match n
    case Leaf(_) =>
    case Branch(_, es) =>
      var q := LegacyToDict(n);
      forall i | 0 <= i < |es|
        ensures PLookup(q.items, es[i].key) == Some(LegacyToDict(es[i].child))
        ensures Equiv(es[i].child, LegacyToDict(es[i].child))
      {
        PLookupFirst(q.items, i);
        LegacyToDictEquiv(es[i].child);
      }
      forall j | 0 <= j < |q.items|
        ensures q.items[j].key in KeysOf(es)
      {
        assert KeysOf(es)[j] == q.items[j].key;
      }
  }

  /** Distinct keys at every level of a plain structure. */
  predicate DeepDistinct<V>(p: Plain<V>)
  {
    match p
    case PLeaf(_) => true
    case PDict(ps) => DistinctPKeys(ps) && forall i :: 0 <= i < |ps| ==> DeepDistinct(ps[i].val)
  }

  /** `sorted` applied to the keys of every level of a plain structure, deepest levels first. */
  function SortLevels<V>(p: Plain<V>): (r: Plain<V>)
    requires DeepDistinct(p)
    ensures DeepAscending(r)
    ensures p.PLeaf? ==> r == p
    ensures p.PDict? ==> r.PDict? && |r.items| == |p.items|
    ensures p.PDict? ==> forall i :: 0 <= i < |p.items| ==>
      PEntry(p.items[i].key, SortLevels(p.items[i].val)) in r.items
  {
    match p
    case PLeaf(_) => p
    case PDict(ps) =>
      var cs := seq(|ps|, i requires 0 <= i < |ps| => PEntry(ps[i].key, SortLevels(ps[i].val)));
      assert DistinctPKeys(cs);
      var sorted := SortByKey(cs);
      PermutationFacts(sorted, cs);
      forall j | 0 <= j < |sorted|
        ensures DeepAscending(sorted[j].val)
      {
        assert sorted[j] in multiset(cs);
        var i :| 0 <= i < |cs| && cs[i] == sorted[j];
      }
      forall i | 0 <= i < |ps|
        ensures PEntry(ps[i].key, SortLevels(ps[i].val)) in sorted
      {
        assert cs[i] == PEntry(ps[i].key, SortLevels(ps[i].val));
        assert cs[i] in cs;
      }
      PDict(sorted)
  }

  /**
    The two versions of `to_dict` differ only in key order: the package's
    result is the single-file result with the keys of every level sorted.
    Both hold the tree's nested mapping.
   */
  lemma {:induction false} ToDictVersionsAgree<V>(n: Node<V>)
    requires UniqueKeys(n)
    ensures DeepDistinct(LegacyToDict(n))
    ensures ToDict(n) == SortLevels(LegacyToDict(n))
    ensures Equiv(n, LegacyToDict(n)) && Equiv(n, ToDict(n))
    decreases n
  {
    match n
    case Leaf(_) =>
    case Branch(_, es) =>
      var q := LegacyToDict(n);
      forall i | 0 <= i < |es|
        ensures DeepDistinct(LegacyToDict(es[i].child))
        ensures ToDict(es[i].child) == SortLevels(LegacyToDict(es[i].child))
      {
        ToDictVersionsAgree(es[i].child);
      }
      assert DistinctPKeys(q.items) by {
        forall i, j | 0 <= i < j < |q.items|
          ensures q.items[i].key != q.items[j].key
        {
          assert KeysOf(es)[i] == es[i].key && KeysOf(es)[j] == es[j].key;
        }
      }
      var cs := seq(|es|, i requires 0 <= i < |es| => PEntry(es[i].key, ToDict(es[i].child)));
      var ls := seq(|q.items|, i requires 0 <= i < |q.items| => PEntry(q.items[i].key, SortLevels(q.items[i].val)));
      assert cs == ls;
      LegacyToDictEquiv(n);
      ToDictEquiv(n);
  }
}
