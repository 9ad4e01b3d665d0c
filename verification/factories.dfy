/**
  Default factories and the level-factory builder `_nested_levels`
  (nested_dict/implementation.py).

  Python installs a zero-argument callable as a `defaultdict`'s
  `default_factory`; here that callable is an explicit value saying what a
  missing-key lookup creates.
 */
module Factories {

  /** What a `defaultdict` is given as its default factory. */
  datatype Factory<V> =
    | FNested                     // the class `nested_dict`: a fresh unlimited nested dict
    | FBranch(inner: Factory<V>)  // `lambda: _recursive_dict(inner)`
    | FLeaf(default: V)           // a leaf constructor such as `list`, yielding `default`
    | FNone                       // `None`: no factory, so a missing key raises KeyError
    | FInvalid                    // an object that is not callable

  /** The `nested_type` argument of `_nested_levels`: the `any_type()` marker or any other object. */
  datatype LeafSpec<V> = AnyType | Given(f: Factory<V>)

  /** `k` nested `lambda: _recursive_dict(...)` wrappers around `f`. */
  function Wrap<V>(k: nat, f: Factory<V>): Factory<V>
  {
    if k == 0 then f else FBranch(Wrap(k - 1, f))
  }

  /** The object itself, as `defaultdict` would see it: the marker is not callable. */
  function AsFactory<V>(spec: LeafSpec<V>): Factory<V>
  {
    match spec
    case AnyType => FInvalid
    case Given(f) => f
  }

  /** `_nested_levels(level, nested_type)` of the package. */
  function NestedLevels<V>(level: int, spec: LeafSpec<V>): Factory<V>
    decreases level
  {
    if level > 2 then FBranch(NestedLevels(level - 1, spec))
    else if level == 2 then
      if spec.AnyType? then FBranch(FNone) else FBranch(NestedLevels(level - 1, spec))
    else AsFactory(spec)
  }

  /**
    The chain `_nested_levels` builds, in closed form: `level - 1` branch
    wrappers around the leaf constructor, or, with the `any_type` marker,
    around "no factory"; at level 1 or below the object itself.
   */
  lemma {:induction false} NestedLevelsClosedForm<V>(level: int, spec: LeafSpec<V>)
    ensures level <= 1 ==> NestedLevels(level, spec) == AsFactory(spec)
    ensures level >= 2 && spec.Given? ==> NestedLevels(level, spec) == Wrap(level - 1, spec.f)
    ensures level >= 2 && spec.AnyType? ==> NestedLevels(level, spec) == Wrap(level - 1, FNone)
    decreases level
  {
    if level > 2 {
      NestedLevelsClosedForm(level - 1, spec);
    }
  }
}
