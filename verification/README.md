# nested_dict in Dafny

A model of `nested_dict`. This Python library is a `collections.defaultdict` subclass that creates nested levels on demand ("auto-vivification").

The model covers two copies of the library:
- the package `nested_dict/implementation.py`;
- the older single-file module `nested_dict.py`, which is Python 2 code.

For each copy it models:
- the level-factory builder `_nested_levels`;
- the constructor `nested_dict.__init__`;
- the flattened iterators `iteritems_flat`, `iterkeys_flat` and `itervalues_flat`;
- `to_dict`.

Item access is modelled too, because everything above is only observable through it:
- `d[k]`, with a default factory called for a missing key;
- chains of reads `d[a][b][c]`;
- assignments through a chain of keys.

The model is functional:
- A dictionary is an immutable tree (`Tree.Node`). Each `Branch` holds its default factory and its entries in insertion order. Every other value is a `Leaf`.
- A default factory is explicit data (`Factories.Factory`):
  - the class `nested_dict`;
  - a `lambda: _recursive_dict(inner)`;
  - a leaf constructor such as `list`, represented by the value it creates;
  - `None`;
  - an object that cannot be called.
- Each access returns the tree afterwards together with the value or the exception (`Access.Access`).
- Branches created by earlier subscripts of a chain stay in the tree when a later subscript fails, as they do in Python.

Three consequences of the code that the model makes explicit:
- `nested_dict(n)` is a hard cap. For level 2 without a type, nested_dict/implementation.py:116-117 installs a `_recursive_dict()` with no factory, so the `n`-th read of a missing key raises `KeyError`; tests/test_nested_dict.py:82-87 expects exactly that (`Construct.UntypedCap`).
- The constructor takes only a level and an optional type. With one or two arguments whose first is not an `int`, or with more than two, nested_dict/implementation.py:141-148 raises the bare `Exception` (`Construct.Init`).
- `defaultdict.__missing__` stores a key only after its factory returned, so a subscript that raises leaves its own dictionary unchanged (`Access.Get`). Dictionaries created by earlier subscripts of the same chain stay in the tree.

Modules:
- `keys.dfy`: keys and Python's string order.
- `outcomes.dfy`: `Option`, `Result` and the exceptions.
- `factories.dfy`: factories and the package's `_nested_levels`.
- `tree.dfy`: the tree and plain lookup and insertion.
- `access.dfy`: subscripts.
- `flatten.dfy`: the flat iterators.
- `plain.dfy`: the package's `to_dict` and nested-mapping equality.
- `construct.dfy`: the package constructor and the behaviour of what it builds.
- `legacy.dfy`: the single-file module.
- `scenarios.dfy`: a worked example from the tests.

## Model

| member | source | states |
|---|---|---|
| Keys.BelowIrreflexive | nested_dict/implementation.py:87 | the string order `sorted` uses never puts a key before itself |
| Keys.BelowAsymmetric | nested_dict/implementation.py:87 | two keys are never each before the other |
| Keys.BelowTransitive | nested_dict/implementation.py:87 | the key order is transitive |
| Keys.BelowTotal | nested_dict/implementation.py:87 | any two different keys are ordered one way or the other, so sorting is determined |
| Factories.NestedLevelsClosedForm | nested_dict/implementation.py:109-120 | `_nested_levels(level, T)` is `T` itself at level 1 or below; otherwise it is `level - 1` nested branch factories around `T`, or around "no factory" when `T` is the `any_type` marker |
| Tree.Lookup | nested_dict/implementation.py:54-55 | reading a present key finds it, and finds the value stored under it when keys are distinct; an absent key gives nothing |
| Tree.Put | nested_dict/implementation.py:91-94 | after `d[k] = n`, `k` maps to `n` and every other key maps to what it did before; an existing key keeps its place and a new key is appended; distinct keys stay distinct; putting back the stored value changes nothing |
| Tree.WellFormedUniqueKeys | nested_dict/implementation.py:38 | every dictionary a nested dict can be has distinct keys at every level |
| Access.Make | nested_dict/implementation.py:113-120 | calling the default factory gives a fresh, well-formed value: `nested_dict` an empty unlimited dictionary, a `_recursive_dict(inner)` wrapper an empty dictionary with factory `inner`, a leaf constructor its value. Only "no factory" raises `KeyError`; only a non-callable object, or a wrapper around one, raises, and then `TypeError` |
| Access.Get | nested_dict/implementation.py:38 | `d[k]` returns a present key's value without change. For a missing key it stores the factory's result under `k`, appended, or raises and changes nothing. It raises on a leaf. The factory, all other keys and well-formedness are kept |
| Access.ReadPath | tests/test_nested_dict.py:105-109 | a chain of subscripts, when it succeeds, leaves a tree in which that key chain leads to the returned value; the root keeps its factory and well-formedness is preserved |
| Access.SetItem | nested_dict/implementation.py:38 | `d[k] = v` on a dictionary stores `v` under `k` and changes no other key; on a leaf it raises |
| Access.AssignPath | tests/test_nested_dict.py:26-31 | an assignment through a key chain, when it succeeds, stores exactly the value at the end of that chain, and well-formedness is preserved |
| Access.ReadPresent | nested_dict/implementation.py:54-55 | reading a key chain that already exists returns what is there and changes nothing |
| Access.ReadFrame | tests/test_nested_dict.py:26-31 | reading through one key chain leaves everything under a chain that parts from it as it was |
| Access.AssignFrame | tests/test_nested_dict.py:26-31 | assigning through one key chain leaves earlier entries under a chain that parts from it as they were |
| Flatten.ItemsFlat | nested_dict/implementation.py:48-61 | every yielded key tuple is non-empty and leads from the root to a leaf holding the yielded value; no key tuple is yielded twice |
| Flatten.ItemsFlatComplete | nested_dict/implementation.py:48-61 | every leaf reachable by a non-empty key chain is yielded with that key tuple |
| Flatten.KeysFlat | nested_dict/implementation.py:63-68 | the i-th key tuple is the key tuple of the i-th pair of `iteritems_flat`, with as many tuples as pairs; each leads to a leaf and none repeats |
| Flatten.ValuesFlat | nested_dict/implementation.py:70-75 | the i-th value and the i-th key tuple form the i-th pair of `iteritems_flat`, and that key tuple leads to that value |
| Plain.SortByKey | nested_dict/implementation.py:87 | the result holds the same entries with keys in strictly ascending order |
| Plain.ToDict | nested_dict/implementation.py:77-95 | a leaf is copied unchanged. A dictionary becomes a plain one with the same number of keys, holding each key with its converted value, and no key that was not there. Its keys ascend at every level |
| Plain.ToDictEquiv | nested_dict/implementation.py:84-95 | the result of `to_dict` compares equal to the nested dictionary under nested-mapping `==` |
| Plain.ToDictCanonical | nested_dict/implementation.py:87 | two nested dictionaries equal to the same plain structure give the very same `to_dict`, whatever order their keys were inserted in |
| Plain.ToDictUnique | nested_dict/implementation.py:84-95 | any plain structure that is sorted at every level and equal to the nested dictionary is exactly what `to_dict` returns |
| Construct.Install | nested_dict/implementation.py:145 | installing a factory gives an empty well-formed dictionary with that factory, unless the factory cannot be called (`TypeError`) |
| Construct.Init | nested_dict/implementation.py:128-148 | no arguments give an unlimited dictionary. More than two arguments, or a non-`int` level, raise the bare `Exception`. Otherwise the factory is `level - 1` branch wrappers around `T`, or around "no factory" without `T`; a level of 1 or below installs `T` itself, where the missing `T` and non-callables raise `TypeError` |
| Construct.FreshRead | nested_dict/implementation.py:113-120 | from an empty dictionary with `m` wrappers around `g`, a chain of at most `m` reads gives empty dictionaries one wrapper down; read `m + 1` calls `g`; deeper reads hit `g`'s leaf or its error |
| Construct.FreshAssign | nested_dict/implementation.py:113-120 | in the same dictionary an assignment through up to `m + 1` keys succeeds; deeper assignments hit `g`'s leaf or its error |
| Construct.InitTyped | nested_dict/implementation.py:137-145 | `nested_dict(n, T)` is empty with `n - 1` wrappers around `T` |
| Construct.TypedDepth | tests/test_nested_dict.py:105-109 | on a fresh `nested_dict(n, T)`, fewer than `n` reads give empty nested dictionaries, exactly `n` give `T()`, and more subscript that leaf |
| Construct.TypedChainRead | tests/test_nested_dict.py:105-109 | reading `n` keys into a fresh `nested_dict(n, T)` leaves one key per level, each level holding the next dictionary and the last holding `T()` |
| Construct.TypedDepthFlat | tests/test_nested_dict.py:105-119 | after reading `n` keys of a fresh `nested_dict(n, T)`, `iteritems_flat` yields exactly one pair: that key tuple and `T()` |
| Construct.InitUntyped | nested_dict/implementation.py:139-145 | `nested_dict(n)` is empty with `n - 1` wrappers around "no factory" for `n >= 2`, and raises `TypeError` for `n <= 1` |
| Construct.UntypedCap | tests/test_nested_dict.py:70-98 | in a fresh `nested_dict(n)`, `n - 1` reads give a dictionary with no factory. Reading `n` keys or more raises `KeyError`. Assigning through `n` keys or fewer succeeds, and through more raises `KeyError` |
| Construct.UnlimitedRead | nested_dict/implementation.py:133-134 | in an unlimited `nested_dict()`, a read chain succeeds exactly when no stored leaf is in its way, and the tree stays unlimited |
| Construct.UnlimitedAssign | tests/test_nested_dict.py:136-138 | in an unlimited `nested_dict()`, an assignment succeeds exactly when no stored leaf is in its way, and the tree stays unlimited |
| Construct.AssignIntoEmpty | tests/test_nested_dict.py:136-137 | one assignment into an empty `nested_dict()` leaves exactly the chain of one-key dictionaries leading to the value |
| Legacy.LegacyLevelsAgree | nested_dict.py:234-240 | the single-file `_nested_levels` is `level - 1` wrappers around `T`, and equals the package's for every integer level and every `T` |
| Legacy.LegacyInit | nested_dict.py:247-260 | no arguments give an unlimited dictionary. Two arguments install `_nested_levels`, where a `None` level gives `T` itself and any other non-number level gives a factory raising `TypeError`. Any other count gives a dictionary with no factory. The bare `Exception` is never raised |
| Legacy.LegacyInitAgrees | nested_dict.py:255-257 | with an integer level and a second argument other than the `any_type` marker, both constructors build the same dictionary |
| Legacy.LegacyIgnoredArgs | nested_dict.py:258-260 | with one argument, or three or more, the single-file constructor succeeds. Every read then raises `KeyError` and a one-key assignment works, where the package raises for three or more |
| Legacy.CorrectedInit | nested_dict.py:258-260 | with the argument-count error raised, every count other than none or two is refused, and the accepted counts behave as the single-file constructor does |
| Legacy.CorrectedInitAgrees | nested_dict.py:247-260 | the corrected single-file constructor and the package's agree on no arguments, on three or more, and on an integer level with a second argument other than the `any_type` marker |
| Legacy.LegacyObjectLevel | nested_dict.py:234-240 | a level object other than `None` is accepted by the single-file constructor; the first missing-key read raises `TypeError`, while the package refuses the arguments |
| Legacy.LegacyToDict | nested_dict.py:207-224 | a leaf is copied; a dictionary keeps its keys in its own iteration order, unsorted |
| Legacy.LegacyToDictEquiv | nested_dict.py:207-224 | the single-file `to_dict` compares equal to the nested dictionary under nested-mapping `==` |
| Legacy.SortLevels | nested_dict/implementation.py:87 | sorting the keys of every level of a plain structure with distinct keys: each level keeps its size and holds every one of its entries, the key with its value sorted in turn, and its keys ascend at every level |
| Legacy.ToDictVersionsAgree | nested_dict.py:207-224 | the package's `to_dict` is the single-file `to_dict` with the keys of every level sorted, and both hold the tree's nested mapping |
| Scenarios.FirstAssignment | tests/test_nested_dict.py:136-137 | `a['1']['2']['3'] = 3` on a fresh `nested_dict()` gives the expected three-level chain |
| Scenarios.SecondAssignment | tests/test_nested_dict.py:136-138 | `a['A']['B'] = 15` then appends a new top-level branch and keeps the first |
| Scenarios.ExampleFlat | tests/test_nested_dict.py:131-161 | the flat items, keys and values of that dictionary are the ones the tests expect |
| Scenarios.ExampleEquiv | tests/test_nested_dict.py:163-172 | that dictionary equals `{'1': {'2': {'3': 3}}, 'A': {'B': 15}}` |
| Scenarios.ExampleToDict | tests/test_nested_dict.py:163-172 | its `to_dict()` is that plain dictionary with sorted keys |

## Left out

- `__str__` and its JSON dump: a pass-through to the `json` library with no logic of its own.
- setup.py and `nested_dict/__init__.py`: packaging and a re-export.
- The in-file unittest harness of nested_dict.py and its `sys.path` handling.
- Dictionary iteration order of the single-file module: it is Python 2 hash order. The model uses the entries' order, so flat iteration and `to_dict` there follow insertion order.
- Keys other than `str`, including the `int` keys of tests/test_nested_dict.py:78-95, and keys of mixed types: keys are strings ordered as Python orders `str`. For `int` keys `sorted` orders numerically (`[2, 10]`), where the model's string order puts `"10"` before `"2"`. The `TypeError` that `sorted` raises on incomparable keys is not modelled.
- Leaf internals such as `list.append` or `+=`: a leaf constructor is represented by the value it creates, and subscripting a leaf is the single error `LeafAccess`.
- Leaf constructors that raise, or that return a dictionary other than a fresh `nested_dict` or a `_recursive_dict` built by `_nested_levels`.
- A plain Python `dict` (or any other value) stored into a nested dictionary is a leaf in the model. Python could subscript a stored `dict`: after `nd['a'] = {'b': 1}`, `nd['a']['b']` is `1`, where the model raises `LeafAccess`. This abstraction is what makes the "exactly when no stored leaf is in its way" of `Construct.UnlimitedRead` and `Construct.UnlimitedAssign`, and the leaf case of `Access.SetItem`, hold.
- Aliasing: a dictionary stored under two keys is one object in Python and two copies in the model.
- Levels that are floats, `long`s (Python 2) or `bool`s: levels are `int`s or other objects, and other objects follow Python 2's ordering in the single-file module.
- The single-file module's `iteritems_flat` and `to_dict` call `iteritems`, which exists only in Python 2. The model takes Python 2 for that module throughout.
- `to_dict(input_dict)` called with an explicit plain dictionary: only the conversion of a nested dictionary is modelled.
- The package's `nested_dict(1)` and `nested_dict(0)` give a `TypeError` from `defaultdict`, not the library's own `Exception`; the model keeps that `TypeError` and does not distinguish the two messages.

## Findings

| source | as written | input that shows it | evidently intended | confidence | as-written member | corrected member |
|---|---|---|---|---|---|---|
| nested_dict.py:258-260 | the argument-count error is built as an `Exception` object but never raised, and no default factory is installed | `nested_dict(1)` or `nested_dict(1, 2, 3)` returns a dictionary whose every missing-key read raises `KeyError` | raise the error for any argument count other than 0 or 2, as the message built at nested_dict.py:259-260 says | high; not executed | Legacy.LegacyIgnoredArgs | Legacy.CorrectedInit |
