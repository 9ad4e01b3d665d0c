/**
  Worked examples from the repository's tests, on an unlimited
  `nested_dict()` holding integers.
 */
module Scenarios {
  import opened Keys
  import opened Outcomes
  import opened Factories
  import opened Tree
  import opened Access
  import opened Flatten
  import opened Plain
  import opened Construct

  /** `a['1']['2']['3'] = 3` on a fresh `nested_dict()`. */
  lemma FirstAssignment()
    ensures AssignPath<int>(Branch(FNested, []), ["1", "2", "3"], Leaf(3)) == Access(
      Branch(FNested, [Entry("1", Branch(FNested, [Entry("2", Branch(FNested, [Entry("3", Leaf(3))]))]))]),
      Ok(Leaf(3)))
  {
    AssignIntoEmpty<int>(["1", "2", "3"], Leaf(3));
    assert ["1", "2", "3"][1..] == ["2", "3"];
    assert ["2", "3"][1..] == ["3"];
  }

  /** `a['A']['B'] = 15` next: a new top-level key, appended after `'1'`. */
  lemma SecondAssignment()
    ensures AssignPath(
      Branch(FNested, [Entry("1", Branch(FNested, [Entry("2", Branch(FNested, [Entry("3", Leaf(3))]))]))]),
      ["A", "B"], Leaf(15)) == Access(
      Branch(FNested, [
        Entry("1", Branch(FNested, [Entry("2", Branch(FNested, [Entry("3", Leaf(3))]))])),
        Entry("A", Branch(FNested, [Entry("B", Leaf(15))]))]),
      Ok(Leaf(15)))
  {
    var e: Node<int> := Branch(FNested, []);
    assert AssignPath(e, ["B"], Leaf(15)) == Access(Branch(FNested, [Entry("B", Leaf(15))]), Ok(Leaf(15)));
    assert ["A", "B"][1..] == ["B"];
  }

  /** The dictionary after both assignments. */
  const Example: Node<int> := Branch(FNested, [
    Entry("1", Branch(FNested, [Entry("2", Branch(FNested, [Entry("3", Leaf(3))]))])),
    Entry("A", Branch(FNested, [Entry("B", Leaf(15))]))])

  /** The flattened views of the example, in insertion order. */
  lemma ExampleFlat()
    ensures ItemsFlat(Example) == [Item(["1", "2", "3"], 3), Item(["A", "B"], 15)]
    ensures KeysFlat(Example) == [["1", "2", "3"], ["A", "B"]]
    ensures ValuesFlat(Example) == [3, 15]
  {
    var s3: seq<Entry<int>> := [Entry("3", Leaf(3))];
    var s2 := [Entry("2", Branch(FNested, s3))];
    var sb: seq<Entry<int>> := [Entry("B", Leaf(15))];
    var es := Example.entries;
    assert s3[1..] == [] && s2[1..] == [] && sb[1..] == [];
    assert ItemsOf(s3) == [Item(["3"], 3)];
    assert ["2"] + ["3"] == ["2", "3"];
    assert ItemsOf(s2) == [Item(["2", "3"], 3)];
    assert ["1"] + ["2", "3"] == ["1", "2", "3"];
    assert ItemsOf(sb) == [Item(["B"], 15)];
    assert ["A"] + ["B"] == ["A", "B"];
    assert es[1..] == [Entry("A", Branch(FNested, sb))];
    assert es[1..][1..] == [];
    assert ItemsOf(es[1..]) == [Item(["A", "B"], 15)];
    assert ItemsOf(es) == [Item(["1", "2", "3"], 3), Item(["A", "B"], 15)];
  }

  /** `{'1': {'2': {'3': 3}}, 'A': {'B': 15}}` with its keys in ascending order. */
  const ExamplePlain: Plain<int> := PDict([
    PEntry("1", PDict([PEntry("2", PDict([PEntry("3", PLeaf(3))]))])),
    PEntry("A", PDict([PEntry("B", PLeaf(15))]))])

  /** A one-key dictionary and a one-key plain structure agree when their values do. */
  lemma EquivSingle<V>(f: Factory<V>, k: Key, n: Node<V>, q: Plain<V>)
    requires UniqueKeys(n) && Equiv(n, q)
    ensures UniqueKeys(Branch(f, [Entry(k, n)])) && Equiv(Branch(f, [Entry(k, n)]), PDict([PEntry(k, q)]))
  {
    var es := [Entry(k, n)];
    assert KeysOf(es)[0] == k;
    assert PLookup([PEntry(k, q)], k) == Some(q);
  }

  /** The example and the plain structure hold the same nested mapping. */
  lemma ExampleEquiv()
    ensures UniqueKeys(Example) && Equiv(Example, ExamplePlain)
  {
    var q3: Plain<int> := PDict([PEntry("3", PLeaf(3))]);
    var q2 := PDict([PEntry("2", q3)]);
    var qb: Plain<int> := PDict([PEntry("B", PLeaf(15))]);
    var n3: Node<int> := Branch(FNested, [Entry("3", Leaf(3))]);
    var n2 := Branch(FNested, [Entry("2", n3)]);
    var nb: Node<int> := Branch(FNested, [Entry("B", Leaf(15))]);
    EquivSingle(FNested, "3", Leaf(3), PLeaf(3));
    EquivSingle(FNested, "2", n3, q3);
    EquivSingle(FNested, "B", Leaf(15), PLeaf(15));
    assert KeysOf(Example.entries)[0] == "1" && KeysOf(Example.entries)[1] == "A";
    assert PLookup(ExamplePlain.items, "1") == Some(q2);
    assert PLookup(ExamplePlain.items, "A") == Some(qb);
  }

  /** `to_dict()` of the example is that structure: the `test_to_dict` expectation, keys sorted. */
  lemma ExampleToDict()
    ensures UniqueKeys(Example) && ToDict(Example) == ExamplePlain
  {
    assert Below("1", "A");
    assert DeepAscending(ExamplePlain);
    ExampleEquiv();
    ToDictUnique(Example, ExamplePlain);
  }
}
