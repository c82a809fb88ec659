/** The scenarios of treecli_test.go, replayed on the heap trie; each
    expectation is an assertion the verifier proves. Handlers
    are numbers here, so a scenario can tell which handler a parse returns. */
module Scenarios {
  import opened Trie
  import opened Rendering
  import opened TreeCli

  /** Parsing the empty path gives the root handler. */
  method BasicFunctionality() {
    var ct := new TreeCLI.NewTree(7);
    var f := ct.Parse([]);
    assert f == Ok(7);
  }

  /** Adding commands, the errors for a missing ancestor and for a wildcard
      with children, and a wildcard that shadows a sibling. Each step checks
      one call and hands the tree on to the next. */
  method AddCommandAndParse() {
    var ct := new TreeCLI.NewTree(0);
    AddTest(ct);
  }

  method AddTest(ct: TreeCLI<int>)
    requires ct.Valid() && ct.Model == map[[] := Live(0)]
    modifies ct, ct.Addr.Values
  {
    AddOutcome(ct.Model, 1, ["test"]);
    var e := ct.AddCommand(1, ["test"]);
    assert e == Ok(());
    AddMissing(ct);
  }

  method AddMissing(ct: TreeCLI<int>)
    requires ct.Valid() && ct.Model == map[[] := Live(0), ["test"] := Live(1)]
    modifies ct, ct.Addr.Values
  {
    ShapeIsWellFormed(ct.root, ct.Addr, ct.Children, ct.Model);
    assert ["a", "b", "c"][..0] == [] && ["a", "b", "c"][..1] == ["a"] && ["a"] != ["test"];
    AddMissingAncestor(ct.Model, 2, ["a", "b", "c"], 0);
    var e := ct.AddCommand(2, ["a", "b", "c"]);
    assert e == Fail(MissingAncestor("a", 0, 2));
    AddBelowTest(ct);
  }

  method AddBelowTest(ct: TreeCLI<int>)
    requires ct.Valid() && ct.Model == map[[] := Live(0), ["test"] := Live(1)]
    modifies ct, ct.Addr.Values
  {
    ShapeIsWellFormed(ct.root, ct.Addr, ct.Children, ct.Model);
    assert Parent(["test", "2"]) == ["test"];
    AddOutcome(ct.Model, 3, ["test", "2"]);
    var e := ct.AddCommand(3, ["test", "2"]);
    assert e == Ok(());
    AddWildcardChild(ct);
  }

  method AddWildcardChild(ct: TreeCLI<int>)
    requires ct.Valid() && ct.Model == map[[] := Live(0), ["test"] := Live(1), ["test", "2"] := Live(3)]
    modifies ct, ct.Addr.Values
  {
    ShapeIsWellFormed(ct.root, ct.Addr, ct.Children, ct.Model);
    assert Parent(["test", "*"]) == ["test"];
    AddOutcome(ct.Model, 4, ["test", "*"]);
    var e := ct.AddCommand(4, ["test", "*"]);
    assert e == Ok(());
    AddBelowWildcard(ct);
  }

  method AddBelowWildcard(ct: TreeCLI<int>)
    requires ct.Valid()
    requires ct.Model == map[[] := Live(0), ["test"] := Live(1), ["test", "2"] := Live(3), ["test", "*"] := Live(4)]
    modifies ct, ct.Addr.Values
  {
    ShapeIsWellFormed(ct.root, ct.Addr, ct.Children, ct.Model);
    assert ["test", "*", "*"][..1] == ["test"];
    AddWildcardNotLast(ct.Model, 5, ["test", "*", "*"], 1);
    var e := ct.AddCommand(5, ["test", "*", "*"]);
    assert e == Fail(WildcardNotLast);
    ParseTest(ct);
  }

  method ParseTest(ct: TreeCLI<int>)
    requires ct.Valid()
    requires ct.Model == map[[] := Live(0), ["test"] := Live(1), ["test", "2"] := Live(3), ["test", "*"] := Live(4)]
  {
    ghost var m := ct.Model;
    ShapeIsWellFormed(ct.root, ct.Addr, ct.Children, m);
    assert Parent(["test"]) == [] && ["test"][..0] + [Wildcard] == ["*"];
    SearchedExactly(m, ["test"]);
    var f := ct.Parse(["test"]);
    assert f == Ok(1);
    assert ["test", "2"][..1] + [Wildcard] == ["test", "*"] && ["test", "2"][..0] + [Wildcard] == ["*"];
    WildcardShadows(m, ["test", "2"], 1);
    f := ct.Parse(["test", "2"]);
    assert f == Ok(4);
  }

  /** Removing a command once succeeds and twice fails; the tombstone left
      behind makes the rendering panic. */
  method RemoveCommand() {
    var ct := new TreeCLI.NewTree(0);
    AddOutcome(ct.Model, 1, ["a"]);
    var e := ct.AddCommand(1, ["a"]);
    assert e == Ok(());
    RemoveTwice(ct);
  }

  method RemoveTwice(ct: TreeCLI<int>)
    requires ct.Valid() && ct.Model == map[[] := Live(0), ["a"] := Live(1)]
    modifies ct, ct.Addr.Values
  {
    ghost var m := ct.Model;
    ShapeIsWellFormed(ct.root, ct.Addr, ct.Children, m);
    assert ["a"][..0] + [Wildcard] == ["*"];
    RemoveThenMissing(m, ["a"]);
    var f := ct.Parse(["a"]);
    assert f == Ok(1);
    var e := ct.RemoveCommand(["a"]);
    assert e == Ok(());
    e := ct.RemoveCommand(["a"]);
    assert e == Fail(NodeDoesNotExist);
    RemovedLeavesTomb(m, ["a"]);
    var s, order := ct.String();
    assert s == Panic;
  }

  /** A wildcard after a missing key: the missing key is reported first. */
  method MissingBeforeWildcard() {
    var ct := new TreeCLI.NewTree(0);
    ShapeIsWellFormed(ct.root, ct.Addr, ct.Children, ct.Model);
    assert ["a", "*", "b"][..0] == [] && ["a", "*", "b"][..1] == ["a"];
    AddMissingAncestor(ct.Model, 1, ["a", "*", "b"], 0);
    var e := ct.AddCommand(1, ["a", "*", "b"]);
    assert e == Fail(MissingAncestor("a", 0, 2));
  }

  /** A removed key on the way: searching and adding both step onto the nil
      node it leaves. */
  method RemovedOnTheWay() {
    var ct := new TreeCLI.NewTree(0);
    AddOutcome(ct.Model, 1, ["a"]);
    var e := ct.AddCommand(1, ["a"]);
    assert ["a", "b"][..1] == ["a"] && Parent(["a", "b"]) == ["a"];
    AddOutcome(ct.Model, 2, ["a", "b"]);
    e := ct.AddCommand(2, ["a", "b"]);
    ThroughTheTomb(ct);
  }

  method ThroughTheTomb(ct: TreeCLI<int>)
    requires ct.Valid() && ct.Model == map[[] := Live(0), ["a"] := Live(1), ["a", "b"] := Live(2)]
    modifies ct, ct.Addr.Values
  {
    ShapeIsWellFormed(ct.root, ct.Addr, ct.Children, ct.Model);
    assert ["a"][..0] + [Wildcard] == ["*"];
    RemoveThenMissing(ct.Model, ["a"]);
    var e := ct.RemoveCommand(["a"]);
    assert e == Ok(());
    ParseAndAddThroughTheTomb(ct);
  }

  method ParseAndAddThroughTheTomb(ct: TreeCLI<int>)
    requires ct.Valid()
    requires ct.Model == Prune(map[[] := Live(0), ["a"] := Live(1), ["a", "b"] := Live(2)], ["a"])
    modifies ct, ct.Addr.Values
  {
    ShapeIsWellFormed(ct.root, ct.Addr, ct.Children, ct.Model);
    assert ["a", "b"][..1] == ["a"] && ["a", "b"][..0] + [Wildcard] == ["*"];
    SearchThroughRemoved(ct.Model, ["a", "b"], 1);
    var f := ct.Parse(["a", "b"]);
    assert f == Panic;
    AddThroughRemoved(ct.Model, 3, ["a", "b"], 1);
    var e := ct.AddCommand(3, ["a", "b"]);
    assert e == Panic;
  }
}
