/** The exact-key command trie of clitree.go: the same trie as treecli.go
    without wildcards, so a path resolves only to the node stored under the
    path itself. */
module CliTree {
  import opened Trie

  // ---------------------------------------------------------------------
  // The operations on the abstract trie
  // ---------------------------------------------------------------------

  /** The search loop from position `i` on, with the node at `path[..i]` as
      the current node (a tombstone there is a nil current node). */
  function SearchedFrom<H>(m: Tree<H>, path: Path, i: nat): (r: Outcome<Resolved>)
    requires i <= |path| && path[..i] in m
    ensures r == Fail(PathExhausted) <==> i == |path|
    ensures r.Ok? ==> IsLive(m, r.value.parent) && IsLive(m, path) && r.value.Full() == path
    decreases |path| - i
  {
    if i == |path| then Fail(PathExhausted)
    else if m[path[..i]].Tomb? then Panic
    else if i == |path| - 1 then
      assert path[..i] + [path[i]] == path;
      if IsLive(m, path) then Ok(Resolved(path[..i], path[i])) else Fail(NodeDoesNotExist)
    else if path[..i + 1] in m then SearchedFrom(m, path, i + 1)
    else Fail(MissingIntermediate(path[i]))
  }

  /** What `searchTree` resolves `path` to. */
  function Searched<H>(m: Tree<H>, path: Path): Outcome<Resolved>
    requires [] in m
  {
    SearchedFrom(m, path, 0)
  }

  /** The handler `Parse` returns for `path`. */
  function Parsed<H>(m: Tree<H>, path: Path): Outcome<H>
    requires IsLive(m, [])
  {
    if path == [] then Ok(m[[]].f)
    else
      match Searched(m, path)
      case Ok(hit) => Ok(m[hit.Full()].f)
      case Fail(e) => Fail(e)
      case Panic => Panic
  }

  /** The insertion loop from position `i` on, with the node at `path[..i]`
      as the current node. The only write is at the last key. */
  function AddedFrom<H>(m: Tree<H>, f: H, path: Path, i: nat): (res: (Outcome<()>, Tree<H>))
    requires i <= |path| && path[..i] in m
    ensures res.1 == m || (&& res.0 == Ok(()) && path != [] && IsLive(m, Parent(path))
                           && !IsLive(m, path) && res.1 == m[path := Live(f)])
    decreases |path| - i
  {
    if i == |path| then (Ok(()), m)
    else if m[path[..i]].Tomb? then (Panic, m)
    else if i == |path| - 1 && !IsLive(m, path[..i + 1]) then
      assert path[..i + 1] == path;
      (Ok(()), m[path := Live(f)])
    else if path[..i + 1] in m then AddedFrom(m, f, path, i + 1)
    else (Fail(MissingAncestor(path[i], i, |path| - 1)), m)
  }

  /** What `AddCommand` returns, and the trie it leaves. */
  function Added<H>(m: Tree<H>, f: H, path: Path): (Outcome<()>, Tree<H>)
    requires [] in m
  {
    AddedFrom(m, f, path, 0)
  }

  /** What `RemoveCommand` returns, and the trie it leaves. */
  function Removed<H>(m: Tree<H>, path: Path): (Outcome<()>, Tree<H>)
    requires [] in m
  {
    match Searched(m, path)
    case Ok(hit) => (Ok(()), Prune(m, hit.Full()))
    case Fail(e) => (Fail(e), m)
    case Panic => (Panic, m)
  }

  // ---------------------------------------------------------------------
  // What the operations promise
  // ---------------------------------------------------------------------

  /** The search walks down the path as long as the nodes it needs are there. */
  lemma {:induction false} SearchDescends<H>(m: Tree<H>, path: Path, i: nat, j: nat)
    requires WellFormed(m) && i <= j < |path| && path[..i] in m && IsLive(m, path[..j])
    ensures SearchedFrom(m, path, i) == SearchedFrom(m, path, j)
    decreases j - i
  {
    if i < j {
      assert path[..j][..i] == path[..i] && path[..j][..i + 1] == path[..i + 1];
      AncestorsLive(m, path[..j], i);
      if i + 1 < j {
        AncestorsLive(m, path[..j], i + 1);
      }
      SearchDescends(m, path, i + 1, j);
    }
  }

  /** A search succeeds exactly on the paths that hold a node, and then it
      resolves to that node. */
  lemma SearchedIffLive<H>(m: Tree<H>, path: Path)
    requires WellFormed(m) && path != []
    ensures Searched(m, path).Ok? <==> IsLive(m, path)
    ensures Searched(m, path).Ok? ==> Searched(m, path) == Ok(Resolved(Parent(path), path[|path| - 1]))
  {
    var j := |path| - 1;
    if IsLive(m, path) {
      assert path[..0] == [] && path[..j] == Parent(path);
      AncestorsLive(m, path, j);
      SearchDescends(m, path, 0, j);
    }
  }

  /** The error of a failed search names the first key that is missing on
      the way, or says that the last node does not exist. */
  lemma SearchMissing<H>(m: Tree<H>, path: Path, j: nat)
    requires WellFormed(m) && j < |path| && IsLive(m, path[..j]) && !IsLive(m, path[..j + 1])
    ensures j < |path| - 1 && path[..j + 1] !in m ==> Searched(m, path) == Fail(MissingIntermediate(path[j]))
    ensures j == |path| - 1 ==> Searched(m, path) == Fail(NodeDoesNotExist)
  {
    assert path[..0] == [];
    SearchDescends(m, path, 0, j);
    if j == |path| - 1 {
      assert path[..j + 1] == path;
    }
  }

  /** A search that passes a removed key dereferences the nil node left
      there. */
  lemma SearchThroughRemoved<H>(m: Tree<H>, path: Path, j: nat)
    requires WellFormed(m) && 0 < j < |path| && path[..j] in m && m[path[..j]] == Tomb
    ensures Searched(m, path) == Panic
  {
    var p := path[..j - 1];
    assert path[..j] == p + [path[j - 1]];
    assert path[..0] == [];
    SearchDescends(m, path, 0, j - 1);
    assert path[..j - 1 + 1] == path[..j];
  }

  /** The insertion loop walks down the path as long as the nodes it needs
      are there. */
  lemma {:induction false} AddDescends<H>(m: Tree<H>, f: H, path: Path, i: nat, j: nat)
    requires WellFormed(m) && i <= j < |path| && path[..i] in m && IsLive(m, path[..j])
    ensures AddedFrom(m, f, path, i) == AddedFrom(m, f, path, j)
    decreases j - i
  {
    if i < j {
      assert path[..j][..i] == path[..i] && path[..j][..i + 1] == path[..i + 1];
      AncestorsLive(m, path[..j], i);
      if i + 1 < j {
        AncestorsLive(m, path[..j], i + 1);
      }
      AddDescends(m, f, path, i + 1, j);
    }
  }

  /** Adding below a node stores the handler when no node is there yet, and
      leaves the trie as it is (without an error) when one is. */
  lemma AddOutcome<H>(m: Tree<H>, f: H, path: Path)
    requires WellFormed(m) && path != [] && IsLive(m, Parent(path))
    ensures Added(m, f, path) == (Ok(()), if IsLive(m, path) then m else m[path := Live(f)])
    ensures !IsLive(m, path) ==> forall q :: q in Added(m, f, path).1 ==> !StrictlyBelow(path, q)
  {
    var j := |path| - 1;
    assert path[..0] == [] && path[..j] == Parent(path) && path[..j + 1] == path;
    AddDescends(m, f, path, 0, j);
    forall q | q in m && StrictlyBelow(path, q)
      ensures IsLive(m, path)
    {
      AncestorsLive(m, q, |path|);
    }
  }

  /** The empty path: parsing gives the root handler, adding does nothing,
      and removing falls through the search loop. */
  lemma EmptyPath<H>(m: Tree<H>, f: H)
    requires IsLive(m, [])
    ensures Parsed(m, []) == Ok(m[[]].f)
    ensures Added(m, f, []) == (Ok(()), m)
    ensures Removed(m, []) == (Fail(PathExhausted), m)
  {
  }

  /** Adding below a missing key reports the first missing key, its
      position and the last position. */
  lemma AddMissingAncestor<H>(m: Tree<H>, f: H, path: Path, j: nat)
    requires WellFormed(m) && j < |path| - 1 && IsLive(m, path[..j]) && path[..j + 1] !in m
    ensures Added(m, f, path) == (Fail(MissingAncestor(path[j], j, |path| - 1)), m)
  {
    assert path[..0] == [];
    AddDescends(m, f, path, 0, j);
  }

  /** Parsing a path after adding a handler there gives the handler that is
      stored there: the new one, or the one that was there before. */
  lemma AddThenParse<H>(m: Tree<H>, f: H, path: Path)
    requires WellFormed(m) && path != [] && IsLive(m, Parent(path))
    ensures Added(m, f, path).0 == Ok(())
    ensures Parsed(Added(m, f, path).1, path) == Ok(if IsLive(m, path) then m[path].f else f)
  {
    AddOutcome(m, f, path);
    PutPreservesShape(m, path, f);
    SearchedIffLive(Added(m, f, path).1, path);
    assert Parent(path) + [path[|path| - 1]] == path;
  }

  /** Removing a command leaves a tombstone: parsing or removing it again
      reports that the node does not exist. */
  lemma RemoveThenMissing<H>(m: Tree<H>, path: Path)
    requires WellFormed(m) && path != [] && IsLive(m, path)
    ensures Removed(m, path) == (Ok(()), Prune(m, path))
    ensures Parsed(Prune(m, path), path) == Fail(NodeDoesNotExist)
    ensures Removed(Prune(m, path), path) == (Fail(NodeDoesNotExist), Prune(m, path))
  {
    var j := |path| - 1;
    SearchedIffLive(m, path);
    assert Parent(path) + [path[j]] == path;
    var m' := Prune(m, path);
    PrunePreservesShape(m, path);
    assert path[..j] == Parent(path);
    AncestorsLive(m, path, j);
    SearchMissing(m', path, j);
  }

  /** Adding and removing keep a trie well formed. */
  lemma AddedKeepsShape<H>(m: Tree<H>, f: H, path: Path)
    requires WellFormed(m)
    ensures WellFormed(Added(m, f, path).1)
  {
    if Added(m, f, path).1 != m {
      PutPreservesShape(m, path, f);
    }
  }

  lemma RemovedKeepsShape<H>(m: Tree<H>, path: Path)
    requires WellFormed(m)
    ensures WellFormed(Removed(m, path).1)
  {
    if Searched(m, path).Ok? {
      PrunePreservesShape(m, path);
    }
  }

  /** The insertion loop's `ok` test also accepts a removed key, so it steps
      onto the nil node and dereferences it on the next key. */
  lemma AddThroughRemoved<H>(m: Tree<H>, f: H, path: Path, j: nat)
    requires WellFormed(m) && 0 < j < |path| && path[..j] in m && m[path[..j]] == Tomb
    ensures Added(m, f, path) == (Panic, m)
  {
    assert path[..j] == path[..j - 1] + [path[j - 1]];
    assert path[..0] == [];
    AncestorsLive(m, path[..j], j - 1);
    assert path[..j][..j - 1] == path[..j - 1];
    AddDescends(m, f, path, 0, j - 1);
    assert path[..j - 1 + 1] == path[..j];
  }

  /** The search as evidently intended: a removed key on the way is missing,
      the same as a key that was never added. */
  function SearchedLiveFrom<H>(m: Tree<H>, path: Path, i: nat): (r: Outcome<Resolved>)
    requires i <= |path| && IsLive(m, path[..i])
    ensures r != Panic
    decreases |path| - i
  {
    if i == |path| then Fail(PathExhausted)
    else if i == |path| - 1 then
      if IsLive(m, path) then Ok(Resolved(path[..i], path[i])) else Fail(NodeDoesNotExist)
    else if IsLive(m, path[..i + 1]) then SearchedLiveFrom(m, path, i + 1)
    else Fail(MissingIntermediate(path[i]))
  }

  /** The intended search answers as the search as written wherever that
      one does not panic, and reports a missing key where it panics. */
  lemma {:induction false} SearchedLiveAgrees<H>(m: Tree<H>, path: Path, i: nat)
    requires i <= |path| && IsLive(m, path[..i])
    ensures SearchedFrom(m, path, i) != Panic ==> SearchedLiveFrom(m, path, i) == SearchedFrom(m, path, i)
    ensures SearchedFrom(m, path, i) == Panic ==>
              SearchedLiveFrom(m, path, i).Fail? && SearchedLiveFrom(m, path, i).err.MissingIntermediate?
    decreases |path| - i
  {
    if i < |path| - 1 && IsLive(m, path[..i + 1]) {
      SearchedLiveAgrees(m, path, i + 1);
    }
  }

  /** The insertion loop as evidently intended: a removed key on the way is
      missing, the same as a key that was never added. */
  function AddedLiveFrom<H>(m: Tree<H>, f: H, path: Path, i: nat): (res: (Outcome<()>, Tree<H>))
    requires i <= |path| && IsLive(m, path[..i])
    ensures res.0 != Panic
    decreases |path| - i
  {
    if i == |path| then (Ok(()), m)
    else if i == |path| - 1 && !IsLive(m, path[..i + 1]) then
      assert path[..i + 1] == path;
      (Ok(()), m[path := Live(f)])
    else if IsLive(m, path[..i + 1]) then AddedLiveFrom(m, f, path, i + 1)
    else (Fail(MissingAncestor(path[i], i, |path| - 1)), m)
  }

  /** The intended insertion answers as the one as written wherever that one
      does not panic, and reports a missing ancestor, changing nothing, where
      it panics. */
  lemma {:induction false} AddedLiveAgrees<H>(m: Tree<H>, f: H, path: Path, i: nat)
    requires i <= |path| && IsLive(m, path[..i])
    ensures AddedFrom(m, f, path, i).0 != Panic ==> AddedLiveFrom(m, f, path, i) == AddedFrom(m, f, path, i)
    ensures AddedFrom(m, f, path, i).0 == Panic ==>
              && AddedLiveFrom(m, f, path, i).1 == m
              && AddedLiveFrom(m, f, path, i).0.Fail?
              && AddedLiveFrom(m, f, path, i).0.err.MissingAncestor?
    decreases |path| - i
  {
    if i < |path| && IsLive(m, path[..i + 1]) {
      AddedLiveAgrees(m, f, path, i + 1);
    }
  }

  // ---------------------------------------------------------------------
  // The heap trie
  // ---------------------------------------------------------------------

  class CLITree<H> {
    const root: Node<H>
    /** The node at every live path. */
    ghost var Addr: map<Path, Node<H>>
    /** The children map of the node at every live path. */
    ghost var Children: Kids<H>
    /** The abstract trie reachable from `root`. */
    ghost var Model: Tree<H>

    ghost predicate Valid()
      reads this, Addr.Values
    {
      Shape(root, Addr, Children, Model) && Linked(Addr, Children)
    }

    /** A search result of the heap trie agrees with the abstract one. */
    ghost predicate Resolves(r: Outcome<(Node<H>, string)>, s: Outcome<Resolved>)
      reads this
    {
      match s
      case Ok(hit) => hit.parent in Addr && r == Ok((Addr[hit.parent], hit.key))
      case Fail(e) => r == Fail(e)
      case Panic => r == Panic
    }

    constructor NewTree(f: H)
      ensures Valid() && fresh(Addr.Values)
      ensures Model == map[[] := Live(f)]
    {
      root := new Node(f);
      Addr := map[[] := root];
      Children := map[[] := map[]];
      Model := map[[] := Live(f)];
    }

    method AddCommand(f: H, path: Path) returns (r: Outcome<()>)
      requires Valid()
      modifies this, Addr.Values
      ensures Valid() && fresh(Addr.Values - old(Addr.Values))
      ensures (r, Model) == Added(old(Model), f, path)
    {
      var cur: Node?<H> := root;
      for i := 0 to |path|
        invariant Valid() && Model == old(Model) && Addr == old(Addr) && Children == old(Children)
        invariant path[..i] in Model
        invariant cur == null <==> Model[path[..i]] == Tomb
        invariant cur != null ==> path[..i] in Addr && Addr[path[..i]] == cur
        invariant Added(Model, f, path) == AddedFrom(Model, f, path, i)
      {
        var v := path[i];
        assert path[..i + 1] == path[..i] + [v];
        if cur == null {
          // every branch dereferences the nil current node
          return Panic;
        }
        if i == |path| - 1 && (v !in cur.children || cur.children[v] == null) {
          assert path[..i + 1] == path;
          Attach(cur, v, f, path[..i]);
          return Ok(());
        } else if v in cur.children {
          cur := cur.children[v];
        } else {
          return Fail(MissingAncestor(v, i, |path| - 1));
        }
      }
      return Ok(());
    }

    /** Stores a fresh node with handler `f` and no children under key `k`
        of the node `n` at the live path `p`, where no node is stored yet. */
    method Attach(n: Node<H>, k: string, f: H, ghost p: Path)
      requires Valid() && p in Addr && Addr[p] == n && !IsLive(Model, p + [k])
      modifies this, n
      ensures Valid() && fresh(Addr.Values - old(Addr.Values))
      ensures Model == old(Model)[p + [k] := Live(f)]
    {
      ghost var q := p + [k];
      SnocParent(p, k);
      ghost var addr, kids := Addr, Children;
      var node := new Node(f);
      InsertKeepsShape(root, Addr, Children, Model, p, k, node);
      n.children := n.children[k := node];
      Addr := Addr[q := node];
      Children := Children[p := Children[p][k := node]][q := map[]];
      Model := Model[q := Live(f)];
      forall x | x in Addr
        ensures x in Children && Addr[x].children == Children[x]
      {
        if x == q {
          assert Addr[x] == node && Children[x] == map[];
        } else if x == p {
          assert Addr[x] == n && Children[x] == kids[p][k := node];
        } else {
          assert Addr[x] == addr[x] != n && Children[x] == kids[x];
          assert addr[x].children == old(addr[x].children);
        }
      }
    }

    method RemoveCommand(path: Path) returns (r: Outcome<()>)
      requires Valid()
      modifies this, Addr.Values
      ensures Valid() && Addr.Values <= old(Addr.Values)
      ensures (r, Model) == Removed(old(Model), path)
    {
      var s := SearchTree(path);
      match s
      case Ok((n, k)) =>
        Unlink(n, k, Searched(Model, path).value.parent);
        r := Ok(());
      case Fail(e) =>
        r := Fail(e);
      case Panic =>
        r := Panic;
    }

    /** Writes nil under key `k` of the node `n` at the live path `p`: the
        key becomes a tombstone and what lay below it becomes unreachable. */
    method Unlink(n: Node<H>, k: string, ghost p: Path)
      requires Valid() && p in Addr && Addr[p] == n && p + [k] in Model
      modifies this, n
      ensures Valid() && Addr.Values <= old(Addr.Values)
      ensures Model == Prune(old(Model), p + [k])
    {
      ghost var q := p + [k];
      ghost var addr, kids := Addr, Children;
      RemoveKeepsShape(root, Addr, Children, Model, p, k);
      UnlinkFrame(root, Addr, Children, Model, p, k);
      n.children := n.children[k := null];
      Addr := Outside(Addr, q);
      Children := Outside(Children, q)[p := Children[p][k := null]];
      Model := Prune(Model, q);
      forall x | x in Addr
        ensures x in Children && Addr[x].children == Children[x]
      {
        if x != p {
          assert addr[x].children == old(addr[x].children);
        }
      }
    }

    method Parse(path: Path) returns (r: Outcome<H>)
      requires Valid()
      ensures r == Parsed(Model, path)
      ensures path == [] ==> r == Ok(root.f)
    {
      if |path| == 0 {
        return Ok(root.f);
      }
      var s := SearchTree(path);
      match s
      case Ok((n, k)) =>
        ghost var hit := Searched(Model, path).value;
        SnocParent(hit.parent, hit.key);
        r := Ok(n.children[k].f);
      case Fail(e) =>
        r := Fail(e);
      case Panic =>
        r := Panic;
    }

    method SearchTree(path: Path) returns (r: Outcome<(Node<H>, string)>)
      requires Valid()
      ensures Resolves(r, Searched(Model, path))
    {
      var cur: Node?<H> := root;
      for i := 0 to |path|
        invariant path[..i] in Model
        invariant cur == null <==> Model[path[..i]] == Tomb
        invariant cur != null ==> path[..i] in Addr && Addr[path[..i]] == cur
        invariant Searched(Model, path) == SearchedFrom(Model, path, i)
      {
        var v := path[i];
        assert path[..i + 1] == path[..i] + [v];
        if cur == null {
          // every branch dereferences the nil current node
          return Panic;
        }
        if i == |path| - 1 {
          assert path[..i + 1] == path;
        }
        if i == |path| - 1 && v in cur.children && cur.children[v] != null {
          return Ok((cur, v));
        } else if i == |path| - 1 {
          return Fail(NodeDoesNotExist);
        } else if v in cur.children {
          cur := cur.children[v];
        } else {
          return Fail(MissingIntermediate(v));
        }
      }
      return Fail(PathExhausted);
    }
  }
}
