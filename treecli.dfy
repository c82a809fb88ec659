/** The wildcard-aware command trie of treecli.go. A child stored under the
    key "*" absorbs whatever remains of a path: a search that reaches a node
    with a non-nil "*" child resolves to that child before it looks at the
    current segment. */
module TreeCli {
  import opened Trie
  import opened Rendering

  /** The key that marks a wildcard child. */
  const Wildcard: string := "*"

  // ---------------------------------------------------------------------
  // The operations on the abstract trie
  // ---------------------------------------------------------------------

  /** The search loop from position `i` on, with the node at `path[..i]` as
      the current node (a tombstone there is a nil current node). */
  function SearchedFrom<H>(m: Tree<H>, path: Path, i: nat): (r: Outcome<Resolved>)
    requires i <= |path| && path[..i] in m
    ensures r == Fail(PathExhausted) <==> i == |path|
    ensures r.Ok? ==>
              && IsLive(m, r.value.parent) && IsLive(m, r.value.Full())
              && i <= |r.value.parent| < |path| && r.value.parent == path[..|r.value.parent|]
              && (r.value.key == Wildcard || r.value.Full() == path)
    decreases |path| - i
  {
    if i == |path| then Fail(PathExhausted)
    else if m[path[..i]].Tomb? then Panic
    else if IsLive(m, path[..i] + [Wildcard]) then Ok(Resolved(path[..i], Wildcard))
    else if i == |path| - 1 then
      assert path[..i] + [path[i]] == path;
      if IsLive(m, path) then Ok(Resolved(path[..i], path[i])) else Fail(NodeDoesNotExist)
    else if path[..i + 1] in m then SearchedFrom(m, path, i + 1)
    else Fail(MissingIntermediate(path[i]))
  }

  /** What `searchTree` resolves `path` to. */
  function Searched<H>(m: Tree<H>, path: Path): Outcome<Resolved>
    requires [] in m
  {
    SearchedFrom(m, path, 0)
  }

  /** The handler `Parse` returns for `path`. */
  function Parsed<H>(m: Tree<H>, path: Path): Outcome<H>
    requires IsLive(m, [])
  {
    if path == [] then Ok(m[[]].f)
    else
      match Searched(m, path)
      case Ok(hit) => Ok(m[hit.Full()].f)
      case Fail(e) => Fail(e)
      case Panic => Panic
  }

  /** The insertion loop from position `i` on, with the node at `path[..i]`
      as the current node. The only write is at the last segment. */
  function AddedFrom<H>(m: Tree<H>, f: H, path: Path, i: nat): (res: (Outcome<()>, Tree<H>))
    requires i <= |path| && path[..i] in m
    ensures res.1 == m || (&& res.0 == Ok(()) && path != [] && IsLive(m, Parent(path))
                           && !IsLive(m, path) && res.1 == m[path := Live(f)]
                           && forall j :: i <= j < |path| - 1 ==> path[j] != Wildcard)
    decreases |path| - i
  {
    if i == |path| then (Ok(()), m)
    else if path[i] == Wildcard && i != |path| - 1 then (Fail(WildcardNotLast), m)
    else if m[path[..i]].Tomb? then (Panic, m)
    else if i == |path| - 1 && !IsLive(m, path[..i + 1]) then
      assert path[..i + 1] == path;
      (Ok(()), m[path := Live(f)])
    else if path[..i + 1] in m then AddedFrom(m, f, path, i + 1)
    else (Fail(MissingAncestor(path[i], i, |path| - 1)), m)
  }

  /** What `AddCommand` returns, and the trie it leaves. */
  function Added<H>(m: Tree<H>, f: H, path: Path): (Outcome<()>, Tree<H>)
    requires [] in m
  {
    AddedFrom(m, f, path, 0)
  }

  /** What `RemoveCommand` returns, and the trie it leaves. */
  function Removed<H>(m: Tree<H>, path: Path): (Outcome<()>, Tree<H>)
    requires [] in m
  {
    match Searched(m, path)
    case Ok(hit) => (Ok(()), Prune(m, hit.Full()))
    case Fail(e) => (Fail(e), m)
    case Panic => (Panic, m)
  }

  // ---------------------------------------------------------------------
  // What the operations promise
  // ---------------------------------------------------------------------

  /** The wildcard appears in `path` at most as its last key. */
  predicate WildcardLastOnly(path: Path) {
    forall j :: 0 <= j < |path| - 1 ==> path[j] != Wildcard
  }

  /** Every key of the trie has the wildcard at most as its last key: a
      wildcard command has no subcommands. */
  ghost predicate WildcardsLast<H>(m: Tree<H>) {
    forall q :: q in m ==> WildcardLastOnly(q)
  }

  /** No live wildcard child hangs off the way to `path`, except `path`
      itself. */
  ghost predicate Unshadowed<H>(m: Tree<H>, path: Path) {
    forall i :: 0 <= i < |path| && path[..i] + [Wildcard] != path ==> !IsLive(m, path[..i] + [Wildcard])
  }

  /** A search that meets no live wildcard child goes down the path. */
  lemma {:induction false} SearchDescends<H>(m: Tree<H>, path: Path, i: nat, j: nat)
    requires WellFormed(m) && i <= j < |path| && path[..i] in m && IsLive(m, path[..j])
    requires forall l :: i <= l < j ==> !IsLive(m, path[..l] + [Wildcard])
    ensures SearchedFrom(m, path, i) == SearchedFrom(m, path, j)
    decreases j - i
  {
    if i < j {
      assert path[..j][..i] == path[..i] && path[..j][..i + 1] == path[..i + 1];
      AncestorsLive(m, path[..j], i);
      if i + 1 < j {
        AncestorsLive(m, path[..j], i + 1);
      }
      SearchDescends(m, path, i + 1, j);
    }
  }

  /** A live wildcard child answers every search that reaches its parent,
      whatever keys the path holds after it. */
  lemma WildcardShadows<H>(m: Tree<H>, path: Path, j: nat)
    requires WellFormed(m) && j < |path| && IsLive(m, path[..j] + [Wildcard])
    requires forall l :: 0 <= l < j ==> !IsLive(m, path[..l] + [Wildcard])
    ensures Searched(m, path) == Ok(Resolved(path[..j], Wildcard))
    ensures Parsed(m, path) == Ok(m[path[..j] + [Wildcard]].f)
    ensures Removed(m, path) == (Ok(()), Prune(m, path[..j] + [Wildcard]))
  {
    assert IsLive(m, path[..j]);
    SearchDescends(m, path, 0, j);
  }

  lemma {:induction false} SearchedExactlyFrom<H>(m: Tree<H>, path: Path, i: nat)
    requires WellFormed(m) && i < |path| && IsLive(m, path[..i])
    ensures SearchedFrom(m, path, i) == Ok(Resolved(Parent(path), path[|path| - 1]))
        <==> (&& IsLive(m, path)
              && forall l :: i <= l < |path| && path[..l] + [Wildcard] != path ==> !IsLive(m, path[..l] + [Wildcard]))
    decreases |path| - i
  {
    var last := path[|path| - 1];
    assert Parent(path) + [last] == path;
    var w := path[..i] + [Wildcard];
    if IsLive(m, w) {
      assert Resolved(path[..i], Wildcard) == Resolved(Parent(path), last) <==> w == path by {
        if w == path {
          SnocInjective(path[..i], Wildcard, Parent(path), last);
        }
      }
      if w == path {
        assert |path| == i + 1;
      }
    } else if i == |path| - 1 {
      assert path[..i] == Parent(path);
    } else {
      LiveAncestor(m, path, i + 1);
      if IsLive(m, path[..i + 1]) {
        SearchedExactlyFrom(m, path, i + 1);
      }
    }
  }

  /** A search resolves `path` to the node under `path` itself exactly when
      that node is live and no live wildcard child on the way shadows it. */
  lemma SearchedExactly<H>(m: Tree<H>, path: Path)
    requires WellFormed(m) && path != []
    ensures Searched(m, path) == Ok(Resolved(Parent(path), path[|path| - 1]))
        <==> IsLive(m, path) && Unshadowed(m, path)
  {
    assert path[..0] == [];
    SearchedExactlyFrom(m, path, 0);
  }

  /** The error of a failed search, when no live wildcard answers first:
      the first absent inner key is named, and an absent or removed last key
      is reported as a node that does not exist. */
  lemma SearchMissing<H>(m: Tree<H>, path: Path, j: nat)
    requires WellFormed(m) && j < |path| && IsLive(m, path[..j]) && !IsLive(m, path[..j + 1])
    requires forall l :: 0 <= l <= j ==> !IsLive(m, path[..l] + [Wildcard])
    ensures j < |path| - 1 && path[..j + 1] !in m ==> Searched(m, path) == Fail(MissingIntermediate(path[j]))
    ensures j == |path| - 1 ==> Searched(m, path) == Fail(NodeDoesNotExist)
  {
    assert path[..0] == [];
    SearchDescends(m, path, 0, j);
    if j == |path| - 1 {
      assert path[..j + 1] == path;
    }
  }

  /** The insertion loop walks down a path free of wildcards as long as the
      nodes it needs are there. */
  lemma {:induction false} AddDescends<H>(m: Tree<H>, f: H, path: Path, i: nat, j: nat)
    requires WellFormed(m) && i <= j < |path| && path[..i] in m && IsLive(m, path[..j])
    requires forall l :: i <= l < j ==> path[l] != Wildcard
    ensures AddedFrom(m, f, path, i) == AddedFrom(m, f, path, j)
    decreases j - i
  {
    if i < j {
      assert path[..j][..i] == path[..i] && path[..j][..i + 1] == path[..i + 1];
      AncestorsLive(m, path[..j], i);
      if i + 1 < j {
        AncestorsLive(m, path[..j], i + 1);
      }
      AddDescends(m, f, path, i + 1, j);
    }
  }

  /** Adding below a node stores the handler when no node is there yet, and
      leaves the trie as it is (without an error) when one is. */
  lemma AddOutcome<H>(m: Tree<H>, f: H, path: Path)
    requires WellFormed(m) && path != [] && IsLive(m, Parent(path)) && WildcardLastOnly(path)
    ensures Added(m, f, path) == (Ok(()), if IsLive(m, path) then m else m[path := Live(f)])
    ensures !IsLive(m, path) ==> forall q :: q in Added(m, f, path).1 ==> !StrictlyBelow(path, q)
  {
    var j := |path| - 1;
    assert path[..0] == [] && path[..j] == Parent(path) && path[..j + 1] == path;
    AddDescends(m, f, path, 0, j);
    forall q | q in m && StrictlyBelow(path, q)
      ensures IsLive(m, path)
    {
      AncestorsLive(m, q, |path|);
    }
  }

  /** The empty path: parsing gives the root handler, adding does nothing,
      and removing falls through the search loop. */
  lemma EmptyPath<H>(m: Tree<H>, f: H)
    requires IsLive(m, [])
    ensures Parsed(m, []) == Ok(m[[]].f)
    ensures Added(m, f, []) == (Ok(()), m)
    ensures Removed(m, []) == (Fail(PathExhausted), m)
  {
  }

  /** Adding below a missing key reports the first missing key, its
      position and the last position. */
  lemma AddMissingAncestor<H>(m: Tree<H>, f: H, path: Path, j: nat)
    requires WellFormed(m) && j < |path| - 1 && IsLive(m, path[..j]) && path[..j + 1] !in m
    requires forall l :: 0 <= l <= j ==> path[l] != Wildcard
    ensures Added(m, f, path) == (Fail(MissingAncestor(path[j], j, |path| - 1)), m)
  {
    assert path[..0] == [];
    AddDescends(m, f, path, 0, j);
  }

  lemma {:induction false} AddStopsAtWildcard<H>(m: Tree<H>, f: H, path: Path, i: nat, j: nat)
    requires i <= j < |path| - 1 && path[j] == Wildcard && path[..i] in m
    ensures AddedFrom(m, f, path, i).1 == m && !AddedFrom(m, f, path, i).0.Ok?
    decreases j - i
  {
    if i < j && path[i] != Wildcard && m[path[..i]].Live? && path[..i + 1] in m {
      AddStopsAtWildcard(m, f, path, i + 1, j);
    }
  }

  /** A path with a wildcard before its last key is never added; when the
      nodes up to the first wildcard are there, the error says so. */
  lemma AddWildcardNotLast<H>(m: Tree<H>, f: H, path: Path, j: nat)
    requires WellFormed(m) && j < |path| - 1 && path[j] == Wildcard
    ensures Added(m, f, path).1 == m && !Added(m, f, path).0.Ok?
    ensures IsLive(m, path[..j]) && (forall l :: 0 <= l < j ==> path[l] != Wildcard) ==>
              Added(m, f, path).0 == Fail(WildcardNotLast)
  {
    assert path[..0] == [];
    AddStopsAtWildcard(m, f, path, 0, j);
    if IsLive(m, path[..j]) && (forall l :: 0 <= l < j ==> path[l] != Wildcard) {
      AddDescends(m, f, path, 0, j);
    }
  }

  /** Adding a handler and parsing its path gives the handler stored there:
      the new one, or the one that was already live there. This holds unless a
      live wildcard child on the way answers first. */
  lemma AddThenParse<H>(m: Tree<H>, f: H, path: Path)
    requires WellFormed(m) && path != [] && IsLive(m, Parent(path)) && WildcardLastOnly(path)
    requires Unshadowed(m, path)
    ensures Added(m, f, path).0 == Ok(())
    ensures Parsed(Added(m, f, path).1, path) == Ok(if IsLive(m, path) then m[path].f else f)
  {
    AddOutcome(m, f, path);
    var m' := Added(m, f, path).1;
    if !IsLive(m, path) {
      PutPreservesShape(m, path, f);
    }
    forall i | 0 <= i < |path| && path[..i] + [Wildcard] != path
      ensures !IsLive(m', path[..i] + [Wildcard])
    {
    }
    SearchedExactly(m', path);
    assert Parent(path) + [path[|path| - 1]] == path;
  }

  /** Removing a command that the search resolves to exactly leaves a
      tombstone there: parsing or removing it again reports that the node does
      not exist. */
  lemma RemoveThenMissing<H>(m: Tree<H>, path: Path)
    requires WellFormed(m) && path != [] && IsLive(m, path) && Unshadowed(m, path)
    ensures Removed(m, path) == (Ok(()), Prune(m, path))
    ensures Parsed(Prune(m, path), path) == Fail(NodeDoesNotExist)
    ensures Removed(Prune(m, path), path) == (Fail(NodeDoesNotExist), Prune(m, path))
  {
    var j := |path| - 1;
    SearchedExactly(m, path);
    assert Parent(path) + [path[j]] == path;
    var m' := Prune(m, path);
    PrunePreservesShape(m, path);
    assert path[..0] == [] && path[..j] == Parent(path);
    AncestorsLive(m, path, j);
    forall l | 0 <= l <= j
      ensures !IsLive(m', path[..l] + [Wildcard])
    {
      if path[..l] + [Wildcard] != path {
        assert !IsLive(m, path[..l] + [Wildcard]);
      }
    }
    SearchDescends(m', path, 0, j);
  }

  /** A failed or panicking search leaves the trie as it is. */
  lemma RemoveFailsCleanly<H>(m: Tree<H>, path: Path)
    requires [] in m
    ensures !Searched(m, path).Ok? ==> Removed(m, path).1 == m && !Removed(m, path).0.Ok?
    ensures Searched(m, path).Ok? ==> Removed(m, path).0 == Ok(()) && Searched(m, path).value.Full() != []
  {
  }

  /** Adding keeps a trie well formed and keeps wildcard commands free of
      subcommands. */
  lemma AddedKeepsInvariants<H>(m: Tree<H>, f: H, path: Path)
    requires WellFormed(m) && WildcardsLast(m)
    ensures WellFormed(Added(m, f, path).1) && WildcardsLast(Added(m, f, path).1)
  {
    if Added(m, f, path).1 != m {
      PutPreservesShape(m, path, f);
    }
  }

  /** Removing keeps a trie well formed and keeps wildcard commands free of
      subcommands. */
  lemma RemovedKeepsInvariants<H>(m: Tree<H>, path: Path)
    requires WellFormed(m) && WildcardsLast(m)
    ensures WellFormed(Removed(m, path).1) && WildcardsLast(Removed(m, path).1)
  {
    if Searched(m, path).Ok? {
      PrunePreservesShape(m, Searched(m, path).value.Full());
    }
  }

  /** A trie that `NewTree` and `AddCommand` built has no tombstone, so its
      rendering does not panic; a successful removal leaves one. */
  lemma AddedKeepsNoTombs<H>(m: Tree<H>, f: H, path: Path)
    requires [] in m && !HasTombBelow(m, [])
    ensures !HasTombBelow(Added(m, f, path).1, [])
  {
    var m' := Added(m, f, path).1;
    forall q | q in m' && StrictlyBelow([], q)
      ensures m'[q] != Tomb
    {
      assert q in m ==> m[q] != Tomb;
    }
  }

  lemma RemovedLeavesTomb<H>(m: Tree<H>, path: Path)
    requires [] in m && Removed(m, path).0 == Ok(())
    ensures HasTombBelow(Removed(m, path).1, [])
  {
    var q := Searched(m, path).value.Full();
    assert q in Removed(m, path).1 && StrictlyBelow([], q);
  }

  /** A search that reaches a removed key before the last one descends
      into the nil node left there and dereferences it. */
  lemma SearchThroughRemoved<H>(m: Tree<H>, path: Path, j: nat)
    requires WellFormed(m) && 0 < j < |path| && path[..j] in m && m[path[..j]] == Tomb
    requires forall l :: 0 <= l < j ==> !IsLive(m, path[..l] + [Wildcard])
    ensures Searched(m, path) == Panic
    ensures Parsed(m, path) == Panic && Removed(m, path) == (Panic, m)
  {
    assert path[..j] == path[..j - 1] + [path[j - 1]];
    assert path[..0] == [];
    SearchDescends(m, path, 0, j - 1);
    assert path[..j - 1 + 1] == path[..j];
  }

  /** The search as evidently intended: a removed key on the way is missing,
      the same as a key that was never added. */
  function SearchedLiveFrom<H>(m: Tree<H>, path: Path, i: nat): (r: Outcome<Resolved>)
    requires i <= |path| && IsLive(m, path[..i])
    ensures r != Panic
    decreases |path| - i
  {
    if i == |path| then Fail(PathExhausted)
    else if IsLive(m, path[..i] + [Wildcard]) then Ok(Resolved(path[..i], Wildcard))
    else if i == |path| - 1 then
      if IsLive(m, path) then Ok(Resolved(path[..i], path[i])) else Fail(NodeDoesNotExist)
    else if IsLive(m, path[..i + 1]) then SearchedLiveFrom(m, path, i + 1)
    else Fail(MissingIntermediate(path[i]))
  }

  /** The intended search answers as the search as written wherever that
      one does not panic, and fails where it panics. */
  lemma {:induction false} SearchedLiveAgrees<H>(m: Tree<H>, path: Path, i: nat)
    requires i <= |path| && IsLive(m, path[..i])
    ensures SearchedFrom(m, path, i) != Panic ==> SearchedLiveFrom(m, path, i) == SearchedFrom(m, path, i)
    ensures SearchedFrom(m, path, i) == Panic ==>
              SearchedLiveFrom(m, path, i).Fail? && SearchedLiveFrom(m, path, i).err.MissingIntermediate?
    decreases |path| - i
  {
    if i < |path| - 1 && IsLive(m, path[..i + 1]) {
      SearchedLiveAgrees(m, path, i + 1);
    }
  }

  /** The insertion loop has the same flaw: its `ok` test also accepts a
      removed key, so it steps onto the nil node and dereferences it on the
      next key. */
  lemma AddThroughRemoved<H>(m: Tree<H>, f: H, path: Path, j: nat)
    requires WellFormed(m) && 0 < j < |path| && path[..j] in m && m[path[..j]] == Tomb
    requires forall l :: 0 <= l <= j && l < |path| - 1 ==> path[l] != Wildcard
    ensures Added(m, f, path) == (Panic, m)
  {
    assert path[..j] == path[..j - 1] + [path[j - 1]];
    assert path[..0] == [];
    AncestorsLive(m, path[..j], j - 1);
    assert path[..j][..j - 1] == path[..j - 1];
    AddDescends(m, f, path, 0, j - 1);
    assert path[..j - 1 + 1] == path[..j];
  }

  /** The insertion loop as evidently intended: a removed key on the way is
      missing, the same as a key that was never added. */
  function AddedLiveFrom<H>(m: Tree<H>, f: H, path: Path, i: nat): (res: (Outcome<()>, Tree<H>))
    requires i <= |path| && IsLive(m, path[..i])
    ensures res.0 != Panic
    decreases |path| - i
  {
    if i == |path| then (Ok(()), m)
    else if path[i] == Wildcard && i != |path| - 1 then (Fail(WildcardNotLast), m)
    else if i == |path| - 1 && !IsLive(m, path[..i + 1]) then
      assert path[..i + 1] == path;
      (Ok(()), m[path := Live(f)])
    else if IsLive(m, path[..i + 1]) then AddedLiveFrom(m, f, path, i + 1)
    else (Fail(MissingAncestor(path[i], i, |path| - 1)), m)
  }

  /** The intended insertion succeeds exactly where the one as written does,
      with the same trie; where that one fails it fails too without a change,
      and where that one panics it reports a missing ancestor. */
  lemma {:induction false} AddedLiveAgrees<H>(m: Tree<H>, f: H, path: Path, i: nat)
    requires i <= |path| && IsLive(m, path[..i])
    ensures AddedFrom(m, f, path, i).0 == Ok(()) <==> AddedLiveFrom(m, f, path, i).0 == Ok(())
    ensures AddedFrom(m, f, path, i).0 == Ok(()) ==> AddedLiveFrom(m, f, path, i) == AddedFrom(m, f, path, i)
    ensures AddedFrom(m, f, path, i).0.Fail? ==>
              AddedLiveFrom(m, f, path, i).0.Fail? && AddedLiveFrom(m, f, path, i).1 == m
    ensures AddedFrom(m, f, path, i).0 == Panic ==>
              && AddedLiveFrom(m, f, path, i).1 == m
              && AddedLiveFrom(m, f, path, i).0.Fail?
              && AddedLiveFrom(m, f, path, i).0.err.MissingAncestor?
    decreases |path| - i
  {
    if i < |path| && IsLive(m, path[..i + 1]) {
      AddedLiveAgrees(m, f, path, i + 1);
    }
  }

  // ---------------------------------------------------------------------
  // The heap trie
  // ---------------------------------------------------------------------

  class TreeCLI<H> {
    const root: Node<H>
    /** The node at every live path. */
    ghost var Addr: map<Path, Node<H>>
    /** The children map of the node at every live path. */
    ghost var Children: Kids<H>
    /** The abstract trie reachable from `root`. */
    ghost var Model: Tree<H>

    ghost predicate Valid()
      reads this, Addr.Values
    {
      Shape(root, Addr, Children, Model) && Linked(Addr, Children)
    }

    /** A search result of the heap trie agrees with the abstract one. */
    ghost predicate Resolves(r: Outcome<(Node<H>, string)>, s: Outcome<Resolved>)
      reads this
    {
      match s
      case Ok(hit) => hit.parent in Addr && r == Ok((Addr[hit.parent], hit.key))
      case Fail(e) => r == Fail(e)
      case Panic => r == Panic
    }

    constructor NewTree(f: H)
      ensures Valid() && fresh(Addr.Values)
      ensures Model == map[[] := Live(f)]
    {
      root := new Node(f);
      Addr := map[[] := root];
      Children := map[[] := map[]];
      Model := map[[] := Live(f)];
    }

    method AddCommand(f: H, path: Path) returns (r: Outcome<()>)
      requires Valid()
      modifies this, Addr.Values
      ensures Valid() && fresh(Addr.Values - old(Addr.Values))
      ensures (r, Model) == Added(old(Model), f, path)
    {
      var cur: Node?<H> := root;
      for i := 0 to |path|
        invariant Valid() && Model == old(Model) && Addr == old(Addr) && Children == old(Children)
        invariant path[..i] in Model
        invariant cur == null <==> Model[path[..i]] == Tomb
        invariant cur != null ==> path[..i] in Addr && Addr[path[..i]] == cur
        invariant Added(Model, f, path) == AddedFrom(Model, f, path, i)
      {
        var v := path[i];
        assert path[..i + 1] == path[..i] + [v];
        if v == Wildcard && i != |path| - 1 {
          return Fail(WildcardNotLast);
        }
        if cur == null {
          // every remaining branch dereferences the nil current node
          return Panic;
        }
        if i == |path| - 1 && (v !in cur.children || cur.children[v] == null) {
          assert path[..i + 1] == path;
          Attach(cur, v, f, path[..i]);
          return Ok(());
        } else if v in cur.children {
          cur := cur.children[v];
        } else {
          return Fail(MissingAncestor(v, i, |path| - 1));
        }
      }
      return Ok(());
    }

    /** Stores a fresh node with handler `f` and no children under key `k`
        of the node `n` at the live path `p`, where no node is stored yet. */
    method Attach(n: Node<H>, k: string, f: H, ghost p: Path)
      requires Valid() && p in Addr && Addr[p] == n && !IsLive(Model, p + [k])
      modifies this, n
      ensures Valid() && fresh(Addr.Values - old(Addr.Values))
      ensures Model == old(Model)[p + [k] := Live(f)]
    {
      ghost var q := p + [k];
      SnocParent(p, k);
      ghost var addr, kids := Addr, Children;
      var node := new Node(f);
      InsertKeepsShape(root, Addr, Children, Model, p, k, node);
      n.children := n.children[k := node];
      Addr := Addr[q := node];
      Children := Children[p := Children[p][k := node]][q := map[]];
      Model := Model[q := Live(f)];
      forall x | x in Addr
        ensures x in Children && Addr[x].children == Children[x]
      {
        if x == q {
          assert Addr[x] == node && Children[x] == map[];
        } else if x == p {
          assert Addr[x] == n && Children[x] == kids[p][k := node];
        } else {
          assert Addr[x] == addr[x] != n && Children[x] == kids[x];
          assert addr[x].children == old(addr[x].children);
        }
      }
    }

    method RemoveCommand(path: Path) returns (r: Outcome<()>)
      requires Valid()
      modifies this, Addr.Values
      ensures Valid() && Addr.Values <= old(Addr.Values)
      ensures (r, Model) == Removed(old(Model), path)
    {
      var s := SearchTree(path);
      match s
      case Ok((n, k)) =>
        Unlink(n, k, Searched(Model, path).value.parent);
        r := Ok(());
      case Fail(e) =>
        r := Fail(e);
      case Panic =>
        r := Panic;
    }

    /** Writes nil under key `k` of the node `n` at the live path `p`: the
        key becomes a tombstone and what lay below it becomes unreachable. */
    method Unlink(n: Node<H>, k: string, ghost p: Path)
      requires Valid() && p in Addr && Addr[p] == n && p + [k] in Model
      modifies this, n
      ensures Valid() && Addr.Values <= old(Addr.Values)
      ensures Model == Prune(old(Model), p + [k])
    {
      ghost var q := p + [k];
      ghost var addr, kids := Addr, Children;
      RemoveKeepsShape(root, Addr, Children, Model, p, k);
      UnlinkFrame(root, Addr, Children, Model, p, k);
      n.children := n.children[k := null];
      Addr := Outside(Addr, q);
      Children := Outside(Children, q)[p := Children[p][k := null]];
      Model := Prune(Model, q);
      forall x | x in Addr
        ensures x in Children && Addr[x].children == Children[x]
      {
        if x != p {
          assert addr[x].children == old(addr[x].children);
        }
      }
    }

    /** The pretty-printed tree: every key on a line of its own, indented by
        two spaces per level, each key followed by its subtree. A tombstone
        anywhere makes the walk dereference a nil node. */
    method String() returns (r: Outcome<string>, ghost order: seq<Path>)
      requires Valid()
      ensures !r.Fail?
      ensures r.Panic? <==> HasTombBelow(Model, [])
      ensures r.Ok? ==> Enumerates(Model, [], order) && DepthFirst(order) && r.value == Lines(order)
    {
      r, order := PrintChildren(root, [], 0, "", false);
    }

    /** The pretty-printed tree as `String` evidently means it: removed
        commands are left out instead of being walked into. */
    method StringSkippingRemoved() returns (r: Outcome<string>, ghost order: seq<Path>)
      requires Valid()
      ensures r.Ok? && Enumerates(Model, [], order) && DepthFirst(order) && r.value == Lines(order)
    {
      r, order := PrintChildren(root, [], 0, "", true);
    }

    /** Appends to `str` the lines of the keys below the node `n` at the live
        path `p`, whose keys are printed after `indent` spaces. */
    method PrintChildren(n: Node<H>, ghost p: Path, indent: nat, str: string, skipRemoved: bool)
      returns (r: Outcome<string>, ghost order: seq<Path>)
      requires Valid() && p in Addr && Addr[p] == n && indent == 2 * |p|
      ensures !r.Fail?
      ensures r.Panic? <==> !skipRemoved && HasTombBelow(Model, p)
      ensures r.Ok? ==> Enumerates(Model, p, order) && DepthFirst(order) && r.value == str + Lines(order)
      decreases Subtree(Model, p), 0
    {
      var s := str;
      var keys := n.children.Keys;
      ghost var all, done: set<string> := keys, {};
      order := [];
      while keys != {}
        invariant keys + done == all && keys !! done
        invariant EnumeratesVia(Model, p, done, order) && DepthFirst(order)
        invariant !skipRemoved ==> LiveVia(Model, p, done)
        invariant s == str + Lines(order)
        decreases keys
      {
        var k :| k in keys;
        ghost var c := p + [k];
        SubtreeShrinks(Model, p, k);
        var sub: Outcome<string>;
        ghost var below: seq<Path>;
        sub, below := PrintChild(n, p, k, indent, s, skipRemoved);
        ShapeIsWellFormed(root, Addr, Children, Model);
        ChildStep(Model, p, k, done, order, below, str, skipRemoved, sub);
        if sub.Panic? {
          return Panic, order;
        }
        if IsLive(Model, c) {
          order := order + [c] + below;
        }
        MoveKey(keys, done, all, k);
        done := done + {k};
        keys := keys - {k};
        s := sub.value;
      }
      assert done == Children[p].Keys;
      forall q | IsLive(Model, q) && StrictlyBelow(p, q)
        ensures q[|p|] in done
      {
        ChildKeyOnTheWay(root, Addr, Children, Model, p, q);
      }
      if !skipRemoved {
        forall q | q in Model && StrictlyBelow(p, q)
          ensures Model[q].Live?
        {
          ChildKeyOnTheWay(root, Addr, Children, Model, p, q);
        }
      }
      return Ok(s), order;
    }

    /** One round of the loop of `PrintChildren`: appends to `str` the line
        of key `k` of the node `n` at `p` and the lines of its subtree. A nil
        child is walked into (a nil dereference), or skipped when
        `skipRemoved`. */
    method PrintChild(n: Node<H>, ghost p: Path, k: string, indent: nat, str: string, skipRemoved: bool)
      returns (r: Outcome<string>, ghost below: seq<Path>)
      requires Valid() && p in Addr && Addr[p] == n && indent == 2 * |p| && k in Children[p]
      ensures !r.Fail? && p + [k] in Model
      ensures r.Panic? <==> !skipRemoved && (Model[p + [k]] == Tomb || HasTombBelow(Model, p + [k]))
      ensures r.Ok? && IsLive(Model, p + [k]) ==>
                && Enumerates(Model, p + [k], below) && DepthFirst(below)
                && r.value == str + Spaces(indent) + k + "\n" + Lines(below)
      ensures r.Ok? && !IsLive(Model, p + [k]) ==> r.value == str
      decreases Subtree(Model, p + [k]), 1
    {
      var v := n.children[k];
      below := [];
      if v == null && skipRemoved {
        return Ok(str), below;
      }
      var s := str + Spaces(indent) + k + "\n";
      if v == null {
        // the walk into the nil child dereferences it
        return Panic, below;
      }
      SnocParent(p, k);
      r, below := PrintChildren(v, p + [k], indent + 2, s, skipRemoved);
    }

    method Parse(path: Path) returns (r: Outcome<H>)
      requires Valid()
      ensures r == Parsed(Model, path)
      ensures path == [] ==> r == Ok(root.f)
    {
      if |path| == 0 {
        return Ok(root.f);
      }
      var s := SearchTree(path);
      match s
      case Ok((n, k)) =>
        ghost var hit := Searched(Model, path).value;
        SnocParent(hit.parent, hit.key);
        r := Ok(n.children[k].f);
      case Fail(e) =>
        r := Fail(e);
      case Panic =>
        r := Panic;
    }

    method SearchTree(path: Path) returns (r: Outcome<(Node<H>, string)>)
      requires Valid()
      ensures Resolves(r, Searched(Model, path))
    {
      var cur: Node?<H> := root;
      for i := 0 to |path|
        invariant path[..i] in Model
        invariant cur == null <==> Model[path[..i]] == Tomb
        invariant cur != null ==> path[..i] in Addr && Addr[path[..i]] == cur
        invariant Searched(Model, path) == SearchedFrom(Model, path, i)
      {
        var v := path[i];
        assert path[..i + 1] == path[..i] + [v];
        if cur == null {
          // the wildcard test dereferences the nil current node
          return Panic;
        }
        if i == |path| - 1 {
          assert path[..i + 1] == path;
        }
        if Wildcard in cur.children && cur.children[Wildcard] != null {
          return Ok((cur, Wildcard));
        } else if i == |path| - 1 && v in cur.children && cur.children[v] != null {
          return Ok((cur, v));
        } else if i == |path| - 1 {
          return Fail(NodeDoesNotExist);
        } else if v in cur.children {
          cur := cur.children[v];
        } else {
          return Fail(MissingIntermediate(v));
        }
      }
      return Fail(PathExhausted);
    }
  }
}
