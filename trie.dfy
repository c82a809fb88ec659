/** Vocabulary shared by the two command-trie variants (treecli.go and
    clitree.go): the abstract trie value, its well-formedness, the error kinds
    the operations return, and the heap node both variants are built from. */
module Trie {

  /** A command path: the tokens that lead from the root to a node. */
  type Path = seq<string>

  /** What a parent's children map holds under a key: a node carrying its
      handler, or a tombstone (the key is present but its value is nil). */
  datatype Entry<H> = Live(f: H) | Tomb

  /** The abstract trie: every key that is reachable from the root, by its
      full path. The root is the empty path. A handler is an opaque value. */
  type Tree<H> = map<Path, Entry<H>>

  /** One constructor per error the operations return. */
  datatype Err =
    | WildcardNotLast                                  // "wildcards cannot have children"
    | MissingAncestor(seg: string, pos: int, last: int) // "does not contain node %s in path at position %d of %d"
    | NodeDoesNotExist                                 // "that node does not exist"
    | MissingIntermediate(seg: string)                 // "does not contain node %s where path does"
    | PathExhausted                                    // "tree does not contain node in path"

  /** The result of an operation: a value, a returned error, or a run-time
      panic (a nil pointer dereference in the Go code). */
  datatype Outcome<T> = Ok(value: T) | Fail(err: Err) | Panic

  /** What a search resolves a path to: a parent node and a key in its
      children map. */
  datatype Resolved = Resolved(parent: Path, key: string) {
    function Full(): Path { parent + [key] }
  }

  /** `q` lies in the subtree of `p`, and is not `p` itself. */
  predicate StrictlyBelow(p: Path, q: Path) {
    |p| < |q| && q[..|p|] == p
  }

  function Parent(q: Path): Path
    requires q != []
  {
    q[..|q| - 1]
  }

  /** The map holds a non-nil node under `q`. */
  predicate IsLive<H>(m: Tree<H>, q: Path) {
    q in m && m[q].Live?
  }

  /** The shape of a trie: the root is a node, and every other key hangs off
      a parent that is a node (so nothing lies below a tombstone). */
  ghost predicate WellFormed<H>(m: Tree<H>) {
    && IsLive(m, [])
    && forall p, k {:trigger p + [k] in m} :: p + [k] in m ==> IsLive(m, p)
  }

  lemma SnocParent(p: Path, k: string)
    ensures p + [k] != [] && Parent(p + [k]) == p && (p + [k])[|p|] == k
  {
    assert (p + [k])[..|p|] == p;
  }

  lemma SnocInjective(p: Path, k: string, q: Path, v: string)
    requires p + [k] == q + [v]
    ensures p == q && k == v
  {
    SnocParent(p, k);
    SnocParent(q, v);
  }

  /** Every proper ancestor of a key of a well-formed trie is a node. */
  lemma {:induction false} AncestorsLive<H>(m: Tree<H>, q: Path, i: nat)
    requires WellFormed(m) && q in m && i < |q|
    ensures IsLive(m, q[..i])
    decreases |q|
  {
    var p := Parent(q);
    assert q == p + [q[|q| - 1]];
    assert p + [q[|q| - 1]] in m;
    assert p[..i] == q[..i];
    if i < |p| {
      AncestorsLive(m, p, i);
    }
  }

  /** A key of a well-formed trie with a node under it has nodes all along
      its way. */
  lemma LiveAncestor<H>(m: Tree<H>, q: Path, i: nat)
    requires WellFormed(m) && i < |q|
    ensures IsLive(m, q) ==> IsLive(m, q[..i])
  {
    if IsLive(m, q) {
      AncestorsLive(m, q, i);
    }
  }

  /** A key strictly below `p` and the child of `p` on its way. */
  lemma ChildOnTheWay(p: Path, q: Path)
    requires StrictlyBelow(p, q)
    ensures q[..|p| + 1] == p + [q[|p|]]
    ensures q[..|p| + 1] == q || StrictlyBelow(q[..|p| + 1], q)
  {
  }

  lemma BelowTransitive(a: Path, b: Path, c: Path)
    requires StrictlyBelow(a, b) && StrictlyBelow(b, c)
    ensures StrictlyBelow(a, c)
  {
    assert c[..|a|] == c[..|b|][..|a|];
  }

  /** Removing the entry under `q`: `q` becomes a tombstone, everything strictly
      below `q` becomes unreachable, and every other key keeps its entry. */
  function Prune<H>(m: Tree<H>, q: Path): (m': Tree<H>)
    requires q in m
    ensures q in m' && m'[q] == Tomb
    ensures forall x :: x in m' ==> x in m && !StrictlyBelow(q, x)
    ensures forall x :: x in m && !StrictlyBelow(q, x) && x != q ==> x in m' && m'[x] == m[x]
  {
    map x | x in m && !StrictlyBelow(q, x) :: if x == q then Tomb else m[x]
  }

  /** Pruning a non-root key keeps the trie well formed. */
  lemma PrunePreservesShape<H>(m: Tree<H>, q: Path)
    requires WellFormed(m) && q in m && q != []
    ensures WellFormed(Prune(m, q))
  {
    var m' := Prune(m, q);
    forall p, k {:trigger p + [k] in m'} | p + [k] in m'
      ensures IsLive(m', p)
    {
      SnocParent(p, k);
      BelowParent(q, p + [k]);
      assert p + [k] in m && IsLive(m, p);
    }
  }

  /** A key whose parent is `q` or lies below `q` lies below `q` itself. */
  lemma BelowParent(q: Path, x: Path)
    requires x != []
    ensures (Parent(x) == q || StrictlyBelow(q, Parent(x))) ==> StrictlyBelow(q, x)
  {
    if StrictlyBelow(q, Parent(x)) {
      assert x[..|q|] == Parent(x)[..|q|];
    }
  }

  /** Storing a node under a key whose parent is a node keeps the trie well
      formed. */
  lemma PutPreservesShape<H>(m: Tree<H>, q: Path, f: H)
    requires WellFormed(m) && q != [] && IsLive(m, Parent(q))
    ensures WellFormed(m[q := Live(f)])
  {
    forall p, k {:trigger p + [k] in m[q := Live(f)]} | p + [k] in m[q := Live(f)]
      ensures IsLive(m[q := Live(f)], p)
    {
      SnocParent(p, k);
      if p + [k] == q {
        assert p == Parent(q) && p != q;
      } else {
        assert p + [k] in m;
      }
    }
  }

  /** A node of the heap trie: a handler and the children map. */
  class Node<H> {
    const f: H
    var children: map<string, Node?<H>>

    constructor (f: H)
      ensures this.f == f && children == map[]
    {
      this.f := f;
      children := map[];
    }
  }

  /** The children maps of the live nodes, by path. */
  type Kids<H> = map<Path, map<string, Node?<H>>>

  /** `addr` gives the node at every live path, `kids` its children map, and
      `m` is exactly what is reachable from `root` through the children maps:
      live keys are the nodes of `addr`, nil values are tombstones, and no
      node is shared between two paths. */
  ghost predicate Shape<H>(root: Node<H>, addr: map<Path, Node<H>>, kids: Kids<H>, m: Tree<H>) {
    && [] in addr && addr[[]] == root
    && addr.Keys == kids.Keys
    && (forall p :: p in addr ==> p in m && m[p] == Live(addr[p].f))
    && (forall q :: q in m && m[q].Live? ==> q in addr)
    && (forall p, k {:trigger k in kids[p]} :: p in kids && k in kids[p] ==>
          && p + [k] in m
          && (kids[p][k] == null ==> m[p + [k]] == Tomb)
          && (kids[p][k] != null ==> p + [k] in addr && addr[p + [k]] == kids[p][k]))
    && (forall p, k {:trigger p + [k] in m} :: p + [k] in m ==> p in kids && k in kids[p])
    && (forall p, p' :: p in addr && p' in addr && addr[p] == addr[p'] ==> p == p')
  }

  /** The heap agrees with `kids`. */
  ghost predicate Linked<H>(addr: map<Path, Node<H>>, kids: Kids<H>)
    reads addr.Values
  {
    forall p :: p in addr ==> p in kids && addr[p].children == kids[p]
  }

  lemma ShapeIsWellFormed<H>(root: Node<H>, addr: map<Path, Node<H>>, kids: Kids<H>, m: Tree<H>)
    requires Shape(root, addr, kids, m)
    ensures WellFormed(m)
  {
  }

  /** The child of `p` on the way to a key below `p` is a key of `p`'s
      children map. */
  lemma ChildKeyOnTheWay<H>(root: Node<H>, addr: map<Path, Node<H>>, kids: Kids<H>, m: Tree<H>, p: Path, q: Path)
    requires Shape(root, addr, kids, m) && q in m && StrictlyBelow(p, q)
    ensures p in kids && q[|p|] in kids[p]
  {
    ShapeIsWellFormed(root, addr, kids, m);
    ChildOnTheWay(p, q);
    if q[..|p| + 1] != q {
      AncestorsLive(m, q, |p| + 1);
    }
    assert p + [q[|p|]] in m;
  }

  /** Storing a fresh node under a key that holds no node keeps the shape. */
  lemma InsertKeepsShape<H>(root: Node<H>, addr: map<Path, Node<H>>, kids: Kids<H>, m: Tree<H>,
                            p: Path, k: string, node: Node<H>)
    requires Shape(root, addr, kids, m)
    requires p in addr && !IsLive(m, p + [k]) && node !in addr.Values
    ensures Shape(root, addr[p + [k] := node], kids[p := kids[p][k := node]][p + [k] := map[]],
                  m[p + [k] := Live(node.f)])
  {
    var q := p + [k];
    var addr', kids', m' := addr[q := node], kids[p := kids[p][k := node]][q := map[]], m[q := Live(node.f)];
    SnocParent(p, k);
    assert q != [] && p != q;
    forall x, y {:trigger y in kids'[x]} | x in kids' && y in kids'[x]
      ensures && x + [y] in m'
              && (kids'[x][y] == null ==> m'[x + [y]] == Tomb)
              && (kids'[x][y] != null ==> x + [y] in addr' && addr'[x + [y]] == kids'[x][y])
    {
      if x + [y] == q {
        SnocInjective(x, y, p, k);
      }
    }
    forall x, y {:trigger x + [y] in m'} | x + [y] in m'
      ensures x in kids' && y in kids'[x]
    {
      if x + [y] == q {
        SnocInjective(x, y, p, k);
      }
    }
  }

  /** The entries of `a` that lie outside the subtree rooted at `q`. */
  function Outside<V>(a: map<Path, V>, q: Path): (a': map<Path, V>)
    ensures forall x :: x in a' <==> x in a && x != q && !StrictlyBelow(q, x)
    ensures forall x :: x in a' ==> a'[x] == a[x]
  {
    map x | x in a && x != q && !StrictlyBelow(q, x) :: a[x]
  }

  /** Unlinking the key `p + [k]` leaves every other live node, and its
      children map, where it was. */
  lemma UnlinkFrame<H>(root: Node<H>, addr: map<Path, Node<H>>, kids: Kids<H>, m: Tree<H>,
                       p: Path, k: string)
    requires Shape(root, addr, kids, m) && p in addr
    ensures var q := p + [k];
            var addr' := Outside(addr, q);
            var kids': Kids<H> := Outside(kids, q)[p := kids[p][k := null]];
            && p in addr' && addr'[p] == addr[p] && kids'[p] == kids[p][k := null]
            && addr'.Values <= addr.Values
            && forall x :: x in addr' && x != p ==> addr'[x] == addr[x] != addr[p] && kids'[x] == kids[x]
  {
    var q := p + [k];
    SnocParent(p, k);
    assert !StrictlyBelow(q, p);
  }

  /** Setting the entry of a live key to nil keeps the shape, once everything
      below that key is dropped. */
  lemma RemoveKeepsShape<H>(root: Node<H>, addr: map<Path, Node<H>>, kids: Kids<H>, m: Tree<H>,
                            p: Path, k: string)
    requires Shape(root, addr, kids, m)
    requires p in addr && p + [k] in m
    ensures var q := p + [k];
            Shape(root, Outside(addr, q), Outside(kids, q)[p := kids[p][k := null]], Prune(m, q))
  {
    var q := p + [k];
    var addr' := Outside(addr, q);
    var kids' := Outside(kids, q)[p := kids[p][k := null]];
    var m' := Prune(m, q);
    SnocParent(p, k);
    assert p in addr' && kids'[p] == kids[p][k := null];
    assert [] in addr' && addr'.Keys == kids'.Keys;
    forall x | x in addr'
      ensures x in m' && m'[x] == Live(addr'[x].f)
    {
    }
    forall x | x in m' && m'[x].Live?
      ensures x in addr'
    {
    }
    RemoveKeepsChildren(root, addr, kids, m, p, k);
    forall x, y {:trigger x + [y] in m'} | x + [y] in m'
      ensures x in kids' && y in kids'[x]
    {
      SnocParent(x, y);
      BelowParent(q, x + [y]);
      assert x + [y] in m;
    }
  }

  /** The children part of `RemoveKeepsShape`. */
  lemma RemoveKeepsChildren<H>(root: Node<H>, addr: map<Path, Node<H>>, kids: Kids<H>, m: Tree<H>,
                               p: Path, k: string)
    requires Shape(root, addr, kids, m)
    requires p in addr && p + [k] in m
    ensures var q: Path := p + [k];
            var addr': map<Path, Node<H>> := Outside(addr, q);
            var kids': Kids<H> := Outside(kids, q)[p := kids[p][k := null]];
            var m': Tree<H> := Prune(m, q);
            forall x: Path, y: string {:trigger y in kids'[x]} :: x in kids' && y in kids'[x] ==>
              && x + [y] in m'
              && (kids'[x][y] == null ==> m'[x + [y]] == Tomb)
              && (kids'[x][y] != null ==> x + [y] in addr' && addr'[x + [y]] == kids'[x][y])
  {
    var q := p + [k];
    var addr' := Outside(addr, q);
    var kids' := Outside(kids, q)[p := kids[p][k := null]];
    var m' := Prune(m, q);
    SnocParent(p, k);
    forall x, y {:trigger y in kids'[x]} | x in kids' && y in kids'[x]
      ensures && x + [y] in m'
              && (kids'[x][y] == null ==> m'[x + [y]] == Tomb)
              && (kids'[x][y] != null ==> x + [y] in addr' && addr'[x + [y]] == kids'[x][y])
    {
      SnocParent(x, y);
      BelowParent(q, x + [y]);
      if x == p && y == k {
        assert kids'[x][y] == null && m'[q] == Tomb;
      } else {
        assert x + [y] != q by {
          if x + [y] == q { SnocInjective(x, y, p, k); }
        }
        assert y in kids[x] && kids'[x][y] == kids[x][y];
        assert x + [y] in m && !StrictlyBelow(q, x + [y]);
        assert m'[x + [y]] == m[x + [y]];
      }
    }
  }
}
