/** The text `String` in treecli.go produces: one line per key of the trie,
    the key indented by two spaces per level, written depth first. Go visits
    the keys of a map in no fixed order, so the rendering is specified by the
    order it chose: `order` lists the paths of the keys in the order their
    lines appear. */
module Rendering {
  import opened Trie

  function Spaces(n: nat): string {
    seq(n, _ => ' ')
  }

  /** The line written for the key at path `q`: the key after two spaces
      per level below the root's children, then a newline. */
  function Line(q: Path): string {
    if q == [] then "" else Spaces(2 * (|q| - 1)) + q[|q| - 1] + "\n"
  }

  /** The lines of the keys at `order`, in that order. */
  function Lines(order: seq<Path>): string {
    if order == [] then "" else Lines(order[..|order| - 1]) + Line(order[|order| - 1])
  }

  /** `order` lists exactly the live keys strictly below `p` whose segment
      right after `p` is one of `ks`. */
  ghost predicate EnumeratesVia<H>(m: Tree<H>, p: Path, ks: set<string>, order: seq<Path>) {
    forall q :: q in order <==> IsLive(m, q) && StrictlyBelow(p, q) && q[|p|] in ks
  }

  /** `order` lists exactly the live keys strictly below `p`. */
  ghost predicate Enumerates<H>(m: Tree<H>, p: Path, order: seq<Path>) {
    forall q :: q in order <==> IsLive(m, q) && StrictlyBelow(p, q)
  }

  /** A depth-first listing: no key twice, every key after its ancestors,
      and the keys below a key immediately after it. */
  ghost predicate DepthFirst(order: seq<Path>) {
    && (forall j, l :: 0 <= j < l < |order| ==> order[j] != order[l])
    && (forall j, l :: 0 <= j < |order| && 0 <= l < |order| && StrictlyBelow(order[j], order[l]) ==> j < l)
    && (forall j, l, n :: 0 <= j < l < n < |order| && StrictlyBelow(order[j], order[n]) ==>
          StrictlyBelow(order[j], order[l]))
  }

  /** No key strictly below `p` whose segment right after `p` is one of `ks`
      is a tombstone. */
  ghost predicate LiveVia<H>(m: Tree<H>, p: Path, ks: set<string>) {
    forall q :: q in m && StrictlyBelow(p, q) && q[|p|] in ks ==> m[q].Live?
  }

  /** Some key strictly below `p` is a tombstone. */
  ghost predicate HasTombBelow<H>(m: Tree<H>, p: Path) {
    exists q :: q in m && StrictlyBelow(p, q) && m[q] == Tomb
  }

  /** The subtree rooted at `p`, as a set of paths. */
  ghost function Subtree<H>(m: Tree<H>, p: Path): set<Path> {
    set q | q in m && (q == p || StrictlyBelow(p, q))
  }

  lemma LinesSnoc(order: seq<Path>, q: Path)
    ensures Lines(order + [q]) == Lines(order) + Line(q)
  {
    assert (order + [q])[..|order|] == order;
  }

  lemma Associative(a: string, b: string, c: string)
    ensures a + b + c == a + (b + c)
  {
  }

  lemma {:induction false} LinesAppend(a: seq<Path>, b: seq<Path>)
    ensures Lines(a + b) == Lines(a) + Lines(b)
    decreases |b|
  {
    if b == [] {
      assert a + b == a;
    } else {
      var b', x := b[..|b| - 1], b[|b| - 1];
      assert b == b' + [x];
      assert a + b == (a + b') + [x];
      LinesSnoc(a + b', x);
      LinesAppend(a, b');
      LinesSnoc(b', x);
      Associative(Lines(a), Lines(b'), Line(x));
    }
  }

  /** The text after printing the key `k` below `p` and then its subtree. */
  lemma LinesStep(str: string, order: seq<Path>, p: Path, k: string, below: seq<Path>)
    ensures str + Lines(order) + Spaces(2 * |p|) + k + "\n" + Lines(below)
         == str + Lines(order + [p + [k]] + below)
  {
    var c := p + [k];
    SnocParent(p, k);
    assert [c][..0] == [];
    assert Lines([c]) == Spaces(2 * |p|) + k + "\n";
    LinesAppend(order + [c], below);
    LinesAppend(order, [c]);
    Concat6(str, Lines(order), Spaces(2 * |p|), k, "\n", Lines(below));
  }

  lemma Concat6(a: string, b: string, c: string, d: string, e: string, f: string)
    ensures a + b + c + d + e + f == a + ((b + (c + d + e)) + f)
  {
  }

  /** The subtree of a child of `p` is strictly smaller than that of `p`. */
  lemma SubtreeShrinks<H>(m: Tree<H>, p: Path, k: string)
    requires p in m
    ensures Subtree(m, p + [k]) < Subtree(m, p)
  {
    SnocParent(p, k);
    forall q | q in Subtree(m, p + [k])
      ensures q in Subtree(m, p)
    {
      if q != p + [k] {
        BelowTransitive(p, p + [k], q);
      }
    }
    assert p !in Subtree(m, p + [k]);
  }

  /** Below `p`, a key and every key below it share the segment after `p`. */
  lemma SameSegment(p: Path, x: Path, y: Path)
    requires StrictlyBelow(p, x) && StrictlyBelow(x, y)
    ensures StrictlyBelow(p, y) && y[|p|] == x[|p|]
  {
    BelowTransitive(p, x, y);
    assert y[..|x|] == x;
    assert y[|p|] == y[..|x|][|p|];
  }

  /** The listing `acc + [p + [k]] + sub`, split at `b == |acc|` into the
      keys before, the key `p + [k]`, and the keys below it. */
  ghost predicate Blocks(p: Path, k: string, o: seq<Path>, b: nat) {
    && b < |o| && o[b] == p + [k]
    && (forall j :: 0 <= j < |o| ==> StrictlyBelow(p, o[j]) && (o[j][|p|] == k <==> j >= b))
    && (forall j :: b < j < |o| ==> StrictlyBelow(p + [k], o[j]))
  }

  lemma BlocksOfAppend(p: Path, k: string, acc: seq<Path>, sub: seq<Path>)
    requires forall x :: x in acc ==> StrictlyBelow(p, x) && x[|p|] != k
    requires forall x :: x in sub ==> StrictlyBelow(p + [k], x)
    ensures Blocks(p, k, acc + [p + [k]] + sub, |acc|)
  {
    var c := p + [k];
    var o := acc + [c] + sub;
    var b := |acc|;
    SnocParent(p, k);
    forall j | 0 <= j < |o|
      ensures StrictlyBelow(p, o[j]) && (o[j][|p|] == k <==> j >= b)
    {
      if j < b {
        assert o[j] == acc[j] && acc[j] in acc;
      } else if j > b {
        assert o[j] == sub[j - b - 1] && sub[j - b - 1] in sub;
        SameSegment(p, c, o[j]);
      }
    }
  }

  lemma BlocksDistinct(p: Path, k: string, acc: seq<Path>, sub: seq<Path>)
    requires DepthFirst(acc) && DepthFirst(sub)
    requires Blocks(p, k, acc + [p + [k]] + sub, |acc|)
    ensures var o := acc + [p + [k]] + sub;
            forall j, l :: 0 <= j < l < |o| ==> o[j] != o[l]
  {
    var o := acc + [p + [k]] + sub;
    var b := |acc|;
    forall j, l | 0 <= j < l < |o|
      ensures o[j] != o[l]
    {
      if j < b && l < b {
        assert o[j] == acc[j] && o[l] == acc[l];
      } else if j > b && l > b {
        assert o[j] == sub[j - b - 1] && o[l] == sub[l - b - 1];
      }
    }
  }

  lemma BlocksAncestorsFirst(p: Path, k: string, acc: seq<Path>, sub: seq<Path>)
    requires DepthFirst(acc) && DepthFirst(sub)
    requires Blocks(p, k, acc + [p + [k]] + sub, |acc|)
    ensures var o := acc + [p + [k]] + sub;
            forall j, l :: 0 <= j < |o| && 0 <= l < |o| && StrictlyBelow(o[j], o[l]) ==> j < l
  {
    var o := acc + [p + [k]] + sub;
    var b := |acc|;
    forall j, l | 0 <= j < |o| && 0 <= l < |o| && StrictlyBelow(o[j], o[l])
      ensures j < l
    {
      SameSegment(p, o[j], o[l]);
      if j < b {
        assert o[j] == acc[j] && o[l] == acc[l];
      } else if j > b {
        assert o[j] == sub[j - b - 1] && o[l] == sub[l - b - 1];
      }
    }
  }

  lemma BlocksContiguous(p: Path, k: string, acc: seq<Path>, sub: seq<Path>)
    requires DepthFirst(acc) && DepthFirst(sub)
    requires Blocks(p, k, acc + [p + [k]] + sub, |acc|)
    ensures var o := acc + [p + [k]] + sub;
            forall j, l, n :: 0 <= j < l < n < |o| && StrictlyBelow(o[j], o[n]) ==> StrictlyBelow(o[j], o[l])
  {
    var o := acc + [p + [k]] + sub;
    var b := |acc|;
    forall j, l, n | 0 <= j < l < n < |o| && StrictlyBelow(o[j], o[n])
      ensures StrictlyBelow(o[j], o[l])
    {
      SameSegment(p, o[j], o[n]);
      if n < b {
        assert o[j] == acc[j] && o[l] == acc[l] && o[n] == acc[n];
      } else if j > b {
        assert o[j] == sub[j - b - 1] && o[l] == sub[l - b - 1] && o[n] == sub[n - b - 1];
      }
    }
  }

  /** Appending a key and the depth-first listing of its subtree to a
      depth-first listing of other subtrees of `p` keeps it depth first. */
  lemma DepthFirstAppend(p: Path, k: string, acc: seq<Path>, sub: seq<Path>)
    requires DepthFirst(acc) && DepthFirst(sub)
    requires forall x :: x in acc ==> StrictlyBelow(p, x) && x[|p|] != k
    requires forall x :: x in sub ==> StrictlyBelow(p + [k], x)
    ensures DepthFirst(acc + [p + [k]] + sub)
  {
    BlocksOfAppend(p, k, acc, sub);
    BlocksDistinct(p, k, acc, sub);
    BlocksAncestorsFirst(p, k, acc, sub);
    BlocksContiguous(p, k, acc, sub);
  }

  /** One round of the printing loop: the key `k` below `p` and the listing
      of its subtree join the listing so far. */
  lemma PrintStep<H>(m: Tree<H>, p: Path, k: string, done: set<string>, order: seq<Path>,
                     below: seq<Path>, str: string, skipRemoved: bool)
    requires IsLive(m, p + [k]) && k !in done
    requires EnumeratesVia(m, p, done, order) && DepthFirst(order)
    requires Enumerates(m, p + [k], below) && DepthFirst(below)
    requires !skipRemoved ==> LiveVia(m, p, done) && !HasTombBelow(m, p + [k])
    ensures EnumeratesVia(m, p, done + {k}, order + [p + [k]] + below)
    ensures DepthFirst(order + [p + [k]] + below)
    ensures !skipRemoved ==> LiveVia(m, p, done + {k})
    ensures str + Lines(order) + Spaces(2 * |p|) + k + "\n" + Lines(below)
         == str + Lines(order + [p + [k]] + below)
  {
    var c := p + [k];
    SnocParent(p, k);
    forall x | x in order
      ensures StrictlyBelow(p, x) && x[|p|] != k
    {
    }
    DepthFirstAppend(p, k, order, below);
    EnumeratesAppend(m, p, done, k, order, below);
    LinesStep(str, order, p, k, below);
    forall q | q in m && StrictlyBelow(p, q) && q[|p|] == k
      ensures !skipRemoved ==> m[q].Live?
    {
      if q != c {
        ChildOnTheWay(p, q);
      }
    }
  }

  /** Moving the key `k` from the keys still to print to the keys printed. */
  lemma MoveKey(keys: set<string>, done: set<string>, all: set<string>, k: string)
    requires keys + done == all && keys !! done && k in keys
    ensures (keys - {k}) + (done + {k}) == all && (keys - {k}) !! (done + {k})
  {
  }

  /** One round of the printing loop over the children of `p`, for the key
      `k`: a live child and the listing of its subtree join the listing so
      far; a tombstone adds nothing. */
  lemma ChildStep<H>(m: Tree<H>, p: Path, k: string, done: set<string>, order: seq<Path>,
                     below: seq<Path>, str: string, skipRemoved: bool, out: Outcome<string>)
    requires WellFormed(m) && p + [k] in m && k !in done && !out.Fail?
    requires EnumeratesVia(m, p, done, order) && DepthFirst(order)
    requires !skipRemoved ==> LiveVia(m, p, done)
    requires out.Panic? <==> !skipRemoved && (m[p + [k]] == Tomb || HasTombBelow(m, p + [k]))
    requires out.Ok? && IsLive(m, p + [k]) ==>
               && Enumerates(m, p + [k], below) && DepthFirst(below)
               && out.value == str + Lines(order) + Spaces(2 * |p|) + k + "\n" + Lines(below)
    requires out.Ok? && !IsLive(m, p + [k]) ==> out.value == str + Lines(order)
    ensures out.Panic? ==> HasTombBelow(m, p)
    ensures out.Ok? ==>
              var order' := if IsLive(m, p + [k]) then order + [p + [k]] + below else order;
              && EnumeratesVia(m, p, done + {k}, order') && DepthFirst(order')
              && (!skipRemoved ==> LiveVia(m, p, done + {k}))
              && out.value == str + Lines(order')
  {
    var c := p + [k];
    SnocParent(p, k);
    if out.Panic? {
      if m[c] != Tomb {
        var t :| t in m && StrictlyBelow(c, t) && m[t] == Tomb;
        BelowTransitive(p, c, t);
      }
    } else if IsLive(m, c) {
      PrintStep(m, p, k, done, order, below, str, skipRemoved);
    } else {
      SkipStep(m, p, k, done, order);
    }
  }

  /** A key below `p` that holds a tombstone hides nothing: no live key lies
      below it. */
  lemma SkipStep<H>(m: Tree<H>, p: Path, k: string, done: set<string>, order: seq<Path>)
    requires WellFormed(m) && p + [k] in m && m[p + [k]] == Tomb
    requires EnumeratesVia(m, p, done, order)
    ensures EnumeratesVia(m, p, done + {k}, order)
  {
    SnocParent(p, k);
    forall q | StrictlyBelow(p, q) && q[|p|] == k
      ensures !IsLive(m, q)
    {
      ChildOnTheWay(p, q);
      if |p| + 1 < |q| {
        LiveAncestor(m, q, |p| + 1);
      }
    }
  }

  /** Appending a key and the listing of its subtree extends the listing of
      the keys below `p` by one more segment after `p`. */
  lemma EnumeratesAppend<H>(m: Tree<H>, p: Path, ks: set<string>, k: string, acc: seq<Path>, sub: seq<Path>)
    requires EnumeratesVia(m, p, ks, acc) && Enumerates(m, p + [k], sub) && IsLive(m, p + [k])
    ensures EnumeratesVia(m, p, ks + {k}, acc + [p + [k]] + sub)
  {
    var c := p + [k];
    SnocParent(p, k);
    forall q
      ensures q in acc + [c] + sub <==> IsLive(m, q) && StrictlyBelow(p, q) && q[|p|] in ks + {k}
    {
      if q in sub {
        BelowTransitive(p, c, q);
        assert q[..|c|] == c;
      }
      if IsLive(m, q) && StrictlyBelow(p, q) && q[|p|] == k && q != c {
        ChildOnTheWay(p, q);
      }
    }
  }
}
