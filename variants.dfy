/** How the two tries relate: on a trie without wildcard commands, and for
    paths with no wildcard before the last key, treecli.go behaves exactly
    as clitree.go. */
module Variants {
  import opened Trie
  import TreeCli
  import CliTree

  /** No live key of the trie is a wildcard. */
  ghost predicate NoWildcardCommands<H>(m: Tree<H>) {
    forall p, k {:trigger p + [k] in m} :: p + [k] in m && m[p + [k]].Live? ==> k != TreeCli.Wildcard
  }

  lemma {:induction false} SearchesAgreeFrom<H>(m: Tree<H>, path: Path, i: nat)
    requires i <= |path| && path[..i] in m && NoWildcardCommands(m)
    ensures TreeCli.SearchedFrom(m, path, i) == CliTree.SearchedFrom(m, path, i)
    decreases |path| - i
  {
    if i < |path| - 1 && m[path[..i]].Live? && path[..i + 1] in m {
      SearchesAgreeFrom(m, path, i + 1);
    }
  }

  /** Without wildcard commands, both tries resolve, parse and remove every
      path alike. */
  lemma SearchesAgree<H>(m: Tree<H>, path: Path)
    requires IsLive(m, []) && NoWildcardCommands(m)
    ensures TreeCli.Searched(m, path) == CliTree.Searched(m, path)
    ensures TreeCli.Parsed(m, path) == CliTree.Parsed(m, path)
    ensures TreeCli.Removed(m, path) == CliTree.Removed(m, path)
  {
    assert path[..0] == [];
    SearchesAgreeFrom(m, path, 0);
  }

  lemma {:induction false} AddsAgreeFrom<H>(m: Tree<H>, f: H, path: Path, i: nat)
    requires i <= |path| && path[..i] in m
    requires forall j :: i <= j < |path| - 1 ==> path[j] != TreeCli.Wildcard
    ensures TreeCli.AddedFrom(m, f, path, i) == CliTree.AddedFrom(m, f, path, i)
    decreases |path| - i
  {
    if i < |path| && m[path[..i]].Live? && !(i == |path| - 1 && !IsLive(m, path[..i + 1])) && path[..i + 1] in m {
      AddsAgreeFrom(m, f, path, i + 1);
    }
  }

  /** Adding a path with no wildcard before its last key does the same in
      both tries, whatever the trie holds. */
  lemma AddsAgree<H>(m: Tree<H>, f: H, path: Path)
    requires [] in m && TreeCli.WildcardLastOnly(path)
    ensures TreeCli.Added(m, f, path) == CliTree.Added(m, f, path)
  {
    assert path[..0] == [];
    AddsAgreeFrom(m, f, path, 0);
  }

  /** Adding a path whose last key is not the wildcard keeps the trie free of
      wildcard commands. */
  lemma AddedKeepsNoWildcardCommands<H>(m: Tree<H>, f: H, path: Path)
    requires [] in m && NoWildcardCommands(m) && (path != [] ==> path[|path| - 1] != TreeCli.Wildcard)
    ensures NoWildcardCommands(CliTree.Added(m, f, path).1)
  {
    var m' := CliTree.Added(m, f, path).1;
    if m' != m {
      forall p, k {:trigger p + [k] in m'} | p + [k] in m' && m'[p + [k]].Live?
        ensures k != TreeCli.Wildcard
      {
        if p + [k] == path {
          SnocParent(p, k);
        } else {
          assert p + [k] in m;
        }
      }
    }
  }
}
