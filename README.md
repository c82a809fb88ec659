# treecli: a verified model of two command tries

The repository provides two small command-line dispatch tries written in Go.
A program registers a handler under a path of words (`auth token`). Later it
looks up the handler for the words the user typed.

- `treecli.go`: the trie with wildcards. A child stored under the key `"*"`
  matches whatever remains of a path. A node cannot have a wildcard with
  children below it.
- `clitree.go`: the older trie without wildcards. Its key `"*"` is an
  ordinary word.

Both tries offer the same operations: `NewTree`, `AddCommand`,
`RemoveCommand`, `Parse` and the internal `searchTree`. `treecli.go` also
renders the trie as indented text with `String`.

## How the model is built

- **`Trie`** (`trie.dfy`) holds what the two tries share.
  - The abstract trie: a `Tree<H>` maps every reachable path to an `Entry`.
    An entry is `Live(f)` for a node with handler `f`. It is `Tomb` for a key
    that `RemoveCommand` set to a nil child.
  - The handler type `H` is a type parameter, because handlers are opaque
    functions to both tries.
  - `WellFormed`: the root is live, and every other path hangs under a live
    parent.
  - `Prune`: the effect of `n.children[k] = nil`.
  - The heap nodes: class `Node`, with an immutable handler and a mutable
    `children` map.
  - The ghost predicates `Shape` and `Linked` tie the heap to the abstract
    trie. They give the node at every live path, the keys of every live node,
    and say that distinct paths own distinct nodes.
- **`TreeCli`** (`treecli.dfy`) covers `treecli.go`.
  - Each Go loop is a recursive function on the abstract trie (`SearchedFrom`,
    `AddedFrom`), written branch by branch in the Go order.
  - The lemmas state what the operations promise.
  - The class `TreeCLI` keeps the Go mutable state: a `root` node whose
    `children` maps the methods update in place. Each method is proved
    against the function that specifies it. `String` is a recursive
    depth-first walk over the heap, proved against a depth-first enumeration
    of the live paths.
- **`Rendering`** (`render.dfy`) defines the text `String` builds:
  - `Lines(order)` is one indented line per path;
  - `Enumerates` says the order lists exactly the live paths;
  - `DepthFirst` says the order is a pre-order walk.

  It also holds the lemmas the printing loop's invariants need.
- **`CliTree`** (`clitree.dfy`) is the same for `clitree.go`, without
  wildcards and without printing.
- **`Variants`** (`variants.dfy`) proves that the two tries agree on every
  trie and path where no wildcard is involved.
- **`Scenarios`** (`scenarios.dfy`) replays the three functions of
  `treecli_test.go` on the class. Every expected result there is an
  assertion the verifier proves. Two more scenarios cover the inputs
  below: a wildcard after a missing key, and a removed key on the way.

How Go behaviour maps onto the model:

- A Go nil-pointer dereference is the outcome `Panic`. It occurs when the
  search loop or the insertion loop steps onto the nil child of a removed
  key, or when `String` prints one.
- A Go `error` is `Fail(e)`. `e` names which `return fmt.Errorf` produced it
  and carries the values the message formats.
- `Ok(v)` is a normal return.
- Go's map iteration order is unspecified, so `String` picks the next key
  with `:|`, which may be any remaining key. Its contract holds for every
  order that choice can produce.

## Model

| member | source | states |
|---|---|---|
| Trie.Node.constructor | treecli.go:34 | a new node carries the given handler and no children |
| Trie.Prune | treecli.go:50 | after `n.children[k] = nil` the key is a tombstone, everything strictly below it is unreachable, and every other path keeps its entry |
| Trie.PrunePreservesShape | treecli.go:45-52 | removing a non-root key leaves a trie in which every path still hangs under a live parent |
| Trie.PutPreservesShape | treecli.go:33-34 | storing a new node under a live parent keeps every path hanging under a live parent |
| Trie.AncestorsLive | treecli.go:15-18 | every proper prefix of a stored path is a live node, because a path is only reachable through its ancestors' children maps |
| Trie.ShapeIsWellFormed | treecli.go:8-18 | a trie reachable from the root node is well formed |
| Trie.ChildKeyOnTheWay | treecli.go:15-18 | every stored path strictly below a node passes through one of that node's child keys |
| Trie.InsertKeepsShape | treecli.go:34 | linking a fresh node under a live node's key keeps heap and abstract trie in step, and the new path maps to the new node with no children |
| Trie.UnlinkFrame | treecli.go:50 | clearing one key changes only that node's children map, keeps every other node's map, and drops no node outside the removed subtree |
| Trie.RemoveKeepsShape | treecli.go:50 | after clearing a key the heap still represents the pruned trie |
| Trie.RemoveKeepsChildren | treecli.go:50 | after clearing a key every live node's children map lists exactly its children in the pruned trie |
| Rendering.LinesAppend | treecli.go:59 | the text of two consecutive runs of lines is the concatenation of their texts |
| Rendering.LinesStep | treecli.go:59 | appending a child's indented line and then its subtree's text extends the rendered order by that child and its subtree |
| Rendering.SubtreeShrinks | treecli.go:60 | the set of paths below a child is strictly smaller than the set below its parent, so the recursion ends |
| Rendering.DepthFirstAppend | treecli.go:58-61 | a pre-order listing of earlier siblings, followed by a child and a pre-order listing of its subtree, is again a pre-order listing |
| Rendering.EnumeratesAppend | treecli.go:58-61 | adding a live child and its subtree's listing extends the set of child keys the listing covers by that key |
| Rendering.SkipStep | treecli.go:58-61 | a tombstone key contributes no live path to the listing |
| Rendering.PrintStep | treecli.go:58-61 | one pass of the printing loop for a live child keeps the loop invariants: the listing covers the keys done so far, is pre-order, and the text is that listing |
| Rendering.ChildStep | treecli.go:58-61 | after one pass of the printing loop the loop either panicked, because a tombstone lies below the node, or kept its invariants with the child's subtree appended |
| TreeCli.SearchedFrom | treecli.go:79-95 | the search loop: it fails with the exhausted-path error exactly when no word is left, and a hit is a live node under a live parent on the path, which is either the wildcard or the whole path |
| TreeCli.SearchDescends | treecli.go:88-89 | while each node on the way is live and has no live wildcard child, the search walks down unchanged |
| TreeCli.WildcardShadows | treecli.go:82-83 | the first live wildcard on the way takes the lookup whatever words remain: search, parse and remove all resolve to it |
| TreeCli.SearchedExactly | treecli.go:79-95 | a path resolves to its own node if and only if that node is live and no live wildcard on the way shadows it |
| TreeCli.SearchMissing | treecli.go:84-91 | with no live wildcard on the way, the first absent inner key gives the missing-intermediate error with its word, and an absent or removed last key gives the missing-node error |
| TreeCli.AddedFrom | treecli.go:28-42 | the insertion loop either leaves the trie unchanged or succeeds by storing the handler at a path whose parent was live, whose own node was not, and with no wildcard before the last word |
| TreeCli.AddDescends | treecli.go:35-36 | while each node on the way is live and no word before it is the wildcard, the insertion loop walks down unchanged |
| TreeCli.AddOutcome | treecli.go:28-42 | under a live parent and with no inner wildcard, adding succeeds; it stores the handler when the node is missing or removed, does nothing when the node is live, and the new node has nothing below it |
| TreeCli.EmptyPath | treecli.go:28-95 | the empty path parses to the root handler, adding under it does nothing, and removing it fails with the exhausted-path error |
| TreeCli.AddMissingAncestor | treecli.go:37-38 | a missing inner node fails the insertion with its word, its position and the last position, and changes nothing |
| TreeCli.AddStopsAtWildcard | treecli.go:31-32 | a wildcard before the last word stops the insertion with no change |
| TreeCli.AddWildcardNotLast | treecli.go:31-32 | a wildcard that is not last never succeeds and changes nothing; reached through live nodes, it fails with the wildcard error |
| TreeCli.AddThenParse | treecli.go:28-42 | adding at an unshadowed path under a live parent succeeds; parsing that path then returns the new handler, or the old one if the node was already live |
| TreeCli.RemoveThenMissing | treecli.go:45-52 | removing a live, unshadowed path prunes it; parsing it or removing it again then fails with the missing-node error |
| TreeCli.RemoveFailsCleanly | treecli.go:46-49 | a failed search makes removal fail with no change; a successful one makes it succeed and never targets the root |
| TreeCli.AddedKeepsInvariants | treecli.go:28-42 | adding keeps the trie well formed and keeps every wildcard childless |
| TreeCli.RemovedKeepsInvariants | treecli.go:45-52 | removing keeps the trie well formed and keeps every wildcard childless |
| TreeCli.AddedKeepsNoTombs | treecli.go:28-42 | adding never creates a tombstone |
| TreeCli.RemovedLeavesTomb | treecli.go:50 | every successful removal leaves a tombstone in the trie |
| TreeCli.SearchThroughRemoved | treecli.go:88-89 | a search that reaches a removed inner key panics, and so do parse and remove on that path |
| TreeCli.SearchedLiveFrom | treecli.go:79-95 | the search with removed keys treated as missing never panics |
| TreeCli.SearchedLiveAgrees | treecli.go:79-95 | that search answers as the code does wherever the code does not panic, and gives the missing-intermediate error where it panics |
| TreeCli.AddThroughRemoved | treecli.go:35-36 | an insertion that passes a removed inner key, with no inner wildcard up to the next key, panics and changes nothing |
| TreeCli.AddedLiveFrom | treecli.go:28-42 | the insertion loop with removed keys treated as missing never panics |
| TreeCli.AddedLiveAgrees | treecli.go:28-42 | that insertion succeeds exactly where the code does, leaving the same trie; it fails with no change where the code fails, and gives the missing-ancestor error with no change where the code panics |
| TreeCli.TreeCLI.NewTree | treecli.go:22-24 | a new trie holds only the root with the given handler |
| TreeCli.TreeCLI.AddCommand | treecli.go:28-42 | the result and the new trie are those of the insertion loop, and the heap still represents the trie |
| TreeCli.TreeCLI.Attach | treecli.go:34 | writing a fresh node under a key stores the handler at that path and changes nothing else |
| TreeCli.TreeCLI.RemoveCommand | treecli.go:45-52 | the result and the new trie are those of the search followed by the nil write |
| TreeCli.TreeCLI.Unlink | treecli.go:50 | writing nil under a key prunes that path and keeps the heap representing the trie |
| TreeCli.TreeCLI.String | treecli.go:55-65 | the text is one indented line per live path in a pre-order walk; it panics exactly when a removed key is anywhere in the trie, and it never returns an error |
| TreeCli.TreeCLI.StringSkippingRemoved | treecli.go:55-65 | the printing loop with removed keys skipped always yields one indented line per live path in a pre-order walk |
| TreeCli.TreeCLI.PrintChildren | treecli.go:57-61 | below a node, the text appended is a pre-order listing of the live paths under it, or a panic exactly when a removed key lies below it |
| TreeCli.TreeCLI.PrintChild | treecli.go:59-60 | one child's line followed by its subtree, or a panic if the child or something below it was removed |
| TreeCli.TreeCLI.Parse | treecli.go:68-77 | the handler returned is that of the node the search resolves, or the root's for the empty path; it changes nothing |
| TreeCli.TreeCLI.SearchTree | treecli.go:79-95 | returns the parent node and key of the abstract search's hit, or its error or panic |
| CliTree.SearchedFrom | clitree.go:82-97 | the search loop: it fails with the exhausted-path error exactly when no word is left, and a hit is always the whole path, live |
| CliTree.SearchDescends | clitree.go:89-90 | through live nodes the search walks down unchanged |
| CliTree.SearchedIffLive | clitree.go:82-97 | a non-empty path resolves if and only if its node is live, and then to that exact node; `"*"` is an ordinary word |
| CliTree.SearchMissing | clitree.go:87-93 | the first absent inner key gives the missing-intermediate error with its word, and an absent or removed last key gives the missing-node error |
| CliTree.SearchThroughRemoved | clitree.go:89-90 | a search that reaches a removed inner key panics |
| CliTree.SearchedLiveFrom | clitree.go:82-97 | the search with removed keys treated as missing never panics |
| CliTree.SearchedLiveAgrees | clitree.go:82-97 | that search answers as the code does wherever the code does not panic, and gives the missing-intermediate error where it panics |
| CliTree.AddThroughRemoved | clitree.go:35-36 | an insertion that passes a removed inner key panics and changes nothing |
| CliTree.AddedLiveFrom | clitree.go:30-42 | the insertion loop with removed keys treated as missing never panics |
| CliTree.AddedLiveAgrees | clitree.go:30-42 | that insertion answers as the code does wherever the code does not panic, and gives the missing-ancestor error with no change where it panics |
| CliTree.AddedFrom | clitree.go:30-42 | the insertion loop either leaves the trie unchanged or succeeds by storing the handler at a path whose parent was live and whose own node was not |
| CliTree.AddDescends | clitree.go:35-36 | through live nodes the insertion loop walks down unchanged |
| CliTree.AddOutcome | clitree.go:30-42 | under a live parent, adding succeeds; it stores the handler when the node is missing or removed, does nothing when the node is live, and the new node has nothing below it |
| CliTree.EmptyPath | clitree.go:30-97 | the empty path parses to the root handler, adding under it does nothing, and removing it fails with the exhausted-path error |
| CliTree.AddMissingAncestor | clitree.go:37-38 | a missing inner node fails the insertion with its word, its position and the last position, and changes nothing |
| CliTree.AddThenParse | clitree.go:30-42 | adding under a live parent succeeds, and parsing the path then returns the new handler, or the old one if the node was already live |
| CliTree.RemoveThenMissing | clitree.go:46-53 | removing a live path prunes it; parsing it or removing it again then fails with the missing-node error |
| CliTree.AddedKeepsShape | clitree.go:30-42 | adding keeps the trie well formed |
| CliTree.RemovedKeepsShape | clitree.go:46-53 | removing keeps the trie well formed |
| CliTree.CLITree.NewTree | clitree.go:24-26 | a new trie holds only the root with the given handler |
| CliTree.CLITree.AddCommand | clitree.go:30-42 | the result and the new trie are those of the insertion loop, and the heap still represents the trie |
| CliTree.CLITree.Attach | clitree.go:34 | writing a fresh node under a key stores the handler at that path and changes nothing else |
| CliTree.CLITree.RemoveCommand | clitree.go:46-53 | the result and the new trie are those of the search followed by the nil write |
| CliTree.CLITree.Unlink | clitree.go:51 | writing nil under a key prunes that path and keeps the heap representing the trie |
| CliTree.CLITree.Parse | clitree.go:71-80 | the handler returned is that of the node the search resolves, or the root's for the empty path; it changes nothing |
| CliTree.CLITree.SearchTree | clitree.go:82-97 | returns the parent node and key of the abstract search's hit, or its error or panic |
| Variants.SearchesAgreeFrom | clitree.go:82-97 | on a trie with no `"*"` key, the two search loops agree from every position |
| Variants.SearchesAgree | clitree.go:82-97 | on a trie with no `"*"` key, search, parse and remove give the same results in both tries |
| Variants.AddsAgreeFrom | clitree.go:30-42 | for a path with no inner `"*"`, the two insertion loops agree from every position |
| Variants.AddsAgree | clitree.go:30-42 | for a path with no inner `"*"`, adding gives the same result and trie in both tries |
| Variants.AddedKeepsNoWildcardCommands | clitree.go:30-42 | adding a path that does not end in `"*"` keeps a trie free of `"*"` keys |

## Left out

- `CLITree.Print` (clitree.go:57-66) writes to standard output. It has the
  same walk as `TreeCLI.String`, which the model covers.
- The debugging `fmt.Println` at clitree.go:92 is left out. It is output
  only.
- Error messages are modelled by their cause (`Err`) and the values they
  format, not by their text.
- Handlers are never called. They are values of an opaque type `H`, and
  their effects (such as the test's `res = "test"`) are outside the model.
- The order in which Go ranges over a map is not modelled. `String` is
  proved for any order.
- Thread safety is not modelled. Go maps are not safe for concurrent use,
  and the model assumes one caller at a time.
- Memory that `RemoveCommand` makes unreachable is not modelled. The
  removed subtree's nodes stay in Go memory until collected. The model
  drops them from the set of reachable nodes, since no operation can reach
  them again.
- Go `int` overflow of positions and indentation is not modelled. Paths
  and nesting depth are far below 2^63.
- `TreeCli.TreeCLI.PrintChildren` takes an extra `skipRemoved` flag. With
  `false` it is the code as written. With `true` it is the corrected
  printing behind `StringSkippingRemoved`.
- The classes model `searchTree` and `AddCommand` as written, including
  their panics on removed keys. The corrected loops (`SearchedLiveFrom` and
  `AddedLiveFrom` in both modules) are stated and proved beside them. The
  classes do not use them.
- No message-printing helper is modelled. None appears in `treecli.go` or
  `clitree.go`.

## Findings

| source | as written | input that shows it | evidently intended | confidence | as-written member | corrected member |
|---|---|---|---|---|---|---|
| treecli.go:57-61 | `String` recurses into every child value, including the nil that `RemoveCommand` stores, so it dereferences a nil node | `NewTree(h)`, `AddCommand(g, "a")`, `RemoveCommand("a")`, `String()` | removed commands are skipped and the remaining commands are printed | not executed | TreeCli.TreeCLI.String | TreeCli.TreeCLI.StringSkippingRemoved |
| treecli.go:88-89 | the `ok` test of `searchTree` accepts a key whose value is nil, so the search steps onto a nil node and dereferences it on the next word | `NewTree(h)`, `AddCommand(g, "a")`, `AddCommand(g, "a", "b")`, `RemoveCommand("a")`, `Parse("a", "b")` | a removed key is treated as missing and the missing-intermediate error is returned | not executed | TreeCli.SearchThroughRemoved | TreeCli.SearchedLiveAgrees |
| treecli.go:35-36 | the `ok` test of `AddCommand` accepts a key whose value is nil, so the loop steps onto a nil node and dereferences it on the next word | `NewTree(h)`, `AddCommand(g, "a")`, `AddCommand(g, "a", "b")`, `RemoveCommand("a")`, `AddCommand(g, "a", "b")` | a removed key is treated as missing and the missing-ancestor error is returned | not executed | TreeCli.AddThroughRemoved | TreeCli.AddedLiveAgrees |
| clitree.go:89-90 | the same `ok` test in the older trie's `searchTree` | `NewTree(h)`, `AddCommand(g, "a")`, `AddCommand(g, "a", "b")`, `RemoveCommand("a")`, `Parse("a", "b")` | a removed key is treated as missing and the missing-intermediate error is returned | not executed | CliTree.SearchThroughRemoved | CliTree.SearchedLiveAgrees |
| clitree.go:35-36 | the same `ok` test in the older trie's `AddCommand` | `NewTree(h)`, `AddCommand(g, "a")`, `AddCommand(g, "a", "b")`, `RemoveCommand("a")`, `AddCommand(g, "a", "b")` | a removed key is treated as missing and the missing-ancestor error is returned | not executed | CliTree.AddThroughRemoved | CliTree.AddedLiveAgrees |
