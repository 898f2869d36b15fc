# Keyed directed graph

This is a Dafny model of the generic directed graph in `graph.ts` (`Graph<T>` and its helper `newNode`). The graph stores values in a table. Each value is stored under the string key that the caller's hash function gives it. Every node holds its payload and two adjacency collections, `incoming` and `outgoing`, each indexed by the neighbour's key. The model covers:

- `lookupOrInsertNode`: the first payload stored under a key wins.
- `lookup`: never inserts.
- `insertEdge`: creates both endpoints as needed and records the edge in both directions.
- `removeNode`: deletes the entry, then sweeps every remaining node and purges the key from both of its adjacency collections.
- `roots`: the nodes with no outgoing edge.
- `isEmpty`.

Everything is in `graph.dfy`, in the module `KeyedGraph`. The model has two layers.

- **Table functions.** The operations are first written as pure functions on the node table (`map<Key, Node<T>>`): `InsertNode`, `AddEdge` (built from `Link`), `Remove` (built from `Purge`), and the sets `RootKeys` and `Edges`. The lemmas state what the source promises about these functions. `ValidTable` is the table invariant. It has three parts:
  - every node is stored under its payload's hash (`WellKeyed`);
  - every adjacency key names a present node (`Closed`);
  - `b` is in `a`'s outgoing set exactly when `a` is in `b`'s incoming set (`Symmetric`).
- **The class.** `Graph<T>` keeps the hash function as a `const` and the table as a mutable `map` field. Its mutating methods change the table in place, as the source does. Each one proves that the new table equals the matching table function applied to the old table, and that the invariant `Valid()` still holds.
  - `RemoveNode` sweeps the table with a loop, as the source does.
  - `Roots` builds its result with a loop, as the source does.

Adjacency is stored as sets of keys into the graph's own table, not as references to node objects. Under `Symmetric` and `WellKeyed`, the key `hashFn(from)` that the source writes into `to.incoming` equals the key of the node actually stored for `from`.

The class methods that mutate the graph require `Valid()`. This is the class invariant: the constructor establishes it and every mutating method preserves it. The table is private, so every graph satisfies it.

## Model

| member | source | states |
|---|---|---|
| KeyedGraph.NewNodeJoins | graph.ts:14-20 | a fresh node (the payload, no neighbours either way) can be stored under its key in any valid table that lacks that key, and the table stays valid |
| KeyedGraph.InsertNodeSpec | graph.ts:56-66 | lookup-or-insert on a present key leaves the table unchanged, so the first payload stays; on an absent key it adds exactly one entry under `hashFn(data)` holding `data` with empty adjacency, leaves every other entry unchanged, keeps the table valid and adds no edge |
| KeyedGraph.AddEdgeFrame | graph.ts:39-45 | inserting an edge adds exactly the two endpoint keys to the table, never changes an existing payload, drops no adjacency key, and a newly created endpoint holds the payload it was created from |
| KeyedGraph.AddEdgeRecords | graph.ts:39-45 | after `insertEdge(from, to)` both keys are present, `hashFn(to)` is in the from-node's outgoing set, `hashFn(from)` is in the to-node's incoming set, and the edge relation is the old one plus exactly that pair |
| KeyedGraph.LinkAt | graph.ts:43-44 | the two adjacency writes keep each entry's payload and add the target key to the source's outgoing set and the source key to the target's incoming set, and nothing else |
| KeyedGraph.LinkPreservesValid | graph.ts:43-44 | the two adjacency writes between present nodes keep the table valid (well-keyed, closed, symmetric) |
| KeyedGraph.AddEdgePreservesValid | graph.ts:39-45 | `insertEdge` keeps the table valid; a self-edge puts the node in its own incoming and outgoing sets |
| KeyedGraph.AddEdgeIdempotent | graph.ts:39-45 | inserting the same edge a second time leaves the table unchanged |
| KeyedGraph.RemoveSpec | graph.ts:47-54 | after removal the key is absent from the table and from every remaining adjacency set; every other entry keeps its payload and all its other adjacency keys; the edge relation loses exactly the edges that touch the key |
| KeyedGraph.RemovePreservesValid | graph.ts:47-54 | removal keeps the table valid |
| KeyedGraph.RemoveAbsent | graph.ts:47-54 | removing a key that is absent from a valid table leaves it unchanged |
| KeyedGraph.RootsHaveNoEdges | graph.ts:29-37 | in a valid table a key is a root exactly when no edge leaves it, which holds exactly when no node lists it as an incoming neighbour |
| KeyedGraph.RootsOfChain | graph.ts:29-45 | with edges A->B and B->C the only root is C; adding C->A leaves no root |
| KeyedGraph.Graph.constructor | graph.ts:22-27 | a new graph keeps the given hash function, has no node, and is valid |
| KeyedGraph.Graph.Lookup | graph.ts:68-70 | returns the node stored under `hashFn(data)` when that key is present and nothing otherwise; in a valid graph the returned node's payload hashes to the same key; being a function, it cannot change the graph |
| KeyedGraph.Graph.IsEmpty | graph.ts:72-77 | true exactly when the table holds no key |
| KeyedGraph.Graph.LookupOrInsertNode | graph.ts:56-66 | the table becomes `InsertNode` of the old one and stays valid; the returned node is the one now stored under the key; on a present key the table is unchanged and the existing node is returned; on an absent key a fresh node holding `data` is returned |
| KeyedGraph.Graph.InsertEdge | graph.ts:39-45 | the table becomes `AddEdge` of the old one (both lookups-or-inserts, then the two adjacency writes) and stays valid |
| KeyedGraph.Graph.RemoveNode | graph.ts:47-54 | the loop that sweeps every remaining node leaves the table equal to `Remove` of the old one and valid, and a later lookup of the removed value finds nothing |
| KeyedGraph.Graph.Roots | graph.ts:29-37 | returns every stored node whose outgoing set is empty, each taken from a distinct entry and each qualifying entry exactly once; in a valid graph the returned nodes are pairwise distinct; the graph is not changed |

## Left out

- `async.ts` (`runWhenIdle`, `IdleValue`) is not part of this model. It is scheduling built on platform idle callbacks, timers and the clock.
- `Graph.toString` (graph.ts:79-89) is not modelled. It is a debug dump whose output depends on JavaScript's object-key order and string joining.
- Node identity: the source returns a reference to the stored node object, and callers could mutate the graph through it. The model returns the node as a value. Changes made through a returned handle, and aliasing between handles, are not captured.
- KeyedGraph.Graph.Roots: the iteration order of the result is left open. The model picks the next key arbitrarily and promises only which nodes appear and that each appears once. The ghost `keys` output names the entry each node came from.
- The hash function is an arbitrary total function from payloads to strings. Its own properties, such as determinism across calls and injectivity over distinct entities, are not modelled. Dafny functions are deterministic by construction.
- lodash's `forEach` and `isEmpty` become a loop over the table's key set and a test for an empty set.
- JavaScript's `undefined` result of `lookup` becomes `None`. The `!node` test in `lookupOrInsertNode` becomes a key-presence test, because a stored node object is never falsy.
