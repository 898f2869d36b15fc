/**
 A keyed directed graph. Every stored value lives in a table under the key
 its hash function gives it; each node records the keys of its neighbours
 in two adjacency sets, one per direction. Adjacency is kept as keys into
 the graph's own table rather than as references to node objects.
 */
module KeyedGraph {

  type Key = string

  datatype Option<T> = None | Some(value: T)

  /** A stored node: its payload and the keys of its neighbours. */
  datatype Node<T> = Node(data: T, incoming: set<Key>, outgoing: set<Key>)

  /** The node table, from key to node. */
  type Table<T> = map<Key, Node<T>>

  // ---------------------------------------------------------------------------
  // The table invariant

  /** Every node is stored under the key its payload hashes to. */
  ghost predicate WellKeyed<T>(t: Table<T>, h: T -> Key)
  {
    forall k :: k in t ==> h(t[k].data) == k
  }

  /** Every adjacency key names a node that is present. */
  ghost predicate Closed<T>(t: Table<T>)
  {
    forall k :: k in t ==> t[k].incoming <= t.Keys && t[k].outgoing <= t.Keys
  }

  /** b is an outgoing neighbour of a exactly when a is an incoming neighbour of b. */
  ghost predicate Symmetric<T>(t: Table<T>)
  {
    forall a, b :: a in t && b in t ==> (b in t[a].outgoing <==> a in t[b].incoming)
  }

  ghost predicate ValidTable<T>(t: Table<T>, h: T -> Key)
  {
    WellKeyed(t, h) && Closed(t) && Symmetric(t)
  }

  /** The edge relation of a table, read off the outgoing sets. */
  ghost function Edges<T>(t: Table<T>): set<(Key, Key)>
  {
    set a, b | a in t && b in t[a].outgoing :: (a, b)
  }

  // ---------------------------------------------------------------------------
  // The operations, on tables

  /** A node holding `data` with no neighbours in either direction. */
  function NewNode<T>(data: T): Node<T>
  {
    Node(data, {}, {})
  }

  /** The table after looking up `data`, inserting a fresh node when its key is absent. */
  function InsertNode<T>(t: Table<T>, h: T -> Key, data: T): Table<T>
  {
    if h(data) in t then t else t[h(data) := NewNode(data)]
  }

  /** The table after recording the edge from -> to, creating both endpoints as needed. */
  function AddEdge<T>(t: Table<T>, h: T -> Key, from: T, to: T): Table<T>
  {
    Link(InsertNode(InsertNode(t, h, from), h, to), h(from), h(to))
  }

  /** Adds `kt` to the outgoing set of `kf`, then `kf` to the incoming set of `kt`. */
  function Link<T>(t: Table<T>, kf: Key, kt: Key): Table<T>
    requires kf in t && kt in t
  {
    var t2 := t[kf := t[kf].(outgoing := t[kf].outgoing + {kt})];
    t2[kt := t2[kt].(incoming := t2[kt].incoming + {kf})]
  }

  /** A node with `key` dropped from both of its adjacency sets. */
  function Purge<T>(n: Node<T>, key: Key): Node<T>
  {
    n.(outgoing := n.outgoing - {key}, incoming := n.incoming - {key})
  }

  /** The table after deleting the entry under `key` and purging `key` from every other node. */
  function Remove<T>(t: Table<T>, key: Key): Table<T>
  {
    map k | k in t && k != key :: Purge(t[k], key)
  }

  /** The keys of the nodes with no outgoing edge. */
  ghost function RootKeys<T>(t: Table<T>): set<Key>
  {
    set k | k in t && t[k].outgoing == {}
  }

  // ---------------------------------------------------------------------------
  // Properties of the operations

  lemma EdgesMember<T>(t: Table<T>, a: Key, b: Key)
    ensures (a, b) in Edges(t) <==> a in t && b in t[a].outgoing
  {
    if (a, b) in Edges(t) {
      var a', b' :| a' in t && b' in t[a'].outgoing && (a, b) == (a', b');
    }
  }

  /** A fresh node can join any valid table that lacks its key. */
  lemma NewNodeJoins<T>(t: Table<T>, h: T -> Key, data: T)
    requires ValidTable(t, h) && h(data) !in t
    ensures ValidTable(t[h(data) := NewNode(data)], h)
  {
    var t' := t[h(data) := NewNode(data)];
    forall a, b | a in t' && b in t'
      ensures b in t'[a].outgoing <==> a in t'[b].incoming
    {
      if a != h(data) && b != h(data) {
        assert b in t[a].outgoing <==> a in t[b].incoming;
      }
    }
  }

  /**
   Looking up a present key changes nothing (the first payload stays);
   an absent key gains exactly one fresh entry and nothing else changes.
   */
  lemma InsertNodeSpec<T>(t: Table<T>, h: T -> Key, data: T)
    requires ValidTable(t, h)
    ensures ValidTable(InsertNode(t, h, data), h)
    ensures InsertNode(t, h, data).Keys == t.Keys + {h(data)}
    ensures h(data) in t ==> InsertNode(t, h, data) == t
    ensures h(data) !in t ==>
      && InsertNode(t, h, data)[h(data)] == Node(data, {}, {})
      && forall k :: k in t ==> InsertNode(t, h, data)[k] == t[k]
    ensures Edges(InsertNode(t, h, data)) == Edges(t)
  {
    if h(data) !in t {
      NewNodeJoins(t, h, data);
      var t' := InsertNode(t, h, data);
      forall e | e in Edges(t') ensures e in Edges(t) {
        assert e.0 in t && e.1 in t'[e.0].outgoing;
      }
    }
  }

  /** Inserting an edge never touches a payload and keeps every existing adjacency key. */
  lemma AddEdgeFrame<T>(t: Table<T>, h: T -> Key, from: T, to: T)
    ensures AddEdge(t, h, from, to).Keys == t.Keys + {h(from), h(to)}
    ensures forall k :: k in t ==>
      && AddEdge(t, h, from, to)[k].data == t[k].data
      && t[k].outgoing <= AddEdge(t, h, from, to)[k].outgoing
      && t[k].incoming <= AddEdge(t, h, from, to)[k].incoming
    ensures h(from) !in t ==> AddEdge(t, h, from, to)[h(from)].data == from
    ensures h(to) !in t && h(to) != h(from) ==> AddEdge(t, h, from, to)[h(to)].data == to
  {
  }

  /**
   After inserting from -> to both endpoints are present, the edge is recorded
   in both directions, and the edge relation grows by exactly that one pair.
   */
  lemma AddEdgeRecords<T>(t: Table<T>, h: T -> Key, from: T, to: T)
    ensures h(from) in AddEdge(t, h, from, to) && h(to) in AddEdge(t, h, from, to)
    ensures h(to) in AddEdge(t, h, from, to)[h(from)].outgoing
    ensures h(from) in AddEdge(t, h, from, to)[h(to)].incoming
    ensures Edges(AddEdge(t, h, from, to)) == Edges(t) + {(h(from), h(to))}
  {
    var r := AddEdge(t, h, from, to);
    var kf, kt := h(from), h(to);
    assert forall k :: k in r ==> r[k].outgoing == (if k in t then t[k].outgoing else {}) + (if k == kf then {kt} else {});
    forall e | e in Edges(r) ensures e in Edges(t) + {(kf, kt)} {
      var (a, b) := e;
      assert a in r && b in r[a].outgoing;
    }
    forall e | e in Edges(t) ensures e in Edges(r) {
      var (a, b) := e;
      assert a in t && b in t[a].outgoing;
    }
  }

  /** What linking does to one entry: it keeps the payload and gains at most one key per direction. */
  lemma LinkAt<T>(t: Table<T>, kf: Key, kt: Key, k: Key)
    requires kf in t && kt in t && k in t
    ensures k in Link(t, kf, kt)
    ensures Link(t, kf, kt)[k].data == t[k].data
    ensures Link(t, kf, kt)[k].outgoing == if k == kf then t[k].outgoing + {kt} else t[k].outgoing
    ensures Link(t, kf, kt)[k].incoming == if k == kt then t[k].incoming + {kf} else t[k].incoming
  {
  }

  /** Linking two present keys keeps a table valid. */
  lemma LinkPreservesValid<T>(t: Table<T>, h: T -> Key, kf: Key, kt: Key)
    requires ValidTable(t, h) && kf in t && kt in t
    ensures ValidTable(Link(t, kf, kt), h)
  {
    var r := Link(t, kf, kt);
    assert r.Keys == t.Keys;
    forall k | k in r
      ensures h(r[k].data) == k && r[k].incoming <= r.Keys && r[k].outgoing <= r.Keys
    {
      LinkAt(t, kf, kt, k);
    }
    forall a, b | a in r && b in r
      ensures b in r[a].outgoing <==> a in r[b].incoming
    {
      LinkAt(t, kf, kt, a);
      LinkAt(t, kf, kt, b);
      assert b in t[a].outgoing <==> a in t[b].incoming;
    }
  }

  /** Inserting an edge keeps a table valid; a self-edge makes a node its own neighbour both ways. */
  lemma AddEdgePreservesValid<T>(t: Table<T>, h: T -> Key, from: T, to: T)
    requires ValidTable(t, h)
    ensures ValidTable(AddEdge(t, h, from, to), h)
    ensures h(from) == h(to) ==>
      h(from) in AddEdge(t, h, from, to)[h(from)].incoming &&
      h(from) in AddEdge(t, h, from, to)[h(from)].outgoing
  {
    var t1 := InsertNode(t, h, from);
    InsertNodeSpec(t, h, from);
    InsertNodeSpec(t1, h, to);
    LinkPreservesValid(InsertNode(t1, h, to), h, h(from), h(to));
  }

  /** Inserting the same edge a second time changes nothing. */
  lemma AddEdgeIdempotent<T>(t: Table<T>, h: T -> Key, from: T, to: T)
    ensures AddEdge(AddEdge(t, h, from, to), h, from, to) == AddEdge(t, h, from, to)
  {
    var r := AddEdge(t, h, from, to);
    AddEdgeRecords(t, h, from, to);
    assert InsertNode(InsertNode(r, h, from), h, to) == r;
    var kf, kt := h(from), h(to);
    assert r[kf].(outgoing := r[kf].outgoing + {kt}) == r[kf];
    assert r[kf := r[kf]] == r;
  }

  /**
   After removing a key it is gone from the table and from every adjacency set;
   every other entry keeps its payload and all of its other adjacency keys, and
   the edge relation loses exactly the edges that touch the key.
   */
  lemma RemoveSpec<T>(t: Table<T>, key: Key)
    ensures key !in Remove(t, key)
    ensures Remove(t, key).Keys == t.Keys - {key}
    ensures forall k :: k in Remove(t, key) ==>
      && key !in Remove(t, key)[k].incoming
      && key !in Remove(t, key)[k].outgoing
      && Remove(t, key)[k].data == t[k].data
      && Remove(t, key)[k].incoming == t[k].incoming - {key}
      && Remove(t, key)[k].outgoing == t[k].outgoing - {key}
    ensures Edges(Remove(t, key)) == set e | e in Edges(t) && e.0 != key && e.1 != key
  {
    var r := Remove(t, key);
    forall e | e in Edges(r) ensures e in Edges(t) && e.0 != key && e.1 != key {
      var (a, b) := e;
      assert a in r && b in r[a].outgoing;
    }
    forall e | e in Edges(t) && e.0 != key && e.1 != key ensures e in Edges(r) {
      var (a, b) := e;
      assert a in t && b in t[a].outgoing;
      assert a in r && b in r[a].outgoing;
    }
  }

  /** Removing a key keeps a table valid. */
  lemma RemovePreservesValid<T>(t: Table<T>, h: T -> Key, key: Key)
    requires ValidTable(t, h)
    ensures ValidTable(Remove(t, key), h)
  {
    var r := Remove(t, key);
    forall a, b | a in r && b in r
      ensures b in r[a].outgoing <==> a in r[b].incoming
    {
      assert b in t[a].outgoing <==> a in t[b].incoming;
    }
  }

  /** Removing a key that is absent from a valid table leaves it unchanged. */
  lemma RemoveAbsent<T>(t: Table<T>, h: T -> Key, key: Key)
    requires ValidTable(t, h) && key !in t
    ensures Remove(t, key) == t
  {
    var r := Remove(t, key);
    forall k | k in t ensures r[k] == t[k] {
      assert key !in t[k].incoming && key !in t[k].outgoing;
      assert t[k].incoming - {key} == t[k].incoming;
      assert t[k].outgoing - {key} == t[k].outgoing;
    }
  }

  /** In a valid table a node is a root exactly when no edge leaves it. */
  lemma RootsHaveNoEdges<T>(t: Table<T>, h: T -> Key, k: Key)
    requires ValidTable(t, h)
    ensures k in RootKeys(t) <==> k in t && forall b :: (k, b) !in Edges(t)
    ensures k in RootKeys(t) <==> k in t && forall a :: a in t ==> k !in t[a].incoming
  {
    if k in t && t[k].outgoing != {} {
      var b :| b in t[k].outgoing;
      EdgesMember(t, k, b);
      assert k in t[b].incoming;
    }
    if k in t && t[k].outgoing == {} {
      forall b ensures (k, b) !in Edges(t) {
        EdgesMember(t, k, b);
      }
    }
  }

  /**
   With edges A -> B and B -> C only C has no outgoing edge; closing the
   cycle with C -> A leaves no root at all.
   */
  lemma RootsOfChain()
    ensures var id := (s: string) => s;
      var g := AddEdge(AddEdge(map[], id, "A", "B"), id, "B", "C");
      RootKeys(g) == {"C"} && RootKeys(AddEdge(g, id, "C", "A")) == {}
  {
    var id := (s: string) => s;
    var g1 := AddEdge(map[], id, "A", "B");
    var g := AddEdge(g1, id, "B", "C");
    assert g.Keys == {"A", "B", "C"};
    assert "B" in g["A"].outgoing && "C" in g["B"].outgoing && g["C"].outgoing == {};
    assert RootKeys(g) == {"C"};
    var g' := AddEdge(g, id, "C", "A");
    assert g'.Keys == {"A", "B", "C"};
    assert "B" in g'["A"].outgoing && "C" in g'["B"].outgoing && "A" in g'["C"].outgoing;
  }

  // ---------------------------------------------------------------------------
  // The graph object

  class Graph<T> {
    const hashFn: T -> Key
    var nodes: Table<T>

    ghost predicate Valid()
      reads this
    {
      ValidTable(nodes, hashFn)
    }

    /** A graph with no nodes. */
    constructor (hashFn: T -> Key)
      ensures this.hashFn == hashFn && nodes == map[] && Valid()
    {
      this.hashFn := hashFn;
      nodes := map[];
    }

    /** The node stored under the key of `data`, if any; never inserts. */
    function Lookup(data: T): (r: Option<Node<T>>)
      reads this
      ensures r.Some? <==> hashFn(data) in nodes
      ensures r.Some? ==> r.value == nodes[hashFn(data)]
      ensures Valid() && r.Some? ==> hashFn(r.value.data) == hashFn(data)
    {
      if hashFn(data) in nodes then Some(nodes[hashFn(data)]) else None
    }

    /** True exactly when the graph has no node. */
    method IsEmpty() returns (b: bool)
      ensures b <==> forall k :: k !in nodes
    {
      if k :| k in nodes {
        return false;
      }
      return true;
    }

    /**
     The node stored under the key of `data`, inserting a fresh node holding
     `data` when the key is absent. The first payload inserted under a key wins.
     */
    method LookupOrInsertNode(data: T) returns (node: Node<T>)
      requires Valid()
      modifies this
      ensures Valid()
      ensures nodes == InsertNode(old(nodes), hashFn, data)
      ensures hashFn(data) in nodes && node == nodes[hashFn(data)]
      ensures hashFn(data) in old(nodes) ==> nodes == old(nodes) && node == old(nodes)[hashFn(data)]
      ensures hashFn(data) !in old(nodes) ==> node == Node(data, {}, {})
    {
      InsertNodeSpec(nodes, hashFn, data);
      var key := hashFn(data);
      if key !in nodes {
        node := NewNode(data);
        nodes := nodes[key := node];
      } else {
        node := nodes[key];
      }
    }

    /** Records the edge from -> to in both directions, creating the endpoints as needed. */
    method InsertEdge(from: T, to: T)
      requires Valid()
      modifies this
      ensures Valid()
      ensures nodes == AddEdge(old(nodes), hashFn, from, to)
    {
      AddEdgePreservesValid(nodes, hashFn, from, to);
      var fromNode := LookupOrInsertNode(from);
      var toNode := LookupOrInsertNode(to);
      var kf, kt := hashFn(from), hashFn(to);
      nodes := nodes[kf := nodes[kf].(outgoing := nodes[kf].outgoing + {kt})];
      nodes := nodes[kt := nodes[kt].(incoming := nodes[kt].incoming + {kf})];
    }

    /**
     Deletes the node stored under the key of `data`, then sweeps every
     remaining node and drops that key from both of its adjacency sets.
     */
    method RemoveNode(data: T)
      requires Valid()
      modifies this
      ensures Valid()
      ensures nodes == Remove(old(nodes), hashFn(data))
      ensures Lookup(data) == None
    {
      RemovePreservesValid(nodes, hashFn, hashFn(data));
      var key := hashFn(data);
      nodes := map k | k in nodes && k != key :: nodes[k];
      var todo := nodes.Keys;
      while todo != {}
        invariant todo <= nodes.Keys
        invariant nodes.Keys == old(nodes).Keys - {key}
        invariant forall k :: k in nodes ==>
          nodes[k] == if k in todo then old(nodes)[k] else Purge(old(nodes)[k], key)
        decreases todo
      {
        var k :| k in todo;
        nodes := nodes[k := nodes[k].(outgoing := nodes[k].outgoing - {key})];
        nodes := nodes[k := nodes[k].(incoming := nodes[k].incoming - {key})];
        todo := todo - {k};
      }
    }

    /**
     Every stored node whose outgoing set is empty, each exactly once, in
     the order the table is visited; `keys` names the entry each came from.
     */
    method Roots() returns (r: seq<Node<T>>, ghost keys: seq<Key>)
      ensures |keys| == |r|
      ensures forall i :: 0 <= i < |keys| ==> keys[i] in nodes && r[i] == nodes[keys[i]]
      ensures forall i, j :: 0 <= i < j < |keys| ==> keys[i] != keys[j]
      ensures forall k :: k in keys <==> k in RootKeys(nodes)
      ensures Valid() ==> forall i, j :: 0 <= i < j < |r| ==> r[i] != r[j]
    {
      r, keys := [], [];
      var todo := nodes.Keys;
      while todo != {}
        invariant todo <= nodes.Keys
        invariant |keys| == |r|
        invariant forall i :: 0 <= i < |keys| ==> keys[i] in nodes && keys[i] !in todo && r[i] == nodes[keys[i]]
        invariant forall i, j :: 0 <= i < j < |keys| ==> keys[i] != keys[j]
        invariant forall k :: k in keys <==> k in RootKeys(nodes) && k !in todo
        decreases todo
      {
        var k :| k in todo;
        if nodes[k].outgoing == {} {
          r, keys := r + [nodes[k]], keys + [k];
        }
        todo := todo - {k};
      }
      if Valid() {
        forall i, j | 0 <= i < j < |r| ensures r[i] != r[j] {
          assert hashFn(r[i].data) == keys[i] && hashFn(r[j].data) == keys[j];
        }
      }
    }
  }
}
