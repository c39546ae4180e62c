/** The collections the parsers share: the node list (`ParsedNode[]`), the
    edge list (`ParsedEdge[]`) and the id-to-location record
    (`Record<string, MappingEntry>`), plus the guarantees every parser gives
    about how it extends them. */
module Pipeline {
  import opened Identity

  /** `ParsedNode`; `name` is the source's `label`, optional there but set by every parser. */
  datatype Node = Node(id: string, name: string)

  /** `ParsedEdge`: `from` must run before `to`. */
  datatype Edge = Edge(from: string, to: string)

  /** `MappingEntry`; every parser sets both fields. */
  datatype Location = Location(file: string, line: nat)

  /** The three output collections a scan threads through the parsers. */
  datatype Graph = Graph(nodes: seq<Node>, edges: seq<Edge>, mapping: map<string, Location>)

  const EmptyGraph: Graph := Graph([], [], map[])

  /** The ids of a node list. */
  function Ids(nodes: seq<Node>): set<string>
  {
    if |nodes| == 0 then {} else Ids(nodes[..|nodes| - 1]) + {nodes[|nodes| - 1].id}
  }

  lemma IdsPush(nodes: seq<Node>, n: Node)
    ensures Ids(nodes + [n]) == Ids(nodes) + {n.id}
  {
    assert (nodes + [n])[..|nodes|] == nodes;
  }

  /** An id is among the ids exactly when some node carries it. */
  lemma {:induction false} IdsMembership(nodes: seq<Node>, id: string)
    ensures id in Ids(nodes) <==> exists k | 0 <= k < |nodes| :: nodes[k].id == id
    decreases |nodes|
  {
    if |nodes| > 0 {
      var pre := nodes[..|nodes| - 1];
      IdsMembership(pre, id);
      if id in Ids(pre) {
        var k :| 0 <= k < |pre| && pre[k].id == id;
        assert nodes[k].id == id;
      }
      if exists k | 0 <= k < |nodes| :: nodes[k].id == id {
        var k :| 0 <= k < |nodes| && nodes[k].id == id;
        if k < |pre| {
          assert pre[k].id == id;
        }
      }
    }
  }

  function PushNode(g: Graph, n: Node): Graph
  {
    g.(nodes := g.nodes + [n])
  }

  function PushEdge(g: Graph, e: Edge): Graph
  {
    g.(edges := g.edges + [e])
  }

  /** `mapping[id] = loc`: the last write for an id wins. */
  function Locate(g: Graph, id: string, loc: Location): Graph
  {
    g.(mapping := g.mapping[id := loc])
  }

  /** Push the node for `name` of `file` and point the mapping at `line`:
      the sequence every parser runs for a node it discovers. */
  function Register(g: Graph, file: string, name: string, line: nat): Graph
  {
    var id := NodeId(file, name);
    Locate(PushNode(g, Node(id, name)), id, Location(file, line))
  }

  /** Every edge endpoint and every mapped id is the id of a node in the list. */
  ghost predicate Closed(g: Graph)
  {
    && (forall e | e in g.edges :: e.from in Ids(g.nodes) && e.to in Ids(g.nodes))
    && g.mapping.Keys <= Ids(g.nodes)
  }

  /** What a parser run on `file` does to the collections it is handed:
      nodes and edges are only appended; every appended node has the id
      `NodeId(file, name)`; mapping entries are only added or overwritten,
      and every entry added or changed points into `file` at a line in
      `[lo, hi]`; and a closed graph stays closed. */
  ghost predicate Appends(g: Graph, r: Graph, file: string, lo: int, hi: int)
  {
    && g.nodes <= r.nodes
    && g.edges <= r.edges
    && (forall k | |g.nodes| <= k < |r.nodes| :: r.nodes[k].id == NodeId(file, r.nodes[k].name))
    && g.mapping.Keys <= r.mapping.Keys
    && (forall id | id in r.mapping ::
          || (id in g.mapping && r.mapping[id] == g.mapping[id])
          || (r.mapping[id].file == file && lo <= r.mapping[id].line <= hi))
    && (Closed(g) ==> Closed(r))
  }

  lemma AppendsRefl(g: Graph, file: string, lo: int, hi: int)
    ensures Appends(g, g, file, lo, hi)
  {
  }

  lemma AppendsTrans(g1: Graph, g2: Graph, g3: Graph, file: string, lo: int, hi: int)
    requires Appends(g1, g2, file, lo, hi) && Appends(g2, g3, file, lo, hi)
    ensures Appends(g1, g3, file, lo, hi)
  {
    forall k | |g1.nodes| <= k < |g3.nodes|
      ensures g3.nodes[k].id == NodeId(file, g3.nodes[k].name)
    {
      if k < |g2.nodes| {
        assert g3.nodes[k] == g2.nodes[k];
      }
    }
  }

  lemma AppendsWiden(g: Graph, r: Graph, file: string, lo: int, hi: int, lo': int, hi': int)
    requires Appends(g, r, file, lo, hi) && lo' <= lo && hi <= hi'
    ensures Appends(g, r, file, lo', hi')
  {
  }

  lemma RegisterAppends(g: Graph, file: string, name: string, line: nat)
    ensures Appends(g, Register(g, file, name, line), file, line, line)
    ensures Ids(Register(g, file, name, line).nodes) == Ids(g.nodes) + {NodeId(file, name)}
  {
    IdsPush(g.nodes, Node(NodeId(file, name), name));
  }

  /** Pushing two nodes and the edge between them. */
  function Link(g: Graph, a: Node, b: Node): Graph
  {
    PushEdge(PushNode(PushNode(g, a), b), Edge(a.id, b.id))
  }

  lemma LinkAppends(g: Graph, file: string, a: Node, b: Node, lo: int, hi: int)
    requires a.id == NodeId(file, a.name) && b.id == NodeId(file, b.name)
    ensures Appends(g, Link(g, a, b), file, lo, hi)
  {
    var g1 := PushNode(g, a);
    var g2 := PushNode(g1, b);
    PushNodeAppends(g, file, a, lo, hi);
    PushNodeAppends(g1, file, b, lo, hi);
    PushEdgeAppends(g2, Edge(a.id, b.id), file, lo, hi);
    AppendsTrans(g, g1, g2, file, lo, hi);
    AppendsTrans(g, g2, Link(g, a, b), file, lo, hi);
  }

  lemma PushNodeAppends(g: Graph, file: string, n: Node, lo: int, hi: int)
    requires n.id == NodeId(file, n.name)
    ensures Appends(g, PushNode(g, n), file, lo, hi)
    ensures Ids(PushNode(g, n).nodes) == Ids(g.nodes) + {n.id}
  {
    IdsPush(g.nodes, n);
  }

  /** Adding an edge between two nodes already in the list. */
  lemma PushEdgeAppends(g: Graph, e: Edge, file: string, lo: int, hi: int)
    requires e.from in Ids(g.nodes) && e.to in Ids(g.nodes)
    ensures Appends(g, PushEdge(g, e), file, lo, hi)
  {
  }

  lemma SeqAssoc<T>(x: seq<T>, y: seq<T>, z: seq<T>)
    ensures (x + y) + z == x + (y + z)
  {
  }

  lemma SplitLast<T>(s: seq<T>)
    requires |s| > 0
    ensures s == s[..|s| - 1] + [s[|s| - 1]]
  {
  }

  lemma IndexLeft<T>(a: seq<T>, b: seq<T>, k: nat)
    requires k < |a|
    ensures (a + b)[k] == a[k]
  {
  }

  lemma IndexRight<T>(a: seq<T>, b: seq<T>, k: nat)
    requires |a| <= k < |a| + |b|
    ensures (a + b)[k] == b[k - |a|]
  {
  }

  lemma IndexTail<T>(s: seq<T>, i: nat)
    requires i + 1 < |s|
    ensures s[1..][i] == s[i + 1]
  {
  }

  /** The blocks written one after another. */
  function Flatten<T>(bs: seq<seq<T>>): seq<T>
    decreases |bs|
  {
    if |bs| == 0 then [] else bs[0] + Flatten(bs[1..])
  }

  lemma FlattenCons<T>(b: seq<T>, bs: seq<seq<T>>)
    ensures Flatten([b] + bs) == b + Flatten(bs)
  {
    assert ([b] + bs)[1..] == bs;
  }

  /** Every element of the flattened blocks is an element of one block: the
      block's index and the position within it are returned. */
  lemma {:induction false} FlattenIndex<T>(bs: seq<seq<T>>, k: nat) returns (t: nat, j: nat)
    requires k < |Flatten(bs)|
    ensures t < |bs| && j < |bs[t]|
    ensures Flatten(bs)[k] == bs[t][j]
    decreases |bs|
  {
    if k < |bs[0]| {
      IndexLeft(bs[0], Flatten(bs[1..]), k);
      t, j := 0, k;
    } else {
      IndexRight(bs[0], Flatten(bs[1..]), k);
      var t', j' := FlattenIndex(bs[1..], k - |bs[0]|);
      IndexTail(bs, t');
      t, j := t' + 1, j';
    }
  }

  // ---------------------------------------------------------------------------
  // Dependencies: a named upstream node and its edge into a known node
  // ---------------------------------------------------------------------------

  /** The step `parseDbtSql` runs for a `ref` target and `parseGithubActions`
      for a `needs` entry: push the node for `name`, map it to line 1 of
      `file`, and push the edge from it to the node `to`. */
  function AddDependency(g: Graph, file: string, name: string, to: string): Graph
  {
    PushEdge(Register(g, file, name, 1), Edge(NodeId(file, name), to))
  }

  /** The dependency steps for `names`, in order. */
  function AddDependencies(g: Graph, file: string, names: seq<string>, to: string): Graph
    decreases |names|
  {
    if |names| == 0 then g else AddDependencies(AddDependency(g, file, names[0], to), file, names[1..], to)
  }

  /** Reference definition: the node of each of `names`, in order. */
  function NamedNodes(file: string, names: seq<string>): (ns: seq<Node>)
    ensures |ns| == |names|
  {
    if |names| == 0 then [] else [Node(NodeId(file, names[0]), names[0])] + NamedNodes(file, names[1..])
  }

  /** Reference definition: the edges from the nodes of `names` to `to`. */
  function DepEdges(file: string, names: seq<string>, to: string): (es: seq<Edge>)
    ensures |es| == |names|
  {
    if |names| == 0 then [] else [Edge(NodeId(file, names[0]), to)] + DepEdges(file, names[1..], to)
  }

  /** The `k`-th dependency node belongs to the `k`-th name. */
  lemma {:induction false} NamedNodeAt(file: string, names: seq<string>, k: nat)
    requires k < |names|
    ensures NamedNodes(file, names)[k] == Node(NodeId(file, names[k]), names[k])
    decreases k
  {
    if k > 0 {
      NamedNodeAt(file, names[1..], k - 1);
      assert names[1..][k - 1] == names[k];
    }
  }

  /** The `k`-th dependency edge leaves the node of the `k`-th name. */
  lemma {:induction false} DepEdgeAt(file: string, names: seq<string>, to: string, k: nat)
    requires k < |names|
    ensures DepEdges(file, names, to)[k] == Edge(NodeId(file, names[k]), to)
    decreases k
  {
    if k > 0 {
      DepEdgeAt(file, names[1..], to, k - 1);
      assert names[1..][k - 1] == names[k];
    }
  }

  /** The `k`-th dependency node and edge belong to the `k`-th name. */
  lemma DepAt(file: string, names: seq<string>, to: string, k: nat)
    requires k < |names|
    ensures NamedNodes(file, names)[k] == Node(NodeId(file, names[k]), names[k])
    ensures DepEdges(file, names, to)[k] == Edge(NodeId(file, names[k]), to)
  {
    NamedNodeAt(file, names, k);
    DepEdgeAt(file, names, to, k);
  }

  /** The dependency steps append exactly one node per name and one edge
      from it to `to` per name, in the order of `names`. */
  lemma {:induction false} AddDependenciesClosedForm(g: Graph, file: string, names: seq<string>, to: string)
    ensures AddDependencies(g, file, names, to).nodes == g.nodes + NamedNodes(file, names)
    ensures AddDependencies(g, file, names, to).edges == g.edges + DepEdges(file, names, to)
    decreases |names|
  {
    if |names| == 0 {
      assert g.nodes + NamedNodes(file, names) == g.nodes;
      assert g.edges + DepEdges(file, names, to) == g.edges;
    } else {
      var g1 := AddDependency(g, file, names[0], to);
      AddDependenciesClosedForm(g1, file, names[1..], to);
      var n0 := Node(NodeId(file, names[0]), names[0]);
      var e0 := Edge(NodeId(file, names[0]), to);
      assert g1.nodes == g.nodes + [n0];
      assert g1.edges == g.edges + [e0];
      SeqAssoc(g.nodes, [n0], NamedNodes(file, names[1..]));
      SeqAssoc(g.edges, [e0], DepEdges(file, names[1..], to));
    }
  }

  /** With `to` already a node, the dependency steps keep the parser
      guarantees, mapping every id they write to line 1 of `file`; every
      name's id ends up mapped there. */
  lemma {:induction false} AddDependenciesAppends(g: Graph, file: string, names: seq<string>, to: string)
    requires to in Ids(g.nodes)
    ensures Appends(g, AddDependencies(g, file, names, to), file, 1, 1)
    ensures to in Ids(AddDependencies(g, file, names, to).nodes)
    ensures forall k | 0 <= k < |names| ::
              && NodeId(file, names[k]) in AddDependencies(g, file, names, to).mapping
              && AddDependencies(g, file, names, to).mapping[NodeId(file, names[k])] == Location(file, 1)
    decreases |names|
  {
    if |names| == 0 {
      AppendsRefl(g, file, 1, 1);
    } else {
      var g0 := Register(g, file, names[0], 1);
      var g1 := AddDependency(g, file, names[0], to);
      RegisterAppends(g, file, names[0], 1);
      PushEdgeAppends(g0, Edge(NodeId(file, names[0]), to), file, 1, 1);
      AppendsTrans(g, g0, g1, file, 1, 1);
      AddDependenciesAppends(g1, file, names[1..], to);
      var r := AddDependencies(g1, file, names[1..], to);
      AppendsTrans(g, g1, r, file, 1, 1);
      forall k | 0 <= k < |names|
        ensures NodeId(file, names[k]) in r.mapping && r.mapping[NodeId(file, names[k])] == Location(file, 1)
      {
        if k > 0 {
          assert names[1..][k - 1] == names[k];
        }
      }
    }
  }

  /** Register every one of `names` at line 1 of `file`, in order. */
  function RegisterAll(g: Graph, file: string, names: seq<string>): Graph
    decreases |names|
  {
    if |names| == 0 then g else RegisterAll(Register(g, file, names[0], 1), file, names[1..])
  }

  /** Registering names appends exactly their nodes, adds no edge, keeps the
      parser guarantees and maps every name's id to line 1 of `file`. */
  lemma {:induction false} RegisterAllEffect(g: Graph, file: string, names: seq<string>)
    ensures RegisterAll(g, file, names).nodes == g.nodes + NamedNodes(file, names)
    ensures RegisterAll(g, file, names).edges == g.edges
    ensures Appends(g, RegisterAll(g, file, names), file, 1, 1)
    ensures forall k | 0 <= k < |names| ::
              && NodeId(file, names[k]) in RegisterAll(g, file, names).mapping
              && RegisterAll(g, file, names).mapping[NodeId(file, names[k])] == Location(file, 1)
    decreases |names|
  {
    if |names| == 0 {
      AppendsRefl(g, file, 1, 1);
      assert g.nodes + NamedNodes(file, names) == g.nodes;
    } else {
      var g1 := Register(g, file, names[0], 1);
      RegisterAppends(g, file, names[0], 1);
      RegisterAllEffect(g1, file, names[1..]);
      var r := RegisterAll(g1, file, names[1..]);
      AppendsTrans(g, g1, r, file, 1, 1);
      SeqAssoc(g.nodes, [Node(NodeId(file, names[0]), names[0])], NamedNodes(file, names[1..]));
      forall k | 0 <= k < |names|
        ensures NodeId(file, names[k]) in r.mapping && r.mapping[NodeId(file, names[k])] == Location(file, 1)
      {
        if k > 0 {
          assert names[1..][k - 1] == names[k];
        }
      }
    }
  }
}
