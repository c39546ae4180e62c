/** `scanWorkspaceForPipelines` without its I/O: which Python files are
    parsed, the order in which the parsers append into the shared
    collections, and the final de-duplication of nodes through a JavaScript
    `Map`. */
module Scanner {
  import opened Wrappers
  import opened JsText
  import opened Identity
  import opened Pipeline
  import opened Airflow
  import opened Prefect
  import opened DbtSql
  import opened YamlParsers

  /** What the scan finds on disk: the results of the four `glob` calls, in
      the order they are returned, and the text `fs.readFile` yields for
      each file it can read. A file without an entry fails to read. */
  datatype Workspace = Workspace(
    dagPy: seq<string>,
    pyFiles: seq<string>,
    sqlFiles: seq<string>,
    ymlFiles: seq<string>,
    contents: map<string, string>)

  // ---------------------------------------------------------------------------
  // The Python queue: a Set filled with the `_dag.py` files, then with every
  // `.py` file whose content passes the filter
  // ---------------------------------------------------------------------------

  /** The content test of a `.py` file. */
  predicate IsPipelineSource(c: string)
  {
    Contains(c, "DAG(") || Contains(c, "airflow") || Contains(c, "@task")
  }

  /** `set.add(x)` for each `x` of `xs` in turn, on a `Set` kept as its
      insertion order: an element already present keeps its place. */
  function AddAll(s: seq<string>, xs: seq<string>): seq<string>
    decreases |xs|
  {
    if |xs| == 0 then s else AddAll(if xs[0] in s then s else s + [xs[0]], xs[1..])
  }

  ghost predicate Distinct(s: seq<string>)
  {
    forall i, j | 0 <= i < j < |s| :: s[i] != s[j]
  }

  /** Adding an element not yet present keeps the elements distinct. */
  lemma DistinctPush(s: seq<string>, x: string)
    requires Distinct(s) && x !in s
    ensures Distinct(s + [x])
  {
  }

  /** Adding keeps the elements distinct and in place, and adds exactly the
      new ones. */
  lemma {:induction false} AddAllSet(s: seq<string>, xs: seq<string>)
    requires Distinct(s)
    ensures Distinct(AddAll(s, xs))
    ensures s <= AddAll(s, xs)
    ensures forall x :: x in AddAll(s, xs) <==> x in s || x in xs
    decreases |xs|
  {
    if |xs| > 0 {
      var x0 := xs[0];
      var s1 := if x0 in s then s else s + [x0];
      if x0 !in s {
        DistinctPush(s, x0);
      }
      assert forall x :: x in s1 <==> x in s || x == x0;
      AddAllSet(s1, xs[1..]);
      assert xs == [x0] + xs[1..];
      assert forall x :: x in xs <==> x == x0 || x in xs[1..];
    }
  }

  /** The `.py` files that can be read and pass the content test, in order. */
  function Candidates(fs: seq<string>, contents: map<string, string>): (cs: seq<string>)
    ensures forall f :: f in cs <==> f in fs && f in contents && IsPipelineSource(contents[f])
    decreases |fs|
  {
    if |fs| == 0 then []
    else
      (if fs[0] in contents && IsPipelineSource(contents[fs[0]]) then [fs[0]] else [])
      + Candidates(fs[1..], contents)
  }

  /** `toParsePy` in iteration order. */
  function PythonQueue(ws: Workspace): seq<string>
  {
    AddAll(AddAll([], ws.dagPy), Candidates(ws.pyFiles, ws.contents))
  }

  /** Each Python file is parsed at most once; the `_dag.py` files come
      first, and the other files parsed are exactly the readable `.py` files
      that mention `DAG(`, `airflow` or `@task`. */
  lemma PythonQueueMembers(ws: Workspace)
    ensures Distinct(PythonQueue(ws))
    ensures AddAll([], ws.dagPy) <= PythonQueue(ws)
    ensures forall f :: f in PythonQueue(ws) <==>
              || f in ws.dagPy
              || (f in ws.pyFiles && f in ws.contents && IsPipelineSource(ws.contents[f]))
  {
    AddAllSet([], ws.dagPy);
    AddAllSet(AddAll([], ws.dagPy), Candidates(ws.pyFiles, ws.contents));
  }

  // ---------------------------------------------------------------------------
  // The parser runs
  // ---------------------------------------------------------------------------

  /** The Python loop: each readable file through `parseAirflowPython` and
      then `parsePrefect`. */
  function PythonFrom(fs: seq<string>, contents: map<string, string>, g: Graph): Graph
    decreases |fs|
  {
    if |fs| == 0 then g
    else
      var g1 := if fs[0] in contents
                then ParsePrefect(contents[fs[0]], fs[0], ParseAirflowPython(contents[fs[0]], fs[0], g))
                else g;
      PythonFrom(fs[1..], contents, g1)
  }

  /** The SQL loop: each readable file through `parseDbtSql`. */
  function SqlFrom(fs: seq<string>, contents: map<string, string>, g: Graph): Graph
    decreases |fs|
  {
    if |fs| == 0 then g
    else
      var g1 := if fs[0] in contents then ParseDbtSql(contents[fs[0]], fs[0], g) else g;
      SqlFrom(fs[1..], contents, g1)
  }

  /** The YAML loop: each readable file through `parseYamlForDbt` and then
      `parseGithubActions`, both on what `load` makes of its content. */
  function YmlFrom(fs: seq<string>, contents: map<string, string>, load: string -> Load, g: Graph): Graph
    decreases |fs|
  {
    if |fs| == 0 then g
    else
      var g1 := if fs[0] in contents
                then var l := load(contents[fs[0]]);
                     ParseGithubActions(l, fs[0], ParseYamlForDbt(l, fs[0], g))
                else g;
      YmlFrom(fs[1..], contents, load, g1)
  }

  /** The collections before de-duplication: Python, then SQL, then YAML. */
  function RawScan(ws: Workspace, load: string -> Load): Graph
  {
    YmlFrom(ws.ymlFiles, ws.contents, load, SqlFrom(ws.sqlFiles, ws.contents, PythonFrom(PythonQueue(ws), ws.contents, EmptyGraph)))
  }

  // ---------------------------------------------------------------------------
  // De-duplication through a Map
  // ---------------------------------------------------------------------------

  /** The index of the first node with this id. */
  function FirstIndex(ns: seq<Node>, id: string): (r: Option<nat>)
    ensures r.Some? ==> r.value < |ns| && ns[r.value].id == id
    ensures r.Some? ==> forall k | 0 <= k < r.value :: ns[k].id != id
    ensures r.None? <==> forall k | 0 <= k < |ns| :: ns[k].id != id
    decreases |ns|
  {
    if |ns| == 0 then None
    else match FirstIndex(ns[..|ns| - 1], id)
      case Some(i) => Some(i)
      case None => if ns[|ns| - 1].id == id then Some(|ns| - 1) else None
  }

  /** The last node with this id. */
  function LastWith(ns: seq<Node>, id: string): Option<Node>
    decreases |ns|
  {
    if |ns| == 0 then None
    else if ns[|ns| - 1].id == id then Some(ns[|ns| - 1])
    else LastWith(ns[..|ns| - 1], id)
  }

  /** `map.set(n.id, n)` on a `Map` kept as its entries in insertion order:
      an existing key keeps its place and takes the new value. */
  function MapSet(m: seq<Node>, n: Node): seq<Node>
  {
    match FirstIndex(m, n.id)
    case Some(i) => m[i := n]
    case None => m + [n]
  }

  /** `Array.from(uniq.values())` after `uniq.set(n.id, n)` for every node. */
  function Dedup(ns: seq<Node>): seq<Node>
    decreases |ns|
  {
    if |ns| == 0 then [] else MapSet(Dedup(ns[..|ns| - 1]), ns[|ns| - 1])
  }

  /** The ids of `r` are pairwise distinct. */
  ghost predicate DistinctIds(r: seq<Node>)
  {
    forall i, j | 0 <= i < j < |r| :: r[i].id != r[j].id
  }

  /** Every node of `r` is the last node of `ns` with its id. */
  ghost predicate LastOfEach(ns: seq<Node>, r: seq<Node>)
  {
    forall i | 0 <= i < |r| :: LastWith(ns, r[i].id) == Some(r[i])
  }

  /** The nodes of `r` are in the order of their ids' first occurrence in `ns`. */
  ghost predicate FirstOrder(ns: seq<Node>, r: seq<Node>)
  {
    && (forall i | 0 <= i < |r| :: FirstIndex(ns, r[i].id).Some?)
    && (forall i, j | 0 <= i < j < |r| :: FirstIndex(ns, r[i].id).value < FirstIndex(ns, r[j].id).value)
  }

  /** The de-duplicated list: ids pairwise distinct, each output node the
      last input node with its id, output order the order of first
      occurrence, the same set of ids, and no more nodes than the input. */
  ghost predicate DedupOf(ns: seq<Node>, r: seq<Node>)
  {
    && |r| <= |ns|
    && DistinctIds(r)
    && LastOfEach(ns, r)
    && FirstOrder(ns, r)
    && Ids(r) == Ids(ns)
  }

  lemma FirstIndexIds(ns: seq<Node>, id: string)
    ensures FirstIndex(ns, id).Some? <==> id in Ids(ns)
  {
    IdsMembership(ns, id);
  }

  /** A node of the prefix keeps its first index once another node is
      appended. */
  lemma FirstIndexPush(ns: seq<Node>, n: Node, id: string)
    requires FirstIndex(ns, id).Some?
    ensures FirstIndex(ns + [n], id) == FirstIndex(ns, id)
  {
    assert (ns + [n])[..|ns|] == ns;
  }

  lemma LastWithPush(ns: seq<Node>, n: Node, id: string)
    ensures LastWith(ns + [n], id) == if n.id == id then Some(n) else LastWith(ns, id)
  {
    assert (ns + [n])[..|ns|] == ns;
  }

  /** Appending a node keeps the first-occurrence order of a list whose ids
      all occur before it. */
  lemma FirstOrderPush(ns: seq<Node>, m: seq<Node>, n: Node)
    requires FirstOrder(ns, m)
    ensures FirstOrder(ns + [n], m)
  {
    forall k | 0 <= k < |m|
      ensures FirstIndex(ns + [n], m[k].id) == FirstIndex(ns, m[k].id)
    {
      FirstIndexPush(ns, n, m[k].id);
    }
  }

  /** Setting a key already present replaces its value in place. */
  lemma MapSetPresent(ns: seq<Node>, m: seq<Node>, n: Node, i: nat)
    requires DedupOf(ns, m) && i < |m| && m[i].id == n.id
    ensures DedupOf(ns + [n], m[i := n])
  {
    var r := m[i := n];
    assert forall k | 0 <= k < |r| :: r[k].id == m[k].id;
    assert DistinctIds(r);
    LastOfEachReplace(ns, m, n, i);
    FirstOrderReplace(ns, m, n, i);
    IdsPush(ns, n);
    IdsMembership(ns, n.id);
    assert ns[FirstIndex(ns, n.id).value].id == n.id;
    ReplaceKeepsIds(m, i, n);
  }

  lemma LastOfEachReplace(ns: seq<Node>, m: seq<Node>, n: Node, i: nat)
    requires LastOfEach(ns, m) && DistinctIds(m) && i < |m| && m[i].id == n.id
    ensures LastOfEach(ns + [n], m[i := n])
  {
    var r := m[i := n];
    forall k | 0 <= k < |r|
      ensures LastWith(ns + [n], r[k].id) == Some(r[k])
    {
      LastWithPush(ns, n, r[k].id);
    }
  }

  lemma FirstOrderReplace(ns: seq<Node>, m: seq<Node>, n: Node, i: nat)
    requires FirstOrder(ns, m) && i < |m| && m[i].id == n.id
    ensures FirstOrder(ns + [n], m[i := n])
  {
    var r := m[i := n];
    assert forall k | 0 <= k < |r| :: r[k].id == m[k].id;
    FirstOrderPush(ns, m, n);
  }

  /** Replacing a node by one with the same id keeps the set of ids. */
  lemma ReplaceKeepsIds(m: seq<Node>, i: nat, n: Node)
    requires i < |m| && m[i].id == n.id
    ensures Ids(m[i := n]) == Ids(m)
  {
    forall id
      ensures id in Ids(m[i := n]) <==> id in Ids(m)
    {
      IdsMembership(m, id);
      IdsMembership(m[i := n], id);
      if id in Ids(m) {
        var k :| 0 <= k < |m| && m[k].id == id;
        assert m[i := n][k].id == id;
      }
    }
  }

  /** Setting a new key appends it, with the largest first index. */
  lemma MapSetAbsent(ns: seq<Node>, m: seq<Node>, n: Node)
    requires DedupOf(ns, m) && forall k | 0 <= k < |m| :: m[k].id != n.id
    ensures DedupOf(ns + [n], m + [n])
  {
    IdsMembership(m, n.id);
    FirstIndexIds(ns, n.id);
    FirstOrderAppend(ns, m, n);
    LastOfEachAppend(ns, m, n);
    assert DistinctIds(m + [n]);
    IdsPush(ns, n);
    IdsPush(m, n);
  }

  lemma FirstOrderAppend(ns: seq<Node>, m: seq<Node>, n: Node)
    requires FirstOrder(ns, m) && FirstIndex(ns, n.id).None?
    ensures FirstOrder(ns + [n], m + [n])
  {
    var ns' := ns + [n];
    var r := m + [n];
    assert ns'[..|ns|] == ns;
    assert FirstIndex(ns', n.id) == Some(|ns|);
    forall i | 0 <= i < |r|
      ensures FirstIndex(ns', r[i].id).Some?
    {
      if i < |m| {
        assert r[i] == m[i];
        FirstIndexPush(ns, n, m[i].id);
      }
    }
    forall i, j | 0 <= i < j < |r|
      ensures FirstIndex(ns', r[i].id).value < FirstIndex(ns', r[j].id).value
    {
      assert r[i] == m[i];
      FirstIndexPush(ns, n, m[i].id);
      if j < |m| {
        assert r[j] == m[j];
        FirstIndexPush(ns, n, m[j].id);
      }
    }
  }

  lemma LastOfEachAppend(ns: seq<Node>, m: seq<Node>, n: Node)
    requires LastOfEach(ns, m) && forall k | 0 <= k < |m| :: m[k].id != n.id
    ensures LastOfEach(ns + [n], m + [n])
  {
    var r := m + [n];
    forall k | 0 <= k < |r|
      ensures LastWith(ns + [n], r[k].id) == Some(r[k])
    {
      LastWithPush(ns, n, r[k].id);
    }
  }

  /** One more `uniq.set(n.id, n)` keeps the specification: the dedup of
      `ns` is that of its prefix with the last node set into it. */
  lemma DedupStep(ns: seq<Node>)
    requires |ns| > 0
    requires DedupOf(ns[..|ns| - 1], Dedup(ns[..|ns| - 1]))
    ensures DedupOf(ns, Dedup(ns))
  {
    var pre, n := ns[..|ns| - 1], ns[|ns| - 1];
    var m := Dedup(pre);
    SplitLast(ns);
    assert Dedup(ns) == MapSet(m, n);
    match FirstIndex(m, n.id)
    case Some(i) =>
      MapSetPresent(pre, m, n, i);
    case None =>
      MapSetAbsent(pre, m, n);
  }

  /** `new Map(nodes.map(n => [n.id, n])).values()` is the dedup of the
      raw nodes. */
  lemma {:induction false} DedupCorrect(ns: seq<Node>)
    ensures DedupOf(ns, Dedup(ns))
    decreases |ns|
  {
    if |ns| > 0 {
      DedupCorrect(ns[..|ns| - 1]);
      DedupStep(ns);
    }
  }


  /** `scanWorkspaceForPipelines(rootPath)`, given what the disk holds and
      what `yaml.load` makes of each text: the de-duplicated nodes, and the
      edges and the mapping as the parsers left them. */
  function Scan(ws: Workspace, load: string -> Load): Graph
  {
    var raw := RawScan(ws, load);
    Graph(Dedup(raw.nodes), raw.edges, raw.mapping)
  }

  // ---------------------------------------------------------------------------
  // What the scan guarantees
  // ---------------------------------------------------------------------------

  /** Every node id is the hash of a readable file and the node's label,
      every mapping entry points at a line of a readable file, and every edge
      endpoint and mapped id is the id of a node. */
  ghost predicate Sound(g: Graph, files: set<string>)
  {
    && Closed(g)
    && (forall id | id in g.mapping :: g.mapping[id].file in files && g.mapping[id].line >= 1)
    && (forall k | 0 <= k < |g.nodes| :: HashedIn(g.nodes[k], files))
  }

  /** The node's id is the hash of one of `files` and its label. */
  ghost predicate HashedIn(n: Node, files: set<string>)
  {
    exists f | f in files :: n.id == NodeId(f, n.name)
  }

  lemma SoundStep(g: Graph, r: Graph, file: string, lo: int, hi: int, files: set<string>)
    requires Sound(g, files) && Appends(g, r, file, lo, hi) && lo >= 1 && file in files
    ensures Sound(r, files)
  {
    forall k | 0 <= k < |r.nodes|
      ensures HashedIn(r.nodes[k], files)
    {
      if k < |g.nodes| {
        assert r.nodes[k] == g.nodes[k];
      } else {
        assert r.nodes[k].id == NodeId(file, r.nodes[k].name);
      }
    }
  }

  /** One Python file keeps the graph sound and only appends. */
  lemma PythonFileSound(c: string, f: string, g: Graph, files: set<string>)
    requires Sound(g, files) && f in files
    ensures var r := ParsePrefect(c, f, ParseAirflowPython(c, f, g));
            Sound(r, files) && g.nodes <= r.nodes && g.edges <= r.edges
  {
    var g0 := ParseAirflowPython(c, f, g);
    ParseAirflowPythonAppends(c, f, g);
    SoundStep(g, g0, f, 1, |SplitLines(c)|, files);
    ParsePrefectAppends(c, f, g0);
    SoundStep(g0, ParsePrefect(c, f, g0), f, 2, |SplitLines(c)|, files);
  }

  lemma {:induction false} PythonFromSound(fs: seq<string>, contents: map<string, string>, g: Graph)
    requires Sound(g, contents.Keys)
    ensures Sound(PythonFrom(fs, contents, g), contents.Keys)
    ensures g.nodes <= PythonFrom(fs, contents, g).nodes && g.edges <= PythonFrom(fs, contents, g).edges
    decreases |fs|
  {
    if |fs| > 0 {
      var f := fs[0];
      if f in contents {
        var c := contents[f];
        PythonFileSound(c, f, g, contents.Keys);
        PythonFromSound(fs[1..], contents, ParsePrefect(c, f, ParseAirflowPython(c, f, g)));
      } else {
        PythonFromSound(fs[1..], contents, g);
      }
    }
  }

  lemma {:induction false} SqlFromSound(fs: seq<string>, contents: map<string, string>, g: Graph)
    requires Sound(g, contents.Keys)
    ensures Sound(SqlFrom(fs, contents, g), contents.Keys)
    ensures g.nodes <= SqlFrom(fs, contents, g).nodes && g.edges <= SqlFrom(fs, contents, g).edges
    decreases |fs|
  {
    if |fs| > 0 {
      var f := fs[0];
      if f in contents {
        ParseDbtSqlAppends(contents[f], f, g);
        SoundStep(g, ParseDbtSql(contents[f], f, g), f, 1, 1, contents.Keys);
        SqlFromSound(fs[1..], contents, ParseDbtSql(contents[f], f, g));
      } else {
        SqlFromSound(fs[1..], contents, g);
      }
    }
  }

  /** One YAML file keeps the graph sound and only appends. */
  lemma YmlFileSound(c: string, f: string, load: string -> Load, g: Graph, files: set<string>)
    requires Sound(g, files) && f in files
    ensures var r := ParseGithubActions(load(c), f, ParseYamlForDbt(load(c), f, g));
            Sound(r, files) && g.nodes <= r.nodes && g.edges <= r.edges
  {
    var l := load(c);
    var g0 := ParseYamlForDbt(l, f, g);
    ParseYamlForDbtEffect(l, f, g);
    SoundStep(g, g0, f, 1, 1, files);
    ParseGithubActionsEffect(l, f, g0);
    SoundStep(g0, ParseGithubActions(l, f, g0), f, 1, 1, files);
  }

  lemma {:induction false} YmlFromSound(fs: seq<string>, contents: map<string, string>, load: string -> Load, g: Graph)
    requires Sound(g, contents.Keys)
    ensures Sound(YmlFrom(fs, contents, load, g), contents.Keys)
    ensures g.nodes <= YmlFrom(fs, contents, load, g).nodes && g.edges <= YmlFrom(fs, contents, load, g).edges
    decreases |fs|
  {
    if |fs| > 0 {
      var f := fs[0];
      if f in contents {
        var l := load(contents[f]);
        YmlFileSound(contents[f], f, load, g, contents.Keys);
        YmlFromSound(fs[1..], contents, load, ParseGithubActions(l, f, ParseYamlForDbt(l, f, g)));
      } else {
        YmlFromSound(fs[1..], contents, load, g);
      }
    }
  }

  /** Replacing the node list by its de-duplication keeps a graph sound. */
  lemma DedupSound(g: Graph, files: set<string>)
    requires Sound(g, files)
    ensures Sound(Graph(Dedup(g.nodes), g.edges, g.mapping), files)
  {
    var ds := Dedup(g.nodes);
    DedupCorrect(g.nodes);
    forall k | 0 <= k < |ds|
      ensures HashedIn(ds[k], files)
    {
      var j := LastWithIsNode(g.nodes, ds[k].id);
      assert g.nodes[j] == ds[k];
    }
  }

  /** The scan's result is sound: every edge endpoint and every mapped id is
      the id of an output node, every output node's id is the hash of a
      readable file and its label, and every mapping entry points at a line
      (from 1) of a readable file. The output nodes are the de-duplicated
      parser output. */
  lemma ScanSound(ws: Workspace, load: string -> Load)
    ensures Sound(Scan(ws, load), ws.contents.Keys)
    ensures DedupOf(RawScan(ws, load).nodes, Scan(ws, load).nodes)
  {
    var g0 := PythonFrom(PythonQueue(ws), ws.contents, EmptyGraph);
    var g1 := SqlFrom(ws.sqlFiles, ws.contents, g0);
    PythonFromSound(PythonQueue(ws), ws.contents, EmptyGraph);
    SqlFromSound(ws.sqlFiles, ws.contents, g0);
    YmlFromSound(ws.ymlFiles, ws.contents, load, g1);
    DedupSound(RawScan(ws, load), ws.contents.Keys);
    DedupCorrect(RawScan(ws, load).nodes);
  }

  /** The parsers run in order, each only appending: every node and edge
      from the Python files precedes those from the SQL files, which precede
      those from the YAML files; the scan returns the edges as the parsers
      left them. */
  lemma ScanOrder(ws: Workspace, load: string -> Load)
    ensures var py := PythonFrom(PythonQueue(ws), ws.contents, EmptyGraph);
            var sql := SqlFrom(ws.sqlFiles, ws.contents, py);
            var raw := RawScan(ws, load);
            && py.nodes <= sql.nodes <= raw.nodes
            && py.edges <= sql.edges <= raw.edges
            && Scan(ws, load).edges == raw.edges
  {
    var py := PythonFrom(PythonQueue(ws), ws.contents, EmptyGraph);
    var sql := SqlFrom(ws.sqlFiles, ws.contents, py);
    PythonFromSound(PythonQueue(ws), ws.contents, EmptyGraph);
    SqlFromSound(ws.sqlFiles, ws.contents, py);
    YmlFromSound(ws.ymlFiles, ws.contents, load, sql);
  }

  /** The last node with an id is one of the nodes. */
  lemma {:induction false} LastWithIsNode(ns: seq<Node>, id: string) returns (j: nat)
    requires LastWith(ns, id).Some?
    ensures j < |ns| && ns[j] == LastWith(ns, id).value && ns[j].id == id
    decreases |ns|
  {
    if ns[|ns| - 1].id == id {
      j := |ns| - 1;
    } else {
      j := LastWithIsNode(ns[..|ns| - 1], id);
    }
  }

  /** A workspace without files yields an empty graph. */
  lemma EmptyWorkspace(load: string -> Load)
    ensures Scan(Workspace([], [], [], [], map[]), load) == EmptyGraph
  {
  }
}
