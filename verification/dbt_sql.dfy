/** `parseDbtSql`: an SQL file is a dbt model named after the file, and every
    `ref('…')` in it is an upstream model with an edge into this one. */
module DbtSql {
  import opened JsText
  import opened Identity
  import opened Matchers
  import opened Pipeline

  // ---------------------------------------------------------------------------
  // path.basename(file, '.sql') on POSIX paths
  // ---------------------------------------------------------------------------

  /** The path without its trailing `/` characters. */
  function StripTrailingSlashes(p: string): (r: string)
    ensures |r| <= |p| && r == p[..|r|]
    ensures |r| == 0 || r[|r| - 1] != '/'
    ensures forall k | |r| <= k < |p| :: p[k] == '/'
    decreases |p|
  {
    if |p| > 0 && p[|p| - 1] == '/' then StripTrailingSlashes(p[..|p| - 1]) else p
  }

  /** What follows the last `/` of `p` (all of `p` when it has none). */
  function LastComponent(p: string): (c: string)
    ensures |c| <= |p| && c == p[|p| - |c|..]
    ensures forall k | 0 <= k < |c| :: c[k] != '/'
    ensures |c| < |p| ==> p[|p| - |c| - 1] == '/'
    decreases |p|
  {
    if |p| == 0 || p[|p| - 1] == '/' then [] else LastComponent(p[..|p| - 1]) + [p[|p| - 1]]
  }

  /** `path.basename(p, suffix)` with Node's POSIX rules: the last component,
      ignoring trailing slashes, without `suffix` when it ends with `suffix`
      and is longer than it; a path equal to `suffix` gives the empty string. */
  function Basename(p: string, suffix: string): string
  {
    if p == suffix then ""
    else
      var c := LastComponent(StripTrailingSlashes(p));
      if |suffix| > 0 && |suffix| < |c| && c[|c| - |suffix|..] == suffix then c[..|c| - |suffix|] else c
  }

  /** The model name of an SQL file: `path.basename(file, '.sql')`. */
  function ModelName(file: string): string
  {
    Basename(file, ".sql")
  }

  /** The model name of `dir/name.sql` is `name`, for a non-empty `name`
      without `/`; for a bare `name.sql` the name may also be empty. */
  lemma ModelNameOfPath(dir: string, name: string)
    requires forall k | 0 <= k < |name| :: name[k] != '/'
    requires |dir| > 0 ==> dir[|dir| - 1] == '/' && |name| > 0
    ensures ModelName(dir + name + ".sql") == name
  {
    var base := name + ".sql";
    var p := dir + base;
    assert dir + name + ".sql" == p;
    if |name| > 0 {
      SqlFileComponent(dir, name);
      assert p != ".sql" by {
        assert |p| > 4;
      }
      assert base[|base| - 4..] == ".sql";
      assert base[..|base| - 4] == name;
    } else {
      assert p == ".sql";
    }
  }

  /** The last component of `dir/name.sql`, trailing slashes aside, is
      `name.sql`. */
  lemma SqlFileComponent(dir: string, name: string)
    requires forall k | 0 <= k < |name| :: name[k] != '/'
    requires |dir| > 0 ==> dir[|dir| - 1] == '/'
    ensures LastComponent(StripTrailingSlashes(dir + (name + ".sql"))) == name + ".sql"
  {
    var base := name + ".sql";
    var p := dir + base;
    forall k | 0 <= k < |base|
      ensures base[k] != '/'
    {
      if k < |name| {
        assert base[k] == name[k];
      }
    }
    assert p[|p| - 1] == 'l';
    assert StripTrailingSlashes(p) == p;
    LastComponentOf(dir, base);
  }

  /** The last component of `dir + base`, for a `base` without `/` that
      follows a `/` or starts the path. */
  lemma {:induction false} LastComponentOf(dir: string, base: string)
    requires forall k | 0 <= k < |base| :: base[k] != '/'
    requires |dir| > 0 ==> dir[|dir| - 1] == '/'
    ensures LastComponent(dir + base) == base
    decreases |base|
  {
    var p := dir + base;
    if |base| == 0 {
      assert p == dir;
    } else {
      var pre := base[..|base| - 1];
      var last := base[|base| - 1];
      assert p[..|p| - 1] == dir + pre;
      assert p[|p| - 1] == last != '/';
      LastComponentOf(dir, pre);
      assert LastComponent(p) == LastComponent(dir + pre) + [last];
      assert base == pre + [last];
    }
  }

  /** The model name of a path contains no `/`. */
  lemma ModelNameHasNoSlash(file: string)
    ensures forall k | 0 <= k < |ModelName(file)| :: ModelName(file)[k] != '/'
  {
  }

  // ---------------------------------------------------------------------------
  // The parser
  // ---------------------------------------------------------------------------

  /** `parseDbtSql(content, file, nodes, edges, mapping)`: the model's own
      node, mapped to line 1, then one dependency per `ref` match. The target
      of a `ref` is hashed with the path of the file that mentions it, so it
      does not share an id with the node of the target's own file. */
  function ParseDbtSql(content: string, file: string, g: Graph): Graph
  {
    var model := ModelName(file);
    AddDependencies(Register(g, file, model, 1), file, RefMatches(content), NodeId(file, model))
  }

  /** `parseDbtSql` pushes the model's node and then one node and one edge
      per `ref` match, in order: each target's node (hashed with this file's
      path) and an edge from it to the model. */
  lemma ParseDbtSqlShape(content: string, file: string, g: Graph)
    ensures var r := ParseDbtSql(content, file, g);
            var refs := RefMatches(content);
            var model := ModelName(file);
            && r.nodes == g.nodes + [Node(NodeId(file, model), model)] + NamedNodes(file, refs)
            && r.edges == g.edges + DepEdges(file, refs, NodeId(file, model))
  {
    var model := ModelName(file);
    AddDependenciesClosedForm(Register(g, file, model, 1), file, RefMatches(content), NodeId(file, model));
  }

  /** With `r` the number of `ref` matches: `1 + r` nodes and `r` edges are
      added, the first node is the model itself, and every edge ends at the
      model's id and starts at the id of the `ref` target at its position. */
  lemma ParseDbtSqlCounts(content: string, file: string, g: Graph, k: nat)
    ensures var r := ParseDbtSql(content, file, g);
            var refs := RefMatches(content);
            && |r.nodes| == |g.nodes| + 1 + |refs|
            && |r.edges| == |g.edges| + |refs|
            && r.nodes[|g.nodes|] == Node(NodeId(file, ModelName(file)), ModelName(file))
            && (k < |refs| ==> r.nodes[|g.nodes| + 1 + k] == Node(NodeId(file, refs[k]), refs[k]))
            && (k < |refs| ==> r.edges[|g.edges| + k] == Edge(NodeId(file, refs[k]), NodeId(file, ModelName(file))))
  {
    var refs := RefMatches(content);
    var model := ModelName(file);
    var mid := NodeId(file, model);
    var r := ParseDbtSql(content, file, g);
    ParseDbtSqlShape(content, file, g);
    var pre := g.nodes + [Node(mid, model)];
    var ns := NamedNodes(file, refs);
    var es := DepEdges(file, refs, mid);
    assert r.nodes == pre + ns;
    assert r.edges == g.edges + es;
    assert r.nodes[|g.nodes|] == pre[|g.nodes|];
    if k < |refs| {
      DepAt(file, refs, mid, k);
      assert r.nodes[|pre| + k] == ns[k];
      assert r.edges[|g.edges| + k] == es[k];
    }
  }

  /** Every edge `parseDbtSql` adds ends at the model's id. */
  lemma ParseDbtSqlEdgesEndAtModel(content: string, file: string, g: Graph)
    ensures var r := ParseDbtSql(content, file, g);
            forall k | |g.edges| <= k < |r.edges| :: r.edges[k].to == NodeId(file, ModelName(file))
  {
    var r := ParseDbtSql(content, file, g);
    forall k | |g.edges| <= k < |r.edges|
      ensures r.edges[k].to == NodeId(file, ModelName(file))
    {
      ParseDbtSqlCounts(content, file, g, k - |g.edges|);
    }
  }

  /** `parseDbtSql` keeps the parser guarantees, and every mapping entry it
      writes is line 1 of `file`: the model's and every target's. */
  lemma ParseDbtSqlAppends(content: string, file: string, g: Graph)
    ensures var r := ParseDbtSql(content, file, g);
            && Appends(g, r, file, 1, 1)
            && NodeId(file, ModelName(file)) in r.mapping
            && r.mapping[NodeId(file, ModelName(file))] == Location(file, 1)
  {
    var model := ModelName(file);
    var id := NodeId(file, model);
    var g1 := Register(g, file, model, 1);
    RegisterAppends(g, file, model, 1);
    AddDependenciesAppends(g1, file, RefMatches(content), id);
    var r := ParseDbtSql(content, file, g);
    AppendsTrans(g, g1, r, file, 1, 1);
  }

  /** Every target's id is mapped to line 1 of the referencing file. */
  lemma ParseDbtSqlTargetsMapped(content: string, file: string, g: Graph, k: nat)
    requires k < |RefMatches(content)|
    ensures var r := ParseDbtSql(content, file, g);
            var id := NodeId(file, RefMatches(content)[k]);
            id in r.mapping && r.mapping[id] == Location(file, 1)
  {
    var model := ModelName(file);
    AddDependenciesAppends(Register(g, file, model, 1), file, RefMatches(content), NodeId(file, model));
  }
}
