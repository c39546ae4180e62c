/** `parseAirflowPython`, the line-based parser for Airflow DAG files: it
    records operator assignments and `>>` dependency chains. */
module Airflow {
  import opened Wrappers
  import opened JsText
  import opened Identity
  import opened Matchers
  import opened Pipeline

  // ---------------------------------------------------------------------------
  // The `vars` record of parseAirflowPython
  // ---------------------------------------------------------------------------

  /** Every recorded task variable maps to its own node id in `file`; the
      parser only ever stores `vars[name] = nodeId(file, name)`. */
  ghost predicate VarsSound(vars: map<string, string>, file: string)
  {
    forall x | x in vars :: vars[x] == NodeId(file, x)
  }

  /** `vars[a] ?? nodeId(file, a)` for a record holding only own string
      properties: the recorded id if there is one, the computed one
      otherwise. With a sound record both give the same id, so a chain
      endpoint gets the id its assignment would give it. */
  function ResolveVar(vars: map<string, string>, file: string, name: string): (id: string)
    ensures name in vars ==> id == vars[name]
    ensures VarsSound(vars, file) ==> id == NodeId(file, name)
  {
    if name in vars then vars[name] else NodeId(file, name)
  }

  // ---------------------------------------------------------------------------
  // Dependency chains: `a >> b >> c`
  // ---------------------------------------------------------------------------

  /** `l.split('>>').map(p => p.trim())`, each part reduced to the variable
      `extractVar` finds in it. */
  function ChainTokens(l: string): (toks: seq<Option<string>>)
    ensures |toks| == |SplitOn(l, ">>")| >= 1
  {
    var parts := SplitOn(l, ">>");
    seq(|parts|, k requires 0 <= k < |parts| => ExtractVar(Trim(parts[k])))
  }

  /** Reference definition of what a chain links: the pairs of neighbouring
      parts that both name a variable, left to right. */
  function Links(toks: seq<Option<string>>): (ls: seq<(string, string)>)
    ensures |toks| >= 1 ==> |ls| <= |toks| - 1
    ensures |toks| <= 1 ==> ls == []
    decreases |toks|
  {
    if |toks| < 2 then []
    else
      match (toks[0], toks[1])
      case (Some(a), Some(b)) => [(a, b)] + Links(toks[1..])
      case _ => Links(toks[1..])
  }

  /** `toks[j]` and `toks[j + 1]` both name a variable, `a` and `b`. */
  predicate NeighboursAt(toks: seq<Option<string>>, j: nat, a: string, b: string)
  {
    j + 1 < |toks| && toks[j] == Some(a) && toks[j + 1] == Some(b)
  }

  /** Every link joins two neighbouring parts, and every two neighbouring
      parts that both name a variable are linked. */
  lemma {:induction false} LinksExact(toks: seq<Option<string>>, a: string, b: string)
    ensures (a, b) in Links(toks) <==> exists j: nat :: NeighboursAt(toks, j, a, b)
    decreases |toks|
  {
    if |toks| >= 2 {
      var rest := Links(toks[1..]);
      LinksExact(toks[1..], a, b);
      if toks[0].Some? && toks[1].Some? {
        assert Links(toks) == [(toks[0].value, toks[1].value)] + rest;
      } else {
        assert Links(toks) == rest;
      }
      if toks[0] == Some(a) && toks[1] == Some(b) {
        assert NeighboursAt(toks, 0, a, b);
      }
      if exists j: nat :: NeighboursAt(toks[1..], j, a, b) {
        var j: nat :| NeighboursAt(toks[1..], j, a, b);
        assert NeighboursAt(toks, j + 1, a, b);
      }
      if exists j: nat :: NeighboursAt(toks, j, a, b) {
        var j: nat :| NeighboursAt(toks, j, a, b);
        if j > 0 {
          assert NeighboursAt(toks[1..], j - 1, a, b);
        }
      }
    } else {
      assert forall j: nat :: !NeighboursAt(toks, j, a, b);
    }
  }

  /** A chain whose every part names a variable links each part to the next. */
  lemma {:induction false} LinksOfFullChain(toks: seq<Option<string>>, ls: seq<(string, string)>)
    requires |toks| >= 1 && forall j | 0 <= j < |toks| :: toks[j].Some?
    requires ls == Links(toks)
    ensures |ls| == |toks| - 1
    ensures forall k | 0 <= k < |ls| :: ls[k].0 == toks[k].value && ls[k].1 == toks[k + 1].value
    decreases |toks|
  {
    if |toks| >= 2 {
      var rest := Links(toks[1..]);
      LinksOfFullChain(toks[1..], rest);
      assert ls == [(toks[0].value, toks[1].value)] + rest;
      forall k | 1 <= k < |ls|
        ensures ls[k].0 == toks[k].value && ls[k].1 == toks[k + 1].value
      {
        assert ls[k] == rest[k - 1];
        assert toks[1..][k - 1] == toks[k] && toks[1..][k] == toks[k + 1];
      }
    }
  }

  /** The node for one chain endpoint: `{ id: vars[a] ?? nodeId(file, a), label: a }`. */
  function ChainNode(vars: map<string, string>, file: string, name: string): Node
  {
    Node(ResolveVar(vars, file, name), name)
  }

  /** The edge a link pushes: `{ from: ida, to: idb }`. */
  function LinkEdge(vars: map<string, string>, file: string, l: (string, string)): Edge
  {
    Edge(ResolveVar(vars, file, l.0), ResolveVar(vars, file, l.1))
  }

  /** The edges of a list of links, one per link, in order. */
  function LinkEdges(vars: map<string, string>, file: string, ls: seq<(string, string)>): (es: seq<Edge>)
    ensures |es| == |ls|
    decreases |ls|
  {
    if |ls| == 0 then [] else [LinkEdge(vars, file, ls[0])] + LinkEdges(vars, file, ls[1..])
  }

  /** The `k`-th edge is the edge of the `k`-th link. */
  lemma {:induction false} LinkEdgesAt(vars: map<string, string>, file: string, ls: seq<(string, string)>, k: nat)
    requires k < |ls|
    ensures LinkEdges(vars, file, ls)[k] == LinkEdge(vars, file, ls[k])
    decreases |ls|
  {
    if k > 0 {
      LinkEdgesAt(vars, file, ls[1..], k - 1);
      assert ls[1..][k - 1] == ls[k];
    }
  }

  /** The nodes of a list of links: both endpoints of each link, in order. */
  function LinkNodes(vars: map<string, string>, file: string, ls: seq<(string, string)>): (ns: seq<Node>)
    ensures |ns| == 2 * |ls|
    decreases |ls|
  {
    if |ls| == 0 then []
    else [ChainNode(vars, file, ls[0].0), ChainNode(vars, file, ls[0].1)] + LinkNodes(vars, file, ls[1..])
  }

  /** Both endpoints of every link are among the nodes of the links. */
  lemma {:induction false} LinkNodesHaveEndpoints(vars: map<string, string>, file: string,
                                                  ls: seq<(string, string)>, k: nat)
    requires k < |ls|
    ensures ChainNode(vars, file, ls[k].0) in LinkNodes(vars, file, ls)
    ensures ChainNode(vars, file, ls[k].1) in LinkNodes(vars, file, ls)
    decreases |ls|
  {
    var a := ChainNode(vars, file, ls[0].0);
    var b := ChainNode(vars, file, ls[0].1);
    var tl := LinkNodes(vars, file, ls[1..]);
    assert LinkNodes(vars, file, ls) == [a, b] + tl;
    if k > 0 {
      LinkNodesHaveEndpoints(vars, file, ls[1..], k - 1);
      assert ls[1..][k - 1] == ls[k];
    }
  }

  /** The pushes a chain line performs for its links, one link after the
      other: both endpoint nodes, then the edge between them. */
  function ApplyLinks(g: Graph, file: string, vars: map<string, string>, ls: seq<(string, string)>): (r: Graph)
    ensures r.mapping == g.mapping
    ensures |r.edges| == |g.edges| + |ls|
    ensures |r.nodes| == |g.nodes| + 2 * |ls|
    decreases |ls|
  {
    if |ls| == 0 then g
    else ApplyLinks(Link(g, ChainNode(vars, file, ls[0].0), ChainNode(vars, file, ls[0].1)), file, vars, ls[1..])
  }

  /** The closed form of the pushes: the edges and the nodes of all links,
      appended in order. */
  lemma {:induction false} ApplyLinksClosedForm(g: Graph, file: string, vars: map<string, string>,
                                                ls: seq<(string, string)>)
    ensures ApplyLinks(g, file, vars, ls).edges == g.edges + LinkEdges(vars, file, ls)
    ensures ApplyLinks(g, file, vars, ls).nodes == g.nodes + LinkNodes(vars, file, ls)
    decreases |ls|
  {
    if |ls| > 0 {
      var a := ChainNode(vars, file, ls[0].0);
      var b := ChainNode(vars, file, ls[0].1);
      var g1 := Link(g, a, b);
      var tl := ls[1..];
      ApplyLinksClosedForm(g1, file, vars, tl);
      var e := LinkEdge(vars, file, ls[0]);
      assert g1.edges == g.edges + [e];
      assert g1.nodes == g.nodes + [a, b];
      SeqAssoc(g.edges, [e], LinkEdges(vars, file, tl));
      SeqAssoc(g.nodes, [a, b], LinkNodes(vars, file, tl));
    }
  }

  /** With a sound record, applying links keeps every parser guarantee. */
  lemma {:induction false} ApplyLinksAppends(g: Graph, file: string, vars: map<string, string>,
                                             ls: seq<(string, string)>, lo: int, hi: int)
    requires VarsSound(vars, file)
    ensures Appends(g, ApplyLinks(g, file, vars, ls), file, lo, hi)
    decreases |ls|
  {
    if |ls| == 0 {
      AppendsRefl(g, file, lo, hi);
    } else {
      var g1 := Link(g, ChainNode(vars, file, ls[0].0), ChainNode(vars, file, ls[0].1));
      LinkAppends(g, file, ChainNode(vars, file, ls[0].0), ChainNode(vars, file, ls[0].1), lo, hi);
      ApplyLinksAppends(g1, file, vars, ls[1..], lo, hi);
      AppendsTrans(g, g1, ApplyLinks(g, file, vars, ls), file, lo, hi);
    }
  }

  /** The loop `for (let j = 0; j < parts.length - 1; j++)` from index `j`
      on, as written: a link for each neighbouring pair whose parts both
      name a variable. */
  function ChainFrom(toks: seq<Option<string>>, j: nat, file: string, vars: map<string, string>, g: Graph): Graph
    requires j <= |toks|
    decreases |toks| - j
  {
    if j + 1 >= |toks| then g
    else
      var g1 :=
        match (toks[j], toks[j + 1])
        case (Some(a), Some(b)) => Link(g, ChainNode(vars, file, a), ChainNode(vars, file, b))
        case _ => g;
      ChainFrom(toks, j + 1, file, vars, g1)
  }

  /** The loop performs exactly the pushes the reference definition lists. */
  lemma {:induction false} ChainFromIsLinks(toks: seq<Option<string>>, j: nat, file: string,
                                            vars: map<string, string>, g: Graph)
    requires j <= |toks|
    ensures ChainFrom(toks, j, file, vars, g) == ApplyLinks(g, file, vars, Links(toks[j..]))
    decreases |toks| - j
  {
    if j + 1 < |toks| {
      var t := toks[j..];
      assert t[1..] == toks[j + 1..];
      assert t[0] == toks[j] && t[1] == toks[j + 1];
      var rest := Links(toks[j + 1..]);
      match (toks[j], toks[j + 1])
      case (Some(a), Some(b)) =>
        var g1 := Link(g, ChainNode(vars, file, a), ChainNode(vars, file, b));
        ChainFromIsLinks(toks, j + 1, file, vars, g1);
        assert Links(t) == [(a, b)] + rest;
        assert ([(a, b)] + rest)[1..] == rest;
      case _ =>
        ChainFromIsLinks(toks, j + 1, file, vars, g);
        assert Links(t) == rest;
    }
  }

  /** Without `>>` a line is one part and links nothing, so the
      `l.includes('>>')` guard changes nothing about the result. */
  lemma NoChainWithoutArrows(l: string)
    requires !Contains(l, ">>")
    ensures Links(ChainTokens(l)) == []
  {
    assert SplitOn(l, ">>") == [l];
  }


  /** Whatever a prefix holds, the longer sequence holds too. */
  lemma InPrefix<T>(x: T, s1: seq<T>, s2: seq<T>)
    requires x in s1 && s1 <= s2
    ensures x in s2
  {
    var k :| 0 <= k < |s1| && s1[k] == x;
    assert s2[k] == x;
  }

  /** Every link contributes its edge. */
  lemma {:induction false} LinkEdgesHave(vars: map<string, string>, file: string,
                                         ls: seq<(string, string)>, l: (string, string))
    requires l in ls
    ensures LinkEdge(vars, file, l) in LinkEdges(vars, file, ls)
    decreases |ls|
  {
    if ls[0] != l {
      assert l in ls[1..];
      LinkEdgesHave(vars, file, ls[1..], l);
    }
  }

  /** With a sound record, a link's ids are the computed ones. */
  lemma SoundLinkEdge(vars: map<string, string>, file: string, l: (string, string))
    requires VarsSound(vars, file)
    ensures LinkEdge(vars, file, l) == Edge(NodeId(file, l.0), NodeId(file, l.1))
    ensures ChainNode(vars, file, l.0) == Node(NodeId(file, l.0), l.0)
    ensures ChainNode(vars, file, l.1) == Node(NodeId(file, l.1), l.1)
  {
  }

  /** With a sound record, the links produce the same nodes and edges as
      with an empty one: every id is `nodeId(file, name)`. */
  lemma {:induction false} SoundLinksCanonical(vars: map<string, string>, file: string, ls: seq<(string, string)>)
    requires VarsSound(vars, file)
    ensures LinkEdges(vars, file, ls) == LinkEdges(map[], file, ls)
    ensures LinkNodes(vars, file, ls) == LinkNodes(map[], file, ls)
    decreases |ls|
  {
    if |ls| > 0 {
      SoundLinksCanonical(vars, file, ls[1..]);
      SoundLinkEdge(vars, file, ls[0]);
      SoundLinkEdge(map[], file, ls[0]);
    }
  }

  // ---------------------------------------------------------------------------
  // parseAirflowPython
  // ---------------------------------------------------------------------------

  /** What the Airflow loop carries from line to line: the `vars` record and
      the three output collections. */
  datatype AirflowState = AirflowState(vars: map<string, string>, g: Graph)

  /** The `assignRe` branch of the loop body, given the line's match of
      `assignRe`: a match records `vars[name]`, pushes the node and
      maps it to line `i + 1`. */
  function AssignStep(st: AirflowState, m: Option<string>, i: nat, file: string): AirflowState
  {
    match m
    case None => st
    case Some(name) =>
      AirflowState(st.vars[name := NodeId(file, name)], Register(st.g, file, name, i + 1))
  }

  /** The `>>` branch of the loop body, given whether the line contains
      `>>` and the variables of its parts. */
  function ChainStep(st: AirflowState, arrows: bool, toks: seq<Option<string>>, file: string): AirflowState
  {
    if arrows then st.(g := ChainFrom(toks, 0, file, st.vars, st.g)) else st
  }

  /** One iteration of the loop, given what the line's pattern matches found. */
  function LineStep(st: AirflowState, m: Option<string>, arrows: bool, toks: seq<Option<string>>,
                    i: nat, file: string): AirflowState
  {
    ChainStep(AssignStep(st, m, i, file), arrows, toks, file)
  }

  /** What the loop body finds on one line: the match of `assignRe`,
      whether the line contains `>>`, and the variables of its `>>` parts. */
  datatype LineScan = LineScan(assign: Option<string>, arrows: bool, toks: seq<Option<string>>)

  function ScanLine(l: string): LineScan
  {
    LineScan(AssignMatch(l), Contains(l, ">>"), ChainTokens(l))
  }

  /** The scans of all lines, in order. */
  function ScanLines(lines: seq<string>): (scans: seq<LineScan>)
    ensures |scans| == |lines|
    ensures forall i | 0 <= i < |lines| :: scans[i] == ScanLine(lines[i])
  {
    seq(|lines|, i requires 0 <= i < |lines| => ScanLine(lines[i]))
  }

  /** One iteration of the loop, for the line at index `i`. */
  function AirflowLine(st: AirflowState, sc: LineScan, i: nat, file: string): AirflowState
  {
    LineStep(st, sc.assign, sc.arrows, sc.toks, i, file)
  }

  /** The loop from line index `i` on. */
  function AirflowFrom(scans: seq<LineScan>, i: nat, file: string, st: AirflowState): AirflowState
    requires i <= |scans|
    decreases |scans| - i
  {
    if i == |scans| then st else AirflowFrom(scans, i + 1, file, AirflowLine(st, scans[i], i, file))
  }

  /** `parseAirflowPython(content, file, nodes, edges, mapping)`, starting
      from an empty `vars` record. */
  function ParseAirflowPython(content: string, file: string, g: Graph): Graph
  {
    AirflowFrom(ScanLines(SplitLines(content)), 0, file, AirflowState(map[], g)).g
  }

  /** An assignment records its variable soundly, pushes exactly its node,
      maps the node's id to line `i + 1` and adds no edge; without a match
      nothing changes. */
  lemma AssignStepEffect(st: AirflowState, m: Option<string>, i: nat, file: string)
    ensures AssignStep(st, m, i, file).g.edges == st.g.edges
    ensures VarsSound(st.vars, file) ==> VarsSound(AssignStep(st, m, i, file).vars, file)
    ensures m.None? ==> AssignStep(st, m, i, file) == st
    ensures m.Some? ==> AssignStep(st, m, i, file).g.nodes == st.g.nodes + [Node(NodeId(file, m.value), m.value)]
    ensures m.Some? ==> AssignStep(st, m, i, file).g.mapping
                        == st.g.mapping[NodeId(file, m.value) := Location(file, i + 1)]
  {
  }

  lemma AssignStepAppends(st: AirflowState, m: Option<string>, i: nat, file: string)
    ensures Appends(st.g, AssignStep(st, m, i, file).g, file, i + 1, i + 1)
  {
    if m.Some? {
      RegisterAppends(st.g, file, m.value, i + 1);
    } else {
      AppendsRefl(st.g, file, i + 1, i + 1);
    }
  }

  /** The chain half, with a sound record, pushes for every link `a >> b`,
      in order, both endpoint nodes and the edge
      `nodeId(file, a) -> nodeId(file, b)`; it never touches the mapping or
      the record. */
  lemma ChainStepEffect(st: AirflowState, arrows: bool, toks: seq<Option<string>>, file: string)
    requires VarsSound(st.vars, file)
    ensures ChainStep(st, arrows, toks, file).vars == st.vars
    ensures ChainStep(st, arrows, toks, file).g.mapping == st.g.mapping
    ensures ChainStep(st, arrows, toks, file).g.edges == st.g.edges + LinkEdges(map[], file, ActiveLinks(arrows, toks))
    ensures ChainStep(st, arrows, toks, file).g.nodes == st.g.nodes + LinkNodes(map[], file, ActiveLinks(arrows, toks))
  {
    var ls := ActiveLinks(arrows, toks);
    SoundLinksCanonical(st.vars, file, ls);
    if arrows {
      ChainFromIsLinks(toks, 0, file, st.vars, st.g);
      assert toks[0..] == toks;
      ApplyLinksClosedForm(st.g, file, st.vars, ls);
    }
  }

  lemma ChainStepAppends(st: AirflowState, arrows: bool, toks: seq<Option<string>>, file: string, lo: int, hi: int)
    requires VarsSound(st.vars, file)
    ensures Appends(st.g, ChainStep(st, arrows, toks, file).g, file, lo, hi)
  {
    if arrows {
      ChainFromIsLinks(toks, 0, file, st.vars, st.g);
      assert toks[0..] == toks;
      ApplyLinksAppends(st.g, file, st.vars, Links(toks), lo, hi);
    } else {
      AppendsRefl(st.g, file, lo, hi);
    }
  }

  /** The links the chain half pushes: none when the line has no `>>`. */
  function ActiveLinks(arrows: bool, toks: seq<Option<string>>): seq<(string, string)>
  {
    if arrows then Links(toks) else []
  }

  /** One line, with a sound record: the record stays sound, the edges of
      the line's links are appended, and the endpoint nodes of the links end
      the node list. */
  lemma LineStepEffect(st: AirflowState, m: Option<string>, arrows: bool,
                       toks: seq<Option<string>>, i: nat, file: string)
    requires VarsSound(st.vars, file)
    ensures VarsSound(LineStep(st, m, arrows, toks, i, file).vars, file)
    ensures LineStep(st, m, arrows, toks, i, file).g.edges
            == st.g.edges + LinkEdges(map[], file, ActiveLinks(arrows, toks))
    ensures LineStep(st, m, arrows, toks, i, file).g.nodes
            == AssignStep(st, m, i, file).g.nodes + LinkNodes(map[], file, ActiveLinks(arrows, toks))
  {
    AssignStepEffect(st, m, i, file);
    ChainStepEffect(AssignStep(st, m, i, file), arrows, toks, file);
  }

  /** One line keeps the parser guarantees, with any mapping entry it
      writes pointing at line `i + 1`. */
  lemma LineStepAppends(st: AirflowState, m: Option<string>, arrows: bool,
                        toks: seq<Option<string>>, i: nat, file: string)
    requires VarsSound(st.vars, file)
    ensures Appends(st.g, LineStep(st, m, arrows, toks, i, file).g, file, i + 1, i + 1)
  {
    var st0 := AssignStep(st, m, i, file);
    AssignStepEffect(st, m, i, file);
    AssignStepAppends(st, m, i, file);
    ChainStepAppends(st0, arrows, toks, file, i + 1, i + 1);
    AppendsTrans(st.g, st0.g, LineStep(st, m, arrows, toks, i, file).g, file, i + 1, i + 1);
  }

  /** An assignment's node is pushed and its id mapped to line `i + 1`; the
      chain half of the line does not move the entry. */
  lemma LineStepRegisters(st: AirflowState, name: string, arrows: bool,
                          toks: seq<Option<string>>, i: nat, file: string)
    requires VarsSound(st.vars, file)
    ensures Node(NodeId(file, name), name) in LineStep(st, Some(name), arrows, toks, i, file).g.nodes
    ensures NodeId(file, name) in LineStep(st, Some(name), arrows, toks, i, file).g.mapping
    ensures LineStep(st, Some(name), arrows, toks, i, file).g.mapping[NodeId(file, name)] == Location(file, i + 1)
  {
    var st0 := AssignStep(st, Some(name), i, file);
    AssignStepEffect(st, Some(name), i, file);
    ChainStepEffect(st0, arrows, toks, file);
    var r := LineStep(st, Some(name), arrows, toks, i, file).g;
    assert st0.g.nodes[|st.g.nodes|] == Node(NodeId(file, name), name);
    InPrefix(Node(NodeId(file, name), name), st0.g.nodes, r.nodes);
  }

  /** The links the chain half of a scanned line pushes. */
  function ScanLinks(sc: LineScan): seq<(string, string)>
  {
    ActiveLinks(sc.arrows, sc.toks)
  }

  /** The links of a line: its `>>` parts that name a variable, paired with
      their neighbours. A line without `>>` has none. */
  function LineLinks(l: string): (ls: seq<(string, string)>)
    ensures !Contains(l, ">>") ==> ls == []
  {
    ScanLinks(ScanLine(l))
  }

  /** The effect of one line on the record and the edges. */
  lemma AirflowLineEffect(st: AirflowState, sc: LineScan, i: nat, file: string)
    requires VarsSound(st.vars, file)
    ensures VarsSound(AirflowLine(st, sc, i, file).vars, file)
    ensures AirflowLine(st, sc, i, file).g.edges == st.g.edges + LinkEdges(map[], file, ScanLinks(sc))
  {
    LineStepEffect(st, sc.assign, sc.arrows, sc.toks, i, file);
  }

  /** The endpoint nodes of a line's links are among the nodes after it. */
  lemma AirflowLineNodes(st: AirflowState, sc: LineScan, i: nat, file: string, x: Node)
    requires VarsSound(st.vars, file)
    requires x in LinkNodes(map[], file, ScanLinks(sc))
    ensures x in AirflowLine(st, sc, i, file).g.nodes
  {
    LineStepEffect(st, sc.assign, sc.arrows, sc.toks, i, file);
  }

  /** The loop keeps the record sound and the parser guarantees, with every
      mapping entry it writes pointing at a line in `[i + 1, |scans|]`. */
  lemma {:induction false} AirflowFromAppends(scans: seq<LineScan>, i: nat, file: string, st: AirflowState)
    requires i <= |scans| && VarsSound(st.vars, file)
    ensures VarsSound(AirflowFrom(scans, i, file, st).vars, file)
    ensures Appends(st.g, AirflowFrom(scans, i, file, st).g, file, i + 1, |scans|)
    decreases |scans| - i
  {
    if i == |scans| {
      AppendsRefl(st.g, file, i + 1, |scans|);
    } else {
      var sc := scans[i];
      var st1 := AirflowLine(st, sc, i, file);
      AirflowLineEffect(st, sc, i, file);
      LineStepAppends(st, sc.assign, sc.arrows, sc.toks, i, file);
      AirflowFromAppends(scans, i + 1, file, st1);
      var r := AirflowFrom(scans, i + 1, file, st1);
      AppendsWiden(st.g, st1.g, file, i + 1, i + 1, i + 1, |scans|);
      AppendsWiden(st1.g, r.g, file, i + 2, |scans|, i + 1, |scans|);
      AppendsTrans(st.g, st1.g, r.g, file, i + 1, |scans|);
    }
  }

  /** The loop only appends nodes and edges. */
  lemma AirflowFromGrows(scans: seq<LineScan>, i: nat, file: string, st: AirflowState)
    requires i <= |scans| && VarsSound(st.vars, file)
    ensures st.g.edges <= AirflowFrom(scans, i, file, st).g.edges
    ensures st.g.nodes <= AirflowFrom(scans, i, file, st).g.nodes
  {
    AirflowFromAppends(scans, i, file, st);
  }

  /** `parseAirflowPython` only appends, every node it pushes has the id
      `nodeId(file, label)`, a closed graph stays closed, and every mapping
      entry it writes points into `file` at a line of the content. */
  lemma ParseAirflowPythonAppends(content: string, file: string, g: Graph)
    ensures Appends(g, ParseAirflowPython(content, file, g), file, 1, |SplitLines(content)|)
  {
    AirflowFromAppends(ScanLines(SplitLines(content)), 0, file, AirflowState(map[], g));
  }

  /** `e` is the edge of a link `a >> b` found on one of the scanned lines
      from index `i` on. */
  ghost predicate ChainEdgeFrom(scans: seq<LineScan>, i: nat, file: string, e: Edge)
  {
    exists t: nat, a: string, b: string ::
      && i <= t < |scans|
      && (a, b) in ScanLinks(scans[t])
      && e == Edge(NodeId(file, a), NodeId(file, b))
  }

  /** The edges of a line's links are edges of links written on that line. */
  lemma LineEdgesAreChainEdges(scans: seq<LineScan>, i: nat, file: string, j: nat)
    requires i < |scans| && j < |ScanLinks(scans[i])|
    ensures ChainEdgeFrom(scans, i, file, LinkEdges(map[], file, ScanLinks(scans[i]))[j])
  {
    var ls := ScanLinks(scans[i]);
    LinkEdgesAt(map[], file, ls, j);
    SoundLinkEdge(map[], file, ls[j]);
    assert (ls[j].0, ls[j].1) in ls;
  }

  lemma ChainEdgeFromWiden(scans: seq<LineScan>, i: nat, file: string, e: Edge)
    requires i < |scans| && ChainEdgeFrom(scans, i + 1, file, e)
    ensures ChainEdgeFrom(scans, i, file, e)
  {
  }

  /** The `k`-th edge after the loop, when the loop pushed it, is the edge
      of a link on a line. */
  lemma {:induction false} AirflowEdgeSound(scans: seq<LineScan>, i: nat, file: string, st: AirflowState, k: nat)
    requires i <= |scans| && VarsSound(st.vars, file)
    requires |st.g.edges| <= k < |AirflowFrom(scans, i, file, st).g.edges|
    ensures ChainEdgeFrom(scans, i, file, AirflowFrom(scans, i, file, st).g.edges[k])
    decreases |scans| - i
  {
    var sc := scans[i];
    var st1 := AirflowLine(st, sc, i, file);
    AirflowLineEffect(st, sc, i, file);
    var r := AirflowFrom(scans, i + 1, file, st1).g;
    if k < |st1.g.edges| {
      AirflowFromGrows(scans, i + 1, file, st1);
      var j := k - |st.g.edges|;
      assert r.edges[k] == st1.g.edges[k] == LinkEdges(map[], file, ScanLinks(sc))[j];
      LineEdgesAreChainEdges(scans, i, file, j);
    } else {
      AirflowEdgeSound(scans, i + 1, file, st1, k);
      ChainEdgeFromWiden(scans, i, file, r.edges[k]);
    }
  }

  /** Every link on a line gets its edge, and both of its endpoint nodes
      are pushed. */
  lemma {:induction false} AirflowEdgesComplete(scans: seq<LineScan>, i: nat, file: string, st: AirflowState,
                                                t: nat, a: string, b: string)
    requires i <= t < |scans| && VarsSound(st.vars, file)
    requires (a, b) in ScanLinks(scans[t])
    ensures var r := AirflowFrom(scans, i, file, st).g;
            && Edge(NodeId(file, a), NodeId(file, b)) in r.edges
            && Node(NodeId(file, a), a) in r.nodes
            && Node(NodeId(file, b), b) in r.nodes
    decreases |scans| - i
  {
    var sc := scans[i];
    var st1 := AirflowLine(st, sc, i, file);
    AirflowLineEffect(st, sc, i, file);
    if t == i {
      var ls := ScanLinks(sc);
      LinkEdgesHave(map[], file, ls, (a, b));
      SoundLinkEdge(map[], file, (a, b));
      var k :| 0 <= k < |ls| && ls[k] == (a, b);
      LinkNodesHaveEndpoints(map[], file, ls, k);
      AirflowLineNodes(st, sc, i, file, Node(NodeId(file, a), a));
      AirflowLineNodes(st, sc, i, file, Node(NodeId(file, b), b));
      AirflowFromGrows(scans, i + 1, file, st1);
      var r := AirflowFrom(scans, i + 1, file, st1).g;
      InPrefix(Edge(NodeId(file, a), NodeId(file, b)), st1.g.edges, r.edges);
      InPrefix(Node(NodeId(file, a), a), st1.g.nodes, r.nodes);
      InPrefix(Node(NodeId(file, b), b), st1.g.nodes, r.nodes);
    } else {
      AirflowEdgesComplete(scans, i + 1, file, st1, t, a, b);
    }
  }

  /** A mapping entry pointing into `file` stays there: later lines may
      rewrite it, but only with another line of the same file. */
  lemma AirflowFromKeepsFile(scans: seq<LineScan>, i: nat, file: string, st: AirflowState, id: string)
    requires i <= |scans| && VarsSound(st.vars, file)
    requires id in st.g.mapping && st.g.mapping[id].file == file
    ensures id in AirflowFrom(scans, i, file, st).g.mapping
    ensures AirflowFrom(scans, i, file, st).g.mapping[id].file == file
  {
    AirflowFromAppends(scans, i, file, st);
  }

  /** Every operator assignment registers its task: the node is pushed and
      its id is mapped into `file`. */
  lemma {:induction false} AirflowAssignmentsRegistered(scans: seq<LineScan>, i: nat, file: string,
                                                        st: AirflowState, t: nat, name: string)
    requires i <= t < |scans| && VarsSound(st.vars, file)
    requires scans[t].assign == Some(name)
    ensures Node(NodeId(file, name), name) in AirflowFrom(scans, i, file, st).g.nodes
    ensures NodeId(file, name) in AirflowFrom(scans, i, file, st).g.mapping
    ensures AirflowFrom(scans, i, file, st).g.mapping[NodeId(file, name)].file == file
    decreases |scans| - i
  {
    var sc := scans[i];
    var st1 := AirflowLine(st, sc, i, file);
    AirflowLineEffect(st, sc, i, file);
    if t == i {
      LineStepRegisters(st, name, sc.arrows, sc.toks, i, file);
      AirflowFromGrows(scans, i + 1, file, st1);
      AirflowFromKeepsFile(scans, i + 1, file, st1, NodeId(file, name));
      InPrefix(Node(NodeId(file, name), name), st1.g.nodes, AirflowFrom(scans, i + 1, file, st1).g.nodes);
    } else {
      AirflowAssignmentsRegistered(scans, i + 1, file, st1, t, name);
    }
  }

  /** `e` is the edge of a link `a >> b` written on some line. */
  ghost predicate LineChainEdge(lines: seq<string>, file: string, e: Edge)
  {
    exists t: nat, a: string, b: string ::
      && t < |lines|
      && (a, b) in LineLinks(lines[t])
      && e == Edge(NodeId(file, a), NodeId(file, b))
  }

  /** Every edge `parseAirflowPython` adds is the edge of a link `a >> b`
      written in the content. */
  lemma ParseAirflowPythonEdgesSound(content: string, file: string, g: Graph)
    ensures forall k | |g.edges| <= k < |ParseAirflowPython(content, file, g).edges| ::
              LineChainEdge(SplitLines(content), file, ParseAirflowPython(content, file, g).edges[k])
  {
    var lines := SplitLines(content);
    var scans := ScanLines(lines);
    var st := AirflowState(map[], g);
    var r := AirflowFrom(scans, 0, file, st).g;
    forall k | |g.edges| <= k < |r.edges|
      ensures LineChainEdge(lines, file, r.edges[k])
    {
      AirflowEdgeSound(scans, 0, file, st, k);
      var t: nat, a: string, b: string :|
        t < |scans| && (a, b) in ScanLinks(scans[t]) && r.edges[k] == Edge(NodeId(file, a), NodeId(file, b));
      assert (a, b) in LineLinks(lines[t]);
    }
  }

  /** Every link `a >> b` written in the content is added as an edge,
      together with both endpoint nodes. */
  lemma ParseAirflowPythonEdgesComplete(content: string, file: string, g: Graph, t: nat, a: string, b: string)
    requires t < |SplitLines(content)| && (a, b) in LineLinks(SplitLines(content)[t])
    ensures Edge(NodeId(file, a), NodeId(file, b)) in ParseAirflowPython(content, file, g).edges
    ensures Node(NodeId(file, a), a) in ParseAirflowPython(content, file, g).nodes
    ensures Node(NodeId(file, b), b) in ParseAirflowPython(content, file, g).nodes
  {
    var scans := ScanLines(SplitLines(content));
    assert ScanLinks(scans[t]) == LineLinks(SplitLines(content)[t]);
    AirflowEdgesComplete(scans, 0, file, AirflowState(map[], g), t, a, b);
  }

  /** Every operator assignment in the content registers its task, mapped
      into `file`. */
  lemma ParseAirflowPythonTasks(content: string, file: string, g: Graph, t: nat, name: string)
    requires t < |SplitLines(content)| && AssignMatch(SplitLines(content)[t]) == Some(name)
    ensures var r := ParseAirflowPython(content, file, g);
            && Node(NodeId(file, name), name) in r.nodes
            && NodeId(file, name) in r.mapping
            && r.mapping[NodeId(file, name)].file == file
  {
    var scans := ScanLines(SplitLines(content));
    AirflowAssignmentsRegistered(scans, 0, file, AirflowState(map[], g), t, name);
  }

  // ---------------------------------------------------------------------------
  // The `vars` record as written: a plain object with a prototype
  // ---------------------------------------------------------------------------

  /** The members every plain object inherits from `Object.prototype`. */
  const ObjectPrototypeNames: set<string> := {
    "constructor", "__proto__", "__defineGetter__", "__defineSetter__",
    "__lookupGetter__", "__lookupSetter__", "hasOwnProperty", "isPrototypeOf",
    "propertyIsEnumerable", "toLocaleString", "toString", "valueOf"
  }

  /** What `vars[a] ?? nodeId(file, a)` evaluates to: a string id, or an
      inherited member of `Object.prototype` (a function, or the prototype
      itself for `__proto__`), which is neither `null` nor `undefined` and so
      passes through `??`. */
  datatype IdValue = StringId(id: string) | InheritedMember(member: string)

  /** `vars[name] = id` on a plain object: assigning a string to
      `__proto__` is ignored by the inherited setter. */
  function StoreAsWritten(vars: map<string, string>, name: string, id: string): (r: map<string, string>)
    ensures "__proto__" !in vars ==> "__proto__" !in r
    ensures name != "__proto__" ==> name in r && r[name] == id
  {
    if name == "__proto__" then vars else vars[name := id]
  }

  /** `vars[a] ?? nodeId(file, a)` as written: own properties first, then
      the prototype chain, and only then the computed id. */
  function ResolveAsWritten(vars: map<string, string>, file: string, name: string): (v: IdValue)
    requires "__proto__" !in vars
    ensures v.InheritedMember? <==> name !in vars && name in ObjectPrototypeNames
  {
    if name in vars then StringId(vars[name])
    else if name in ObjectPrototypeNames then InheritedMember(name)
    else StringId(NodeId(file, name))
  }

  /** Away from the prototype's member names, and for every variable an
      assignment has recorded, the lookup as written gives the id the model
      uses. */
  lemma ResolveAsWrittenAgrees(vars: map<string, string>, file: string, name: string)
    requires "__proto__" !in vars
    requires name !in ObjectPrototypeNames || name in vars
    ensures ResolveAsWritten(vars, file, name) == StringId(ResolveVar(vars, file, name))
  {
  }

  /** A chain endpoint named like a prototype member that no assignment
      recorded, as in `extract >> constructor`, resolves to the inherited
      function instead of a node id; the model's lookup gives
      `nodeId(file, "constructor")`. */
  lemma ResolveAsWrittenInherits(file: string)
    ensures ResolveAsWritten(map[], file, "constructor") == InheritedMember("constructor")
    ensures ResolveVar(map[], file, "constructor") == NodeId(file, "constructor")
  {
  }
}
