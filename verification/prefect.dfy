/** `parsePrefect`, the line-based parser for Prefect flows: every function
    whose definition follows a line starting with `@task` becomes a node. */
module Prefect {
  import opened Wrappers
  import opened JsText
  import opened Identity
  import opened Matchers
  import opened Pipeline

  /** `lines[i].trim().startsWith('@task')`. */
  predicate IsTaskDecorator(line: string)
  {
    StartsWith(Trim(line), "@task")
  }

  /** The task name declared under a decorator at index `i`:
      `lines[i + 1]?.match(/def\s+(\w+)/)?.[1]`, absent after the last line. */
  function TaskMatch(lines: seq<string>, i: nat): Option<string>
    requires i < |lines|
  {
    if IsTaskDecorator(lines[i]) && i + 1 < |lines| then DefMatch(lines[i + 1]) else None
  }

  /** Some position of the line starts `def`, white space and a word. */
  ghost predicate HasDef(l: string)
  {
    exists p | 0 <= p < |l| :: DefAt(l, p)
  }

  /** A decorated task: a line whose trimmed text starts with `@task`,
      followed by a line holding `def`, white space and a word. The
      expression is unanchored and asks for no parenthesis. */
  lemma TaskMatchIff(lines: seq<string>, i: nat)
    requires i < |lines|
    ensures TaskMatch(lines, i).Some? <==>
              && i + 1 < |lines|
              && StartsWith(Trim(lines[i]), "@task")
              && HasDef(lines[i + 1])
  {
    if i + 1 < |lines| {
      DefMatchLeftmost(lines[i + 1]);
    }
  }

  /** What the loop test computes for every line index, in order. */
  function TaskMatches(lines: seq<string>): (ms: seq<Option<string>>)
    ensures |ms| == |lines|
    ensures forall i | 0 <= i < |lines| :: ms[i] == TaskMatch(lines, i)
  {
    seq(|lines|, i requires 0 <= i < |lines| => TaskMatch(lines, i))
  }

  /** One iteration, given the task name the line declares: push the node
      and map it to the line of the `def` (index `i + 1`, line `i + 2`). */
  function PrefectStep(g: Graph, m: Option<string>, i: nat, file: string): Graph
  {
    match m
    case None => g
    case Some(name) => Register(g, file, name, i + 2)
  }

  /** The loop from line index `i` on, over the results of its test. */
  function PrefectFrom(ms: seq<Option<string>>, i: nat, file: string, g: Graph): (r: Graph)
    requires i <= |ms|
    ensures r.edges == g.edges
    decreases |ms| - i
  {
    if i == |ms| then g else PrefectFrom(ms, i + 1, file, PrefectStep(g, ms[i], i, file))
  }

  /** `parsePrefect(content, file, nodes, edges, mapping)`: it never adds an
      edge. */
  function ParsePrefect(content: string, file: string, g: Graph): (r: Graph)
    ensures r.edges == g.edges
  {
    PrefectFrom(TaskMatches(SplitLines(content)), 0, file, g)
  }

  lemma PrefectStepAppends(g: Graph, m: Option<string>, i: nat, file: string, lo: int, hi: int)
    requires m.Some? ==> lo <= i + 2 <= hi
    ensures Appends(g, PrefectStep(g, m, i, file), file, lo, hi)
  {
    if m.Some? {
      RegisterAppends(g, file, m.value, i + 2);
      AppendsWiden(g, PrefectStep(g, m, i, file), file, i + 2, i + 2, lo, hi);
    } else {
      AppendsRefl(g, file, lo, hi);
    }
  }

  /** A found task pushes its node and maps its id to line `i + 2`, the
      line of its `def`; the edges and every other entry stay. */
  lemma PrefectStepRegisters(g: Graph, name: string, i: nat, file: string)
    ensures PrefectStep(g, Some(name), i, file).nodes == g.nodes + [Node(NodeId(file, name), name)]
    ensures PrefectStep(g, Some(name), i, file).edges == g.edges
    ensures PrefectStep(g, Some(name), i, file).mapping == g.mapping[NodeId(file, name) := Location(file, i + 2)]
  {
  }

  /** The loop test result `m` writes the mapping entry `id`. */
  ghost predicate Writes(m: Option<string>, file: string, id: string)
  {
    m.Some? && NodeId(file, m.value) == id
  }

  /** Iterations whose task does not have the id `id` leave its entry alone. */
  lemma {:induction false} PrefectFromKeepsEntry(ms: seq<Option<string>>, i: nat, file: string, g: Graph, id: string)
    requires i <= |ms| && id in g.mapping
    requires forall s | i <= s < |ms| :: !Writes(ms[s], file, id)
    ensures id in PrefectFrom(ms, i, file, g).mapping
    ensures PrefectFrom(ms, i, file, g).mapping[id] == g.mapping[id]
    decreases |ms| - i
  {
    if i < |ms| {
      assert !Writes(ms[i], file, id);
      var g1 := PrefectStep(g, ms[i], i, file);
      assert id in g1.mapping && g1.mapping[id] == g.mapping[id];
      PrefectFromKeepsEntry(ms, i + 1, file, g1, id);
    }
  }

  /** A task found at index `t` has its id mapped to line `t + 2` once the
      loop is done, unless a later task with the same id overwrites it. */
  lemma {:induction false} PrefectTaskLine(ms: seq<Option<string>>, i: nat, file: string, g: Graph,
                                           t: nat, name: string)
    requires i <= t < |ms| && ms[t] == Some(name)
    requires forall s | t < s < |ms| :: !Writes(ms[s], file, NodeId(file, name))
    ensures NodeId(file, name) in PrefectFrom(ms, i, file, g).mapping
    ensures PrefectFrom(ms, i, file, g).mapping[NodeId(file, name)] == Location(file, t + 2)
    decreases |ms| - i
  {
    var g1 := PrefectStep(g, ms[i], i, file);
    if t == i {
      PrefectStepRegisters(g, name, i, file);
      PrefectFromKeepsEntry(ms, i + 1, file, g1, NodeId(file, name));
    } else {
      PrefectTaskLine(ms, i + 1, file, g1, t, name);
    }
  }

  /** `mapping[id] = { file, line: i + 2 }`: the entry of a decorated task
      is the line of its `def`, the last such line when several tasks share
      the id. */
  lemma ParsePrefectTaskLine(content: string, file: string, g: Graph, t: nat, name: string)
    requires t < |SplitLines(content)| && TaskMatch(SplitLines(content), t) == Some(name)
    requires forall s | t < s < |SplitLines(content)| ::
               !Writes(TaskMatch(SplitLines(content), s), file, NodeId(file, name))
    ensures NodeId(file, name) in ParsePrefect(content, file, g).mapping
    ensures ParsePrefect(content, file, g).mapping[NodeId(file, name)] == Location(file, t + 2)
  {
    var ms := TaskMatches(SplitLines(content));
    PrefectTaskLine(ms, 0, file, g, t, name);
  }

  /** A name is only ever found under a line that has a next line. */
  ghost predicate NoTaskOnLastLine(ms: seq<Option<string>>)
  {
    |ms| > 0 ==> ms[|ms| - 1].None?
  }

  lemma LastLineHasNoTask(lines: seq<string>)
    ensures NoTaskOnLastLine(TaskMatches(lines))
  {
  }

  /** The loop keeps the parser guarantees, with every mapping entry it
      writes pointing at a line in `[i + 2, |ms|]`. */
  lemma {:induction false} PrefectFromAppends(ms: seq<Option<string>>, i: nat, file: string, g: Graph)
    requires i <= |ms| && NoTaskOnLastLine(ms)
    ensures Appends(g, PrefectFrom(ms, i, file, g), file, i + 2, |ms|)
    decreases |ms| - i
  {
    if i == |ms| {
      AppendsRefl(g, file, i + 2, |ms|);
    } else {
      var g1 := PrefectStep(g, ms[i], i, file);
      PrefectStepAppends(g, ms[i], i, file, i + 2, |ms|);
      PrefectFromAppends(ms, i + 1, file, g1);
      AppendsWiden(g1, PrefectFrom(ms, i + 1, file, g1), file, i + 3, |ms|, i + 2, |ms|);
      AppendsTrans(g, g1, PrefectFrom(ms, i, file, g), file, i + 2, |ms|);
    }
  }

  /** `parsePrefect` only appends nodes, each with the id
      `nodeId(file, label)`, keeps a closed graph closed, and maps every id
      it writes to a line of `file` after the first. */
  lemma ParsePrefectAppends(content: string, file: string, g: Graph)
    ensures Appends(g, ParsePrefect(content, file, g), file, 2, |SplitLines(content)|)
  {
    LastLineHasNoTask(SplitLines(content));
    PrefectFromAppends(TaskMatches(SplitLines(content)), 0, file, g);
  }

  /** The loop only appends nodes. */
  lemma {:induction false} PrefectFromGrows(ms: seq<Option<string>>, i: nat, file: string, g: Graph)
    requires i <= |ms|
    ensures g.nodes <= PrefectFrom(ms, i, file, g).nodes
    decreases |ms| - i
  {
    if i < |ms| {
      PrefectFromGrows(ms, i + 1, file, PrefectStep(g, ms[i], i, file));
    }
  }

  /** A mapping entry into `file` stays an entry into `file`. */
  lemma {:induction false} PrefectFromKeepsFile(ms: seq<Option<string>>, i: nat, file: string, g: Graph, id: string)
    requires i <= |ms| && id in g.mapping && g.mapping[id].file == file
    ensures id in PrefectFrom(ms, i, file, g).mapping
    ensures PrefectFrom(ms, i, file, g).mapping[id].file == file
    decreases |ms| - i
  {
    if i < |ms| {
      PrefectFromKeepsFile(ms, i + 1, file, PrefectStep(g, ms[i], i, file), id);
    }
  }

  /** `n` is the node of a task found at an index from `i` on. */
  ghost predicate TaskNodeFrom(ms: seq<Option<string>>, i: nat, file: string, n: Node)
  {
    exists t: nat :: i <= t < |ms| && ms[t] == Some(n.name) && n.id == NodeId(file, n.name)
  }

  /** Every node the loop pushes is the node of a decorated task. */
  lemma {:induction false} PrefectNodeSound(ms: seq<Option<string>>, i: nat, file: string, g: Graph, k: nat)
    requires i <= |ms| && |g.nodes| <= k < |PrefectFrom(ms, i, file, g).nodes|
    ensures TaskNodeFrom(ms, i, file, PrefectFrom(ms, i, file, g).nodes[k])
    decreases |ms| - i
  {
    var g1 := PrefectStep(g, ms[i], i, file);
    var r := PrefectFrom(ms, i + 1, file, g1);
    var n := r.nodes[k];
    if k < |g1.nodes| {
      PrefectFromGrows(ms, i + 1, file, g1);
      assert n == g1.nodes[k];
      assert ms[i] == Some(n.name) && n.id == NodeId(file, n.name);
    } else {
      PrefectNodeSound(ms, i + 1, file, g1, k);
      var t: nat :| i + 1 <= t < |ms| && ms[t] == Some(n.name) && n.id == NodeId(file, n.name);
    }
  }

  /** Every decorated task is pushed, with its id mapped into `file`. */
  lemma {:induction false} PrefectTaskComplete(ms: seq<Option<string>>, i: nat, file: string, g: Graph,
                                               t: nat, name: string)
    requires i <= t < |ms| && ms[t] == Some(name)
    ensures Node(NodeId(file, name), name) in PrefectFrom(ms, i, file, g).nodes
    ensures NodeId(file, name) in PrefectFrom(ms, i, file, g).mapping
    ensures PrefectFrom(ms, i, file, g).mapping[NodeId(file, name)].file == file
    decreases |ms| - i
  {
    var g1 := PrefectStep(g, ms[i], i, file);
    if t == i {
      var n := Node(NodeId(file, name), name);
      assert g1.nodes[|g.nodes|] == n;
      PrefectFromGrows(ms, i + 1, file, g1);
      PrefectFromKeepsFile(ms, i + 1, file, g1, n.id);
      assert PrefectFrom(ms, i + 1, file, g1).nodes[|g.nodes|] == n;
    } else {
      PrefectTaskComplete(ms, i + 1, file, g1, t, name);
    }
  }

  /** The nodes `parsePrefect` adds are exactly the nodes of the decorated
      tasks of the content: each added node is one, and each one is added
      with its id mapped into `file`. */
  lemma ParsePrefectNodes(content: string, file: string, g: Graph, t: nat, name: string)
    ensures forall k | |g.nodes| <= k < |ParsePrefect(content, file, g).nodes| ::
              var n := ParsePrefect(content, file, g).nodes[k];
              exists s: nat :: s < |SplitLines(content)| && TaskMatch(SplitLines(content), s) == Some(n.name)
                               && n.id == NodeId(file, n.name)
    ensures t < |SplitLines(content)| && TaskMatch(SplitLines(content), t) == Some(name) ==>
              && Node(NodeId(file, name), name) in ParsePrefect(content, file, g).nodes
              && NodeId(file, name) in ParsePrefect(content, file, g).mapping
              && ParsePrefect(content, file, g).mapping[NodeId(file, name)].file == file
  {
    var lines := SplitLines(content);
    var ms := TaskMatches(lines);
    var r := ParsePrefect(content, file, g);
    forall k | |g.nodes| <= k < |r.nodes|
      ensures exists s: nat :: s < |lines| && TaskMatch(lines, s) == Some(r.nodes[k].name)
                               && r.nodes[k].id == NodeId(file, r.nodes[k].name)
    {
      PrefectNodeSound(ms, 0, file, g, k);
      var s: nat :| s < |ms| && ms[s] == Some(r.nodes[k].name) && r.nodes[k].id == NodeId(file, r.nodes[k].name);
      assert TaskMatch(lines, s) == Some(r.nodes[k].name);
    }
    if t < |lines| && TaskMatch(lines, t) == Some(name) {
      PrefectTaskComplete(ms, 0, file, g, t, name);
    }
  }

  /** A `def` line needs no parenthesis: under a decorator, `def x` with
      nothing after the name is a task named `x`. */
  lemma DefWithoutParenthesis()
    ensures TaskMatch(["@task", "def x"], 0) == Some("x")
  {
    DefXMatches();
    TaskIsDecorator();
  }

  lemma DefXMatches()
    ensures DefMatch("def x") == Some("x")
  {
    var l := "def x";
    assert l[0..3] == "def" && l[3] == ' ' && l[4] == 'x';
    assert SpaceRunEnd(l, 4) == 4;
    assert SpaceRunEnd(l, 3) == 4;
    assert DefAt(l, 0);
    assert DefFrom(l, 0) == Some(0);
    assert WordRunEnd(l, 5) == 5;
    assert WordRunEnd(l, 4) == 5;
    assert l[4..5] == "x";
  }

  lemma TaskIsDecorator()
    ensures IsTaskDecorator("@task")
  {
    var s := "@task";
    assert s[0] == '@' && s[4] == 'k';
    assert TrimStart(s) == s;
    assert TrimEnd(s) == s;
  }
}
