/** The two parsers of YAML files: dbt `models:` declarations and GitHub
    Actions `jobs` with their `needs`. Both read the value `yaml.load`
    returns, which is a parameter here, and both sit inside a `try` whose
    `catch` swallows every error: a failed load changes nothing, and a
    TypeError part-way through keeps what was pushed before it. */
module YamlParsers {
  import opened JsText
  import opened Identity
  import opened Pipeline

  // ---------------------------------------------------------------------------
  // Loaded values
  // ---------------------------------------------------------------------------

  /** A value `yaml.load` builds. A number is kept as its JavaScript string
      form (`String(n)`), which is all the parsers observe of it; a timestamp
      becomes a `Date`, kept as the text its conversion to a string yields.
      A mapping lists its keys in the order `Object.keys` reports them. */
  datatype Yaml =
    | YNull
    | YBool(b: bool)
    | YNumber(text: string)
    | YString(s: string)
    | YDate(text: string)
    | YSeq(items: seq<Yaml>)
    | YMap(entries: seq<(string, Yaml)>)

  /** The outcome of `yaml.load(content)`: a document, `undefined` for a
      stream without one, or a thrown YAMLException. */
  datatype Load = Loaded(doc: Yaml) | NoDocument | LoadFailed

  /** The outcome of reading a property: a value, `undefined`, or the
      TypeError thrown when the object is `null`. */
  datatype Access = Value(v: Yaml) | Undefined | Throws

  /** The value under `key` in a mapping's entries. */
  function Lookup(entries: seq<(string, Yaml)>, key: string): (a: Access)
    ensures !a.Throws?
    decreases |entries|
  {
    if |entries| == 0 then Undefined
    else if entries[0].0 == key then Value(entries[0].1)
    else Lookup(entries[1..], key)
  }

  /** `v[key]` for the property names the parsers read (`models`, `name`,
      `jobs`, `needs`): only a mapping has them as own properties, none of
      them is inherited, and reading from `null` throws. */
  function Member(v: Yaml, key: string): (a: Access)
    ensures a.Throws? <==> v.YNull?
    ensures !v.YMap? && !v.YNull? ==> a.Undefined?
  {
    match v
    case YNull => Throws
    case YMap(entries) => Lookup(entries, key)
    case _ => Undefined
  }

  /** `doc?.key`: `null` reads as `undefined` instead of throwing. */
  function OptionalMember(v: Yaml, key: string): (a: Access)
    ensures !a.Throws?
  {
    if v.YNull? then Undefined else Member(v, key)
  }

  /** JavaScript truthiness: `null`, `false`, `0`, `-0`, `NaN` and the empty
      string are falsy; arrays, objects and dates are truthy. */
  predicate Truthy(v: Yaml)
  {
    match v
    case YNull => false
    case YBool(b) => b
    case YNumber(text) => text != "0" && text != "NaN"
    case YString(s) => s != ""
    case _ => true
  }

  /** The string a template literal `${v}` makes of `v`, which is the key
      `nodeId` hashes and the label the model keeps. An array joins its
      elements with `,`, writing `null` elements as nothing. */
  function JsString(v: Yaml): string
    decreases v
  {
    match v
    case YNull => "null"
    case YBool(b) => if b then "true" else "false"
    case YNumber(text) => text
    case YString(s) => s
    case YDate(text) => text
    case YSeq(items) => JoinWith(JoinedItems(items), ",")
    case YMap(_) => "[object Object]"
  }

  /** The parts `Array.prototype.join` writes for the elements: nothing for
      `null`, the string of any other element. */
  function JoinedItems(items: seq<Yaml>): (parts: seq<string>)
    ensures |parts| == |items|
    decreases items
  {
    if |items| == 0 then [] else [if items[0].YNull? then "" else JsString(items[0])] + JoinedItems(items[1..])
  }

  // ---------------------------------------------------------------------------
  // parseYamlForDbt
  // ---------------------------------------------------------------------------

  /** The loop over `doc.models`, from index `i` on: an entry whose `name`
      is truthy registers that name; a `null` entry throws, which ends the
      loop and keeps what it pushed. */
  function ModelsFrom(items: seq<Yaml>, i: nat, file: string, g: Graph): Graph
    requires i <= |items|
    decreases |items| - i
  {
    if i == |items| then g
    else match Member(items[i], "name")
      case Throws => g
      case Undefined => ModelsFrom(items, i + 1, file, g)
      case Value(name) =>
        if Truthy(name) then ModelsFrom(items, i + 1, file, Register(g, file, JsString(name), 1))
        else ModelsFrom(items, i + 1, file, g)
  }

  /** `parseYamlForDbt(content, file, nodes, edges, mapping)` on the loaded
      value. `doc?.models && Array.isArray(doc.models)` holds exactly for an
      array, since every array is truthy. */
  function ParseYamlForDbt(load: Load, file: string, g: Graph): Graph
  {
    if load.Loaded? && OptionalMember(load.doc, "models").Value?
       && OptionalMember(load.doc, "models").v.YSeq?
    then ModelsFrom(OptionalMember(load.doc, "models").v.items, 0, file, g)
    else g
  }

  /** Reference definition: the names of the declared models, up to the
      first `null` entry, skipping entries without a truthy `name`. */
  function ModelNames(items: seq<Yaml>): seq<string>
    decreases |items|
  {
    if |items| == 0 || items[0].YNull? then []
    else
      var m := Member(items[0], "name");
      (if m.Value? && Truthy(m.v) then [JsString(m.v)] else []) + ModelNames(items[1..])
  }

  /** A `null` entry hides every model declared after it. */
  lemma {:induction false} ModelNamesStopAtNull(items: seq<Yaml>, k: nat)
    requires k < |items| && items[k].YNull?
    ensures ModelNames(items) == ModelNames(items[..k])
    decreases k
  {
    if k > 0 {
      assert items[1..][k - 1] == items[k];
      ModelNamesStopAtNull(items[1..], k - 1);
      assert items[..k][1..] == items[1..][..k - 1];
    } else {
      assert items[..k] == [];
    }
  }

  /** The loop registers exactly the declared models, in order. */
  lemma {:induction false} ModelsFromRegisters(items: seq<Yaml>, i: nat, file: string, g: Graph)
    requires i <= |items|
    ensures ModelsFrom(items, i, file, g) == RegisterAll(g, file, ModelNames(items[i..]))
    decreases |items| - i
  {
    var rest := items[i..];
    if i < |items| {
      assert rest[0] == items[i] && rest[1..] == items[i + 1..];
      var m := Member(items[i], "name");
      if m.Value? && Truthy(m.v) {
        ModelsFromRegisters(items, i + 1, file, Register(g, file, JsString(m.v), 1));
        assert ModelNames(rest) == [JsString(m.v)] + ModelNames(items[i + 1..]);
        assert ModelNames(rest)[1..] == ModelNames(items[i + 1..]);
      } else if !m.Throws? {
        ModelsFromRegisters(items, i + 1, file, g);
        assert ModelNames(rest) == ModelNames(items[i + 1..]);
      }
    }
  }

  /** `parseYamlForDbt` never adds an edge; it appends one node per declared
      model, in order, with its id mapped to line 1 of `file`; a failed
      load, a missing document and a `models` that is not an array leave
      all three collections unchanged. */
  lemma ParseYamlForDbtEffect(load: Load, file: string, g: Graph)
    ensures var r := ParseYamlForDbt(load, file, g);
            && r.edges == g.edges
            && Appends(g, r, file, 1, 1)
            && (if load.Loaded? && OptionalMember(load.doc, "models").Value?
                   && OptionalMember(load.doc, "models").v.YSeq?
                then r.nodes == g.nodes + NamedNodes(file, ModelNames(OptionalMember(load.doc, "models").v.items))
                else r == g)
  {
    var models := if load.Loaded? then OptionalMember(load.doc, "models") else Undefined;
    if load.Loaded? && models.Value? && models.v.YSeq? {
      var items := models.v.items;
      ModelsFromRegisters(items, 0, file, g);
      assert items[0..] == items;
      RegisterAllEffect(g, file, ModelNames(items));
    } else {
      AppendsRefl(g, file, 1, 1);
    }
  }

  // ---------------------------------------------------------------------------
  // parseGithubActions
  // ---------------------------------------------------------------------------

  /** A job key with the outcome of reading `doc.jobs[job].needs`. */
  datatype Job = Job(key: string, needs: Access)

  /** The keys of `Object.keys(doc.jobs)`, each with its `needs`: the keys
      of a mapping; the indices of an array or of a string's UTF-16 code
      units, whose one-unit strings have no `needs`; nothing for any other
      truthy value. */
  function Jobs(jobs: Yaml): (js: seq<Job>)
    ensures jobs.YMap? ==> |js| == |jobs.entries|
    ensures jobs.YSeq? ==> |js| == |jobs.items|
    ensures jobs.YString? ==> |js| == |CodeUnits(jobs.s)|
    ensures !jobs.YMap? && !jobs.YSeq? && !jobs.YString? ==> js == []
  {
    match jobs
    case YMap(es) =>
      seq(|es|, i requires 0 <= i < |es| => Job(es[i].0, Member(es[i].1, "needs")))
    case YSeq(items) =>
      seq(|items|, i requires 0 <= i < |items| => Job(Decimal(i), Member(items[i], "needs")))
    case YString(s) =>
      seq(|CodeUnits(s)|, i requires 0 <= i < |CodeUnits(s)| => Job(Decimal(i), Undefined))
    case _ => []
  }

  /** The `i`-th job is the `i`-th key of a mapping with its `needs`, or the
      index `i` of an array element or a string's code unit. */
  lemma JobsKeys(jobs: Yaml)
    ensures jobs.YMap? ==> forall i | 0 <= i < |Jobs(jobs)| ::
              Jobs(jobs)[i].key == jobs.entries[i].0 && Jobs(jobs)[i].needs == Member(jobs.entries[i].1, "needs")
    ensures jobs.YSeq? ==> forall i | 0 <= i < |Jobs(jobs)| ::
              Jobs(jobs)[i].key == Decimal(i) && Jobs(jobs)[i].needs == Member(jobs.items[i], "needs")
    ensures jobs.YString? ==> forall i | 0 <= i < |Jobs(jobs)| :: Jobs(jobs)[i] == Job(Decimal(i), Undefined)
  {
  }

  /** The upstream job names of `needs`: each element of an array, a string
      by itself, and none for anything else. */
  function NeedNames(needs: Access): seq<string>
  {
    match needs
    case Value(YSeq(items)) => ItemStrings(items)
    case Value(YString(s)) => [s]
    case _ => []
  }

  /** The string of each element, `null` included (`"null"`). */
  function ItemStrings(items: seq<Yaml>): (names: seq<string>)
    ensures |names| == |items|
  {
    if |items| == 0 then [] else [JsString(items[0])] + ItemStrings(items[1..])
  }

  /** The `k`-th name of an array of `needs` is the string of its `k`-th element. */
  lemma {:induction false} ItemStringAt(items: seq<Yaml>, k: nat)
    requires k < |items|
    ensures ItemStrings(items)[k] == JsString(items[k])
    decreases k
  {
    if k > 0 {
      ItemStringAt(items[1..], k - 1);
      assert items[1..][k - 1] == items[k];
    }
  }

  /** A job gets `len(needs)` edges for an array, one for a string and none
      otherwise. */
  lemma NeedCount(needs: Access)
    ensures needs.Value? && needs.v.YSeq? ==> |NeedNames(needs)| == |needs.v.items|
    ensures needs.Value? && needs.v.YString? ==> NeedNames(needs) == [needs.v.s]
    ensures !(needs.Value? && (needs.v.YSeq? || needs.v.YString?)) ==> NeedNames(needs) == []
  {
  }

  /** The loop over the jobs from index `i` on: register the job, then each
      of its `needs` with an edge into it; a `null` job throws once its own
      node is pushed, which ends the loop. */
  function JobsFrom(js: seq<Job>, i: nat, file: string, g: Graph): Graph
    requires i <= |js|
    decreases |js| - i
  {
    if i == |js| then g
    else
      var g1 := Register(g, file, js[i].key, 1);
      if js[i].needs.Throws? then g1
      else JobsFrom(js, i + 1, file, AddDependencies(g1, file, NeedNames(js[i].needs), NodeId(file, js[i].key)))
  }

  /** `parseGithubActions(content, file, nodes, edges, mapping)` on the
      loaded value: nothing unless `doc?.jobs` is truthy. */
  function ParseGithubActions(load: Load, file: string, g: Graph): Graph
  {
    if load.Loaded? && OptionalMember(load.doc, "jobs").Value? && Truthy(OptionalMember(load.doc, "jobs").v)
    then JobsFrom(Jobs(OptionalMember(load.doc, "jobs").v), 0, file, g)
    else g
  }

  /** Reference definition: the nodes the jobs contribute, each job's own
      node followed by those of its `needs`, up to and including the first
      job that throws, which contributes only its own node. */
  function JobNodes(file: string, js: seq<Job>): seq<Node>
    decreases |js|
  {
    if |js| == 0 then []
    else
      [Node(NodeId(file, js[0].key), js[0].key)]
      + (if js[0].needs.Throws? then [] else NamedNodes(file, NeedNames(js[0].needs)) + JobNodes(file, js[1..]))
  }

  /** The edges of one job: from the node of each name in its `needs` to
      the job's node. */
  function JobBlock(file: string, j: Job): (es: seq<Edge>)
    ensures |es| == |NeedNames(j.needs)|
  {
    DepEdges(file, NeedNames(j.needs), NodeId(file, j.key))
  }

  /** Reference definition: the edges the jobs contribute, from each name in
      a job's `needs` to that job, up to the first job that throws. */
  function JobEdges(file: string, js: seq<Job>): seq<Edge>
    decreases |js|
  {
    if |js| == 0 || js[0].needs.Throws? then []
    else JobBlock(file, js[0]) + JobEdges(file, js[1..])
  }

  /** The loop appends exactly the reference nodes. */
  lemma {:induction false} JobsFromNodes(js: seq<Job>, i: nat, file: string, g: Graph)
    requires i <= |js|
    ensures JobsFrom(js, i, file, g).nodes == g.nodes + JobNodes(file, js[i..])
    decreases |js| - i
  {
    var rest := js[i..];
    if i == |js| {
      assert g.nodes + JobNodes(file, rest) == g.nodes;
    } else {
      assert rest[0] == js[i] && rest[1..] == js[i + 1..];
      var id := NodeId(file, js[i].key);
      var n := Node(id, js[i].key);
      var g1 := Register(g, file, js[i].key, 1);
      assert g1.nodes == g.nodes + [n];
      if !js[i].needs.Throws? {
        var names := NeedNames(js[i].needs);
        var g2 := AddDependencies(g1, file, names, id);
        AddDependenciesClosedForm(g1, file, names, id);
        JobsFromNodes(js, i + 1, file, g2);
        var ns := NamedNodes(file, names);
        var tail := JobNodes(file, js[i + 1..]);
        assert JobNodes(file, rest) == [n] + (ns + tail);
        SeqAssoc(g.nodes, [n], ns);
        SeqAssoc(g.nodes + [n], ns, tail);
        SeqAssoc(g.nodes, [n], ns + tail);
      }
    }
  }

  /** The loop appends exactly the reference edges. */
  lemma {:induction false} JobsFromEdges(js: seq<Job>, i: nat, file: string, g: Graph)
    requires i <= |js|
    ensures JobsFrom(js, i, file, g).edges == g.edges + JobEdges(file, js[i..])
    decreases |js| - i
  {
    var rest := js[i..];
    if i == |js| {
      assert g.edges + JobEdges(file, rest) == g.edges;
    } else {
      assert rest[0] == js[i] && rest[1..] == js[i + 1..];
      var id := NodeId(file, js[i].key);
      var g1 := Register(g, file, js[i].key, 1);
      if js[i].needs.Throws? {
        assert g.edges + JobEdges(file, rest) == g.edges;
      } else {
        var names := NeedNames(js[i].needs);
        var g2 := AddDependencies(g1, file, names, id);
        AddDependenciesClosedForm(g1, file, names, id);
        JobsFromEdges(js, i + 1, file, g2);
        var es := JobBlock(file, js[i]);
        assert es == DepEdges(file, names, id);
        assert JobEdges(file, rest) == es + JobEdges(file, js[i + 1..]);
        SeqAssoc(g.edges, es, JobEdges(file, js[i + 1..]));
      }
    }
  }

  /** The loop keeps the parser guarantees, with every mapping entry at
      line 1 of `file`. */
  lemma {:induction false} JobsFromAppends(js: seq<Job>, i: nat, file: string, g: Graph)
    requires i <= |js|
    ensures Appends(g, JobsFrom(js, i, file, g), file, 1, 1)
    decreases |js| - i
  {
    if i == |js| {
      AppendsRefl(g, file, 1, 1);
    } else {
      var id := NodeId(file, js[i].key);
      var g1 := Register(g, file, js[i].key, 1);
      RegisterAppends(g, file, js[i].key, 1);
      if !js[i].needs.Throws? {
        var names := NeedNames(js[i].needs);
        var g2 := AddDependencies(g1, file, names, id);
        AddDependenciesAppends(g1, file, names, id);
        AppendsTrans(g, g1, g2, file, 1, 1);
        JobsFromAppends(js, i + 1, file, g2);
        AppendsTrans(g, g2, JobsFrom(js, i + 1, file, g2), file, 1, 1);
      }
    }
  }

  /** `parseGithubActions` appends exactly the reference nodes and edges of
      the jobs of `doc.jobs`, and keeps the parser guarantees with every
      mapping entry at line 1 of `file`; a failed load, a missing document
      and a falsy `jobs` leave all three collections unchanged. */
  lemma ParseGithubActionsEffect(load: Load, file: string, g: Graph)
    ensures var r := ParseGithubActions(load, file, g);
            && Appends(g, r, file, 1, 1)
            && (if load.Loaded? && OptionalMember(load.doc, "jobs").Value?
                   && Truthy(OptionalMember(load.doc, "jobs").v)
                then var js := Jobs(OptionalMember(load.doc, "jobs").v);
                     r.nodes == g.nodes + JobNodes(file, js) && r.edges == g.edges + JobEdges(file, js)
                else r == g)
  {
    if load.Loaded? && OptionalMember(load.doc, "jobs").Value? && Truthy(OptionalMember(load.doc, "jobs").v) {
      var js := Jobs(OptionalMember(load.doc, "jobs").v);
      JobsFromNodes(js, 0, file, g);
      JobsFromEdges(js, 0, file, g);
      JobsFromAppends(js, 0, file, g);
      assert js[0..] == js;
    } else {
      AppendsRefl(g, file, 1, 1);
    }
  }

  /** No job throws before index `t`. */
  ghost predicate ReachedJob(js: seq<Job>, t: nat)
  {
    t < |js| && forall s | 0 <= s < t :: !js[s].needs.Throws?
  }

  /** Every job the loop reaches has its node among the reference nodes. */
  lemma {:induction false} JobNodesHaveJob(file: string, js: seq<Job>, t: nat)
    requires ReachedJob(js, t)
    ensures Node(NodeId(file, js[t].key), js[t].key) in JobNodes(file, js)
    decreases t
  {
    if t > 0 {
      assert ReachedJob(js[1..], t - 1) by {
        forall s | 0 <= s < t - 1
          ensures !js[1..][s].needs.Throws?
        {
          assert js[1..][s] == js[s + 1];
        }
      }
      JobNodesHaveJob(file, js[1..], t - 1);
      assert js[1..][t - 1] == js[t];
      assert !js[0].needs.Throws?;
      var ns := NamedNodes(file, NeedNames(js[0].needs));
      var tail := JobNodes(file, js[1..]);
      assert JobNodes(file, js) == [Node(NodeId(file, js[0].key), js[0].key)] + (ns + tail);
    }
  }

  /** `e` is an edge from a name in the `needs` of job `t` to that job. */
  ghost predicate NeedsEdge(file: string, js: seq<Job>, e: Edge)
  {
    exists t: nat, n: string ::
      && t < |js|
      && n in NeedNames(js[t].needs)
      && e == Edge(NodeId(file, n), NodeId(file, js[t].key))
  }

  /** `f` of each job the loop reaches, job by job. */
  function Reached<T>(f: Job -> T, js: seq<Job>): (bs: seq<T>)
    ensures |bs| <= |js|
    decreases |js|
  {
    if |js| == 0 || js[0].needs.Throws? then [] else [f(js[0])] + Reached(f, js[1..])
  }

  /** The `t`-th entry belongs to the `t`-th job. */
  lemma {:induction false} ReachedAt<T>(f: Job -> T, js: seq<Job>, t: nat)
    requires t < |Reached(f, js)|
    ensures Reached(f, js)[t] == f(js[t])
    decreases t
  {
    if t > 0 {
      ReachedAt(f, js[1..], t - 1);
      IndexTail(js, t - 1);
    }
  }

  /** The reference edges are the edges of the reached jobs written one
      after another. */
  lemma {:induction false} JobEdgesFlatten(file: string, js: seq<Job>)
    ensures JobEdges(file, js) == Flatten(Reached(j => JobBlock(file, j), js))
    decreases |js|
  {
    if |js| > 0 && !js[0].needs.Throws? {
      JobEdgesFlatten(file, js[1..]);
      FlattenCons(JobBlock(file, js[0]), Reached(j => JobBlock(file, j), js[1..]));
    }
  }

  /** Every reference edge is one of the edges of a job the loop reaches:
      the job's index and the edge's position among that job's edges are
      returned. */
  lemma JobEdgeSource(file: string, js: seq<Job>, k: nat) returns (t: nat, j: nat)
    requires k < |JobEdges(file, js)|
    ensures t < |js| && j < |NeedNames(js[t].needs)|
    ensures JobEdges(file, js)[k] == JobBlock(file, js[t])[j]
  {
    var f := j => JobBlock(file, j);
    JobEdgesFlatten(file, js);
    t, j := FlattenIndex(Reached(f, js), k);
    ReachedAt(f, js, t);
  }

  /** Every reference edge is a `needs` edge. */
  lemma JobEdgeIsNeedsEdge(file: string, js: seq<Job>, k: nat, e: Edge)
    requires k < |JobEdges(file, js)| && e == JobEdges(file, js)[k]
    ensures NeedsEdge(file, js, e)
  {
    var t, j := JobEdgeSource(file, js, k);
    var names := NeedNames(js[t].needs);
    DepEdgeAt(file, names, NodeId(file, js[t].key), j);
    assert names[j] in names;
  }

  /** The total number of `needs` names of the jobs. */
  function NeedTotal(js: seq<Job>): nat
    decreases |js|
  {
    if |js| == 0 then 0 else |NeedNames(js[0].needs)| + NeedTotal(js[1..])
  }

  /** When no job throws, the jobs contribute one node per job plus one per
      `needs` name, and one edge per `needs` name. */
  lemma {:induction false} JobCounts(file: string, js: seq<Job>)
    requires forall t | 0 <= t < |js| :: !js[t].needs.Throws?
    ensures |JobNodes(file, js)| == |js| + NeedTotal(js)
    ensures |JobEdges(file, js)| == NeedTotal(js)
    decreases |js|
  {
    if |js| > 0 {
      assert forall t | 0 <= t < |js[1..]| :: !js[1..][t].needs.Throws? by {
        forall t | 0 <= t < |js[1..]|
          ensures !js[1..][t].needs.Throws?
        {
          assert js[1..][t] == js[t + 1];
        }
      }
      JobCounts(file, js[1..]);
    }
  }

  /** The jobs of a loaded document with a truthy `jobs`. */
  function DocJobs(load: Load): seq<Job>
  {
    if load.Loaded? && OptionalMember(load.doc, "jobs").Value? then Jobs(OptionalMember(load.doc, "jobs").v) else []
  }

  /** A truthy `doc.jobs` was loaded. */
  predicate HasJobs(load: Load)
  {
    load.Loaded? && OptionalMember(load.doc, "jobs").Value? && Truthy(OptionalMember(load.doc, "jobs").v)
  }

  /** One node per job key: every job the loop reaches (no earlier job is
      `null`) is pushed. */
  lemma ParseGithubActionsJobs(load: Load, file: string, g: Graph, t: nat)
    requires HasJobs(load) && ReachedJob(DocJobs(load), t)
    ensures Node(NodeId(file, DocJobs(load)[t].key), DocJobs(load)[t].key) in ParseGithubActions(load, file, g).nodes
  {
    var js := DocJobs(load);
    ParseGithubActionsEffect(load, file, g);
    JobNodesHaveJob(file, js, t);
  }

  /** Every edge `parseGithubActions` adds runs from a name in some job's
      `needs` to that job's id. */
  lemma ParseGithubActionsEdges(load: Load, file: string, g: Graph)
    ensures var r := ParseGithubActions(load, file, g);
            forall k | |g.edges| <= k < |r.edges| :: NeedsEdge(file, DocJobs(load), r.edges[k])
  {
    var r := ParseGithubActions(load, file, g);
    if HasJobs(load) {
      var js := DocJobs(load);
      JobsFromEdges(js, 0, file, g);
      assert js[0..] == js;
      assert r.edges == g.edges + JobEdges(file, js);
      forall k | |g.edges| <= k < |r.edges|
        ensures NeedsEdge(file, js, r.edges[k])
      {
        JobEdgeIsNeedsEdge(file, js, k - |g.edges|, r.edges[k]);
      }
    }
  }

  /** When no job is `null`, one node per job and per `needs` name is
      added, and one edge per `needs` name. */
  lemma ParseGithubActionsCounts(load: Load, file: string, g: Graph)
    requires HasJobs(load)
    requires forall t | 0 <= t < |DocJobs(load)| :: !DocJobs(load)[t].needs.Throws?
    ensures var r := ParseGithubActions(load, file, g);
            && |r.nodes| == |g.nodes| + |DocJobs(load)| + NeedTotal(DocJobs(load))
            && |r.edges| == |g.edges| + NeedTotal(DocJobs(load))
  {
    ParseGithubActionsEffect(load, file, g);
    JobCounts(file, DocJobs(load));
  }
}
