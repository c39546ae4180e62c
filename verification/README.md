# DagScout extraction engine in Dafny

DagScout is a VS Code extension that scans a workspace for data-pipeline
definitions and draws them as a Mermaid flowchart. This project models its
extraction engine: the parsers of `src/parser.ts`, the workspace scan that
drives them, and the chart text that `src/extension.ts` builds from their
output. All of it is written as pure functions over immutable values.

The modules follow the source:

- `Identity` (`identity.dfy`) is `hashCode` and `nodeId`. It models the
  32-bit wrap-around of `Math.imul` and of the bitwise or with 0, the UTF-16
  code units that `charCodeAt` reads, `Math.abs` and the decimal rendering of
  the id.
- `JsText` (`js_text.dfy`) holds the JavaScript string operations the parsers
  rely on: `trim`, `includes`, `startsWith`, `split` with a string separator,
  `split(/\r?\n/)`, `join`, `String(n)` and UTF-16 code units.
- `Matchers` (`matchers.dfy`) holds the regular expressions as leftmost-first
  matchers: the `extractVar` pattern, `assignRe`, `def\s+(\w+)` and the global
  `refRe`.
- `Pipeline` (`pipeline.dfy`) holds `ParsedNode`, `ParsedEdge` and
  `MappingEntry`, and the three shared collections. It also defines
  `Appends`, the guarantee every parser gives about how it extends them.
- `Airflow`, `Prefect`, `DbtSql` and `YamlParsers` are the five parsers.
  YAML loading is a parameter: a parser sees the value `yaml.load` returns, or
  the failure it throws.
- `Scanner` (`scanner.dfy`) is `scanWorkspaceForPipelines`. It covers:
  - the `_dag.py` queue and the content filter on `.py` files, kept as a
    JavaScript `Set` in insertion order;
  - the order in which the parsers run;
  - node de-duplication through a JavaScript `Map`.
- `Mermaid` (`mermaid.dfy`) is `buildMermaid` and `escapeMermaid`.

The model keeps three quirks of the code:

- A dbt `ref` target is hashed with the path of the file that mentions it.
- The Airflow assignment pattern is unanchored.
- The Prefect definition pattern asks for no parenthesis.

The code's Prefect pattern `def\s+(\w+)` is unanchored and needs no `(`
(`Prefect.DefWithoutParenthesis`). A `null` model entry or a `null` job throws
part-way through its loop; the `catch` keeps what the loop pushed before the
throw, and the model keeps that too.

## Model

| member | source | states |
|---|---|---|
| Identity.ToInt32Range | src/parser.ts:95 | the bitwise or with 0 lands in the signed 32-bit range, congruent to `x` modulo 2^32, and leaves a value already in range alone |
| Identity.HashStepIsImul | src/parser.ts:95 | wrapping `31 * h + unit` once gives the same value as `Math.imul(31, h)` followed by the bitwise or with 0 |
| Identity.HashCodeRange | src/parser.ts:92-98 | `hashCode` is always a signed 32-bit value, and 0 for the empty string |
| Identity.HashIsReducedPolynomial | src/parser.ts:92-98 | the wrapping loop equals the unbounded polynomial `u0*31^(n-1) + … + u(n-1)` over the code units, reduced to signed 32 bits |
| Identity.NodeIdShape | src/parser.ts:88-90 | an id is `n` followed by the canonical decimal numeral of the hash magnitude of `file::key`, which is at most 2^31 |
| Identity.NodeIdCollision | src/parser.ts:88-90 | two (file, key) pairs get the same id exactly when their hashes have the same magnitude |
| Identity.IdOfMostNegativeHash | src/parser.ts:89 | the hash -2^31 yields the id `n2147483648` (`Math.abs` does not wrap) |
| Identity.KnownCollision | src/parser.ts:88-98 | collisions are accepted: in every file the keys `Aa` and `BB` get the same id |
| JsText.DecimalRoundTrip | src/parser.ts:89 | `String(n)` of a non-negative integer is a canonical numeral that reads back as `n` |
| JsText.CodeUnitsBounds | src/parser.ts:94-95 | `charCodeAt` yields 16-bit units, at least one per character |
| JsText.TrimInfix | src/parser.ts:128 | `trim` removes exactly the leading and trailing white space: the result is an infix surrounded only by white space, and it neither starts nor ends with white space |
| JsText.ContainsIff | src/parser.ts:127 | `includes` holds exactly when the text occurs at some index |
| JsText.SplitPiecesClean | src/parser.ts:128 | no piece of `split('>>')` contains `>>` |
| JsText.JoinSplit | src/parser.ts:128 | joining the pieces of a split with its separator gives back the line |
| JsText.SplitLines | src/parser.ts:111 | `split(/\r?\n/)` gives one line more than there are line feeds, and no line holds a line feed |
| JsText.SplitLinesJoin | src/parser.ts:111 | without carriage returns, joining the lines with `\n` gives back the content |
| JsText.SplitJoin | src/extension.ts:64 | splitting a `join` on a separator character that no piece holds gives back the pieces |
| Matchers.ExtractVar | src/parser.ts:144-147 | `null` exactly when no letter or underscore occurs; otherwise the maximal `[A-Za-z0-9_]` run that starts at the first letter or underscore |
| Matchers.AssignFromLeftmost | src/parser.ts:112 | the search for `assignRe` returns the least start where it matches, and fails only when no start matches |
| Matchers.AssignCapturesWholeWord | src/parser.ts:118-120 | the captured task variable is a non-empty whole word of the line |
| Matchers.DefMatchLeftmost | src/parser.ts:159 | `def\s+(\w+)` fails exactly when no position starts a match, and otherwise captures the word of the leftmost match |
| Matchers.RefAt | src/parser.ts:176 | a `refRe` match captures the non-empty `[\w.-]` run that starts five characters in (after `ref(` and a quote), and spans at least eight characters ending at the closing `)` |
| Matchers.RefMatchesFromSound | src/parser.ts:184-185 | every name the `exec` loop collects is the capture of a match at or after the search start |
| Matchers.RefMatchesFromLeftmost | src/parser.ts:184-185 | the `exec` loop collects the leftmost match at or after `lastIndex` first, then resumes at that match's end; none is skipped |
| Matchers.RefMatchesFromNone | src/parser.ts:184 | with no match at or after the search start, the loop collects nothing |
| Pipeline.AddDependenciesClosedForm | src/parser.ts:184-190 | the dependency pushes append exactly one node and one edge into the target per name, in order |
| Pipeline.AddDependenciesAppends | src/parser.ts:186-189 | the dependency pushes keep the parser guarantees, and every name's id is mapped to line 1 of the file |
| Pipeline.RegisterAllEffect | src/parser.ts:203-209 | registering names appends exactly their nodes, adds no edge, and maps each id to line 1 |
| Airflow.ResolveVar | src/parser.ts:133-134 | the recorded id when the variable was assigned, and `nodeId(file, a)` under a record that only holds computed ids |
| Airflow.LinksExact | src/parser.ts:129-132 | `(a, b)` is linked exactly when two neighbouring `>>` parts yield `a` and `b` |
| Airflow.LinksOfFullChain | src/parser.ts:128-137 | in a chain whose every part names a variable, each part is linked to the next (`a >> b >> c` gives a→b and b→c) |
| Airflow.ChainFromIsLinks | src/parser.ts:129-139 | the `j` loop performs exactly the pushes of the reference list of links |
| Airflow.ApplyLinksClosedForm | src/parser.ts:135-137 | the links append both endpoint nodes and then the edge, link after link |
| Airflow.NoChainWithoutArrows | src/parser.ts:127 | a line without `>>` links nothing, so the guard changes no result |
| Airflow.SoundLinksCanonical | src/parser.ts:133-134 | under a record of assigned variables, every chain node and edge uses `nodeId(file, name)` |
| Airflow.AssignStepEffect | src/parser.ts:118-125 | an assignment pushes exactly its node, maps its id to line `i + 1`, adds no edge and keeps the record sound; no match changes nothing |
| Airflow.ChainStepEffect | src/parser.ts:127-140 | a chain line appends the edges and endpoint nodes of its links and changes neither the mapping nor the record |
| Airflow.LineStepRegisters | src/parser.ts:123-124 | an assignment's node ends the line pushed, and its id is mapped to line `i + 1` |
| Airflow.ParseAirflowPythonAppends | src/parser.ts:104-142 | the parser only appends, gives every new node the id `nodeId(file, label)`, keeps a closed graph closed, and maps into `file` at lines 1 to the line count |
| Airflow.ParseAirflowPythonEdgesSound | src/parser.ts:127-140 | every edge added is the edge of a link `a >> b` written on some line |
| Airflow.AirflowEdgesComplete | src/parser.ts:127-140 | every link on every line gets its edge, and both endpoint nodes are pushed |
| Airflow.ParseAirflowPythonTasks | src/parser.ts:118-125 | every operator assignment in the content registers its task, mapped into `file` |
| Airflow.StoreAsWritten | src/parser.ts:122 | `vars[name] = id` on a plain object stores the id, except that `__proto__` is never stored |
| Airflow.ResolveAsWritten | src/parser.ts:133-134 | the lookup as written yields an inherited `Object.prototype` member exactly for an unassigned name among that prototype's members |
| Airflow.ResolveAsWrittenAgrees | src/parser.ts:133-134 | away from the prototype's member names, the lookup as written gives the same id as `ResolveVar` |
| Airflow.ResolveAsWrittenInherits | src/parser.ts:133 | `constructor` resolves to an inherited member as written, and to `nodeId(file, "constructor")` in the model |
| Prefect.TaskMatchIff | src/parser.ts:158-160 | a task is found exactly when the trimmed line starts with `@task` and a next line exists and holds `def`, white space and a word somewhere |
| Prefect.ParsePrefect | src/parser.ts:149-167 | the Prefect parser never adds an edge |
| Prefect.PrefectTaskLine | src/parser.ts:157-166 | once the loop ends, the id of the task found at index `t` is mapped to line `t + 2`, unless a later task with the same id overwrites it |
| Prefect.ParsePrefectTaskLine | src/parser.ts:161-163 | the mapping entry of a decorated task is the line of its `def`, `t + 2` |
| Prefect.ParsePrefectAppends | src/parser.ts:149-167 | the parser only appends, gives every new node the id `nodeId(file, label)`, and maps into `file` at lines 2 to the line count |
| Prefect.PrefectNodeSound | src/parser.ts:157-166 | every node the loop pushes belongs to a task found on some line |
| Prefect.PrefectTaskComplete | src/parser.ts:157-166 | every task found is pushed, with its id mapped into `file` |
| Prefect.DefWithoutParenthesis | src/parser.ts:159 | under `@task`, a line `def x` with nothing after the name declares the task `x` |
| DbtSql.LastComponent | src/parser.ts:177 | what follows the last `/`: a suffix of the path without `/` that is preceded by a `/` |
| DbtSql.ModelNameOfPath | src/parser.ts:177 | the model name of `dir/name.sql` is `name` |
| DbtSql.ModelNameHasNoSlash | src/parser.ts:177 | a model name contains no `/` |
| DbtSql.ParseDbtSqlShape | src/parser.ts:169-191 | appends the model's node and then one node and one edge into the model per `ref` match, in order; each target is hashed with this file's path |
| DbtSql.ParseDbtSqlEdgesEndAtModel | src/parser.ts:189 | every edge added ends at the model's id |
| DbtSql.ParseDbtSqlAppends | src/parser.ts:179-188 | the parser keeps the parser guarantees and maps every id it writes, the model's included, to line 1 |
| DbtSql.ParseDbtSqlTargetsMapped | src/parser.ts:186-188 | every `ref` target's id is mapped to line 1 of the referencing file |
| YamlParsers.Member | src/parser.ts:204 | reading a property throws exactly on `null`, and only a mapping has the properties the parsers read |
| YamlParsers.ModelNamesStopAtNull | src/parser.ts:203-211 | a `null` entry in `models` hides every model declared after it |
| YamlParsers.ModelsFromRegisters | src/parser.ts:203-209 | the loop registers exactly the declared models with a truthy `name`, in order |
| YamlParsers.ParseYamlForDbtEffect | src/parser.ts:193-212 | no edge is added; one node per declared model is appended with its id mapped to line 1; a failed load or a `models` that is not an array changes nothing |
| YamlParsers.Jobs | src/parser.ts:225 | `Object.keys(doc.jobs)` gives one job per mapping entry, array element or string code unit, and none for other values |
| YamlParsers.JobsKeys | src/parser.ts:225-230 | the keys are a mapping's keys in order, or the indices of an array's elements or a string's code units; each job carries the result of reading its `needs` (none for a string's characters) |
| YamlParsers.NeedCount | src/parser.ts:230-243 | `needs` yields one name per array element, itself when it is a string, and none otherwise |
| YamlParsers.ItemStringAt | src/parser.ts:232-233 | the `k`-th name of an array of `needs` is the string its `k`-th element makes in the key template |
| YamlParsers.JobsFromNodes | src/parser.ts:225-244 | the job loop appends exactly the reference nodes: each job, then its `needs`, stopping after a job that throws |
| YamlParsers.JobsFromEdges | src/parser.ts:225-244 | the job loop appends exactly the reference edges, from each `needs` name to its job |
| YamlParsers.JobsFromAppends | src/parser.ts:225-244 | the job loop keeps the parser guarantees with every entry at line 1 |
| YamlParsers.JobEdgeSource | src/parser.ts:225-243 | every reference edge is one of the edges pushed for a single job the loop reaches, at a position among that job's `needs` |
| YamlParsers.JobEdgeIsNeedsEdge | src/parser.ts:232-236 | every reference edge runs from the id of a name in some job's `needs` to that job's id |
| YamlParsers.ParseGithubActionsJobs | src/parser.ts:225-228 | every job the loop reaches (no earlier job is `null`) gets its node |
| YamlParsers.ParseGithubActionsEdges | src/parser.ts:230-243 | every edge added runs from a `needs` name of some job to that job |
| YamlParsers.ParseGithubActionsCounts | src/parser.ts:214-246 | with no `null` job: one node per job and per `needs` name, and one edge per `needs` name |
| Scanner.AddAllSet | src/parser.ts:36-42 | adding to the `Set` keeps its elements distinct and in place, and adds exactly the new ones |
| Scanner.Candidates | src/parser.ts:37-44 | a `.py` file is added exactly when it can be read and contains `DAG(`, `airflow` or `@task` |
| Scanner.PythonQueueMembers | src/parser.ts:33-46 | each Python file is parsed at most once; the `_dag.py` files come first; the rest are exactly the readable `.py` files that pass the filter |
| Scanner.DedupCorrect | src/parser.ts:73-78 | the de-duplicated nodes have distinct ids, each the last node with its id, in the order of first occurrence, with the same ids and no more nodes than the input |
| Scanner.ScanSound | src/parser.ts:21-82 | every edge endpoint and mapped id is an output node's id; every node id hashes a readable file and its label; every entry points at a line number of at least 1 in a readable file; the nodes are the de-duplicated parser output |
| Scanner.ScanOrder | src/parser.ts:46-79 | Python output precedes SQL output, which precedes YAML output; the edges are returned as the parsers left them |
| Scanner.EmptyWorkspace | src/parser.ts:28-81 | a workspace without files yields empty collections |
| Mermaid.EscapeMermaid | src/extension.ts:67-69 | every `"` of the result follows a backslash; every other character comes from the input; text without `"` is unchanged |
| Mermaid.UnescapeEscape | src/extension.ts:67-69 | escaping loses nothing: reading a backslash-quote as a quote gives back the label |
| Mermaid.EscapeLength | src/extension.ts:68 | the escaped text is one character longer per double quote |
| Mermaid.NodeLineLabel | src/extension.ts:62 | a node line is the id followed by `["…"]`, whose text reads back as the label, or as the id when the label is empty |
| Mermaid.MermaidLines | src/extension.ts:61-63 | the chart has the header, then one line per node, then one line per edge, in order |
| Mermaid.BuildMermaidLines | src/extension.ts:60-65 | when no id, label or endpoint holds a line break, splitting the chart at line feeds gives back exactly those lines |
| Mermaid.EmptyChart | src/extension.ts:61-64 | with no nodes or edges the chart is the header alone |

## Left out

- File system and glob: `glob` and `fs.readFile` become a `Workspace` value.
  It holds the four glob results in the order returned, and the text of each
  readable file. The code reads each `.py` file twice (lines 39 and 48); the
  model reads one snapshot of it. A file without content fails to read, and
  the surrounding `try`/`catch` skips it.
- Asynchrony: the `await`s run in sequence, so the scan is a sequential fold.
- `js-yaml`: the loader is a function parameter that returns a `Yaml` value,
  no document, or a thrown exception. The order of a mapping's entries stands
  for the order `Object.keys` reports. Duplicate keys and custom tags are left
  to the loader.
- Regular expressions in general: only the five patterns the core uses are
  modelled, each as a hand-written leftmost-first matcher.
- ParseAirflowPython: the model resolves `vars[a] ?? nodeId(file, a)` as an
  own-property lookup. On a plain `{}` the source also returns inherited
  `Object.prototype` members, such as `constructor`. The as-written lookup is
  modelled apart (see Findings).
- ParseYamlForDbt: a label is stored as its string conversion. A non-string
  `name` such as `42` is pushed raw in the source and shows up only later, when
  the chart is built.
- ParseGithubActions: a `needs` element is stored as its string conversion. The
  source pushes the raw value, so a `null`, `false` or `0` element has a falsy
  label, and a `true` element has a non-string one.
- BuildMermaid: labels are strings here, so two source behaviours are not
  modelled for a raw non-string label. A falsy one (`null`, `false`, `0`)
  falls back to the id through `n.label || n.id`. A truthy one makes
  `escapeMermaid` throw a TypeError, because it has no `replace`.
- JsString: a mapping always converts to `[object Object]`. The template
  literal `${file}::${key}` that builds every id throws a TypeError when the
  mapping has its own non-callable `toString` (or `valueOf`). Such a `needs`
  element ends `parseGithubActions` through its `catch`, and such a model
  `name` ends the `models` loop; the model hashes `[object Object]` instead.
  The loader's `!!binary` values (a `Uint8Array`) have no `Yaml` case either.
- ModelName: only Node's POSIX `path.basename` is modelled. On Windows the
  glob returns `\`-separated paths and the win32 rules apply, so the model name
  and its id differ from the model's.
- The VS Code plumbing of `src/extension.ts`: activation, commands, the
  webview and jumping to a location. The bundler configuration is also left out.

## Findings

| source | as written | input that shows it | evidently intended | confidence | as-written member | corrected member |
|---|---|---|---|---|---|---|
| src/parser.ts:133-134 | `vars[a] ?? nodeId(file, a)` with `vars = {}` finds members that every plain object inherits from `Object.prototype` | a `_dag.py` line `extract >> constructor` with no assignment of `constructor`: the endpoint's id is the `Object` function, not a string | own-property lookup, falling back to `nodeId(file, a)` | not executed | Airflow.ResolveAsWritten, Airflow.ResolveAsWrittenInherits | Airflow.ResolveVar, Airflow.ParseAirflowPython, Airflow.ParseAirflowPythonAppends |
