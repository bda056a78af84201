# pown-recon core, modelled in Dafny

This project models the `Recon` class of pown-recon (lib/recon.js) and two of
its transform plugins, Shodan (lib/transforms/shodan/index.js) and PwnDB
(lib/transforms/pwndb/index.js), and proves properties of the model.

`Recon` keeps three things:
- a graph of nodes and edges;
- the current selection;
- a registry of transforms.

It offers these operations:
- `addNodes` merges node specs into the graph by id (`makeId(type, label)` when
  a spec has none), adds their edges under the id `edge:<type>:<source>:<target>`
  (or the edge object's own `id`), and selects the nodes it touched;
- `select` and `traverse` change the selection;
- `group` and `measure` annotate nodes;
- `transform` resolves transforms by name or by the `*` wildcard. It filters
  them by the types of the selected nodes and by noise, optionally relabels the
  input, and runs the jobs in priority order. It post-processes each job's
  results (group node and `parent`, warn limit, cap) and merges everything back
  into the graph. A filter with an alias or tag pattern throws on any
  candidate transform that has aliases or tags (see "## Findings"). The model's
  `transform` fails there as the code does, and leaves the graph and the
  selection unchanged.

The modules:
- `Base` holds values as JavaScript prints them. `Text` holds the string
  functions the code uses: `trim`, `toLowerCase`, `split`, `join`, `indexOf`.
- `Graph` describes `addNodes` as functions over an immutable store. `Traversal`
  covers the traversal language. `Orchestration` covers what `transform`
  decides before it touches the graph.
- `Recon` is the class itself. Its fields are the store, the selection and the
  registry, and its methods update them in place. Each method is proved equal
  to the functions of the modules above.
- `Shodan` and `Pwndb` are the two plugins. `Types` stands for the type names
  of lib/types.

Code in files that are not part of this model is a parameter or a class
constant, and nothing is claimed about its body. This covers:
- `makeId` (lib/utils);
- the label detectors (lib/detect);
- the traversal functions (lib/traverse);
- the graph library's selector matching;
- each transform's `run`;
- `encodeURIComponent`.

The HTTP responses the plugins read are given as inputs.

The graph primitive is modelled as a store that refuses an element whose id is
taken, and refuses an edge whose source or target is not a node. In
`addNodes` the source catches the library's error in both cases, reports it
with `emit('error', e)` and skips that element. The model skips it without an
error, which is what happens when the caller has attached an `'error'`
listener (see "## Left out"). `group` adds its node without a `try`, so there
the error escapes and nothing changes (`Recon.Recon.Group`).

When a step of `traverse` is unknown, the code has already assigned the
selection of the earlier steps, and then throws. So the earlier steps'
selection remains (`Recon.Recon.Traverse`, `Traversal.RunSteps`).

## Model

| member | source | states |
|---|---|---|
| Recon.Recon.constructor | lib/recon.js:11-33 | the given graph or an empty one, no transforms, empty selection, the instance limits; the object is valid |
| Recon.Recon.RegisterTransforms | lib/recon.js:35-39 | the registry becomes `Register` of the entries, keyed by lower-cased name; validity is kept |
| Recon.RegisterKeys | lib/recon.js:35-39 | after registration a name is registered iff it was before or it is the lower-cased name of some entry |
| Recon.RegisterLast | lib/recon.js:35-39 | the last entry registered under a lower-cased name is the one kept |
| Recon.RegisterWf | lib/recon.js:35-39 | the registry order stays duplicate-free and lists exactly the registered names |
| Recon.Recon.AddNodes | lib/recon.js:49-162 | the new store and selection are exactly `Graph.AddNodes` of the old store; the store stays well formed |
| Recon.AddSpecsLoop | lib/recon.js:54-157 | the spec loop (merge or create, collect, edges) computes `Graph.AddSpecs` |
| Recon.AddEdgesLoop | lib/recon.js:119-156 | the edge loop adds each accepted edge and skips a refused one, computing `Graph.AddEdges` |
| Graph.AddNodesSpec | lib/recon.js:49-162 | the store stays well formed and only grows; every spec's id is stored; the selection is duplicate-free, holds only nodes, and holds exactly the specs' ids that are nodes |
| Graph.NewEdge | lib/recon.js:119-147 | an edge entry becomes an edge from its source to the declaring node, with id `edge:<type>:<source>:<target>`, unless the edge object's own string `id` or `target` replaces them, as the spread of `...data` does; a bare-string edge has type `''` and no extra data |
| Graph.SameEdgeId | lib/recon.js:137-145 | two entries without an own id under one node get the same edge id iff they name the same type and source (parts without `:`) |
| Graph.EdgeIdInjective | lib/recon.js:141 | when type, source and target contain no `:`, the edge id determines all three |
| Graph.MergeSemantics | lib/recon.js:62-77 | a merge keeps id and kind; a non-empty type or label replaces the old one; incoming props overlay the old props, incoming keys win and other old keys stay; extra keys are laid over the record |
| Graph.MergeIdempotent | lib/recon.js:62-101 | merging the same spec again, into a merged or a new node, changes nothing |
| Graph.NodesOf | lib/recon.js:161 | the selection keeps exactly the collected elements that are nodes |
| Graph.AddSpecWf | lib/recon.js:54-156 | one spec keeps the batch well formed, stores and collects its id, and keeps what was collected |
| Graph.AddSpecFresh | lib/recon.js:86-156 | an element a spec creates, other than its own node, is an edge |
| Graph.AddSpecCollects | lib/recon.js:110-156 | a spec collects only its own node and its edges |
| Graph.AddSpecsWf | lib/recon.js:54-157 | a batch keeps the store well formed and never removes or re-kinds an element |
| Graph.AddSpecsHasIds | lib/recon.js:55-117 | every spec of a batch ends up stored and collected under its id |
| Graph.AddSpecsCollects | lib/recon.js:110-156 | what a batch collects is in the earlier collection, is a spec's id, or is an edge the batch created |
| Graph.NodesOfDistinct | lib/recon.js:161 | the selection of a duplicate-free collection is duplicate-free |
| Graph.PresentSpecsCreateNoNode | lib/recon.js:59-84 | specs whose ids are all present create no node |
| Graph.ReAddCreatesNoNode | lib/recon.js:55-61 | adding the same batch a second time creates no node, because every spec finds its node by id |
| Graph.InsertEdgeKeepsRefusal | lib/recon.js:137-155 | inserting an edge never makes a refused element acceptable |
| Graph.AddEdgesThenRefused | lib/recon.js:137-155 | once a node's edges are added, adding any of them again is refused |
| Graph.AddEdgesAppends | lib/recon.js:149 | the edge loop only appends to the collection |
| Graph.AddEdgesUnchanged | lib/recon.js:151-155 | edges that are all refused leave the batch as it is |
| Graph.AddSameSpecTwice | lib/recon.js:49-162 | adding a single spec twice gives the same store and selection as adding it once |
| Graph.AppendNew | lib/recon.js:111-149 | adding to a collection keeps one copy: membership is the old members plus the new one |
| Recon.Recon.Select | lib/recon.js:168-170 | the selection becomes `Matching`: every node when no selector is given (`cy.nodes('')`), otherwise the nodes that some selector matches, in graph order |
| Recon.MatchingIn | lib/recon.js:169 | an element is selected iff it is a node that some selector matches |
| Recon.MatchingSpec | lib/recon.js:169 | with no selector, a node is selected iff it is a node of the graph; with selectors, iff some selector matches it; each node is selected once |
| Recon.Recon.Unselect | lib/recon.js:172-174 | the selection becomes empty and the graph is unchanged (`untraverse`, at line 208, does the same) |
| Recon.Recon.Traverse | lib/recon.js:176-206 | the selection starts as all elements and becomes `RunSteps` of the parsed steps; an unknown step gives `Unrecognized traverse function <name>` and leaves the selection reached so far; the graph is not modified |
| Recon.RunStepsLoop | lib/recon.js:191-205 | the step loop computes `RunSteps` |
| Recon.Find | lib/recon.js:194-200 | the search over the registry keys finds `Lookup`: the first key whose lower-case form is the name |
| Traversal.RunStepsFails | lib/recon.js:193-203 | a traversal fails iff some step names no registered function, and the error names the first such step |
| Traversal.Lookup | lib/recon.js:194-200 | the first key whose lower-case form equals the name, and none iff no key matches |
| Traversal.ParsePart | lib/recon.js:181-188 | a step's argument is never empty, and its name is lower case and not empty for a part that starts with a visible character |
| Traversal.ParsePartSpec | lib/recon.js:182-187 | the name is the first word, lower-cased and trimmed; the argument is the rest after the first space, trimmed, or `*` |
| Traversal.Argument | lib/recon.js:186 | the argument is the trimmed rest, or `*` when that is empty |
| Traversal.Segment | lib/recon.js:179-180 | a part gives no step iff it is blank after trimming; otherwise it gives exactly the step parsed from the trimmed part |
| Traversal.ParseParts | lib/recon.js:177-189 | every parsed step has a non-empty lower-case name and a non-empty argument; there are no more steps than parts |
| Traversal.ParseExpression | lib/recon.js:178 | an expression parses to well-formed steps |
| Traversal.ParseAll | lib/recon.js:177 | all expressions parse to well-formed steps, concatenated in order |
| Traversal.ParsePipe | lib/recon.js:178-180 | `a|b` with no pipe in `a` gives the step of `a`, if it is not blank, followed by the steps of `b` |
| Traversal.LeadingPipes | lib/recon.js:178-180 | a run of pipes at the start adds only blank parts, which are dropped |
| Traversal.NameIsLower | lib/recon.js:185 | a lower-cased and trimmed name has no upper-case letter |
| Text.Split | lib/recon.js:182 | `split` with one character gives at least one piece, and no piece holds the separator |
| Text.JoinSplit | lib/recon.js:186 | joining the pieces of a split restores the string |
| Text.SplitJoin | lib/recon.js:182 | splitting a join of separator-free pieces gives the pieces back |
| Text.SplitRuns | lib/recon.js:178 | splitting at runs of a character gives at least one piece, and no piece holds it |
| Text.TrimStart | lib/recon.js:179 | trimming the start drops only whitespace and keeps a suffix that is empty or starts with a visible character |
| Text.TrimEnd | lib/recon.js:179 | trimming the end drops only whitespace and keeps a prefix that is empty or ends with a visible character |
| Text.Lower | lib/recon.js:185 | lower-casing keeps the length, leaves no upper-case letter, and changes only upper-case letters |
| Text.LowerFixes | lib/recon.js:185 | a lower-case string is its own lower-case form, so lower-casing is idempotent |
| Text.IndexOf | lib/transforms/pwndb/index.js:65 | `indexOf` is -1 iff the character is absent; otherwise it is the first position holding it |
| Recon.Recon.Group | lib/recon.js:212-225 | when the id `makeId('group', label)` is taken, the unguarded add throws and nothing changes; otherwise the group node is added, every node of the selection gets `parent` set to it, and nothing else changes |
| Recon.Recon.Ungroup | lib/recon.js:227-231 | every node of the selection gets `parent` set to null, and nothing else changes |
| Recon.Recon.Measure | lib/recon.js:233-239 | every node of the selection gets `weight` equal to the number of edges touching it in the graph before the call |
| Recon.Recon.Unmeasure | lib/recon.js:241-247 | every node of the selection gets `weight` 0 |
| Recon.Recon.Weigh | lib/recon.js:234-238 | the per-node loop sets `weight` on each listed node and keeps the store valid |
| Recon.Annotate | lib/recon.js:224-245 | setting one attribute on the listed elements changes no kind, id, type, label, props or order, and leaves other elements alone |
| Recon.AnnotateWf | lib/recon.js:224-245 | setting attributes keeps the store well formed |
| Recon.AnnotateKeepsDegree | lib/recon.js:237 | attributes do not change which edges touch a node |
| Recon.Recon.MergeResults | lib/recon.js:450-460 | the results go into the graph through `addNodes`, which becomes the new selection; with `weight`, the selection the call started from is measured in the grown graph |
| Recon.Recon.Transform | lib/recon.js:249-463 | an unknown name, or a metadata filter that throws, fails and changes nothing; otherwise the results and notices are those of `Plan` on the selection's data, the graph becomes `addNodes` of the results, the selection becomes that call's selection, and with `weight` the starting selection is measured afterwards |
| Recon.PlanJobs | lib/recon.js:255-448 | resolving, filtering as written (failing where the filter throws), relabelling, sorting and running the jobs computes `Plan` |
| Recon.Elements | lib/recon.js:292-294 | when every selected id is in the graph, the data of the selected elements in selection order, one per id; otherwise at most one per id, each taken from the graph |
| Orchestration.ResolveNames | lib/recon.js:264-267 | resolution succeeds iff every name is registered, giving one job per name in order; otherwise it fails with `Unknown transform <first unknown name>` |
| Orchestration.ResolveSpec | lib/recon.js:257-267 | a named transform resolves iff its lower-cased name is registered, to that one job; `*` resolves to every registered key in order |
| Orchestration.PlanFailsOnUnknown | lib/recon.js:264-267 | an unknown explicit name fails the call before any job runs |
| Orchestration.LabelTag | lib/recon.js:304-323 | a label gets no tag iff no detector accepts it; it gets each of uri, email, ipv4, ipv6, domain iff that detector accepts it and none before it in this order does |
| Orchestration.ElementTags | lib/recon.js:297-329 | a node contributes at most two types: its explicit type and one label tag |
| Orchestration.NodeTags | lib/recon.js:297-329 | a type is among the node types iff some selected node contributes it |
| Orchestration.KeepJobs | lib/recon.js:331-346 | `filter` keeps exactly the jobs that pass, and no more jobs than it is given |
| Orchestration.KeepJobsAppend | lib/recon.js:331-346 | filtering a concatenation is the concatenation of the filtered parts, so kept jobs keep their order |
| Orchestration.SelectJobs | lib/recon.js:331-347 | in wildcard mode a job is kept iff some declared type is a node type and, only when a filter is given, its noise is within the threshold (default 10) and it matches the metadata patterns |
| Orchestration.Candidates | lib/recon.js:330-335 | a job is a candidate iff some declared type is a node type and, when a filter is given, its noise is within the threshold (default 10) |
| Orchestration.MetaFilterAsWrittenSpec | lib/recon.js:337-347 | the metadata filter as written throws iff some job has aliases under an alias pattern or tags under a tag pattern; otherwise it keeps, in order, exactly the jobs the intended test keeps |
| Orchestration.AsWrittenAgrees | lib/recon.js:330-347 | wildcard selection as written fails iff a filter with patterns meets a candidate on which the test throws, and otherwise equals the intended selection |
| Orchestration.PlanWildcard | lib/recon.js:326-372 | in wildcard mode the plan fails iff the filter as written throws on a candidate, and otherwise runs the intended selection sorted by priority |
| Orchestration.AliasFilterThrows | lib/recon.js:338-347 | an alias pattern makes the code as written throw where the intended filter keeps the transform |
| Orchestration.Walk | lib/recon.js:359 | resolving a non-empty path through undefined or null throws |
| Orchestration.Relabel | lib/recon.js:351-369 | `extract` rewrites only the label; without a property it changes nothing; with one the label starts with the prefix and ends with the suffix |
| Orchestration.RelabelAll | lib/recon.js:351-370 | relabelling keeps the number of nodes |
| Orchestration.ExtractPresent | lib/recon.js:355-367 | a one-key path to a present prop gives prefix + the value's text + suffix |
| Orchestration.ExtractWithoutProps | lib/recon.js:358-363 | without props, resolution throws and the label becomes prefix + suffix |
| Orchestration.SortByPrioritySpec | lib/recon.js:372 | the sort orders jobs by ascending priority, is a permutation, and keeps the order of jobs of equal priority |
| Orchestration.InsertJobPerm | lib/recon.js:372 | inserting a job adds exactly that job |
| Orchestration.InsertJobSorted | lib/recon.js:372 | inserting into a sorted list keeps it sorted |
| Orchestration.InsertJobStable | lib/recon.js:372 | the inserted job goes after the jobs of its own priority |
| Orchestration.JobInput | lib/recon.js:380-385 | in wildcard mode a job receives exactly the nodes whose explicit type it declares; a named job receives all selected nodes |
| Orchestration.ChosenJobMayGetNothing | lib/recon.js:331-381 | a job chosen for a node's label tag receives no node when no explicit type matches |
| Orchestration.SetParent | lib/recon.js:431-433 | `parent` is set to the group id; the other fields and every other key of the spec keep their values, and no key is added but `parent` |
| Orchestration.Finish | lib/recon.js:403-447 | a failed job contributes no spec and a failure notice; with a cap, at most `cap` specs |
| Orchestration.FinishSpec | lib/recon.js:403-447 | the output length is the raw count, plus one group node when grouping non-empty results, cut to the cap; without grouping the output is a prefix of the raw results; with grouping the group node comes first and every element, the group node included, gets `parent` |
| Orchestration.FinishJob | lib/recon.js:403-447 | the post-processing statements (`unshift`, the `parent` loop, the warn and cap checks, `slice`) compute `Finish` |
| Orchestration.RunJobs | lib/recon.js:374-450 | running the jobs in turn computes `Collect`, the concatenation of their specs and notices |
| Orchestration.SpecsSplit | lib/recon.js:450 | concatenation splits at any job |
| Orchestration.SpecsDropEmpty | lib/recon.js:450 | a job without specs does not change the concatenation |
| Orchestration.CrashedJobAddsNothing | lib/recon.js:405-413 | a job that throws leaves the output equal to that of the other jobs |
| Orchestration.SpecsBounded | lib/recon.js:441-450 | with each job capped, the output has at most `cap` specs per job |
| Orchestration.CollectBounded | lib/recon.js:441-450 | with a cap, the transform adds at most `cap` specs per job |
| Base.DecimalRoundTrip | lib/transforms/shodan/index.js:56 | a number printed in decimal reads back as the same number |
| Base.NatToDecimal | lib/transforms/shodan/index.js:56 | `${n}` of a natural number is a non-empty string of digits |
| Shodan.Quoted | lib/transforms/shodan/index.js:127-181 | the query starts with `<filter>:"<label>" `, and without an extra query it is exactly that, with a trailing space |
| Shodan.EscapeIsLiteral | lib/transforms/shodan/index.js:188 | the escaped label, read as a pattern, stands literally for exactly the label |
| Shodan.Escape | lib/transforms/shodan/index.js:188 | escaping never shortens the label, and a label without regular-expression characters is used as is |
| Shodan.SslFilterSpec | lib/transforms/shodan/index.js:183-196 | the SSL filter accepts a match iff its subject CN or some extension's data equals the label or ends with `.` + label, with missing values read as `''` |
| Shodan.SslFilterWithoutCert | lib/transforms/shodan/index.js:184-193 | a match without SSL data passes only for the empty label |
| Shodan.SubdomainMatches | lib/transforms/shodan/index.js:190 | every host `<sub>.<label>` matches the label |
| Shodan.LookAlikeDoesNotMatch | lib/transforms/shodan/index.js:190 | a longer host that ends in the label without a dot in front of it does not match |
| Shodan.MatchSpecs | lib/transforms/shodan/index.js:50-64 | an accepted match gives an ipv4 spec with id `makeId(ipv4, ip)` and an edge to the searched node, then a `<port>/TCP` port spec with `port` and a boolean `ssl`, then one domain spec per hostname; all but the first link to the ipv4 id |
| Shodan.PortLabelRoundTrip | lib/transforms/shodan/index.js:56 | the port number reads back from the port label |
| Shodan.PageSpecsLinked | lib/transforms/shodan/index.js:45-65 | every spec of a page links to the searched node or to an ipv4 spec earlier in the list |
| Shodan.PageSpecsRejected | lib/transforms/shodan/index.js:46-48 | a filter that rejects every match yields no spec |
| Shodan.MatchSpecsLinked | lib/transforms/shodan/index.js:54-63 | every spec of a match links back to the searched node or to its ipv4 spec |
| Shodan.LinkedBackAppend | lib/transforms/shodan/index.js:45-65 | specs that link back stay linked back when concatenated |
| Shodan.HarvestIgnoresFilter | lib/transforms/shodan/index.js:67-71 | whether the loop ends before the responses run out does not depend on the filter, because the count includes rejected matches |
| Shodan.HarvestPages | lib/transforms/shodan/index.js:25-74 | the loop succeeds iff it stops within the given responses; otherwise it fails for lack of a response |
| Shodan.HarvestLinked | lib/transforms/shodan/index.js:25-76 | every result of a search links back to the searched node or to an earlier ipv4 spec |
| Shodan.HarvestStep | lib/transforms/shodan/index.js:28-74 | one page adds its specs and either stops, at the total, or continues with the count increased by all its matches |
| Shodan.HandleSearch | lib/transforms/shodan/index.js:18-77 | no key fails with `No shodan key supplied.` before any request; otherwise the results are `Harvest` of the responses, and the requests are pages 1, 2, … with the key and the query |
| Shodan.CollectPage | lib/transforms/shodan/index.js:45-65 | the match loop computes the page's specs |
| Shodan.Pages | lib/transforms/shodan/index.js:25-74 | the loop asks for at least one page |
| Shodan.DefaultNoiseFilter | lib/transforms/shodan/index.js:101-177 | under a filter that sets nothing, so the noise limit is 10, the filter as written does not throw and selects what the intended one does, wildcard mode never keeps the ORG search (noise 50), and keeps the SSL search (noise 9) iff it is registered and a selected node is a domain |
| Pwndb.BodyOfOtherType | lib/transforms/pwndb/index.js:64-72 | for a type other than domain or email, the body is the email body iff `@` occurs after the first character, and the domain body otherwise |
| Pwndb.DomainIsAnyUser | lib/transforms/pwndb/index.js:53-60 | for a label without `@`, the domain body is the email body for the user `%` |
| Pwndb.EmailPartsRoundTrip | lib/transforms/pwndb/index.js:58 | for a label with one `@`, user and domain are the two sides |
| Pwndb.FindFrom | lib/transforms/pwndb/index.js:79 | the first occurrence at or after a position, or -1 when there is none |
| Pwndb.PreContent | lib/transforms/pwndb/index.js:79-81 | the content is what lies between the first `<pre>` and the first `</pre>` at least one character after it; there is none iff no such pair exists |
| Pwndb.ParenFrom | lib/transforms/pwndb/index.js:82 | the `(` ending the run of non-word characters after `Array` |
| Pwndb.BlockAt | lib/transforms/pwndb/index.js:82 | a block match at a position ends after it, within the content |
| Pwndb.NextBlock | lib/transforms/pwndb/index.js:82-86 | the next block match ends after the position it was searched from |
| Pwndb.KeyAt | lib/transforms/pwndb/index.js:89 | only `[id]`, `[luser]`, `[domain]` and `[password]` are captured |
| Pwndb.LineEnd | lib/transforms/pwndb/index.js:89 | `.*` stops at the first line terminator or at the end |
| Pwndb.LineAt | lib/transforms/pwndb/index.js:89 | a captured line has one of the four keys and a value with no line terminator |
| Pwndb.NextLine | lib/transforms/pwndb/index.js:89-93 | the next captured line has one of the four keys and ends after the position it was searched from |
| Pwndb.Lines | lib/transforms/pwndb/index.js:89-95 | every captured line has one of the four keys |
| Pwndb.FoldLast | lib/transforms/pwndb/index.js:93-95 | a later line overwrites an earlier one: a key holds the value of its last line |
| Pwndb.FoldUntouched | lib/transforms/pwndb/index.js:93-95 | a key that no line names keeps its value |
| Pwndb.FoldKeys | lib/transforms/pwndb/index.js:93-95 | a key is in the entry iff some line names it |
| Pwndb.EntryOf | lib/transforms/pwndb/index.js:87-95 | an entry holds no key but the four |
| Pwndb.AccountLabelSplits | lib/transforms/pwndb/index.js:97-99 | the label `<id>@<luser>@<domain>` splits back into its three parts when none of them holds `@` |
| Pwndb.Accounts | lib/transforms/pwndb/index.js:86-100 | one spec per block, in document order, each the account of that block's entry |
| Pwndb.Parse | lib/transforms/pwndb/index.js:77-103 | no `<pre>` gives no result; every spec has type `pwndb:account` and one edge, to the searched node |
| Pwndb.OnlyFirstPre | lib/transforms/pwndb/index.js:79-81 | only the first `<pre>…</pre>` is read; whatever follows it adds nothing |
| Pwndb.Handle | lib/transforms/pwndb/index.js:46-104 | the body sent is `Body` of the type and label, and the results are `Parse` of the response |
| Pwndb.ReadBlocks | lib/transforms/pwndb/index.js:82-100 | the outer `exec` loop gives one account per block, in order |
| Pwndb.ReadEntry | lib/transforms/pwndb/index.js:87-95 | the inner `exec` loop builds the block's entry |
| Pwndb.SearchSelected | lib/transforms/pwndb/index.js:30-44 | under a filter that sets nothing, so the noise limit is 10, wildcard selection as written succeeds and keeps the registered PwnDB search when a selected node is a domain or an email |

## Left out

- The graph library (cytoscape) itself. The graph is a map from id to element
  plus the insertion order. Selector strings are an abstract
  `matches(selector, element)`, and the traversal functions are an abstract
  `apply`. `serialize`/`deserialize` (lib/recon.js:41-47) and batch start/end
  are not modelled.
- `removeNodes` (lib/recon.js:164-166): it only throws "Not implemented".
- Events, timers and the progress handler (lib/recon.js:269-290, 387-417,
  `emit` throughout). The warnings `transform` emits about a job (failed,
  will add, capped) are kept as a list of notices. Nothing else is logged.
  The model assumes the caller has attached an `'error'` listener. `Recon`
  extends `EventEmitter` and attaches none itself, and Node rethrows from
  `emit('error')` when no listener is attached. Without one, `addNodes` stops at
  the first refused element (lib/recon.js:80, 104, 114, 152), with the earlier
  elements already added. A job that throws (lib/recon.js:412) then rejects its
  promise, so `transform` rejects, where the model counts the job as empty
  (`Orchestration.Finish`, `Orchestration.CrashedJobAddsNothing`).
- `Promise.all` concurrency (lib/recon.js:374). The jobs run one after the
  other in sorted order. Their outcomes are given by the function parameter
  `outcome`, and the outputs keep job order as `Promise.all` does.
- The `NODE_ENV` assertion (lib/recon.js:86-88). The model follows
  production, where a missing type creates a node with an empty type.
- Recon.Recon.Group, Recon.Recon.Ungroup: `move` re-creates edges and moves
  elements in the library. The model sets `parent` on the nodes of the
  selection and does not reorder anything. Edges in the selection are
  ignored, and the library refuses a parent id that is not in the graph.
- Recon.Recon.Transform: the per-call limits are natural numbers, so the model
  does not cover negative limits. A zero limit stands for an absent or
  falsy one.
- Recon.Recon.Transform: the model assumes a stable sort, as V8 has had
  since version 7.
- `extract` (lib/recon.js:355-367) reads keys of objects only. Indexing a
  string or another primitive (`'abc'[0]`, `.length`) reads as absent and
  prints `undefined`.
- Lower-casing covers ASCII letters only.
- Base.Value, Orchestration.Desc, Orchestration.Filter: numbers are integers
  (`Value.Num`, a transform's `priority` and `noise`, a filter's `noise`).
  JavaScript numbers are doubles, so a fractional threshold such as
  `noise: 9.5` cannot be expressed. A filter's `noise` is an integer or
  absent. `noise: null` is not modelled: the destructuring default applies
  only to `undefined`, so null stays and compares as 0 (lib/recon.js:333-335).
- Graph.NewEdge: an edge object's own `id` or `target` replaces the built one
  only when it is a string. A non-string value is handed to the graph
  library, which is not part of this model, and the model keeps the built
  one.
- `Object.keys` puts integer-like keys first. The registry order of the model
  is insertion order.
- The transform base class `run` (lib/transform, not part of this model) is
  not modelled. It calls `handle` for each node. The model gives one
  `handle` call per searched node.
- Shodan.HandleSearch: `querystring.stringify`, the request, the retrying
  scheduler and `JSON.parse` are not modelled. The `key` parameter is the key
  already resolved: the fallback to `process.env.SHODAN_KEY`
  (lib/transforms/shodan/index.js:18) reads the environment and is left to
  the caller. The responses are a given
  sequence, and running out of them stands for a failed request.
- Shodan.HostMatches: the regular expression `(^P$|\.P$)` is modelled by what
  it accepts for a literal pattern `P`. General regular-expression semantics
  are not modelled.
- Pwndb.Handle: the request is not modelled, and neither is its five-times
  retry, `encodeURIComponent` (a function parameter) or `toString` of the
  body. The response text is given.
- Pwndb.BlockAt, Pwndb.LineAt: the two regular expressions are modelled as
  scanners for these patterns. They are not modelled by a general regex
  engine.
- The type names of lib/types (`DOMAIN_TYPE`, `EMAIL_TYPE`, …) are not part
  of this model. They are values of `Types.TypeNames`.
- lib/transforms/whoarethey/index.js: a wrapper over an external
  fingerprinting library.

## Findings

| source | as written | input that shows it | evidently intended | confidence | as-written member | corrected member |
|---|---|---|---|---|---|---|
| lib/recon.js:341-343 | the callbacks `(alias) => alias.test(alias)` and `(tag) => tag.test(tag)` shadow the filter's pattern, so `test` is called on a string | `transform('*', {}, { filter: { alias: /pds/ } })` with a transform whose aliases are non-empty throws `alias.test is not a function` | keep the transform when the alias (or tag) pattern matches one of its aliases (or tags) | not executed | Orchestration.AliasFilterThrows | Orchestration.SelectJobs |

The model runs the filter as written, so its `transform` fails where the code
throws. `Orchestration.AsWrittenAgrees` and `Orchestration.PlanWildcard` prove
that whenever it does not throw, it selects what `Orchestration.SelectJobs`
selects.
