/** The pipeline of `transform` (lib/recon.js:249-463) as functions: which
    transforms run, which nodes each receives, the order of the jobs, and what
    is done to each job's results before they are merged into the graph. */
module Orchestration {
  import opened Base
  import opened Text
  import opened Graph

  /** The static metadata of a transform class. `className` is the class's
      own name, which the `name` filter tests. */
  datatype Desc = Desc(className: string, title: string, description: string, group: string,
                       alias: seq<string>, tags: seq<string>, types: seq<string>,
                       priority: int, noise: int)

  /** A transform picked to run: its registry key and its metadata. */
  datatype Job = Job(key: string, desc: Desc)

  /** A regular expression, as the strings it accepts. */
  type Pattern = string -> bool

  /** The `filter` setting: a noise threshold and four metadata patterns. */
  datatype Filter = Filter(noise: Option<int>, name: Option<Pattern>, alias: Option<Pattern>,
                           title: Option<Pattern>, tag: Option<Pattern>)

  /** The `extract` setting: a dotted property path, and text around its value. */
  datatype Extract = Extract(property: string, prefix: string, suffix: string)

  /** The settings of one `transform` call. A limit of 0 is an absent one. */
  datatype Settings = Settings(group: bool, weight: bool, filter: Option<Filter>,
                               extract: Option<Extract>, maxNodesWarn: nat, maxNodesCap: nat)

  /** The label detectors isUrl, isEmail, isIpv4, isIpv6 and isDomain. */
  datatype Detectors = Detectors(isUrl: Pattern, isEmail: Pattern, isIpv4: Pattern,
                                 isIpv6: Pattern, isDomain: Pattern)

  /** What a job's `run` did: it threw, or it returned result specs. */
  datatype Outcome = Crashed | Returned(specs: seq<NodeSpec>)

  /** The warnings a job leaves. */
  datatype Notice = JobFailed(title: string) | WillAdd(title: string, count: nat) | Capped(title: string, cap: nat)

  /** What one job adds to the transform's output. */
  datatype JobResult = JobResult(specs: seq<NodeSpec>, notices: seq<Notice>)

  /** A successful plan: the jobs in the order they run, and what they give. */
  datatype Planned = Planned(jobs: seq<Job>, results: seq<NodeSpec>, notices: seq<Notice>)

  // ---------------------------------------------------------------- resolution

  /** The names a transformation asks for (lib/recon.js:257-262). */
  function Names(order: seq<string>, transformation: string): seq<string>
  {
    if transformation == "*" then order else [Lower(transformation)]
  }

  function UnknownTransform(name: string): string
  {
    "Unknown transform " + name
  }

  /** The registry lookup of each name; the first unknown name throws
      (lib/recon.js:264-267). */
  function ResolveNames(registry: map<string, Desc>, names: seq<string>): (r: Result<seq<Job>>)
    ensures r.Success? <==> forall i :: 0 <= i < |names| ==> names[i] in registry
    ensures r.Success? ==> |r.value| == |names|
    ensures r.Success? ==> forall i :: 0 <= i < |names| ==> r.value[i] == Job(names[i], registry[names[i]])
    ensures r.Failure? ==>
      exists i :: 0 <= i < |names| && names[i] !in registry && r.error == UnknownTransform(names[i])
  {
    if |names| == 0 then Success([])
    else if names[0] !in registry then Failure(UnknownTransform(names[0]))
    else
      var rest := ResolveNames(registry, names[1..]);
      assert forall i :: 1 <= i < |names| ==> names[i] == names[1..][i - 1];
      match rest
      case Failure(e) => Failure(e)
      case Success(js) => Success([Job(names[0], registry[names[0]])] + js)
  }

  function Resolve(registry: map<string, Desc>, order: seq<string>, transformation: string): Result<seq<Job>>
  {
    ResolveNames(registry, Names(order, transformation))
  }

  /** A named transformation resolves exactly when its lower-cased name is
      registered, to that one transform; `*` resolves to every key in order. */
  lemma ResolveSpec(registry: map<string, Desc>, order: seq<string>, transformation: string)
    requires forall i :: 0 <= i < |order| ==> order[i] in registry
    ensures transformation != "*" ==>
      (Resolve(registry, order, transformation).Success? <==> Lower(transformation) in registry)
    ensures transformation != "*" && Lower(transformation) !in registry ==>
      Resolve(registry, order, transformation) == Failure(UnknownTransform(Lower(transformation)))
    ensures transformation != "*" && Lower(transformation) in registry ==>
      Resolve(registry, order, transformation)
        == Success([Job(Lower(transformation), registry[Lower(transformation)])])
    ensures transformation == "*" ==> Resolve(registry, order, transformation).Success?
    ensures transformation == "*" ==> |Resolve(registry, order, transformation).value| == |order|
    ensures transformation == "*" ==>
      forall i :: 0 <= i < |order| ==> Resolve(registry, order, transformation).value[i].key == order[i]
  {
    if transformation != "*" {
      var r := Resolve(registry, order, transformation);
      var n := Lower(transformation);
      assert Names(order, transformation) == [n];
      assert [n][1..] == [];
      assert ResolveNames(registry, [n][1..]) == Success([]);
      if n in registry {
        assert [Job(n, registry[n])] + [] == [Job(n, registry[n])];
      }
    }
  }

  // ---------------------------------------------------------------- wildcard selection

  /** The tag a label adds: the first detector that accepts it
      (lib/recon.js:304-323). */
  function LabelTag(text: string, d: Detectors): (r: Option<string>)
    ensures r.None? <==>
      !d.isUrl(text) && !d.isEmail(text) && !d.isIpv4(text) && !d.isIpv6(text) && !d.isDomain(text)
    ensures r.Some? ==> r.value in {"uri", "email", "ipv4", "ipv6", "domain"}
    ensures r == Some("uri") <==> d.isUrl(text)
    ensures r == Some("email") <==> !d.isUrl(text) && d.isEmail(text)
    ensures r == Some("ipv4") <==> !d.isUrl(text) && !d.isEmail(text) && d.isIpv4(text)
    ensures r == Some("ipv6") <==> !d.isUrl(text) && !d.isEmail(text) && !d.isIpv4(text) && d.isIpv6(text)
    ensures r == Some("domain") <==>
      !d.isUrl(text) && !d.isEmail(text) && !d.isIpv4(text) && !d.isIpv6(text) && d.isDomain(text)
  {
    if d.isUrl(text) then Some("uri")
    else if d.isEmail(text) then Some("email")
    else if d.isIpv4(text) then Some("ipv4")
    else if d.isIpv6(text) then Some("ipv6")
    else if d.isDomain(text) then Some("domain")
    else None
  }

  /** The types one node contributes: its explicit type and at most one tag
      inferred from its label (lib/recon.js:297-329). */
  function ElementTags(e: Element, d: Detectors): (r: set<string>)
    ensures |r| <= 2
  {
    var own: set<string> := if e.typ != "" then {e.typ} else {};
    var tag := if e.lbl != "" then LabelTag(e.lbl, d) else None;
    var inferred: set<string> := if tag.Some? then {tag.value} else {};
    assert |own + inferred| <= |own| + |inferred|;
    own + inferred
  }

  function NodeTags(nodes: seq<Element>, d: Detectors): (r: set<string>)
    ensures forall t :: t in r <==> exists i :: 0 <= i < |nodes| && t in ElementTags(nodes[i], d)
  {
    if |nodes| == 0 then {}
    else
      var rest := NodeTags(nodes[1..], d);
      assert forall i :: 1 <= i < |nodes| ==> nodes[i] == nodes[1..][i - 1];
      ElementTags(nodes[0], d) + rest
  }

  /** A transform applies when one of its types is among the tags. */
  predicate Applies(desc: Desc, tags: set<string>)
  {
    exists i :: 0 <= i < |desc.types| && desc.types[i] in tags
  }

  /** The threshold of a filter: its noise, 10 when absent (lib/recon.js:334). */
  function NoiseLimit(f: Filter): int
  {
    if f.noise.Some? then f.noise.value else 10
  }

  predicate HasPatterns(f: Filter)
  {
    f.name.Some? || f.alias.Some? || f.title.Some? || f.tag.Some?
  }

  /** A pattern that some element of `xs` satisfies. */
  predicate AnyMatches(p: Option<Pattern>, xs: seq<string>)
  {
    p.Some? && exists i :: 0 <= i < |xs| && p.value(xs[i])
  }

  /** The metadata test as evidently intended: a transform is kept when its
      class name, one of its aliases, its title or one of its tags matches the
      corresponding pattern. */
  predicate MetaMatch(desc: Desc, f: Filter)
  {
    || (f.name.Some? && f.name.value(desc.className))
    || AnyMatches(f.alias, desc.alias)
    || (f.title.Some? && f.title.value(desc.title))
    || AnyMatches(f.tag, desc.tags)
  }

  /** The jobs that satisfy `keep`, in their order. */
  function KeepJobs(jobs: seq<Job>, keep: Job -> bool): (r: seq<Job>)
    ensures |r| <= |jobs|
    ensures forall j :: j in r <==> j in jobs && keep(j)
  {
    if |jobs| == 0 then []
    else
      var rest := KeepJobs(jobs[..|jobs| - 1], keep);
      assert forall j :: j in jobs <==> j in jobs[..|jobs| - 1] || j == jobs[|jobs| - 1];
      rest + (if keep(jobs[|jobs| - 1]) then [jobs[|jobs| - 1]] else [])
  }

  /** Filtering a concatenation filters each part and keeps them in order:
      the kept jobs keep their relative order. */
  lemma {:induction false} KeepJobsAppend(a: seq<Job>, b: seq<Job>, keep: Job -> bool)
    ensures KeepJobs(a + b, keep) == KeepJobs(a, keep) + KeepJobs(b, keep)
  {
    if |b| == 0 {
      assert a + b == a;
    } else {
      var init := b[..|b| - 1];
      var x := b[|b| - 1];
      assert (a + b)[..|a + b| - 1] == a + init;
      assert (a + b)[|a + b| - 1] == x;
      KeepJobsAppend(a, init, keep);
      var t := if keep(x) then [x] else [];
      assert KeepJobs(a + b, keep) == KeepJobs(a + init, keep) + t;
      assert KeepJobs(b, keep) == KeepJobs(init, keep) + t;
    }
  }

  /** The jobs whose types meet the node tags and, under a filter, whose
      noise is within its limit (lib/recon.js:330-335). */
  function Candidates(jobs: seq<Job>, nodes: seq<Element>, filter: Option<Filter>, d: Detectors): (r: seq<Job>)
    ensures forall j :: j in r <==>
      && j in jobs
      && Applies(j.desc, NodeTags(nodes, d))
      && (filter.Some? ==> j.desc.noise <= NoiseLimit(filter.value))
  {
    var tags := NodeTags(nodes, d);
    var typed := KeepJobs(jobs, (j: Job) => Applies(j.desc, tags));
    if filter.None? then typed
    else KeepJobs(typed, (j: Job) => j.desc.noise <= NoiseLimit(filter.value))
  }

  /** The intended metadata test as a filter callback. */
  function MetaKeep(f: Filter): Job -> bool
  {
    (j: Job) => MetaMatch(j.desc, f)
  }

  /** Wildcard selection with the metadata filter as intended
      (lib/recon.js:296-349). */
  function SelectJobs(jobs: seq<Job>, nodes: seq<Element>, filter: Option<Filter>, d: Detectors): (r: seq<Job>)
    ensures forall j :: j in r <==>
      && j in jobs
      && Applies(j.desc, NodeTags(nodes, d))
      && (filter.Some? ==> j.desc.noise <= NoiseLimit(filter.value))
      && (filter.Some? && HasPatterns(filter.value) ==> MetaMatch(j.desc, filter.value))
  {
    var quiet := Candidates(jobs, nodes, filter, d);
    if filter.Some? && HasPatterns(filter.value) then KeepJobs(quiet, MetaKeep(filter.value)) else quiet
  }

  /** A transform on which the metadata filter as written throws: an alias
      pattern meets a non-empty alias list, or a tag pattern a non-empty tag
      list. */
  predicate Throws(desc: Desc, f: Filter)
  {
    (f.alias.Some? && |desc.alias| > 0) || (f.tag.Some? && |desc.tags| > 0)
  }

  /** The metadata filter as written (lib/recon.js:338-347): the callbacks of
      the alias and tag tests name their parameter like the pattern, so they
      call `test` on a string and throw a TypeError as soon as a supplied
      alias or tag pattern meets a transform with aliases or tags. */
  function MetaFilterAsWritten(jobs: seq<Job>, f: Filter): Result<seq<Job>>
  {
    if |jobs| == 0 then Success([])
    else
      var desc := jobs[0].desc;
      if f.alias.Some? && |desc.alias| > 0 then Failure("alias.test is not a function")
      else if f.tag.Some? && |desc.tags| > 0 then Failure("tag.test is not a function")
      else
        var keep := (f.name.Some? && f.name.value(desc.className)) || (f.title.Some? && f.title.value(desc.title));
        match MetaFilterAsWritten(jobs[1..], f)
        case Failure(e) => Failure(e)
        case Success(rest) => Success((if keep then [jobs[0]] else []) + rest)
  }

  /** Wildcard selection as written, which the pipeline runs. */
  function SelectJobsAsWritten(jobs: seq<Job>, nodes: seq<Element>, filter: Option<Filter>, d: Detectors): Result<seq<Job>>
  {
    var quiet := Candidates(jobs, nodes, filter, d);
    if filter.Some? && HasPatterns(filter.value) then MetaFilterAsWritten(quiet, filter.value) else Success(quiet)
  }

  /** Filtering a list that starts with `x`. */
  lemma {:induction false} KeepJobsCons(x: Job, rest: seq<Job>, keep: Job -> bool)
    ensures KeepJobs([x] + rest, keep) == (if keep(x) then [x] else []) + KeepJobs(rest, keep)
  {
    var s := [x] + rest;
    if |rest| > 0 {
      var init := rest[..|rest| - 1];
      assert s[..|s| - 1] == [x] + init;
      assert s[|s| - 1] == rest[|rest| - 1];
      KeepJobsCons(x, init, keep);
    } else {
      assert s[..|s| - 1] == [];
    }
  }

  /** The metadata filter as written throws exactly when some job meets
      `Throws`, and otherwise keeps what the intended filter keeps, since
      neither alias nor tag test can then match. */
  lemma {:induction false} MetaFilterAsWrittenSpec(jobs: seq<Job>, f: Filter)
    ensures MetaFilterAsWritten(jobs, f).Failure? <==> exists j :: j in jobs && Throws(j.desc, f)
    ensures MetaFilterAsWritten(jobs, f).Success? ==>
      MetaFilterAsWritten(jobs, f).value == KeepJobs(jobs, MetaKeep(f))
  {
    if |jobs| > 0 {
      var head := jobs[0];
      var tail := jobs[1..];
      assert jobs == [head] + tail;
      assert forall j :: j in jobs <==> j == head || j in tail;
      MetaFilterAsWrittenSpec(tail, f);
      if !Throws(head.desc, f) {
        assert !AnyMatches(f.alias, head.desc.alias) && !AnyMatches(f.tag, head.desc.tags);
        KeepJobsCons(head, tail, MetaKeep(f));
      }
    }
  }

  /** The selection as written throws exactly when a filter with patterns
      meets a candidate transform on which the test throws; when it does not
      throw, it selects what the intended filter selects. */
  lemma AsWrittenAgrees(jobs: seq<Job>, nodes: seq<Element>, filter: Option<Filter>, d: Detectors)
    ensures SelectJobsAsWritten(jobs, nodes, filter, d).Failure? <==>
      && filter.Some? && HasPatterns(filter.value)
      && exists j :: j in Candidates(jobs, nodes, filter, d) && Throws(j.desc, filter.value)
    ensures SelectJobsAsWritten(jobs, nodes, filter, d).Success? ==>
      SelectJobsAsWritten(jobs, nodes, filter, d).value == SelectJobs(jobs, nodes, filter, d)
  {
    if filter.Some? && HasPatterns(filter.value) {
      MetaFilterAsWrittenSpec(Candidates(jobs, nodes, filter, d), filter.value);
    }
  }

  /** An alias pattern that matches a transform's alias makes the code as
      written throw instead of keeping the transform, which the intended
      filter keeps. */
  lemma AliasFilterThrows(d: Detectors)
    requires d.isDomain("example.com") && !d.isUrl("example.com") && !d.isEmail("example.com")
    requires !d.isIpv4("example.com") && !d.isIpv6("example.com")
    ensures var desc := Desc("pwndbSearch", "PwnDB Search", "", "pwndb", ["pwndb_search", "pds"],
                             [], ["domain"], 1, 1);
      var node := Element(NodeKind, "n", "", "example.com", None, map[]);
      var f := Filter(None, None, Some(s => s == "pds"), None, None);
      && SelectJobsAsWritten([Job("pwndbsearch", desc)], [node], Some(f), d).Failure?
      && SelectJobs([Job("pwndbsearch", desc)], [node], Some(f), d) == [Job("pwndbsearch", desc)]
  {
    var desc := Desc("pwndbSearch", "PwnDB Search", "", "pwndb", ["pwndb_search", "pds"], [], ["domain"], 1, 1);
    var node := Element(NodeKind, "n", "", "example.com", None, map[]);
    var f := Filter(None, None, Some(s => s == "pds"), None, None);
    var job := Job("pwndbsearch", desc);
    assert "domain" in ElementTags(node, d);
    assert "domain" in NodeTags([node], d);
    assert Applies(desc, NodeTags([node], d)) by {
      assert desc.types[0] == "domain";
    }
    assert AnyMatches(f.alias, desc.alias) by {
      assert f.alias.value(desc.alias[1]);
    }
    var r := SelectJobs([job], [node], Some(f), d);
    assert job in r;
    assert forall j :: j in r ==> j == job;
    assert r == [job];
  }

  // ---------------------------------------------------------------- extraction

  /** `property.split('.').reduce((o, i) => o[i], props)`: reading a key of
      undefined or null throws (None); a missing key or a key of a primitive
      reads undefined. */
  function Walk(v: Value, keys: seq<string>): (r: Option<Value>)
    ensures |keys| > 0 && (v.Undefined? || v.Null?) ==> r.None?
    decreases |keys|
  {
    if |keys| == 0 then Some(v)
    else
      match v
      case Undefined => None
      case Null => None
      case Obj(fields) => Walk(if keys[0] in fields then fields[keys[0]] else Undefined, keys[1..])
      case _ => Walk(Undefined, keys[1..])
  }

  /** The value `props` holds as a JavaScript value. */
  function PropsValue(p: Option<Props>): Value
  {
    if p.Some? then Obj(p.value) else Undefined
  }

  /** A node's data with its label rewritten by `extract` (lib/recon.js:351-369). */
  function Relabel(e: Element, ex: Extract): (r: Element)
    ensures r.kind == e.kind && r.id == e.id && r.typ == e.typ && r.props == e.props && r.attrs == e.attrs
    ensures ex.property == "" ==> r == e
    ensures ex.property != "" ==> StartsWith(r.lbl, ex.prefix) && EndsWith(r.lbl, ex.suffix)
  {
    if ex.property == "" then e
    else
      var v := Walk(PropsValue(e.props), Split(ex.property, '.'));
      var text := if v.Some? then Render(v.value) else "";
      var lbl := ex.prefix + text + ex.suffix;
      assert lbl[..|ex.prefix|] == ex.prefix;
      assert lbl[|lbl| - |ex.suffix|..] == ex.suffix;
      e.(lbl := lbl)
  }

  function RelabelAll(nodes: seq<Element>, ex: Option<Extract>): (r: seq<Element>)
    ensures |r| == |nodes|
  {
    if ex.None? then nodes else seq(|nodes|, i requires 0 <= i < |nodes| => Relabel(nodes[i], ex.value))
  }

  /** A one-key path to a key the props hold gives that value's text. */
  lemma ExtractPresent(e: Element, ex: Extract)
    requires ex.property != "" && '.' !in ex.property
    requires e.props.Some? && ex.property in e.props.value
    ensures Relabel(e, ex).lbl == ex.prefix + Render(e.props.value[ex.property]) + ex.suffix
  {
    var p := ex.property;
    assert IndexOf(p, '.') == -1;
    assert Split(p, '.') == [p];
    assert [p][1..] == [];
    assert Walk(PropsValue(e.props), [p]) == Walk(e.props.value[p], []);
  }

  /** Without props, resolution throws and the label is prefix and suffix
      alone. */
  lemma ExtractWithoutProps(e: Element, ex: Extract)
    requires ex.property != "" && e.props.None?
    ensures Relabel(e, ex).lbl == ex.prefix + ex.suffix
  {
    assert |Split(ex.property, '.')| > 0;
  }

  // ---------------------------------------------------------------- ordering

  predicate SortedByPriority(s: seq<Job>)
  {
    forall i, j :: 0 <= i < j < |s| ==> s[i].desc.priority <= s[j].desc.priority
  }

  /** The jobs of one priority, in order. */
  function WithPriority(s: seq<Job>, p: int): seq<Job>
  {
    if |s| == 0 then []
    else WithPriority(s[..|s| - 1], p) + (if s[|s| - 1].desc.priority == p then [s[|s| - 1]] else [])
  }

  /** Puts `x` after every job whose priority is at most its own. */
  function InsertJob(s: seq<Job>, x: Job): seq<Job>
  {
    if |s| == 0 || s[|s| - 1].desc.priority <= x.desc.priority then s + [x]
    else InsertJob(s[..|s| - 1], x) + [s[|s| - 1]]
  }

  /** `transforms.sort((a, b) => a.priority - b.priority)`, a stable sort
      (lib/recon.js:372). */
  function SortByPriority(s: seq<Job>): seq<Job>
  {
    if |s| == 0 then [] else InsertJob(SortByPriority(s[..|s| - 1]), s[|s| - 1])
  }

  lemma {:induction false} InsertJobPerm(s: seq<Job>, x: Job)
    ensures multiset(InsertJob(s, x)) == multiset(s) + multiset{x}
  {
    if !(|s| == 0 || s[|s| - 1].desc.priority <= x.desc.priority) {
      var init := s[..|s| - 1];
      InsertJobPerm(init, x);
      assert s == init + [s[|s| - 1]];
    }
  }

  /** Inserting keeps every priority within a bound that holds for all jobs. */
  lemma InsertJobBounded(s: seq<Job>, x: Job, m: int)
    requires forall k :: 0 <= k < |s| ==> s[k].desc.priority <= m
    requires x.desc.priority <= m
    ensures forall i :: 0 <= i < |InsertJob(s, x)| ==> InsertJob(s, x)[i].desc.priority <= m
  {
    var r := InsertJob(s, x);
    InsertJobPerm(s, x);
    forall i | 0 <= i < |r| ensures r[i].desc.priority <= m {
      assert r[i] in multiset(s) + multiset{x};
      if r[i] != x {
        assert r[i] in s;
      }
    }
  }

  lemma {:induction false} InsertJobSorted(s: seq<Job>, x: Job)
    requires SortedByPriority(s)
    ensures SortedByPriority(InsertJob(s, x))
  {
    if !(|s| == 0 || s[|s| - 1].desc.priority <= x.desc.priority) {
      var init := s[..|s| - 1];
      var last := s[|s| - 1];
      InsertJobSorted(init, x);
      InsertJobPerm(init, x);
      var r0 := InsertJob(init, x);
      forall k | 0 <= k < |init| ensures init[k].desc.priority <= last.desc.priority {
        assert s[k] == init[k];
      }
      InsertJobBounded(init, x, last.desc.priority);
      var r := r0 + [last];
      assert InsertJob(s, x) == r;
      forall i, j | 0 <= i < j < |r| ensures r[i].desc.priority <= r[j].desc.priority {
        if j < |r0| {
          assert r[i] == r0[i] && r[j] == r0[j];
        } else {
          assert r[i] == r0[i];
        }
      }
    }
  }

  /** Inserting `x` adds it at the end of the jobs of its priority. */
  lemma {:induction false} InsertJobStable(s: seq<Job>, x: Job, p: int)
    requires SortedByPriority(s)
    ensures WithPriority(InsertJob(s, x), p) == WithPriority(s, p) + (if x.desc.priority == p then [x] else [])
  {
    var r := InsertJob(s, x);
    if |s| == 0 || s[|s| - 1].desc.priority <= x.desc.priority {
      assert r[..|r| - 1] == s;
    } else {
      var init := s[..|s| - 1];
      var last := s[|s| - 1];
      InsertJobStable(init, x, p);
      var r0 := InsertJob(init, x);
      assert r == r0 + [last];
      assert r[..|r| - 1] == r0;
      if last.desc.priority == p {
        assert x.desc.priority != p;
      }
    }
  }

  /** The sort orders jobs by ascending priority, loses and adds none, and
      keeps the jobs of equal priority in their order. */
  lemma {:induction false} SortByPrioritySpec(s: seq<Job>)
    ensures SortedByPriority(SortByPriority(s))
    ensures multiset(SortByPriority(s)) == multiset(s)
    ensures forall p :: WithPriority(SortByPriority(s), p) == WithPriority(s, p)
  {
    if |s| > 0 {
      var init := s[..|s| - 1];
      var x := s[|s| - 1];
      var sorted0 := SortByPriority(init);
      var r := SortByPriority(s);
      assert r == InsertJob(sorted0, x);
      SortByPrioritySpec(init);
      InsertJobSorted(sorted0, x);
      InsertJobPerm(sorted0, x);
      assert s == init + [x];
      assert multiset(s) == multiset(init) + multiset{x};
      forall p ensures WithPriority(r, p) == WithPriority(s, p) {
        InsertJobStable(sorted0, x, p);
        assert WithPriority(s, p) == WithPriority(init, p) + (if x.desc.priority == p then [x] else []);
      }
    }
  }

  // ---------------------------------------------------------------- one job

  /** The nodes a job receives: in wildcard mode those whose explicit type it
      declares, otherwise all of them (lib/recon.js:378-385). */
  function JobInput(job: Job, nodes: seq<Element>, wildcard: bool): (r: seq<Element>)
    ensures wildcard ==> forall e :: e in r <==> e in nodes && e.typ in job.desc.types
    ensures !wildcard ==> r == nodes
  {
    if !wildcard then nodes
    else if |nodes| == 0 then []
    else
      var last := nodes[|nodes| - 1];
      var rest := JobInput(job, nodes[..|nodes| - 1], wildcard);
      assert forall e :: e in nodes <==> e in nodes[..|nodes| - 1] || e == last;
      rest + (if last.typ in job.desc.types then [last] else [])
  }

  /** A wildcard job is chosen by the tags of all nodes, labels included, but
      receives only nodes by explicit type: a transform chosen for a label
      that looks like a domain receives no node when no node has type domain. */
  lemma ChosenJobMayGetNothing(d: Detectors, desc: Desc)
    requires d.isDomain("example.com") && !d.isUrl("example.com") && !d.isEmail("example.com")
    requires !d.isIpv4("example.com") && !d.isIpv6("example.com")
    requires desc.types == ["domain"]
    ensures var node := Element(NodeKind, "n", "brand", "example.com", None, map[]);
      && SelectJobs([Job("t", desc)], [node], None, d) == [Job("t", desc)]
      && JobInput(Job("t", desc), [node], true) == []
  {
    var node := Element(NodeKind, "n", "brand", "example.com", None, map[]);
    var job := Job("t", desc);
    assert "domain" in ElementTags(node, d);
    assert "domain" in NodeTags([node], d);
    assert desc.types[0] == "domain";
    SingleJobSelected(job, node, d);
    SingleNodeWithoutType(job, node);
  }

  lemma SingleJobSelected(job: Job, node: Element, d: Detectors)
    requires Applies(job.desc, NodeTags([node], d))
    ensures SelectJobs([job], [node], None, d) == [job]
  {
    var r := SelectJobs([job], [node], None, d);
    assert job in r;
    assert r[0] in r;
  }

  lemma SingleNodeWithoutType(job: Job, node: Element)
    requires node.typ !in job.desc.types
    ensures JobInput(job, [node], true) == []
  {
    assert [node][..0] == [];
  }

  /** The group node a job's results are parented under (lib/recon.js:423-429). */
  function GroupSpec(desc: Desc, makeId: (string, string) -> string): NodeSpec
  {
    NodeSpec(makeId("group", desc.group), "group", desc.group,
             Some(map["group" := Str(desc.group), "title" := Str(desc.title),
                      "description" := Str(desc.description)]),
             [], map[])
  }

  /** `result.parent = parentId`. */
  function SetParent(s: NodeSpec, pid: string): (r: NodeSpec)
    ensures "parent" in Rest(r) && Rest(r)["parent"] == Str(pid)
    ensures r.(rest := s.rest) == s
    ensures r.rest.Keys == s.rest.Keys + {"parent"}
    ensures forall k :: k in s.rest && k != "parent" ==> r.rest[k] == s.rest[k]
  {
    assert "parent" !in SpecKeys;
    s.(rest := s.rest["parent" := Str(pid)])
  }

  function WithParent(specs: seq<NodeSpec>, pid: string): (r: seq<NodeSpec>)
    ensures |r| == |specs|
    ensures forall i :: 0 <= i < |r| ==> r[i] == SetParent(specs[i], pid)
  {
    seq(|specs|, i requires 0 <= i < |specs| => SetParent(specs[i], pid))
  }

  /** The results a job contributes (lib/recon.js:403-447): a crash gives none;
      grouping prepends the group node and sets `parent` on every spec, the
      group node included; the warn limit only warns; the cap truncates. */
  function Finish(desc: Desc, outcome: Outcome, group: bool, warn: nat, cap: nat,
                  makeId: (string, string) -> string): (r: JobResult)
    ensures outcome.Crashed? ==> r.specs == [] && |r.notices| > 0 && r.notices[0] == JobFailed(desc.title)
    ensures cap > 0 ==> |r.specs| <= cap
  {
    var raw := if outcome.Returned? then outcome.specs else [];
    var failed := if outcome.Crashed? then [JobFailed(desc.title)] else [];
    var grouped := if |raw| > 0 && group
      then WithParent([GroupSpec(desc, makeId)] + raw, makeId("group", desc.group)) else raw;
    var warned := failed + (if warn > 0 && |grouped| > warn then [WillAdd(desc.title, |grouped|)] else []);
    if cap > 0 && |grouped| > cap then JobResult(grouped[..cap], warned + [Capped(desc.title, cap)])
    else JobResult(grouped, warned)
  }

  /** What a job's results become, stated against its raw results. */
  lemma FinishSpec(desc: Desc, outcome: Outcome, group: bool, warn: nat, cap: nat,
                   makeId: (string, string) -> string)
    ensures var r := Finish(desc, outcome, group, warn, cap, makeId).specs;
      var raw := if outcome.Returned? then outcome.specs else [];
      var n := if |raw| > 0 && group then |raw| + 1 else |raw|;
      && (outcome.Crashed? ==> r == [])
      && |r| == (if cap > 0 && n > cap then cap else n)
      && (!group ==> r == raw[..|r|])
      && (group && |raw| > 0 && |r| > 0 ==>
            r[0] == SetParent(GroupSpec(desc, makeId), makeId("group", desc.group))
            && forall i :: 1 <= i < |r| ==> r[i] == SetParent(raw[i - 1], makeId("group", desc.group)))
  {
    var raw := if outcome.Returned? then outcome.specs else [];
    if group && |raw| > 0 {
      var g := [GroupSpec(desc, makeId)] + raw;
      assert forall i :: 1 <= i < |g| ==> g[i] == raw[i - 1];
    } else {
      assert raw[..|raw|] == raw;
    }
  }

  /** What each job gives, in job order. `outcome(key, input)` is what the
      job's `run` does with its input nodes. */
  function Outputs(jobs: seq<Job>, nodes: seq<Element>, wildcard: bool,
                   outcome: (string, seq<Element>) -> Outcome, group: bool, warn: nat, cap: nat,
                   makeId: (string, string) -> string): (r: seq<JobResult>)
    ensures |r| == |jobs|
    ensures forall i :: 0 <= i < |jobs| ==>
      r[i] == Finish(jobs[i].desc, outcome(jobs[i].key, JobInput(jobs[i], nodes, wildcard)), group, warn, cap, makeId)
  {
    seq(|jobs|, i requires 0 <= i < |jobs| =>
      Finish(jobs[i].desc, outcome(jobs[i].key, JobInput(jobs[i], nodes, wildcard)), group, warn, cap, makeId))
  }

  /** The specs of several job results, concatenated (`[].concat(...results)`). */
  function Specs(rs: seq<JobResult>): seq<NodeSpec>
  {
    if |rs| == 0 then [] else Specs(rs[..|rs| - 1]) + rs[|rs| - 1].specs
  }

  function Notices(rs: seq<JobResult>): seq<Notice>
  {
    if |rs| == 0 then [] else Notices(rs[..|rs| - 1]) + rs[|rs| - 1].notices
  }

  /** The transform's output: every job's results, concatenated in job order
      (lib/recon.js:374-450). */
  function Collect(jobs: seq<Job>, nodes: seq<Element>, wildcard: bool,
                   outcome: (string, seq<Element>) -> Outcome, group: bool, warn: nat, cap: nat,
                   makeId: (string, string) -> string): JobResult
  {
    var rs := Outputs(jobs, nodes, wildcard, outcome, group, warn, cap, makeId);
    JobResult(Specs(rs), Notices(rs))
  }

  /** The output of a list of job results is that of its first part followed
      by that of the rest. */
  lemma {:induction false} SpecsSplit(rs: seq<JobResult>, k: nat)
    requires k <= |rs|
    ensures Specs(rs) == Specs(rs[..k]) + Specs(rs[k..])
    decreases |rs|
  {
    if k < |rs| {
      var init := rs[..|rs| - 1];
      var last := rs[|rs| - 1].specs;
      SpecsSplit(init, k);
      assert init[..k] == rs[..k];
      var tail := rs[k..];
      assert tail[..|tail| - 1] == init[k..];
      assert tail[|tail| - 1] == rs[|rs| - 1];
      assert Specs(tail) == Specs(init[k..]) + last;
      assert Specs(rs) == Specs(rs[..k]) + Specs(init[k..]) + last;
    } else {
      assert rs[..k] == rs;
      assert rs[k..] == [];
    }
  }

  /** Dropping a result without specs leaves the concatenated specs alone. */
  lemma {:induction false} SpecsDropEmpty(rs: seq<JobResult>, k: nat)
    requires k < |rs| && rs[k].specs == []
    ensures Specs(rs) == Specs(rs[..k] + rs[k + 1..])
  {
    var n := |rs| - 1;
    var init := rs[..n];
    if k == n {
      assert rs[..k] + rs[k + 1..] == init;
    } else {
      SpecsDropEmpty(init, k);
      var rs' := rs[..k] + rs[k + 1..];
      assert rs'[..|rs'| - 1] == init[..k] + init[k + 1..];
      assert rs'[|rs'| - 1] == rs[n];
    }
  }

  /** A job that throws contributes nothing, so the output is that of the other
      jobs. */
  lemma CrashedJobAddsNothing(jobs: seq<Job>, k: nat, nodes: seq<Element>, wildcard: bool,
                              outcome: (string, seq<Element>) -> Outcome, group: bool,
                              warn: nat, cap: nat, makeId: (string, string) -> string)
    requires k < |jobs|
    requires outcome(jobs[k].key, JobInput(jobs[k], nodes, wildcard)).Crashed?
    ensures Collect(jobs, nodes, wildcard, outcome, group, warn, cap, makeId).specs
         == Collect(jobs[..k] + jobs[k + 1..], nodes, wildcard, outcome, group, warn, cap, makeId).specs
  {
    var rs := Outputs(jobs, nodes, wildcard, outcome, group, warn, cap, makeId);
    var rest := jobs[..k] + jobs[k + 1..];
    var rs' := Outputs(rest, nodes, wildcard, outcome, group, warn, cap, makeId);
    forall i | 0 <= i < |rs'| ensures rs'[i] == (rs[..k] + rs[k + 1..])[i] {
      if i < k {
        assert rest[i] == jobs[i];
      } else {
        assert rest[i] == jobs[i + 1];
      }
    }
    assert rs' == rs[..k] + rs[k + 1..];
    SpecsDropEmpty(rs, k);
  }

  /** With a cap, every job adds at most `cap` specs. */
  lemma {:induction false} SpecsBounded(rs: seq<JobResult>, cap: nat)
    requires forall i :: 0 <= i < |rs| ==> |rs[i].specs| <= cap
    ensures |Specs(rs)| <= cap * |rs|
  {
    if |rs| > 0 {
      SpecsBounded(rs[..|rs| - 1], cap);
      assert cap * |rs| == cap * (|rs| - 1) + cap;
    }
  }

  /** The effective limit of a call: its own when given, else the instance's
      (lib/recon.js:252-253). */
  function Limit(own: nat, instance: nat): nat
  {
    if own != 0 then own else instance
  }

  // ---------------------------------------------------------------- the whole plan

  /** Everything `transform` decides before it merges the results: the jobs,
      their order, their inputs and their post-processed results. */
  function Plan(registry: map<string, Desc>, order: seq<string>, transformation: string,
                nodes: seq<Element>, s: Settings, d: Detectors,
                outcome: (string, seq<Element>) -> Outcome, makeId: (string, string) -> string,
                warn: nat, cap: nat): Result<Planned>
  {
    match Resolve(registry, order, transformation)
    case Failure(e) => Failure(e)
    case Success(all) =>
      var wildcard := transformation == "*";
      match (if wildcard then SelectJobsAsWritten(all, nodes, s.filter, d) else Success(all))
      case Failure(e) => Failure(e)
      case Success(chosen) =>
        var input := RelabelAll(nodes, s.extract);
        var jobs := SortByPriority(chosen);
        var out := Collect(jobs, input, wildcard, outcome, s.group,
                           Limit(s.maxNodesWarn, warn), Limit(s.maxNodesCap, cap), makeId);
        Success(Planned(jobs, out.specs, out.notices))
  }

  /** In wildcard mode the call fails exactly when the metadata filter as
      written throws on a candidate transform, and otherwise runs the jobs the
      intended filter selects, in priority order. */
  lemma PlanWildcard(registry: map<string, Desc>, order: seq<string>,
                     nodes: seq<Element>, s: Settings, d: Detectors,
                     outcome: (string, seq<Element>) -> Outcome, makeId: (string, string) -> string,
                     warn: nat, cap: nat)
    requires Resolve(registry, order, "*").Success?
    ensures var all := Resolve(registry, order, "*").value;
      var p := Plan(registry, order, "*", nodes, s, d, outcome, makeId, warn, cap);
      && (p.Failure? <==>
            && s.filter.Some? && HasPatterns(s.filter.value)
            && exists j :: j in Candidates(all, nodes, s.filter, d) && Throws(j.desc, s.filter.value))
      && (p.Success? ==> p.value.jobs == SortByPriority(SelectJobs(all, nodes, s.filter, d)))
  {
    AsWrittenAgrees(Resolve(registry, order, "*").value, nodes, s.filter, d);
  }

  /** An unknown transform name fails the call before any job runs. */
  lemma PlanFailsOnUnknown(registry: map<string, Desc>, order: seq<string>, transformation: string,
                           nodes: seq<Element>, s: Settings, d: Detectors,
                           outcome: (string, seq<Element>) -> Outcome, makeId: (string, string) -> string,
                           warn: nat, cap: nat)
    requires transformation != "*" && Lower(transformation) !in registry
    ensures Plan(registry, order, transformation, nodes, s, d, outcome, makeId, warn, cap)
         == Failure(UnknownTransform(Lower(transformation)))
  {
    assert Names(order, transformation) == [Lower(transformation)];
  }

  /** With a cap, the output holds at most `cap` specs per job. */
  lemma CollectBounded(jobs: seq<Job>, nodes: seq<Element>, wildcard: bool,
                       outcome: (string, seq<Element>) -> Outcome, group: bool,
                       warn: nat, cap: nat, makeId: (string, string) -> string)
    requires cap > 0
    ensures |Collect(jobs, nodes, wildcard, outcome, group, warn, cap, makeId).specs| <= cap * |jobs|
  {
    SpecsBounded(Outputs(jobs, nodes, wildcard, outcome, group, warn, cap, makeId), cap);
  }

  // ---------------------------------------------------------------- the jobs, run in turn

  /** One job's post-processing (lib/recon.js:403-447): `unshift` of the
      group node, the `forEach` that sets `parent`, and the `slice` to the cap. */
  method FinishJob(desc: Desc, out: Outcome, group: bool, warn: nat, cap: nat,
                   makeId: (string, string) -> string)
    returns (r: seq<NodeSpec>, n: seq<Notice>)
    ensures JobResult(r, n) == Finish(desc, out, group, warn, cap, makeId)
  {
    r, n := [], [];
    if out.Crashed? {
      n := [JobFailed(desc.title)];
    } else {
      r := out.specs;
    }
    if |r| > 0 && group {
      var pid := makeId("group", desc.group);
      r := [GroupSpec(desc, makeId)] + r;
      ghost var unparented := r;
      var k := 0;
      while k < |r|
        invariant 0 <= k <= |r| == |unparented|
        invariant forall m :: 0 <= m < k ==> r[m] == SetParent(unparented[m], pid)
        invariant forall m :: k <= m < |r| ==> r[m] == unparented[m]
      {
        r := r[k := SetParent(r[k], pid)];
        k := k + 1;
      }
      assert r == WithParent(unparented, pid);
    }
    if warn > 0 && |r| > warn {
      n := n + [WillAdd(desc.title, |r|)];
    }
    if cap > 0 && |r| > cap {
      n := n + [Capped(desc.title, cap)];
      r := r[..cap];
    }
  }

  /** The `Promise.all` over the sorted jobs, run one after the other; the
      output is every job's results in job order. */
  method RunJobs(jobs: seq<Job>, nodes: seq<Element>, wildcard: bool,
                 outcome: (string, seq<Element>) -> Outcome, group: bool, warn: nat, cap: nat,
                 makeId: (string, string) -> string)
    returns (results: seq<NodeSpec>, notices: seq<Notice>)
    ensures JobResult(results, notices) == Collect(jobs, nodes, wildcard, outcome, group, warn, cap, makeId)
  {
    ghost var rs := Outputs(jobs, nodes, wildcard, outcome, group, warn, cap, makeId);
    results, notices := [], [];
    var i := 0;
    while i < |jobs|
      invariant 0 <= i <= |jobs|
      invariant results == Specs(rs[..i]) && notices == Notices(rs[..i])
    {
      var job := jobs[i];
      var out := outcome(job.key, JobInput(job, nodes, wildcard));
      var r, n := FinishJob(job.desc, out, group, warn, cap, makeId);
      assert JobResult(r, n) == rs[i];
      CollectNext(rs, i);
      results, notices := results + r, notices + n;
      i := i + 1;
    }
    assert rs[..|rs|] == rs;
  }

  /** One job result more on a prefix of the results. */
  lemma CollectNext(rs: seq<JobResult>, i: nat)
    requires i < |rs|
    ensures Specs(rs[..i + 1]) == Specs(rs[..i]) + rs[i].specs
    ensures Notices(rs[..i + 1]) == Notices(rs[..i]) + rs[i].notices
  {
    assert rs[..i + 1][..i] == rs[..i];
  }
}
