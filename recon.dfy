/** The `Recon` class of lib/recon.js: a graph of nodes and edges, the current
    selection, and the registry of transforms, changed in place by its
    methods. */
module Recon {
  import opened Base
  import opened Text
  import opened Graph
  import opened Traversal
  import opened Orchestration

  // ---------------------------------------------------------------- store helpers

  /** The nodes among `ids` that some selector matches, in the order of `ids`.
      `matches(selector, data)` stands for the graph library's selector
      evaluation. */
  function MatchingIn(st: Store, ids: seq<string>, selectors: seq<string>,
                      matches: (string, Element) -> bool): (r: seq<string>)
    ensures forall x :: x in r <==>
      x in ids && IsNode(st, x) && exists i :: 0 <= i < |selectors| && matches(selectors[i], st.elems[x])
  {
    if |ids| == 0 then []
    else
      var x := ids[|ids| - 1];
      var keep := IsNode(st, x) && exists i :: 0 <= i < |selectors| && matches(selectors[i], st.elems[x]);
      MatchingIn(st, ids[..|ids| - 1], selectors, matches) + (if keep then [x] else [])
  }

  /** `cy.nodes(expressions.join(','))`, in graph order (lib/recon.js:168-170).
      With no expressions the joined selector is `''`, which the library does
      not apply, so every node is selected; otherwise the nodes matched by any
      selector. */
  function Matching(st: Store, selectors: seq<string>, matches: (string, Element) -> bool): seq<string>
  {
    if selectors == [] then NodesOf(st, st.order)
    else MatchingIn(st, st.order, selectors, matches)
  }

  /** No selector selects every node of the graph; with selectors, exactly the
      nodes some selector matches. Either way each node is selected once. */
  lemma MatchingSpec(st: Store, selectors: seq<string>, matches: (string, Element) -> bool)
    requires Wf(st)
    ensures selectors == [] ==> forall x :: x in Matching(st, selectors, matches) <==> IsNode(st, x)
    ensures selectors != [] ==> forall x :: x in Matching(st, selectors, matches) <==>
      IsNode(st, x) && exists i :: 0 <= i < |selectors| && matches(selectors[i], st.elems[x])
    ensures Distinct(Matching(st, selectors, matches))
  {
    if selectors == [] {
      NodesOfDistinct(st, st.order);
    } else {
      MatchingInDistinct(st, st.order, selectors, matches);
    }
  }

  lemma {:induction false} MatchingInDistinct(st: Store, ids: seq<string>, selectors: seq<string>,
                                               matches: (string, Element) -> bool)
    requires Distinct(ids)
    ensures Distinct(MatchingIn(st, ids, selectors, matches))
  {
    if |ids| > 0 {
      var init := ids[..|ids| - 1];
      assert Distinct(init);
      MatchingInDistinct(st, init, selectors, matches);
      var x := ids[|ids| - 1];
      assert x !in init;
    }
  }

  /** Sets attribute `key` of every element listed in `ids` to `f(id)`; no
      other data changes. */
  function Annotate(st: Store, ids: seq<string>, key: string, f: string -> Value): (r: Store)
    ensures r.order == st.order && r.elems.Keys == st.elems.Keys
    ensures forall x :: x in st.elems ==>
      && r.elems[x].kind == st.elems[x].kind && r.elems[x].id == st.elems[x].id
      && r.elems[x].typ == st.elems[x].typ && r.elems[x].lbl == st.elems[x].lbl
      && r.elems[x].props == st.elems[x].props
    ensures forall x :: x in st.elems && x in ids ==> r.elems[x].attrs == st.elems[x].attrs[key := f(x)]
    ensures forall x :: x in st.elems && x !in ids ==> r.elems[x] == st.elems[x]
  {
    Store(map x | x in st.elems :: if x in ids then st.elems[x].(attrs := st.elems[x].attrs[key := f(x)])
                                   else st.elems[x],
          st.order)
  }

  /** Changing attributes keeps the store well formed. */
  lemma AnnotateWf(st: Store, ids: seq<string>, key: string, f: string -> Value)
    requires Wf(st)
    ensures Wf(Annotate(st, ids, key, f))
  {
    var r := Annotate(st, ids, key, f);
    forall id | IsEdge(r, id)
      ensures IsNode(r, r.elems[id].kind.source) && IsNode(r, r.elems[id].kind.target)
    {
      assert IsEdge(st, id);
    }
  }

  /** The edges touching `x`, as `connectedEdges()` finds them. */
  function Incident(st: Store, x: string): set<string>
  {
    set e | e in st.elems && st.elems[e].kind.EdgeKind?
                          && (st.elems[e].kind.source == x || st.elems[e].kind.target == x)
  }

  function Degree(st: Store, x: string): nat
  {
    |Incident(st, x)|
  }

  function DegreeOf(st: Store): string -> Value
  {
    x => Num(Degree(st, x))
  }

  /** Attributes do not change which edges touch a node. */
  lemma AnnotateKeepsDegree(st: Store, ids: seq<string>, key: string, f: string -> Value, x: string)
    ensures Incident(Annotate(st, ids, key, f), x) == Incident(st, x)
  {
  }

  /** Annotating one more element is one more update of the store. */
  lemma AnnotateStep(st: Store, ids: seq<string>, x: string, key: string, f: string -> Value)
    requires x in st.elems
    ensures var a := Annotate(st, ids, key, f);
      Annotate(st, ids + [x], key, f)
        == a.(elems := a.elems[x := a.elems[x].(attrs := a.elems[x].attrs[key := f(x)])])
  {
    var a := Annotate(st, ids, key, f);
    var b := Annotate(st, ids + [x], key, f);
    var c := a.(elems := a.elems[x := a.elems[x].(attrs := a.elems[x].attrs[key := f(x)])]);
    assert c.elems[x].attrs == st.elems[x].attrs[key := f(x)];
    assert b.elems.Keys == c.elems.Keys;
    forall y | y in b.elems ensures b.elems[y] == c.elems[y] {
      if y != x && y in ids {
        assert y in ids + [x];
      }
    }
  }

  /** The loop step of `Weigh`: one more listed node annotated. */
  lemma AnnotateNext(st: Store, ids: seq<string>, i: nat, key: string, f: string -> Value)
    requires i < |ids| && ids[i] in st.elems
    ensures var a := Annotate(st, ids[..i], key, f);
      Annotate(st, ids[..i + 1], key, f)
        == a.(elems := a.elems[ids[i] := a.elems[ids[i]].(attrs := a.elems[ids[i]].attrs[key := f(ids[i])])])
  {
    assert ids[..i + 1] == ids[..i] + [ids[i]];
    AnnotateStep(st, ids[..i], ids[i], key, f);
  }

  /** The data of the selected elements (`this.selection.map(n => n.data())`). */
  function Elements(st: Store, sel: seq<string>): (r: seq<Element>)
    ensures |r| <= |sel|
    ensures forall i :: 0 <= i < |r| ==> r[i] in st.elems.Values
    ensures (forall x :: x in sel ==> x in st.elems) ==>
      r == seq(|sel|, i requires 0 <= i < |sel| => st.elems[sel[i]])
  {
    if |sel| == 0 then []
    else
      var x := sel[|sel| - 1];
      var init := Elements(st, sel[..|sel| - 1]);
      var r := init + (if x in st.elems then [st.elems[x]] else []);
      assert (forall y :: y in sel ==> y in st.elems) ==>
        r == seq(|sel|, i requires 0 <= i < |sel| => st.elems[sel[i]]) by {
        if forall y :: y in sel ==> y in st.elems {
          assert forall y :: y in sel[..|sel| - 1] ==> y in sel;
          assert |r| == |sel|;
          forall i | 0 <= i < |sel| ensures r[i] == st.elems[sel[i]] {
            if i < |sel| - 1 {
              assert r[i] == init[i];
            }
          }
        }
      }
      r
  }

  /** The node `group` adds (lib/recon.js:215-222). */
  function GroupNode(pid: string, text: string): Element
  {
    Element(NodeKind, pid, "group", text, Some(map[]), map[])
  }

  /** The registry of transforms: by lower-cased name, and the order in which
      the names were first registered. */
  datatype Registry = Registry(transforms: map<string, Desc>, order: seq<string>)

  ghost predicate RegistryWf(r: Registry)
  {
    Distinct(r.order) && forall k :: k in r.transforms <==> k in r.order
  }

  /** `registerTransforms` (lib/recon.js:35-39): each entry is stored under its
      lower-cased name, replacing an earlier one. */
  function Register(r: Registry, entries: seq<(string, Desc)>): Registry
  {
    if |entries| == 0 then r
    else
      var done := Register(r, entries[..|entries| - 1]);
      var e := entries[|entries| - 1];
      Registry(done.transforms[Lower(e.0) := e.1], AppendNew(done.order, Lower(e.0)))
  }

  /** Adding a key once keeps a sequence of distinct keys distinct. */
  lemma AppendNewDistinct(c: seq<string>, x: string)
    requires Distinct(c)
    ensures Distinct(AppendNew(c, x))
  {
    if x !in c {
      var o := c + [x];
      forall i, j | 0 <= i < j < |o| ensures o[i] != o[j] {
        if j == |o| - 1 {
          assert o[i] in c;
        }
      }
    }
  }

  /** Registration keeps the registry well formed. */
  lemma {:induction false} RegisterWf(r: Registry, entries: seq<(string, Desc)>)
    requires RegistryWf(r)
    ensures RegistryWf(Register(r, entries))
  {
    if |entries| > 0 {
      var init := entries[..|entries| - 1];
      RegisterWf(r, init);
      AppendNewDistinct(Register(r, init).order, Lower(entries[|entries| - 1].0));
    }
  }

  /** Registration keeps the names it had and adds the lower-cased names of
      the entries, and nothing else. */
  lemma {:induction false} RegisterKeys(r: Registry, entries: seq<(string, Desc)>)
    ensures forall k :: k in Register(r, entries).transforms <==>
      k in r.transforms || exists i :: 0 <= i < |entries| && Lower(entries[i].0) == k
  {
    if |entries| > 0 {
      var init := entries[..|entries| - 1];
      RegisterKeys(r, init);
      forall k ensures k in Register(r, entries).transforms <==>
        k in r.transforms || exists i :: 0 <= i < |entries| && Lower(entries[i].0) == k
      {
        if exists i :: 0 <= i < |entries| && Lower(entries[i].0) == k {
          var i :| 0 <= i < |entries| && Lower(entries[i].0) == k;
          if i < |init| {
            assert init[i] == entries[i];
          }
        }
        if exists i :: 0 <= i < |init| && Lower(init[i].0) == k {
          var i :| 0 <= i < |init| && Lower(init[i].0) == k;
          assert entries[i] == init[i];
        }
      }
    }
  }

  /** The last entry registered under a name is the one kept. */
  lemma {:induction false} RegisterLast(r: Registry, entries: seq<(string, Desc)>, i: nat)
    requires i < |entries|
    requires forall j :: i < j < |entries| ==> Lower(entries[j].0) != Lower(entries[i].0)
    ensures Lower(entries[i].0) in Register(r, entries).transforms
         && Register(r, entries).transforms[Lower(entries[i].0)] == entries[i].1
  {
    if i < |entries| - 1 {
      var init := entries[..|entries| - 1];
      assert init[i] == entries[i];
      forall j | i < j < |init| ensures Lower(init[j].0) != Lower(init[i].0) {
        assert init[j] == entries[j];
      }
      RegisterLast(r, init, i);
    }
  }

  /** The search of lib/recon.js:194-200: the first registry key whose
      lower-case form is `name`. */
  method Find(keys: seq<string>, name: string) returns (r: Option<string>)
    ensures r == Lookup(keys, name)
  {
    var k := 0;
    while k < |keys|
      invariant 0 <= k <= |keys|
      invariant Lookup(keys, name) == Lookup(keys[k..], name)
    {
      if Lower(keys[k]) == name {
        return Some(keys[k]);
      }
      assert keys[k..][1..] == keys[k + 1..];
      k := k + 1;
    }
    return None;
  }

  /** The edge loop of lib/recon.js:119-156 on a batch in progress. */
  method AddEdgesLoop(b: Batch, edges: seq<EdgeSpec>, target: string) returns (r: Batch)
    ensures r == AddEdges(b, edges, target)
  {
    r := b;
    var j := 0;
    while j < |edges|
      invariant 0 <= j <= |edges|
      invariant r == AddEdges(b, edges[..j], target)
    {
      var el := NewEdge(edges[j], target);
      if Accepts(r.store, el) {
        r := Batch(Insert(r.store, el), AppendNew(r.collection, el.id));
      }
      assert edges[..j + 1][..j] == edges[..j];
      j := j + 1;
    }
    assert edges[..|edges|] == edges;
  }

  /** The spec loop of lib/recon.js:54-157 on a batch in progress: merge into
      or create each node, collect it, add its edges. */
  method AddSpecsLoop(b: Batch, specs: seq<NodeSpec>, makeId: (string, string) -> string) returns (r: Batch)
    ensures r == AddSpecs(b, specs, makeId)
  {
    r := b;
    var i := 0;
    while i < |specs|
      invariant 0 <= i <= |specs|
      invariant r == AddSpecs(b, specs[..i], makeId)
    {
      var s := specs[i];
      var id := SpecId(s, makeId);
      var st := r.store;
      if id in st.elems {
        st := st.(elems := st.elems[id := Merge(st.elems[id], s)]);
      } else {
        st := Insert(st, NewNode(id, s));
      }
      r := AddEdgesLoop(Batch(st, AppendNew(r.collection, id)), s.edges, id);
      assert specs[..i + 1][..i] == specs[..i];
      i := i + 1;
    }
    assert specs[..|specs|] == specs;
  }

  /** The steps of lib/recon.js:193-203 from a selection. */
  method RunStepsLoop<S>(st: S, sel: seq<string>, steps: seq<Step>, keys: seq<string>,
                         apply: (S, string, seq<string>, string) -> seq<string>) returns (t: Traversed)
    ensures t == RunSteps(st, sel, steps, keys, apply)
  {
    var cur := sel;
    var i := 0;
    while i < |steps|
      invariant 0 <= i <= |steps|
      invariant RunSteps(st, sel, steps, keys, apply) == RunSteps(st, cur, steps[i..], keys, apply)
    {
      var key := Find(keys, steps[i].name);
      if key.None? {
        return Traversed(cur, Some(Unrecognized(steps[i].name)));
      }
      cur := apply(st, key.value, cur, steps[i].input);
      assert steps[i..][1..] == steps[i + 1..];
      i := i + 1;
    }
    return Traversed(cur, None);
  }

  /** lib/recon.js:255-448: resolve, filter, relabel, sort and run the jobs. */
  method PlanJobs(registry: map<string, Desc>, order: seq<string>, transformation: string,
                  nodes: seq<Element>, s: Settings, d: Detectors,
                  outcome: (string, seq<Element>) -> Outcome, makeId: (string, string) -> string,
                  warn: nat, cap: nat) returns (p: Result<Planned>)
    ensures p == Plan(registry, order, transformation, nodes, s, d, outcome, makeId, warn, cap)
  {
    var resolved := Resolve(registry, order, transformation);
    if resolved.Failure? {
      return Failure(resolved.error);
    }
    var wildcard := transformation == "*";
    var selected := if wildcard then SelectJobsAsWritten(resolved.value, nodes, s.filter, d) else Success(resolved.value);
    if selected.Failure? {
      return Failure(selected.error);
    }
    var chosen := selected.value;
    var input := RelabelAll(nodes, s.extract);
    var jobs := SortByPriority(chosen);
    var results, notices := RunJobs(jobs, input, wildcard, outcome, s.group,
                                    Limit(s.maxNodesWarn, warn), Limit(s.maxNodesCap, cap), makeId);
    return Success(Planned(jobs, results, notices));
  }

  // ---------------------------------------------------------------- the class

  class Recon {
    /** makeId of lib/utils, which is not part of this model. */
    const makeId: (string, string) -> string
    /** The label detectors of lib/detect, which are not part of this model. */
    const detectors: Detectors
    /** The names of the traversal functions of lib/traverse, in key order. */
    const traversals: seq<string>
    /** Calling a traversal function on a selection with an argument. */
    const apply: (Store, string, seq<string>, string) -> seq<string>
    /** Selector evaluation of the graph library. */
    const matches: (string, Element) -> bool

    var store: Store
    var selection: seq<string>
    var transforms: map<string, Desc>
    var transformOrder: seq<string>
    var maxNodesWarn: nat
    var maxNodesCap: nat

    ghost predicate Valid()
      reads this
    {
      Wf(store) && RegistryWf(Registry(transforms, transformOrder))
    }

    /** lib/recon.js:11-33: the given graph or a new empty one, no transforms,
        an empty selection. */
    constructor(cy: Option<Store>, makeId: (string, string) -> string, detectors: Detectors,
                traversals: seq<string>, apply: (Store, string, seq<string>, string) -> seq<string>,
                matches: (string, Element) -> bool, maxNodesWarn: nat, maxNodesCap: nat)
      requires cy.Some? ==> Wf(cy.value)
      ensures Valid()
      ensures store == (if cy.Some? then cy.value else EmptyStore) && selection == []
      ensures transforms == map[] && transformOrder == []
      ensures this.maxNodesWarn == maxNodesWarn && this.maxNodesCap == maxNodesCap
      ensures this.makeId == makeId && this.detectors == detectors && this.traversals == traversals
      ensures this.apply == apply && this.matches == matches
    {
      this.makeId := makeId;
      this.detectors := detectors;
      this.traversals := traversals;
      this.apply := apply;
      this.matches := matches;
      store := if cy.Some? then cy.value else EmptyStore;
      selection := [];
      transforms := map[];
      transformOrder := [];
      this.maxNodesWarn := maxNodesWarn;
      this.maxNodesCap := maxNodesCap;
    }

    /** lib/recon.js:35-39. */
    method RegisterTransforms(entries: seq<(string, Desc)>)
      requires Valid()
      modifies this`transforms, this`transformOrder
      ensures Valid()
      ensures Registry(transforms, transformOrder) == Register(Registry(old(transforms), old(transformOrder)), entries)
    {
      ghost var r0 := Registry(transforms, transformOrder);
      var i := 0;
      while i < |entries|
        invariant 0 <= i <= |entries|
        invariant Registry(transforms, transformOrder) == Register(r0, entries[..i])
      {
        var name := Lower(entries[i].0);
        transforms := transforms[name := entries[i].1];
        transformOrder := AppendNew(transformOrder, name);
        assert entries[..i + 1][..i] == entries[..i];
        i := i + 1;
      }
      assert entries[..|entries|] == entries;
      RegisterWf(r0, entries);
    }

    /** lib/recon.js:49-162: each spec merges into or creates its node, then
        its edges are added; refused edges are skipped. The selection becomes
        the nodes collected. */
    method AddNodes(specs: seq<NodeSpec>) returns (sel: seq<string>)
      requires Valid()
      modifies this`store, this`selection
      ensures Valid()
      ensures Batch(store, selection) == Graph.AddNodes(old(store), specs, makeId)
      ensures sel == selection
    {
      AddNodesSpec(store, specs, makeId);
      var b := AddSpecsLoop(Batch(store, []), specs, makeId);
      store := b.store;
      selection := NodesOf(b.store, b.collection);
      sel := selection;
    }

    /** lib/recon.js:168-170. */
    method Select(selectors: seq<string>) returns (sel: seq<string>)
      requires Valid()
      modifies this`selection
      ensures Valid()
      ensures selection == Matching(store, selectors, matches) && sel == selection
    {
      selection := Matching(store, selectors, matches);
      sel := selection;
    }

    /** lib/recon.js:172-174 and 208-210: both reset the selection. */
    method Unselect() returns (sel: seq<string>)
      requires Valid()
      modifies this`selection
      ensures Valid()
      ensures selection == [] && sel == []
    {
      selection := [];
      sel := [];
    }

    /** lib/recon.js:176-206: the selection starts as every element and each
        step replaces it; an unknown step name throws after the earlier steps
        have replaced the selection. The graph is not changed. */
    method Traverse(exprs: seq<string>) returns (r: Result<seq<string>>)
      requires Valid()
      modifies this`selection
      ensures Valid()
      ensures var t := RunSteps(store, store.order, ParseAll(exprs), traversals, apply);
        && selection == t.selection
        && r == (if t.error.Some? then Failure(t.error.value) else Success(t.selection))
    {
      var t := RunStepsLoop(store, store.order, ParseAll(exprs), traversals, apply);
      selection := t.selection;
      r := if t.error.Some? then Failure(t.error.value) else Success(t.selection);
    }

    /** lib/recon.js:212-225: adds the group node, then sets `parent` on every
        node of the selection. The add is not guarded, so when the group id
        is already taken the library's error escapes before the move and
        nothing changes; the failure carries the taken id. */
    method Group(text: string, target: Option<seq<string>>) returns (r: Result<string>)
      requires Valid()
      modifies this`store
      ensures Valid()
      ensures var pid := makeId("group", text);
        !Accepts(old(store), GroupNode(pid, text)) ==> r == Failure(pid) && store == old(store)
      ensures var pid := makeId("group", text);
        var st1 := Insert(old(store), GroupNode(pid, text));
        var sel := if target.Some? then target.value else selection;
        Accepts(old(store), GroupNode(pid, text)) ==>
          r == Success(pid) && store == Annotate(st1, NodesOf(st1, sel), "parent", _ => Str(pid))
    {
      var sel := if target.Some? then target.value else selection;
      var pid := makeId("group", text);
      var g := GroupNode(pid, text);
      if !Accepts(store, g) {
        return Failure(pid);
      }
      InsertStoreWf(store, g);
      var st1 := Insert(store, g);
      var nodes := NodesOf(st1, sel);
      AnnotateWf(st1, nodes, "parent", _ => Str(pid));
      store := Annotate(st1, nodes, "parent", _ => Str(pid));
      r := Success(pid);
    }

    /** lib/recon.js:227-231: `parent` becomes null on every selected node. */
    method Ungroup(target: Option<seq<string>>)
      requires Valid()
      modifies this`store
      ensures Valid()
      ensures var sel := if target.Some? then target.value else selection;
        store == Annotate(old(store), NodesOf(old(store), sel), "parent", _ => Null)
    {
      var sel := if target.Some? then target.value else selection;
      AnnotateWf(store, NodesOf(store, sel), "parent", _ => Null);
      store := Annotate(store, NodesOf(store, sel), "parent", _ => Null);
    }

    /** Sets `weight` of each listed node, one node at a time. */
    method Weigh(nodes: seq<string>, f: string -> Value)
      requires Valid()
      requires forall x :: x in nodes ==> x in store.elems
      modifies this`store
      ensures Valid()
      ensures store == Annotate(old(store), nodes, "weight", f)
    {
      ghost var st0 := store;
      var i := 0;
      while i < |nodes|
        invariant 0 <= i <= |nodes|
        invariant store == Annotate(st0, nodes[..i], "weight", f)
      {
        var x := nodes[i];
        AnnotateNext(st0, nodes, i, "weight", f);
        store := store.(elems := store.elems[x := store.elems[x].(attrs := store.elems[x].attrs["weight" := f(x)])]);
        i := i + 1;
      }
      assert nodes[..|nodes|] == nodes;
      AnnotateWf(st0, nodes, "weight", f);
    }

    /** lib/recon.js:233-239: each selected node's `weight` becomes the number
        of edges touching it. */
    method Measure(target: Option<seq<string>>)
      requires Valid()
      modifies this`store
      ensures Valid()
      ensures var sel := if target.Some? then target.value else selection;
        store == Annotate(old(store), NodesOf(old(store), sel), "weight", DegreeOf(old(store)))
    {
      var sel := if target.Some? then target.value else selection;
      Weigh(NodesOf(store, sel), DegreeOf(store));
    }

    /** lib/recon.js:241-247: each selected node's `weight` becomes 0. */
    method Unmeasure(target: Option<seq<string>>)
      requires Valid()
      modifies this`store
      ensures Valid()
      ensures var sel := if target.Some? then target.value else selection;
        store == Annotate(old(store), NodesOf(old(store), sel), "weight", _ => Num(0))
    {
      var sel := if target.Some? then target.value else selection;
      Weigh(NodesOf(store, sel), _ => Num(0));
    }

    /** lib/recon.js:249-463: resolve and filter the transforms, run them in
        priority order on their inputs, merge every result into the graph and,
        with `weight`, measure the selection the call started from. An unknown
        transform name throws before anything changes. */
    method Transform(transformation: string, s: Settings, outcome: (string, seq<Element>) -> Outcome)
      returns (r: Result<seq<NodeSpec>>, notices: seq<Notice>)
      requires Valid()
      modifies this`store, this`selection
      ensures Valid()
      ensures var p := Plan(transforms, transformOrder, transformation, Elements(old(store), old(selection)),
                            s, detectors, outcome, makeId, maxNodesWarn, maxNodesCap);
        && (p.Failure? ==> r == Failure(p.error) && notices == []
                           && store == old(store) && selection == old(selection))
        && (p.Success? ==>
              (&& r == Success(p.value.results) && notices == p.value.notices
               && var added := Graph.AddNodes(old(store), p.value.results, makeId);
                  && selection == added.collection
                  && store == (if s.weight
                               then Annotate(added.store, NodesOf(added.store, old(selection)), "weight", DegreeOf(added.store))
                               else added.store)))
    {
      var p := PlanJobs(transforms, transformOrder, transformation, Elements(store, selection),
                        s, detectors, outcome, makeId, maxNodesWarn, maxNodesCap);
      if p.Failure? {
        r, notices := Failure(p.error), [];
        return;
      }
      MergeResults(p.value.results, s.weight);
      r, notices := Success(p.value.results), p.value.notices;
    }

    /** lib/recon.js:450-460: the results of every job go into the graph in
        one `addNodes`, which selects them; with `weight`, the selection the
        call started from is measured afterwards. */
    method MergeResults(results: seq<NodeSpec>, weight: bool)
      requires Valid()
      modifies this`store, this`selection
      ensures Valid()
      ensures var added := Graph.AddNodes(old(store), results, makeId);
        && selection == added.collection
        && store == (if weight
                     then Annotate(added.store, NodesOf(added.store, old(selection)), "weight", DegreeOf(added.store))
                     else added.store)
    {
      var oldSelection := selection;
      var _ := AddNodes(results);
      if weight {
        Measure(Some(oldSelection));
      }
    }
  }
}
