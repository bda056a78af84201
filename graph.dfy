/** The element store behind `Recon` and the identity and merge rules of
    `addNodes` (lib/recon.js:49-162), stated as functions over an immutable
    store value. The class in recon.dfy runs the same steps in place. */
module Graph {
  import opened Base
  import opened Text

  /** A node, or an edge from `source` to `target`. */
  datatype Kind = NodeKind | EdgeKind(source: string, target: string)

  /** The data of one element. Missing strings are "", and `typ` and `lbl` are the `type` and `label` keys. `attrs` holds every
      key other than id, type, label and props (parent, weight, ...). */
  datatype Element = Element(kind: Kind, id: string, typ: string, lbl: string,
                             props: Option<Props>, attrs: Props)

  /** An entry of a node spec's `edges`: a bare source id, or an object with
      `source`, `type` and further keys. */
  datatype EdgeSpec = Bare(source: string) | Full(source: string, typ: string, attrs: Props)

  /** A node spec `{ id, type, label, props, edges, ...rest }`. */
  datatype NodeSpec = NodeSpec(id: string, typ: string, lbl: string, props: Option<Props>,
                               edges: seq<EdgeSpec>, rest: Props)

  /** The elements by id, and the order in which they were added. */
  datatype Store = Store(elems: map<string, Element>, order: seq<string>)

  /** What one `addNodes` batch has done so far: the store, and the elements
      collected (nodes and edges, each once, in the order first collected). */
  datatype Batch = Batch(store: Store, collection: seq<string>)

  /** The keys that the destructuring of a node spec takes out of `...rest`. */
  const SpecKeys: set<string> := {"id", "type", "label", "props", "edges"}

  /** The keys an edge's own id, endpoints and type take. */
  const EdgeKeys: set<string> := {"id", "source", "target", "type"}

  const EmptyStore := Store(map[], [])

  ghost predicate Distinct(s: seq<string>)
  {
    forall i, j :: 0 <= i < j < |s| ==> s[i] != s[j]
  }

  predicate IsNode(st: Store, id: string)
  {
    id in st.elems && st.elems[id].kind.NodeKind?
  }

  predicate IsEdge(st: Store, id: string)
  {
    id in st.elems && st.elems[id].kind.EdgeKind?
  }

  /** The store invariant: ids are unique and listed once in `order`, each
      element is stored under its own id, and every edge joins two nodes. */
  ghost predicate Wf(st: Store)
  {
    && Distinct(st.order)
    && (forall id :: id in st.elems <==> id in st.order)
    && (forall id :: id in st.elems ==> st.elems[id].id == id)
    && (forall id :: IsEdge(st, id) ==>
          IsNode(st, st.elems[id].kind.source) && IsNode(st, st.elems[id].kind.target))
  }

  /** `st'` keeps every element of `st`, of the same kind and in the same
      order, and adds nothing in front of it. */
  ghost predicate Grows(st: Store, st': Store)
  {
    && st.elems.Keys <= st'.elems.Keys
    && (forall id :: id in st.elems ==> st'.elems[id].kind == st.elems[id].kind)
    && |st.order| <= |st'.order| && st'.order[..|st.order|] == st.order
  }

  // ---------------------------------------------------------------- identity

  /** The id of a node spec: its own when non-empty, else makeId(type, label). */
  function SpecId(s: NodeSpec, makeId: (string, string) -> string): string
  {
    if s.id != "" then s.id else makeId(s.typ, s.lbl)
  }

  /** The structured edge id `edge:<type>:<source>:<target>`. */
  function EdgeId(typ: string, source: string, target: string): string
  {
    "edge:" + typ + ":" + source + ":" + target
  }

  /** The edge id determines its type, source and target when none of them
      contains a colon. */
  lemma EdgeIdInjective(t1: string, s1: string, g1: string, t2: string, s2: string, g2: string)
    requires ':' !in t1 && ':' !in s1 && ':' !in g1 && ':' !in t2 && ':' !in s2 && ':' !in g2
    requires EdgeId(t1, s1, g1) == EdgeId(t2, s2, g2)
    ensures t1 == t2 && s1 == s2 && g1 == g2
  {
    EdgeIdSplits(t1, s1, g1);
    EdgeIdSplits(t2, s2, g2);
    var p1: seq<string> := ["edge", t1, s1, g1];
    var p2: seq<string> := ["edge", t2, s2, g2];
    assert p1 == p2;
    assert p1[1] == t1 && p1[2] == s1 && p1[3] == g1;
  }

  /** Splitting an edge id at `:` gives its four parts back. */
  lemma EdgeIdSplits(t: string, s: string, g: string)
    requires ':' !in t && ':' !in s && ':' !in g
    ensures Split(EdgeId(t, s, g), ':') == ["edge", t, s, g]
  {
    var p: seq<string> := ["edge", t, s, g];
    EdgeIdJoins(t, s, g);
    assert ':' !in "edge";
    assert forall i :: 0 <= i < |p| ==> ':' !in p[i];
    SplitJoin(p, ':');
  }

  /** An edge id is its four parts joined with `:`. */
  lemma EdgeIdJoins(t: string, s: string, g: string)
    ensures Join(["edge", t, s, g], ':') == EdgeId(t, s, g)
  {
    var p: seq<string> := ["edge", t, s, g];
    assert p[1..] == [t, s, g];
    assert [t, s, g][1..] == [s, g];
    assert [s, g][1..] == [g];
    assert Join([s, g], ':') == s + ":" + g;
    assert Join([t, s, g], ':') == t + ":" + (s + ":" + g);
    assert Join(p, ':') == "edge" + ":" + (t + ":" + (s + ":" + g));
    assert "edge" + ":" == "edge:";
  }

  function EdgeSource(e: EdgeSpec): string
  {
    match e
    case Bare(src) => src
    case Full(src, _, _) => src
  }

  function EdgeType(e: EdgeSpec): string
  {
    match e
    case Bare(_) => ""
    case Full(_, t, _) => t
  }

  /** An edge object whose own string under `key` replaces the built value,
      since `...data` is spread after `id`, `source` and `target`. */
  predicate Overrides(e: EdgeSpec, key: string)
  {
    e.Full? && key in e.attrs && e.attrs[key].Str?
  }

  /** The value an edge element ends up with under `key`. */
  function Spread(e: EdgeSpec, key: string, built: string): string
  {
    if Overrides(e, key) then e.attrs[key].s else built
  }

  /** The edge element a spec entry declares under the node `target`
      (lib/recon.js:122-145). */
  function NewEdge(e: EdgeSpec, target: string): (el: Element)
    ensures Overrides(e, "id") ==> el.id == e.attrs["id"].s
    ensures !Overrides(e, "id") ==> el.id == EdgeId(EdgeType(e), EdgeSource(e), target)
    ensures Overrides(e, "target") ==> el.kind == EdgeKind(EdgeSource(e), e.attrs["target"].s)
    ensures !Overrides(e, "target") ==> el.kind == EdgeKind(EdgeSource(e), target)
    ensures el.typ == EdgeType(e) && el.lbl == "" && el.props.None?
    ensures e.Bare? ==> el.attrs == map[]
    ensures e.Full? ==> el.attrs == e.attrs - EdgeKeys
  {
    var id := Spread(e, "id", EdgeId(EdgeType(e), EdgeSource(e), target));
    var to := Spread(e, "target", target);
    match e
    case Bare(src) => Element(EdgeKind(src, to), id, "", "", None, map[])
    case Full(src, t, a) => Element(EdgeKind(src, to), id, t, "", None, a - EdgeKeys)
  }

  /** Two entries without an own id declared under one node get the same
      edge id exactly when they name the same type and source, so a repeated
      entry is a duplicate and any other entry is a new edge. */
  lemma SameEdgeId(e1: EdgeSpec, e2: EdgeSpec, target: string)
    requires !Overrides(e1, "id") && !Overrides(e2, "id") && ':' !in target
    requires ':' !in EdgeType(e1) && ':' !in EdgeSource(e1) && ':' !in EdgeType(e2) && ':' !in EdgeSource(e2)
    ensures NewEdge(e1, target).id == NewEdge(e2, target).id <==>
            EdgeType(e1) == EdgeType(e2) && EdgeSource(e1) == EdgeSource(e2)
  {
    if NewEdge(e1, target).id == NewEdge(e2, target).id {
      EdgeIdInjective(EdgeType(e1), EdgeSource(e1), target, EdgeType(e2), EdgeSource(e2), target);
    }
  }

  // ---------------------------------------------------------------- merge

  /** The extra keys of a spec, after destructuring. */
  function Rest(s: NodeSpec): Props
  {
    s.rest - SpecKeys
  }

  /** The props of an element, with undefined spread as the empty object. */
  function PropsOf(p: Option<Props>): Props
  {
    match p
    case None => map[]
    case Some(m) => m
  }

  /** Merging a spec into the data of an existing element (lib/recon.js:62-77). */
  function Merge(e: Element, s: NodeSpec): Element
  {
    e.(typ := if s.typ != "" then s.typ else e.typ,
       lbl := if s.lbl != "" then s.lbl else e.lbl,
       props := if s.props.Some? then Some(PropsOf(e.props) + s.props.value) else e.props,
       attrs := e.attrs + Rest(s))
  }

  /** The data a new node is created with (lib/recon.js:91-100). */
  function NewNode(id: string, s: NodeSpec): Element
  {
    Element(NodeKind, id, s.typ, s.lbl, s.props, Rest(s))
  }

  /** What a merge keeps and what it replaces. */
  lemma MergeSemantics(e: Element, s: NodeSpec)
    ensures Merge(e, s).kind == e.kind && Merge(e, s).id == e.id
    ensures Merge(e, s).typ == (if s.typ == "" then e.typ else s.typ)
    ensures Merge(e, s).lbl == (if s.lbl == "" then e.lbl else s.lbl)
    ensures s.props.None? ==> Merge(e, s).props == e.props
    ensures s.props.Some? ==> Merge(e, s).props.Some?
    ensures s.props.Some? ==>
      Merge(e, s).props.value.Keys == PropsOf(e.props).Keys + s.props.value.Keys
    ensures s.props.Some? ==>
      forall k :: k in s.props.value ==> Merge(e, s).props.value[k] == s.props.value[k]
    ensures s.props.Some? ==>
      forall k :: k in PropsOf(e.props) && k !in s.props.value ==>
        Merge(e, s).props.value[k] == PropsOf(e.props)[k]
    ensures forall k :: k in Rest(s) ==> Merge(e, s).attrs[k] == Rest(s)[k]
    ensures forall k :: k in e.attrs && k !in Rest(s) ==> Merge(e, s).attrs[k] == e.attrs[k]
  {
  }

  /** Merging the same spec a second time changes nothing. */
  lemma MergeIdempotent(e: Element, s: NodeSpec)
    ensures Merge(Merge(e, s), s) == Merge(e, s)
    ensures Merge(NewNode(e.id, s), s) == NewNode(e.id, s)
  {
    var m := Merge(e, s);
    if s.props.Some? {
      assert PropsOf(m.props) + s.props.value == PropsOf(e.props) + s.props.value;
    }
    assert m.attrs + Rest(s) == m.attrs;
    var n := NewNode(e.id, s);
    if s.props.Some? {
      assert PropsOf(n.props) + s.props.value == s.props.value;
    }
    assert n.attrs + Rest(s) == n.attrs;
  }

  // ---------------------------------------------------------------- adding

  /** The graph primitive accepts an element when its id is free and, for an
      edge, both endpoints are nodes; otherwise the add does nothing. */
  predicate Accepts(st: Store, el: Element)
  {
    && el.id !in st.elems
    && (el.kind.EdgeKind? ==> IsNode(st, el.kind.source) && IsNode(st, el.kind.target))
  }

  function Insert(st: Store, el: Element): Store
  {
    Store(st.elems[el.id := el], st.order + [el.id])
  }

  /** Adding an element to a collection keeps one copy of it. */
  function AppendNew(c: seq<string>, x: string): (r: seq<string>)
    ensures forall y :: y in r <==> y in c || y == x
  {
    if x in c then c else c + [x]
  }

  /** One entry of `edges`, with the node `target` as the edge's target
      (lib/recon.js:119-156). A refused edge is skipped. */
  function AddEdge(b: Batch, e: EdgeSpec, target: string): Batch
  {
    var el := NewEdge(e, target);
    if Accepts(b.store, el) then Batch(Insert(b.store, el), AppendNew(b.collection, el.id)) else b
  }

  function AddEdges(b: Batch, edges: seq<EdgeSpec>, target: string): Batch
  {
    if |edges| == 0 then b
    else AddEdge(AddEdges(b, edges[..|edges| - 1], target), edges[|edges| - 1], target)
  }

  /** One node spec: merge or create the node, collect it, then add its edges
      (lib/recon.js:54-156). */
  function AddSpec(b: Batch, s: NodeSpec, makeId: (string, string) -> string): Batch
  {
    var id := SpecId(s, makeId);
    AddEdges(Batch(NodeStep(b.store, s, id), AppendNew(b.collection, id)), s.edges, id)
  }

  function AddSpecs(b: Batch, specs: seq<NodeSpec>, makeId: (string, string) -> string): Batch
  {
    if |specs| == 0 then b
    else AddSpec(AddSpecs(b, specs[..|specs| - 1], makeId), specs[|specs| - 1], makeId)
  }

  /** The nodes of a collection, in order (`collection.nodes()`). */
  function NodesOf(st: Store, c: seq<string>): (r: seq<string>)
    ensures forall x :: x in r <==> x in c && IsNode(st, x)
  {
    if |c| == 0 then []
    else NodesOf(st, c[..|c| - 1]) + (if IsNode(st, c[|c| - 1]) then [c[|c| - 1]] else [])
  }

  /** The whole of `addNodes`: the new store and the new selection. */
  function AddNodes(st: Store, specs: seq<NodeSpec>, makeId: (string, string) -> string): Batch
  {
    var b := AddSpecs(Batch(st, []), specs, makeId);
    Batch(b.store, NodesOf(b.store, b.collection))
  }

  // ---------------------------------------------------------------- batch invariants

  /** A batch in progress: a well-formed store whose collection lists
      distinct elements of that store. */
  ghost predicate BatchWf(b: Batch)
  {
    Wf(b.store) && Distinct(b.collection) && (forall x :: x in b.collection ==> x in b.store.elems)
  }

  /** Appending a name that is not yet listed keeps a list distinct. */
  lemma AppendDistinct(c: seq<string>, x: string)
    requires Distinct(c) && x !in c
    ensures Distinct(c + [x])
  {
    var r := c + [x];
    forall i, j | 0 <= i < j < |r| ensures r[i] != r[j] {
      if j < |c| {
        assert r[i] == c[i] && r[j] == c[j];
      } else {
        assert r[i] == c[i];
      }
    }
  }

  /** After inserting an accepted element every edge still joins two nodes. */
  lemma InsertKeepsEdges(st: Store, el: Element)
    requires Wf(st) && Accepts(st, el)
    ensures var st' := Insert(st, el);
      forall id :: IsEdge(st', id) ==> IsNode(st', st'.elems[id].kind.source) && IsNode(st', st'.elems[id].kind.target)
  {
    var st' := Insert(st, el);
    forall id | IsEdge(st', id)
      ensures IsNode(st', st'.elems[id].kind.source) && IsNode(st', st'.elems[id].kind.target)
    {
      if id != el.id {
        assert IsEdge(st, id);
      }
    }
  }

  /** Inserting an accepted element keeps the store invariant. */
  lemma InsertStoreWf(st: Store, el: Element)
    requires Wf(st) && Accepts(st, el)
    ensures Wf(Insert(st, el)) && Grows(st, Insert(st, el))
  {
    var st' := Insert(st, el);
    assert st'.order[..|st.order|] == st.order;
    AppendDistinct(st.order, el.id);
    InsertKeepsEdges(st, el);
  }

  lemma InsertWf(b: Batch, el: Element)
    requires BatchWf(b) && Accepts(b.store, el)
    ensures var st := Insert(b.store, el);
      BatchWf(Batch(st, AppendNew(b.collection, el.id))) && Grows(b.store, st)
  {
    InsertStoreWf(b.store, el);
    if el.id !in b.collection {
      AppendDistinct(b.collection, el.id);
    }
  }

  lemma AddEdgesWf(b: Batch, edges: seq<EdgeSpec>, target: string)
    requires BatchWf(b)
    ensures BatchWf(AddEdges(b, edges, target)) && Grows(b.store, AddEdges(b, edges, target).store)
    ensures forall x :: x in AddEdges(b, edges, target).store.elems && x !in b.store.elems ==>
              IsEdge(AddEdges(b, edges, target).store, x)
    ensures forall x :: x in AddEdges(b, edges, target).collection <==>
              x in b.collection || (x in AddEdges(b, edges, target).store.elems && x !in b.store.elems)
    ensures forall x :: x in b.store.elems ==> AddEdges(b, edges, target).store.elems[x] == b.store.elems[x]
  {
    if |edges| > 0 {
      var b1 := AddEdges(b, edges[..|edges| - 1], target);
      AddEdgesWf(b, edges[..|edges| - 1], target);
      var el := NewEdge(edges[|edges| - 1], target);
      if Accepts(b1.store, el) {
        InsertWf(b1, el);
      }
    }
  }

  /** The store of `AddSpec` once the spec's own node is merged or created. */
  function NodeStep(st: Store, s: NodeSpec, id: string): Store
  {
    if id in st.elems then st.(elems := st.elems[id := Merge(st.elems[id], s)])
    else Insert(st, NewNode(id, s))
  }

  lemma NodeStepWf(b: Batch, s: NodeSpec, id: string)
    requires BatchWf(b)
    requires id !in b.store.elems ==> NewNode(id, s).id == id
    ensures BatchWf(Batch(NodeStep(b.store, s, id), AppendNew(b.collection, id)))
    ensures Grows(b.store, NodeStep(b.store, s, id))
    ensures forall x :: x in NodeStep(b.store, s, id).elems && x != id ==> x in b.store.elems
  {
    var st := NodeStep(b.store, s, id);
    if id in b.store.elems {
      forall x | IsEdge(st, x)
        ensures IsNode(st, st.elems[x].kind.source) && IsNode(st, st.elems[x].kind.target)
      {
        assert IsEdge(b.store, x);
      }
    } else {
      InsertWf(b, NewNode(id, s));
    }
  }

  lemma AddSpecWf(b: Batch, s: NodeSpec, makeId: (string, string) -> string)
    requires BatchWf(b)
    ensures BatchWf(AddSpec(b, s, makeId)) && Grows(b.store, AddSpec(b, s, makeId).store)
    ensures SpecId(s, makeId) in AddSpec(b, s, makeId).store.elems
    ensures SpecId(s, makeId) in AddSpec(b, s, makeId).collection
    ensures forall x :: x in b.collection ==> x in AddSpec(b, s, makeId).collection
  {
    var id := SpecId(s, makeId);
    var b0 := Batch(NodeStep(b.store, s, id), AppendNew(b.collection, id));
    assert AddSpec(b, s, makeId) == AddEdges(b0, s.edges, id);
    NodeStepWf(b, s, id);
    AddEdgesWf(b0, s.edges, id);
    GrowsTrans(b.store, b0.store, AddSpec(b, s, makeId).store);
  }

  /** A spec creates no element but its own node and edges. */
  lemma AddSpecFresh(b: Batch, s: NodeSpec, makeId: (string, string) -> string, x: string)
    requires BatchWf(b)
    requires x in AddSpec(b, s, makeId).store.elems && x !in b.store.elems && x != SpecId(s, makeId)
    ensures IsEdge(AddSpec(b, s, makeId).store, x)
  {
    var id := SpecId(s, makeId);
    var b0 := Batch(NodeStep(b.store, s, id), AppendNew(b.collection, id));
    assert AddSpec(b, s, makeId) == AddEdges(b0, s.edges, id);
    NodeStepWf(b, s, id);
    AddEdgesWf(b0, s.edges, id);
  }

  /** A spec collects its own node and the edges it creates. */
  lemma AddSpecCollects(b: Batch, s: NodeSpec, makeId: (string, string) -> string, x: string)
    requires BatchWf(b)
    requires x in AddSpec(b, s, makeId).collection
    ensures || x in b.collection || x == SpecId(s, makeId)
            || (x !in b.store.elems && x in AddSpec(b, s, makeId).store.elems)
  {
    var id := SpecId(s, makeId);
    var b0 := Batch(NodeStep(b.store, s, id), AppendNew(b.collection, id));
    assert AddSpec(b, s, makeId) == AddEdges(b0, s.edges, id);
    NodeStepWf(b, s, id);
    AddEdgesWf(b0, s.edges, id);
  }

  lemma GrowsTrans(a: Store, b: Store, c: Store)
    requires Grows(a, b) && Grows(b, c)
    ensures Grows(a, c)
  {
    assert c.order[..|a.order|] == c.order[..|b.order|][..|a.order|];
  }

  lemma {:induction false} AddSpecsWf(b: Batch, specs: seq<NodeSpec>, makeId: (string, string) -> string)
    requires BatchWf(b)
    ensures BatchWf(AddSpecs(b, specs, makeId)) && Grows(b.store, AddSpecs(b, specs, makeId).store)
  {
    if |specs| > 0 {
      var init := specs[..|specs| - 1];
      var b1 := AddSpecs(b, init, makeId);
      AddSpecsWf(b, init, makeId);
      AddSpecWf(b1, specs[|specs| - 1], makeId);
      GrowsTrans(b.store, b1.store, AddSpecs(b, specs, makeId).store);
    } else {
      assert b.store.order[..|b.store.order|] == b.store.order;
    }
  }

  /** The last spec of a batch keeps the ids the earlier specs collected and
      collects its own. */
  lemma HasIdsStep(b1: Batch, specs: seq<NodeSpec>, makeId: (string, string) -> string)
    requires |specs| > 0 && BatchWf(b1)
    requires forall i :: 0 <= i < |specs| - 1 ==> SpecId(specs[i], makeId) in b1.collection
    ensures forall i :: 0 <= i < |specs| ==>
      SpecId(specs[i], makeId) in AddSpec(b1, specs[|specs| - 1], makeId).collection
  {
    AddSpecWf(b1, specs[|specs| - 1], makeId);
  }

  lemma {:induction false} AddSpecsCollectsIds(b: Batch, specs: seq<NodeSpec>, makeId: (string, string) -> string)
    requires BatchWf(b)
    ensures forall i :: 0 <= i < |specs| ==> SpecId(specs[i], makeId) in AddSpecs(b, specs, makeId).collection
  {
    if |specs| > 0 {
      var init := specs[..|specs| - 1];
      AddSpecsWf(b, init, makeId);
      AddSpecsCollectsIds(b, init, makeId);
      var b1 := AddSpecs(b, init, makeId);
      forall i | 0 <= i < |specs| - 1 ensures SpecId(specs[i], makeId) in b1.collection {
        assert specs[i] == init[i];
      }
      HasIdsStep(b1, specs, makeId);
    }
  }

  /** Every spec of a batch ends up stored and collected under its id. */
  lemma AddSpecsHasIds(b: Batch, specs: seq<NodeSpec>, makeId: (string, string) -> string)
    requires BatchWf(b)
    ensures forall i :: 0 <= i < |specs| ==> SpecId(specs[i], makeId) in AddSpecs(b, specs, makeId).store.elems
    ensures forall i :: 0 <= i < |specs| ==> SpecId(specs[i], makeId) in AddSpecs(b, specs, makeId).collection
  {
    AddSpecsCollectsIds(b, specs, makeId);
    AddSpecsWf(b, specs, makeId);
  }

  /** `x` is the id of one of the specs. */
  predicate IdOfSome(specs: seq<NodeSpec>, makeId: (string, string) -> string, x: string)
  {
    exists i :: 0 <= i < |specs| && SpecId(specs[i], makeId) == x
  }

  /** The last spec of a batch collects only its own id or edges it creates,
      and keeps what the earlier specs collected. */
  lemma CollectsStep(b: Batch, b1: Batch, specs: seq<NodeSpec>, makeId: (string, string) -> string, x: string)
    requires |specs| > 0 && BatchWf(b1) && Grows(b.store, b1.store)
    requires x in b1.collection ==>
      || x in b.collection
      || (exists i :: 0 <= i < |specs| - 1 && SpecId(specs[i], makeId) == x)
      || (x !in b.store.elems && IsEdge(b1.store, x))
    requires x in AddSpec(b1, specs[|specs| - 1], makeId).collection
    ensures var st' := AddSpec(b1, specs[|specs| - 1], makeId).store;
      x in b.collection || IdOfSome(specs, makeId, x) || (x !in b.store.elems && IsEdge(st', x))
  {
    var s := specs[|specs| - 1];
    AddSpecWf(b1, s, makeId);
    AddSpecCollects(b1, s, makeId, x);
    if x !in b1.store.elems && x != SpecId(s, makeId) {
      AddSpecFresh(b1, s, makeId, x);
    }
  }

  /** What a batch collects: what was collected before, the specs' ids and
      the edges it creates. */
  lemma {:induction false} AddSpecsCollects(b: Batch, specs: seq<NodeSpec>, makeId: (string, string) -> string, x: string)
    requires BatchWf(b)
    requires x in AddSpecs(b, specs, makeId).collection
    ensures || x in b.collection
            || IdOfSome(specs, makeId, x)
            || (x !in b.store.elems && IsEdge(AddSpecs(b, specs, makeId).store, x))
  {
    if |specs| > 0 {
      var init := specs[..|specs| - 1];
      AddSpecsWf(b, init, makeId);
      var b1 := AddSpecs(b, init, makeId);
      if x in b1.collection {
        AddSpecsCollects(b, init, makeId, x);
        if IdOfSome(init, makeId, x) {
          var i :| 0 <= i < |init| && SpecId(init[i], makeId) == x;
          assert specs[i] == init[i];
        }
      }
      CollectsStep(b, b1, specs, makeId, x);
    }
  }

  // ---------------------------------------------------------------- properties of addNodes

  /** `addNodes` keeps the store well formed, never removes or re-kinds an
      element, stores every spec under its id, and returns as the selection
      exactly the specs' ids that are nodes, each once; edges never appear
      in it. */
  lemma AddNodesSpec(st: Store, specs: seq<NodeSpec>, makeId: (string, string) -> string)
    requires Wf(st)
    ensures var r := AddNodes(st, specs, makeId);
      && Wf(r.store) && Grows(st, r.store)
      && (forall i :: 0 <= i < |specs| ==> SpecId(specs[i], makeId) in r.store.elems)
      && Distinct(r.collection)
      && (forall x :: x in r.collection ==> IsNode(r.store, x))
      && (forall x :: x in r.collection <==>
            (exists i :: 0 <= i < |specs| && SpecId(specs[i], makeId) == x) && IsNode(r.store, x))
  {
    var b := AddSpecs(Batch(st, []), specs, makeId);
    AddSpecsWf(Batch(st, []), specs, makeId);
    AddSpecsHasIds(Batch(st, []), specs, makeId);
    NodesOfDistinct(b.store, b.collection);
    forall x | (exists i :: 0 <= i < |specs| && SpecId(specs[i], makeId) == x) && IsNode(b.store, x)
      ensures x in b.collection
    {
    }
    forall x | x in NodesOf(b.store, b.collection)
      ensures exists i :: 0 <= i < |specs| && SpecId(specs[i], makeId) == x
    {
      AddSpecsCollects(Batch(st, []), specs, makeId, x);
      assert IdOfSome(specs, makeId, x);
    }
  }

  lemma NodesOfDistinct(st: Store, c: seq<string>)
    requires Distinct(c)
    ensures Distinct(NodesOf(st, c))
  {
    if |c| > 0 {
      NodesOfDistinct(st, c[..|c| - 1]);
    }
  }

  /** The node ids of a store. */
  function NodeIds(st: Store): set<string>
  {
    set x | x in st.elems && st.elems[x].kind.NodeKind?
  }

  /** Adding specs whose ids are all present already creates no node. */
  lemma {:induction false} PresentSpecsCreateNoNode(b: Batch, specs: seq<NodeSpec>, makeId: (string, string) -> string)
    requires BatchWf(b)
    requires forall i :: 0 <= i < |specs| ==> SpecId(specs[i], makeId) in b.store.elems
    ensures NodeIds(AddSpecs(b, specs, makeId).store) == NodeIds(b.store)
  {
    if |specs| > 0 {
      var init := specs[..|specs| - 1];
      forall i | 0 <= i < |init| ensures SpecId(init[i], makeId) in b.store.elems {
        assert init[i] == specs[i];
      }
      PresentSpecsCreateNoNode(b, init, makeId);
      var b1 := AddSpecs(b, init, makeId);
      AddSpecsWf(b, init, makeId);
      AddSpecWf(b1, specs[|specs| - 1], makeId);
      var b' := AddSpec(b1, specs[|specs| - 1], makeId);
      assert SpecId(specs[|specs| - 1], makeId) in b1.store.elems;
      forall x | x in NodeIds(b'.store) ensures x in NodeIds(b1.store) {
        if x !in b1.store.elems {
          AddSpecFresh(b1, specs[|specs| - 1], makeId, x);
        }
      }
    }
  }

  /** Re-adding the batch a second time creates no node: every spec finds
      the node the first run left under its id. */
  lemma ReAddCreatesNoNode(st: Store, specs: seq<NodeSpec>, makeId: (string, string) -> string)
    requires Wf(st)
    ensures var once := AddNodes(st, specs, makeId).store;
      NodeIds(AddNodes(once, specs, makeId).store) == NodeIds(once)
  {
    var once := AddNodes(st, specs, makeId).store;
    AddNodesSpec(st, specs, makeId);
    PresentSpecsCreateNoNode(Batch(once, []), specs, makeId);
  }

  /** Inserting an edge keeps every refused element refused. */
  lemma InsertEdgeKeepsRefusal(st: Store, el: Element, other: Element)
    requires el.kind.EdgeKind? && !Accepts(st, other)
    ensures !Accepts(Insert(st, el), other)
  {
    var st' := Insert(st, el);
    forall x | IsNode(st', x) ensures IsNode(st, x) {
    }
  }

  /** After a node's edges are added, adding any of them again is refused:
      each is either stored already or still lacks an endpoint. */
  lemma {:induction false} AddEdgesThenRefused(b: Batch, edges: seq<EdgeSpec>, target: string)
    ensures forall k :: 0 <= k < |edges| ==> !Accepts(AddEdges(b, edges, target).store, NewEdge(edges[k], target))
  {
    if |edges| > 0 {
      var init := edges[..|edges| - 1];
      var b1 := AddEdges(b, init, target);
      AddEdgesThenRefused(b, init, target);
      var el := NewEdge(edges[|edges| - 1], target);
      forall k | 0 <= k < |edges|
        ensures !Accepts(AddEdges(b, edges, target).store, NewEdge(edges[k], target))
      {
        if Accepts(b1.store, el) {
          if k < |init| {
            assert edges[k] == init[k];
            InsertEdgeKeepsRefusal(b1.store, el, NewEdge(edges[k], target));
          }
        } else if k < |init| {
          assert edges[k] == init[k];
        }
      }
    }
  }

  /** A collection that grew only by appending. */
  lemma {:induction false} AddEdgesAppends(b: Batch, edges: seq<EdgeSpec>, target: string)
    ensures var c := AddEdges(b, edges, target).collection;
      |b.collection| <= |c| && c[..|b.collection|] == b.collection
  {
    if |edges| > 0 {
      AddEdgesAppends(b, edges[..|edges| - 1], target);
      var c1 := AddEdges(b, edges[..|edges| - 1], target).collection;
      var c := AddEdges(b, edges, target).collection;
      assert c[..|c1|] == c1;
      assert c[..|b.collection|] == c1[..|b.collection|];
    }
  }

  /** A distinct list drawn from one element is empty or that element. */
  lemma DistinctSingle(r: seq<string>, id: string)
    requires Distinct(r) && forall x :: x in r ==> x == id
    ensures r == [] || r == [id]
  {
    if |r| > 0 {
      assert r[0] in r;
      assert r[|r| - 1] in r;
      assert r == [id];
    }
  }

  /** The batch that adding a single spec produces. */
  function OneSpec(st: Store, s: NodeSpec, makeId: (string, string) -> string): Batch
  {
    var id := SpecId(s, makeId);
    AddEdges(Batch(NodeStep(st, s, id), [id]), s.edges, id)
  }

  lemma AddNodesOne(st: Store, s: NodeSpec, makeId: (string, string) -> string)
    ensures AddNodes(st, [s], makeId)
         == Batch(OneSpec(st, s, makeId).store, NodesOf(OneSpec(st, s, makeId).store, OneSpec(st, s, makeId).collection))
  {
    var e0 := Batch(st, []);
    assert [s][..0] == [];
    assert AddSpecs(e0, [s], makeId) == AddSpec(e0, s, makeId);
    assert AppendNew([], SpecId(s, makeId)) == [SpecId(s, makeId)];
  }

  /** After a node step the node is a fixed point of merging the same spec. */
  lemma NodeStepSettles(st: Store, s: NodeSpec, id: string)
    ensures id in NodeStep(st, s, id).elems
    ensures Merge(NodeStep(st, s, id).elems[id], s) == NodeStep(st, s, id).elems[id]
  {
    if id in st.elems {
      MergeIdempotent(st.elems[id], s);
    } else {
      MergeIdempotent(NewNode(id, s), s);
    }
  }

  /** A node step on a node that a merge does not change leaves the store alone. */
  lemma NodeStepFixed(st: Store, s: NodeSpec, id: string)
    requires id in st.elems && Merge(st.elems[id], s) == st.elems[id]
    ensures NodeStep(st, s, id) == st
  {
    assert st.elems[id := st.elems[id]] == st.elems;
  }

  /** The first run's node step keeps a well-formed batch. */
  lemma OneSpecStartWf(st: Store, s: NodeSpec, id: string)
    requires Wf(st)
    ensures BatchWf(Batch(NodeStep(st, s, id), [id]))
  {
    assert BatchWf(Batch(st, []));
    assert AppendNew([], id) == [id];
    NodeStepWf(Batch(st, []), s, id);
  }

  /** The second run of a single spec finds everything in place. */
  lemma OneSpecAgain(st: Store, s: NodeSpec, makeId: (string, string) -> string)
    requires Wf(st)
    ensures var st1 := OneSpec(st, s, makeId).store;
      OneSpec(st1, s, makeId) == Batch(st1, [SpecId(s, makeId)])
  {
    var id := SpecId(s, makeId);
    var b0 := Batch(NodeStep(st, s, id), [id]);
    OneSpecStartWf(st, s, id);
    NodeStepSettles(st, s, id);
    AddEdgesWf(b0, s.edges, id);
    var st1 := AddEdges(b0, s.edges, id).store;
    assert st1.elems[id] == b0.store.elems[id];
    NodeStepFixed(st1, s, id);
    AddEdgesThenRefused(b0, s.edges, id);
    AddEdgesUnchanged(Batch(st1, [id]), s.edges, id);
  }

  /** Edges added for a node whose batch holds only that node select nothing
      but that node. */
  lemma EdgesSelectOnlyTarget(b0: Batch, edges: seq<EdgeSpec>, id: string)
    requires BatchWf(b0) && b0.collection == [id]
    ensures var b1 := AddEdges(b0, edges, id);
      NodesOf(b1.store, b1.collection) == NodesOf(b1.store, [id])
  {
    AddEdgesWf(b0, edges, id);
    var b1 := AddEdges(b0, edges, id);
    var sel1 := NodesOf(b1.store, b1.collection);
    forall x | x in sel1 ensures x == id {
      assert x in b0.collection;
    }
    NodesOfDistinct(b1.store, b1.collection);
    DistinctSingle(sel1, id);
    assert id in b1.collection;
    assert [id][..0] == [];
  }

  /** The first run of a single spec selects at most its own node. */
  lemma OneSpecSelects(st: Store, s: NodeSpec, makeId: (string, string) -> string)
    requires Wf(st)
    ensures var b1 := OneSpec(st, s, makeId);
      NodesOf(b1.store, b1.collection) == NodesOf(b1.store, [SpecId(s, makeId)])
  {
    var id := SpecId(s, makeId);
    OneSpecStartWf(st, s, id);
    EdgesSelectOnlyTarget(Batch(NodeStep(st, s, id), [id]), s.edges, id);
  }

  /** Adding the same node spec twice is the same as adding it once: the
      second run finds its node, merges nothing new in, and every edge is
      either there already or still lacks an endpoint. */
  lemma AddSameSpecTwice(st: Store, s: NodeSpec, makeId: (string, string) -> string)
    requires Wf(st)
    ensures AddNodes(AddNodes(st, [s], makeId).store, [s], makeId) == AddNodes(st, [s], makeId)
  {
    var st1 := OneSpec(st, s, makeId).store;
    AddNodesOne(st, s, makeId);
    AddNodesOne(st1, s, makeId);
    OneSpecAgain(st, s, makeId);
    OneSpecSelects(st, s, makeId);
  }

  /** Edges that are all refused leave a batch as it is. */
  lemma {:induction false} AddEdgesUnchanged(b: Batch, edges: seq<EdgeSpec>, target: string)
    requires forall k :: 0 <= k < |edges| ==> !Accepts(b.store, NewEdge(edges[k], target))
    ensures AddEdges(b, edges, target) == b
  {
    if |edges| > 0 {
      var init := edges[..|edges| - 1];
      forall k | 0 <= k < |init| ensures !Accepts(b.store, NewEdge(init[k], target)) {
        assert init[k] == edges[k];
      }
      AddEdgesUnchanged(b, init, target);
    }
  }
}
